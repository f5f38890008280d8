/**
 The explicit freshness lifetime of a response (`cache_control_policy`).
 */
module CacheControl {
  import opened Text
  import opened HttpTypes
  import opened HeaderLists

  /** The Unicode `White_Space` characters, which `str::trim` removes. */
  const WHITE_SPACE: set<char> := {
    '\U{9}', '\U{A}', '\U{B}', '\U{C}', '\U{D}', ' ', '\U{85}', '\U{A0}', '\U{1680}',
    '\U{2000}', '\U{2001}', '\U{2002}', '\U{2003}', '\U{2004}', '\U{2005}', '\U{2006}',
    '\U{2007}', '\U{2008}', '\U{2009}', '\U{200A}', '\U{2028}', '\U{2029}', '\U{202F}',
    '\U{205F}', '\U{3000}'
  }

  datatype SkipReason =
    | UnsupportedScheme
    | NonGetMethod
    | RequestHasCookie
    | RequestHasByteRange
    | ResponseStatus(status: nat)
    | Redirected
    | ResponseSetsCookie
    | Vary
    | NoStore
    | Private
    | NoCache
    | NoExplicitFreshness
    | InvalidMaxAge
    | NotFresh
    | EntryTooLarge
    | CapacityDisabled
    | StaleEpoch
    | TimeOverflow

  datatype Policy = Store(freshness: nat) | Skip(reason: SkipReason)

  // ---- One directive ----------------------------------------------------------

  predicate IsDigits(s: string) {
    s != [] && forall i :: 0 <= i < |s| ==> '0' <= s[i] <= '9'
  }

  function DigitsValue(s: string): nat
    requires forall i :: 0 <= i < |s| ==> '0' <= s[i] <= '9'
  {
    if s == [] then 0 else 10 * DigitsValue(s[..|s| - 1]) + (s[|s| - 1] as int - '0' as int)
  }

  /** `str::parse::<u64>`: an optional plus sign, digits, no overflow. */
  function ParseU64(s: string): Option<nat> {
    var digits := if s != [] && s[0] == '+' then s[1..] else s;
    if IsDigits(digits) && DigitsValue(digits) <= U64_MAX then Some(DigitsValue(digits)) else None
  }

  function IndexOf(s: string, c: char): (r: Option<nat>)
    ensures r.Some? ==> r.value < |s| && s[r.value] == c && c !in s[..r.value]
    ensures r.None? ==> c !in s
  {
    if s == [] then None
    else if s[0] == c then Some(0)
    else
      match IndexOf(s[1..], c)
      case None => None
      case Some(i) => assert s[..i + 1] == [s[0]] + s[1..][..i]; Some(i + 1)
  }

  /** What one item does to the decision. */
  datatype Verdict = Ignored | MaxAge(seconds: nat) | Refused(reason: SkipReason)

  function DirectiveVerdict(directive: string): Verdict {
    var eq := IndexOf(directive, '=');
    var name := if eq.Some? then Trim(directive[..eq.value], WHITE_SPACE) else directive;
    if SameName(name, "no-store") then Refused(NoStore)
    else if SameName(name, "private") then Refused(Private)
    else if SameName(name, "no-cache") then Refused(NoCache)
    else if !SameName(name, "max-age") then Ignored
    else if eq.None? then Refused(InvalidMaxAge)
    else
      match ParseU64(Trim(Trim(directive[eq.value + 1..], WHITE_SPACE), {'"'}))
      case None => Refused(InvalidMaxAge)
      case Some(seconds) => MaxAge(seconds)
  }

  function ItemVerdict(item: Item): Verdict {
    match item
    case Undecodable => Refused(InvalidMaxAge)
    case Member(text) => DirectiveVerdict(text)
  }

  // ---- The whole header ---------------------------------------------------------

  /** The left-to-right decision with its early returns. */
  function Decide(items: seq<Item>, maxAge: Option<nat>): Policy {
    if items == [] then
      match maxAge
      case Some(seconds) => if seconds == 0 then Skip(NotFresh) else Store(seconds)
      case None => Skip(NoExplicitFreshness)
    else
      match ItemVerdict(items[0])
      case Ignored => Decide(items[1..], maxAge)
      case Refused(reason) => Skip(reason)
      case MaxAge(seconds) =>
        if maxAge.Some? && maxAge.value != seconds then Skip(InvalidMaxAge)
        else Decide(items[1..], Some(seconds))
  }

  function ControlItems(headers: seq<Header>): seq<Item> {
    Items(headers, "cache-control", WHITE_SPACE)
  }

  function CacheControlPolicy(headers: seq<Header>): Policy {
    Decide(ControlItems(headers), None)
  }

  /** Every item is harmless or asks for exactly this lifetime. */
  predicate AllAllow(items: seq<Item>, freshness: nat) {
    forall i :: 0 <= i < |items| ==> ItemVerdict(items[i]) in {Ignored, MaxAge(freshness)}
  }

  predicate SomeAsks(items: seq<Item>, freshness: nat) {
    exists i :: 0 <= i < |items| && ItemVerdict(items[i]) == MaxAge(freshness)
  }

  lemma {:induction false} DecideMeaning(items: seq<Item>, maxAge: Option<nat>, freshness: nat)
    ensures
      Decide(items, maxAge) == Store(freshness) <==>
      && freshness > 0
      && AllAllow(items, freshness)
      && (maxAge == Some(freshness) || (maxAge == None && SomeAsks(items, freshness)))
  {
    hide DirectiveVerdict;
    if items != [] {
      var v, rest := ItemVerdict(items[0]), items[1..];
      DecideMeaning(rest, if v.MaxAge? then Some(v.seconds) else maxAge, freshness);
      assert items == [items[0]] + rest;
      assert AllAllow(items, freshness) <==> v in {Ignored, MaxAge(freshness)} && AllAllow(rest, freshness) by {
        if AllAllow(items, freshness) {
          assert ItemVerdict(items[0]) in {Ignored, MaxAge(freshness)};
          forall i | 0 <= i < |rest| ensures ItemVerdict(rest[i]) in {Ignored, MaxAge(freshness)} {
            assert rest[i] == items[i + 1];
          }
        }
      }
      assert SomeAsks(items, freshness) <==> v == MaxAge(freshness) || SomeAsks(rest, freshness) by {
        if SomeAsks(rest, freshness) {
          var i :| 0 <= i < |rest| && ItemVerdict(rest[i]) == MaxAge(freshness);
          assert items[i + 1] == rest[i];
        }
      }
    }
  }

  /** A response is stored for a lifetime exactly when its items allow and ask for it. */
  lemma StoreMeaning(headers: seq<Header>, freshness: nat)
    ensures
      CacheControlPolicy(headers) == Store(freshness) <==>
      freshness > 0 && AllAllow(ControlItems(headers), freshness) && SomeAsks(ControlItems(headers), freshness)
  {
    DecideMeaning(ControlItems(headers), None, freshness);
  }

  /** Order, repetition and line layout of directives do not decide storage or lifetime. */
  lemma StoreOrderIndependent(a: seq<Header>, b: seq<Header>, freshness: nat)
    requires SameItems(ControlItems(a), ControlItems(b))
    ensures CacheControlPolicy(a) == Store(freshness) <==> CacheControlPolicy(b) == Store(freshness)
  {
    hide DirectiveVerdict, Items;
    StoreMeaning(a, freshness);
    StoreMeaning(b, freshness);
    SameItemsVerdicts(ControlItems(a), ControlItems(b), freshness);
    SameItemsVerdicts(ControlItems(b), ControlItems(a), freshness);
  }

  lemma SameItemsVerdicts(x: seq<Item>, y: seq<Item>, freshness: nat)
    requires SameItems(x, y)
    ensures AllAllow(x, freshness) ==> AllAllow(y, freshness)
    ensures SomeAsks(x, freshness) ==> SomeAsks(y, freshness)
  {
    hide DirectiveVerdict;
    if AllAllow(x, freshness) {
      forall i | 0 <= i < |y| ensures ItemVerdict(y[i]) in {Ignored, MaxAge(freshness)} {
        assert y[i] in x;
      }
    }
    if SomeAsks(x, freshness) {
      var i :| 0 <= i < |x| && ItemVerdict(x[i]) == MaxAge(freshness);
      assert x[i] in y;
    }
  }

  /** A `Cache-Control` line split in two decides the same, down to the refusal reason. */
  lemma PolicyLineSplit(before: seq<Header>, after: seq<Header>, x: string, y: string)
    ensures
      CacheControlPolicy(before + [Header("cache-control", Utf8(x)), Header("cache-control", Utf8(y))] + after) ==
      CacheControlPolicy(before + [Header("cache-control", Utf8(x + [','] + y))] + after)
  {
    ItemsLineSplit(before, after, "cache-control", x, y, WHITE_SPACE);
  }

  lemma DecideConcat(a: seq<Item>, b: seq<Item>, maxAge: Option<nat>, seen: Option<nat>)
    requires Passed(a, maxAge, seen)
    ensures Decide(a + b, maxAge) == Decide(b, seen)
  {
    hide DirectiveVerdict;
    if a == [] {
      assert a + b == b;
    } else {
      var v := ItemVerdict(a[0]);
      DecideConcat(a[1..], b, if v.MaxAge? then Some(v.seconds) else maxAge, seen);
      assert (a + b)[1..] == a[1..] + b;
    }
  }

  /** Reading `a` starting from `maxAge` causes no early return and leaves `seen`. */
  predicate Passed(a: seq<Item>, maxAge: Option<nat>, seen: Option<nat>) {
    if a == [] then maxAge == seen
    else
      match ItemVerdict(a[0])
      case Ignored => Passed(a[1..], maxAge, seen)
      case Refused(_) => false
      case MaxAge(seconds) =>
        (maxAge.None? || maxAge.value == seconds) && Passed(a[1..], Some(seconds), seen)
  }

  lemma {:induction false} PassedNext(a: seq<Item>, item: Item, maxAge: Option<nat>, seen: Option<nat>)
    requires Passed(a, maxAge, seen) && !ItemVerdict(item).Refused?
    requires ItemVerdict(item).MaxAge? ==> seen.None? || seen.value == ItemVerdict(item).seconds
    ensures Passed(a + [item], maxAge, if ItemVerdict(item).MaxAge? then Some(ItemVerdict(item).seconds) else seen)
  {
    hide DirectiveVerdict;
    if a == [] {
      assert a + [item] == [item] && [item][1..] == [];
    } else {
      var v := ItemVerdict(a[0]);
      PassedNext(a[1..], item, if v.MaxAge? then Some(v.seconds) else maxAge, seen);
      assert (a + [item])[1..] == a[1..] + [item];
    }
  }

  /** The first item that refuses decides. */
  lemma RefusedAt(headers: seq<Header>, a: seq<Item>, item: Item, rest: seq<Item>, seen: Option<nat>)
    requires ControlItems(headers) == a + [item] + rest
    requires Passed(a, None, seen)
    ensures ItemVerdict(item).Refused? ==> CacheControlPolicy(headers) == Skip(ItemVerdict(item).reason)
    ensures ItemVerdict(item).MaxAge? && seen.Some? && seen.value != ItemVerdict(item).seconds ==>
              CacheControlPolicy(headers) == Skip(InvalidMaxAge)
  {
    hide DirectiveVerdict;
    DecideConcat(a, [item] + rest, None, seen);
    assert a + [item] + rest == a + ([item] + rest);
    assert ([item] + rest)[0] == item;
  }

  /** The items after item `f` of line `i`. */
  lemma ItemsAround(headers: seq<Header>, i: nat, f: nat) returns (rest: seq<Item>)
    requires i < |headers| && SameName(headers[i].name, "cache-control") && headers[i].value.Utf8?
    requires f < |Split(headers[i].value.text, ',')| && Trim(Split(headers[i].value.text, ',')[f], WHITE_SPACE) != []
    ensures
      var parts := Split(headers[i].value.text, ',');
      ControlItems(headers) ==
      Items(headers[..i], "cache-control", WHITE_SPACE) + Kept(parts[..f], WHITE_SPACE)
        + [Member(Trim(parts[f], WHITE_SPACE))] + rest
  {
    hide Split, Trim, Items, Kept;
    var parts := Split(headers[i].value.text, ',');
    KeptNext(parts, f, WHITE_SPACE);
    KeptConcat(parts[..f + 1], parts[f + 1..], WHITE_SPACE);
    assert parts[..f + 1] + parts[f + 1..] == parts;
    ItemsNext(headers, i, "cache-control", WHITE_SPACE);
    ItemsConcat(headers[..i + 1], headers[i + 1..], "cache-control", WHITE_SPACE);
    assert headers[..i + 1] + headers[i + 1..] == headers;
    rest := Kept(parts[f + 1..], WHITE_SPACE) + Items(headers[i + 1..], "cache-control", WHITE_SPACE);
  }

  lemma UndecodableLine(headers: seq<Header>, i: nat) returns (rest: seq<Item>)
    requires i < |headers| && SameName(headers[i].name, "cache-control") && headers[i].value.NotUtf8?
    ensures ControlItems(headers) == Items(headers[..i], "cache-control", WHITE_SPACE) + [Undecodable] + rest
  {
    hide Items;
    ItemsNext(headers, i, "cache-control", WHITE_SPACE);
    ItemsConcat(headers[..i + 1], headers[i + 1..], "cache-control", WHITE_SPACE);
    assert headers[..i + 1] + headers[i + 1..] == headers;
    rest := Items(headers[i + 1..], "cache-control", WHITE_SPACE);
  }

  lemma AllPassed(headers: seq<Header>, seen: Option<nat>)
    requires Passed(ControlItems(headers), None, seen)
    ensures CacheControlPolicy(headers) == Decide([], seen)
  {
    DecideConcat(ControlItems(headers), [], None, seen);
    assert ControlItems(headers) + [] == ControlItems(headers);
  }

  /** Reading directive `f` of line `i`, after `items` passed and left `seen`. */
  lemma ReadDirective(headers: seq<Header>, i: nat, f: nat, items: seq<Item>, seen: Option<nat>)
    requires i < |headers| && SameName(headers[i].name, "cache-control") && headers[i].value.Utf8?
    requires f < |Split(headers[i].value.text, ',')|
    requires items == LineBefore(headers, i) + Kept(Split(headers[i].value.text, ',')[..f], WHITE_SPACE)
    requires Passed(items, None, seen)
    ensures
      var parts := Split(headers[i].value.text, ',');
      var directive := Trim(parts[f], WHITE_SPACE);
      var next := LineBefore(headers, i) + Kept(parts[..f + 1], WHITE_SPACE);
      if directive == [] then next == items
      else
        && next == items + [Member(directive)]
        && match DirectiveVerdict(directive)
           case Ignored => Passed(next, None, seen)
           case Refused(reason) => CacheControlPolicy(headers) == Skip(reason)
           case MaxAge(seconds) =>
             if seen.Some? && seen.value != seconds then CacheControlPolicy(headers) == Skip(InvalidMaxAge)
             else Passed(next, None, Some(seconds))
  {
    hide Items, Kept, Split, Trim, Passed, CacheControlPolicy, DirectiveVerdict;
    var parts := Split(headers[i].value.text, ',');
    KeptNext(parts, f, WHITE_SPACE);
    var directive := Trim(parts[f], WHITE_SPACE);
    if directive != [] {
      var rest := ItemsAround(headers, i, f);
      RefusedAt(headers, items, Member(directive), rest, seen);
      var v := DirectiveVerdict(directive);
      if v.Ignored? || (v.MaxAge? && (seen.None? || seen.value == v.seconds)) {
        PassedNext(items, Member(directive), None, seen);
      }
    }
  }

  function LineBefore(headers: seq<Header>, i: nat): seq<Item>
    requires i <= |headers|
  {
    Items(headers[..i], "cache-control", WHITE_SPACE)
  }

  lemma ReadLine(headers: seq<Header>, i: nat)
    requires i < |headers|
    ensures
      LineBefore(headers, i + 1) ==
      if SameName(headers[i].name, "cache-control") then
        LineBefore(headers, i) + LineItems(headers[i].value, WHITE_SPACE)
      else LineBefore(headers, i)
    ensures headers[i].value.Utf8? ==>
              var parts := Split(headers[i].value.text, ',');
              && LineBefore(headers, i) + Kept(parts[..0], WHITE_SPACE) == LineBefore(headers, i)
              && Kept(parts[..|parts|], WHITE_SPACE) == LineItems(headers[i].value, WHITE_SPACE)
    ensures SameName(headers[i].name, "cache-control") && headers[i].value.NotUtf8? ==>
              forall seen :: Passed(LineBefore(headers, i), None, seen) ==>
                CacheControlPolicy(headers) == Skip(InvalidMaxAge)
  {
    hide Items, Split, Trim, Passed, CacheControlPolicy;
    ItemsNext(headers, i, "cache-control", WHITE_SPACE);
    if headers[i].value.Utf8? {
      var parts := Split(headers[i].value.text, ',');
      assert parts[..|parts|] == parts;
    } else if SameName(headers[i].name, "cache-control") {
      var rest := UndecodableLine(headers, i);
      forall seen | Passed(LineBefore(headers, i), None, seen)
        ensures CacheControlPolicy(headers) == Skip(InvalidMaxAge)
      {
        RefusedAt(headers, LineBefore(headers, i), Undecodable, rest, seen);
      }
    }
  }

  lemma ReadAll(headers: seq<Header>)
    ensures LineBefore(headers, 0) == [] && Passed([], None, None)
    ensures forall seen :: Passed(LineBefore(headers, |headers|), None, seen) ==>
              CacheControlPolicy(headers) == Decide([], seen)
  {
    hide CacheControlPolicy, DirectiveVerdict;
    assert headers[..|headers|] == headers;
    forall seen | Passed(LineBefore(headers, |headers|), None, seen)
      ensures CacheControlPolicy(headers) == Decide([], seen)
    {
      AllPassed(headers, seen);
    }
  }

  /** The parser: two nested loops over lines and directives, with early returns. */
  method ParseCacheControl(headers: seq<Header>) returns (policy: Policy)
    ensures policy == CacheControlPolicy(headers)
  {
    hide Kept, Split, Trim, Passed, CacheControlPolicy, ParseU64, Lower, IndexOf, LineBefore, LineItems;
    var maxAge: Option<nat> := None;
    ghost var items: seq<Item> := [];
    ReadAll(headers);
    var i := 0;
    while i < |headers|
      invariant 0 <= i <= |headers|
      invariant items == LineBefore(headers, i) && Passed(items, None, maxAge)
    {
      var header := headers[i];
      ReadLine(headers, i);
      i := i + 1;
      if !SameName(header.name, "cache-control") {
        continue;
      }
      if header.value.NotUtf8? {
        return Skip(InvalidMaxAge);
      }
      var parts := Split(header.value.text, ',');
      var f := 0;
      while f < |parts|
        invariant 0 <= f <= |parts|
        invariant items == LineBefore(headers, i - 1) + Kept(parts[..f], WHITE_SPACE)
        invariant Passed(items, None, maxAge)
      {
        var directive := Trim(parts[f], WHITE_SPACE);
        ReadDirective(headers, i - 1, f, items, maxAge);
        f := f + 1;
        if directive == [] {
          continue;
        }
        items := items + [Member(directive)];
        var eq := IndexOf(directive, '=');
        var name := if eq.Some? then Trim(directive[..eq.value], WHITE_SPACE) else directive;
        if SameName(name, "no-store") {
          return Skip(NoStore);
        }
        if SameName(name, "private") {
          return Skip(Private);
        }
        if SameName(name, "no-cache") {
          return Skip(NoCache);
        }
        if !SameName(name, "max-age") {
          continue;
        }
        if eq.None? {
          return Skip(InvalidMaxAge);
        }
        var value := Trim(directive[eq.value + 1..], WHITE_SPACE);
        var seconds := ParseU64(Trim(value, {'"'}));
        if seconds.None? {
          return Skip(InvalidMaxAge);
        }
        if maxAge.Some? && maxAge.value != seconds.value {
          return Skip(InvalidMaxAge);
        }
        maxAge := seconds;
      }
    }
    policy := if maxAge.None? then Skip(NoExplicitFreshness)
              else if maxAge.value == 0 then Skip(NotFresh)
              else Store(maxAge.value);
  }
}
