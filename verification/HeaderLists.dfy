/**
 Comma-separated header lists: the `Vary` selectors (`vary_selectors`) and the
 `Cache-Control` directives (`cache_control_policy`). Both parsers walk lines
 and members with early returns; both are proved to depend only on the members
 present, not on their order or on how they are spread over field lines.
 */
module HeaderLists {
  import opened Text
  import opened HttpTypes

  /** A list member, or a line whose bytes are not text. */
  datatype Item = Member(text: string) | Undecodable

  /** The non-empty trimmed members of one line. */
  function Kept(parts: seq<string>, drop: set<char>): seq<Item> {
    if parts == [] then []
    else
      var init, p := parts[..|parts| - 1], Trim(parts[|parts| - 1], drop);
      if p == [] then Kept(init, drop) else Kept(init, drop) + [Member(p)]
  }

  function LineItems(value: FieldValue, drop: set<char>): seq<Item> {
    match value
    case Utf8(text) => Kept(Split(text, ','), drop)
    case NotUtf8(_) => [Undecodable]
  }

  /** The members of every line of that name, in order. */
  function Items(headers: seq<Header>, name: string, drop: set<char>): seq<Item> {
    if headers == [] then []
    else
      var init, h := headers[..|headers| - 1], headers[|headers| - 1];
      if SameName(h.name, name) then Items(init, name, drop) + LineItems(h.value, drop)
      else Items(init, name, drop)
  }

  lemma {:induction false} KeptConcat(a: seq<string>, b: seq<string>, drop: set<char>)
    ensures Kept(a + b, drop) == Kept(a, drop) + Kept(b, drop)
  {
    if b == [] {
      assert a + b == a;
    } else {
      KeptConcat(a, b[..|b| - 1], drop);
      InitConcat(a, b);
    }
  }

  lemma {:induction false} ItemsConcat(a: seq<Header>, b: seq<Header>, name: string, drop: set<char>)
    ensures Items(a + b, name, drop) == Items(a, name, drop) + Items(b, name, drop)
    decreases |b|
  {
    hide Items, LineItems;
    if b == [] {
      assert a + b == a;
      ItemsNone(name, drop);
    } else {
      var init := b[..|b| - 1];
      ItemsConcat(a, init, name, drop);
      InitConcat(a, b);
      ItemsLast(a + b, name, drop);
      ItemsLast(b, name, drop);
      assert Items(a, name, drop) + Items(init, name, drop) + LineItems(b[|b| - 1].value, drop)
          == Items(a, name, drop) + (Items(init, name, drop) + LineItems(b[|b| - 1].value, drop));
    }
  }

  lemma ItemsNone(name: string, drop: set<char>)
    ensures Items([], name, drop) == []
  {
  }

  lemma ItemsLast(headers: seq<Header>, name: string, drop: set<char>)
    requires headers != []
    ensures
      var init, h := headers[..|headers| - 1], headers[|headers| - 1];
      Items(headers, name, drop) ==
      if SameName(h.name, name) then Items(init, name, drop) + LineItems(h.value, drop) else Items(init, name, drop)
  {
    hide LineItems;
  }

  /** Two lines of one name mean the same as one line with their values joined by a comma. */
  lemma ItemsLineSplit(
      before: seq<Header>, after: seq<Header>, name: string, x: string, y: string, drop: set<char>)
    ensures
      Items(before + [Header(name, Utf8(x)), Header(name, Utf8(y))] + after, name, drop) ==
      Items(before + [Header(name, Utf8(x + [','] + y))] + after, name, drop)
  {
    hide Items;
    var two, one := [Header(name, Utf8(x)), Header(name, Utf8(y))], [Header(name, Utf8(x + [','] + y))];
    PairItems(name, x, y, drop);
    ItemsConcat(before, two, name, drop);
    ItemsConcat(before, one, name, drop);
    ItemsConcat(before + two, after, name, drop);
    ItemsConcat(before + one, after, name, drop);
  }

  lemma PairItems(name: string, x: string, y: string, drop: set<char>)
    ensures
      Items([Header(name, Utf8(x)), Header(name, Utf8(y))], name, drop) ==
      Items([Header(name, Utf8(x + [','] + y))], name, drop)
  {
    hide Split, Kept, Trim;
    var h, k := Header(name, Utf8(x)), Header(name, Utf8(y));
    SplitJoined(x, ',', y);
    KeptConcat(Split(x, ','), Split(y, ','), drop);
    ItemsOne(h, name, drop);
    ItemsOne(k, name, drop);
    ItemsOne(Header(name, Utf8(x + [','] + y)), name, drop);
    assert [h] + [k] == [h, k];
    ItemsConcat([h], [k], name, drop);
  }

  lemma ItemsOne(h: Header, name: string, drop: set<char>)
    ensures Items([h], name, drop) == if SameName(h.name, name) then LineItems(h.value, drop) else []
  {
    hide LineItems;
    assert [h][..0] == [];
    assert Items([], name, drop) + LineItems(h.value, drop) == LineItems(h.value, drop);
  }

  // ---- Vary ---------------------------------------------------------------------

  /** RFC 9110 `token` characters. */
  predicate IsTokenChar(c: char) {
    || 'a' <= c <= 'z' || 'A' <= c <= 'Z' || '0' <= c <= '9'
    || c in {'!', '#', '$', '%', '&', '\'', '*', '+', '-', '.', '^', '_', '`', '|', '~'}
  }

  predicate IsHttpToken(s: string) {
    s != [] && forall i :: 0 <= i < |s| ==> IsTokenChar(s[i])
  }

  /** A member that makes the whole response unusable. */
  predicate Unrepresentable(item: Item) {
    item.Undecodable? || item.text == "*" || !IsHttpToken(item.text)
  }

  predicate StrictlySorted(names: seq<string>) {
    forall i, j :: 0 <= i < j < |names| ==> Before(names[i], names[j])
  }

  /** Inserts a name into a sorted list unless it is there. */
  function InsertName(names: seq<string>, name: string): seq<string> {
    if names == [] then [name]
    else if names[0] == name then names
    else if Before(name, names[0]) then [name] + names
    else [names[0]] + InsertName(names[1..], name)
  }

  function SortedNames(names: seq<string>): seq<string> {
    if names == [] then [] else InsertName(SortedNames(names[..|names| - 1]), names[|names| - 1])
  }

  function LowerNames(items: seq<Item>): seq<string> {
    if items == [] then []
    else
      var init, item := items[..|items| - 1], items[|items| - 1];
      if item.Undecodable? then LowerNames(init) else LowerNames(init) + [Lower(item.text)]
  }

  function VaryItems(headers: seq<Header>): seq<Item> {
    Items(headers, "vary", OWS)
  }

  function VarySelectors(headers: seq<Header>): Option<seq<string>> {
    var items := VaryItems(headers);
    if exists i :: 0 <= i < |items| && Unrepresentable(items[i]) then None
    else Some(SortedNames(LowerNames(items)))
  }

  lemma {:induction false} InsertNameSorted(names: seq<string>, name: string)
    requires StrictlySorted(names)
    ensures StrictlySorted(InsertName(names, name))
    ensures forall n :: n in InsertName(names, name) <==> n == name || n in names
  {
    if names != [] && names[0] != name {
      BeforeTotal(name, names[0]);
      if Before(name, names[0]) {
        forall j | 0 < j < |names| ensures Before(name, names[j]) {
          BeforeTransitive(name, names[0], names[j]);
        }
      } else {
        var rest := names[1..];
        InsertNameSorted(rest, name);
        var r := InsertName(rest, name);
        forall j | 0 <= j < |r| ensures Before(names[0], r[j]) {
          assert r[j] == name || r[j] in rest;
          if r[j] != name {
            var k :| 0 <= k < |rest| && rest[k] == r[j];
            assert names[k + 1] == r[j];
          }
        }
        assert names == [names[0]] + rest;
      }
    }
  }

  lemma {:induction false} SortedNamesSorted(names: seq<string>)
    ensures StrictlySorted(SortedNames(names))
    ensures forall n :: n in SortedNames(names) <==> n in names
  {
    if names != [] {
      var init, last := names[..|names| - 1], names[|names| - 1];
      SortedNamesSorted(init);
      InsertNameSorted(SortedNames(init), last);
      InitLast(names);
      assert forall n :: n in init + [last] <==> n in init || n == last;
    }
  }

  /** A strictly sorted list is determined by its set of names. */
  lemma {:induction false} SortedUnique(a: seq<string>, b: seq<string>)
    requires StrictlySorted(a) && StrictlySorted(b)
    requires forall n :: n in a <==> n in b
    ensures a == b
  {
    HeadIsMember(b);
    if a != [] {
      assert a[0] in b;
      var k :| 0 <= k < |b| && b[k] == a[0];
      assert b[0] in a;
      var m :| 0 <= m < |a| && a[m] == b[0];
      if m > 0 {
        assert Before(a[0], b[0]);
        if k > 0 { assert Before(b[0], a[0]); }
        BeforeTotal(a[0], b[0]);
      }
      forall n ensures n in a[1..] <==> n in b[1..] {
        BeforeTotal(a[0], a[0]);
        TailMembers(a, n);
        TailMembers(b, n);
      }
      SortedUnique(a[1..], b[1..]);
    }
  }

  lemma HeadIsMember(b: seq<string>)
    ensures b != [] ==> b[0] in b
  {
  }

  lemma TailMembers(a: seq<string>, n: string)
    requires a != [] && StrictlySorted(a)
    ensures n in a[1..] <==> n in a && n != a[0]
  {
    if n in a && n != a[0] {
      var k :| 0 <= k < |a| && a[k] == n;
      assert a[1..][k - 1] == n;
    }
    if n in a[1..] {
      var k :| 0 <= k < |a[1..]| && a[1..][k] == n;
      assert a[k + 1] == n && Before(a[0], n);
      BeforeTotal(a[0], n);
    }
  }

  lemma {:induction false} LowerNamesMember(items: seq<Item>, n: string)
    ensures n in LowerNames(items) <==> exists i :: 0 <= i < |items| && items[i].Member? && Lower(items[i].text) == n
  {
    if items != [] {
      var init, last := items[..|items| - 1], items[|items| - 1];
      LowerNamesMember(init, n);
      if n in LowerNames(init) {
        var i :| 0 <= i < |init| && init[i].Member? && Lower(init[i].text) == n;
        assert items[i] == init[i];
      }
      forall i | 0 <= i < |items| && items[i].Member? && Lower(items[i].text) == n
        ensures n in LowerNames(items)
      {
        if i < |init| { assert init[i] == items[i]; }
      }
    }
  }

  /** What the selector list means: no unusable member, and exactly the listed names, sorted. */
  lemma VarySelectorsMeaning(headers: seq<Header>)
    ensures
      var items := VaryItems(headers);
      match VarySelectors(headers)
      case None => exists i :: 0 <= i < |items| && Unrepresentable(items[i])
      case Some(names) =>
        && (forall i :: 0 <= i < |items| ==> !Unrepresentable(items[i]))
        && StrictlySorted(names)
        && (forall n :: n in names <==> exists i :: 0 <= i < |items| && items[i].Member? && Lower(items[i].text) == n)
  {
    var names := LowerNames(VaryItems(headers));
    SortedNamesSorted(names);
    forall n { LowerNamesMember(VaryItems(headers), n); }
  }

  /** Two item lists with the same items, in any order and multiplicity. */
  ghost predicate SameItems(a: seq<Item>, b: seq<Item>) {
    && (forall i :: 0 <= i < |a| ==> a[i] in b)
    && (forall i :: 0 <= i < |b| ==> b[i] in a)
  }

  /** Order, repetition and line layout of `Vary` members do not matter. */
  lemma VaryOrderIndependent(a: seq<Header>, b: seq<Header>)
    requires SameItems(VaryItems(a), VaryItems(b))
    ensures VarySelectors(a) == VarySelectors(b)
  {
    var x, y := VaryItems(a), VaryItems(b);
    forall i | 0 <= i < |x| ensures x[i] in y && exists j :: 0 <= j < |y| && y[j] == x[i] {}
    forall i | 0 <= i < |y| ensures y[i] in x && exists j :: 0 <= j < |x| && x[j] == y[i] {}
    VarySelectorsMeaning(a);
    VarySelectorsMeaning(b);
    if VarySelectors(a).Some? && VarySelectors(b).Some? {
      SortedUnique(VarySelectors(a).value, VarySelectors(b).value);
    }
  }

  /** `names` holds the lowercase names of `items`, once each, and no item is unusable. */
  ghost predicate Collected(items: seq<Item>, names: seq<string>) {
    && (forall k :: 0 <= k < |items| ==> !Unrepresentable(items[k]))
    && (forall n :: n in names <==> n in LowerNames(items))
    && (forall j, k :: 0 <= j < k < |names| ==> names[j] != names[k])
  }

  lemma CollectOne(items: seq<Item>, names: seq<string>, field: string)
    requires Collected(items, names) && !Unrepresentable(Member(field))
    ensures
      var name := Lower(field);
      Collected(items + [Member(field)], if name in names then names else names + [name])
  {
    var more := items + [Member(field)];
    assert more[..|items|] == items;
    assert LowerNames(more) == LowerNames(items) + [Lower(field)];
  }

  lemma KeptNext(parts: seq<string>, f: nat, drop: set<char>)
    requires f < |parts|
    ensures
      var p := Trim(parts[f], drop);
      Kept(parts[..f + 1], drop) == if p == [] then Kept(parts[..f], drop) else Kept(parts[..f], drop) + [Member(p)]
  {
    TakeNext(parts, f);
    assert parts[..f + 1][..f] == parts[..f];
  }

  lemma KeptMember(parts: seq<string>, f: nat, drop: set<char>)
    requires f < |parts| && Trim(parts[f], drop) != []
    ensures Member(Trim(parts[f], drop)) in Kept(parts, drop)
  {
    hide Kept, Trim;
    KeptNext(parts, f, drop);
    KeptConcat(parts[..f + 1], parts[f + 1..], drop);
    assert parts[..f + 1] + parts[f + 1..] == parts;
  }

  /** The items of one line follow those of the lines before it. */
  lemma ItemsNext(headers: seq<Header>, i: nat, name: string, drop: set<char>)
    requires i < |headers|
    ensures
      Items(headers[..i + 1], name, drop) ==
      if SameName(headers[i].name, name)
      then Items(headers[..i], name, drop) + LineItems(headers[i].value, drop)
      else Items(headers[..i], name, drop)
  {
    hide Items, LineItems;
    assert headers[..i + 1][..i] == headers[..i];
    ItemsLast(headers[..i + 1], name, drop);
  }

  lemma LineItemMember(headers: seq<Header>, i: nat, name: string, drop: set<char>, item: Item)
    requires i < |headers| && SameName(headers[i].name, name) && item in LineItems(headers[i].value, drop)
    ensures item in Items(headers, name, drop)
  {
    hide Items, LineItems;
    ItemsNext(headers, i, name, drop);
    ItemsConcat(headers[..i + 1], headers[i + 1..], name, drop);
    assert headers[..i + 1] + headers[i + 1..] == headers;
  }

  lemma CollectedSelectors(headers: seq<Header>, names: seq<string>)
    requires Collected(VaryItems(headers), names)
    ensures VarySelectors(headers) == Some(SortedNames(names))
  {
    var lower := LowerNames(VaryItems(headers));
    SortedNamesSorted(names);
    SortedNamesSorted(lower);
    SortedUnique(SortedNames(names), SortedNames(lower));
  }

  lemma UnusableSelectors(headers: seq<Header>, item: Item)
    requires item in VaryItems(headers) && Unrepresentable(item)
    ensures VarySelectors(headers) == None
  {
  }

  /** The parser: early returns, a growing list of distinct names, one final sort. */
  method ParseVary(headers: seq<Header>) returns (selectors: Option<seq<string>>)
    ensures selectors == VarySelectors(headers)
  {
    hide Items, Kept, LowerNames, SortedNames, VarySelectors, Split, Trim, Lower;
    var names: seq<string> := [];
    ghost var items: seq<Item> := [];
    NothingCollected(headers);
    var i := 0;
    while i < |headers|
      invariant 0 <= i <= |headers|
      invariant items == Items(headers[..i], "vary", OWS) && Collected(items, names)
    {
      var header := headers[i];
      ItemsNext(headers, i, "vary", OWS);
      if SameName(header.name, "vary") {
        if header.value.NotUtf8? {
          LineItemMember(headers, i, "vary", OWS, Undecodable);
          UnusableSelectors(headers, Undecodable);
          return None;
        }
        var fields := Split(header.value.text, ',');
        ghost var before := items;
        NothingKept(fields, items);
        var f := 0;
        while f < |fields|
          invariant 0 <= f <= |fields|
          invariant items == before + Kept(fields[..f], OWS) && Collected(items, names)
        {
          var field := Trim(fields[f], OWS);
          KeptNext(fields, f, OWS);
          if field != [] {
            if field == "*" || !IsHttpToken(field) {
              KeptMember(fields, f, OWS);
              LineItemMember(headers, i, "vary", OWS, Member(field));
              UnusableSelectors(headers, Member(field));
              return None;
            }
            CollectOne(items, names, field);
            var name := Lower(field);
            if name !in names {
              names := names + [name];
            }
            items := items + [Member(field)];
          }
          f := f + 1;
        }
        assert fields[..f] == fields;
      }
      i := i + 1;
    }
    assert headers[..i] == headers;
    CollectedSelectors(headers, names);
    selectors := Some(SortedNames(names));
  }

  lemma NothingCollected(headers: seq<Header>)
    ensures Items(headers[..0], "vary", OWS) == [] && Collected([], [])
  {
  }

  lemma NothingKept(parts: seq<string>, items: seq<Item>)
    ensures items == items + Kept(parts[..0], OWS)
  {
  }
}
