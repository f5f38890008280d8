/**
 Lifetimes that no clock reading can be advanced by. A `304` that asks for one
 answers its request, and yet the merge hands out nothing and leaves the stale
 entry where it was: a history of two events shows it.
 */
module LongLifetimes {
  import opened Text
  import opened HttpTypes
  import HeaderMerge
  import opened HeaderLists
  import opened CacheControl
  import opened CachePolicy
  import opened RecencyList
  import opened RecencyLaws
  import opened CacheRuns
  import ContentTypes

  const MAX_AGE: string := "max-age"

  /** A positive whole number of seconds that parses. */
  predicate IsLifetime(digits: string) {
    IsDigits(digits) && 0 < DigitsValue(digits) <= U64_MAX
  }

  /** One beyond the largest instant. */
  predicate IsTooLong(digits: string) {
    IsDigits(digits) && INSTANT_MAX < DigitsValue(digits) <= U64_MAX
  }

  function AgeLine(digits: string): Header {
    Header("cache-control", Utf8(MAX_AGE + ['='] + digits))
  }

  // ---- Reading the directive --------------------------------------------------------------------

  lemma TrimPlain(s: string, drop: set<char>)
    requires s != [] ==> s[0] !in drop && s[|s| - 1] !in drop
    ensures Trim(s, drop) == s
  {
  }

  lemma FirstSign(name: string, digits: string)
    requires '=' !in name
    ensures IndexOf(name + ['='] + digits, '=') == Some(|name|)
  {
    var s := name + ['='] + digits;
    assert s[|name|] == '=';
    var i := IndexOf(s, '=');
    assert forall k :: 0 <= k < |name| ==> s[k] == name[k];
  }

  lemma PlusIsNoDigit(digits: string)
    requires IsDigits(digits) && DigitsValue(digits) <= U64_MAX
    ensures ParseU64(digits) == Some(DigitsValue(digits))
  {
    hide DigitsValue;
  }

  lemma AgeVerdict(digits: string)
    requires IsDigits(digits) && DigitsValue(digits) <= U64_MAX
    ensures DirectiveVerdict(MAX_AGE + ['='] + digits) == CacheControl.MaxAge(DigitsValue(digits))
  {
    hide IndexOf, Trim, DigitsValue;
    var s := MAX_AGE + ['='] + digits;
    FirstSign(MAX_AGE, digits);
    assert s[..7] == MAX_AGE && s[8..] == digits;
    TrimPlain(MAX_AGE, WHITE_SPACE);
    TrimPlain(digits, WHITE_SPACE);
    TrimPlain(digits, {'"'});
    PlusIsNoDigit(digits);
    NotOtherNames();
  }

  lemma NotOtherNames()
    ensures !SameName(MAX_AGE, "no-store") && !SameName(MAX_AGE, "private") && !SameName(MAX_AGE, "no-cache")
  {
    assert Lower(MAX_AGE)[0] == 'm' && Lower("no-store")[0] == 'n' && Lower("private")[0] == 'p'
        && Lower("no-cache")[0] == 'n';
  }

  lemma AgeItems(digits: string)
    requires IsDigits(digits)
    ensures ControlItems([AgeLine(digits)]) == [Member(MAX_AGE + ['='] + digits)]
  {
    hide Split, Trim, Lower, SameName, Kept, IsDigits;
    var s := MAX_AGE + ['='] + digits;
    HeaderMerge.SameItself("cache-control");
    ItemsOne(AgeLine(digits), "cache-control", WHITE_SPACE);
    AgeText(digits);
    SplitPlain(s, ',');
    TrimPlain(s, WHITE_SPACE);
    KeptOne(s);
  }

  lemma AgeText(digits: string)
    requires IsDigits(digits)
    ensures
      var s := MAX_AGE + ['='] + digits;
      s != "" && ',' !in s && s[0] !in WHITE_SPACE && s[|s| - 1] !in WHITE_SPACE
  {
  }

  lemma KeptOne(s: string)
    requires s != [] && Trim(s, WHITE_SPACE) == s
    ensures Kept([s], WHITE_SPACE) == [Member(s)]
  {
    hide Trim;
    assert [s][..0] == [] && Kept([], WHITE_SPACE) == [];
  }

  lemma AgePolicy(digits: string)
    requires IsLifetime(digits)
    ensures CacheControlPolicy([AgeLine(digits)]) == Store(DigitsValue(digits))
  {
    hide DirectiveVerdict, DigitsValue;
    AgeItems(digits);
    AgeVerdict(digits);
    var items := ControlItems([AgeLine(digits)]);
    assert ItemVerdict(items[0]) == CacheControl.MaxAge(DigitsValue(digits));
    assert Decide(items[1..], Some(DigitsValue(digits))) == Store(DigitsValue(digits));
  }

  // ---- The failing merge ------------------------------------------------------------------------

  /** Only `Cache-Control` is there. */
  lemma AgeLineAlone(digits: string)
    ensures !HasHeader([AgeLine(digits)], "set-cookie")
    ensures VarySelectors([AgeLine(digits)]) == Some([])
  {
    var h := AgeLine(digits);
    assert |"cache-control"| == 13 && |"set-cookie"| == 10 && |"vary"| == 4;
    assert [h][..0] == [];
    assert !SameName(h.name, "set-cookie") && !SameName(h.name, "vary") by {
      assert |Lower("cache-control")| == 13 && |Lower("set-cookie")| == 10 && |Lower("vary")| == 4;
    }
    ItemsOne(h, "vary", OWS);
    assert SortedNames(LowerNames([])) == [];
  }

  lemma NotFrozen()
    ensures !HeaderMerge.Frozen("cache-control")
  {
    var name := Lower("cache-control");
    assert |name| == 13 && |"content-length"| == 14 && |"content-type"| == 12 && |"content-encoding"| == 16
        && |"transfer-encoding"| == 17;
    assert name[1] == 'a' && "content-range"[1] == 'o';
  }

  /** A later line takes the place of an earlier one. */
  lemma AgeLineReplaced(first: string, digits: string)
    ensures HeaderMerge.Reference([AgeLine(first)], [AgeLine(digits)]) == [AgeLine(digits)]
  {
    var h, x := AgeLine(digits), AgeLine(first);
    hide HeaderMerge.Frozen, SameName;
    NotFrozen();
    HeaderMerge.SameItself(h.name);
    assert [h][..0] == [] && [x][..0] == [];
    assert HeaderMerge.LastUpdate([h], h.name) == Some(h);
    assert HeaderMerge.HasLine([x], h.name) && !HeaderMerge.HasLine([], x.name);
    assert HeaderMerge.InPlace([], [h]) == [] && HeaderMerge.InPlace([x], [h]) == [h];
    assert HeaderMerge.Appended([x], [h], 0) == [] && HeaderMerge.Appended([x], [h], 1) == [];
  }

  /** What a plain response with that lifetime retains. */
  lemma AgeSlot(request: FetchRequest, response: FetchResponse, digits: string, now: nat)
    requires RequestSkipReason(request).None? && Direct(request, response) && IsLifetime(digits)
    requires response.status == 200 && response.headers == [AgeLine(digits)]
    ensures SlotFor(request, response, now) ==
            if now + DigitsValue(digits) <= INSTANT_MAX
            then Storable(Slot(KeyOf(request), response, [], now + DigitsValue(digits))) else Overflow
  {
    hide RequestSkipReason, Direct, VarySelectors, CacheControlPolicy, DigitsValue, KeyOf;
    AgeLineAlone(digits);
    AgePolicy(digits);
  }

  /** The request can be cached, and the response answers it with that lifetime and fits the cache. */
  ghost predicate CanKeep(config: Config, request: FetchRequest, response: FetchResponse, digits: string, now: nat) {
    && RequestSkipReason(request).None? && Direct(request, response)
    && response.status == 200 && response.headers == [AgeLine(digits)]
    && IsLifetime(digits) && now + DigitsValue(digits) <= INSTANT_MAX
    && config.maxEntries >= 1 && config.maxBytes >= 1
    && |response.body| <= config.maxEntryBytes && |response.body| <= config.maxBytes
  }

  /** The cache after one plain response was stored into an empty one. */
  lemma KeptAlone(config: Config, request: FetchRequest, response: FetchResponse, digits: string, now: nat)
    requires CanKeep(config, request, response, digits, now)
    ensures
      var slot := Slot(KeyOf(request), response, [], now + DigitsValue(digits));
      StoreIn(config, Cache([], 0), request, response, now, 0) == (Stored, Cache([slot], 0))
  {
    hide RequestSkipReason, Direct, SlotFor, KeyOf, DigitsValue;
    AgeSlot(request, response, digits, now);
    var slot := Slot(KeyOf(request), response, [], now + DigitsValue(digits));
    WithoutNothing([], slot.key, slot.variant);
    TotalBytesOne(slot);
    TrimmedFits(config, [slot]);
    assert [slot] + [] == [slot];
  }

  /**
   A merge that fails although everything it needs is there. The cache stored a response
   that has become stale; the `304` answers the request and the stale entry is found; and
   yet the merge gives no response and changes nothing, because the new lifetime is too
   long. This is so for every such lifetime and at every time after the expiry.
   */
  lemma LongLifetimeFailsTheMerge(config: Config, request: FetchRequest, response: FetchResponse, first: string,
                                  now: nat, digits: string, later: nat)
    requires CanKeep(config, request, response, first, now)
    requires IsTooLong(digits) && now + DigitsValue(first) <= later
    ensures
      var notModified := response.(status := 304, headers := [AgeLine(digits)]);
      var run := [Keep(request, response, now, 0), Refresh(request, notModified, later, 0)];
      var c := After(config, run[..1]);
      && OutputOf(config, run, 0) == Retained(response)
      && Answers304(c, request, notModified, 0) && StaleIn(c.slots, request, later).0 == Some(response)
      && MergeIn(config, c, request, notModified, later, 0) == (None, c)
      && OutputOf(config, run, 1) == Nothing && After(config, run) == c
  {
    hide RequestSkipReason, SlotFor, StoreIn, DigitsValue, KeyOf, Direct, HeaderMerge.Reference;
    hide ContentTypes.ContentTypeOf, After, OutputOf;
    var notModified := response.(status := 304, headers := [AgeLine(digits)]);
    var run := [Keep(request, response, now, 0), Refresh(request, notModified, later, 0)];
    var slot := Slot(KeyOf(request), response, [], now + DigitsValue(first));
    var c := Cache([slot], 0);
    KeptAlone(config, request, response, first, now);
    TwoEvents(config, run);
    DirectIgnoresHeaders(request, response, notModified);
    OnlyStale(slot, request, later);
    var merged := MergedResponse(response, notModified.headers);
    AgeLineReplaced(first, digits);
    DirectIgnoresHeaders(request, response, merged);
    TooLongIsLifetime(digits);
    AgeSlot(request, merged, digits, later);
    assert MoveToFront([slot], 0) == [slot];
  }

  lemma TooLongIsLifetime(digits: string)
    requires IsTooLong(digits)
    ensures IsLifetime(digits)
  {
  }

  lemma DirectIgnoresHeaders(request: FetchRequest, a: FetchResponse, b: FetchResponse)
    requires b.requestedUrl == a.requestedUrl && b.finalUrl == a.finalUrl
    requires b.redirects == a.redirects && b.redirectChain == a.redirectChain
    ensures Direct(request, a) <==> Direct(request, b)
  {
  }

  /** The only entry of a cache, once stale, is the one selected. */
  lemma OnlyStale(slot: Slot, request: FetchRequest, later: nat)
    requires slot.key == KeyOf(request) && slot.variant == [] && slot.freshUntil <= later
    ensures Best([slot], request, later, false) == Some(0)
  {
    hide KeyOf;
    assert Selected([slot][0], request, later, false);
  }

  lemma TwoEvents(config: Config, run: seq<Event>)
    requires |run| == 2
    ensures
      var first := Step(config, Cache([], 0), run[0]);
      && After(config, run[..1]) == first.1 && OutputOf(config, run, 0) == first.0
      && After(config, run) == Step(config, first.1, run[1]).1
      && OutputOf(config, run, 1) == Step(config, first.1, run[1]).0
  {
    hide Step;
    assert run[..1][..0] == [] && run[..0] == [] && run[..1][0] == run[0];
  }

  // ---- There are such lifetimes -----------------------------------------------------------------

  function Nines(n: nat): (s: string)
    ensures |s| == n && forall i :: 0 <= i < n ==> s[i] == '9'
  {
    seq(n, _ => '9')
  }

  function PowerOfTen(n: nat): nat {
    if n == 0 then 1 else 10 * PowerOfTen(n - 1)
  }

  lemma {:induction false} NinesValue(n: nat)
    ensures DigitsValue(Nines(n)) == PowerOfTen(n) - 1
  {
    if n > 0 {
      NinesValue(n - 1);
      assert Nines(n)[..n - 1] == Nines(n - 1);
    }
  }

  /** Nineteen nines fit in 64 bits and are too long. */
  lemma SomeLifetimeIsTooLong()
    ensures IsTooLong(Nines(19))
  {
    NinesValue(19);
    assert PowerOfTen(5) == 100000 && PowerOfTen(10) == 10000000000 && PowerOfTen(15) == 1000000000000000;
    assert PowerOfTen(19) == 10000000000000000000;
  }
}
