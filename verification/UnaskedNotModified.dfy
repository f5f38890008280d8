/**
 A run in which a page is handed a `304` that it never asked for: another transfer of
 the shell stored a response with an entity tag, the response became stale, and then a
 page asked for the same URL.
 */
module UnaskedNotModified {
  import opened Text
  import opened HttpTypes
  import opened HeaderLists
  import opened CacheControl
  import opened CachePolicy
  import opened RecencyList
  import opened LongLifetimes
  import opened PageFetches
  import PageFetchLaws
  import PageFetchDocuments
  import opened PageFetchCaching
  import FetchEpochs
  import CacheRuns
  import RecencyLaws

  function Tagged(digits: string, tag: string): seq<Header> {
    [AgeLine(digits), Header("etag", Utf8(tag))]
  }

  lemma OtherName(name: string)
    requires |name| != 4
    ensures !SameName("etag", name)
  {
    assert |Lower("etag")| == 4 && |Lower(name)| == |name|;
  }

  /** The tag changes neither the lifetime nor the selectors. */
  lemma TagIsNeutral(digits: string, tag: string)
    requires IsLifetime(digits)
    ensures CacheControlPolicy(Tagged(digits, tag)) == CacheControl.Store(DigitsValue(digits))
    ensures VarySelectors(Tagged(digits, tag)) == Some([])
    ensures !HasHeader(Tagged(digits, tag), "set-cookie")
    ensures HeaderText(Tagged(digits, tag), "etag") == Some(tag)
  {
    hide Items, LineItems, Decide, DigitsValue;
    var age, h := AgeLine(digits), Header("etag", Utf8(tag));
    assert Tagged(digits, tag) == [age] + [h];
    AgePolicy(digits);
    AgeLineAlone(digits);
    TagIsNotVary();
    OtherName("cache-control");
    OtherName("set-cookie");
    ItemsConcat([age], [h], "cache-control", WHITE_SPACE);
    ItemsOne(h, "cache-control", WHITE_SPACE);
    assert ControlItems([age]) + [] == ControlItems([age]);
    ItemsConcat([age], [h], "vary", OWS);
    ItemsOne(h, "vary", OWS);
    assert VaryItems([age]) + [] == VaryItems([age]);
    AgeIsNot("set-cookie");
    AgeIsNot("etag");
  }

  lemma TagIsNotVary()
    ensures !SameName("etag", "vary")
  {
    assert Lower("etag")[0] == 'e' && Lower("vary")[0] == 'v';
  }

  lemma AgeIsNot(name: string)
    requires |name| != 13
    ensures !SameName("cache-control", name)
  {
    assert |Lower("cache-control")| == 13 && |Lower(name)| == |name|;
  }

  // ---- The run ------------------------------------------------------------------------------------

  /** A plain response to this request with a lifetime and a tag, which the cache takes. */
  ghost predicate CanKeepTagged(config: Config, request: FetchRequest, response: FetchResponse, digits: string,
                                tag: string)
  {
    && RequestSkipReason(request).None? && Direct(request, response)
    && response.status == 200 && response.headers == Tagged(digits, tag)
    && IsLifetime(digits) && DigitsValue(digits) <= INSTANT_MAX
    && config.maxEntries >= 1 && config.maxBytes >= 1
    && |response.body| <= config.maxEntryBytes && |response.body| <= config.maxBytes
  }

  lemma KeptTagged(config: Config, request: FetchRequest, response: FetchResponse, digits: string, tag: string)
    requires CanKeepTagged(config, request, response, digits, tag)
    ensures
      var slot := Slot(KeyOf(request), response, [], DigitsValue(digits));
      StoreIn(config, Cache([], 0), request, response, 0, 0) == (Stored, Cache([slot], 0))
  {
    hide RequestSkipReason, Direct, KeyOf, DigitsValue, VarySelectors, CacheControlPolicy, HasHeader;
    TagIsNeutral(digits, tag);
    var slot := Slot(KeyOf(request), response, [], DigitsValue(digits));
    assert SlotFor(request, response, 0) == Storable(slot);
    RecencyLaws.WithoutNothing([], slot.key, slot.variant);
    RecencyLaws.TotalBytesOne(slot);
    RecencyLaws.TrimmedFits(config, [slot]);
    assert [slot] + [] == [slot];
  }

  function At(now: nat): Clock {
    [Moment(now, FetchEpochs.Accepted), Moment(now, FetchEpochs.Accepted)]
  }

  /** What a page at `a` sends when it asks for `a`. */
  lemma OwnRequest(cors: Cors, a: Url)
    requires !cors.crossOrigin(a, a)
    ensures
      var plan := PlanFor(cors, 0, 1, a, PageFetchDocuments.AnyRequest(a).(id := 1), a, Get, None);
      plan.actual == NewRequest(Get, a) && FirstRequest(plan) == plan.actual && FirstStage(plan) == Response(None, true)
  {
  }

  /** The tab is open and the stale-to-be response is stored. */
  function Prepared(a: Url, slot: Slot): Layer {
    EMPTY_LAYER.(shell := EMPTY_SHELL.(pages := map[0 := Page(1, a, 1, {})], nextTab := 1), cache := Cache([slot], 0))
  }

  /** The page's request goes out with the tag of the stale entry. */
  lemma AskingSelectsStale(cors: Cors, config: Config, a: Url, slot: Slot, later: nat)
    requires !cors.crossOrigin(a, a) && RequestSkipReason(NewRequest(Get, a)).None?
    requires slot.key == KeyOf(NewRequest(Get, a)) && slot.variant == [] && slot.freshUntil <= later
    requires HeaderText(slot.response.headers, "etag").Some?
    ensures
      var step := ShellDoes(PageFetchLaws.Fetch(0, PageFetchDocuments.AnyRequest(a), None), At(later));
      && CanLayer(Prepared(a, slot), step)
      && var l := LayerApply(cors, config, Prepared(a, slot), step);
         && |l.shell.pending| == |l.ledger| == 1 && l.answers == {}
         && l.shell.pending[0].ticket == 0 && l.shell.pending[0].stage == Response(None, true)
         && 0 in l.handles && l.handles[0].state.Pending?
         && l.ledger[0].ticket == 0 && l.ledger[0].request == NewRequest(Get, a) && StaleSelected(l.ledger[0])
  {
    hide RequestSkipReason, KeyOf, HeaderText, StaleSelected, PlanFor, PageFetchLaws.Apply, SubmitAll;
    hide HandleOf, CacheAfter, GoesOut, WireRequest;
    var l := Prepared(a, slot);
    var step := ShellDoes(PageFetchLaws.Fetch(0, PageFetchDocuments.AnyRequest(a), None), At(later));
    var shell := PageFetchLaws.Apply(cors, l.shell, step.step);
    AskedShell(cors, a);
    assert shell.log[|l.shell.log|..] == shell.log;
    OneSubmission(l, shell.log[0], shell.log[1], At(later));
    assert shell.log == [shell.log[0], shell.log[1]];
    var s := Submission(0, NewRequest(Get, a), later, l.cache, FetchEpochs.Accepted);
    StaleIsSelected(s, slot);
  }

  /** The shell after the page at `a` asked for `a`. */
  lemma AskedShell(cors: Cors, a: Url)
    requires !cors.crossOrigin(a, a)
    ensures
      var s := EMPTY_SHELL.(pages := map[0 := Page(1, a, 1, {})], nextTab := 1);
      var step := PageFetchLaws.Fetch(0, PageFetchDocuments.AnyRequest(a), None);
      var shell := PageFetchLaws.Apply(cors, s, step);
      && shell.pending == [PendingPageFetch(0, 1, Response(None, true), 0, 1)]
      && |shell.log| == 2 && shell.log[0].Planned? && shell.log[1] == Sent(0, NewRequest(Get, a))
  {
    OwnRequest(cors, a);
    hide PlanFor;
  }

  lemma OneSubmission(l: Layer, d: PageFetches.Event, e: PageFetches.Event, clock: Clock)
    requires !d.Sent? && e.Sent?
    ensures SubmitAll(l, [d, e], clock) == Submit(l, e.ticket, e.request, MomentAt(clock, 1))
  {
    hide Submit;
    assert [d, e][..1] == [d] && [d][..0] == [];
    assert SubmitAll(l, [], clock) == l;
    assert SubmitAll(l, [d], clock) == l;
  }

  lemma StaleIsSelected(s: Submission, slot: Slot)
    requires s.before.slots == [slot] && s.reply == FetchEpochs.Accepted
    requires RequestSkipReason(s.request).None?
    requires slot.key == KeyOf(s.request) && slot.variant == [] && slot.freshUntil <= s.now
    requires HeaderText(slot.response.headers, "etag").Some?
    ensures StaleSelected(s) && HandleOf(s).state.Pending?
  {
    hide RequestSkipReason, KeyOf, HeaderText;
    OnlyStale(slot, s.request, s.now);
    assert !Selected(slot, s.request, s.now, true);
  }

  /**
   A page's own, unconditional request can be settled with a `304`. Some other transfer
   stored a tagged response for the page's URL; at any time after it became stale the
   page asks for that URL; and the network's `304` settles the page's request.
   */
  lemma APageIsHandedANotModified(cors: Cors, config: Config, a: Url, stored: FetchResponse, digits: string, tag: string,
                                  later: nat, notModified: FetchResponse)
    returns (steps: seq<LayerStep>, l: Layer)
    requires !cors.crossOrigin(a, a) && CanKeepTagged(config, NewRequest(Get, a), stored, digits, tag)
    requires DigitsValue(digits) <= later && notModified.status == 304
    ensures LayerReaches(cors, config, EMPTY_LAYER, steps, l) && HonestNetwork(l)
    ensures |l.shell.pending| == 1 && !AsksConditionally(NewRequest(Get, a))
    ensures InLedger(l, l.shell.pending[0].ticket, NewRequest(Get, a))
    ensures exists step :: SettlesWith(cors, config, l, 0, notModified, step)
  {
    hide LayerInv, StaleSelected, SettlesWith, CanKeepTagged, RequestSkipReason, KeyOf, DigitsValue, FitsAt;
    hide LayerApply, CanLayer, Prepared, StoreIn, LayerReaches, PageFetchLaws.Tracks, PageFetchLaws.Foreign, HeaderText;
    var request := NewRequest(Get, a);
    var slot := KeptSlot(config, request, stored, digits, tag);
    var open := ShellDoes(PageFetchLaws.OpenTab(a), QUIET);
    var keep := OtherUse(CacheRuns.Keep(request, stored, 0, 0));
    var ask := ShellDoes(PageFetchLaws.Fetch(0, PageFetchDocuments.AnyRequest(a), None), At(later));
    TwoStepsPrepare(cors, config, a, stored, slot);
    AskingSelectsStale(cors, config, a, slot, later);
    l := LayerApply(cors, config, Prepared(a, slot), ask);
    steps := [open, keep, ask];
    ThreeSteps(cors, config, open, keep, ask, l);
    EmptyLayerInv(cors);
    var _ := LayerRunKeeps(cors, config, EMPTY_LAYER, steps, l);
    var plan, k := PendingFits(cors, l, 0);
    FitsInLedger(l, 0, plan.actual, k);
    SameOriginTracks(cors, l.shell.pending[0], plan);
    StaleGivesNotModified(cors, config, l, 0, plan, k, notModified);
    assert l.ledger[0].ticket == 0 && l.ledger[0].request == request;
  }

  lemma SameOriginTracks(cors: Cors, t: PendingPageFetch, plan: Plan)
    requires PageFetchLaws.Tracks(cors, t, PageFetchLaws.Fetching(plan)) && t.stage == Response(None, true)
    ensures !PageFetchLaws.Foreign(cors, plan)
  {
  }

  lemma KeptSlot(config: Config, request: FetchRequest, stored: FetchResponse, digits: string, tag: string)
    returns (slot: Slot)
    requires CanKeepTagged(config, request, stored, digits, tag)
    ensures StoreIn(config, Cache([], 0), request, stored, 0, 0) == (Stored, Cache([slot], 0))
    ensures slot.key == KeyOf(request) && slot.variant == [] && slot.freshUntil == DigitsValue(digits)
    ensures slot.response == stored && HeaderText(stored.headers, "etag").Some? && RequestSkipReason(request).None?
  {
    hide RequestSkipReason, Direct, KeyOf, HeaderText, StoreIn;
    KeptTagged(config, request, stored, digits, tag);
    TagIsNeutral(digits, tag);
    slot := Slot(KeyOf(request), stored, [], DigitsValue(digits));
  }

  lemma TwoStepsPrepare(cors: Cors, config: Config, a: Url, stored: FetchResponse, slot: Slot)
    requires StoreIn(config, Cache([], 0), NewRequest(Get, a), stored, 0, 0) == (Stored, Cache([slot], 0))
    ensures
      var open := ShellDoes(PageFetchLaws.OpenTab(a), QUIET);
      var keep := OtherUse(CacheRuns.Keep(NewRequest(Get, a), stored, 0, 0));
      && CanLayer(EMPTY_LAYER, open) && CanLayer(LayerApply(cors, config, EMPTY_LAYER, open), keep)
      && LayerApply(cors, config, LayerApply(cors, config, EMPTY_LAYER, open), keep) == Prepared(a, slot)
  {
    hide StoreIn;
    var open := ShellDoes(PageFetchLaws.OpenTab(a), QUIET);
    var shell := PageFetchLaws.Apply(cors, EMPTY_SHELL, PageFetchLaws.OpenTab(a));
    assert shell.log == [] && shell.log[0..] == [];
    assert LayerApply(cors, config, EMPTY_LAYER, open) == EMPTY_LAYER.(shell := shell);
  }

  lemma ThreeSteps(cors: Cors, config: Config, x: LayerStep, y: LayerStep, z: LayerStep, l: Layer)
    requires CanLayer(EMPTY_LAYER, x) && CanLayer(LayerApply(cors, config, EMPTY_LAYER, x), y)
    requires
      var m := LayerApply(cors, config, LayerApply(cors, config, EMPTY_LAYER, x), y);
      CanLayer(m, z) && l == LayerApply(cors, config, m, z)
    ensures LayerReaches(cors, config, EMPTY_LAYER, [x, y, z], l)
  {
    hide CanLayer, LayerApply;
    var first := LayerApply(cors, config, EMPTY_LAYER, x);
    var second := LayerApply(cors, config, first, y);
    assert [x, y, z][1..] == [y, z] && [y, z][1..] == [z] && [z][1..] == [];
    assert LayerReaches(cors, config, l, [], l);
    assert LayerReaches(cors, config, second, [z], l);
    assert LayerReaches(cors, config, first, [y, z], l);
  }
}
