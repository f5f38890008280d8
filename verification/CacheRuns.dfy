/**
 Whole histories of the cache: any sequence of lookups, stale lookups, stores,
 `304` merges and clears, starting from an empty cache.
 */
module CacheRuns {
  import opened HttpTypes
  import opened CacheControl
  import opened CachePolicy
  import opened RecencyList
  import opened RecencyLaws
  import opened CacheMeaning
  import opened CacheAdmission
  import HeaderMerge
  import ContentTypes

  datatype Event =
    | Look(request: FetchRequest, now: nat)
    | LookStale(request: FetchRequest, now: nat)
    | Keep(request: FetchRequest, response: FetchResponse, now: nat, epoch: nat)
    | Refresh(request: FetchRequest, response: FetchResponse, now: nat, epoch: nat)
    | Clear

  datatype Output = Served(response: FetchResponse) | Retained(response: FetchResponse) | Nothing

  /** One operation; only what was served or retained is recorded. */
  function Step(config: Config, c: Cache, e: Event): (Output, Cache) {
    match e
    case Look(request, now) =>
      var (out, slots) := LookupIn(c.slots, request, now);
      (if out.Hit? then Served(out.response) else Nothing, c.(slots := slots))
    case LookStale(request, now) =>
      var (out, slots) := StaleIn(c.slots, request, now);
      (if out.Some? then Served(out.value) else Nothing, c.(slots := slots))
    case Keep(request, response, now, epoch) =>
      var (out, after) := StoreIn(config, c, request, response, now, epoch);
      (if out.Stored? then Retained(response) else Nothing, after)
    case Refresh(request, response, now, epoch) =>
      var (out, after) := MergeIn(config, c, request, response, now, epoch);
      (if out.Some? && SlotFor(request, out.value, now).Storable? then Retained(out.value) else Nothing, after)
    case Clear => (Nothing, Cleared(c))
  }

  function After(config: Config, run: seq<Event>): Cache {
    if run == [] then Cache([], 0) else Step(config, After(config, run[..|run| - 1]), run[|run| - 1]).1
  }

  function OutputOf(config: Config, run: seq<Event>, n: nat): Output
    requires n < |run|
  {
    Step(config, After(config, run[..n]), run[n]).0
  }

  /** Event `i` of the run retained exactly `slot`, and the cache was not cleared since. */
  ghost predicate Origin(config: Config, run: seq<Event>, slot: Slot, i: nat) {
    && i < |run|
    && (run[i].Keep? || run[i].Refresh?)
    && OutputOf(config, run, i) == Retained(slot.response)
    && SlotFor(run[i].request, slot.response, run[i].now) == Storable(slot)
    && forall j :: i < j < |run| ==> !run[j].Clear?
  }

  ghost predicate HasOrigin(config: Config, run: seq<Event>, slot: Slot) {
    exists i: nat :: Origin(config, run, slot, i)
  }

  /** Where a response present after a step came from. */
  lemma StepOrigin(config: Config, c: Cache, e: Event, slot: Slot)
    requires slot in Step(config, c, e).1.slots
    ensures
      || (slot in c.slots && !e.Clear?)
      || ((e.Keep? || e.Refresh?) && Step(config, c, e).0 == Retained(slot.response)
          && SlotFor(e.request, slot.response, e.now) == Storable(slot))
  {
    hide SlotFor, Best, RequestSkipReason, StoreIn, MergeIn, MoveToFront;
    match e {
      case Look(request, now) => InMoved(c.slots, Best(c.slots, request, now, true), slot);
      case LookStale(request, now) => InMoved(c.slots, Best(c.slots, request, now, false), slot);
      case Keep(request, response, now, epoch) =>
        if slot !in c.slots { StoreOrigin(config, c, request, response, now, epoch, slot); }
      case Refresh(request, response, now, epoch) =>
        if slot !in c.slots { MergeOrigin(config, c, request, response, now, epoch, slot); }
      case Clear =>
    }
  }

  lemma StoreOrigin(
      config: Config, c: Cache, request: FetchRequest, response: FetchResponse, now: nat, epoch: nat, slot: Slot)
    requires slot in StoreIn(config, c, request, response, now, epoch).1.slots && slot !in c.slots
    ensures StoreIn(config, c, request, response, now, epoch).0 == Stored
    ensures slot.response == response && SlotFor(request, response, now) == Storable(slot)
  {
    hide SlotFor, Insert;
    var r := SlotFor(request, response, now);
    if r.Storable? && StoreIn(config, c, request, response, now, epoch).0.Stored? {
      RetainedIsFresh(request, response, now);
      InInserted(config, c.slots, r.slot, slot);
    }
  }

  lemma MergeOrigin(
      config: Config, c: Cache, request: FetchRequest, response: FetchResponse, now: nat, epoch: nat, slot: Slot)
    requires slot in MergeIn(config, c, request, response, now, epoch).1.slots && slot !in c.slots
    ensures MergeIn(config, c, request, response, now, epoch).0 == Some(slot.response)
    ensures SlotFor(request, slot.response, now) == Storable(slot)
  {
    hide SlotFor, Best, Answers304, Insert, MergedResponse, RemoveAt;
    var stale := Best(c.slots, request, now, false);
    if Answers304(c, request, response, epoch) && stale.Some? {
      InMoved(c.slots, stale, slot);
      var merged := MergedResponse(c.slots[stale.value].response, response.headers);
      var r := SlotFor(request, merged, now);
      if r.Storable? {
        RetainedIsFresh(request, merged, now);
        InInserted(config, RemoveAt(c.slots, stale.value), r.slot, slot);
      }
    }
  }

  lemma InMoved(s: Slots, i: Option<nat>, x: Slot)
    requires i.Some? ==> i.value < |s|
    ensures i.Some? && (x in RemoveAt(s, i.value) || x in MoveToFront(s, i.value)) ==> x in s
  {
  }

  lemma InInserted(config: Config, s: Slots, slot: Slot, x: Slot)
    requires x in Insert(config, s, slot)
    ensures x == slot || x in s
  {
    var l := [slot] + Without(s, slot.key, slot.variant);
    var t := Trimmed(config, l);
    assert t == l[..|t|];
    assert x in l;
  }

  /** Over every run, every response present was retained by some event since the last clear. */
  lemma {:induction false} SlotsHaveOrigins(config: Config, run: seq<Event>, slot: Slot)
    requires slot in After(config, run).slots
    ensures HasOrigin(config, run, slot)
    decreases |run|
  {
    hide Step, SlotFor, After;
    AfterUnfolds(config, run);
    var init, e := run[..|run| - 1], run[|run| - 1];
    StepOrigin(config, After(config, init), e, slot);
    if slot in After(config, init).slots && !e.Clear? {
      SlotsHaveOrigins(config, init, slot);
      var i: nat :| Origin(config, init, slot, i);
      assert init[..i] == run[..i];
      assert Origin(config, run, slot, i);
    } else {
      assert Origin(config, run, slot, |run| - 1);
    }
  }

  /**
   Over every run, whatever is in the cache came from a plain exchange: an HTTP GET
   without cookies or a byte range, answered directly with status 200, without setting
   a cookie, and with a usable `Vary`; and it expires when the lifetime that its lines
   grant is over.
   */
  lemma OnlyPlainExchangesAreKept(config: Config, run: seq<Event>, slot: Slot)
    requires slot in After(config, run).slots
    ensures exists i: nat ::
              && Origin(config, run, slot, i) && IsPlainExchange(run[i].request, slot.response)
              && slot.freshUntil > run[i].now && GrantsLifetime(slot.response.headers, slot.freshUntil - run[i].now)
  {
    hide After, OutputOf, SlotFor, IsPlainExchange, GrantsLifetime;
    SlotsHaveOrigins(config, run, slot);
    var i: nat :| Origin(config, run, slot, i);
    StorableIsGranted(run[i].request, slot.response, run[i].now);
  }

  /** Over every run no response in the cache has a member in a `Cache-Control` line that forbids keeping it. */
  lemma NothingForbiddenIsKept(config: Config, run: seq<Event>, slot: Slot, i: nat, a: nat, b: nat)
    requires slot in After(config, run).slots && IsMember(slot.response.headers, CONTROL, WHITE_SPACE, i, a, b)
    ensures !Forbids(MemberText(slot.response.headers, i, a, b))
  {
    hide After, Origin, IsPlainExchange, IsMember, Names, HasValue, HasUndecodable;
    OnlyPlainExchangesAreKept(config, run, slot);
  }

  // ---- Where bodies come from -------------------------------------------------------------------

  /** Event `i` stored a response with this body under this key, with room for it, and the cache was not cleared since. */
  ghost predicate BodyFrom(config: Config, run: seq<Event>, key: CacheKey, body: seq<bv8>, i: nat) {
    && i < |run| && run[i].Keep?
    && OutputOf(config, run, i) == Retained(run[i].response)
    && KeyOf(run[i].request) == key && run[i].response.body == body
    && IsPlainExchange(run[i].request, run[i].response) && HasRoom(config, run[i].response)
    && forall j :: i < j < |run| ==> !run[j].Clear?
  }

  predicate HoldsBody(slot: Slot, key: CacheKey, body: seq<bv8>) {
    slot.key == key && slot.response.body == body
  }

  ghost predicate HasBody(c: Cache, key: CacheKey, body: seq<bv8>) {
    exists k :: 0 <= k < |c.slots| && HoldsBody(c.slots[k], key, body)
  }

  /** A response present after a step was stored by it, or shares key and body with one present before. */
  lemma StepBody(config: Config, c: Cache, e: Event, slot: Slot)
    requires slot in Step(config, c, e).1.slots
    ensures
      || (e.Keep? && Step(config, c, e).0 == Retained(slot.response) && slot.response == e.response
          && slot.key == KeyOf(e.request) && IsPlainExchange(e.request, e.response) && HasRoom(config, e.response))
      || (!e.Clear? && HasBody(c, slot.key, slot.response.body))
  {
    hide SlotFor, Step, IsPlainExchange, KeyOf;
    StepOrigin(config, c, e, slot);
    if slot in c.slots && !e.Clear? {
      var k :| 0 <= k < |c.slots| && c.slots[k] == slot;
      assert HoldsBody(c.slots[k], slot.key, slot.response.body);
    } else {
      RetainedIsFresh(e.request, slot.response, e.now);
      StoredIsPlain(e.request, slot.response);
      if e.Keep? {
        KeepRetains(config, c, e);
      } else {
        RefreshKeepsBody(config, c, e);
      }
    }
  }

  lemma KeepRetains(config: Config, c: Cache, e: Event)
    requires e.Keep? && Step(config, c, e).0.Retained?
    ensures Step(config, c, e).0.response == e.response && HasRoom(config, e.response)
  {
    hide StoreIn, IsPlainExchange, GrantsLifetime;
    StoredExactly(config, c, e.request, e.response, e.now, e.epoch);
  }

  /** A refreshed response has the body of an entry of its key. */
  lemma RefreshKeepsBody(config: Config, c: Cache, e: Event)
    requires e.Refresh? && Step(config, c, e).0.Retained?
    ensures HasBody(c, KeyOf(e.request), Step(config, c, e).0.response.body)
  {
    hide SlotFor, Insert, RemoveAt, Answers304, KeyOf, Matches, HeaderMerge.Reference, ContentTypes.ContentTypeOf;
    var i := Best(c.slots, e.request, e.now, false).value;
    assert HoldsBody(c.slots[i], KeyOf(e.request), Step(config, c, e).0.response.body);
  }

  /** Over every run each body present was stored under its key since the last clear, by a plain exchange. */
  lemma {:induction false} BodiesWereStored(config: Config, run: seq<Event>, slot: Slot)
    requires slot in After(config, run).slots
    ensures exists i: nat :: BodyFrom(config, run, slot.key, slot.response.body, i)
    decreases |run|
  {
    hide Step, After, IsPlainExchange, KeyOf;
    AfterUnfolds(config, run);
    var last := |run| - 1;
    var init, e := run[..last], run[last];
    var c := After(config, init);
    StepBody(config, c, e, slot);
    if !e.Clear? && HasBody(c, slot.key, slot.response.body) {
      var k :| 0 <= k < |c.slots| && HoldsBody(c.slots[k], slot.key, slot.response.body);
      BodiesWereStored(config, init, c.slots[k]);
      var i: nat :| BodyFrom(config, init, slot.key, slot.response.body, i);
      assert init[..i] == run[..i];
      assert BodyFrom(config, run, slot.key, slot.response.body, i);
    } else {
      assert BodyFrom(config, run, slot.key, slot.response.body, last);
    }
  }

  /**
   Over every run each body served, fresh or stale, however often its headers were
   refreshed, is the body of a direct response with status 200 that was stored for the
   same URL and `Accept` since the last clear, and the response answers that URL.
   */
  lemma ServedBodiesWereStored(config: Config, run: seq<Event>, n: nat)
    requires n < |run| && OutputOf(config, run, n).Served?
    ensures run[n].Look? || run[n].LookStale?
    ensures exists i: nat ::
              && BodyFrom(config, run[..n], KeyOf(run[n].request), OutputOf(config, run, n).response.body, i)
              && SameTarget(run[i].request, run[n].request)
              && run[i].response.requestedUrl.text == run[i].response.finalUrl.text == run[n].request.url.text
  {
    hide After, Step, OutputOf, KeyOf, Matches, SameTarget;
    OutputUnfolds(config, run, n);
    var c := After(config, run[..n]);
    ServedIsSelected(config, c, run[n]);
    var k :| 0 <= k < |c.slots| && Selected(c.slots[k], run[n].request, run[n].now, run[n].Look?)
          && OutputOf(config, run, n).response == c.slots[k].response;
    BodiesWereStored(config, run[..n], c.slots[k]);
    var i: nat :| BodyFrom(config, run[..n], KeyOf(run[n].request), OutputOf(config, run, n).response.body, i);
    KeysTellTargets(run[i].request, run[n].request);
    TargetsShareUrl(run[i].request, run[n].request);
  }

  lemma TargetsShareUrl(a: FetchRequest, b: FetchRequest)
    requires SameTarget(a, b)
    ensures a.url.text == b.url.text
  {
  }

  lemma StoredIsPlain(request: FetchRequest, response: FetchResponse)
    requires PolicyFor(request, response).Store?
    ensures IsPlainExchange(request, response)
    ensures response.requestedUrl.text == response.finalUrl.text == request.url.text && response.status == 200
  {
    hide PolicyFor, GrantsLifetime, VaryIsUsable, SetsCookies, IsPlainRequest;
    AdmissionMeaning(request, response, PolicyFor(request, response).freshness);
  }

  lemma AfterUnfolds(config: Config, run: seq<Event>)
    ensures run == [] ==> After(config, run) == Cache([], 0)
    ensures run != [] ==> After(config, run) == Step(config, After(config, run[..|run| - 1]), run[|run| - 1]).1
  {
    hide Step;
  }

  /** Over every run the limits hold and no two responses share key and variant. */
  lemma {:induction false} RunsKeepInv(config: Config, run: seq<Event>)
    ensures Inv(config, After(config, run).slots)
  {
    hide Inv, After, LookupIn, StaleIn, StoreIn, MergeIn, SlotFor;
    AfterUnfolds(config, run);
    if run == [] {
      InvEmpty(config);
    } else {
      RunsKeepInv(config, run[..|run| - 1]);
      var c := After(config, run[..|run| - 1]);
      var r := AnyResponse();
      match run[|run| - 1] {
        case Look(request, now) => OperationsKeepInv(config, c, request, r, now, 0);
        case LookStale(request, now) => OperationsKeepInv(config, c, request, r, now, 0);
        case Keep(request, response, now, epoch) => OperationsKeepInv(config, c, request, response, now, epoch);
        case Refresh(request, response, now, epoch) => OperationsKeepInv(config, c, request, response, now, epoch);
        case Clear => InvEmpty(config);
      }
    }
  }

  function AnyResponse(): FetchResponse {
    var url := Url("", None);
    FetchResponse(url, url, [], [], 0, None, [], [])
  }

  /**
   Event `i` vouches for what event `n` serves: it retained that response, the cache was
   not cleared since, its request asked for the same URL with the same `Accept` and
   agrees with the present one on every field the served response itself varies on, both
   requests are plain, the response answers that URL, its lines forbid neither storing
   nor sharing it and grant it a lifetime, and it is served as fresh strictly before that
   lifetime ends and as stale only after.
   */
  ghost predicate Vouches(config: Config, run: seq<Event>, n: nat, r: FetchResponse, i: nat)
    requires n < |run| && (run[n].Look? || run[n].LookStale?)
  {
    && i < n
    && (run[i].Keep? || run[i].Refresh?)
    && OutputOf(config, run, i) == Retained(r)
    && (forall j :: i < j < n ==> !run[j].Clear?)
    && SameTarget(run[i].request, run[n].request) && IsPlainRequest(run[n].request)
    && (run[n].Look? ==> run[n].request.cacheValidators.None?)
    && r.requestedUrl.text == r.finalUrl.text == run[n].request.url.text
    && IsPlainExchange(run[i].request, r)
    && AgreeOnFields(run[i].request, run[n].request, r.headers)
    && exists lifetime ::
         GrantsLifetime(r.headers, lifetime) && (run[n].now < run[i].now + lifetime) == run[n].Look?
  }

  /** Section 4.1 of RFC 9111 over whole runs: some earlier event vouches for every response served. */
  lemma ServedResponsesAreSound(config: Config, run: seq<Event>, n: nat)
    requires n < |run| && OutputOf(config, run, n).Served?
    ensures run[n].Look? || run[n].LookStale?
    ensures exists i: nat :: Vouches(config, run, n, OutputOf(config, run, n).response, i)
  {
    hide SlotFor, After, Selected, Origin, Vouches, Step, OutputOf;
    var before := run[..n];
    var c := After(config, before);
    OutputUnfolds(config, run, n);
    ServedIsSelected(config, c, run[n]);
    var k :| 0 <= k < |c.slots| && Selected(c.slots[k], run[n].request, run[n].now, run[n].Look?)
          && OutputOf(config, run, n).response == c.slots[k].response;
    SlotsHaveOrigins(config, before, c.slots[k]);
    var i: nat :| Origin(config, before, c.slots[k], i);
    OriginVouches(config, run, n, c.slots[k], i);
  }

  lemma OutputUnfolds(config: Config, run: seq<Event>, n: nat)
    requires n < |run|
    ensures OutputOf(config, run, n) == Step(config, After(config, run[..n]), run[n]).0
  {
    hide Step, After;
  }

  lemma OriginVouches(config: Config, run: seq<Event>, n: nat, slot: Slot, i: nat)
    requires n < |run| && (run[n].Look? || run[n].LookStale?) && RequestSkipReason(run[n].request).None?
    requires run[n].Look? ==> run[n].request.cacheValidators.None?
    requires Origin(config, run[..n], slot, i) && Selected(slot, run[n].request, run[n].now, run[n].Look?)
    ensures Vouches(config, run, n, slot.response, i)
  {
    hide SlotFor, After, Step, AgreeOnFields, KeyOf, IsPlainExchange, GrantsLifetime, Selected;
    hide IsPlainRequest, RequestSkipReason, OutputOf, SameTarget;
    assert run[..n][..i] == run[..i];
    SameOutput(config, run, n, i);
    SlotVouches(run[i].request, run[i].now, slot, run[n].request, run[n].now, run[n].Look?);
  }

  /** What a retained slot tells about a request that selects it. */
  lemma SlotVouches(stored: FetchRequest, since: nat, slot: Slot, request: FetchRequest, now: nat, wantFresh: bool)
    requires SlotFor(stored, slot.response, since) == Storable(slot)
    requires RequestSkipReason(request).None? && Selected(slot, request, now, wantFresh)
    ensures SameTarget(stored, request) && IsPlainRequest(request)
    ensures slot.response.requestedUrl.text == slot.response.finalUrl.text == request.url.text
    ensures IsPlainExchange(stored, slot.response) && AgreeOnFields(stored, request, slot.response.headers)
    ensures slot.freshUntil > since && GrantsLifetime(slot.response.headers, slot.freshUntil - since)
    ensures (now < since + (slot.freshUntil - since)) == wantFresh
  {
    hide SlotFor, VariantFor, AgreeOnVary, AgreeOnFields, Matches, KeyOf, IsPlainExchange, GrantsLifetime;
    hide RequestSkipReason, PolicyFor;
    RetainedIsFresh(stored, slot.response, since);
    KeysTellTargets(stored, request);
    PlainRequestMeaning(request);
    StorableIsGranted(stored, slot.response, since);
    PlainAnswers(stored, slot.response);
    MatchesMeansAgreement(stored, request, slot.response.headers);
    AgreementMeaning(stored, request, slot.response.headers);
  }

  lemma SameOutput(config: Config, run: seq<Event>, n: nat, i: nat)
    requires i < n <= |run|
    ensures OutputOf(config, run[..n], i) == OutputOf(config, run, i)
  {
    hide Step, After;
    assert run[..n][..i] == run[..i];
  }

  lemma PlainAnswers(request: FetchRequest, response: FetchResponse)
    requires IsPlainExchange(request, response)
    ensures response.requestedUrl.text == response.finalUrl.text == request.url.text
  {
    hide VaryIsUsable, SetsCookies;
  }

  lemma ServedIsSelected(config: Config, c: Cache, e: Event)
    requires Step(config, c, e).0.Served?
    ensures (e.Look? || e.LookStale?) && RequestSkipReason(e.request).None?
    ensures e.Look? ==> e.request.cacheValidators.None?
    ensures exists k :: 0 <= k < |c.slots| && Selected(c.slots[k], e.request, e.now, e.Look?)
              && Step(config, c, e).0.response == c.slots[k].response
  {
    hide SlotFor, RequestSkipReason, Direct, Matches, KeyOf;
  }
}
