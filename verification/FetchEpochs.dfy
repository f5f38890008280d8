/**
 Cache-aware transfers of the browser shell (`submit_cached_fetch`,
 `finish_cached_fetch`, `clear_http_cache`): requests are answered from the cache
 or sent to the network, complete later and in any order, and the user may clear
 the cache at any moment in between.
 */
module FetchEpochs {
  import opened HttpTypes
  import opened CachePolicy
  import opened RecencyList
  import opened RecencyLaws
  import opened CacheRuns
  import opened CacheMeaning
  import opened CacheAdmission

  datatype FetchResult = Ok(response: FetchResponse) | Failed

  /** How the bounded network worker answers a submission. */
  datatype NetworkReply = Accepted | QueueFull | Immediate(result: FetchResult)

  datatype HandleState = Ready(result: FetchResult) | Pending | Deferred

  /** A transfer in flight; it remembers the cache epoch of its submission. */
  datatype Handle = Handle(request: FetchRequest, epoch: nat, state: HandleState)

  // ---- Specification of the three entry points ------------------------------------------

  function StateFor(reply: NetworkReply): HandleState {
    match reply
    case Accepted => Pending
    case QueueFull => Deferred
    case Immediate(result) => Ready(result)
  }

  function SubmitFetch(c: Cache, request: FetchRequest, now: nat, reply: NetworkReply): (Handle, Cache) {
    var (hit, slots) := LookupIn(c.slots, request, now);
    match hit
    case Hit(response) => (Handle(request, c.epoch, Ready(Ok(response))), c.(slots := slots))
    case Miss =>
      var (conditional, moved) := RevalidationIn(slots, request, now);
      var submitted := if conditional.Some? then conditional.value else request;
      (Handle(submitted, c.epoch, StateFor(reply)), c.(slots := moved))
  }

  /** A completed transfer updates the cache; `Ready` handles count as answered from it. */
  function FinishFetch(config: Config, c: Cache, handle: Handle, result: FetchResult, now: nat): (FetchResult, Cache) {
    match result
    case Failed => (Failed, c)
    case Ok(response) =>
      if response.status == 304 then
        var (merged, after) := MergeIn(config, c, handle.request, response, now, handle.epoch);
        (if merged.Some? then Ok(merged.value) else Failed, after)
      else if handle.state.Ready? then (result, c)
      else (result, StoreIn(config, c, handle.request, response, now, handle.epoch).1)
  }

  // ---- What completions mean ------------------------------------------------------------------

  /** Whatever the cache does, a response other than `304` is handed on as it came, and a failure as one. */
  lemma CompletionsAreHandedOn(config: Config, c: Cache, handle: Handle, result: FetchResult, now: nat)
    requires result.Ok? ==> result.response.status != 304
    ensures FinishFetch(config, c, handle, result, now).0 == result
  {
  }

  /**
   What the network delivers for a plain request of this epoch, with a granted lifetime
   and room for it, is handed on and kept; and from then until the lifetime is over the
   same request is ready at once, with a response at least as long-lived.
   */
  lemma FreshResponsesAreKept(
      config: Config, c: Cache, handle: Handle, response: FetchResponse, now: nat, lifetime: nat, later: nat,
      reply: NetworkReply)
    requires handle.epoch == c.epoch && !handle.state.Ready?
    requires IsPlainExchange(handle.request, response) && GrantsLifetime(response.headers, lifetime)
    requires HasRoom(config, response) && later < now + lifetime <= INSTANT_MAX
    ensures
      var (out, after) := FinishFetch(config, c, handle, Ok(response), now);
      && out == Ok(response)
      && after.slots != [] && after.slots[0].response == response && after.slots[0].freshUntil == now + lifetime
      && var again := SubmitFetch(after, handle.request.(cacheValidators := None), later, reply).0;
         again.state.Ready? && again.state.result.Ok?
         && exists i :: 0 <= i < |after.slots| && after.slots[i].response == again.state.result.response
                        && after.slots[i].freshUntil >= now + lifetime
  {
    hide GrantsLifetime, StoreIn, LookupIn, SlotFor, IsPlainRequest, VaryIsUsable, SetsCookies;
    StoredExactly(config, c, handle.request, response, now, handle.epoch);
    RetentionMeaning(handle.request, response, now, lifetime);
    StoredIsFirst(config, c, handle.request, response, now, handle.epoch);
    StoreThenLookup(config, c, handle.request, response, now, handle.epoch, later, handle.request.url.fragment);
    assert Url(handle.request.url.text, handle.request.url.fragment) == handle.request.url;
  }

  /** The lines of the refreshed response grant a lifetime that no clock reading can be advanced by. */
  ghost predicate LastsTooLong(request: FetchRequest, response: FetchResponse, now: nat) {
    && IsPlainExchange(request, response)
    && exists lifetime :: GrantsLifetime(response.headers, lifetime) && now + lifetime > INSTANT_MAX
  }

  lemma OverflowMeaning(request: FetchRequest, response: FetchResponse, now: nat)
    ensures SlotFor(request, response, now).Overflow? <==> LastsTooLong(request, response, now)
  {
    hide IsPlainExchange, GrantsLifetime, PolicyFor, VariantFor, SlotFor;
    var r := SlotFor(request, response, now);
    if LastsTooLong(request, response, now) {
      var lifetime :| GrantsLifetime(response.headers, lifetime) && now + lifetime > INSTANT_MAX;
      RetentionMeaning(request, response, now, lifetime);
    }
    if r.Overflow? {
      OverflowIsGranted(request, response, now);
    }
  }

  lemma OverflowIsGranted(request: FetchRequest, response: FetchResponse, now: nat)
    requires SlotFor(request, response, now).Overflow?
    ensures LastsTooLong(request, response, now)
  {
    hide IsPlainExchange, GrantsLifetime, PolicyFor, VariantFor;
    AdmissionMeaning(request, response, PolicyFor(request, response).freshness);
  }

  /** There is a stale entry for the request. */
  ghost predicate HasStale(c: Cache, request: FetchRequest, now: nat) {
    exists k :: 0 <= k < |c.slots| && Selected(c.slots[k], request, now, false)
  }

  /**
   A `304` hands on a response exactly if it directly answers a plain request of this
   epoch, a stale entry is there, and its new lifetime is not too long; it is then that
   entry's body with status 200. Otherwise the transfer fails and nothing changes.
   */
  lemma NotModifiedIsFolded(config: Config, c: Cache, handle: Handle, response: FetchResponse, now: nat)
    requires Inv(config, c.slots) && response.status == 304
    ensures
      var stale := Best(c.slots, handle.request, now, false);
      var (out, after) := FinishFetch(config, c, handle, Ok(response), now);
      && (out.Ok? <==>
            && handle.epoch == c.epoch && IsPlainRequest(handle.request) && AnswersDirectly(handle.request, response)
            && HasStale(c, handle.request, now) && stale.Some?
            && !LastsTooLong(handle.request, MergedResponse(c.slots[stale.value].response, response.headers), now))
      && (out.Ok? ==> out.response.body == c.slots[stale.value].response.body && out.response.status == 200)
      && (out.Failed? ==> after == c)
  {
    hide SlotFor, Answers304, Inv, Selected, MergeIn, IsPlainRequest, AnswersDirectly, LastsTooLong;
    NotModifiedMeaning(c, handle.request, response, handle.epoch);
    MergeOutcome(config, c, handle.request, response, now, handle.epoch);
    var stale := Best(c.slots, handle.request, now, false);
    if stale.Some? {
      OverflowMeaning(handle.request, MergedResponse(c.slots[stale.value].response, response.headers), now);
    }
  }

  // ---- Interleavings ------------------------------------------------------------------------

  /** A transfer is named by the position of its submission in the history. */
  datatype Event =
    | Submit(request: FetchRequest, now: nat, reply: NetworkReply)
    | Resubmit(id: nat, reply: NetworkReply)
    | Finish(id: nat, result: FetchResult, now: nat)
    | ClearRequest(diskAccepts: bool)
    | DiskCleared

  datatype Front = Front(cache: Cache, flights: map<nat, Handle>, clearing: bool)

  predicate Clears(f: Front, e: Event) {
    e.ClearRequest? && !f.clearing
  }

  /** What a handle delivers: its stored result, or what the network sent. */
  function Delivered(handle: Handle, result: FetchResult): FetchResult {
    if handle.state.Ready? then handle.state.result else result
  }

  function Step(config: Config, f: Front, at: nat, e: Event): Front {
    match e
    case Submit(request, now, reply) =>
      var (handle, c) := SubmitFetch(f.cache, request, now, reply);
      Front(c, f.flights[at := handle], f.clearing)
    case Resubmit(id, reply) =>
      if id in f.flights && f.flights[id].state.Deferred?
      then f.(flights := f.flights[id := f.flights[id].(state := StateFor(reply))])
      else f
    case Finish(id, result, now) =>
      if id in f.flights && !f.flights[id].state.Deferred? then
        var handle := f.flights[id];
        f.(cache := FinishFetch(config, f.cache, handle, Delivered(handle, result), now).1, flights := f.flights - {id})
      else f
    case ClearRequest(diskAccepts) =>
      if f.clearing then f else f.(cache := Cleared(f.cache), clearing := diskAccepts)
    case DiskCleared => f.(clearing := false)
  }

  function After(config: Config, run: seq<Event>): Front {
    if run == [] then Front(Cache([], 0), map[], false)
    else Step(config, After(config, run[..|run| - 1]), |run| - 1, run[|run| - 1])
  }

  /**
   A request that found the network's queue full is parked: nothing completes it until it
   is submitted again, and then it waits for the network, is parked again, or is done.
   */
  lemma ParkedRequestsWait(config: Config, f: Front, at: nat, request: FetchRequest, now: nat, result: FetchResult)
    requires LookupIn(f.cache.slots, request, now).0.Miss?
    ensures
      var g := Step(config, f, at, Submit(request, now, QueueFull));
      && at in g.flights && Step(config, g, at + 1, Finish(at, result, now)) == g
      && Step(config, g, at + 1, Resubmit(at, QueueFull)) == g
      && Step(config, g, at + 1, Resubmit(at, Accepted)).flights[at].state == Pending
      && Step(config, g, at + 1, Resubmit(at, Immediate(result))).flights[at].state == Ready(result)
  {
    hide LookupIn, RevalidationIn;
    var g := Step(config, f, at, Submit(request, now, QueueFull));
    assert g.flights[at := g.flights[at]] == g.flights;
  }

  lemma AfterUnfolds(config: Config, run: seq<Event>)
    ensures run == [] ==> After(config, run) == Front(Cache([], 0), map[], false)
    ensures run != [] ==>
              After(config, run) == Step(config, After(config, run[..|run| - 1]), |run| - 1, run[|run| - 1])
  {
    hide Step;
  }

  /** The cache was cleared by event `j` of the run. */
  ghost predicate ClearedAt(config: Config, run: seq<Event>, j: nat) {
    j < |run| && Clears(After(config, run[..j]), run[j])
  }

  /** The cache was not cleared from event `from` on. */
  ghost predicate UnclearedSince(config: Config, run: seq<Event>, from: nat) {
    forall j :: from <= j < |run| ==> !ClearedAt(config, run, j)
  }

  /** Epochs tell exactly which submissions predate the last clear. */
  ghost predicate EpochsTell(config: Config, run: seq<Event>) {
    var f := After(config, run);
    && f.cache.epoch <= |run|
    && forall id :: id in f.flights ==>
         && id < |run| && run[id].Submit?
         && KeyOf(f.flights[id].request) == KeyOf(run[id].request)
         && f.flights[id].epoch <= f.cache.epoch
         && (f.flights[id].epoch == f.cache.epoch ==> UnclearedSince(config, run, id))
  }

  lemma PrefixClears(config: Config, run: seq<Event>, from: nat)
    requires run != [] && UnclearedSince(config, run[..|run| - 1], from)
    requires !Clears(After(config, run[..|run| - 1]), run[|run| - 1])
    ensures UnclearedSince(config, run, from)
  {
    hide After;
    var init := run[..|run| - 1];
    forall j | from <= j < |run| ensures !ClearedAt(config, run, j) {
      if j < |run| - 1 {
        assert init[..j] == run[..j];
        assert !ClearedAt(config, init, j);
      }
    }
  }

  /** Fewer than 2^64 events never saturate the epoch counter. */
  lemma {:induction false} EpochsTellAlways(config: Config, run: seq<Event>)
    requires |run| <= U64_MAX
    ensures EpochsTell(config, run)
  {
    hide After, UnclearedSince, KeyOf;
    AfterUnfolds(config, run);
    if run != [] {
      var init, e := run[..|run| - 1], run[|run| - 1];
      EpochsTellAlways(config, init);
      var f, g := After(config, init), After(config, run);
      StepEpochs(config, f, |init|, e);
      forall id | id in g.flights
        ensures id < |run| && run[id].Submit?
        ensures KeyOf(g.flights[id].request) == KeyOf(run[id].request)
        ensures g.flights[id].epoch <= g.cache.epoch
        ensures g.flights[id].epoch == g.cache.epoch ==> UnclearedSince(config, run, id)
      {
        if id != |init| {
          assert id in f.flights && run[id] == init[id];
          if g.flights[id].epoch == g.cache.epoch { PrefixClears(config, run, id); }
        } else {
          NothingAfter(config, run);
        }
      }
    }
  }

  lemma NothingAfter(config: Config, run: seq<Event>)
    requires run != [] && !run[|run| - 1].ClearRequest?
    ensures UnclearedSince(config, run, |run| - 1)
  {
    hide After;
  }

  /** How one event moves epochs and flights. */
  lemma StepEpochs(config: Config, f: Front, at: nat, e: Event)
    requires f.cache.epoch < U64_MAX
    ensures
      var g := Step(config, f, at, e);
      && g.cache.epoch == f.cache.epoch + (if Clears(f, e) then 1 else 0)
      && (forall id :: id in g.flights && !(e.Submit? && id == at) ==>
            id in f.flights && g.flights[id].epoch == f.flights[id].epoch
            && g.flights[id].request == f.flights[id].request)
      && (at in g.flights && at !in f.flights ==> e.Submit?)
      && (e.Submit? ==>
            && at in g.flights && g.flights[at].epoch == f.cache.epoch
            && KeyOf(g.flights[at].request) == KeyOf(e.request))
  {
    hide LookupIn, StaleIn, StoreIn, MergeIn;
    if e.Finish? && e.id in f.flights && !f.flights[e.id].state.Deferred? {
      var handle := f.flights[e.id];
      FinishKeepsEpoch(config, f.cache, handle, Delivered(handle, e.result), e.now);
    }
  }

  lemma FinishKeepsEpoch(config: Config, c: Cache, handle: Handle, result: FetchResult, now: nat)
    ensures FinishFetch(config, c, handle, result, now).1.epoch == c.epoch
  {
    hide SlotFor, Best, Direct, RequestSkipReason, Insert, RemoveAt, MergedResponse;
  }

  /** Completing `handle` with `result` delivers the slot's response and makes the cache retain that slot. */
  ghost predicate Produces(config: Config, c: Cache, handle: Handle, result: FetchResult, now: nat, slot: Slot) {
    && handle.epoch == c.epoch
    && FinishFetch(config, c, handle, result, now).0 == Ok(slot.response)
    && SlotFor(handle.request, slot.response, now) == Storable(slot)
    && slot in FinishFetch(config, c, handle, result, now).1.slots
  }

  /** At event `d` the completion of transfer `s` delivered and retained exactly `slot`, in the current epoch. */
  ghost predicate ProducedAt(config: Config, run: seq<Event>, slot: Slot, s: nat, d: nat) {
    && s < d < |run| && run[d].Finish? && run[d].id == s
    && var f := After(config, run[..d]);
       && s in f.flights && !f.flights[s].state.Deferred?
       && Produces(config, f.cache, f.flights[s], Delivered(f.flights[s], run[d].result), run[d].now, slot)
  }

  /** Transfer `s`, submitted after the last clear for the slot's key, completed and retained `slot`. */
  ghost predicate FilledBy(config: Config, run: seq<Event>, slot: Slot, s: nat) {
    && s < |run| && run[s].Submit? && slot.key == KeyOf(run[s].request)
    && slot.response.requestedUrl.text == slot.response.finalUrl.text == run[s].request.url.text
    && UnclearedSince(config, run, s)
    && exists d: nat :: ProducedAt(config, run, slot, s, d)
  }

  /**
   Whatever the interleaving, every response in the cache was produced by the completion
   of one transfer, which was submitted after the last clear: that completion delivered
   this very response, storable under the transfer's request, in the epoch of its
   submission. Nothing requested before a clear can refill the cache, neither through a
   fresh response nor through a `304`.
   */
  lemma {:induction false} NothingCrossesAClear(config: Config, run: seq<Event>, slot: Slot)
    requires |run| <= U64_MAX && slot in After(config, run).cache.slots
    ensures exists s: nat :: FilledBy(config, run, slot, s)
    decreases |run|
  {
    hide After, UnclearedSince, KeyOf, Step, FinishFetch, Produces, Clears, EpochsTell;
    AfterUnfolds(config, run);
    var init, e := run[..|run| - 1], run[|run| - 1];
    var f := After(config, init);
    EpochsTellAlways(config, init);
    StepFills(config, f, |init|, e, slot);
    if slot in f.cache.slots {
      NothingCrossesAClear(config, init, slot);
      var s: nat :| FilledBy(config, init, slot, s);
      PrefixClears(config, run, s);
      var d: nat :| ProducedAt(config, init, slot, s, d);
      assert init[..d] == run[..d];
      assert ProducedAt(config, run, slot, s, d);
      assert FilledBy(config, run, slot, s);
    } else {
      FlightOrigin(config, init, e.id);
      ProducesMeans(config, f.cache, f.flights[e.id], Delivered(f.flights[e.id], e.result), e.now, slot);
      KeysTellTargets(f.flights[e.id].request, run[e.id].request);
      PrefixClears(config, run, e.id);
      assert run[..|init|] == init;
      assert ProducedAt(config, run, slot, e.id, |init|);
      assert FilledBy(config, run, slot, e.id);
    }
  }

  /** A flight of the current epoch was submitted since the last clear. */
  lemma FlightOrigin(config: Config, run: seq<Event>, id: nat)
    requires EpochsTell(config, run) && id in After(config, run).flights
    ensures id < |run| && run[id].Submit? && KeyOf(After(config, run).flights[id].request) == KeyOf(run[id].request)
    ensures After(config, run).flights[id].epoch == After(config, run).cache.epoch ==> UnclearedSince(config, run, id)
  {
    hide After, UnclearedSince, KeyOf;
  }

  lemma ProducesMeans(config: Config, c: Cache, handle: Handle, result: FetchResult, now: nat, slot: Slot)
    requires Produces(config, c, handle, result, now, slot)
    ensures handle.epoch == c.epoch && slot.key == KeyOf(handle.request)
    ensures slot.response.requestedUrl.text == slot.response.finalUrl.text == handle.request.url.text
  {
    hide FinishFetch, SlotFor, KeyOf;
    RetainedIsFresh(handle.request, slot.response, now);
    StoredIsPlain(handle.request, slot.response);
  }

  /** A response new after one event was produced by a completion of the current epoch. */
  lemma StepFills(config: Config, f: Front, at: nat, e: Event, slot: Slot)
    requires slot in Step(config, f, at, e).cache.slots
    ensures !Clears(f, e)
    ensures slot in f.cache.slots
            || (e.Finish? && e.id in f.flights && !f.flights[e.id].state.Deferred?
                && Produces(config, f.cache, f.flights[e.id], Delivered(f.flights[e.id], e.result), e.now, slot))
  {
    hide LookupIn, StaleIn, StoreIn, MergeIn, KeyOf, FinishFetch, Produces;
    match e {
      case Submit(request, now, reply) =>
        SubmitFills(f.cache, request, now, reply, slot);
      case Finish(id, result, now) =>
        if id in f.flights && !f.flights[id].state.Deferred? && slot !in f.cache.slots {
          FinishFills(config, f.cache, f.flights[id], Delivered(f.flights[id], result), now, slot);
        }
      case Resubmit(_, _) =>
      case ClearRequest(_) =>
      case DiskCleared =>
    }
  }

  lemma SubmitFills(c: Cache, request: FetchRequest, now: nat, reply: NetworkReply, slot: Slot)
    requires slot in SubmitFetch(c, request, now, reply).1.slots
    ensures slot in c.slots
  {
    hide Best, RequestSkipReason, MoveToFront;
    InMoved(c.slots, Best(c.slots, request, now, true), slot);
    InMoved(c.slots, Best(c.slots, request, now, false), slot);
  }

  lemma FinishFills(config: Config, c: Cache, handle: Handle, result: FetchResult, now: nat, slot: Slot)
    requires slot in FinishFetch(config, c, handle, result, now).1.slots && slot !in c.slots
    ensures Produces(config, c, handle, result, now, slot)
  {
    hide SlotFor, Best, Direct, RequestSkipReason, Insert, RemoveAt, MergedResponse, KeyOf;
    if result.response.status == 304 {
      MergeOrigin(config, c, handle.request, result.response, now, handle.epoch, slot);
    } else {
      StoreOrigin(config, c, handle.request, result.response, now, handle.epoch, slot);
    }
  }
}
