/**
 Page transfers on top of the cache. Every request a page transfer sends goes through
 `submit_cached_fetch`, which may answer it from the cache or make it conditional;
 but what completes is handed to the page as it is, without `finish_cached_fetch`.
 This file says where delivered responses come from, what really goes out, and when a
 page is handed a `304` that it never asked for.
 */
module PageFetchCaching {
  import opened Text
  import opened HttpTypes
  import opened PageFetches
  import opened PageFetchLaws
  import opened CachePolicy
  import opened RecencyList
  import FetchEpochs
  import CacheRuns
  import HeaderLists
  import CacheControl

  // ---- Submissions ------------------------------------------------------------------------------

  /** A request handed to the transport, with the cache at that moment and the network's reply. */
  datatype Submission = Submission(
    ticket: nat, request: FetchRequest, now: nat, before: Cache, reply: FetchEpochs.NetworkReply)

  function HandleOf(s: Submission): FetchEpochs.Handle {
    FetchEpochs.SubmitFetch(s.before, s.request, s.now, s.reply).0
  }

  function CacheAfter(s: Submission): Cache {
    FetchEpochs.SubmitFetch(s.before, s.request, s.now, s.reply).1
  }

  /** The cache does not answer, so a request goes to the network. */
  predicate GoesOut(s: Submission) {
    LookupIn(s.before.slots, s.request, s.now).0.Miss?
  }

  /** The request that goes to the network. */
  function WireRequest(s: Submission): FetchRequest {
    HandleOf(s).request
  }

  /** A response of the network to a request on the wire. */
  datatype Answer = Answer(request: FetchRequest, response: FetchResponse)

  // ---- The shell with its transport ---------------------------------------------------------------

  /** `handles` names the handle of each transfer; `ledger` and `answers` are history. */
  datatype Layer = Layer(
    shell: Shell,
    cache: Cache,
    handles: map<nat, FetchEpochs.Handle>,
    ledger: seq<Submission>,
    answers: set<Answer>)

  const EMPTY_LAYER: Layer := Layer(EMPTY_SHELL, Cache([], 0), map[], [], {})

  /** The time of a submission and the network's reply to it. */
  datatype Moment = Moment(now: nat, reply: FetchEpochs.NetworkReply)

  /** The moments of the events of one step; where it ends, requests are merely taken in. */
  type Clock = seq<Moment>

  function MomentAt(clock: Clock, k: nat): Moment {
    if k < |clock| then clock[k] else Moment(0, FetchEpochs.Accepted)
  }

  function ReplyAnswers(request: FetchRequest, reply: FetchEpochs.NetworkReply): set<Answer> {
    if reply.Immediate? && reply.result.Ok? then {Answer(request, reply.result.response)} else {}
  }

  function Submit(l: Layer, ticket: nat, request: FetchRequest, m: Moment): Layer {
    var s := Submission(ticket, request, m.now, l.cache, m.reply);
    l.(cache := CacheAfter(s), handles := l.handles[ticket := HandleOf(s)], ledger := l.ledger + [s],
       answers := l.answers + if GoesOut(s) then ReplyAnswers(WireRequest(s), m.reply) else {})
  }

  /** Hands over what these events send, in order; `clock` gives the moment of each. */
  function SubmitAll(l: Layer, events: seq<Event>, clock: Clock): Layer {
    if events == [] then l
    else
      var last := |events| - 1;
      var before := SubmitAll(l, events[..last], clock);
      var e := events[last];
      if e.Sent? then Submit(before, e.ticket, e.request, MomentAt(clock, last)) else before
  }

  /** What a transfer's handle delivers when the network has got as far as `arrival`. */
  function CompletionOf(handles: map<nat, FetchEpochs.Handle>, t: PendingPageFetch, arrival: Completion): Completion {
    if t.ticket !in handles then Waiting
    else
      match handles[t.ticket].state
      case Ready(Ok(response)) => Completed(response)
      case Ready(Failed) => Broken
      case Deferred => Waiting
      case Pending => arrival
  }

  function Completions(l: Layer, arrivals: seq<Completion>): (cs: seq<Completion>)
    requires |arrivals| == |l.shell.pending|
    ensures |cs| == |arrivals|
    ensures forall i :: 0 <= i < |cs| ==> cs[i] == CompletionOf(l.handles, l.shell.pending[i], arrivals[i])
  {
    seq(|arrivals|, i requires 0 <= i < |arrivals| => CompletionOf(l.handles, l.shell.pending[i], arrivals[i]))
  }

  /** The network answers this transfer now. */
  predicate Arrives(l: Layer, arrivals: seq<Completion>, i: nat)
    requires |arrivals| == |l.shell.pending|
  {
    && i < |arrivals| && arrivals[i].Completed?
    && l.shell.pending[i].ticket in l.handles && l.handles[l.shell.pending[i].ticket].state.Pending?
  }

  function ArrivedAnswers(l: Layer, arrivals: seq<Completion>): set<Answer>
    requires |arrivals| == |l.shell.pending|
  {
    set i: nat | i < |arrivals| && Arrives(l, arrivals, i)
      :: Answer(l.handles[l.shell.pending[i].ticket].request, arrivals[i].response)
  }

  datatype LayerStep =
    | ShellDoes(step: Step, clock: Clock)
    | PollAll(arrivals: seq<Completion>, pollClock: Clock)
    /** A request parked for a full queue is submitted again. */
    | Requeue(ticket: nat, reply: FetchEpochs.NetworkReply)
    /** Other transfers of the shell use the cache. */
    | OtherUse(use: CacheRuns.Event)

  predicate CanLayer(l: Layer, step: LayerStep) {
    match step
    case ShellDoes(s, _) => !s.Poll? && CanStep(l.shell, s)
    case PollAll(arrivals, _) => |arrivals| == |l.shell.pending|
    case Requeue(ticket, _) => ticket in l.handles && l.handles[ticket].state.Deferred?
    case OtherUse(_) => true
  }

  /** What the step is for the shell alone. */
  function ShellSteps(l: Layer, step: LayerStep): seq<Step>
    requires CanLayer(l, step)
  {
    match step
    case ShellDoes(s, _) => [s]
    case PollAll(arrivals, _) => [Poll(Completions(l, arrivals))]
    case _ => []
  }

  function ClockOf(step: LayerStep): Clock {
    match step
    case ShellDoes(_, clock) => clock
    case PollAll(_, clock) => clock
    case _ => []
  }

  /** The answers that arrive at the beginning of a step. */
  function Receiving(l: Layer, step: LayerStep): Layer
    requires CanLayer(l, step)
  {
    if step.PollAll? then l.(answers := l.answers + ArrivedAnswers(l, step.arrivals)) else l
  }

  function LayerApply(cors: Cors, config: Config, l: Layer, step: LayerStep): Layer
    requires CanLayer(l, step)
  {
    match step
    case Requeue(ticket, reply) =>
      var handle := l.handles[ticket];
      l.(handles := l.handles[ticket := handle.(state := FetchEpochs.StateFor(reply))],
         answers := l.answers + ReplyAnswers(handle.request, reply))
    case OtherUse(use) => l.(cache := CacheRuns.Step(config, l.cache, use).1)
    case _ =>
      var shell := Apply(cors, l.shell, ShellSteps(l, step)[0]);
      var sent := if |l.shell.log| <= |shell.log| then shell.log[|l.shell.log|..] else [];
      SubmitAll(Receiving(l, step), sent, ClockOf(step)).(shell := shell)
  }

  ghost predicate LayerReaches(cors: Cors, config: Config, l: Layer, steps: seq<LayerStep>, after: Layer)
    decreases |steps|
  {
    if |steps| == 0 then after == l
    else CanLayer(l, steps[0]) && LayerReaches(cors, config, LayerApply(cors, config, l, steps[0]), steps[1..], after)
  }

  // ---- Where a response comes from ------------------------------------------------------------------

  /** The response is the cache's fresh one for this submission, or the network's answer to what went out. */
  ghost predicate Source(s: Submission, answers: set<Answer>, response: FetchResponse) {
    if GoesOut(s) then Answer(WireRequest(s), response) in answers
    else LookupIn(s.before.slots, s.request, s.now).0 == Hit(response)
  }

  /** The request a ticket sent last. */
  function LastSent(log: seq<Event>, ticket: nat): Option<FetchRequest> {
    if log == [] then None
    else
      var e := log[|log| - 1];
      if e.Sent? && e.ticket == ticket then Some(e.request) else LastSent(log[..|log| - 1], ticket)
  }

  /** Submission `k` is the ticket's for this request, and its handle holds what that submission brought. */
  ghost predicate FitsAt(l: Layer, ticket: nat, request: FetchRequest, k: nat) {
    && k < |l.ledger| && l.ledger[k].ticket == ticket && l.ledger[k].request == request
    && ticket in l.handles
    && var handle := l.handles[ticket];
       && handle.request == WireRequest(l.ledger[k])
       && (!GoesOut(l.ledger[k]) ==> handle.state.Ready?)
       && (handle.state.Ready? && handle.state.result.Ok? ==>
             Source(l.ledger[k], l.answers, handle.state.result.response))
  }

  ghost predicate Fits(l: Layer, ticket: nat, request: FetchRequest) {
    exists k: nat :: FitsAt(l, ticket, request, k)
  }

  ghost predicate InLedger(l: Layer, ticket: nat, request: FetchRequest) {
    exists k :: 0 <= k < |l.ledger| && l.ledger[k].ticket == ticket && l.ledger[k].request == request
  }

  /** Handles and ledger tell what this history sent. */
  ghost predicate Records(l: Layer, log: seq<Event>) {
    && (forall ticket: nat :: LastSent(log, ticket).Some? ==> Fits(l, ticket, LastSent(log, ticket).value))
    && (forall k :: 0 <= k < |l.ledger| ==> Sent(l.ledger[k].ticket, l.ledger[k].request) in log)
    && (forall j :: 0 <= j < |log| && log[j].Sent? ==> InLedger(l, log[j].ticket, log[j].request))
  }

  lemma LastSentSnoc(log: seq<Event>, e: Event, ticket: nat)
    ensures LastSent(log + [e], ticket) ==
            if e.Sent? && e.ticket == ticket then Some(e.request) else LastSent(log, ticket)
  {
    assert (log + [e])[..|log|] == log;
  }

  lemma SubmissionDelivers(s: Submission)
    ensures !GoesOut(s) ==> HandleOf(s).state.Ready?
    ensures HandleOf(s).state.Ready? && HandleOf(s).state.result.Ok? ==>
              Source(s, if GoesOut(s) then ReplyAnswers(WireRequest(s), s.reply) else {},
                     HandleOf(s).state.result.response)
  {
    hide LookupIn, RevalidationIn;
  }

  lemma SourceWidens(s: Submission, answers: set<Answer>, more: set<Answer>, response: FetchResponse)
    requires Source(s, answers, response) && answers <= more
    ensures Source(s, more, response)
  {
    hide GoesOut, WireRequest, LookupIn;
  }

  /** A layer that keeps a ticket's handle and only adds to its history. */
  lemma FitsStill(l: Layer, r: Layer, ticket: nat, request: FetchRequest)
    requires Fits(l, ticket, request) && l.ledger <= r.ledger && l.answers <= r.answers
    requires ticket in l.handles ==> ticket in r.handles && r.handles[ticket] == l.handles[ticket]
    ensures Fits(r, ticket, request)
  {
    hide GoesOut, WireRequest, Source;
    var k: nat :| FitsAt(l, ticket, request, k);
    var handle := l.handles[ticket];
    assert r.ledger[k] == l.ledger[k];
    if handle.state.Ready? && handle.state.result.Ok? {
      SourceWidens(l.ledger[k], l.answers, r.answers, handle.state.result.response);
    }
    assert FitsAt(r, ticket, request, k);
  }

  lemma SubmitFits(l: Layer, ticket: nat, request: FetchRequest, m: Moment)
    ensures Fits(Submit(l, ticket, request, m), ticket, request)
  {
    hide GoesOut, WireRequest, HandleOf, CacheAfter, Source;
    var r := Submit(l, ticket, request, m);
    var s := r.ledger[|l.ledger|];
    SubmissionDelivers(s);
    WireIsHandles(s);
    var handle := HandleOf(s);
    if handle.state.Ready? && handle.state.result.Ok? {
      SourceWidens(s, if GoesOut(s) then ReplyAnswers(WireRequest(s), s.reply) else {}, r.answers,
                   handle.state.result.response);
    }
    assert FitsAt(r, ticket, request, |l.ledger|);
  }

  lemma WireIsHandles(s: Submission)
    ensures WireRequest(s) == HandleOf(s).request
  {
  }

  /** One event more. */
  lemma RecordsSnoc(l: Layer, log: seq<Event>, e: Event, m: Moment)
    requires Records(l, log)
    ensures Records(if e.Sent? then Submit(l, e.ticket, e.request, m) else l, log + [e])
  {
    hide Fits, LastSent, Submit, InLedger;
    var r := if e.Sent? then Submit(l, e.ticket, e.request, m) else l;
    SubmitFields(l, e, m);
    forall ticket: nat | LastSent(log + [e], ticket).Some?
      ensures Fits(r, ticket, LastSent(log + [e], ticket).value)
    {
      LastSentSnoc(log, e, ticket);
      if e.Sent? && e.ticket == ticket {
        SubmitFits(l, ticket, e.request, m);
      } else {
        FitsStill(l, r, ticket, LastSent(log, ticket).value);
      }
    }
    forall k | 0 <= k < |r.ledger| ensures Sent(r.ledger[k].ticket, r.ledger[k].request) in log + [e] {
      if k < |l.ledger| {
        assert r.ledger[k] == l.ledger[k];
      } else {
        assert (log + [e])[|log|] == e;
      }
    }
    forall j | 0 <= j < |log + [e]| && (log + [e])[j].Sent?
      ensures InLedger(r, (log + [e])[j].ticket, (log + [e])[j].request)
    {
      if j < |log| {
        assert (log + [e])[j] == log[j];
        LedgerGrows(l, r, log[j].ticket, log[j].request);
      } else {
        LastInLedger(r);
      }
    }
  }

  lemma LedgerGrows(l: Layer, r: Layer, ticket: nat, request: FetchRequest)
    requires InLedger(l, ticket, request) && l.ledger <= r.ledger
    ensures InLedger(r, ticket, request)
  {
    var k :| 0 <= k < |l.ledger| && l.ledger[k].ticket == ticket && l.ledger[k].request == request;
    assert r.ledger[k] == l.ledger[k];
  }

  lemma LastInLedger(l: Layer)
    requires l.ledger != []
    ensures InLedger(l, l.ledger[|l.ledger| - 1].ticket, l.ledger[|l.ledger| - 1].request)
  {
  }

  /** What handing over one event changes. */
  lemma SubmitFields(l: Layer, e: Event, m: Moment)
    ensures
      var r := if e.Sent? then Submit(l, e.ticket, e.request, m) else l;
      && r.shell == l.shell && l.ledger <= r.ledger && l.answers <= r.answers
      && |r.ledger| == |l.ledger| + (if e.Sent? then 1 else 0)
      && (e.Sent? ==> r.ledger[|l.ledger|].ticket == e.ticket && r.ledger[|l.ledger|].request == e.request
                      && r.ledger[|l.ledger|].before == l.cache && r.cache == CacheAfter(r.ledger[|l.ledger|]))
      && (!e.Sent? ==> r.cache == l.cache)
      && (forall ticket :: ticket in l.handles && !(e.Sent? && e.ticket == ticket) ==>
            ticket in r.handles && r.handles[ticket] == l.handles[ticket])
  {
    hide HandleOf, CacheAfter, GoesOut, WireRequest;
  }

  // ---- The cache holds plain responses --------------------------------------------------------------

  /** A direct response with status 200, filed under the URL it answers. */
  predicate IsOk(slot: Slot) {
    slot.response.status == 200 && slot.response.requestedUrl.text == slot.response.finalUrl.text == slot.key.fetchUrl
  }

  predicate AllOk(c: Cache) {
    forall k :: 0 <= k < |c.slots| ==> IsOk(c.slots[k])
  }

  /** Every cache a submission saw, and the one there is, holds such responses only. */
  ghost predicate CachesAreOk(l: Layer) {
    AllOk(l.cache) && forall k :: 0 <= k < |l.ledger| ==> AllOk(l.ledger[k].before)
  }

  lemma UseKeepsOk(config: Config, c: Cache, use: CacheRuns.Event)
    requires AllOk(c)
    ensures AllOk(CacheRuns.Step(config, c, use).1)
  {
    hide CacheRuns.Step, SlotFor;
    var after := CacheRuns.Step(config, c, use).1;
    forall k | 0 <= k < |after.slots| ensures IsOk(after.slots[k]) {
      CacheRuns.StepOrigin(config, c, use, after.slots[k]);
      if after.slots[k] !in c.slots || use.Clear? {
        RetainedIsOk(use.request, after.slots[k].response, use.now);
      }
    }
  }

  lemma RetainedIsOk(request: FetchRequest, response: FetchResponse, now: nat)
    requires SlotFor(request, response, now).Storable?
    ensures IsOk(SlotFor(request, response, now).slot)
  {
    hide RequestSkipReason, HeaderLists.VarySelectors, CacheControl.CacheControlPolicy, VariantFor;
  }

  lemma SubmissionKeepsOk(s: Submission)
    requires AllOk(s.before)
    ensures AllOk(CacheAfter(s))
  {
    hide FetchEpochs.SubmitFetch;
    forall k | 0 <= k < |CacheAfter(s).slots| ensures IsOk(CacheAfter(s).slots[k]) {
      FetchEpochs.SubmitFills(s.before, s.request, s.now, s.reply, CacheAfter(s).slots[k]);
    }
  }

  lemma SubmitKeepsOk(l: Layer, e: Event, m: Moment)
    requires CachesAreOk(l)
    ensures CachesAreOk(if e.Sent? then Submit(l, e.ticket, e.request, m) else l)
  {
    hide AllOk, CacheAfter, Submit;
    SubmitFields(l, e, m);
    if e.Sent? {
      SubmissionKeepsOk(Submit(l, e.ticket, e.request, m).ledger[|l.ledger|]);
    }
  }

  // ---- Handing over what a step sends ---------------------------------------------------------------

  lemma {:induction false} SubmitAllRecords(l: Layer, log: seq<Event>, events: seq<Event>, clock: Clock)
    requires Records(l, log) && CachesAreOk(l)
    ensures
      var r := SubmitAll(l, events, clock);
      && Records(r, log + events) && CachesAreOk(r)
      && r.shell == l.shell && l.ledger <= r.ledger && l.answers <= r.answers
    decreases |events|
  {
    hide Records, CachesAreOk, Submit;
    if events == [] {
      assert log + events == log;
    } else {
      var last := |events| - 1;
      var before := SubmitAll(l, events[..last], clock);
      InitLast(events);
      SubmitAllRecords(l, log, events[..last], clock);
      RecordsSnoc(before, log + events[..last], events[last], MomentAt(clock, last));
      SubmitKeepsOk(before, events[last], MomentAt(clock, last));
      SubmitFields(before, events[last], MomentAt(clock, last));
      assert log + events == log + events[..last] + [events[last]];
    }
  }

  // ---- What a poll brings ---------------------------------------------------------------------------

  /** The event hands a response to a transfer: a preflight's, or the one its page asked for. */
  predicate Brings(e: Event) {
    e.Granted? || (e.Ended? && e.outcome.Success?)
  }

  function Brought(e: Event): FetchResponse
    requires Brings(e)
  {
    if e.Granted? then e.response else e.outcome.response
  }

  ghost predicate CameIn(ts: seq<PendingPageFetch>, cs: seq<Completion>, ticket: nat, response: FetchResponse,
                         preflight: bool)
  {
    exists i :: 0 <= i < |ts| && i < |cs| && ts[i].ticket == ticket && cs[i] == Completed(response)
                && ts[i].stage.Preflight? == preflight
  }

  lemma CameInStill(ts: seq<PendingPageFetch>, cs: seq<Completion>, t: PendingPageFetch, c: Completion, ticket: nat,
                    response: FetchResponse, preflight: bool)
    requires |ts| == |cs| && CameIn(ts, cs, ticket, response, preflight)
    ensures CameIn(ts + [t], cs + [c], ticket, response, preflight)
  {
    var i :| 0 <= i < |ts| && i < |cs| && ts[i].ticket == ticket && cs[i] == Completed(response)
             && ts[i].stage.Preflight? == preflight;
    assert (ts + [t])[i] == ts[i] && (cs + [c])[i] == cs[i];
  }

  lemma CameInLast(ts: seq<PendingPageFetch>, cs: seq<Completion>, t: PendingPageFetch, response: FetchResponse)
    requires |ts| == |cs|
    ensures CameIn(ts + [t], cs + [Completed(response)], t.ticket, response, t.stage.Preflight?)
  {
    assert (ts + [t])[|ts|] == t && (cs + [Completed(response)])[|ts|] == Completed(response);
  }

  /** Whatever a pass grants or settles with came in for that transfer, at that stage. */
  ghost predicate PassIsFed(ts: seq<PendingPageFetch>, cs: seq<Completion>, b: Pass) {
    && (forall j :: 0 <= j < |b.log| ==> b.log[j].Sent? || b.log[j].Granted?)
    && (forall j :: 0 <= j < |b.log| && b.log[j].Granted? ==> CameIn(ts, cs, b.log[j].ticket, b.log[j].response, true))
    && (forall j :: 0 <= j < |b.settled| && b.settled[j].outcome.Success? ==>
          CameIn(ts, cs, b.settled[j].transfer.ticket, b.settled[j].outcome.response, false))
  }

  lemma PassIsFedSnoc(cors: Cors, ts: seq<PendingPageFetch>, cs: seq<Completion>, b: Pass, t: PendingPageFetch,
                      c: Completion, next: Pass)
    requires |ts| == |cs| && PassIsFed(ts, cs, b)
    requires next == match ProgressOf(cors, t, c)
                     case Stays => b.(waiting := b.waiting + [t])
                     case Settles(outcome) => b.(settled := b.settled + [Settlement(t, outcome)])
                     case Proceeds(to, response, actual) =>
                       b.(waiting := b.waiting + [to],
                          log := b.log + [Granted(t.ticket, response), Sent(t.ticket, actual)])
    ensures PassIsFed(ts + [t], cs + [c], next)
  {
    hide CameIn;
    if c.Completed? { CameInLast(ts, cs, t, c.response); }
    forall j | 0 <= j < |next.log| && next.log[j].Granted?
      ensures CameIn(ts + [t], cs + [c], next.log[j].ticket, next.log[j].response, true)
    {
      if j < |b.log| { CameInStill(ts, cs, t, c, b.log[j].ticket, b.log[j].response, true); }
    }
    forall j | 0 <= j < |next.settled| && next.settled[j].outcome.Success?
      ensures CameIn(ts + [t], cs + [c], next.settled[j].transfer.ticket, next.settled[j].outcome.response, false)
    {
      if j < |b.settled| {
        CameInStill(ts, cs, t, c, b.settled[j].transfer.ticket, b.settled[j].outcome.response, false);
      }
    }
  }

  lemma {:induction false} PassTells(cors: Cors, ts: seq<PendingPageFetch>, cs: seq<Completion>)
    requires |ts| == |cs|
    ensures PassIsFed(ts, cs, PassOver(cors, ts, cs))
  {
    hide PassOver, PassIsFed, ProgressOf;
    if ts == [] {
      PassOverNothing(cors);
      NothingIsFed(cs);
    } else {
      var n := |ts| - 1;
      InitLast(ts);
      InitLast(cs);
      PassTells(cors, ts[..n], cs[..n]);
      PassSnoc(cors, ts[..n], cs[..n], ts[n], cs[n]);
      PassIsFedSnoc(cors, ts[..n], cs[..n], PassOver(cors, ts[..n], cs[..n]), ts[n], cs[n], PassOver(cors, ts, cs));
    }
  }

  lemma NothingIsFed(cs: seq<Completion>)
    ensures PassIsFed([], cs, Pass([], [], []))
  {
  }

  /** Settling tells each outcome as it was found. */
  lemma {:induction false} EndTells(pages: map<nat, Page>, settled: seq<Settlement>)
    ensures
      var log := EndAll(pages, settled).log;
      && |log| == |settled|
      && forall j :: 0 <= j < |log| ==>
           log[j].Ended? && log[j].ticket == settled[j].transfer.ticket && log[j].outcome == settled[j].outcome
  {
    hide EndAll, Receiver, Received;
    if settled == [] {
      EndNothing(pages);
    } else {
      var n := |settled| - 1;
      InitLast(settled);
      EndTells(pages, settled[..n]);
      EndSnoc(pages, settled[..n], settled[n]);
    }
  }

  lemma PollBrings(cors: Cors, s: Shell, cs: seq<Completion>, j: nat)
    requires |cs| == |s.pending| && |s.log| <= j < |PollIn(cors, s, cs).log| && Brings(PollIn(cors, s, cs).log[j])
    ensures
      var e := PollIn(cors, s, cs).log[j];
      CameIn(s.pending, cs, e.ticket, Brought(e), e.Granted?)
  {
    hide PassOver, EndAll, CameIn;
    var b := PassOver(cors, s.pending, cs);
    PassTells(cors, s.pending, cs);
    EndTells(s.pages, b.settled);
    var log := PollIn(cors, s, cs).log;
    if j < |s.log| + |b.log| {
      assert log[j] == b.log[j - |s.log|];
    } else {
      assert log[j] == EndAll(s.pages, b.settled).log[j - |s.log| - |b.log|];
    }
  }

  /** Other steps of the shell bring nothing; every step only appends. */
  lemma OthersBringNothing(cors: Cors, s: Shell, step: Step, j: nat)
    requires CanStep(s, step) && !step.Poll? && |s.log| <= j < |Apply(cors, s, step).log|
    ensures !Brings(Apply(cors, s, step).log[j])
  {
    hide PlanFor, Received;
  }

  // ---- The invariant --------------------------------------------------------------------------------

  /** The event's response has its source in submission `k`, made for this plan. */
  ghost predicate BackedBy(l: Layer, e: Event, plan: Plan, k: nat)
    requires Brings(e)
  {
    && Planned(e.ticket, plan) in l.shell.log
    && k < |l.ledger| && l.ledger[k].ticket == e.ticket
    && l.ledger[k].request == (if e.Granted? then plan.preflight else plan.actual)
    && Source(l.ledger[k], l.answers, Brought(e))
  }

  ghost predicate Backed(l: Layer, e: Event)
    requires Brings(e)
  {
    exists plan, k: nat :: BackedBy(l, e, plan, k)
  }

  ghost predicate LayerInv(cors: Cors, l: Layer) {
    && Inv(cors, l.shell) && Records(l, l.shell.log) && CachesAreOk(l)
    && forall j :: 0 <= j < |l.shell.log| && Brings(l.shell.log[j]) ==> Backed(l, l.shell.log[j])
  }

  lemma {:induction false} PhaseSent(cors: Cors, log: seq<Event>, ticket: nat)
    ensures
      var p := PhaseOf(cors, log, ticket);
      && (p.Fresh? || p.Drafted? ==> LastSent(log, ticket) == None)
      && (p.Preflighting? || p.Allowed? ==> LastSent(log, ticket) == Some(p.plan.preflight))
      && (p.Fetching? ==> LastSent(log, ticket) == Some(p.plan.actual))
  {
    hide WellPlanned, MayRead, PreflightAllows;
    if log != [] {
      PhaseSent(cors, log[..|log| - 1], ticket);
    }
  }

  /** A pending transfer's handle holds what the request it waits for brought. */
  lemma PendingFits(cors: Cors, l: Layer, i: nat) returns (plan: Plan, k: nat)
    requires LayerInv(cors, l) && i < |l.shell.pending|
    ensures
      var t := l.shell.pending[i];
      && Planned(t.ticket, plan) in l.shell.log
      && FitsAt(l, t.ticket, if t.stage.Preflight? then plan.preflight else plan.actual, k)
      && (t.stage.Response? ==> Tracks(cors, t, Fetching(plan)))
  {
    hide WellPlanned, Fits, FitsAt, CachesAreOk;
    var t := l.shell.pending[i];
    var p := PhaseOf(cors, l.shell.log, t.ticket);
    TrackedIsUnderWay(cors, t, p);
    PhaseSent(cors, l.shell.log, t.ticket);
    PhaseRemembers(cors, l.shell.log, t.ticket);
    plan := p.plan;
    k := TheFit(l, t.ticket, LastSent(l.shell.log, t.ticket).value);
  }

  lemma TheFit(l: Layer, ticket: nat, request: FetchRequest) returns (k: nat)
    requires Fits(l, ticket, request)
    ensures FitsAt(l, ticket, request, k)
  {
    hide FitsAt;
    k :| FitsAt(l, ticket, request, k);
  }

  /** A response that comes in for a pending transfer has its source in a submission. */
  lemma ArrivalIsBacked(cors: Cors, l: Layer, arrivals: seq<Completion>, i: nat, response: FetchResponse)
    returns (plan: Plan, k: nat)
    requires LayerInv(cors, l) && |arrivals| == |l.shell.pending| && i < |arrivals|
    requires Completions(l, arrivals)[i] == Completed(response)
    ensures
      var t := l.shell.pending[i];
      && Planned(t.ticket, plan) in l.shell.log && k < |l.ledger| && l.ledger[k].ticket == t.ticket
      && l.ledger[k].request == (if t.stage.Preflight? then plan.preflight else plan.actual)
      && Source(l.ledger[k], l.answers + ArrivedAnswers(l, arrivals), response)
  {
    plan, k := PendingFits(cors, l, i);
    hide LayerInv, GoesOut, WireRequest, Completions;
    var t := l.shell.pending[i];
    if l.handles[t.ticket].state.Ready? {
      SourceWidens(l.ledger[k], l.answers, l.answers + ArrivedAnswers(l, arrivals), response);
    } else {
      assert Arrives(l, arrivals, i);
      assert Answer(l.handles[t.ticket].request, response) in ArrivedAnswers(l, arrivals);
    }
  }

  lemma BackedStill(l: Layer, r: Layer, e: Event)
    requires Brings(e) && Backed(l, e)
    requires l.shell.log <= r.shell.log && l.ledger <= r.ledger && l.answers <= r.answers
    ensures Backed(r, e)
  {
    hide Source;
    var plan, k: nat :| BackedBy(l, e, plan, k);
    assert r.ledger[k] == l.ledger[k];
    SourceWidens(l.ledger[k], l.answers, r.answers, Brought(e));
    assert BackedBy(r, e, plan, k);
  }

  lemma RecordsStill(l: Layer, r: Layer, log: seq<Event>)
    requires Records(l, log) && r.ledger == l.ledger && r.handles == l.handles && l.answers <= r.answers
    ensures Records(r, log)
  {
    hide Fits, LastSent, InLedger;
    forall ticket: nat | LastSent(log, ticket).Some? ensures Fits(r, ticket, LastSent(log, ticket).value) {
      FitsStill(l, r, ticket, LastSent(log, ticket).value);
    }
    forall j | 0 <= j < |log| && log[j].Sent? ensures InLedger(r, log[j].ticket, log[j].request) {
      LedgerGrows(l, r, log[j].ticket, log[j].request);
    }
  }

  /** A step of the shell, with the submissions it makes. */
  lemma ShellStepKeeps(cors: Cors, config: Config, l: Layer, step: LayerStep)
    requires LayerInv(cors, l) && CanLayer(l, step) && (step.ShellDoes? || step.PollAll?)
    ensures LayerInv(cors, LayerApply(cors, config, l, step))
    ensures LayerApply(cors, config, l, step).shell == Apply(cors, l.shell, ShellSteps(l, step)[0])
  {
    hide Inv, Records, CachesAreOk, SubmitAll, Apply, Backed, ArrivedAnswers, Completions;
    var s := ShellSteps(l, step)[0];
    var shell, r := Apply(cors, l.shell, s), LayerApply(cors, config, l, step);
    StepPlans(cors, l.shell, s);
    StepKeepsInv(cors, l.shell, s);
    var sent := shell.log[|l.shell.log|..];
    RecordsStill(l, Receiving(l, step), l.shell.log);
    CachesStay(l, Receiving(l, step));
    SubmitAllRecords(Receiving(l, step), l.shell.log, sent, ClockOf(step));
    assert l.shell.log + sent == shell.log;
    var handed := SubmitAll(Receiving(l, step), sent, ClockOf(step));
    ShellIsNoMatter(handed, r, shell.log);
    forall j | 0 <= j < |shell.log| && Brings(shell.log[j]) ensures Backed(r, shell.log[j]) {
      if j < |l.shell.log| {
        BackedStill(l, r, shell.log[j]);
      } else if step.ShellDoes? {
        OthersBringNothing(cors, l.shell, s, j);
      } else {
        NewsIsBacked(cors, l, step.arrivals, r, j);
      }
    }
  }

  lemma CachesStay(l: Layer, r: Layer)
    requires CachesAreOk(l) && r.cache == l.cache && r.ledger == l.ledger
    ensures CachesAreOk(r)
  {
  }

  lemma ShellIsNoMatter(l: Layer, r: Layer, log: seq<Event>)
    requires Records(l, log) && CachesAreOk(l) && r == l.(shell := r.shell)
    ensures Records(r, log) && CachesAreOk(r)
  {
    hide AllOk;
    RecordsStill(l, r, log);
  }

  /** What a poll brings has its source. */
  lemma NewsIsBacked(cors: Cors, l: Layer, arrivals: seq<Completion>, r: Layer, j: nat)
    requires LayerInv(cors, l) && |arrivals| == |l.shell.pending|
    requires r.shell == Apply(cors, l.shell, Poll(Completions(l, arrivals)))
    requires l.shell.log <= r.shell.log && l.ledger <= r.ledger
    requires l.answers + ArrivedAnswers(l, arrivals) <= r.answers
    requires |l.shell.log| <= j < |r.shell.log| && Brings(r.shell.log[j])
    ensures Backed(r, r.shell.log[j])
  {
    hide PollIn, LayerInv, ArrivedAnswers, Source;
    var cs, e := Completions(l, arrivals), r.shell.log[j];
    PollBrings(cors, l.shell, cs, j);
    var i :| 0 <= i < |l.shell.pending| && i < |cs| && l.shell.pending[i].ticket == e.ticket
             && cs[i] == Completed(Brought(e)) && l.shell.pending[i].stage.Preflight? == e.Granted?;
    var plan, k := ArrivalIsBacked(cors, l, arrivals, i, Brought(e));
    SourceWidens(l.ledger[k], l.answers + ArrivedAnswers(l, arrivals), r.answers, Brought(e));
    assert r.ledger[k] == l.ledger[k];
    assert BackedBy(r, e, plan, k);
  }

  /** A parked request is submitted again, as it was. */
  lemma RequeueKeeps(cors: Cors, config: Config, l: Layer, step: LayerStep)
    requires LayerInv(cors, l) && CanLayer(l, step) && step.Requeue?
    ensures LayerInv(cors, LayerApply(cors, config, l, step))
  {
    hide Inv, CachesAreOk, Backed, LastSent, Fits, InLedger;
    var r := LayerApply(cors, config, l, step);
    CachesStay(l, r);
    forall ticket: nat | LastSent(l.shell.log, ticket).Some?
      ensures Fits(r, ticket, LastSent(l.shell.log, ticket).value)
    {
      RequeuedFits(l, r, step.ticket, step.reply, ticket, LastSent(l.shell.log, ticket).value);
    }
    forall j | 0 <= j < |l.shell.log| && l.shell.log[j].Sent?
      ensures InLedger(r, l.shell.log[j].ticket, l.shell.log[j].request)
    {
      LedgerGrows(l, r, l.shell.log[j].ticket, l.shell.log[j].request);
    }
    forall j | 0 <= j < |l.shell.log| && Brings(l.shell.log[j]) ensures Backed(r, l.shell.log[j]) {
      BackedStill(l, r, l.shell.log[j]);
    }
  }

  lemma RequeuedFits(l: Layer, r: Layer, again: nat, reply: FetchEpochs.NetworkReply, ticket: nat, request: FetchRequest)
    requires Fits(l, ticket, request) && again in l.handles && l.handles[again].state.Deferred?
    requires r.ledger == l.ledger && r.answers == l.answers + ReplyAnswers(l.handles[again].request, reply)
    requires r.handles == l.handles[again := l.handles[again].(state := FetchEpochs.StateFor(reply))]
    ensures Fits(r, ticket, request)
  {
    if ticket != again {
      FitsStill(l, r, ticket, request);
    } else {
      hide GoesOut, WireRequest;
      var k: nat :| FitsAt(l, ticket, request, k);
      assert FitsAt(r, ticket, request, k);
    }
  }

  lemma OtherUseKeeps(cors: Cors, config: Config, l: Layer, step: LayerStep)
    requires LayerInv(cors, l) && step.OtherUse?
    ensures LayerInv(cors, LayerApply(cors, config, l, step))
  {
    hide Inv, AllOk, Backed, Records, CacheRuns.Step;
    var r := LayerApply(cors, config, l, step);
    UseKeepsOk(config, l.cache, step.use);
    RecordsStill(l, r, l.shell.log);
    forall j | 0 <= j < |l.shell.log| && Brings(l.shell.log[j]) ensures Backed(r, l.shell.log[j]) {
      BackedStill(l, r, l.shell.log[j]);
    }
  }

  lemma LayerStepKeeps(cors: Cors, config: Config, l: Layer, step: LayerStep)
    requires LayerInv(cors, l) && CanLayer(l, step)
    ensures LayerInv(cors, LayerApply(cors, config, l, step))
  {
    hide LayerInv, LayerApply;
    match step {
      case ShellDoes(_, _) => ShellStepKeeps(cors, config, l, step);
      case PollAll(_, _) => ShellStepKeeps(cors, config, l, step);
      case Requeue(_, _) => RequeueKeeps(cors, config, l, step);
      case OtherUse(_) => OtherUseKeeps(cors, config, l, step);
    }
  }

  /** Every run of the layer keeps the invariant, and is a run of the shell. */
  lemma {:induction false} LayerRunKeeps(cors: Cors, config: Config, l: Layer, steps: seq<LayerStep>, after: Layer)
    returns (shellSteps: seq<Step>)
    requires LayerInv(cors, l) && LayerReaches(cors, config, l, steps, after)
    ensures LayerInv(cors, after) && Reaches(cors, l.shell, shellSteps, after.shell)
    decreases |steps|
  {
    hide LayerInv, LayerApply, CanLayer, Apply, CanStep;
    if |steps| == 0 {
      shellSteps := [];
    } else {
      LayerStepKeeps(cors, config, l, steps[0]);
      ShellMoves(cors, config, l, steps[0]);
      var rest := LayerRunKeeps(cors, config, LayerApply(cors, config, l, steps[0]), steps[1..], after);
      shellSteps := ShellSteps(l, steps[0]) + rest;
      if ShellSteps(l, steps[0]) == [] {
        assert shellSteps == rest;
      } else {
        assert shellSteps[1..] == rest;
      }
    }
  }

  lemma ShellMoves(cors: Cors, config: Config, l: Layer, step: LayerStep)
    requires LayerInv(cors, l) && CanLayer(l, step)
    ensures
      var after := LayerApply(cors, config, l, step).shell;
      if step.ShellDoes? || step.PollAll?
      then |ShellSteps(l, step)| == 1 && CanStep(l.shell, ShellSteps(l, step)[0])
           && after == Apply(cors, l.shell, ShellSteps(l, step)[0])
      else ShellSteps(l, step) == [] && after == l.shell
  {
    hide Apply, LayerInv;
    if step.ShellDoes? || step.PollAll? {
      ShellStepKeeps(cors, config, l, step);
    }
  }

  lemma EmptyLayerInv(cors: Cors)
    ensures LayerInv(cors, EMPTY_LAYER)
  {
    EmptyShellInv(cors);
  }

  // ---- What really goes out, and what comes back ------------------------------------------------------

  predicate HasValidators(response: FetchResponse) {
    HeaderText(response.headers, "etag").Some? || HeaderText(response.headers, "last-modified").Some?
  }

  /** At this submission a stale entry with validators was selected. */
  predicate StaleSelected(s: Submission) {
    && GoesOut(s) && RequestSkipReason(s.request).None?
    && var stale := Best(s.before.slots, s.request, s.now, false);
       stale.Some? && HasValidators(s.before.slots[stale.value].response)
  }

  /** The request that is made conditional on the selected stale entry. */
  function MadeConditional(s: Submission): FetchRequest
    requires StaleSelected(s)
  {
    var stale := s.before.slots[Best(s.before.slots, s.request, s.now, false).value].response;
    s.request.(cacheValidators := Some(ValidatorsOf(stale.headers)))
  }

  /**
   What one submission sends: the request itself, or the request with the validators of
   the stale entry selected for it. Otherwise the answer is an entry for the same URL and
   `Accept` that is fresh. A preflight and a request with cookies always go out as they are.
   */
  lemma SubmissionMeans(s: Submission)
    ensures GoesOut(s) ==> WireRequest(s) == if StaleSelected(s) then MadeConditional(s) else s.request
    ensures s.request.method_ != Get || s.request.cookie.Some? ==> GoesOut(s) && !StaleSelected(s)
    ensures !GoesOut(s) ==>
              exists slot :: slot in s.before.slots && Selected(slot, s.request, s.now, true)
                             && LookupIn(s.before.slots, s.request, s.now).0 == Hit(slot.response)
  {
    hide Matches, KeyOf, HeaderText;
    if !GoesOut(s) {
      var i := Best(s.before.slots, s.request, s.now, true).value;
      assert s.before.slots[i] in s.before.slots;
    }
  }

  /** Over every run each response that a transfer was handed has its source in one of its submissions. */
  lemma ResponsesHaveSources(cors: Cors, config: Config, steps: seq<LayerStep>, l: Layer, j: nat)
    requires LayerReaches(cors, config, EMPTY_LAYER, steps, l)
    requires j < |l.shell.log| && Brings(l.shell.log[j])
    ensures exists plan, k: nat ::
              && BackedBy(l, l.shell.log[j], plan, k)
              && (!GoesOut(l.ledger[k]) ==> AnswersFromCache(l.ledger[k].request, Brought(l.shell.log[j])))
  {
    hide LayerReaches, Records, Inv, AllOk, GoesOut, Source;
    EmptyLayerInv(cors);
    var _ := LayerRunKeeps(cors, config, EMPTY_LAYER, steps, l);
    var plan, k: nat :| BackedBy(l, l.shell.log[j], plan, k);
    if !GoesOut(l.ledger[k]) {
      CachedAnswerFits(l.ledger[k], l.answers, Brought(l.shell.log[j]));
    }
  }

  /** What the cache may answer a plain request with: a direct response to that very URL. */
  predicate AnswersFromCache(request: FetchRequest, response: FetchResponse) {
    && request.method_ == Get && request.cookie.None? && request.byteRange.None?
    && response.status == 200 && response.requestedUrl.text == response.finalUrl.text == request.url.text
  }

  lemma CachedAnswerFits(s: Submission, answers: set<Answer>, response: FetchResponse)
    requires !GoesOut(s) && AllOk(s.before) && Source(s, answers, response)
    ensures AnswersFromCache(s.request, response)
  {
    hide Matches;
    var i := Best(s.before.slots, s.request, s.now, true).value;
    assert IsOk(s.before.slots[i]);
  }

  /** `plan` is why submission `s` was made at all: PreflightComesFirst holds for it on the wire. */
  ghost predicate RightlySubmitted(cors: Cors, l: Layer, s: Submission, plan: Plan) {
    && Planned(s.ticket, plan) in l.shell.log
    && if cors.crossOrigin(plan.pageUrl, plan.actual.url) && !cors.simple(plan.actual.method_, plan.headers)
       then
         || (s.request == plan.actual && PreflightPassed(cors, l.shell.log, s.ticket, plan))
         || (s.request == plan.preflight && AsksPermission(cors, plan)
             && GoesOut(s) && WireRequest(s) == plan.preflight)
       else s.request == plan.actual
  }

  /**
   Whatever a page transfer submits, and so whatever it puts on the wire, was planned: a
   request that leaves the page's origin and is not simple is submitted only after its
   own preflight was allowed, and the preflight itself is never answered from the cache.
   */
  lemma SubmissionsWerePlanned(cors: Cors, config: Config, steps: seq<LayerStep>, l: Layer, k: nat)
    requires LayerReaches(cors, config, EMPTY_LAYER, steps, l) && k < |l.ledger|
    ensures exists plan :: RightlySubmitted(cors, l, l.ledger[k], plan)
  {
    hide LayerReaches, GoesOut, WireRequest, StaleSelected, Inv, Reaches, WasAsked, PreflightPassed;
    EmptyLayerInv(cors);
    var shellSteps := LayerRunKeeps(cors, config, EMPTY_LAYER, steps, l);
    var s, log := l.ledger[k], l.shell.log;
    var j :| 0 <= j < |log| && log[j] == Sent(s.ticket, s.request);
    PreflightComesFirst(cors, shellSteps, l.shell, j);
    var plan :| Planned(s.ticket, plan) in log[..j] && s.request.url == plan.actual.url
                && if cors.crossOrigin(plan.pageUrl, s.request.url) && !cors.simple(plan.actual.method_, plan.headers)
                   then
                     || (s.request == plan.actual && PreflightPassed(cors, log[..j], s.ticket, plan))
                     || (s.request == plan.preflight && AsksPermission(cors, plan))
                   else s.request == plan.actual;
    SubmissionMeans(s);
    if PreflightPassed(cors, log[..j], s.ticket, plan) {
      PassedStill(cors, log, j, s.ticket, plan);
    }
    assert RightlySubmitted(cors, l, s, plan);
  }

  lemma PassedStill(cors: Cors, log: seq<Event>, j: nat, ticket: nat, plan: Plan)
    requires j <= |log| && PreflightPassed(cors, log[..j], ticket, plan)
    ensures PreflightPassed(cors, log, ticket, plan)
  {
    hide PreflightAllows;
    var k :| 0 <= k < j && log[k].Granted? && log[k].ticket == ticket && PreflightAllows(cors, plan, log[k].response)
             && Sent(ticket, plan.preflight) in log[..j][..k];
    assert log[..j][..k] == log[..k];
  }

  // ---- A 304 nobody asked for -------------------------------------------------------------------------

  /** The request asks to be told when nothing changed. */
  predicate AsksConditionally(request: FetchRequest) {
    || request.cacheValidators.Some?
    || exists i :: 0 <= i < |request.headers| && (SameName(request.headers[i].0, "if-none-match")
                                                  || SameName(request.headers[i].0, "if-modified-since"))
  }

  /** The network answers `304` only to a request that asks for it. */
  ghost predicate HonestNetwork(l: Layer) {
    forall a :: a in l.answers && a.response.status == 304 ==> AsksConditionally(a.request)
  }

  lemma UnaskedMeansStale(l: Layer, s: Submission, response: FetchResponse)
    requires HonestNetwork(l) && AllOk(s.before) && Source(s, l.answers, response)
    requires response.status == 304 && !AsksConditionally(s.request)
    ensures StaleSelected(s)
  {
    hide GoesOut, WireRequest, AsksConditionally, StaleSelected;
    SubmissionMeans(s);
  }

  /**
   Over every run with such a network: a page whose request did not ask for it is handed
   a `304`, without a body to go with it, only if a stale entry with validators was
   selected when its request was submitted.
   */
  lemma UnaskedNotModifiedNeedsStale(cors: Cors, config: Config, steps: seq<LayerStep>, l: Layer, j: nat)
    requires LayerReaches(cors, config, EMPTY_LAYER, steps, l) && HonestNetwork(l)
    requires j < |l.shell.log| && l.shell.log[j].Ended? && Brings(l.shell.log[j])
    requires Brought(l.shell.log[j]).status == 304
    ensures exists plan, k: nat ::
              && BackedBy(l, l.shell.log[j], plan, k)
              && (!AsksConditionally(plan.actual) ==> StaleSelected(l.ledger[k]))
  {
    hide LayerReaches, Records, Inv, AsksConditionally, StaleSelected, HonestNetwork, AllOk, Source;
    EmptyLayerInv(cors);
    var _ := LayerRunKeeps(cors, config, EMPTY_LAYER, steps, l);
    var plan, k: nat :| BackedBy(l, l.shell.log[j], plan, k);
    if !AsksConditionally(plan.actual) {
      UnaskedMeansStale(l, l.ledger[k], Brought(l.shell.log[j]));
    }
  }

  // ---- And it is handed one exactly then --------------------------------------------------------------

  /** This step settles transfer `i` with that response, and the network stays honest. */
  ghost predicate SettlesWith(cors: Cors, config: Config, l: Layer, i: nat, response: FetchResponse, step: LayerStep) {
    && i < |l.shell.pending| && step.PollAll? && CanLayer(l, step)
    && var after := LayerApply(cors, config, l, step);
       && HonestNetwork(after)
       && exists j :: |l.shell.log| <= j < |after.shell.log|
                      && IsAnswer(after.shell.log[j], l.shell.pending[i].ticket, response)
  }

  predicate IsAnswer(e: Event, ticket: nat, response: FetchResponse) {
    e.Ended? && e.ticket == ticket && e.outcome.Success? && e.outcome.response == response
  }

  /** Waiting for everything but transfer `i`. */
  function OnlyArrives(n: nat, i: nat, response: FetchResponse): (arrivals: seq<Completion>)
    ensures |arrivals| == n
  {
    seq(n, k requires 0 <= k < n => if k == i then Completed(response) else Waiting)
  }

  const QUIET: Clock := []

  /** Requests that are merely taken in bring no answers. */
  lemma {:induction false} QuietBringsNothing(l: Layer, events: seq<Event>)
    ensures SubmitAll(l, events, QUIET).answers == l.answers
    decreases |events|
  {
    hide HandleOf, CacheAfter, GoesOut, WireRequest;
    if events != [] {
      QuietBringsNothing(l, events[..|events| - 1]);
    }
  }

  /** A transfer that settles in a pass has its outcome among the settlements. */
  lemma {:induction false} PassSettles(cors: Cors, ts: seq<PendingPageFetch>, cs: seq<Completion>, i: nat,
                                       outcome: Outcome)
    requires |ts| == |cs| && i < |ts| && ProgressOf(cors, ts[i], cs[i]) == Settles(outcome)
    ensures Settlement(ts[i], outcome) in PassOver(cors, ts, cs).settled
    decreases |ts|
  {
    hide PassOver, ProgressOf;
    var n := |ts| - 1;
    InitLast(ts);
    InitLast(cs);
    PassSnoc(cors, ts[..n], cs[..n], ts[n], cs[n]);
    var before, b := PassOver(cors, ts[..n], cs[..n]), PassOver(cors, ts, cs);
    if i < n {
      PassSettles(cors, ts[..n], cs[..n], i, outcome);
    } else {
      assert b.settled[|before.settled|] == Settlement(ts[i], outcome);
    }
  }

  lemma PollAnswers(cors: Cors, s: Shell, cs: seq<Completion>, i: nat, response: FetchResponse, all: bool, absorbs: bool)
    requires |cs| == |s.pending| && i < |cs|
    requires ProgressOf(cors, s.pending[i], cs[i]) == Settles(Success(response, all, absorbs))
    ensures exists j :: |s.log| <= j < |PollIn(cors, s, cs).log|
                        && IsAnswer(PollIn(cors, s, cs).log[j], s.pending[i].ticket, response)
  {
    hide PassOver, EndAll;
    var b := PassOver(cors, s.pending, cs);
    PassSettles(cors, s.pending, cs, i, Success(response, all, absorbs));
    EndTells(s.pages, b.settled);
    var k :| 0 <= k < |b.settled| && b.settled[k] == Settlement(s.pending[i], Success(response, all, absorbs));
    assert IsAnswer(PollIn(cors, s, cs).log[|s.log| + |b.log| + k], s.pending[i].ticket, response);
  }

  lemma OnlyOneAnswer(l: Layer, i: nat, response: FetchResponse)
    requires i < |l.shell.pending| && l.shell.pending[i].ticket in l.handles
    requires l.handles[l.shell.pending[i].ticket].state.Pending?
    ensures ArrivedAnswers(l, OnlyArrives(|l.shell.pending|, i, response)) ==
            {Answer(l.handles[l.shell.pending[i].ticket].request, response)}
  {
    var arrivals := OnlyArrives(|l.shell.pending|, i, response);
    assert Arrives(l, arrivals, i);
  }

  /** With a stale entry selected at its submission, the transfer can be settled with a `304`. */
  lemma StaleGivesNotModified(cors: Cors, config: Config, l: Layer, i: nat, plan: Plan, k: nat, response: FetchResponse)
    requires LayerInv(cors, l) && HonestNetwork(l) && i < |l.shell.pending|
    requires FitsAt(l, l.shell.pending[i].ticket, plan.actual, k) && Tracks(cors, l.shell.pending[i], Fetching(plan))
    requires l.handles[l.shell.pending[i].ticket].state.Pending?
    requires !Foreign(cors, plan) || CorsLetsRead(cors, plan, response)
    requires StaleSelected(l.ledger[k])
    ensures exists step :: SettlesWith(cors, config, l, i, response, step)
  {
    hide Apply, SubmitAll, ArrivedAnswers, Completions, LayerInv, StaleSelected, GoesOut, WireRequest, Source, PollIn;
    var t := l.shell.pending[i];
    var arrivals := OnlyArrives(|l.shell.pending|, i, response);
    var step := PollAll(arrivals, QUIET);
    var cs := Completions(l, arrivals);
    ShellStepKeeps(cors, config, l, step);
    StepPlans(cors, l.shell, Poll(cs));
    PollIsPoll(cors, l.shell, cs);
    var after := LayerApply(cors, config, l, step);
    DeliveredIffReadable(cors, t, response, Fetching(plan));
    var outcome := OutcomeOf(cors, t.stage.origin, t.stage.credentials, response);
    PollAnswers(cors, l.shell, cs, i, response, outcome.allHeaders, outcome.absorbsCookies);
    OnlyOneAnswer(l, i, response);
    QuietBringsNothing(Receiving(l, step), after.shell.log[|l.shell.log|..]);
    SubmissionMeans(l.ledger[k]);
    assert after.answers == l.answers + {Answer(WireRequest(l.ledger[k]), response)};
    assert SettlesWith(cors, config, l, i, response, step);
  }

  lemma PollIsPoll(cors: Cors, s: Shell, cs: seq<Completion>)
    requires |cs| == |s.pending|
    ensures Apply(cors, s, Poll(cs)) == PollIn(cors, s, cs)
  {
  }

  /** Without one it cannot: the network would have to answer `304` to a request that did not ask. */
  lemma NotModifiedNeedsStale(cors: Cors, config: Config, l: Layer, i: nat, plan: Plan, k: nat, response: FetchResponse,
                              step: LayerStep)
    requires LayerInv(cors, l) && i < |l.shell.pending|
    requires FitsAt(l, l.shell.pending[i].ticket, plan.actual, k)
    requires l.handles[l.shell.pending[i].ticket].state.Pending?
    requires response.status == 304 && !AsksConditionally(plan.actual)
    requires SettlesWith(cors, config, l, i, response, step)
    ensures StaleSelected(l.ledger[k])
  {
    hide Apply, SubmitAll, Completions, StaleSelected, GoesOut, WireRequest, Source, PollIn, AsksConditionally;
    hide CameIn, ArrivedAnswers;
    var t, cs := l.shell.pending[i], Completions(l, step.arrivals);
    var after := LayerApply(cors, config, l, step);
    ShellStepKeeps(cors, config, l, step);
    StepPlans(cors, l.shell, Poll(cs));
    PollIsPoll(cors, l.shell, cs);
    var j :| |l.shell.log| <= j < |after.shell.log| && IsAnswer(after.shell.log[j], t.ticket, response);
    PollBrings(cors, l.shell, cs, j);
    var h := WhoseItIs(l.shell.pending, cs, t.ticket, response);
    SameTicketSamePlace(cors, l.shell, h, i);
    AnswersKept(cors, config, l, step);
    assert Arrives(l, step.arrivals, i);
    ArrivedIsAnswer(l, step.arrivals, i);
    SubmissionMeans(l.ledger[k]);
  }

  lemma WhoseItIs(ts: seq<PendingPageFetch>, cs: seq<Completion>, ticket: nat, response: FetchResponse) returns (i: nat)
    requires CameIn(ts, cs, ticket, response, false)
    ensures i < |ts| && i < |cs| && ts[i].ticket == ticket && cs[i] == Completed(response)
  {
    i :| 0 <= i < |ts| && i < |cs| && ts[i].ticket == ticket && cs[i] == Completed(response)
         && ts[i].stage.Preflight? == false;
  }

  lemma SameTicketSamePlace(cors: Cors, s: Shell, i: nat, j: nat)
    requires Inv(cors, s) && i < |s.pending| && j < |s.pending| && s.pending[i].ticket == s.pending[j].ticket
    ensures i == j
  {
  }

  lemma ArrivedIsAnswer(l: Layer, arrivals: seq<Completion>, i: nat)
    requires |arrivals| == |l.shell.pending| && Arrives(l, arrivals, i)
    ensures Answer(l.handles[l.shell.pending[i].ticket].request, arrivals[i].response) in ArrivedAnswers(l, arrivals)
  {
  }

  lemma AnswersKept(cors: Cors, config: Config, l: Layer, step: LayerStep)
    requires LayerInv(cors, l) && step.PollAll? && CanLayer(l, step)
    ensures l.answers + ArrivedAnswers(l, step.arrivals) <= LayerApply(cors, config, l, step).answers
  {
    hide Inv, Records, CachesAreOk, Apply, ArrivedAnswers, Completions, SubmitAll;
    var shell := Apply(cors, l.shell, ShellSteps(l, step)[0]);
    StepPlans(cors, l.shell, ShellSteps(l, step)[0]);
    RecordsStill(l, Receiving(l, step), l.shell.log);
    CachesStay(l, Receiving(l, step));
    SubmitAllRecords(Receiving(l, step), l.shell.log, shell.log[|l.shell.log|..], ClockOf(step));
  }

  /**
   Exactly when a page is handed a `304` it never asked for. In every reachable state, for
   a transfer that waits for the answer to its page's own, unconditional request, and any
   `304` the page may read: the transfer can be settled with it by a network that answers
   `304` only where it is asked to, if and only if a stale entry with validators was
   selected when the request was submitted.
   */
  lemma UnaskedNotModifiedIff(cors: Cors, config: Config, steps: seq<LayerStep>, l: Layer, i: nat,
                              response: FetchResponse)
    returns (plan: Plan, k: nat)
    requires LayerReaches(cors, config, EMPTY_LAYER, steps, l) && HonestNetwork(l)
    requires i < |l.shell.pending| && l.shell.pending[i].stage.Response? && l.shell.pending[i].ticket in l.handles
    requires l.handles[l.shell.pending[i].ticket].state.Pending?
    ensures Planned(l.shell.pending[i].ticket, plan) in l.shell.log
    ensures FitsAt(l, l.shell.pending[i].ticket, plan.actual, k)
    ensures response.status == 304 && !AsksConditionally(plan.actual)
            && (!Foreign(cors, plan) || CorsLetsRead(cors, plan, response)) ==>
              ((exists step :: SettlesWith(cors, config, l, i, response, step)) <==> StaleSelected(l.ledger[k]))
  {
    hide LayerReaches, LayerInv, FitsAt, AsksConditionally, StaleSelected, HonestNetwork, SettlesWith, Tracks;
    EmptyLayerInv(cors);
    var _ := LayerRunKeeps(cors, config, EMPTY_LAYER, steps, l);
    plan, k := PendingFits(cors, l, i);
    FitsInLedger(l, l.shell.pending[i].ticket, plan.actual, k);
    if response.status == 304 && !AsksConditionally(plan.actual)
       && (!Foreign(cors, plan) || CorsLetsRead(cors, plan, response)) {
      if StaleSelected(l.ledger[k]) {
        StaleGivesNotModified(cors, config, l, i, plan, k, response);
      }
      if step :| SettlesWith(cors, config, l, i, response, step) {
        NotModifiedNeedsStale(cors, config, l, i, plan, k, response, step);
      }
    }
  }

  lemma FitsInLedger(l: Layer, ticket: nat, request: FetchRequest, k: nat)
    requires FitsAt(l, ticket, request, k)
    ensures k < |l.ledger| && l.ledger[k].request == request
  {
  }
}
