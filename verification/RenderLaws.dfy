/** Every run of a tab's render coordination produces a legal history, and debts are paid. */
module RenderLaws {
  import opened HttpTypes
  import opened RenderLog
  import opened RenderModel

  // ---- Workers ------------------------------------------------------------------------------

  lemma WorkerStepDelivers(w: Worker, e: WorkerEvent, fulls: set<Identity>)
    requires Delivers(w, fulls) && Enabled(w, e)
    ensures Delivers(WorkerStep(w, e), fulls)
  {
  }

  /** Steps the worker can still take on its own. */
  function Work(w: Worker): nat {
    (if w.queued.Some? then 4 else 0) + RunningWork(w.running) + |w.done|
  }

  function RunningWork(running: seq<Running>): nat {
    if running == [] then 0
    else RunningWork(running[..|running| - 1]) + if running[|running| - 1].published then 1 else 3
  }

  lemma {:induction false} RunningWorkConcat(a: seq<Running>, b: seq<Running>)
    ensures RunningWork(a + b) == RunningWork(a) + RunningWork(b)
  {
    if b == [] {
      assert a + b == a;
    } else {
      RunningWorkConcat(a, b[..|b| - 1]);
      assert (a + b)[..|a + b| - 1] == a + b[..|b| - 1];
    }
  }

  lemma RunningWorkOne(r: Running)
    ensures RunningWork([r]) == if r.published then 1 else 3
  {
    assert [r][..0] == [];
  }

  lemma RunningWorkAt(running: seq<Running>, i: nat)
    requires i < |running|
    ensures
      RunningWork(running) ==
      RunningWork(running[..i] + running[i + 1..]) + if running[i].published then 1 else 3
  {
    hide RunningWork;
    assert running == running[..i] + [running[i]] + running[i + 1..];
    RunningWorkConcat(running[..i] + [running[i]], running[i + 1..]);
    RunningWorkConcat(running[..i], [running[i]]);
    RunningWorkConcat(running[..i], running[i + 1..]);
    RunningWorkOne(running[i]);
  }

  /** Left alone, a worker runs dry: every step of its own, and every read, uses up work. */
  lemma WorkerRunsDry(w: Worker, e: WorkerEvent)
    requires Enabled(w, e) && !e.Shutdown?
    ensures Work(WorkerStep(w, e)) < Work(w)
  {
    hide RunningWork;
    match e {
      case Start =>
        var r := Running(w.queued.value, false, false);
        RunningWorkConcat(w.running, [r]);
        RunningWorkOne(r);
      case Publish(i, outcome) =>
        var r := w.running[i := w.running[i].(published := true)];
        RunningWorkAt(w.running, i);
        RunningWorkAt(r, i);
        assert r[..i] + r[i + 1..] == w.running[..i] + w.running[i + 1..];
      case Retire(i) => RunningWorkAt(w.running, i);
      case EvictQueued =>
      case EvictOldest =>
      case Shutdown =>
    }
  }

  // ---- Every function keeps the invariant -----------------------------------------------------

  /** The caller of `Schedule` either asks directly or has just taken the remembered request off. */
  ghost predicate MaySchedule(t: Tab, viewport: Viewport, resubmission: bool) {
    && t.frames.generation < U64_MAX
    && if resubmission then t.open && !t.debt.dirty && t.debt.viewport.None? && Agrees(t, Some(viewport)) else Inv(t)
  }

  lemma ScheduleEmptyKeeps(t: Tab, viewport: Viewport, resubmission: bool)
    requires MaySchedule(t, viewport, resubmission)
    ensures Inv(ScheduleEmpty(t, viewport, resubmission))
    ensures ScheduleEmpty(t, viewport, resubmission).frames.generation <= t.frames.generation + 1
  {
    hide Summarize, WellFormed, Delivers;
    CancelDelivers(t.worker, Summarize(t.log).fulls);
    if resubmission || t.debt.dirty { AppendEntry(t.log, Abandoned(ZeroViewport)); }
  }

  lemma CoalesceKeeps(t: Tab, viewport: Viewport, resubmission: bool)
    requires MaySchedule(t, viewport, resubmission) && t.open
    ensures Inv(Coalesce(t, viewport))
  {
    hide Summarize, WellFormed;
    AppendEntry(t.log, Coalesced(viewport));
  }

  lemma ScheduleCompositeKeeps(t: Tab, viewport: Viewport)
    requires MaySchedule(t, viewport, false) && t.open && t.compositor.Some?
    ensures Inv(ScheduleComposite(t, viewport))
    ensures ScheduleComposite(t, viewport).frames.generation <= t.frames.generation + 1
  {
    hide Summarize, WellFormed;
    AppendEntry(t.log, ScrollSubmitted(NextIdentity(t, viewport)));
  }

  lemma FullFrameFields(t: Tab, viewport: Viewport, resubmission: bool)
    ensures
      var r, id := ScheduleFull(t, viewport, resubmission), NextIdentity(t, viewport);
      && r.open == t.open && r.frames.serial == t.frames.serial && r.frames.generation == id.generation
      && r.frames.committed == t.frames.committed && r.frames.expectedCompositor == None
      && r.worker == t.worker.Submit(id)
  {
    hide DeviceScale, FullFrameEntries;
  }

  lemma SubmitDelivers(w: Worker, id: Identity, fulls: set<Identity>)
    requires Delivers(w, fulls)
    ensures Delivers(w.Submit(id), fulls + {id})
    ensures w.stopped ==> w.Submit(id) == w
  {
  }

  lemma ScheduleFullKeeps(t: Tab, viewport: Viewport, resubmission: bool)
    requires MaySchedule(t, viewport, resubmission) && t.open && !t.worker.Busy()
    ensures Inv(ScheduleFull(t, viewport, resubmission))
    ensures ScheduleFull(t, viewport, resubmission).frames.generation <= t.frames.generation + 1
  {
    hide Summarize, WellFormed, Delivers, ScheduleFull;
    var id := NextIdentity(t, viewport);
    FullFrameFields(t, viewport, resubmission);
    FullFrameSettles(t, viewport, resubmission);
    SubmitDelivers(t.worker, id, Summarize(t.log).fulls);
    AppendEntry(t.log, Submitted(id));
    if resubmission {
      AppendEntry(t.log, Abandoned(WorkerStopped));
      AppendEntry(t.log, Resubmitted(id));
    }
    assert t.log + [] == t.log;
  }

  lemma ScheduleKeeps(t: Tab, viewport: Viewport, prefer: bool, resubmission: bool)
    requires MaySchedule(t, viewport, resubmission) && (resubmission ==> !prefer)
    ensures Inv(Schedule(t, viewport, prefer, resubmission))
    ensures Schedule(t, viewport, prefer, resubmission).frames.generation <= t.frames.generation + 1
  {
    hide Inv, MaySchedule, ScheduleEmpty, ScheduleComposite, Coalesce, ScheduleFull;
    if !t.open {
      ClosedMaySchedule(t, viewport, resubmission);
    } else if viewport.IsEmpty() {
      ScheduleEmptyKeeps(t, viewport, resubmission);
    } else if CanComposite(t, viewport, prefer) {
      ScheduleCompositeKeeps(t, viewport);
    } else if t.worker.Busy() {
      CoalesceKeeps(t, viewport, resubmission);
      CoalesceGeneration(t, viewport);
    } else {
      ScheduleFullKeeps(t, viewport, resubmission);
    }
  }

  lemma CoalesceGeneration(t: Tab, viewport: Viewport)
    ensures Coalesce(t, viewport).frames.generation == t.frames.generation
  {
  }

  lemma ClosedMaySchedule(t: Tab, viewport: Viewport, resubmission: bool)
    requires MaySchedule(t, viewport, resubmission) && !t.open
    ensures Inv(t)
  {
  }

  lemma ResubmitKeeps(t: Tab)
    requires Inv(t) && t.frames.generation < U64_MAX
    ensures Inv(Resubmit(t)) && Resubmit(t).frames.generation <= t.frames.generation + 1
  {
    hide Summarize, WellFormed, Schedule;
    if t.open && t.debt.viewport.Some? {
      ScheduleKeeps(t.(debt := PAID), t.debt.viewport.value, false, true);
    }
  }

  lemma InnerUnfolds(t: Tab, inner: seq<Viewport>)
    ensures InnerRequests(t, inner) ==
            if inner == [] then t
            else Schedule(InnerRequests(t, inner[..|inner| - 1]), inner[|inner| - 1], false, false)
  {
    hide Schedule;
  }

  lemma {:induction false} InnerKeeps(t: Tab, inner: seq<Viewport>)
    requires Inv(t) && t.frames.generation + |inner| <= U64_MAX
    ensures Inv(InnerRequests(t, inner))
    ensures InnerRequests(t, inner).frames.generation <= t.frames.generation + |inner|
  {
    hide Inv, Schedule, InnerRequests;
    InnerUnfolds(t, inner);
    if inner != [] {
      InnerKeeps(t, inner[..|inner| - 1]);
      MayAsk(InnerRequests(t, inner[..|inner| - 1]), inner[|inner| - 1]);
      ScheduleKeeps(InnerRequests(t, inner[..|inner| - 1]), inner[|inner| - 1], false, false);
    }
  }

  lemma MayAsk(t: Tab, viewport: Viewport)
    requires Inv(t) && t.frames.generation < U64_MAX
    ensures MaySchedule(t, viewport, false)
  {
  }

  lemma InstalledFields(t: Tab, id: Identity, frame: Frame)
    ensures
      var r := Install(t, id, frame);
      && r.debt.dirty == t.debt.dirty && r.debt.viewport == t.debt.viewport && r.log == t.log + [Committed(id)]
      && r.open == t.open && r.worker == t.worker
      && r.frames.serial == t.frames.serial && r.frames.generation == t.frames.generation
      && r.frames.committed == Some(id) && r.frames.expectedCompositor == None
  {
  }

  lemma InstallKeeps(t: Tab, id: Identity, frame: Frame)
    requires Inv(t) && t.open && Acceptable(t, id) && id in Summarize(t.log).fulls
    ensures Inv(Install(t, id, frame)) && Install(t, id, frame).frames.generation == t.frames.generation
  {
    hide Summarize, WellFormed, Delivers, Install;
    AppendEntry(t.log, Committed(id));
    InstalledFields(t, id, frame);
  }

  lemma CommitKeeps(t: Tab, completed: Completed, inner: seq<Viewport>)
    requires Inv(t) && t.frames.generation + |inner| + 1 <= U64_MAX && completed.id in Summarize(t.log).fulls
    ensures Inv(Commit(t, completed, inner))
    ensures Commit(t, completed, inner).frames.generation <= t.frames.generation + |inner| + 1
  {
    hide Summarize, WellFormed, Schedule, Resubmit, Install, InnerRequests;
    if t.open {
      if !completed.outcome.Rendered? || !Acceptable(t, completed.id) {
        ResubmitKeeps(t);
      } else if DefersFirstPaint(t, completed.outcome.frame) {
        InnerKeeps(ClearExpected(t, completed.id), inner);
      } else {
        var installed := Install(t, completed.id, completed.outcome.frame);
        InstallKeeps(t, completed.id, completed.outcome.frame);
        InnerKeeps(installed, inner);
        ResubmitKeeps(InnerRequests(installed, inner));
      }
    }
  }

  lemma PollRenderKeeps(t: Tab, inner: seq<Viewport>)
    requires Inv(t) && t.frames.generation + |inner| + 1 <= U64_MAX
    ensures Inv(PollRender(t, inner)) && PollRender(t, inner).frames.generation <= t.frames.generation + |inner| + 1
  {
    hide Summarize, WellFormed, Commit, Latest;
    var latest := Latest(t.worker.done);
    if latest.Some? {
      var i :| 0 <= i < |t.worker.done| && t.worker.done[i] == latest.value;
      CommitKeeps(t.(worker := t.worker.(done := [])), latest.value, inner);
    }
  }

  lemma CommitScrollKeeps(t: Tab, completed: Completed)
    requires Inv(t)
    ensures Inv(CommitScroll(t, completed)) && CommitScroll(t, completed).frames.generation == t.frames.generation
  {
    hide Summarize, WellFormed, Delivers;
    if t.open && t.frames.expectedCompositor == Some(completed.id) && completed.outcome.Rendered? {
      AppendEntry(t.log, ScrollCommitted(completed.id));
    }
  }

  lemma PollCompositorKeeps(t: Tab)
    requires Inv(t)
    ensures Inv(PollCompositor(t)) && PollCompositor(t).frames.generation == t.frames.generation
  {
    hide Summarize, WellFormed, Latest, Delivers, CommitScroll;
    if t.compositor.Some? && Latest(t.compositor.value.done).Some? {
      var read := t.(compositor := Some(t.compositor.value.(done := [])));
      CommitScrollKeeps(read, Latest(t.compositor.value.done).value);
    }
  }

  lemma DropKeeps(t: Tab, cause: Cause)
    requires Inv(t)
    ensures WellFormed(t.log + Dropped(t, cause))
    ensures Summarize(t.log + Dropped(t, cause)) == Summarize(t.log).(owed := None)
  {
    hide Summarize, WellFormed;
    if t.debt.dirty {
      AppendEntry(t.log, Abandoned(cause));
    } else {
      assert t.log + [] == t.log;
    }
  }

  lemma CancelDelivers(w: Worker, fulls: set<Identity>)
    requires Delivers(w, fulls)
    ensures Delivers(w.Cancel(), fulls)
  {
  }

  lemma NavigateKeeps(t: Tab)
    requires Inv(t)
    ensures Inv(Navigate(t)) && Navigate(t).frames.generation == t.frames.generation
  {
    hide Summarize, WellFormed, Dropped, Delivers;
    DropKeeps(t, Navigation);
    AppendEntry(t.log + Dropped(t, Navigation), Navigated);
    CancelDelivers(t.worker, Summarize(t.log).fulls);
  }

  lemma CloseKeeps(t: Tab)
    requires Inv(t)
    ensures Inv(Close(t)) && Close(t).frames.generation == t.frames.generation
  {
    hide Summarize, WellFormed, Dropped, Delivers;
    DropKeeps(t, TabClosed);
    CancelDelivers(t.worker, Summarize(t.log).fulls);
  }

  lemma HoverKeeps(t: Tab, viewport: Viewport)
    requires Inv(t) && t.frames.generation < U64_MAX
    ensures Inv(HoverRepaint(t, viewport)) && HoverRepaint(t, viewport).frames.generation <= t.frames.generation + 1
  {
    hide Summarize, WellFormed, Schedule;
    if t.worker.Busy() {
      AppendEntry(t.log, Coalesced(viewport));
    } else {
      ScheduleKeeps(t, viewport, false, false);
    }
  }

  /** How many frames an event may ask for. */
  function Asks(e: Event): nat {
    if e.ReadFrames? then |e.inner| + 1 else 1
  }

  function TotalAsks(events: seq<Event>): nat {
    if events == [] then 0 else TotalAsks(events[..|events| - 1]) + Asks(events[|events| - 1])
  }

  lemma StepKeeps(t: Tab, e: Event)
    requires Inv(t) && t.frames.generation + Asks(e) <= U64_MAX
    ensures Inv(Step(t, e)) && Step(t, e).frames.generation <= t.frames.generation + Asks(e)
  {
    hide Inv, Schedule, HoverRepaint, PollRender, PollCompositor, Recover, Navigate, Close, Resubmit, WorkerStep;
    match e {
      case Request(viewport, prefer) => ScheduleKeeps(t, viewport, prefer, false);
      case Hover(viewport) => HoverKeeps(t, viewport);
      case ReadFrames(inner) => PollRenderKeeps(t, inner);
      case ReadScrollFrames => PollCompositorKeeps(t);
      case Recovery => RecoverKeeps(t);
      case NavigateAway => NavigateKeeps(t);
      case CloseTab => CloseKeeps(t);
      case _ => SurroundingsKeep(t, e);
    }
  }

  lemma RecoverKeeps(t: Tab)
    requires Inv(t) && t.frames.generation < U64_MAX
    ensures Inv(Recover(t)) && Recover(t).frames.generation <= t.frames.generation + 1
  {
    hide Inv, Resubmit;
    ResubmitKeeps(t);
  }

  lemma SurroundingsKeep(t: Tab, e: Event)
    requires Inv(t)
    requires e.Selection? || e.Change? || e.RenderWorker? || e.CompositorWorker?
    ensures Inv(Step(t, e)) && Step(t, e).frames.generation == t.frames.generation
  {
    hide Summarize, WellFormed, WorkerStep;
    if e.RenderWorker? && Enabled(t.worker, e.event) {
      WorkerStepDelivers(t.worker, e.event, Summarize(t.log).fulls);
    }
  }

  lemma NewTabInv(scale: Option<real>, compositor: Option<Worker>)
    ensures Inv(NewTab(scale, compositor))
  {
  }

  /**
   Over every run, however the workers, the user and the page interleave, the
   history stays legal and the fields agree with it, as long as fewer frames are asked
   for than a counter of 64 bits can tell apart.
   */
  lemma {:induction false} RunKeepsInv(start: Tab, events: seq<Event>)
    requires Inv(start) && start.frames.generation + TotalAsks(events) <= U64_MAX
    ensures Inv(Run(start, events))
    ensures Run(start, events).frames.generation <= start.frames.generation + TotalAsks(events)
  {
    hide Inv, Step;
    if events != [] {
      RunKeepsInv(start, events[..|events| - 1]);
      StepKeeps(Run(start, events[..|events| - 1]), events[|events| - 1]);
    }
  }

  // ---- What this means for whole runs -------------------------------------------------------

  /** The history of a tab from its creation. */
  function History(scale: Option<real>, compositor: Option<Worker>, events: seq<Event>): Log {
    Run(NewTab(scale, compositor), events).log
  }

  lemma HistoryIsLegal(scale: Option<real>, compositor: Option<Worker>, events: seq<Event>)
    requires TotalAsks(events) <= U64_MAX
    ensures WellFormed(History(scale, compositor, events)) && Inv(Run(NewTab(scale, compositor), events))
  {
    NewTabInv(scale, compositor);
    RunKeepsInv(NewTab(scale, compositor), events);
  }

  /**
   No coalesced repaint is lost or duplicated: every burst of requests that found
   the worker busy is resubmitted once, dropped once, or still remembered, with the
   viewport of its last request; and each drop is due to the event that made it: a frame
   of no area, a navigation, the tab closing, or a worker that stopped. Every request
   that finds the tab busy is in such a burst.
   */
  lemma RepaintsAreConserved(scale: Option<real>, compositor: Option<Worker>, events: seq<Event>)
    requires TotalAsks(events) <= U64_MAX
    ensures
      var t := Run(NewTab(scale, compositor), events);
      && Bursts(t.log) == Resubmissions(t.log) + Abandonments(t.log) + (if t.debt.dirty then 1 else 0)
      && (t.debt.dirty ==> exists p: nat :: LastRequest(t.log, |t.log|, p) && t.debt.viewport == Some(t.log[p].viewport))
      && (forall n :: 0 <= n < |t.log| && t.log[n].Resubmitted? ==>
            exists p: nat :: LastRequest(t.log, n, p) && t.log[n].id.viewport == t.log[p].viewport)
      && (forall n: nat :: n < |t.log| && t.log[n].Abandoned? ==>
            exists k: nat :: DroppedAt(NewTab(scale, compositor), events, n, k))
      && (forall k: nat, viewport: Viewport :: FindsBusy(NewTab(scale, compositor), events, k, viewport) ==>
            k < |events| && Enters(NewTab(scale, compositor), events, k, viewport))
  {
    hide Enters, NeedsFullFrame, Run, WellFormed, Summarize, Bursts, Resubmissions, Abandonments;
    var t := Run(NewTab(scale, compositor), events);
    HistoryIsLegal(scale, compositor, events);
    BurstsAreConserved(t.log);
    if t.debt.dirty {
      assert t.log[..|t.log|] == t.log;
      OwedIsLastRequest(t.log, |t.log|);
    }
    forall n: nat | n < |t.log| && t.log[n].Abandoned?
      ensures exists k: nat :: DroppedAt(NewTab(scale, compositor), events, n, k)
    {
      AbandonmentsHaveReasons(NewTab(scale, compositor), events, n);
    }
    forall k: nat, viewport: Viewport | FindsBusy(NewTab(scale, compositor), events, k, viewport)
      ensures k < |events| && Enters(NewTab(scale, compositor), events, k, viewport)
    {
      BusyRequestsEnter(NewTab(scale, compositor), events, k, viewport);
    }
    forall n | 0 <= n < |t.log| && t.log[n].Resubmitted?
      ensures exists p: nat :: LastRequest(t.log, n, p) && t.log[n].id.viewport == t.log[p].viewport
    {
      ResubmissionCarriesLastRequest(t.log, n);
    }
  }

  /** Installed full frames only ever get newer and always show the current document. */
  lemma FramesAdvance(scale: Option<real>, compositor: Option<Worker>, events: seq<Event>, p: nat, q: nat)
    requires TotalAsks(events) <= U64_MAX
    requires var log := History(scale, compositor, events); p < q < |log| && log[p].Committed? && log[q].Committed?
    ensures
      var log := History(scale, compositor, events);
      && log[p].id.generation < log[q].id.generation
      && log[q].id.serial == Summarize(log[..q]).serial
  {
    hide Run, WellFormed, Summarize;
    HistoryIsLegal(scale, compositor, events);
    CommitsAdvance(History(scale, compositor, events), p, q);
  }

  /** No scroll frame is installed over a full frame submitted or installed after it. */
  lemma ScrollFramesAreCurrent(scale: Option<real>, compositor: Option<Worker>, events: seq<Event>, q: nat)
    requires TotalAsks(events) <= U64_MAX
    requires var log := History(scale, compositor, events); q < |log| && log[q].ScrollCommitted?
    ensures
      var log := History(scale, compositor, events);
      exists p :: 0 <= p < q && log[p] == ScrollSubmitted(log[q].id) && forall r :: p < r < q ==> !FullFrameEvent(log[r])
  {
    hide Run, WellFormed, Summarize;
    HistoryIsLegal(scale, compositor, events);
    ScrollCommitsAreCurrent(History(scale, compositor, events), q);
  }

  // ---- Debts are paid ---------------------------------------------------------------------------

  /**
   Once the worker is idle, recovery turns the remembered request into exactly one
   full frame for the last requested viewport.
   */
  lemma RecoveryPays(t: Tab)
    requires Inv(t) && t.debt.dirty && !t.worker.Busy() && !t.worker.stopped
    requires !OwesEmpty(t)
    ensures
      var r := Recover(t);
      && !r.debt.dirty && r.frames.expectedRender.Some? && r.worker.queued == r.frames.expectedRender
      && r.log == t.log + [Resubmitted(r.frames.expectedRender.value)]
      && r.frames.expectedRender.value.viewport == t.debt.viewport.value
      && r.frames.expectedRender.value.serial == t.frames.serial
  {
    hide Summarize, WellFormed;
  }

  predicate OwesEmpty(t: Tab) {
    t.debt.viewport.Some? && t.debt.viewport.value.IsEmpty()
  }

  predicate Flagged(t: Tab) {
    t.debt.dirty <==> t.debt.viewport.Some?
  }

  /**
   From `t` to `r` a remembered request is remembered, resubmitted, or abandoned for a
   reason: a viewport without area, which was owed or asked for if `empty` says so, or a
   render worker that stopped.
   */
  ghost predicate KeepsDebt(t: Tab, r: Tab, empty: bool) {
    && t.log <= r.log && Flagged(r)
    && r.open == t.open && r.worker.stopped == t.worker.stopped
    && (OwesEmpty(r) ==> empty || OwesEmpty(t))
    && (forall i :: |t.log| <= i < |r.log| && r.log[i].Abandoned? ==>
          || (r.log[i].cause == ZeroViewport && (empty || OwesEmpty(t)))
          || (r.log[i].cause == WorkerStopped && t.worker.stopped))
    && (t.debt.dirty ==>
          r.debt.dirty || exists i :: |t.log| <= i < |r.log| && (r.log[i].Resubmitted? || r.log[i].Abandoned?))
  }

  /** Without viewports of no area and with a running worker, only a resubmission settles a request. */
  lemma OnlyResubmissionSettles(t: Tab, r: Tab)
    requires KeepsDebt(t, r, false) && t.debt.dirty && !OwesEmpty(t) && !t.worker.stopped
    ensures forall i :: |t.log| <= i < |r.log| ==> !r.log[i].Abandoned?
    ensures r.debt.dirty || exists i :: |t.log| <= i < |r.log| && r.log[i].Resubmitted?
  {
  }

  lemma ScheduleKeepsDebt(t: Tab, viewport: Viewport, prefer: bool)
    requires Flagged(t)
    ensures KeepsDebt(t, Schedule(t, viewport, prefer, false), viewport.IsEmpty())
  {
    hide ScheduleComposite, Coalesce, ScheduleFull, ScheduleEmpty;
    EmptySettles(t, viewport, false);
    CoalesceRemembers(t, viewport);
    if t.compositor.Some? { CompositeKeepsDirty(t, viewport); }
    FullFrameSettles(t, viewport, false);
    var r := Schedule(t, viewport, prefer, false);
    if t.debt.dirty && !r.debt.dirty {
      assert r.log[|t.log|] == Abandoned(ZeroViewport);
    }
  }

  lemma EmptySettles(t: Tab, viewport: Viewport, resubmission: bool)
    ensures
      var r := ScheduleEmpty(t, viewport, resubmission);
      && !r.debt.dirty && r.debt.viewport.None? && r.open == t.open && r.worker.stopped == t.worker.stopped
      && r.log == t.log + if resubmission || t.debt.dirty then [Abandoned(ZeroViewport)] else []
  {
  }

  lemma CoalesceRemembers(t: Tab, viewport: Viewport)
    ensures
      var r := Coalesce(t, viewport);
      && r.debt.dirty && r.debt.viewport == Some(viewport) && r.log == t.log + [Coalesced(viewport)]
      && r.open == t.open && r.worker == t.worker
  {
  }

  lemma CompositeKeepsDirty(t: Tab, viewport: Viewport)
    requires t.compositor.Some?
    ensures
      var r := ScheduleComposite(t, viewport);
      && r.debt == t.debt && r.open == t.open && r.worker == t.worker
      && (r.log == t.log || r.log == t.log + [ScrollSubmitted(NextIdentity(t, viewport))])
  {
  }

  lemma FullFrameSettles(t: Tab, viewport: Viewport, resubmission: bool)
    ensures
      var r, id := ScheduleFull(t, viewport, resubmission), NextIdentity(t, viewport);
      && r.debt == t.debt && r.open == t.open && r.worker.stopped == t.worker.stopped
      && r.log == t.log + FullFrameEntries(t, id, resubmission)
  {
    hide NextIdentity, FullFrameEntries;
  }

  lemma ResubmitKeepsDebt(t: Tab)
    requires Flagged(t)
    ensures KeepsDebt(t, Resubmit(t), false)
  {
    hide ScheduleComposite, Coalesce, ScheduleFull, ScheduleEmpty;
    if t.debt.viewport.Some? {
      var taken, viewport := t.(debt := PAID), t.debt.viewport.value;
      EmptySettles(taken, viewport, true);
      CoalesceRemembers(taken, viewport);
      FullFrameSettles(taken, viewport, true);
      var r := Resubmit(t);
      if t.open && !r.debt.dirty {
        assert r.log[|t.log|].Resubmitted? || r.log[|t.log|].Abandoned?;
      }
    }
  }

  lemma DebtsCompose(a: Tab, b: Tab, c: Tab, empty: bool)
    requires KeepsDebt(a, b, empty) && KeepsDebt(b, c, empty)
    ensures KeepsDebt(a, c, empty)
  {
    assert forall i :: |a.log| <= i < |b.log| ==> c.log[i] == b.log[i];
    if a.debt.dirty && !c.debt.dirty {
      if b.debt.dirty {
        var i :| |b.log| <= i < |c.log| && (c.log[i].Resubmitted? || c.log[i].Abandoned?);
      } else {
        var i :| |a.log| <= i < |b.log| && (b.log[i].Resubmitted? || b.log[i].Abandoned?);
        assert c.log[i] == b.log[i];
      }
    }
  }

  lemma DebtsWiden(t: Tab, r: Tab, empty: bool, wider: bool)
    requires KeepsDebt(t, r, empty) && (empty ==> wider)
    ensures KeepsDebt(t, r, wider)
  {
  }

  predicate SomeEmpty(viewports: seq<Viewport>) {
    exists i :: 0 <= i < |viewports| && viewports[i].IsEmpty()
  }

  lemma {:induction false} InnerKeepsDebt(t: Tab, inner: seq<Viewport>)
    requires Flagged(t)
    ensures KeepsDebt(t, InnerRequests(t, inner), SomeEmpty(inner))
  {
    hide Schedule, InnerRequests, KeepsDebt;
    InnerUnfolds(t, inner);
    if inner == [] {
      NoDebtChange(t, t);
    } else {
      var init, last := inner[..|inner| - 1], inner[|inner| - 1];
      var before := InnerRequests(t, init);
      InnerKeepsDebt(t, init);
      DebtFlags(t, before, SomeEmpty(init));
      ScheduleKeepsDebt(before, last, false);
      if i :| 0 <= i < |init| && init[i].IsEmpty() { assert inner[i].IsEmpty(); }
      DebtsWiden(t, before, SomeEmpty(init), SomeEmpty(inner));
      DebtsWiden(before, InnerRequests(t, inner), last.IsEmpty(), SomeEmpty(inner));
      DebtsCompose(t, before, InnerRequests(t, inner), SomeEmpty(inner));
    }
  }

  /**
   Reading results never forgets a request. Whether the frame was installed, failed, was
   discarded, or is held back for its first stylesheets, the request stays remembered,
   is resubmitted, or is abandoned for its reason.
   */
  lemma ReadingKeepsDebt(t: Tab, inner: seq<Viewport>)
    requires Flagged(t)
    ensures KeepsDebt(t, PollRender(t, inner), SomeEmpty(inner))
  {
    hide Commit, Latest, KeepsDebt, SomeEmpty;
    var latest := Latest(t.worker.done);
    var read := t.(worker := t.worker.(done := []));
    NoDebtChange(t, read);
    if latest.Some? {
      CommitKeepsDebt(read, latest.value, inner);
      DebtsWiden(t, read, false, SomeEmpty(inner));
      DebtsCompose(t, read, PollRender(t, inner), SomeEmpty(inner));
    } else {
      DebtsWiden(t, read, false, SomeEmpty(inner));
    }
  }

  lemma CommitKeepsDebt(t: Tab, completed: Completed, inner: seq<Viewport>)
    requires Flagged(t)
    ensures KeepsDebt(t, Commit(t, completed, inner), SomeEmpty(inner))
  {
    hide Schedule, Resubmit, Acceptable, Install, ClearExpected, KeepsDebt, InnerRequests, SomeEmpty;
    NoDebtChange(t, t);
    DebtsWiden(t, t, false, SomeEmpty(inner));
    if t.open {
      if !completed.outcome.Rendered? || !Acceptable(t, completed.id) {
        ResubmitKeepsDebt(t);
        DebtsWiden(t, Resubmit(t), false, SomeEmpty(inner));
      } else if DefersFirstPaint(t, completed.outcome.frame) {
        var waiting := ClearExpected(t, completed.id);
        ClearedKeepsDirty(t, completed.id);
        NoDebtChange(t, waiting);
        DebtsWiden(t, waiting, false, SomeEmpty(inner));
        InnerKeepsDebt(waiting, inner);
        DebtsCompose(t, waiting, InnerRequests(waiting, inner), SomeEmpty(inner));
      } else {
        InstallKeepsDebt(t, completed, inner);
      }
    }
  }

  lemma InstallKeepsDebt(t: Tab, completed: Completed, inner: seq<Viewport>)
    requires Flagged(t)
    requires completed.outcome.Rendered?
    ensures KeepsDebt(t, Resubmit(InnerRequests(Install(t, completed.id, completed.outcome.frame), inner)),
                      SomeEmpty(inner))
  {
    hide Schedule, Resubmit, Install, KeepsDebt, InnerRequests, SomeEmpty;
    var installed := Install(t, completed.id, completed.outcome.frame);
    InstalledFields(t, completed.id, completed.outcome.frame);
    NoDebtChange(t, installed);
    DebtsWiden(t, installed, false, SomeEmpty(inner));
    var asked := InnerRequests(installed, inner);
    InnerKeepsDebt(installed, inner);
    DebtsCompose(t, installed, asked, SomeEmpty(inner));
    DebtFlags(t, asked, SomeEmpty(inner));
    ResubmitKeepsDebt(asked);
    DebtsWiden(asked, Resubmit(asked), false, SomeEmpty(inner));
    DebtsCompose(t, asked, Resubmit(asked), SomeEmpty(inner));
  }

  lemma DebtFlags(a: Tab, b: Tab, empty: bool)
    requires KeepsDebt(a, b, empty)
    ensures Flagged(b)
  {
  }

  /** A step that leaves the remembered request and the history alone. */
  lemma NoDebtChange(t: Tab, r: Tab)
    requires Flagged(t) && r.open == t.open && r.worker.stopped == t.worker.stopped
    requires r.debt == t.debt && (r.log == t.log || exists e: Entry :: !e.Abandoned? && r.log == t.log + [e])
    ensures KeepsDebt(t, r, false)
  {
  }

  lemma ClearedKeepsDirty(t: Tab, id: Identity)
    ensures
      var r := ClearExpected(t, id);
      && Flagged(t) == Flagged(r) && r.debt == t.debt && r.log == t.log
      && r.open == t.open && r.worker == t.worker
  {
  }

  // ---- Whole runs keep their debts --------------------------------------------------------------

  /** The event asks for a frame of no area. */
  predicate AsksEmpty(e: Event) {
    match e
    case Request(viewport, _) => viewport.IsEmpty()
    case Hover(viewport) => viewport.IsEmpty()
    case ReadFrames(inner) => SomeEmpty(inner)
    case _ => false
  }

  /** The document and the tab stay, and so does the render worker. */
  predicate Stays(e: Event) {
    !e.NavigateAway? && !e.CloseTab? && !(e.RenderWorker? && e.event.Shutdown?)
  }

  lemma StepKeepsDebt(t: Tab, e: Event)
    requires Flagged(t) && Stays(e)
    ensures KeepsDebt(t, Step(t, e), AsksEmpty(e))
  {
    hide Schedule, PollRender, Latest, SomeEmpty;
    match e {
      case Request(viewport, prefer) => ScheduleKeepsDebt(t, viewport, prefer);
      case Hover(viewport) => HoverKeepsDebt(t, viewport);
      case ReadFrames(inner) => ReadingKeepsDebt(t, inner);
      case Recovery => ResubmitKeepsDebt(t);
      case _ => OthersKeepDebt(t, e);
    }
  }

  lemma HoverKeepsDebt(t: Tab, viewport: Viewport)
    requires Flagged(t)
    ensures KeepsDebt(t, HoverRepaint(t, viewport), viewport.IsEmpty())
  {
    hide Schedule;
    ScheduleKeepsDebt(t, viewport, false);
  }

  lemma OthersKeepDebt(t: Tab, e: Event)
    requires Flagged(t) && Stays(e)
    requires !e.Request? && !e.Hover? && !e.ReadFrames? && !e.Recovery?
    ensures KeepsDebt(t, Step(t, e), false)
  {
    hide KeepsDebt, Latest;
    var r := Step(t, e);
    if r.log != t.log {
      var entry := r.log[|t.log|];
      assert !entry.Abandoned? && r.log == t.log + [entry];
    }
    NoDebtChange(t, r);
  }

  lemma {:induction false} RunKeepsDebt(t: Tab, events: seq<Event>)
    requires Flagged(t)
    requires forall i :: 0 <= i < |events| ==> Stays(events[i]) && !AsksEmpty(events[i])
    ensures KeepsDebt(t, Run(t, events), false)
  {
    hide KeepsDebt, Step;
    if events == [] {
      NoDebtChange(t, t);
    } else {
      var before := Run(t, events[..|events| - 1]);
      RunKeepsDebt(t, events[..|events| - 1]);
      DebtFlags(t, before, false);
      StepKeepsDebt(before, events[|events| - 1]);
      DebtsCompose(t, before, Run(t, events), false);
    }
  }

  /**
   No request is lost. From any moment at which one of some area is owed and the render
   worker runs, however the rest of the run goes, as long as the document, the tab and
   the worker stay and nobody asks for a frame of no area: the request is still
   remembered, or a frame was submitted for it; and nothing was abandoned.
   */
  lemma RequestsAreNotLost(t: Tab, events: seq<Event>)
    requires Inv(t) && t.debt.dirty && !OwesEmpty(t) && !t.worker.stopped
    requires forall i :: 0 <= i < |events| ==> Stays(events[i]) && !AsksEmpty(events[i])
    ensures
      var r := Run(t, events);
      && t.log <= r.log
      && (forall i :: |t.log| <= i < |r.log| ==> !r.log[i].Abandoned?)
      && (r.debt.dirty || exists i :: |t.log| <= i < |r.log| && r.log[i].Resubmitted?)
  {
    hide Run, Inv;
    FlaggedInv(t);
    RunKeepsDebt(t, events);
    OnlyResubmissionSettles(t, Run(t, events));
  }

  // ---- Every request is taken -------------------------------------------------------------------

  /** The event asks the open tab for a frame of this viewport that no scroll frame can serve. */
  predicate NeedsFullFrame(t: Tab, e: Event, viewport: Viewport) {
    && t.open && !viewport.IsEmpty()
    && (|| (e.Request? && e.viewport == viewport && !CanComposite(t, viewport, e.preferRetained))
        || e == Hover(viewport))
  }

  /** A request is remembered by a busy tab; an idle one submits a frame for it. */
  ghost predicate Taken(t: Tab, r: Tab, viewport: Viewport) {
    if t.worker.Busy() then r.debt == Debt(true, Some(viewport)) && r.log == t.log + [Coalesced(viewport)]
    else
      r.debt == t.debt && r.worker.queued.Some? && r.worker.queued.value.viewport == viewport
      && r.log == t.log + [Submitted(r.worker.queued.value)]
  }

  lemma ScheduleTakes(t: Tab, viewport: Viewport, prefer: bool)
    requires t.open && !t.worker.stopped && !viewport.IsEmpty() && !CanComposite(t, viewport, prefer)
    ensures Taken(t, Schedule(t, viewport, prefer, false), viewport)
  {
  }

  lemma StepTakes(t: Tab, e: Event, viewport: Viewport)
    requires Flagged(t) && NeedsFullFrame(t, e, viewport) && !t.worker.stopped
    ensures Taken(t, Step(t, e), viewport)
    ensures Step(t, e).worker.stopped == t.worker.stopped
  {
    hide Schedule;
    var prefer := e.Request? && e.preferRetained;
    ScheduleTakes(t, viewport, prefer);
    ScheduleKeepsDebt(t, viewport, prefer);
  }

  /**
   No request is ignored or lost. Whoever asks for a frame of some area, an idle tab
   submits one at once. A busy one remembers the request; and from then on, however the
   run goes, as long as the document, the tab and the worker stay and nobody asks for a
   frame of no area, a request is still remembered or a frame was submitted for it.
   */
  lemma RequestsAreTaken(t: Tab, e: Event, viewport: Viewport, events: seq<Event>)
    requires Inv(t) && NeedsFullFrame(t, e, viewport) && !t.worker.stopped
    requires forall i :: 0 <= i < |events| ==> Stays(events[i]) && !AsksEmpty(events[i])
    ensures Taken(t, Step(t, e), viewport)
    ensures t.worker.Busy() ==>
              var asked, r := Step(t, e), Run(Step(t, e), events);
              && asked.log <= r.log
              && (forall i :: |asked.log| <= i < |r.log| ==> !r.log[i].Abandoned?)
              && (r.debt.dirty || exists i :: |asked.log| <= i < |r.log| && r.log[i].Resubmitted?)
  {
    hide Run, Inv, Step;
    FlaggedInv(t);
    StepTakes(t, e, viewport);
    if t.worker.Busy() {
      RunKeepsDebt(Step(t, e), events);
      OnlyResubmissionSettles(Step(t, e), Run(Step(t, e), events));
    }
  }

  lemma {:induction false} RunsOnlyAppend(start: Tab, events: seq<Event>, k: nat)
    requires Flagged(start) && k <= |events|
    ensures Run(start, events[..k]).log <= Run(start, events).log
    decreases |events|
  {
    hide Run, Step;
    if k == |events| {
      assert events[..k] == events;
    } else {
      var last := |events| - 1;
      RunUnfolds(start, events);
      RunIsFlagged(start, events[..last]);
      StepHasReasons(Run(start, events[..last]), events[last]);
      RunsOnlyAppend(start, events[..last], k);
      assert events[..last][..k] == events[..k];
    }
  }

  /** Event `k` of the run asks a busy tab, whose worker runs, for a frame of this viewport. */
  ghost predicate FindsBusy(start: Tab, events: seq<Event>, k: nat, viewport: Viewport) {
    && k < |events|
    && var t := Run(start, events[..k]);
       NeedsFullFrame(t, events[k], viewport) && t.worker.Busy() && !t.worker.stopped
  }

  /** The history of the run has that request, where it was made. */
  ghost predicate Enters(start: Tab, events: seq<Event>, k: nat, viewport: Viewport)
    requires k < |events|
  {
    var at := |Run(start, events[..k]).log|;
    at < |Run(start, events).log| && Run(start, events).log[at] == Coalesced(viewport)
  }

  lemma BusyRequestsEnter(start: Tab, events: seq<Event>, k: nat, viewport: Viewport)
    requires Flagged(start) && FindsBusy(start, events, k, viewport)
    ensures Enters(start, events, k, viewport)
  {
    hide Run, Step, NeedsFullFrame;
    var t := Run(start, events[..k]);
    RunIsFlagged(start, events[..k]);
    StepTakes(t, events[k], viewport);
    RunUnfolds(start, events[..k + 1]);
    assert events[..k + 1][..k] == events[..k];
    RunsOnlyAppend(start, events, k + 1);
  }

  predicate IsFor(e: Entry, viewport: Viewport) {
    e == Coalesced(viewport) || (e.Submitted? && e.id.viewport == viewport)
  }

  /** The history tells that a request for this viewport was remembered or submitted. */
  predicate Tells(log: Log, from: nat, viewport: Viewport) {
    exists i :: from <= i < |log| && IsFor(log[i], viewport)
  }

  lemma TellsStill(log: Log, from: nat, viewport: Viewport, more: Log)
    requires Tells(log, from, viewport) && log <= more
    ensures Tells(more, from, viewport)
  {
    var i :| from <= i < |log| && IsFor(log[i], viewport);
    assert more[i] == log[i];
  }

  /** Of the requests made one after the other while a frame is committed, none is ignored. */
  lemma {:induction false} InnerRequestsAreTaken(t: Tab, inner: seq<Viewport>, k: nat)
    requires Flagged(t) && t.open && !t.worker.stopped && !SomeEmpty(inner) && k < |inner|
    ensures Tells(InnerRequests(t, inner).log, |t.log|, inner[k])
    decreases |inner|
  {
    hide Schedule, InnerRequests, SomeEmpty;
    var init, last := inner[..|inner| - 1], inner[|inner| - 1];
    var before, r := InnerRequests(t, init), InnerRequests(t, inner);
    InnerUnfolds(t, inner);
    NoneEmpty(inner);
    NoneEmpty(init);
    InnerKeepsDebt(t, init);
    ScheduleTakes(before, last, false);
    if k < |init| {
      InnerRequestsAreTaken(t, init, k);
      TellsStill(before.log, |t.log|, inner[k], r.log);
    } else {
      assert IsFor(r.log[|before.log|], last);
    }
  }

  lemma NoneEmpty(viewports: seq<Viewport>)
    ensures !SomeEmpty(viewports) <==> forall i :: 0 <= i < |viewports| ==> !viewports[i].IsEmpty()
  {
  }

  /** Reading results gets to the point where the frame's scripts and resources run. */
  predicate Commits(t: Tab) {
    var latest := Latest(t.worker.done);
    && t.open && latest.Some? && latest.value.outcome.Rendered?
    && Acceptable(t.(worker := t.worker.(done := [])), latest.value.id)
    && (DefersFirstPaint(t, latest.value.outcome.frame) ==> latest.value.outcome.frame.startsStyleFetch)
  }

  /** Nor is any of them forgotten by the rest of the commit. */
  lemma CommitTakesRequests(t: Tab, inner: seq<Viewport>, k: nat)
    requires Flagged(t) && Commits(t) && !t.worker.stopped && !SomeEmpty(inner) && k < |inner|
    ensures Tells(PollRender(t, inner).log, |t.log|, inner[k])
  {
    hide Schedule, Resubmit, Install, Latest, InnerRequests, SomeEmpty, Acceptable, Tells;
    var completed := Latest(t.worker.done).value;
    var read := t.(worker := t.worker.(done := []));
    if DefersFirstPaint(t, completed.outcome.frame) {
      ClearedKeepsDirty(read, completed.id);
      InnerRequestsAreTaken(ClearExpected(read, completed.id), inner, k);
    } else {
      InstalledFields(read, completed.id, completed.outcome.frame);
      var installed := Install(read, completed.id, completed.outcome.frame);
      InnerRequestsAreTaken(installed, inner, k);
      InnerKeepsDebt(installed, inner);
      ResubmitKeepsDebt(InnerRequests(installed, inner));
      TellsStill(InnerRequests(installed, inner).log, |installed.log|, inner[k], PollRender(t, inner).log);
      TellsFrom(PollRender(t, inner).log, |installed.log|, |t.log|, inner[k]);
    }
  }

  lemma TellsFrom(log: Log, from: nat, earlier: nat, viewport: Viewport)
    requires Tells(log, from, viewport) && earlier <= from
    ensures Tells(log, earlier, viewport)
  {
  }

  lemma FlaggedInv(t: Tab)
    requires Inv(t)
    ensures Flagged(t)
  {
  }

  /** Why an event may drop a remembered request. */
  predicate IsReason(t: Tab, e: Event, cause: Cause) {
    match cause
    case ZeroViewport => AsksEmpty(e) || OwesEmpty(t)
    case WorkerStopped => t.worker.stopped
    case Navigation => e.NavigateAway?
    case TabClosed => e.CloseTab?
  }

  /** An event adds an abandonment to the history only for its reason. */
  lemma StepHasReasons(t: Tab, e: Event)
    requires Flagged(t)
    ensures t.log <= Step(t, e).log && Flagged(Step(t, e))
    ensures forall i :: |t.log| <= i < |Step(t, e).log| && Step(t, e).log[i].Abandoned? ==>
              IsReason(t, e, Step(t, e).log[i].cause)
  {
    if Stays(e) {
      hide Step;
      StepKeepsDebt(t, e);
    }
  }

  /** Event `k` of the run dropped the request at position `n` of the history, for its reason. */
  ghost predicate DroppedAt(start: Tab, events: seq<Event>, n: nat, k: nat) {
    && k < |events| && n < |Run(start, events).log| && Run(start, events).log[n].Abandoned?
    && |Run(start, events[..k]).log| <= n < |Run(start, events[..k + 1]).log|
    && IsReason(Run(start, events[..k]), events[k], Run(start, events).log[n].cause)
  }

  lemma {:induction false} AbandonmentsHaveReasons(start: Tab, events: seq<Event>, n: nat)
    requires Flagged(start) && |start.log| <= n < |Run(start, events).log|
    requires Run(start, events).log[n].Abandoned?
    ensures exists k: nat :: DroppedAt(start, events, n, k)
    decreases |events|
  {
    hide Step, IsReason, Run;
    RunUnfolds(start, events);
    if events != [] {
      var last := |events| - 1;
      RunIsFlagged(start, events[..last]);
      StepHasReasons(Run(start, events[..last]), events[last]);
      assert events[..last + 1] == events;
      if n < |Run(start, events[..last]).log| {
        AbandonmentsHaveReasons(start, events[..last], n);
        var k: nat :| DroppedAt(start, events[..last], n, k);
        assert events[..last][..k] == events[..k] && events[..last][..k + 1] == events[..k + 1];
        assert DroppedAt(start, events, n, k);
      } else {
        assert DroppedAt(start, events, n, last);
      }
    }
  }

  lemma RunUnfolds(start: Tab, events: seq<Event>)
    ensures Run(start, events) ==
            if events == [] then start else Step(Run(start, events[..|events| - 1]), events[|events| - 1])
  {
    hide Step;
  }

  lemma {:induction false} RunIsFlagged(start: Tab, events: seq<Event>)
    requires Flagged(start)
    ensures Flagged(Run(start, events))
  {
    hide Step, Flagged;
    if events != [] {
      RunIsFlagged(start, events[..|events| - 1]);
      StepHasReasons(Run(start, events[..|events| - 1]), events[|events| - 1]);
    }
  }

  // ---- Debts are paid in time -------------------------------------------------------------------------

  /** What a worker does by itself, without other tabs or the shell. */
  predicate OwnMove(e: WorkerEvent) {
    e.Start? || e.Publish? || e.Retire?
  }

  /** The worker gets from `w` to `after` by these moves of its own. */
  ghost predicate MovesTo(w: Worker, moves: seq<WorkerEvent>, after: Worker)
    decreases |moves|
  {
    if moves == [] then after == w
    else OwnMove(moves[0]) && Enabled(w, moves[0]) && MovesTo(WorkerStep(w, moves[0]), moves[1..], after)
  }

  lemma {:induction false} MovesAreBounded(w: Worker, moves: seq<WorkerEvent>, after: Worker)
    requires MovesTo(w, moves, after)
    ensures |moves| + Work(after) <= Work(w) && after.stopped == w.stopped
    decreases |moves|
  {
    hide Work;
    if moves != [] {
      WorkerRunsDry(w, moves[0]);
      MovesAreBounded(WorkerStep(w, moves[0]), moves[1..], after);
    }
  }

  /** A worker with a job queued or running can move by itself. */
  lemma BusyWorkerMoves(w: Worker)
    requires w.queued.Some? || w.running != []
    ensures exists e :: OwnMove(e) && Enabled(w, e)
  {
    if w.queued.Some? {
      assert OwnMove(Start) && Enabled(w, Start);
    } else if w.running[0].published || w.running[0].cancelled {
      assert OwnMove(Retire(0)) && Enabled(w, Retire(0));
    } else {
      assert OwnMove(Publish(0, TaskFailed)) && Enabled(w, Publish(0, TaskFailed));
    }
  }

  /** Scheduling the remembered request on an idle worker submits its frame. */
  lemma ResubmitPays(t: Tab)
    requires t.open && t.debt.viewport.Some? && !OwesEmpty(t) && !t.worker.Busy() && !t.worker.stopped
    ensures Resubmit(t).log == t.log + [Resubmitted(NextIdentity(t, t.debt.viewport.value))]
  {
  }

  /** With the worker at rest, reading its result and then recovery submit the owed frame. */
  lemma RestingWorkerPays(t: Tab)
    requires Flagged(t) && t.open && t.debt.dirty && !OwesEmpty(t) && !t.worker.stopped
    requires t.worker.queued.None? && t.worker.running == []
    ensures exists i :: |t.log| <= i < |Recover(PollRender(t, [])).log| && Recover(PollRender(t, [])).log[i].Resubmitted?
  {
    hide Schedule, Acceptable, Latest, KeepsDebt, Install, NextIdentity;
    var read := t.(worker := t.worker.(done := []));
    var latest := Latest(t.worker.done);
    var polled := PollRender(t, []);
    if latest.None? {
      ResubmitPays(read);
      assert Recover(polled).log[|t.log|].Resubmitted?;
    } else {
      var completed := latest.value;
      if !completed.outcome.Rendered? || !Acceptable(read, completed.id) {
        ResubmitPays(read);
        PaidStaysPaid(t, polled, |t.log|);
      } else if DefersFirstPaint(read, completed.outcome.frame) {
        ClearedKeepsDirty(read, completed.id);
        ResubmitPays(polled);
        assert Recover(polled).log[|t.log|].Resubmitted?;
      } else {
        var installed := Install(read, completed.id, completed.outcome.frame);
        InstalledFields(read, completed.id, completed.outcome.frame);
        ResubmitPays(installed);
        PaidStaysPaid(t, polled, |t.log| + 1);
      }
    }
  }

  lemma PaidStaysPaid(t: Tab, polled: Tab, i: nat)
    requires Flagged(t) && polled == PollRender(t, [])
    requires |t.log| <= i < |polled.log| && polled.log[i].Resubmitted?
    ensures i < |Recover(polled).log| && Recover(polled).log[i].Resubmitted?
  {
    hide PollRender, Resubmit;
    ReadingKeepsDebt(t, []);
    ResubmitKeepsDebt(polled);
  }

  /**
   An owed request of some area is paid after a bounded wait. Left to itself the render
   worker makes at most `Work` moves; when it can make no more, reading its result and
   recovery submit a frame for the request.
   */
  lemma DebtIsPaidInTime(t: Tab, moves: seq<WorkerEvent>, after: Worker)
    requires Inv(t) && t.debt.dirty && !OwesEmpty(t) && !t.worker.stopped
    requires MovesTo(t.worker, moves, after)
    ensures |moves| <= Work(t.worker)
    ensures (forall e :: OwnMove(e) ==> !Enabled(after, e)) ==>
              var r := Recover(PollRender(t.(worker := after), []));
              exists i :: |t.log| <= i < |r.log| && r.log[i].Resubmitted?
  {
    hide PollRender, Recover, Work, WellFormed, Summarize;
    MovesAreBounded(t.worker, moves, after);
    if forall e :: OwnMove(e) ==> !Enabled(after, e) {
      if after.queued.Some? || after.running != [] {
        BusyWorkerMoves(after);
      }
      RestingWorkerPays(t.(worker := after));
    }
  }
}
