/**
 One tab of the shell's render coordination as a state machine: the coordinator's
 fields, the render worker and the compositor worker seen from this tab, and the
 history of what happened (`RenderLog`).

 The workers are an environment that moves on its own. A job is queued, runs,
 publishes its result and retires; a cancelled job retires without publishing.
 Other tabs may push this tab's queued job or its unread results out of the
 bounded queues.
 */
module RenderModel {
  import opened HttpTypes
  import opened RenderLog

  // ---- The worker, seen from one tab -------------------------------------------------------

  /** What a finished full frame brings along. */
  datatype Frame = Frame(
    appliesStyles: bool,
    plansStyles: bool,
    startsStyleFetch: bool,
    compositable: bool,
    empty: bool)

  datatype Outcome = Rendered(frame: Frame) | TaskFailed | Panicked | CancelledTask

  datatype Completed = Completed(id: Identity, outcome: Outcome)

  datatype Running = Running(id: Identity, cancelled: bool, published: bool)

  datatype Worker = Worker(queued: Option<Identity>, running: seq<Running>, done: seq<Completed>, stopped: bool) {
    /** `is_tab_busy`: queued, running, or finished but not yet read. */
    predicate Busy() {
      queued.Some? || running != [] || done != []
    }

    /** Queue slot and running jobs are dropped; results already published stay. */
    function Cancel(): Worker {
      this.(queued := None, running := CancelAll(running))
    }

    /** A submission replaces and cancels this tab's older work. */
    function Submit(id: Identity): Worker {
      if stopped then this else this.(queued := Some(id), running := CancelAll(running))
    }
  }

  function CancelAll(running: seq<Running>): seq<Running> {
    seq(|running|, i requires 0 <= i < |running| => running[i].(cancelled := true))
  }

  const IDLE: Worker := Worker(None, [], [], false)

  /** `drain_latest` for this tab: the newest published result that is not a cancellation. */
  function Latest(done: seq<Completed>): (r: Option<Completed>)
    ensures r.Some? ==> r.value in done && !r.value.outcome.CancelledTask?
    ensures forall i :: 0 <= i < |done| && !done[i].outcome.CancelledTask? ==>
              r.Some? && done[i].id.generation <= r.value.id.generation
  {
    if done == [] then None
    else
      var r, c := Latest(done[..|done| - 1]), done[|done| - 1];
      if c.outcome.CancelledTask? then r
      else if r.None? || c.id.generation > r.value.id.generation then Some(c)
      else r
  }

  datatype WorkerEvent =
    | Start
    | Publish(index: nat, outcome: Outcome)
    | Retire(index: nat)
    | EvictQueued
    | EvictOldest
    | Shutdown

  predicate Enabled(w: Worker, e: WorkerEvent) {
    match e
    case Start => w.queued.Some?
    case Publish(i, outcome) =>
      i < |w.running| && !w.running[i].published && (!w.running[i].cancelled || outcome.Panicked?)
    case Retire(i) => i < |w.running| && (w.running[i].published || w.running[i].cancelled)
    case EvictQueued => w.queued.Some?
    case EvictOldest => w.done != []
    case Shutdown => !w.stopped
  }

  function WorkerStep(w: Worker, e: WorkerEvent): Worker
    requires Enabled(w, e)
  {
    match e
    case Start => w.(queued := None, running := w.running + [Running(w.queued.value, false, false)])
    case Publish(i, outcome) =>
      w.(running := w.running[i := w.running[i].(published := true)],
         done := w.done + [Completed(w.running[i].id, outcome)])
    case Retire(i) => w.(running := w.running[..i] + w.running[i + 1..])
    case EvictQueued => w.(queued := None)
    case EvictOldest => w.(done := w.done[1..])
    case Shutdown => w.Cancel().(stopped := true)
  }

  // ---- The tab ----------------------------------------------------------------------------------

  /** What the tab shows, and which of the document's resources have arrived. */
  datatype Surface = Surface(
    viewport: Viewport,
    frameEmpty: bool,
    scrollY: int,
    styleBatch: bool,
    styleSheets: bool,
    layerTree: bool,
    selecting: bool)

  const BLANK: Surface := Surface(NO_VIEWPORT, true, 0, false, false, false, false)

  /** Counters and the frames the coordinator waits for or has installed. */
  datatype Frames = Frames(
    generation: nat,
    serial: nat,
    expectedRender: Option<Identity>,
    expectedCompositor: Option<Identity>,
    committed: Option<Identity>)

  /** The remembered repaint request: `render_dirty` and `render_dirty_viewport`. */
  datatype Debt = Debt(dirty: bool, viewport: Option<Viewport>)

  const PAID: Debt := Debt(false, None)

  datatype Tab = Tab(
    open: bool,
    requestedViewport: Viewport,
    frames: Frames,
    debt: Debt,
    scale: Option<real>,
    surface: Surface,
    worker: Worker,
    compositor: Option<Worker>,
    log: Log)

  const F32_EPSILON: real := 0.00000011920928955078125
  const NO_VIEWPORT: Viewport := Viewport(0, 0)

  function NewTab(scale: Option<real>, compositor: Option<Worker>): Tab {
    Tab(true, NO_VIEWPORT, Frames(0, 1, None, None, None), PAID, scale, BLANK, IDLE, compositor, [])
  }

  function NextGeneration(generation: nat): nat {
    if generation < U64_MAX then generation + 1 else generation
  }

  function DeviceScale(scale: Option<real>): real {
    var s := if scale.Some? then scale.value else 1.0;
    if s < F32_EPSILON then F32_EPSILON else s
  }

  function CancelledWorker(w: Option<Worker>): Option<Worker> {
    if w.Some? then Some(w.value.Cancel()) else None
  }

  predicate CanComposite(t: Tab, viewport: Viewport, preferRetained: bool) {
    t.compositor.Some? && preferRetained && t.surface.viewport == viewport
    && !t.surface.styleBatch && t.surface.layerTree && !t.surface.selecting
  }

  /** An empty viewport cancels everything, including a remembered request. */
  function ScheduleEmpty(t: Tab, viewport: Viewport, resubmission: bool): Tab {
    t.(requestedViewport := viewport,
       frames := t.frames.(generation := NextGeneration(t.frames.generation),
                           expectedRender := None, expectedCompositor := None),
       debt := PAID,
       surface := t.surface.(frameEmpty := true, viewport := viewport),
       worker := t.worker.Cancel(),
       compositor := CancelledWorker(t.compositor),
       log := if resubmission || t.debt.dirty then t.log + [Abandoned(ZeroViewport)] else t.log)
  }

  /** A busy worker keeps its job; the request is remembered. */
  function Coalesce(t: Tab, viewport: Viewport): Tab {
    t.(requestedViewport := viewport, debt := Debt(true, Some(viewport)),
       log := t.log + [Coalesced(viewport)])
  }

  function NextIdentity(t: Tab, viewport: Viewport): Identity {
    Identity(NextGeneration(t.frames.generation), t.frames.serial, viewport, t.surface.scrollY, DeviceScale(t.scale))
  }

  /** A scroll frame from the retained layer tree. */
  function ScheduleComposite(t: Tab, viewport: Viewport): Tab
    requires t.compositor.Some?
  {
    var id, worker := NextIdentity(t, viewport), t.compositor.value;
    t.(requestedViewport := viewport,
       frames := t.frames.(generation := id.generation,
                           expectedCompositor := if worker.stopped then None else Some(id)),
       compositor := Some(worker.Submit(id)),
       log := if worker.stopped then t.log else t.log + [ScrollSubmitted(id)])
  }

  /** A full frame; scroll frames of the previous layer tree are superseded. */
  function ScheduleFull(t: Tab, viewport: Viewport, resubmission: bool): Tab {
    var id := NextIdentity(t, viewport);
    t.(requestedViewport := viewport,
       frames := t.frames.(generation := id.generation, expectedCompositor := None,
                           expectedRender := if t.worker.stopped then None else Some(id)),
       worker := t.worker.Submit(id),
       compositor := CancelledWorker(t.compositor),
       log := t.log + FullFrameEntries(t, id, resubmission))
  }

  function FullFrameEntries(t: Tab, id: Identity, resubmission: bool): Log {
    if t.worker.stopped then (if resubmission then [Abandoned(WorkerStopped)] else [])
    else [if resubmission then Resubmitted(id) else Submitted(id)]
  }

  /**
   `schedule_page_render`. `resubmission` marks the call made for a remembered
   request, which the caller has just taken off the tab.
   */
  function Schedule(t: Tab, viewport: Viewport, preferRetained: bool, resubmission: bool): Tab {
    if !t.open then t
    else if viewport.IsEmpty() then ScheduleEmpty(t, viewport, resubmission)
    else if CanComposite(t, viewport, preferRetained) then ScheduleComposite(t, viewport)
    else if t.worker.Busy() then Coalesce(t, viewport)
    else ScheduleFull(t, viewport, resubmission)
  }

  /** `resubmit_dirty_render`: the remembered request is taken off and scheduled again. */
  function Resubmit(t: Tab): Tab {
    if !t.open || t.debt.viewport.None? then t
    else Schedule(t.(debt := PAID), t.debt.viewport.value, false, true)
  }

  function Abs(x: real): real {
    if x < 0.0 then -x else x
  }

  predicate Acceptable(t: Tab, id: Identity) {
    && id.serial == t.frames.serial
    && id.viewport == t.requestedViewport
    && (t.scale.Some? ==> Abs(id.scale - t.scale.value) <= F32_EPSILON)
    && (t.frames.committed.Some? ==> id.generation > t.frames.committed.value.generation)
    && (t.surface.frameEmpty || id.scrollY == t.surface.scrollY)
  }

  /** The first paint of a document waits for its blocking stylesheets. */
  predicate DefersFirstPaint(t: Tab, frame: Frame) {
    t.frames.committed.None? && !t.surface.styleSheets && !frame.appliesStyles && frame.plansStyles
  }

  /** The stylesheets, images and scripts a commit starts may each ask for a repaint, one after the other. */
  function InnerRequests(t: Tab, inner: seq<Viewport>): Tab {
    if inner == [] then t
    else Schedule(InnerRequests(t, inner[..|inner| - 1]), inner[|inner| - 1], false, false)
  }

  function WithoutExpected(f: Frames, id: Identity): Frames {
    if f.expectedRender == Some(id) then f.(expectedRender := None) else f
  }

  function ClearExpected(t: Tab, id: Identity): Tab {
    t.(frames := WithoutExpected(t.frames, id))
  }

  function Shown(s: Surface, id: Identity, frame: Frame): Surface {
    s.(frameEmpty := frame.empty, viewport := id.viewport,
       layerTree := s.layerTree || frame.compositable,
       styleSheets := s.styleSheets || frame.appliesStyles,
       styleBatch := s.styleBatch && !frame.appliesStyles)
  }

  function Install(t: Tab, id: Identity, frame: Frame): Tab {
    t.(frames := WithoutExpected(t.frames, id).(committed := Some(id), expectedCompositor := None),
       surface := Shown(t.surface, id, frame),
       compositor := CancelledWorker(t.compositor),
       log := t.log + [Committed(id)])
  }

  /** `commit_render`. */
  function Commit(t: Tab, completed: Completed, inner: seq<Viewport>): Tab {
    if !t.open then t
    else if !completed.outcome.Rendered? || !Acceptable(t, completed.id) then Resubmit(t)
    else
      var frame := completed.outcome.frame;
      if DefersFirstPaint(t, frame) then
        var waiting := ClearExpected(t, completed.id);
        if frame.startsStyleFetch then InnerRequests(waiting, inner) else waiting
      else
        Resubmit(InnerRequests(Install(t, completed.id, frame), inner))
  }

  /** `poll_render_worker`: every unread result is taken, the newest is committed. */
  function PollRender(t: Tab, inner: seq<Viewport>): Tab {
    var latest := Latest(t.worker.done);
    var read := t.(worker := t.worker.(done := []));
    if latest.Some? then Commit(read, latest.value, inner) else read
  }

  /** `commit_compositor_frame`. */
  function CommitScroll(t: Tab, completed: Completed): Tab {
    if !t.open || t.frames.expectedCompositor != Some(completed.id) then t
    else if !completed.outcome.Rendered? then t.(frames := t.frames.(expectedCompositor := None))
    else
      t.(frames := t.frames.(expectedCompositor := None),
         surface := t.surface.(viewport := completed.id.viewport, frameEmpty := false),
         log := t.log + [ScrollCommitted(completed.id)])
  }

  function PollCompositor(t: Tab): Tab {
    if t.compositor.None? then t
    else
      var latest := Latest(t.compositor.value.done);
      var read := t.(compositor := Some(t.compositor.value.(done := [])));
      if latest.Some? then CommitScroll(read, latest.value) else read
  }

  /** `recover_unresolved_render_requests`. */
  function Recover(t: Tab): Tab {
    if t.open && t.debt.dirty && !t.worker.Busy() then Resubmit(t) else t
  }

  /** `queue_hover_repaint`. */
  function HoverRepaint(t: Tab, viewport: Viewport): Tab {
    if !t.worker.Busy() then Schedule(t, viewport, false, false)
    else if t.open then
      t.(debt := Debt(true, Some(viewport)), log := t.log + [Coalesced(viewport)])
    else t
  }

  /** What dropping a remembered request adds to the history. */
  function Dropped(t: Tab, cause: Cause): Log {
    if t.debt.dirty then [Abandoned(cause)] else []
  }

  /** `install_source` with `PageState::set_source`. */
  function Navigate(t: Tab): Tab {
    if !t.open then t
    else
      t.(debt := PAID,
         frames := Frames(t.frames.generation, t.frames.serial + 1, None, None, None),
         surface := BLANK, requestedViewport := NO_VIEWPORT,
         worker := t.worker.Cancel(),
         compositor := CancelledWorker(t.compositor),
         log := t.log + Dropped(t, Navigation) + [Navigated])
  }

  function Close(t: Tab): Tab {
    if !t.open then t
    else
      t.(open := false, debt := PAID, worker := t.worker.Cancel(),
         frames := t.frames.(expectedCompositor := None),
         compositor := CancelledWorker(t.compositor),
         log := t.log + Dropped(t, TabClosed))
  }

  /** Selecting text while a scroll frame is in flight supersedes that frame. */
  function SelectionRepaint(t: Tab): Tab {
    if t.open && t.surface.selecting
    then t.(frames := t.frames.(expectedCompositor := None), compositor := CancelledWorker(t.compositor))
    else t
  }

  /** State the rest of the shell changes: scrolling, window scale, style batches, palette, selection. */
  function Surroundings(
      t: Tab, scrollY: int, scale: Option<real>, styleBatch: bool, layerTree: bool, selecting: bool): Tab
  {
    t.(scale := scale,
       surface := t.surface.(scrollY := scrollY, styleBatch := styleBatch, selecting := selecting,
                             layerTree := t.surface.layerTree && layerTree))
  }

  // ---- Runs ---------------------------------------------------------------------------------------

  datatype Event =
    | Request(viewport: Viewport, preferRetained: bool)
    | Hover(viewport: Viewport)
    | ReadFrames(inner: seq<Viewport>)
    | ReadScrollFrames
    | Recovery
    | NavigateAway
    | CloseTab
    | Selection
    | Change(scrollY: int, scale: Option<real>, styleBatch: bool, layerTree: bool, selecting: bool)
    | RenderWorker(event: WorkerEvent)
    | CompositorWorker(event: WorkerEvent)

  function Step(t: Tab, e: Event): Tab {
    match e
    case Request(viewport, prefer) => Schedule(t, viewport, prefer, false)
    case Hover(viewport) => HoverRepaint(t, viewport)
    case ReadFrames(inner) => PollRender(t, inner)
    case ReadScrollFrames => PollCompositor(t)
    case Recovery => Recover(t)
    case NavigateAway => Navigate(t)
    case CloseTab => Close(t)
    case Selection => SelectionRepaint(t)
    case Change(scrollY, scale, batch, tree, selecting) => Surroundings(t, scrollY, scale, batch, tree, selecting)
    case RenderWorker(we) => if Enabled(t.worker, we) then t.(worker := WorkerStep(t.worker, we)) else t
    case CompositorWorker(we) =>
      if t.compositor.Some? && Enabled(t.compositor.value, we)
      then t.(compositor := Some(WorkerStep(t.compositor.value, we)))
      else t
  }

  function Run(start: Tab, events: seq<Event>): Tab {
    if events == [] then start else Step(Run(start, events[..|events| - 1]), events[|events| - 1])
  }

  // ---- The invariant ----------------------------------------------------------------------------

  /** Frames this worker could still deliver. */
  ghost predicate Delivers(w: Worker, fulls: set<Identity>) {
    && (w.queued.Some? ==> w.queued.value in fulls)
    && (forall i :: 0 <= i < |w.running| ==> w.running[i].id in fulls)
    && (forall i :: 0 <= i < |w.done| ==> w.done[i].id in fulls)
  }

  /** The coordinator's fields agree with its history, which owes `owed`. */
  ghost predicate Agrees(t: Tab, owed: Option<Viewport>) {
    var s := Summarize(t.log);
    && WellFormed(t.log)
    && t.frames.serial == s.serial
    && t.frames.generation >= s.newest
    && Delivers(t.worker, s.fulls)
    && s.owed == owed
    && (t.open ==> t.frames.committed == s.committed)
    && (t.frames.expectedCompositor.Some? ==> t.open && t.frames.expectedCompositor == s.scroll)
  }

  ghost predicate Inv(t: Tab) {
    && (t.debt.dirty <==> t.debt.viewport.Some?)
    && (t.debt.dirty ==> t.open)
    && Agrees(t, t.debt.viewport)
  }
}
