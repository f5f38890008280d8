/**
 Which frames a tab shows. A frame that is asked for and rendered is installed; and a
 frame that is installed was rendered for the size, scale, scroll position and document
 that the tab has at that moment, with its blocking stylesheets.
 */
module RenderFrames {
  import opened HttpTypes
  import opened RenderLog
  import opened RenderModel
  import opened RenderLaws

  // ---- What is installed ----------------------------------------------------------------------------

  /**
   Installing this result now is right: it belongs to the document on show, it has the
   size asked for, the window's scale, is newer than the frame on show and was rendered
   at the same scroll position, and a document's first frame has its stylesheets.
   */
  ghost predicate IsRight(t: Tab, c: Completed) {
    && c.outcome.Rendered?
    && c.id.serial == t.frames.serial && c.id.viewport == t.requestedViewport
    && (t.scale.Some? ==> -F32_EPSILON <= c.id.scale - t.scale.value <= F32_EPSILON)
    && (t.frames.committed.Some? ==> c.id.generation > t.frames.committed.value.generation)
    && (!t.surface.frameEmpty ==> c.id.scrollY == t.surface.scrollY)
    && (t.frames.committed.None? && !t.surface.styleSheets && c.outcome.frame.plansStyles ==>
          c.outcome.frame.appliesStyles)
  }

  /** The history says whether a frame was installed by this step. */
  ghost predicate Installs(t: Tab, r: Tab, id: Identity) {
    exists n :: |t.log| <= n < |r.log| && r.log[n] == Committed(id)
  }

  lemma NoCommit(t: Tab, viewport: Viewport, prefer: bool, resubmission: bool)
    ensures
      var r := Schedule(t, viewport, prefer, resubmission);
      t.log <= r.log && forall n :: |t.log| <= n < |r.log| ==> !r.log[n].Committed?
  {
  }

  lemma ResubmitNoCommit(t: Tab)
    ensures t.log <= Resubmit(t).log && forall n :: |t.log| <= n < |Resubmit(t).log| ==> !Resubmit(t).log[n].Committed?
  {
    hide Schedule;
    if t.open && t.debt.viewport.Some? {
      NoCommit(t.(debt := PAID), t.debt.viewport.value, false, true);
    }
  }

  lemma {:induction false} InnerNoCommit(t: Tab, inner: seq<Viewport>)
    ensures
      var r := InnerRequests(t, inner);
      t.log <= r.log && forall n :: |t.log| <= n < |r.log| ==> !r.log[n].Committed?
    decreases |inner|
  {
    hide Schedule;
    if inner != [] {
      var init := inner[..|inner| - 1];
      InnerNoCommit(t, init);
      NoCommit(InnerRequests(t, init), inner[|inner| - 1], false, false);
    }
  }

  lemma CommitInstalls(t: Tab, c: Completed, inner: seq<Viewport>)
    requires t.open
    ensures t.log <= Commit(t, c, inner).log
    ensures forall id :: Installs(t, Commit(t, c, inner), id) <==> IsRight(t, c) && id == c.id
  {
    hide Resubmit, InnerRequests, Schedule;
    var r := Commit(t, c, inner);
    if !c.outcome.Rendered? || !Acceptable(t, c.id) {
      ResubmitNoCommit(t);
    } else if DefersFirstPaint(t, c.outcome.frame) {
      InnerNoCommit(ClearExpected(t, c.id), inner);
    } else {
      var installed := Install(t, c.id, c.outcome.frame);
      InnerNoCommit(installed, inner);
      ResubmitNoCommit(InnerRequests(installed, inner));
      assert r.log[|t.log|] == Committed(c.id);
    }
  }

  /** Steps that read no full frames install none. */
  lemma OthersInstallNothing(t: Tab, e: Event)
    requires !e.ReadFrames?
    ensures t.log <= Step(t, e).log && forall n :: |t.log| <= n < |Step(t, e).log| ==> !Step(t, e).log[n].Committed?
  {
    hide Schedule, Resubmit, Latest;
    match e {
      case Request(viewport, prefer) => NoCommit(t, viewport, prefer, false);
      case Hover(viewport) => NoCommit(t, viewport, false, false);
      case Recovery => ResubmitNoCommit(t);
      case _ =>
    }
  }

  /** The newest of the unread results that are no cancellations. */
  ghost predicate IsNewest(done: seq<Completed>, c: Completed) {
    && c in done && !c.outcome.CancelledTask?
    && forall i :: 0 <= i < |done| && !done[i].outcome.CancelledTask? ==> done[i].id.generation <= c.id.generation
  }

  /** Event `k` of the run installed the frame at position `n` of the history, and it was right to. */
  ghost predicate RightlyInstalled(start: Tab, events: seq<Event>, n: nat, k: nat) {
    && k < |events| && events[k].ReadFrames? && n < |Run(start, events).log| && Run(start, events).log[n].Committed?
    && |Run(start, events[..k]).log| <= n < |Run(start, events[..k + 1]).log|
    && exists c :: && IsNewest(Run(start, events[..k]).worker.done, c) && IsRight(Run(start, events[..k]), c)
                   && c.id == Run(start, events).log[n].id
  }

  /** A step installs a frame only by reading the newest result, and only a right one. */
  lemma StepInstallsRightly(t: Tab, e: Event, n: nat)
    requires |t.log| <= n < |Step(t, e).log| && Step(t, e).log[n].Committed?
    ensures e.ReadFrames?
    ensures exists c :: IsNewest(t.worker.done, c) && IsRight(t, c) && c.id == Step(t, e).log[n].id
  {
    hide Commit;
    if !e.ReadFrames? {
      OthersInstallNothing(t, e);
    } else {
      var read := t.(worker := t.worker.(done := []));
      var latest := Latest(t.worker.done);
      if latest.Some? {
        if t.open {
          CommitInstalls(read, latest.value, e.inner);
          assert Installs(read, Commit(read, latest.value, e.inner), Step(t, e).log[n].id);
        } else {
          ClosedStays(read, latest.value, e.inner);
        }
      }
    }
  }

  lemma ClosedStays(t: Tab, c: Completed, inner: seq<Viewport>)
    requires !t.open
    ensures Commit(t, c, inner) == t
  {
  }

  /**
   Safety. Over every run each installed frame was the newest result, of the size last
   requested, at the scale and, when a frame was on show already, at the scroll position
   of that moment, for the document on show; and a first frame was not shown unstyled.
   */
  lemma {:induction false} InstalledFramesAreRight(start: Tab, events: seq<Event>, n: nat)
    requires Flagged(start) && |start.log| <= n < |Run(start, events).log| && Run(start, events).log[n].Committed?
    ensures exists k: nat :: RightlyInstalled(start, events, n, k)
    decreases |events|
  {
    hide Step, Run, IsRight, IsNewest;
    RunUnfolds(start, events);
    if events != [] {
      var last := |events| - 1;
      var t := Run(start, events[..last]);
      RunIsFlagged(start, events[..last]);
      StepHasReasons(t, events[last]);
      assert events[..last + 1] == events;
      if n < |t.log| {
        InstalledFramesAreRight(start, events[..last], n);
        var k: nat :| RightlyInstalled(start, events[..last], n, k);
        assert events[..last][..k] == events[..k] && events[..last][..k + 1] == events[..k + 1];
        assert RightlyInstalled(start, events, n, k);
      } else {
        StepInstallsRightly(t, events[last], n);
        assert RightlyInstalled(start, events, n, last);
      }
    }
  }

  // ---- What is requested ------------------------------------------------------------------------------

  /** The tab wants frames of this size, and owes none of another. */
  ghost predicate Wants(t: Tab, viewport: Viewport) {
    && t.open && t.requestedViewport == viewport && (t.debt.viewport.None? || t.debt.viewport.value == viewport)
  }

  /** The event asks for no size and leaves the document. */
  predicate IsQuiet(e: Event) {
    match e
    case Request(_, _) => false
    case Hover(_) => false
    case ReadFrames(inner) => inner == []
    case NavigateAway => false
    case CloseTab => false
    case _ => true
  }

  lemma ScheduleWants(t: Tab, viewport: Viewport, prefer: bool, resubmission: bool)
    requires t.open && (t.debt.viewport.None? || t.debt.viewport.value == viewport)
    ensures Wants(Schedule(t, viewport, prefer, resubmission), viewport)
  {
  }

  lemma QuietStepWants(t: Tab, e: Event, viewport: Viewport)
    requires Wants(t, viewport) && IsQuiet(e)
    ensures Wants(Step(t, e), viewport)
  {
    hide Schedule, Latest, Acceptable, DefersFirstPaint;
    if t.debt.viewport.Some? {
      ScheduleWants(t.(debt := PAID), viewport, false, true);
    }
    if e.ReadFrames? && Latest(t.worker.done).Some? {
      var read := t.(worker := t.worker.(done := []));
      var c := Latest(t.worker.done).value;
      NothingInner(ClearExpected(read, c.id));
      if c.outcome.Rendered? { NothingInner(Install(read, c.id, c.outcome.frame)); }
      ResubmitWants(read, viewport);
      if c.outcome.Rendered? { ResubmitWants(Install(read, c.id, c.outcome.frame), viewport); }
    } else if e.Recovery? {
      ResubmitWants(t, viewport);
    }
  }

  lemma NothingInner(t: Tab)
    ensures InnerRequests(t, []) == t
  {
  }

  lemma ResubmitWants(t: Tab, viewport: Viewport)
    requires Wants(t, viewport)
    ensures Wants(Resubmit(t), viewport)
  {
    hide Schedule;
    if t.debt.viewport.Some? {
      ScheduleWants(t.(debt := PAID), viewport, false, true);
    }
  }

  /**
   After a request, in a tab that owes nothing else, whatever quiet steps follow, the tab
   wants that size; so by safety no frame of another size is installed in between.
   */
  lemma {:induction false} RequestedSizeStays(t: Tab, viewport: Viewport, prefer: bool, events: seq<Event>)
    requires t.open && (t.debt.viewport.None? || t.debt.viewport.value == viewport)
    requires forall i :: 0 <= i < |events| ==> IsQuiet(events[i])
    ensures Wants(Run(Step(t, Request(viewport, prefer)), events), viewport)
    decreases |events|
  {
    hide Run, Schedule;
    RunUnfolds(Step(t, Request(viewport, prefer)), events);
    if events == [] {
      ScheduleWants(t, viewport, prefer, false);
    } else {
      hide Step, Wants;
      RequestedSizeStays(t, viewport, prefer, events[..|events| - 1]);
      QuietStepWants(Run(Step(t, Request(viewport, prefer)), events[..|events| - 1]), events[|events| - 1], viewport);
    }
  }

  // ---- Frames asked for are shown -----------------------------------------------------------------------

  lemma {:induction false} InstalledIsFull(log: Log)
    requires WellFormed(log)
    ensures Summarize(log).committed.Some? ==> Summarize(log).committed.value in Summarize(log).fulls
  {
    if log != [] {
      InstalledIsFull(log[..|log| - 1]);
    }
  }

  /** The frame on show is not newer than the generation counter. */
  lemma ShownIsOld(t: Tab)
    requires Inv(t) && t.open && t.frames.committed.Some?
    ensures t.frames.committed.value.generation <= t.frames.generation
  {
    hide WellFormed, Summarize;
    InstalledIsFull(t.log);
    FullsAreOrdered(t.log);
  }

  predicate IsResting(w: Worker) {
    w.queued.None? && w.running == [] && w.done == [] && !w.stopped
  }

  /** The frame is not held back: it is not a first one without the stylesheets it plans. */
  predicate IsStyled(t: Tab, frame: Frame) {
    t.frames.committed.Some? || t.surface.styleSheets || frame.appliesStyles || !frame.plansStyles
  }

  function Rendering(viewport: Viewport, frame: Frame): seq<Event> {
    [Request(viewport, false), RenderWorker(Start), RenderWorker(Publish(0, Rendered(frame))), ReadFrames([])]
  }

  lemma FourEvents(t: Tab, a: Event, b: Event, c: Event, d: Event)
    ensures Run(t, [a, b, c, d]) == Step(Step(Step(Step(t, a), b), c), d)
  {
    hide Step;
    assert [a, b, c, d][..3] == [a, b, c] && [a, b, c][..2] == [a, b] && [a, b][..1] == [a] && [a][..0] == [];
    assert Run(t, []) == t && Run(t, [a]) == Step(t, a) && Run(t, [a, b]) == Step(Step(t, a), b);
    assert Run(t, [a, b, c]) == Step(Step(Step(t, a), b), c);
  }

  /** The tab after the request was submitted and rendered, before the result is read. */
  lemma RenderedTab(t: Tab, viewport: Viewport, frame: Frame)
    requires t.open && IsResting(t.worker) && !viewport.IsEmpty()
    ensures
      var id := NextIdentity(t, viewport);
      var r := Step(Step(Step(t, Request(viewport, false)), RenderWorker(Start)),
                    RenderWorker(Publish(0, Rendered(frame))));
      && r.open && r.requestedViewport == viewport && r.debt == t.debt && r.scale == t.scale
      && r.surface == t.surface && r.log == t.log + [Submitted(id)]
      && r.frames.serial == t.frames.serial && r.frames.committed == t.frames.committed
      && r.worker.done == [Completed(id, Rendered(frame))] && r.worker.running != [] && !r.worker.stopped
  {
    var id := NextIdentity(t, viewport);
    var asked := Step(t, Request(viewport, false));
    assert CancelAll([]) == [];
    assert asked.worker == t.worker.(queued := Some(id));
    var started := Step(asked, RenderWorker(Start));
    assert started.worker.running == [Running(id, false, false)];
  }

  /**
   Liveness. In every reachable open tab whose render worker rests, a request for a frame
   of some area that is rendered, read, and not held back for its stylesheets is shown at
   that size, exactly when the window's scale is not negative.
   */
  lemma FramesAskedForAreShown(t: Tab, viewport: Viewport, frame: Frame)
    requires Inv(t) && t.open && IsResting(t.worker) && t.frames.generation < U64_MAX && !OwesEmpty(t)
    requires !viewport.IsEmpty() && IsStyled(t, frame)
    ensures
      var r := Run(t, Rendering(viewport, frame));
      if t.scale.Some? && t.scale.value < 0.0 then forall id :: !Installs(t, r, id)
      else
        && r.frames.committed.Some? && Installs(t, r, r.frames.committed.value)
        && r.frames.committed.value.viewport == viewport
        && r.surface == t.surface.(viewport := viewport, frameEmpty := frame.empty,
                                   layerTree := t.surface.layerTree || frame.compositable,
                                   styleSheets := t.surface.styleSheets || frame.appliesStyles,
                                   styleBatch := t.surface.styleBatch && !frame.appliesStyles)
  {
    hide Run, Inv, Summarize, Commit, InnerRequests, Resubmit;
    var id := NextIdentity(t, viewport);
    FourEvents(t, Request(viewport, false), RenderWorker(Start), RenderWorker(Publish(0, Rendered(frame))),
               ReadFrames([]));
    RenderedTab(t, viewport, frame);
    hide Step, Schedule;
    var ready := Step(Step(Step(t, Request(viewport, false)), RenderWorker(Start)),
                      RenderWorker(Publish(0, Rendered(frame))));
    var c := Completed(id, Rendered(frame));
    var r := Run(t, Rendering(viewport, frame));
    ReadOne(ready, c);
    var read := ready.(worker := ready.worker.(done := []));
    if t.frames.committed.Some? { ShownIsOld(t); }
    if t.scale.Some? { ScaleIsWindows(t, viewport); }
    CommitInstalls(read, c, []);
    if !(t.scale.Some? && t.scale.value < 0.0) {
      assert IsRight(read, c);
      assert Installs(read, r, id);
      var n :| |read.log| <= n < |r.log| && r.log[n] == Committed(id);
      assert Installs(t, r, id);
      ShownAfterwards(read, c);
    } else {
      forall x ensures !Installs(t, r, x) {
        assert !IsRight(read, c) && !Installs(read, r, x);
        assert r.log[|t.log|] == Submitted(id);
      }
    }
  }

  lemma ScaleIsWindows(t: Tab, viewport: Viewport)
    requires t.scale.Some?
    ensures -F32_EPSILON <= NextIdentity(t, viewport).scale - t.scale.value <= F32_EPSILON <==> t.scale.value >= 0.0
  {
  }

  lemma ReadOne(t: Tab, c: Completed)
    requires t.worker.done == [c] && c.outcome.Rendered?
    ensures Step(t, ReadFrames([])) == Commit(t.(worker := t.worker.(done := [])), c, [])
  {
    assert [c][..0] == [] && Latest([]) == None;
  }

  /** What is on show once the frame is installed. */
  lemma ShownAfterwards(t: Tab, c: Completed)
    requires t.open && IsRight(t, c) && t.worker.Busy() && !OwesEmpty(t)
    ensures
      var r := Commit(t, c, []);
      && r.frames.committed == Some(c.id)
      && r.surface == t.surface.(viewport := c.id.viewport, frameEmpty := c.outcome.frame.empty,
                                 layerTree := t.surface.layerTree || c.outcome.frame.compositable,
                                 styleSheets := t.surface.styleSheets || c.outcome.frame.appliesStyles,
                                 styleBatch := t.surface.styleBatch && !c.outcome.frame.appliesStyles)
  {
    NothingInner(Install(t, c.id, c.outcome.frame));
  }

  /**
   Reading a result pays at once. When nothing else runs and the result is not held back
   for its stylesheets, then whether it was installed, discarded or had failed, a frame
   is submitted for the remembered request.
   */
  lemma ReadingPays(t: Tab)
    requires Inv(t) && t.open && t.debt.dirty && !OwesEmpty(t) && !t.worker.stopped
    requires t.worker.queued.None? && t.worker.running == [] && Latest(t.worker.done).Some?
    requires
      var outcome := Latest(t.worker.done).value.outcome;
      outcome.Rendered? ==> IsStyled(t, outcome.frame)
    ensures
      var r := Step(t, ReadFrames([]));
      && !r.debt.dirty && r.worker.queued.Some?
      && r.log != [] && r.log[|r.log| - 1] == Resubmitted(r.worker.queued.value)
      && Some(r.worker.queued.value.viewport) == t.debt.viewport
  {
    hide Summarize, WellFormed, Latest, Delivers, Acceptable;
    var c := Latest(t.worker.done).value;
    var read := t.(worker := t.worker.(done := []));
    NothingInner(read);
    if c.outcome.Rendered? { NothingInner(Install(read, c.id, c.outcome.frame)); }
  }

  /** A navigation forgets the old document: nothing of it is shown, awaited, queued or owed, and no sheets are left. */
  lemma NavigationForgets(t: Tab)
    requires t.open
    ensures
      var r := Step(t, NavigateAway);
      && r.frames.committed.None? && r.frames.expectedRender.None? && r.frames.expectedCompositor.None?
      && r.surface.frameEmpty && !r.surface.styleSheets && !r.surface.layerTree && !r.surface.styleBatch
      && !r.debt.dirty && r.debt.viewport.None? && r.worker.queued.None?
      && (forall i :: 0 <= i < |r.worker.running| ==> r.worker.running[i].cancelled)
      && r.frames.serial == t.frames.serial + 1
  {
  }

  /** A request for a frame of no area clears the tab: nothing is shown, awaited, queued or owed. */
  lemma EmptyRequestClears(t: Tab, viewport: Viewport, prefer: bool)
    requires t.open && viewport.IsEmpty()
    ensures
      var r := Step(t, Request(viewport, prefer));
      && r.surface.frameEmpty && r.surface.viewport == r.requestedViewport == viewport
      && r.frames.expectedRender.None? && r.frames.expectedCompositor.None? && r.debt == PAID
      && r.worker.queued.None? && (forall i :: 0 <= i < |r.worker.running| ==> r.worker.running[i].cancelled)
  {
  }

  // ---- Scroll frames --------------------------------------------------------------------------------------

  /** A scroll frame can serve the request: the page is shown at that size, its layers are kept, nothing is selected. */
  predicate CanScroll(t: Tab, viewport: Viewport) {
    && t.compositor.Some? && t.surface.viewport == viewport && t.surface.layerTree
    && !t.surface.styleBatch && !t.surface.selecting
  }

  /** Scroll frames are submitted only on requests that ask for them, where one can serve. */
  lemma ScrollFramesNeedLayers(t: Tab, e: Event, n: nat)
    requires |t.log| <= n < |Step(t, e).log| && Step(t, e).log[n].ScrollSubmitted?
    ensures e.Request? && e.preferRetained && CanScroll(t, e.viewport)
    ensures Step(t, e).log[n].id.viewport == e.viewport && Step(t, e).log[n].id.scrollY == t.surface.scrollY
  {
    hide Latest, Acceptable, DefersFirstPaint, InnerRequests;
    if e.ReadFrames? {
      ReadingScrollsNothing(t, e.inner);
    } else if e.Recovery? {
      ResubmitScrollsNothing(t);
    } else if e.Hover? {
      AskingScrollsNothing(t, e.viewport, false);
    }
  }

  lemma AskingScrollsNothing(t: Tab, viewport: Viewport, resubmission: bool)
    ensures
      var r := Schedule(t, viewport, false, resubmission);
      t.log <= r.log && forall n :: |t.log| <= n < |r.log| ==> !r.log[n].ScrollSubmitted?
  {
  }

  lemma ResubmitScrollsNothing(t: Tab)
    ensures
      t.log <= Resubmit(t).log && forall n :: |t.log| <= n < |Resubmit(t).log| ==> !Resubmit(t).log[n].ScrollSubmitted?
  {
    hide Schedule;
    if t.open && t.debt.viewport.Some? {
      AskingScrollsNothing(t.(debt := PAID), t.debt.viewport.value, true);
    }
  }

  lemma {:induction false} InnerScrollsNothing(t: Tab, inner: seq<Viewport>)
    ensures
      var r := InnerRequests(t, inner);
      t.log <= r.log && forall n :: |t.log| <= n < |r.log| ==> !r.log[n].ScrollSubmitted?
    decreases |inner|
  {
    hide Schedule;
    if inner != [] {
      var init := inner[..|inner| - 1];
      InnerScrollsNothing(t, init);
      AskingScrollsNothing(InnerRequests(t, init), inner[|inner| - 1], false);
    }
  }

  lemma ReadingScrollsNothing(t: Tab, inner: seq<Viewport>)
    ensures
      var r := PollRender(t, inner);
      t.log <= r.log && forall n :: |t.log| <= n < |r.log| ==> !r.log[n].ScrollSubmitted?
  {
    hide Latest, Acceptable, DefersFirstPaint, InnerRequests, Schedule, Resubmit;
    var latest := Latest(t.worker.done);
    if latest.Some? {
      var read, c := t.(worker := t.worker.(done := [])), latest.value;
      ResubmitScrollsNothing(read);
      InnerScrollsNothing(ClearExpected(read, c.id), inner);
      if c.outcome.Rendered? {
        var installed := Install(read, c.id, c.outcome.frame);
        InnerScrollsNothing(installed, inner);
        ResubmitScrollsNothing(InnerRequests(installed, inner));
      }
    }
  }

  function Scrolling(viewport: Viewport, frame: Frame): seq<Event> {
    [Request(viewport, true), CompositorWorker(Start), CompositorWorker(Publish(0, Rendered(frame))), ReadScrollFrames]
  }

  /** Liveness of scrolling: where a scroll frame can serve, one that is asked for and composed is shown. */
  lemma ScrollFramesAskedForAreShown(t: Tab, viewport: Viewport, frame: Frame)
    requires t.open && CanScroll(t, viewport) && IsResting(t.compositor.value) && !viewport.IsEmpty()
    ensures
      var r := Run(t, Scrolling(viewport, frame));
      var id := NextIdentity(t, viewport);
      && r.log == t.log + [ScrollSubmitted(id), ScrollCommitted(id)]
      && id.viewport == viewport && id.scrollY == t.surface.scrollY
      && r.surface.viewport == viewport && !r.surface.frameEmpty
  {
    hide Run, Latest;
    FourEvents(t, Request(viewport, true), CompositorWorker(Start), CompositorWorker(Publish(0, Rendered(frame))),
               ReadScrollFrames);
    ComposedTab(t, viewport, frame);
    var id := NextIdentity(t, viewport);
    var ready := Step(Step(Step(t, Request(viewport, true)), CompositorWorker(Start)),
                      CompositorWorker(Publish(0, Rendered(frame))));
    hide Schedule, WorkerStep;
    OneResult(Completed(id, Rendered(frame)));
    assert t.log + [ScrollSubmitted(id)] + [ScrollCommitted(id)] == t.log + [ScrollSubmitted(id), ScrollCommitted(id)];
  }

  lemma OneResult(c: Completed)
    requires c.outcome.Rendered?
    ensures Latest([c]) == Some(c)
  {
    assert [c][..0] == [] && Latest([]) == None;
  }

  /** The tab after the scroll frame was submitted and composed, before the result is read. */
  lemma ComposedTab(t: Tab, viewport: Viewport, frame: Frame)
    requires t.open && CanScroll(t, viewport) && IsResting(t.compositor.value) && !viewport.IsEmpty()
    ensures
      var id := NextIdentity(t, viewport);
      var r := Step(Step(Step(t, Request(viewport, true)), CompositorWorker(Start)),
                    CompositorWorker(Publish(0, Rendered(frame))));
      && r.open && r.surface == t.surface && r.log == t.log + [ScrollSubmitted(id)]
      && r.frames.expectedCompositor == Some(id)
      && r.compositor.Some? && r.compositor.value.done == [Completed(id, Rendered(frame))]
  {
    var id := NextIdentity(t, viewport);
    assert CancelAll([]) == [];
    var asked := Step(t, Request(viewport, true));
    assert asked.compositor == Some(t.compositor.value.(queued := Some(id)));
    var started := Step(asked, CompositorWorker(Start));
    assert started.compositor.value.running == [Running(id, false, false)];
  }
}
