/**
 The coordinator's methods for one tab, updating the tab's fields in place as the
 event loop does. Each is proved to be the corresponding function of `RenderModel`.
 */
module RenderPipeline {
  import opened HttpTypes
  import opened RenderLog
  import opened RenderModel

  class TabPipeline {
    var open: bool
    var requestedViewport: Viewport
    var frames: Frames
    var debt: Debt
    var scale: Option<real>
    var surface: Surface
    /** The two workers as this tab sees them; they also move on their own. */
    var worker: Worker
    var compositor: Option<Worker>
    ghost var log: Log

    ghost function State(): Tab
      reads this
    {
      Tab(open, requestedViewport, frames, debt, scale, surface, worker, compositor, log)
    }

    constructor (scale: Option<real>, compositor: Option<Worker>)
      ensures State() == NewTab(scale, compositor)
    {
      open := true;
      requestedViewport := NO_VIEWPORT;
      frames, debt := Frames(0, 1, None, None, None), PAID;
      this.scale, surface := scale, BLANK;
      worker, this.compositor := IDLE, compositor;
      log := [];
    }

    method SchedulePageRender(wanted: Viewport, preferRetainedRaster: bool, ghost resubmission: bool)
      modifies this
      ensures State() == Schedule(old(State()), wanted, preferRetainedRaster, resubmission)
    {
      hide ScheduleEmpty, ScheduleComposite, ScheduleFull;
      if !open {
        return;
      }
      if wanted.IsEmpty() {
        CancelAllFrames(wanted, resubmission);
        return;
      }
      var canComposite :=
        compositor.Some? && preferRetainedRaster && surface.viewport == wanted
        && !surface.styleBatch && surface.layerTree && !surface.selecting;
      if !canComposite && worker.Busy() {
        requestedViewport := wanted;
        debt := Debt(true, Some(wanted));
        log := log + [Coalesced(wanted)];
        return;
      }
      if canComposite {
        SubmitScrollFrame(wanted);
      } else {
        SubmitFullFrame(wanted, resubmission);
      }
    }

    /** Nothing can be rendered at this size. */
    method CancelAllFrames(wanted: Viewport, ghost resubmission: bool)
      modifies this
      ensures State() == ScheduleEmpty(old(State()), wanted, resubmission)
    {
      hide NextGeneration, CancelledWorker, CancelAll;
      if resubmission || debt.dirty { log := log + [Abandoned(ZeroViewport)]; }
      requestedViewport := wanted;
      frames := frames.(generation := NextGeneration(frames.generation),
                        expectedRender := None, expectedCompositor := None);
      surface := surface.(frameEmpty := true, viewport := wanted);
      debt := PAID;
      worker := worker.Cancel();
      compositor := CancelledWorker(compositor);
    }

    method SubmitScrollFrame(wanted: Viewport)
      requires compositor.Some?
      modifies this
      ensures State() == ScheduleComposite(old(State()), wanted)
    {
      hide DeviceScale, NextGeneration, CancelAll;
      requestedViewport := wanted;
      var identity :=
        Identity(NextGeneration(frames.generation), frames.serial, wanted, surface.scrollY, DeviceScale(scale));
      frames := frames.(generation := identity.generation, expectedCompositor := Some(identity));
      if compositor.value.stopped {
        frames := frames.(expectedCompositor := None);
      } else {
        compositor := Some(compositor.value.Submit(identity));
        log := log + [ScrollSubmitted(identity)];
      }
    }

    method SubmitFullFrame(wanted: Viewport, ghost resubmission: bool)
      modifies this
      ensures State() == ScheduleFull(old(State()), wanted, resubmission)
    {
      hide DeviceScale, NextGeneration, CancelledWorker, FullFrameEntries, CancelAll;
      requestedViewport := wanted;
      var identity :=
        Identity(NextGeneration(frames.generation), frames.serial, wanted, surface.scrollY, DeviceScale(scale));
      log := log + FullFrameEntries(old(State()), identity, resubmission);
      frames := frames.(generation := identity.generation, expectedRender := Some(identity), expectedCompositor := None);
      if worker.stopped {
        frames := frames.(expectedRender := None);
      } else {
        worker := worker.Submit(identity);
      }
      compositor := CancelledWorker(compositor);
    }

    method ResubmitDirtyRender()
      modifies this
      ensures State() == Resubmit(old(State()))
    {
      hide Schedule;
      if !open || debt.viewport.None? {
        return;
      }
      var wanted := debt.viewport.value;
      debt := PAID;
      SchedulePageRender(wanted, false, true);
    }

    /** What a commit starts may request repaints. */
    method RunStartedWork(inner: seq<Viewport>)
      modifies this
      ensures State() == InnerRequests(old(State()), inner)
    {
      hide Schedule;
      for i := 0 to |inner|
        invariant State() == InnerRequests(old(State()), inner[..i])
      {
        assert inner[..i + 1][..i] == inner[..i];
        SchedulePageRender(inner[i], false, false);
      }
      assert inner[..|inner|] == inner;
    }

    method CommitRender(completed: Completed, inner: seq<Viewport>)
      modifies this
      ensures State() == Commit(old(State()), completed, inner)
    {
      hide Schedule, Resubmit, InnerRequests, Abs, Install;
      if !open {
        return;
      }
      if !completed.outcome.Rendered? {
        ResubmitDirtyRender();
        return;
      }
      var id, frame := completed.id, completed.outcome.frame;
      var accepted :=
        && id.serial == frames.serial
        && id.viewport == requestedViewport
        && (scale.Some? ==> Abs(id.scale - scale.value) <= F32_EPSILON)
        && (frames.committed.Some? ==> id.generation > frames.committed.value.generation)
        && (surface.frameEmpty || id.scrollY == surface.scrollY);
      if !accepted {
        ResubmitDirtyRender();
        return;
      }
      if frames.committed.None? && !surface.styleSheets && !frame.appliesStyles && frame.plansStyles {
        if frames.expectedRender == Some(id) {
          frames := frames.(expectedRender := None);
        }
        if frame.startsStyleFetch {
          RunStartedWork(inner);
        }
        return;
      }
      InstallFrame(id, frame);
      RunStartedWork(inner);
      ResubmitDirtyRender();
    }

    /** The frame becomes the tab's page; scroll frames of the old layer tree are superseded. */
    method InstallFrame(id: Identity, frame: Frame)
      modifies this
      ensures State() == Install(old(State()), id, frame)
    {
      hide CancelledWorker, CancelAll;
      if frames.expectedRender == Some(id) {
        frames := frames.(expectedRender := None);
      }
      frames := frames.(committed := Some(id), expectedCompositor := None);
      surface := surface.(frameEmpty := frame.empty, viewport := id.viewport,
                          layerTree := surface.layerTree || frame.compositable);
      if frame.appliesStyles {
        surface := surface.(styleSheets := true, styleBatch := false);
      }
      log := log + [Committed(id)];
      compositor := CancelledWorker(compositor);
    }

    method PollRenderWorker(inner: seq<Viewport>)
      modifies this
      ensures State() == PollRender(old(State()), inner)
    {
      hide Commit;
      var latest := Latest(worker.done);
      worker := worker.(done := []);
      if latest.Some? {
        CommitRender(latest.value, inner);
      }
    }

    method CommitCompositorFrame(completed: Completed)
      modifies this
      ensures State() == CommitScroll(old(State()), completed)
    {
      if !open {
        return;
      }
      if !completed.outcome.Rendered? {
        if frames.expectedCompositor == Some(completed.id) {
          frames := frames.(expectedCompositor := None);
        }
        return;
      }
      if frames.expectedCompositor != Some(completed.id) {
        return;
      }
      frames := frames.(expectedCompositor := None);
      surface := surface.(viewport := completed.id.viewport, frameEmpty := false);
      log := log + [ScrollCommitted(completed.id)];
    }

    method PollCompositorWorker()
      modifies this
      ensures State() == PollCompositor(old(State()))
    {
      if compositor.None? {
        return;
      }
      var latest := Latest(compositor.value.done);
      compositor := Some(compositor.value.(done := []));
      if latest.Some? {
        CommitCompositorFrame(latest.value);
      }
    }

    method RecoverUnresolvedRenderRequests()
      modifies this
      ensures State() == Recover(old(State()))
    {
      hide Resubmit;
      if open && debt.dirty && !worker.Busy() {
        ResubmitDirtyRender();
      }
    }

    method QueueHoverRepaint(wanted: Viewport)
      modifies this
      ensures State() == HoverRepaint(old(State()), wanted)
    {
      hide Schedule;
      if worker.Busy() {
        if open {
          debt := Debt(true, Some(wanted));
          log := log + [Coalesced(wanted)];
        }
      } else {
        SchedulePageRender(wanted, false, false);
      }
    }

    /** A committed navigation replaces the document and everything derived from it. */
    method InstallSource()
      modifies this
      ensures State() == Navigate(old(State()))
    {
      hide CancelledWorker, Dropped, CancelAll;
      if !open {
        return;
      }
      worker := worker.Cancel();
      frames := Frames(frames.generation, frames.serial + 1, None, None, None);
      log := log + Dropped(old(State()), Navigation) + [Navigated];
      debt := PAID;
      surface, requestedViewport := BLANK, NO_VIEWPORT;
      compositor := CancelledWorker(compositor);
    }

    method CloseTab()
      modifies this
      ensures State() == Close(old(State()))
    {
      hide CancelledWorker, Dropped, CancelAll;
      if !open {
        return;
      }
      log := log + Dropped(State(), TabClosed);
      worker := worker.Cancel();
      debt := PAID;
      open := false;
      frames := frames.(expectedCompositor := None);
      compositor := CancelledWorker(compositor);
    }
  }
}
