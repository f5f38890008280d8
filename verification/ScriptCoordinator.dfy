/**
 The coordinator of a document's scripts: the page's fields, updated in place, and the
 scanning loop. Every method takes legal steps of `ScriptGate`.
 */
module ScriptCoordination {
  import opened HttpTypes
  import opened ScriptGate

  lemma AddsMember(a: set<NodeId>, owners: seq<NodeId>)
    requires owners != [] && forall n :: n in owners ==> n !in a
    ensures |a + (set n | n in owners)| > |a|
  {
    var n := owners[0];
    assert a + (set n | n in owners) == (a + (set n | n in owners) - {n}) + {n};
    assert a <= a + (set n | n in owners) - {n};
    SubsetSize(a, a + (set n | n in owners) - {n});
  }

  lemma SubsetSize(a: set<NodeId>, b: set<NodeId>)
    requires a <= b
    ensures |a| <= |b|
  {
    assert b == a + (b - a);
  }

  class ScriptCoordinator {
    var stylesResolved: bool
    var scriptsResolved: bool
    var pending: Option<Batch>
    var held: Option<Batch>
    var started: set<NodeId>
    ghost var planned: seq<Batch>
    ghost var fates: seq<Fate>

    ghost function State(): Gate
      reads this
    {
      Gate(stylesResolved, scriptsResolved, pending, held, started, planned, fates)
    }

    constructor ()
      ensures State() == NEW_DOCUMENT
    {
      stylesResolved, scriptsResolved := false, false;
      pending, held, started := None, None, {};
      planned, fates := [], [];
    }

    /** Runs a complete batch now, or holds it until the stylesheets are resolved. */
    method RunOrHoldBatch(batch: Batch)
      modifies this`fates, this`held
      ensures State() == RunOrHold(old(State()), batch)
    {
      if stylesResolved {
        fates := fates + [Ran(batch)];
      } else {
        held := Some(batch);
      }
    }

    /** Takes the held batch out of its slot and runs it. */
    method FlushHeld()
      requires held.Some? && stylesResolved
      modifies this`fates, this`held
      ensures CanStep(old(State()), RunHeld) && State() == Apply(old(State()), RunHeld)
      ensures held.None?
    {
      var batch := held.value;
      held := None;
      fates := fates + [Ran(batch)];
    }

    /**
     Plans the scripts that were not started before: they are fetched, run or held.
     `again` tells whether there may be more to do right away.
     */
    method PlanUnstarted() returns (ghost step: Step, again: bool)
      requires held.None? && pending.None? && !scriptsResolved
      modifies this`scriptsResolved, this`fates, this`held, this`pending, this`started, this`planned
      ensures step.Scan? || step.StopScanning?
      ensures CanStep(old(State()), step) && State() == Apply(old(State()), step)
      ensures again ==> |old(started)| < MAX_SCRIPT_ELEMENTS && |started| > |old(started)|
      ensures !again ==> pending.Some? || scriptsResolved || held.Some?
      ensures held.Some? ==> !stylesResolved
    {
      if |started| >= MAX_SCRIPT_ELEMENTS {
        scriptsResolved := true;
        return StopScanning, false;
      }
      var found: seq<NodeId> := *;
      var owners := Unstarted(found, started);
      if owners == [] {
        scriptsResolved := true;
        return Scan(found, false), false;
      }
      var batch := Batch(owners);
      AddsMember(started, owners);
      started := started + (set n | n in owners);
      planned := planned + [batch];
      var fetches: bool := *;
      if fetches {
        pending := Some(batch);
        return Scan(found, true), false;
      }
      RunOrHoldBatch(batch);
      return Scan(found, false), stylesResolved;
    }

    /**
     Flushes a held batch and scans for new scripts until nothing more can be done
     now. It ends even when every script that runs inserts further scripts.
     */
    method StartClassicScripts() returns (ghost steps: seq<Step>)
      modifies this`scriptsResolved, this`fates, this`held, this`pending, this`started, this`planned
      ensures Legal(old(State()), steps) && State() == Run(old(State()), steps)
      ensures forall i :: 0 <= i < |steps| ==> steps[i].RunHeld? || steps[i].Scan? || steps[i].StopScanning?
      ensures held.Some? ==> !stylesResolved
      ensures held.Some? || pending.Some? || scriptsResolved
    {
      hide Run, Legal, Apply, CanStep;
      steps := [];
      ghost var start := State();
      NoSteps(start);
      while true
        invariant Legal(start, steps) && State() == Run(start, steps)
        invariant forall i :: 0 <= i < |steps| ==> steps[i].RunHeld? || steps[i].Scan? || steps[i].StopScanning?
        decreases MAX_SCRIPT_ELEMENTS + 1 - |started|, held.Some?
      {
        if held.Some? {
          if !stylesResolved {
            return;
          }
          FlushHeld();
          OneMore(start, steps, RunHeld);
          steps := steps + [RunHeld];
          continue;
        }
        if scriptsResolved || pending.Some? {
          return;
        }
        ghost var step;
        var again;
        step, again := PlanUnstarted();
        OneMore(start, steps, step);
        steps := steps + [step];
        if !again {
          return;
        }
      }
    }

    /**
     One round of transfers of the pending batch is complete. Either its modules name
     further modules and it stays pending for those, or it runs or is held.
     */
    method FinishRound(moreModules: bool)
      requires pending.Some?
      modifies this`fates, this`held, this`pending
      ensures CanStep(old(State()), Arrive(moreModules))
      ensures State() == Apply(old(State()), Arrive(moreModules))
    {
      var batch := pending.value;
      pending := None;
      if moreModules {
        pending := Some(batch);
      } else {
        RunOrHoldBatch(batch);
      }
    }

    method FinishClassicScripts(moreModules: bool) returns (ghost steps: seq<Step>)
      modifies this
      ensures Legal(old(State()), steps) && State() == Run(old(State()), steps)
      ensures old(pending).None? ==> steps == []
      ensures old(pending).Some? ==> steps != [] && steps[0] == Arrive(moreModules)
      ensures old(pending).Some? && moreModules ==> |steps| == 1
      ensures old(pending).Some? && !moreModules ==> held.Some? || pending.Some? || scriptsResolved
    {
      hide Run, Legal, Apply, CanStep;
      ghost var start := State();
      if pending.None? {
        NoSteps(start);
        return [];
      }
      FinishRound(moreModules);
      FirstStep(start, Arrive(moreModules));
      steps := [Arrive(moreModules)];
      if !moreModules {
        ghost var more := StartClassicScripts();
        RunsCompose(start, steps, more);
        steps := steps + more;
      }
    }

    /**
     The stylesheets were applied, or there were none to wait for. Whatever was held
     runs now, and either a batch is pending or the scripts are resolved.
     */
    method FinishStyleSheets() returns (ghost steps: seq<Step>)
      modifies this
      ensures Legal(old(State()), steps) && State() == Run(old(State()), steps)
      ensures stylesResolved && held.None?
      ensures pending.Some? || scriptsResolved
    {
      hide Run, Legal;
      ghost var start := State();
      stylesResolved := true;
      FirstStep(start, ResolveStyles);
      ghost var more := StartClassicScripts();
      RunsCompose(start, [ResolveStyles], more);
      steps := [ResolveStyles] + more;
    }

    /** Starting a navigation drops the pending or held batch of the document still on show. */
    method CancelScripts()
      modifies this`pending, this`held, this`fates
      ensures State() == Apply(old(State()), Cancel)
    {
      ghost var g := State();
      fates := fates + if Outstanding(g).Some? then [Dropped(Outstanding(g).value)] else [];
      pending := None;
      held := None;
    }

    /** Installing a new document forgets everything about the scripts of the old one. */
    method SetSource()
      modifies this
      ensures State() == NEW_DOCUMENT
    {
      pending, held := None, None;
      stylesResolved, scriptsResolved := false, false;
      started := {};
      planned, fates := [], [];
    }
  }
}
