/**
 Running a document's scripts in order while stylesheets block execution
 (`start_classic_scripts`, `submit_script_batch`, `finish_classic_scripts`;
 "Interactions of styling and scripting", section 4.2.7 of WHATWG HTML).

 Scripts are found and fetched in batches. A batch whose sources (and module
 dependencies) are complete runs at once when the stylesheets are resolved, and
 is held otherwise. A navigation that starts while a batch is pending or held
 drops that batch, although its document stays until the new one is installed.
 */
module ScriptGate {
  import opened HttpTypes
  import opened Text

  type NodeId = nat

  const MAX_SCRIPT_ELEMENTS: nat := 4096

  /** A planned batch: the script elements it runs. */
  datatype Batch = Batch(owners: seq<NodeId>)

  /** What became of a planned batch. */
  datatype Fate = Ran(batch: Batch) | Dropped(batch: Batch)

  /** The gate of one document; `planned` and `fates` are its history. */
  datatype Gate = Gate(
    stylesResolved: bool,
    scriptsResolved: bool,
    pending: Option<Batch>,
    held: Option<Batch>,
    started: set<NodeId>,
    planned: seq<Batch>,
    fates: seq<Fate>)

  const NEW_DOCUMENT: Gate := Gate(false, false, None, None, {}, [], [])

  /** What can happen to a document's scripts, one small step at a time. */
  datatype Step =
    /** The held batch runs. */
    | RunHeld
    /** A scan found these script elements; `fetches` tells whether the batch needs the network. */
    | Scan(found: seq<NodeId>, fetches: bool)
    | StopScanning
    /** A transfer round of the pending batch ended; its modules may need another one. */
    | Arrive(moreModules: bool)
    | ResolveStyles
    | DocumentChanged
    | Cancel
    | Navigate

  function Unstarted(found: seq<NodeId>, started: set<NodeId>): (r: seq<NodeId>)
    ensures forall n :: n in r <==> n in found && n !in started
  {
    if found == [] then []
    else
      var init, n := found[..|found| - 1], found[|found| - 1];
      if n in started then Unstarted(init, started) else Unstarted(init, started) + [n]
  }

  predicate CanStep(g: Gate, s: Step) {
    match s
    case RunHeld => g.held.Some? && g.stylesResolved
    case Scan(_, _) =>
      g.held.None? && g.pending.None? && !g.scriptsResolved && |g.started| < MAX_SCRIPT_ELEMENTS
    case StopScanning =>
      g.held.None? && g.pending.None? && !g.scriptsResolved && |g.started| >= MAX_SCRIPT_ELEMENTS
    case Arrive(_) => g.pending.Some?
    case _ => true
  }

  /** A complete batch runs now or waits for the stylesheets. */
  function RunOrHold(g: Gate, batch: Batch): Gate {
    if g.stylesResolved then g.(fates := g.fates + [Ran(batch)]) else g.(held := Some(batch))
  }

  /** The batch that is planned and has neither run nor been dropped. */
  function Outstanding(g: Gate): Option<Batch> {
    if g.pending.Some? then g.pending else g.held
  }

  function Apply(g: Gate, s: Step): Gate {
    match s
    case RunHeld =>
      if g.held.Some? then g.(held := None, fates := g.fates + [Ran(g.held.value)]) else g
    case Scan(found, fetches) =>
      var owners := Unstarted(found, g.started);
      if owners == [] then g.(scriptsResolved := true)
      else
        var batch := Batch(owners);
        var next := g.(started := g.started + (set n | n in owners), planned := g.planned + [batch]);
        if fetches then next.(pending := Some(batch)) else RunOrHold(next, batch)
    case StopScanning => g.(scriptsResolved := true)
    case Arrive(moreModules) =>
      if g.pending.None? || moreModules then g else RunOrHold(g.(pending := None), g.pending.value)
    case ResolveStyles => g.(stylesResolved := true)
    case DocumentChanged => g.(scriptsResolved := false)
    case Cancel =>
      var dropped := if Outstanding(g).Some? then [Dropped(Outstanding(g).value)] else [];
      g.(pending := None, held := None, fates := g.fates + dropped)
    case Navigate => NEW_DOCUMENT
  }

  function Run(g: Gate, steps: seq<Step>): Gate {
    if steps == [] then g else Apply(Run(g, steps[..|steps| - 1]), steps[|steps| - 1])
  }

  /** Every step of the sequence is possible where it is taken. */
  predicate Legal(g: Gate, steps: seq<Step>) {
    steps == [] ||
    (Legal(g, steps[..|steps| - 1]) && CanStep(Run(g, steps[..|steps| - 1]), steps[|steps| - 1]))
  }

  // ---- Composing runs ---------------------------------------------------------------------------

  lemma NoSteps(g: Gate)
    ensures Legal(g, []) && Run(g, []) == g
  {
  }

  lemma OneMore(g: Gate, steps: seq<Step>, s: Step)
    ensures Run(g, steps + [s]) == Apply(Run(g, steps), s)
    ensures Legal(g, steps + [s]) <==> Legal(g, steps) && CanStep(Run(g, steps), s)
  {
    hide Apply, CanStep;
    assert (steps + [s])[..|steps|] == steps;
  }

  lemma FirstStep(g: Gate, s: Step)
    requires CanStep(g, s)
    ensures Legal(g, [s]) && Run(g, [s]) == Apply(g, s)
  {
    hide Run, Legal, Apply, CanStep;
    NoSteps(g);
    OneMore(g, [], s);
    assert [] + [s] == [s];
  }

  lemma {:induction false} RunsCompose(g: Gate, a: seq<Step>, b: seq<Step>)
    ensures Run(g, a + b) == Run(Run(g, a), b)
    ensures Legal(g, a + b) <==> Legal(g, a) && Legal(Run(g, a), b)
    decreases |b|
  {
    hide Run, Legal, Apply, CanStep;
    if b == [] {
      NoSteps(Run(g, a));
      assert a + b == a;
    } else {
      var init, s := b[..|b| - 1], b[|b| - 1];
      RunsCompose(g, a, init);
      InitLast(b);
      OneMore(Run(g, a), init, s);
      OneMore(g, a + init, s);
      assert a + init + [s] == a + (init + [s]);
    }
  }

  // ---- The invariant of one document ------------------------------------------------------------

  /** What became of the planned batches, in planning order: at most the last one is outstanding. */
  ghost predicate FatesFollowPlans(planned: seq<Batch>, fates: seq<Fate>, outstanding: Option<Batch>) {
    && |planned| == |fates| + (if outstanding.Some? then 1 else 0)
    && (forall i :: 0 <= i < |fates| ==> fates[i].batch == planned[i])
    && (outstanding.Some? ==> planned[|fates|] == outstanding.value)
  }

  predicate IsPlanned(planned: seq<Batch>, n: NodeId) {
    exists i :: 0 <= i < |planned| && n in planned[i].owners
  }

  /** The planned batches have script elements, exactly the started ones, and no two share one. */
  ghost predicate PlansAreDisjoint(planned: seq<Batch>, started: set<NodeId>) {
    && (forall i :: 0 <= i < |planned| ==> planned[i].owners != [])
    && (forall n :: n in started <==> IsPlanned(planned, n))
    && (forall i, j, n :: 0 <= i < j < |planned| && n in planned[i].owners ==> n !in planned[j].owners)
  }

  ghost predicate Inv(g: Gate) {
    // At most one of the two slots is taken, so no prepared batch is overwritten.
    && !(g.pending.Some? && g.held.Some?)
    // A document with an outstanding batch never counts as done with its scripts.
    && (Outstanding(g).Some? ==> !g.scriptsResolved)
    // Nothing ran before the stylesheets were resolved.
    && (!g.stylesResolved ==> forall i :: 0 <= i < |g.fates| ==> g.fates[i].Dropped?)
    && FatesFollowPlans(g.planned, g.fates, Outstanding(g))
    && PlansAreDisjoint(g.planned, g.started)
  }

  lemma ScanKeepsInv(g: Gate, found: seq<NodeId>, fetches: bool)
    requires Inv(g) && CanStep(g, Scan(found, fetches))
    ensures Inv(Apply(g, Scan(found, fetches)))
  {
    hide PlansAreDisjoint, FatesFollowPlans;
    var owners := Unstarted(found, g.started);
    if owners != [] {
      PlanExtends(g.planned, g.started, owners);
      PlanIsOutstanding(g.planned, g.fates, Batch(owners));
    }
  }

  /** A new plan is outstanding until it has met its fate. */
  lemma PlanIsOutstanding(planned: seq<Batch>, fates: seq<Fate>, batch: Batch)
    requires FatesFollowPlans(planned, fates, None)
    ensures FatesFollowPlans(planned + [batch], fates, Some(batch))
    ensures FatesFollowPlans(planned + [batch], fates + [Ran(batch)], None)
  {
  }

  /** Planning elements that were not started keeps plans disjoint and matched with the started elements. */
  lemma PlanExtends(planned: seq<Batch>, started: set<NodeId>, owners: seq<NodeId>)
    requires PlansAreDisjoint(planned, started)
    requires owners != [] && forall n :: n in owners ==> n !in started
    ensures PlansAreDisjoint(planned + [Batch(owners)], started + (set n | n in owners))
  {
    var more := planned + [Batch(owners)];
    assert more[|planned|] == Batch(owners) && forall i :: 0 <= i < |planned| ==> more[i] == planned[i];
    forall n | IsPlanned(planned, n) || n in owners ensures IsPlanned(more, n) {
      if IsPlanned(planned, n) {
        var i :| 0 <= i < |planned| && n in planned[i].owners;
        assert n in more[i].owners;
      } else {
        assert n in more[|planned|].owners;
      }
    }
    forall i, j, n | 0 <= i < j < |more| && n in more[i].owners ensures n !in more[j].owners {
      if j == |planned| {
        assert IsPlanned(planned, n);
      }
    }
  }

  lemma StepKeepsInv(g: Gate, s: Step)
    requires Inv(g) && CanStep(g, s)
    ensures Inv(Apply(g, s))
  {
    match s {
      case Scan(found, fetches) => ScanKeepsInv(g, found, fetches);
      case _ => hide PlansAreDisjoint;
    }
  }

  lemma {:induction false} RunKeepsInv(g: Gate, steps: seq<Step>)
    requires Inv(g) && Legal(g, steps)
    ensures Inv(Run(g, steps))
  {
    hide Inv, Run, Legal, Apply, CanStep;
    if steps == [] {
      NoSteps(g);
    } else {
      var init, s := steps[..|steps| - 1], steps[|steps| - 1];
      InitLast(steps);
      OneMore(g, init, s);
      RunKeepsInv(g, init);
      StepKeepsInv(Run(g, init), s);
    }
  }

  // ---- What holds over every run ----------------------------------------------------------------

  /**
   From a new document on: the started script elements are exactly the planned ones; the
   planned batches meet their fates in planning order,
   so each runs at most once and each script element is in at most one batch that
   runs; none runs before the stylesheets are resolved; and once the scripts count
   as resolved, every planned batch has run or was dropped.
   */
  lemma ScriptsRunInOrder(steps: seq<Step>)
    requires Legal(NEW_DOCUMENT, steps)
    ensures
      var g := Run(NEW_DOCUMENT, steps);
      && |g.fates| <= |g.planned| <= |g.fates| + 1
      && (forall i :: 0 <= i < |g.fates| ==> g.fates[i].batch == g.planned[i])
      && (forall n :: n in g.started <==> IsPlanned(g.planned, n))
      && (forall i, j, n :: 0 <= i < j < |g.planned| && n in g.planned[i].owners ==> n !in g.planned[j].owners)
      && (forall i :: 0 <= i < |g.fates| && g.fates[i].Ran? ==> g.stylesResolved)
      && (|g.planned| > |g.fates| <==> g.pending.Some? || g.held.Some?)
      && !(g.pending.Some? && g.held.Some?)
      && (g.scriptsResolved ==> |g.planned| == |g.fates|)
  {
    hide Run, Legal;
    RunKeepsInv(NEW_DOCUMENT, steps);
  }

  /**
   One step only appends to the history, except for the step that replaces the
   document; and only a cancellation drops a batch.
   */
  lemma StepAccumulates(g: Gate, s: Step)
    requires !s.Navigate?
    ensures g.fates <= Apply(g, s).fates && g.planned <= Apply(g, s).planned
    ensures g.stylesResolved ==> Apply(g, s).stylesResolved
    ensures forall i :: |g.fates| <= i < |Apply(g, s).fates| ==> (Apply(g, s).fates[i].Dropped? <==> s.Cancel?)
  {
  }

  /** Within one document what ran, stays run: histories only grow. */
  lemma {:induction false} HistoryAccumulates(g: Gate, more: seq<Step>)
    requires forall i :: 0 <= i < |more| ==> !more[i].Navigate?
    ensures g.fates <= Run(g, more).fates
    ensures g.planned <= Run(g, more).planned
    ensures g.stylesResolved ==> Run(g, more).stylesResolved
    ensures (forall i :: 0 <= i < |more| ==> !more[i].Cancel?) ==>
              forall i :: |g.fates| <= i < |Run(g, more).fates| ==> Run(g, more).fates[i].Ran?
  {
    hide Run, Legal, Apply, CanStep;
    if more == [] {
      NoSteps(g);
    } else {
      var init, s := more[..|more| - 1], more[|more| - 1];
      InitLast(more);
      OneMore(g, init, s);
      HistoryAccumulates(g, init);
      StepAccumulates(Run(g, init), s);
    }
  }

  /**
   A dropped batch never runs, and neither do its script elements in any other batch:
   when the navigation that dropped it does not replace the document, they are lost.
   */
  lemma DroppedScriptsNeverRun(steps: seq<Step>, more: seq<Step>, i: nat, n: NodeId)
    requires Legal(NEW_DOCUMENT, steps + more)
    requires forall k :: 0 <= k < |more| ==> !more[k].Navigate?
    requires i < |Run(NEW_DOCUMENT, steps).fates| && Run(NEW_DOCUMENT, steps).fates[i].Dropped?
    requires n in Run(NEW_DOCUMENT, steps).fates[i].batch.owners
    ensures forall j :: 0 <= j < |Run(NEW_DOCUMENT, steps + more).fates| ==>
              var fate := Run(NEW_DOCUMENT, steps + more).fates[j];
              fate.Ran? ==> n !in fate.batch.owners
  {
    hide Run, Legal, Apply, CanStep;
    var g, after := Run(NEW_DOCUMENT, steps), Run(NEW_DOCUMENT, steps + more);
    RunsCompose(NEW_DOCUMENT, steps, more);
    HistoryAccumulates(g, more);
    RunKeepsInv(NEW_DOCUMENT, steps + more);
    assert after.fates[i] == g.fates[i];
    forall j | 0 <= j < |after.fates| && after.fates[j].Ran? ensures n !in after.fates[j].batch.owners {
      assert after.planned[j].owners == after.fates[j].batch.owners;
      assert after.planned[i].owners == after.fates[i].batch.owners;
    }
  }

  // ---- Scripts run in the order found -------------------------------------------------------------------

  /** These are the positions of the elements that were not started. */
  ghost predicate AreUnstarted(found: seq<NodeId>, started: set<NodeId>, at: seq<nat>) {
    && (forall i :: 0 <= i < |at| ==> at[i] < |found| && found[at[i]] !in started)
    && (forall p :: 0 <= p < |found| && found[p] !in started ==> p in at)
  }

  lemma OneMoreKept(all: seq<NodeId>, kept: seq<NodeId>, at: seq<nat>, started: set<NodeId>, n: NodeId)
    requires StandsAt(all, kept, at) && AreUnstarted(all, started, at) && n !in started
    ensures StandsAt(all + [n], kept + [n], at + [|all|]) && AreUnstarted(all + [n], started, at + [|all|])
  {
    StandsAtSnoc(all, kept, at, n);
    var more := at + [|all|];
    assert more[|at|] == |all| && forall i :: 0 <= i < |at| ==> more[i] == at[i];
  }

  lemma OneMoreLeft(all: seq<NodeId>, kept: seq<NodeId>, at: seq<nat>, started: set<NodeId>, n: NodeId)
    requires StandsAt(all, kept, at) && AreUnstarted(all, started, at) && n in started
    ensures StandsAt(all + [n], kept, at) && AreUnstarted(all + [n], started, at)
  {
    StandsAtStill(all, kept, at, n);
  }

  lemma UnstartedSnoc(found: seq<NodeId>, n: NodeId, started: set<NodeId>)
    ensures Unstarted(found + [n], started) ==
            if n in started then Unstarted(found, started) else Unstarted(found, started) + [n]
  {
    assert (found + [n])[..|found|] == found;
  }

  /** A batch has every element that was not started, at every place where it was found, in the order found. */
  lemma {:induction false} UnstartedKeepsOrder(found: seq<NodeId>, started: set<NodeId>) returns (at: seq<nat>)
    ensures StandsAt(found, Unstarted(found, started), at) && AreUnstarted(found, started, at)
    decreases |found|
  {
    hide Unstarted, StandsAt, AreUnstarted;
    if found == [] {
      at := [];
      NothingFound(started);
    } else {
      var init, n := found[..|found| - 1], found[|found| - 1];
      InitLast(found);
      var before := UnstartedKeepsOrder(init, started);
      at := OrderGrows(init, started, before, n);
    }
  }

  lemma OrderGrows(init: seq<NodeId>, started: set<NodeId>, before: seq<nat>, n: NodeId) returns (at: seq<nat>)
    requires StandsAt(init, Unstarted(init, started), before) && AreUnstarted(init, started, before)
    ensures StandsAt(init + [n], Unstarted(init + [n], started), at) && AreUnstarted(init + [n], started, at)
  {
    hide Unstarted, StandsAt, AreUnstarted;
    UnstartedSnoc(init, n, started);
    if n in started {
      OneMoreLeft(init, Unstarted(init, started), before, started, n);
      at := before;
    } else {
      OneMoreKept(init, Unstarted(init, started), before, started, n);
      at := before + [|init|];
    }
  }

  lemma NothingFound(started: set<NodeId>)
    ensures StandsAt([], Unstarted([], started), []) && AreUnstarted([], started, [])
  {
  }

  ghost predicate OnceEach(ns: seq<NodeId>) {
    forall i, j :: 0 <= i < j < |ns| ==> ns[i] != ns[j]
  }

  /** The script elements that ran, one after the other. */
  function Executed(fates: seq<Fate>): seq<NodeId> {
    if fates == [] then []
    else
      var fate := fates[|fates| - 1];
      Executed(fates[..|fates| - 1]) + if fate.Ran? then fate.batch.owners else []
  }

  /** Wherever both of these stand, the first one stands before the other. */
  ghost predicate Precedes(executed: seq<NodeId>, a: NodeId, b: NodeId) {
    forall u, v :: 0 <= u < |executed| && 0 <= v < |executed| && executed[u] == a && executed[v] == b ==> u < v
  }

  /** Which batch an executed element belongs to, and its place in it. */
  lemma {:induction false} ExecutedIn(fates: seq<Fate>, u: nat) returns (f: nat, i: nat)
    requires u < |Executed(fates)|
    ensures f < |fates| && fates[f].Ran? && i < |fates[f].batch.owners|
    ensures u == |Executed(fates[..f])| + i && fates[f].batch.owners[i] == Executed(fates)[u]
    decreases |fates|
  {
    var last := |fates| - 1;
    if u < |Executed(fates[..last])| {
      f, i := ExecutedIn(fates[..last], u);
      assert fates[..last][..f] == fates[..f];
    } else {
      f, i := last, u - |Executed(fates[..last])|;
    }
  }

  lemma {:induction false} ExecutedAt(fates: seq<Fate>, f: nat, i: nat)
    requires f < |fates| && fates[f].Ran? && i < |fates[f].batch.owners|
    ensures
      var u := |Executed(fates[..f])| + i;
      u < |Executed(fates)| && Executed(fates)[u] == fates[f].batch.owners[i]
    decreases |fates|
  {
    var last := |fates| - 1;
    if f < last {
      ExecutedAt(fates[..last], f, i);
      assert fates[..last][..f] == fates[..f];
    }
  }

  /** What one scan plans, if anything. */
  lemma ScanPlans(g: Gate, found: seq<NodeId>, fetches: bool, n: NodeId)
    requires n in found && n !in g.started
    ensures Apply(g, Scan(found, fetches)).planned == g.planned + [Batch(Unstarted(found, g.started))]
  {
  }

  /**
   Scripts run in the order in which they were found. For any scan of a document and any
   two scripts that it found and that were not started, at whatever positions: they are
   in one batch; and whenever that batch has run, the one found first ran first, however
   the run went on.
   */
  lemma ScriptsRunAsFound(steps: seq<Step>, found: seq<NodeId>, fetches: bool, more: seq<Step>, p: nat, q: nat)
    requires Legal(NEW_DOCUMENT, steps + ([Scan(found, fetches)] + more)) && SameDocument(more)
    requires OnceEach(found) && p < q < |found|
    requires found[p] !in Run(NEW_DOCUMENT, steps).started && found[q] !in Run(NEW_DOCUMENT, steps).started
    ensures
      var m := |Run(NEW_DOCUMENT, steps).planned|;
      var after := Run(NEW_DOCUMENT, steps + ([Scan(found, fetches)] + more));
      && m < |after.planned| && found[p] in after.planned[m].owners && found[q] in after.planned[m].owners
      && (m < |after.fates| && after.fates[m].Ran? ==>
            found[p] in Executed(after.fates) && found[q] in Executed(after.fates))
      && Precedes(Executed(after.fates), found[p], found[q])
  {
    hide Run, Legal, Apply, CanStep, Unstarted, Executed, Precedes;
    var scan := Scan(found, fetches);
    var g := Run(NEW_DOCUMENT, steps);
    var all := steps + ([scan] + more);
    var after := Run(NEW_DOCUMENT, all);
    var m := |g.planned|;
    var batch := Batch(Unstarted(found, g.started));
    RunsCompose(NEW_DOCUMENT, steps, [scan] + more);
    RunsCompose(g, [scan], more);
    NoSteps(g);
    OneMore(g, [], scan);
    assert [] + [scan] == [scan];
    ScanPlans(g, found, fetches, found[p]);
    HistoryAccumulates(Apply(g, scan), more);
    assert after.planned[m] == batch;
    NewDocumentInv();
    RunKeepsInv(NEW_DOCUMENT, all);
    var at := UnstartedKeepsOrder(found, g.started);
    var i :| 0 <= i < |at| && at[i] == p;
    var j :| 0 <= j < |at| && at[j] == q;
    assert i < j;
    BatchRunsInOrder(after, m, found, at, i, j);
  }

  /** In a document, the elements of one batch run in the order of the batch. */
  lemma BatchRunsInOrder(g: Gate, m: nat, found: seq<NodeId>, at: seq<nat>, i: nat, j: nat)
    requires Inv(g) && m < |g.planned| && OnceEach(found) && StandsAt(found, g.planned[m].owners, at)
    requires i < j < |at|
    ensures m < |g.fates| && g.fates[m].Ran? ==> found[at[i]] in Executed(g.fates) && found[at[j]] in Executed(g.fates)
    ensures Precedes(Executed(g.fates), found[at[i]], found[at[j]])
  {
    hide Executed;
    var owners := g.planned[m].owners;
    if m < |g.fates| && g.fates[m].Ran? {
      ExecutedAt(g.fates, m, i);
      ExecutedAt(g.fates, m, j);
    }
    forall u, v | 0 <= u < |Executed(g.fates)| && 0 <= v < |Executed(g.fates)|
                  && Executed(g.fates)[u] == found[at[i]] && Executed(g.fates)[v] == found[at[j]]
      ensures u < v
    {
      PlaceOf(g, m, found, at, i, u);
      PlaceOf(g, m, found, at, j, v);
    }
  }

  /** An element of batch `m` runs only with that batch, at its place there. */
  lemma PlaceOf(g: Gate, m: nat, found: seq<NodeId>, at: seq<nat>, i: nat, u: nat)
    requires Inv(g) && m < |g.planned| && OnceEach(found) && StandsAt(found, g.planned[m].owners, at) && i < |at|
    requires u < |Executed(g.fates)| && Executed(g.fates)[u] == found[at[i]]
    ensures m < |g.fates| && u == |Executed(g.fates[..m])| + i
  {
    hide Executed;
    var f, h := ExecutedIn(g.fates, u);
    var owners := g.planned[m].owners;
    assert owners[i] == found[at[i]];
    assert g.planned[f].owners == g.fates[f].batch.owners;
    assert g.planned[f].owners[h] in g.planned[f].owners && owners[i] in owners;
    assert f == m;
    assert found[at[h]] == found[at[i]];
    assert at[h] == at[i];
  }

  /** A document counts as done with its scripts once a scan finds nothing new, or 4096 elements were started. */
  lemma ResolvedMeans(g: Gate, s: Step)
    requires CanStep(g, s) && !g.scriptsResolved && Apply(g, s).scriptsResolved
    ensures (s.Scan? && forall n :: n in s.found ==> n in g.started) || |g.started| >= 4096
  {
    if s.Scan? {
      assert forall n :: n in s.found && n !in g.started ==> n in Unstarted(s.found, g.started);
    }
  }

  // ---- Exactly which scripts a cancellation loses -------------------------------------------------------

  /** The element is in the batch that has neither run nor been dropped. */
  predicate IsWaiting(g: Gate, n: NodeId) {
    Outstanding(g).Some? && n in Outstanding(g).value.owners
  }

  ghost predicate HasRun(g: Gate, n: NodeId) {
    exists i :: 0 <= i < |g.fates| && g.fates[i].Ran? && n in g.fates[i].batch.owners
  }

  ghost predicate IsLost(g: Gate, n: NodeId) {
    exists i :: 0 <= i < |g.fates| && g.fates[i].Dropped? && n in g.fates[i].batch.owners
  }

  ghost predicate SameDocument(steps: seq<Step>) {
    forall i :: 0 <= i < |steps| ==> !steps[i].Navigate?
  }

  /** Some continuation within the document runs the element. */
  ghost predicate CanStillRun(g: Gate, n: NodeId) {
    exists more :: RunsWith(g, more, n)
  }

  ghost predicate RunsWith(g: Gate, more: seq<Step>, n: NodeId) {
    Legal(g, more) && SameDocument(more) && HasRun(Run(g, more), n)
  }

  /** A started element waits, has run, or is lost, and is only one of these. */
  lemma StartedElement(g: Gate, n: NodeId)
    requires Inv(g) && n in g.started
    ensures IsWaiting(g, n) || HasRun(g, n) || IsLost(g, n)
    ensures IsLost(g, n) ==> !HasRun(g, n) && !IsWaiting(g, n)
  {
    assert IsPlanned(g.planned, n);
    var i :| 0 <= i < |g.planned| && n in g.planned[i].owners;
    if i < |g.fates| {
      assert g.fates[i].batch == g.planned[i];
    }
    if IsLost(g, n) {
      var j :| 0 <= j < |g.fates| && g.fates[j].Dropped? && n in g.fates[j].batch.owners;
      assert g.planned[j] == g.fates[j].batch;
      forall k | 0 <= k < |g.fates| && g.fates[k].Ran? ensures n !in g.fates[k].batch.owners {
        assert g.planned[k] == g.fates[k].batch;
      }
    }
  }

  lemma CancelLoses(g: Gate, n: NodeId)
    requires IsWaiting(g, n) || IsLost(g, n)
    ensures IsLost(Apply(g, Cancel), n)
  {
    var after := Apply(g, Cancel);
    if IsLost(g, n) {
      var i :| 0 <= i < |g.fates| && g.fates[i].Dropped? && n in g.fates[i].batch.owners;
      assert after.fates[i] == g.fates[i];
    } else {
      assert after.fates[|g.fates|] == Dropped(Outstanding(g).value);
    }
  }

  lemma CancelKeepsRun(g: Gate, n: NodeId)
    ensures HasRun(g, n) ==> HasRun(Apply(g, Cancel), n)
  {
    if i :| 0 <= i < |g.fates| && g.fates[i].Ran? && n in g.fates[i].batch.owners {
      assert Apply(g, Cancel).fates[i] == g.fates[i];
    }
  }

  /** What is lost stays lost: no continuation within the document runs it. */
  lemma LostNeverRuns(g: Gate, n: NodeId)
    requires Inv(g) && n in g.started && IsLost(g, n)
    ensures !CanStillRun(g, n)
  {
    hide Run, Legal, Apply, CanStep, Inv;
    forall more | Legal(g, more) && SameDocument(more) ensures !HasRun(Run(g, more), n) {
      var after := Run(g, more);
      RunKeepsInv(g, more);
      HistoryAccumulates(g, more);
      StartsAccumulate(g, more);
      var i :| 0 <= i < |g.fates| && g.fates[i].Dropped? && n in g.fates[i].batch.owners;
      assert after.fates[i] == g.fates[i];
      StartedElement(after, n);
    }
  }

  lemma {:induction false} StartsAccumulate(g: Gate, more: seq<Step>)
    requires SameDocument(more)
    ensures g.started <= Run(g, more).started
  {
    hide Run, Legal, Apply, CanStep;
    if more == [] {
      NoSteps(g);
    } else {
      var init, s := more[..|more| - 1], more[|more| - 1];
      InitLast(more);
      OneMore(g, init, s);
      StartsAccumulate(g, init);
      StepStarts(Run(g, init), s);
    }
  }

  lemma StepStarts(g: Gate, s: Step)
    requires !s.Navigate?
    ensures g.started <= Apply(g, s).started
  {
  }

  /** A waiting element can run: the stylesheets resolve and its sources arrive. */
  lemma WaitingCanRun(g: Gate, n: NodeId)
    requires Inv(g) && IsWaiting(g, n)
    ensures CanStillRun(g, n)
  {
    hide Run, Legal;
    var resolved := Apply(g, ResolveStyles);
    FirstStep(g, ResolveStyles);
    var last := if g.pending.Some? then Arrive(false) else RunHeld;
    OneMore(g, [ResolveStyles], last);
    var more := [ResolveStyles] + [last];
    assert Run(g, more) == Apply(resolved, last);
    assert Run(g, more).fates[|g.fates|] == Ran(Outstanding(g).value);
    assert RunsWith(g, more, n);
  }

  lemma RanStaysRun(g: Gate, n: NodeId)
    requires HasRun(g, n)
    ensures CanStillRun(g, n)
  {
    hide Run, Legal;
    NoSteps(g);
    assert RunsWith(g, [], n);
  }

  /**
   Exactly which scripts a cancellation loses, when the document stays. In every
   reachable document a started element can still run, or has run, unless it was lost
   before; after a cancellation it cannot run any more, and has not run, if and only if
   it was waiting in the outstanding batch or was lost before.
   */
  lemma CancelLosesExactlyTheWaiting(steps: seq<Step>, n: NodeId)
    requires Legal(NEW_DOCUMENT, steps) && n in Run(NEW_DOCUMENT, steps).started
    ensures
      var g := Run(NEW_DOCUMENT, steps);
      && (CanStillRun(g, n) <==> !IsLost(g, n))
      && (!CanStillRun(Apply(g, Cancel), n) <==> IsWaiting(g, n) || IsLost(g, n))
  {
    hide Run, Legal, Apply, Inv, HasRun, IsLost, CanStillRun, IsWaiting;
    var g := Run(NEW_DOCUMENT, steps);
    NewDocumentInv();
    RunKeepsInv(NEW_DOCUMENT, steps);
    StartedElement(g, n);
    var after := Apply(g, Cancel);
    StepKeepsInv(g, Cancel);
    StepStarts(g, Cancel);
    if IsWaiting(g, n) || IsLost(g, n) {
      CancelLoses(g, n);
      LostNeverRuns(after, n);
      if IsLost(g, n) {
        LostNeverRuns(g, n);
      } else {
        WaitingCanRun(g, n);
      }
    } else {
      RanStaysRun(g, n);
      CancelKeepsRun(g, n);
      RanStaysRun(after, n);
    }
  }

  lemma NewDocumentInv()
    ensures Inv(NEW_DOCUMENT)
  {
  }

  lemma FoundThenCancelled(n: NodeId)
    ensures
      var found := Apply(NEW_DOCUMENT, Scan([n], true));
      && CanStep(NEW_DOCUMENT, Scan([n], true)) && CanStep(found, Cancel)
      && Apply(found, Cancel).fates == [Dropped(Batch([n]))] && n in Apply(found, Cancel).started
  {
    assert [n][..0] == [] && Unstarted([], {}) == [];
    assert Unstarted([n], {}) == [n];
  }

  /** A script found once, fetched, and cancelled before it arrives is lost while its document stays. */
  lemma AScriptIsLost(n: NodeId)
    ensures Legal(NEW_DOCUMENT, [Scan([n], true), Cancel])
    ensures Run(NEW_DOCUMENT, [Scan([n], true), Cancel]).fates == [Dropped(Batch([n]))]
    ensures !CanStillRun(Run(NEW_DOCUMENT, [Scan([n], true), Cancel]), n)
  {
    hide Run, Legal, Inv, CanStillRun, Apply, CanStep;
    var found := Scan([n], true);
    FoundThenCancelled(n);
    FirstStep(NEW_DOCUMENT, found);
    OneMore(NEW_DOCUMENT, [found], Cancel);
    assert [found] + [Cancel] == [found, Cancel];
    var g := Run(NEW_DOCUMENT, [found, Cancel]);
    NewDocumentInv();
    RunKeepsInv(NEW_DOCUMENT, [found, Cancel]);
    assert g.fates[0] == Dropped(Batch([n]));
    LostNeverRuns(g, n);
  }
}
