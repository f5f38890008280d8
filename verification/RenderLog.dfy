/**
 What a tab's rendering history has to look like, independently of how the
 coordinator keeps its state: a log of requests that were coalesced, frames that
 were submitted and frames that were installed.
 */
module RenderLog {
  import opened HttpTypes

  datatype Viewport = Viewport(width: nat, height: nat) {
    predicate IsEmpty() {
      width == 0 || height == 0
    }
  }

  /** Everything that decides whether a finished frame may be installed. */
  datatype Identity = Identity(generation: nat, serial: nat, viewport: Viewport, scrollY: int, scale: real)

  datatype Cause = ZeroViewport | Navigation | TabClosed | WorkerStopped

  datatype Entry =
    /** A full-render request found the worker busy and was remembered. */
    | Coalesced(viewport: Viewport)
    /** A full frame was submitted on a direct request. */
    | Submitted(id: Identity)
    /** A full frame was submitted for the remembered request. */
    | Resubmitted(id: Identity)
    | ScrollSubmitted(id: Identity)
    | Committed(id: Identity)
    | ScrollCommitted(id: Identity)
    | Navigated
    /** The remembered request was dropped. */
    | Abandoned(cause: Cause)

  type Log = seq<Entry>

  /** What the history so far determines. */
  datatype Summary = Summary(
    owed: Option<Viewport>,
    serial: nat,
    newest: nat,
    fulls: set<Identity>,
    scroll: Option<Identity>,
    committed: Option<Identity>)

  const NOTHING: Summary := Summary(None, 1, 0, {}, None, None)

  function Extend(s: Summary, e: Entry): Summary {
    match e
    case Coalesced(viewport) => s.(owed := Some(viewport))
    case Submitted(id) => s.(newest := id.generation, fulls := s.fulls + {id}, scroll := None)
    case Resubmitted(id) => s.(owed := None, newest := id.generation, fulls := s.fulls + {id}, scroll := None)
    case ScrollSubmitted(id) => s.(newest := id.generation, scroll := Some(id))
    case Committed(id) => s.(scroll := None, committed := Some(id))
    case ScrollCommitted(id) => s.(scroll := None)
    case Navigated => s.(serial := s.serial + 1, committed := None, scroll := None)
    case Abandoned(_) => s.(owed := None)
  }

  function Summarize(log: Log): Summary {
    if log == [] then NOTHING else Extend(Summarize(log[..|log| - 1]), log[|log| - 1])
  }

  /** An entry the coordinator may add after a history with that summary. */
  predicate Allowed(s: Summary, e: Entry) {
    match e
    case Coalesced(_) => true
    case Submitted(id) => id.generation > s.newest && id.serial == s.serial
    case Resubmitted(id) => id.generation > s.newest && id.serial == s.serial && s.owed == Some(id.viewport)
    case ScrollSubmitted(id) => id.generation > s.newest && id.serial == s.serial
    case Committed(id) =>
      && id in s.fulls && id.serial == s.serial
      && (s.committed.Some? ==> id.generation > s.committed.value.generation)
    case ScrollCommitted(id) => s.scroll == Some(id)
    case Navigated => s.owed == None
    case Abandoned(_) => s.owed.Some?
  }

  predicate WellFormed(log: Log) {
    log == [] || (WellFormed(log[..|log| - 1]) && Allowed(Summarize(log[..|log| - 1]), log[|log| - 1]))
  }

  lemma AppendEntry(log: Log, e: Entry)
    ensures Summarize(log + [e]) == Extend(Summarize(log), e)
    ensures WellFormed(log) && Allowed(Summarize(log), e) ==> WellFormed(log + [e])
  {
    assert (log + [e])[..|log|] == log;
  }

  lemma {:induction false} WellFormedPrefix(log: Log, n: nat)
    requires WellFormed(log) && n <= |log|
    ensures WellFormed(log[..n])
    ensures n < |log| ==> Allowed(Summarize(log[..n]), log[n])
    decreases |log|
  {
    if n < |log| {
      var init := log[..|log| - 1];
      if n < |init| {
        WellFormedPrefix(init, n);
        assert init[..n] == log[..n];
      } else {
        assert init == log[..n];
      }
    } else {
      assert log[..n] == log;
    }
  }

  lemma SummaryNext(log: Log, n: nat)
    requires n < |log|
    ensures Summarize(log[..n + 1]) == Extend(Summarize(log[..n]), log[n])
  {
    assert log[..n + 1][..n] == log[..n];
  }

  // ---- No repaint is lost or duplicated ------------------------------------------------------

  /** Coalesced requests that started a new burst, because none was outstanding. */
  function Bursts(log: Log): nat {
    if log == [] then 0
    else
      var init := log[..|log| - 1];
      Bursts(init) + if log[|log| - 1].Coalesced? && Summarize(init).owed.None? then 1 else 0
  }

  function Resubmissions(log: Log): nat {
    if log == [] then 0 else Resubmissions(log[..|log| - 1]) + if log[|log| - 1].Resubmitted? then 1 else 0
  }

  function Abandonments(log: Log): nat {
    if log == [] then 0 else Abandonments(log[..|log| - 1]) + if log[|log| - 1].Abandoned? then 1 else 0
  }

  /** Every burst of coalesced requests ends in exactly one resubmission or one abandonment, or is still owed. */
  lemma {:induction false} BurstsAreConserved(log: Log)
    requires WellFormed(log)
    ensures Bursts(log) == Resubmissions(log) + Abandonments(log) + if Summarize(log).owed.Some? then 1 else 0
  {
    if log != [] {
      BurstsAreConserved(log[..|log| - 1]);
    }
  }

  /** The last coalesced request before position `n`, with nothing settling it in between. */
  ghost predicate LastRequest(log: Log, n: nat, p: nat) {
    && p < n <= |log| && log[p].Coalesced?
    && forall q :: p < q < n ==> !log[q].Coalesced? && !log[q].Resubmitted? && !log[q].Abandoned?
  }

  lemma {:induction false} OwedIsLastRequest(log: Log, n: nat)
    requires n <= |log| && Summarize(log[..n]).owed.Some?
    ensures exists p: nat :: LastRequest(log, n, p) && log[p].viewport == Summarize(log[..n]).owed.value
  {
    if n > 0 {
      SummaryNext(log, n - 1);
      if log[n - 1].Coalesced? {
        assert LastRequest(log, n, n - 1);
      } else {
        OwedIsLastRequest(log, n - 1);
        var p: nat :| LastRequest(log, n - 1, p) && log[p].viewport == Summarize(log[..n - 1]).owed.value;
        assert LastRequest(log, n, p);
      }
    }
  }

  /** A resubmission carries the viewport of the last request it stands for. */
  lemma ResubmissionCarriesLastRequest(log: Log, n: nat)
    requires WellFormed(log) && n < |log| && log[n].Resubmitted?
    ensures exists p: nat :: LastRequest(log, n, p) && log[n].id.viewport == log[p].viewport
  {
    WellFormedPrefix(log, n);
    OwedIsLastRequest(log, n);
  }

  // ---- Frame order ----------------------------------------------------------------------------

  /** Submitted frames by generation: newer ones never belong to an older document. */
  ghost predicate Ordered(s: Summary) {
    && (forall id :: id in s.fulls ==> id.generation <= s.newest && id.serial <= s.serial)
    && (forall a, b :: a in s.fulls && b in s.fulls && a.generation <= b.generation ==> a.serial <= b.serial)
  }

  lemma {:induction false} FullsAreOrdered(log: Log)
    requires WellFormed(log)
    ensures Ordered(Summarize(log))
  {
    if log != [] {
      FullsAreOrdered(log[..|log| - 1]);
    }
  }

  lemma {:induction false} SummaryGrows(log: Log, m: nat, n: nat)
    requires m <= n <= |log|
    ensures Summarize(log[..m]).fulls <= Summarize(log[..n]).fulls
    ensures Summarize(log[..m]).serial <= Summarize(log[..n]).serial
  {
    if m < n {
      SummaryGrows(log, m, n - 1);
      SummaryNext(log, n - 1);
    }
  }

  /** Unless the document changed, the newest installed frame is at least as new as any earlier one. */
  lemma {:induction false} CommittedKeeps(log: Log, p: nat, n: nat)
    requires WellFormed(log) && p < n <= |log| && log[p].Committed?
    requires Summarize(log[..n]).serial == Summarize(log[..p]).serial
    ensures var c := Summarize(log[..n]).committed; c.Some? && c.value.generation >= log[p].id.generation
  {
    SummaryNext(log, n - 1);
    WellFormedPrefix(log, n - 1);
    if p < n - 1 {
      SummaryGrows(log, p, n - 1);
      CommittedKeeps(log, p, n - 1);
    }
  }

  /**
   Installed full frames carry the serial of the document on screen, and their
   generations strictly increase over the whole history, across documents too.
   */
  lemma CommitsAdvance(log: Log, p: nat, q: nat)
    requires WellFormed(log) && p < q < |log| && log[p].Committed? && log[q].Committed?
    ensures log[p].id.generation < log[q].id.generation
    ensures log[q].id.serial == Summarize(log[..q]).serial
  {
    WellFormedPrefix(log, p);
    WellFormedPrefix(log, q);
    SummaryGrows(log, p, q);
    if Summarize(log[..p]).serial == Summarize(log[..q]).serial {
      CommittedKeeps(log, p, q);
    } else {
      FullsAreOrdered(log[..q]);
    }
  }

  ghost predicate FullFrameEvent(e: Entry) {
    e.Submitted? || e.Resubmitted? || e.Committed?
  }

  lemma {:induction false} ScrollOwner(log: Log, n: nat)
    requires n <= |log| && Summarize(log[..n]).scroll.Some?
    ensures exists p :: 0 <= p < n && log[p] == ScrollSubmitted(Summarize(log[..n]).scroll.value)
              && forall r :: p < r < n ==> !FullFrameEvent(log[r])
  {
    if n > 0 {
      SummaryNext(log, n - 1);
      if !log[n - 1].ScrollSubmitted? {
        ScrollOwner(log, n - 1);
      }
    }
  }

  /** An installed scroll frame had no full frame submitted or installed since its own submission. */
  lemma ScrollCommitsAreCurrent(log: Log, q: nat)
    requires WellFormed(log) && q < |log| && log[q].ScrollCommitted?
    ensures exists p :: 0 <= p < q && log[p] == ScrollSubmitted(log[q].id)
              && forall r :: p < r < q ==> !FullFrameEvent(log[r])
  {
    WellFormedPrefix(log, q);
    ScrollOwner(log, q);
  }
}
