/**
 Which document a page transfer answers. Transfers are not cancelled when a tab's
 document is replaced, and the request ids of every document start over, so a late
 answer can meet a request of the next document. This file says exactly when.
 */
module PageFetchDocuments {
  import opened Text
  import opened HttpTypes
  import opened PageFetches
  import opened PageFetchLaws

  /** Some document's script was settled with the answer to another document's request. */
  ghost predicate Misdelivered(log: seq<Event>) {
    exists i :: 0 <= i < |log| && log[i].Ended? && log[i].to.Some? && log[i].to.value != log[i].asker
  }

  ghost predicate InFlight(s: Shell, tab: nat) {
    exists i :: 0 <= i < |s.pending| && s.pending[i].tab == tab
  }

  /** Every transfer in flight belongs to the document its tab shows. */
  ghost predicate Owned(s: Shell) {
    && (forall i :: 0 <= i < |s.pending| && s.pending[i].tab in s.pages ==>
          s.pages[s.pending[i].tab].document == s.pending[i].document)
    && (forall i :: 0 <= i < |s.pending| ==> s.pending[i].tab < s.nextTab && s.pending[i].id >= 1)
    && (forall tab :: tab in s.pages ==> tab < s.nextTab && s.pages[tab].nextId >= 1)
  }

  // ---- One step ---------------------------------------------------------------------------------

  ghost predicate KeepsAskers(ts: seq<PendingPageFetch>, b: Pass) {
    && (forall i :: 0 <= i < |b.waiting| ==> exists k :: 0 <= k < |ts| && SameAsker(ts[k], b.waiting[i]))
    && (forall i :: 0 <= i < |b.settled| ==> b.settled[i].transfer in ts)
    && (forall i :: 0 <= i < |b.log| ==> !b.log[i].Ended?)
  }

  /** The pass only moves transfers on; their tab, id and document stay. */
  lemma {:induction false} PassOrigins(cors: Cors, ts: seq<PendingPageFetch>, cs: seq<Completion>)
    requires |ts| == |cs|
    ensures KeepsAskers(ts, PassOver(cors, ts, cs))
  {
    hide PassOver;
    if ts == [] {
      PassOverNothing(cors);
    } else {
      var n := |ts| - 1;
      InitLast(ts);
      InitLast(cs);
      PassOrigins(cors, ts[..n], cs[..n]);
      PassSnoc(cors, ts[..n], cs[..n], ts[n], cs[n]);
      var before, b := PassOver(cors, ts[..n], cs[..n]), PassOver(cors, ts, cs);
      forall i | 0 <= i < |b.waiting| ensures exists k :: 0 <= k < |ts| && SameAsker(ts[k], b.waiting[i]) {
        if i < |before.waiting| {
          var k :| 0 <= k < n && SameAsker(ts[..n][k], before.waiting[i]);
          assert ts[k] == ts[..n][k];
        } else {
          assert SameAsker(ts[n], b.waiting[i]);
        }
      }
    }
  }

  predicate SameAsker(a: PendingPageFetch, b: PendingPageFetch) {
    a.tab == b.tab && a.id == b.id && a.document == b.document
  }

  /** Settling changes no document and delivers to the document on show. */
  lemma {:induction false} EndDelivers(pages: map<nat, Page>, settled: seq<Settlement>)
    ensures
      var e := EndAll(pages, settled);
      && e.pages.Keys == pages.Keys
      && (forall tab :: tab in pages ==> e.pages[tab].document == pages[tab].document
                                         && e.pages[tab].nextId == pages[tab].nextId)
      && |e.log| == |settled|
      && (forall i :: 0 <= i < |settled| ==>
            && e.log[i].Ended? && e.log[i].asker == settled[i].transfer.document
            && (e.log[i].to.Some? ==>
                  settled[i].transfer.tab in pages && e.log[i].to.value == pages[settled[i].transfer.tab].document))
  {
    hide EndAll;
    if settled == [] {
      EndNothing(pages);
    } else {
      var n := |settled| - 1;
      InitLast(settled);
      EndDelivers(pages, settled[..n]);
      EndSnoc(pages, settled[..n], settled[n]);
    }
  }

  lemma PollKeepsOwned(cors: Cors, s: Shell, cs: seq<Completion>)
    requires Owned(s) && |cs| == |s.pending|
    ensures Owned(PollIn(cors, s, cs))
  {
    hide PassOver, EndAll;
    var b := PassOver(cors, s.pending, cs);
    PassOrigins(cors, s.pending, cs);
    EndDelivers(s.pages, b.settled);
    var after := PollIn(cors, s, cs);
    forall i | 0 <= i < |after.pending|
      ensures after.pending[i].tab < after.nextTab && after.pending[i].id >= 1
      ensures after.pending[i].tab in after.pages ==>
                after.pages[after.pending[i].tab].document == after.pending[i].document
    {
      var k :| 0 <= k < |s.pending| && SameAsker(s.pending[k], b.waiting[i]);
    }
  }

  lemma PollDelivers(cors: Cors, s: Shell, cs: seq<Completion>)
    requires Owned(s) && |cs| == |s.pending|
    ensures Misdelivered(PollIn(cors, s, cs).log) ==> Misdelivered(s.log)
  {
    hide PassOver, EndAll;
    var b := PassOver(cors, s.pending, cs);
    PassOrigins(cors, s.pending, cs);
    EndDelivers(s.pages, b.settled);
    var e := EndAll(s.pages, b.settled);
    forall k | 0 <= k < |e.log| && e.log[k].to.Some? ensures e.log[k].to.value == e.log[k].asker {
      var t := b.settled[k].transfer;
      var j :| 0 <= j < |s.pending| && s.pending[j] == t;
    }
    MisdeliveredIn(s.log, b.log, e.log);
  }

  lemma MisdeliveredIn(log: seq<Event>, sent: seq<Event>, ended: seq<Event>)
    requires forall k :: 0 <= k < |sent| ==> !sent[k].Ended?
    requires forall k :: 0 <= k < |ended| ==> ended[k].Ended?
    requires forall k :: 0 <= k < |ended| && ended[k].to.Some? ==> ended[k].to.value == ended[k].asker
    ensures Misdelivered(log + sent + ended) ==> Misdelivered(log)
  {
    var all := log + sent + ended;
    assert forall i :: 0 <= i < |all| ==>
             all[i] == if i < |log| then log[i] else if i < |log| + |sent| then sent[i - |log|]
                       else ended[i - |log| - |sent|];
    if Misdelivered(all) {
      var i :| 0 <= i < |all| && all[i].Ended? && all[i].to.Some? && all[i].to.value != all[i].asker;
    }
  }

  lemma SubmitDelivers(cors: Cors, s: Shell, tab: nat, request: PendingFetch, cookie: Option<string>)
    requires Owned(s) && request.id >= 1
    ensures Owned(SubmitIn(cors, s, tab, request, cookie))
    ensures Misdelivered(SubmitIn(cors, s, tab, request, cookie).log) ==> Misdelivered(s.log)
  {
    hide PlanFor;
    var after := SubmitIn(cors, s, tab, request, cookie);
    if Misdelivered(after.log) {
      var i :| 0 <= i < |after.log| && after.log[i].Ended? && after.log[i].to.Some?
               && after.log[i].to.value != after.log[i].asker;
      assert s.log[i] == after.log[i];
    }
  }

  /** Only replacing the document of a tab with transfers in flight can break ownership. */
  lemma StepDelivers(cors: Cors, s: Shell, step: Step)
    requires Owned(s) && CanStep(s, step)
    requires step.InstallDocument? ==> !InFlight(s, step.tab)
    ensures Owned(Apply(cors, s, step))
    ensures Misdelivered(Apply(cors, s, step).log) ==> Misdelivered(s.log)
  {
    hide SubmitIn, PollIn, Misdelivered;
    match step {
      case Poll(completions) =>
        PollKeepsOwned(cors, s, completions);
        PollDelivers(cors, s, completions);
      case Fetch(tab, request, cookie) =>
        SubmitDelivers(cors, IssueIn(s, tab), tab, request.(id := s.pages[tab].nextId), cookie);
      case InstallDocument(tab, url) =>
        assert forall i :: 0 <= i < |s.pending| ==> s.pending[i].tab != tab;
      case _ =>
    }
  }

  predicate KeepsDocuments(steps: seq<Step>) {
    forall i :: 0 <= i < |steps| ==> !steps[i].InstallDocument?
  }

  lemma {:induction false} RunDelivers(cors: Cors, s: Shell, steps: seq<Step>, after: Shell)
    requires Owned(s) && Reaches(cors, s, steps, after) && KeepsDocuments(steps)
    ensures Owned(after)
    ensures Misdelivered(after.log) ==> Misdelivered(s.log)
    decreases |steps|
  {
    hide Owned, Misdelivered, Apply, CanStep;
    if steps != [] {
      StepDelivers(cors, s, steps[0]);
      RunDelivers(cors, Apply(cors, s, steps[0]), steps[1..], after);
    }
  }

  // ---- What the receiving document sees -------------------------------------------------------------

  /** A run in which a tab's document is replaced only while none of its transfers is in flight. */
  ghost predicate ReachesQuietly(cors: Cors, s: Shell, steps: seq<Step>, after: Shell)
    decreases |steps|
  {
    if steps == [] then after == s
    else
      && CanStep(s, steps[0])
      && (steps[0].InstallDocument? ==> !InFlight(s, steps[0].tab))
      && ReachesQuietly(cors, Apply(cors, s, steps[0]), steps[1..], after)
  }

  lemma {:induction false} QuietRunDelivers(cors: Cors, s: Shell, steps: seq<Step>, after: Shell)
    requires Owned(s) && ReachesQuietly(cors, s, steps, after)
    ensures Reaches(cors, s, steps, after)
    ensures Misdelivered(after.log) ==> Misdelivered(s.log)
    decreases |steps|
  {
    hide Owned, Misdelivered, Apply, CanStep, InFlight;
    if steps != [] {
      StepDelivers(cors, s, steps[0]);
      QuietRunDelivers(cors, Apply(cors, s, steps[0]), steps[1..], after);
    }
  }

  /**
   A script sees only what CORS lets its own document read, as long as no document is
   replaced while transfers of its tab are in flight: the document that receives an
   outcome is the one that asked; and a response that comes from another origin than the
   address it asked from is one that this origin may read.
   */
  lemma ReceiversSeeWhatCorsAllows(cors: Cors, steps: seq<Step>, s: Shell, j: nat)
    requires ReachesQuietly(cors, EMPTY_SHELL, steps, s)
    requires j < |s.log| && s.log[j].Ended? && s.log[j].to.Some?
    ensures exists plan ::
              && Planned(s.log[j].ticket, plan) in s.log[..j] && WasAsked(cors, steps, plan)
              && s.log[j].to == Some(plan.document)
              && (s.log[j].outcome.Success? && cors.crossOrigin(plan.pageUrl, plan.actual.url) ==>
                    CorsLetsRead(cors, plan, s.log[j].outcome.response))
  {
    hide Reaches, ReachesQuietly, WasAsked, CorsLetsRead;
    QuietRunDelivers(cors, EMPTY_SHELL, steps, s);
    ScriptsSeeWhatCorsAllows(cors, steps, s, j);
    assert s.log[j].to.value == s.log[j].asker by {
      assert !Misdelivered(s.log);
    }
  }

  /**
   Without that condition a script can see what CORS would not let it: a page at `a` asks
   its own origin, its document is replaced by one at `b`, which asks for anything, and
   the late answer settles that request. Document 2 reads document 1's response with all
   its headers, although for `b` the target is another origin that does not allow it.
   */
  lemma AnotherPagesResponseIsSeen(cors: Cors, a: Url, b: Url, response: FetchResponse)
    returns (steps: seq<Step>, s: Shell)
    requires !cors.crossOrigin(a, a) && cors.crossOrigin(b, a)
    requires !cors.responseAllows(response, cors.originOf(b))
    ensures Reaches(cors, EMPTY_SHELL, steps, s)
    ensures steps == [OpenTab(a), Fetch(0, AnyRequest(a), None), InstallDocument(0, b), Fetch(0, AnyRequest(a), None),
                      Poll([Completed(response), Waiting])]
    ensures Ended(0, 1, Some(2), Success(response, true, true)) in s.log
    ensures 0 in s.pages && s.pages[0].document == 2 && s.pages[0].url == b
  {
    hide PassOver, EndAll, Reaches, PlanFor, SubmitIn, IssueIn, PollIn;
    var ask := Fetch(0, AnyRequest(a), None);
    var tabbed := Apply(cors, EMPTY_SHELL, OpenTab(a));
    var asked := Apply(cors, tabbed, ask);
    AskUnfolds(cors, tabbed, a);
    SameOriginStage(cors, a);
    var replaced := Apply(cors, asked, InstallDocument(0, b));
    var again := Apply(cors, replaced, ask);
    AskUnfolds(cors, replaced, a);
    var t := PendingPageFetch(0, 1, Response(None, true), 0, 1);
    assert again.pending == [t] + [again.pending[1]];
    var poll := Poll([Completed(response), Waiting]);
    s := Apply(cors, again, poll);
    PollSettlesFirst(cors, again, t, response);
    NothingRun(cors, EMPTY_SHELL);
    RunsCompose(cors, EMPTY_SHELL, [], EMPTY_SHELL, OpenTab(a));
    RunsCompose(cors, EMPTY_SHELL, [] + [OpenTab(a)], tabbed, ask);
    RunsCompose(cors, EMPTY_SHELL, [] + [OpenTab(a)] + [ask], asked, InstallDocument(0, b));
    RunsCompose(cors, EMPTY_SHELL, [] + [OpenTab(a)] + [ask] + [InstallDocument(0, b)], replaced, ask);
    steps := [] + [OpenTab(a)] + [ask] + [InstallDocument(0, b)] + [ask];
    RunsCompose(cors, EMPTY_SHELL, steps, again, poll);
    assert steps == [OpenTab(a), ask, InstallDocument(0, b), ask];
    steps := steps + [poll];
  }

  function AnyRequest(url: Url): PendingFetch {
    PendingFetch(0, Some(url), Some(Get), [], None, SameOrigin)
  }

  lemma NothingRun(cors: Cors, s: Shell)
    ensures Reaches(cors, s, [], s)
  {
  }

  /** What asking adds to a shell with one tab. */
  lemma AskUnfolds(cors: Cors, s: Shell, url: Url)
    requires 0 in s.pages
    ensures
      var page, after := s.pages[0], Apply(cors, s, Fetch(0, AnyRequest(url), None));
      var request := AnyRequest(url).(id := page.nextId);
      var plan := PlanFor(cors, 0, page.document, page.url, request, url, Get, None);
      && after.pages == s.pages[0 := page.(nextId := page.nextId + 1, waiting := page.waiting + {page.nextId})]
      && after.pending == s.pending + [PendingPageFetch(0, page.nextId, FirstStage(plan), s.tickets, page.document)]
      && after.tickets == s.tickets + 1
  {
  }

  lemma SameOriginStage(cors: Cors, a: Url)
    requires !cors.crossOrigin(a, a)
    ensures FirstStage(PlanFor(cors, 0, 1, a, AnyRequest(a).(id := 1), a, Get, None)) == Response(None, true)
  {
    hide WithHeaders, AuthorHeaders;
  }

  /** Of two transfers the first completes, and settles what its tab waits for under that id. */
  lemma PollSettlesFirst(cors: Cors, s: Shell, t: PendingPageFetch, response: FetchResponse)
    requires |s.pending| == 2 && s.pending[0] == t && t.stage == Response(None, true)
    requires t.tab in s.pages && t.id in s.pages[t.tab].waiting
    ensures
      var after := PollIn(cors, s, [Completed(response), Waiting]);
      && Ended(t.ticket, t.document, Some(s.pages[t.tab].document), Success(response, true, true)) in after.log
      && t.tab in after.pages && after.pages[t.tab].document == s.pages[t.tab].document
      && after.pages[t.tab].url == s.pages[t.tab].url
  {
    hide PassOver, EndAll;
    var ts, cs := s.pending, [Completed(response), Waiting];
    var settlement := Settlement(t, Success(response, true, true));
    PassOverNothing(cors);
    PassSnoc(cors, [], [], ts[0], cs[0]);
    PassSnoc(cors, [t], [cs[0]], ts[1], cs[1]);
    assert [] + [ts[0]] == [t] && [t] + [ts[1]] == ts && [] + [cs[0]] == [cs[0]] && [cs[0]] + [cs[1]] == cs;
    assert PassOver(cors, ts, cs).settled == [] + [settlement];
    EndNothing(s.pages);
    EndSnoc(s.pages, [], settlement);
    var after := PollIn(cors, s, cs);
    assert after.log[|after.log| - 1] == EndOf(s.pages, settlement);
  }

  // ---- The failing family -------------------------------------------------------------------------

  const ANY_REQUEST: PendingFetch := PendingFetch(0, Some(Url("", None)), Some(Get), [], None, SameOrigin)

  /** A page asking `count` times in a row is waiting for that many more ids. */
  lemma {:induction false} AskRepeatedly(cors: Cors, s: Shell, tab: nat, count: nat)
    returns (steps: seq<Step>, after: Shell)
    requires tab in s.pages
    ensures Reaches(cors, s, steps, after) && KeepsDocuments(steps)
    ensures s.pending <= after.pending && s.log <= after.log
    ensures tab in after.pages && after.pages[tab].document == s.pages[tab].document
    ensures forall id :: s.pages[tab].nextId <= id < s.pages[tab].nextId + count ==> id in after.pages[tab].waiting
    ensures forall id :: id in s.pages[tab].waiting ==> id in after.pages[tab].waiting
    decreases count
  {
    hide PlanFor;
    if count == 0 {
      steps, after := [], s;
    } else {
      var step := Fetch(tab, ANY_REQUEST, None);
      var next := Apply(cors, s, step);
      var rest;
      rest, after := AskRepeatedly(cors, next, tab, count - 1);
      steps := [step] + rest;
      assert steps[1..] == rest;
      assert s.pages[tab].nextId in next.pages[tab].waiting;
    }
  }

  function OnlyBroken(n: nat, i: nat): (cs: seq<Completion>)
    ensures |cs| == n
  {
    seq(n, k requires 0 <= k < n => if k == i then Broken else Waiting)
  }

  /** A pass in which one transfer fails and the others wait settles that one. */
  lemma {:induction false} PassSettlesOne(cors: Cors, ts: seq<PendingPageFetch>, cs: seq<Completion>, i: nat)
    requires |ts| == |cs| && forall k :: 0 <= k < |cs| ==> cs[k] == if k == i then Broken else Waiting
    ensures PassOver(cors, ts, cs).settled == if i < |ts| then [Settlement(ts[i], TransferError)] else []
    ensures PassOver(cors, ts, cs).log == []
  {
    hide PassOver;
    if ts == [] {
      PassOverNothing(cors);
    } else {
      var n := |ts| - 1;
      InitLast(ts);
      InitLast(cs);
      PassSettlesOne(cors, ts[..n], cs[..n], i);
      PassSnoc(cors, ts[..n], cs[..n], ts[n], cs[n]);
    }
  }

  lemma EndOne(pages: map<nat, Page>, s: Settlement)
    ensures EndAll(pages, [s]).log == [EndOf(pages, s)]
  {
    hide EndOf, EndAll;
    EndNothing(pages);
    EndSnoc(pages, [], s);
    assert [] + [s] == [s] && [] + [EndOf(pages, s)] == [EndOf(pages, s)];
  }

  lemma {:induction false} RunsCompose(cors: Cors, s: Shell, a: seq<Step>, middle: Shell, step: Step)
    requires Reaches(cors, s, a, middle) && CanStep(middle, step)
    ensures Reaches(cors, s, a + [step], Apply(cors, middle, step))
    decreases |a|
  {
    hide Apply, CanStep;
    if a == [] {
      assert a + [step] == [step] && [step][1..] == [];
    } else {
      RunsCompose(cors, Apply(cors, s, a[0]), a[1..], middle, step);
      assert (a + [step])[1..] == a[1..] + [step];
    }
  }

  /** With a transfer of the old document in flight, some run answers the wrong document. */
  lemma LateAnswerMeetsNextDocument(cors: Cors, s: Shell, tab: nat, url: Url, i: nat)
    returns (steps: seq<Step>, after: Shell)
    requires Owned(s) && tab in s.pages && i < |s.pending| && s.pending[i].tab == tab
    ensures Reaches(cors, Apply(cors, s, InstallDocument(tab, url)), steps, after)
    ensures KeepsDocuments(steps) && Misdelivered(after.log)
  {
    hide PassOver, EndAll, Reaches;
    var t := s.pending[i];
    var installed := Apply(cors, s, InstallDocument(tab, url));
    var asked, middle := AskRepeatedly(cors, installed, tab, t.id);
    assert middle.pending[i] == t && t.id in middle.pages[tab].waiting;
    var poll := Poll(OnlyBroken(|middle.pending|, i));
    PassSettlesOne(cors, middle.pending, poll.completions, i);
    EndOne(middle.pages, Settlement(t, TransferError));
    RunsCompose(cors, installed, asked, middle, poll);
    steps, after := asked + [poll], Apply(cors, middle, poll);
    assert after.log[|middle.log|] == EndOf(middle.pages, Settlement(t, TransferError));
  }

  /**
   Exactly when replacing a tab's document is safe: from any shell whose transfers
   belong to the documents on show, no later run misdelivers an answer if and only if
   no transfer of that tab was in flight at the replacement.
   */
  lemma ReplacementIsSafeIff(cors: Cors, s: Shell, tab: nat, url: Url)
    requires Owned(s) && !Misdelivered(s.log) && tab in s.pages
    ensures !InFlight(s, tab) <==>
            forall steps, after ::
              Reaches(cors, Apply(cors, s, InstallDocument(tab, url)), steps, after) && KeepsDocuments(steps) ==>
                !Misdelivered(after.log)
  {
    hide Owned, Misdelivered, Reaches, Apply, KeepsDocuments;
    var installed := Apply(cors, s, InstallDocument(tab, url));
    if InFlight(s, tab) {
      var i :| 0 <= i < |s.pending| && s.pending[i].tab == tab;
      var steps, after := LateAnswerMeetsNextDocument(cors, s, tab, url, i);
    } else {
      StepDelivers(cors, s, InstallDocument(tab, url));
      forall steps, after | Reaches(cors, installed, steps, after) && KeepsDocuments(steps)
        ensures !Misdelivered(after.log)
      {
        RunDelivers(cors, installed, steps, after);
      }
    }
  }
}
