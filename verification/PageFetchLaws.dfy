/**
 What page transfers keep over every run: each accepted transfer moves forward
 through its stages and settles at most once, a cross-origin request that is not
 simple waits for its own preflight, and a transfer delivers only what CORS allows
 the page that asked to read. Which document receives it is the matter of
 `PageFetchDocuments`.
 */
module PageFetchLaws {
  import opened Text
  import opened HttpTypes
  import opened PageFetches

  // ---- Runs -------------------------------------------------------------------------------------

  datatype Step =
    | OpenTab(url: Url)
    | CloseTab(tab: nat)
    /** The page's document is replaced; transfers in flight stay in flight. */
    | InstallDocument(tab: nat, newUrl: Url)
    /** The document stays and its address changes, as for an entry of its own history. */
    | ChangeAddress(tab: nat, newUrl: Url)
    /** A script asks for a transfer; its runtime gives the request the next id. */
    | Fetch(tab: nat, request: PendingFetch, cookie: Option<string>)
    /** A runtime stops waiting for an id. */
    | Abandon(tab: nat, id: nat)
    | Poll(completions: seq<Completion>)

  predicate CanStep(s: Shell, step: Step) {
    match step
    case OpenTab(_) => true
    case CloseTab(tab) => tab in s.pages
    case InstallDocument(tab, _) => tab in s.pages
    case ChangeAddress(tab, _) => tab in s.pages
    case Fetch(tab, _, _) => tab in s.pages
    case Abandon(tab, _) => tab in s.pages
    case Poll(completions) => |completions| == |s.pending|
  }

  function IssueIn(s: Shell, tab: nat): Shell
    requires tab in s.pages
  {
    var page := s.pages[tab];
    s.(pages := s.pages[tab := page.(nextId := page.nextId + 1, waiting := page.waiting + {page.nextId})])
  }

  function Apply(cors: Cors, s: Shell, step: Step): Shell
    requires CanStep(s, step)
  {
    match step
    case OpenTab(url) => s.(pages := s.pages[s.nextTab := Page(1, url, 1, {})], nextTab := s.nextTab + 1)
    case CloseTab(tab) => s.(pages := s.pages - {tab})
    case InstallDocument(tab, url) => s.(pages := s.pages[tab := Page(s.pages[tab].document + 1, url, 1, {})])
    case ChangeAddress(tab, url) => s.(pages := s.pages[tab := s.pages[tab].(url := url)])
    case Fetch(tab, request, cookie) =>
      SubmitIn(cors, IssueIn(s, tab), tab, request.(id := s.pages[tab].nextId), cookie)
    case Abandon(tab, id) => s.(pages := Received(s.pages, tab, id))
    case Poll(completions) => PollIn(cors, s, completions)
  }

  /** `after` is reached from `s` by these steps. */
  ghost predicate Reaches(cors: Cors, s: Shell, steps: seq<Step>, after: Shell)
    decreases |steps|
  {
    if steps == [] then after == s
    else CanStep(s, steps[0]) && Reaches(cors, Apply(cors, s, steps[0]), steps[1..], after)
  }

  // ---- The life of one transfer -------------------------------------------------------------------

  datatype Phase =
    | Fresh
    | Drafted(plan: Plan)
    | Preflighting(plan: Plan)
    | Allowed(plan: Plan)
    | Fetching(plan: Plan)
    | Over(plan: Plan, outcome: Outcome)
    | Illegal

  /** The transfer leaves the origin of the page that asked for it. */
  predicate Foreign(cors: Cors, plan: Plan) {
    cors.crossOrigin(plan.pageUrl, plan.actual.url)
  }

  /** CORS lets the page that asked read this response, by the stricter rule when it sent credentials. */
  predicate CorsLetsRead(cors: Cors, plan: Plan, response: FetchResponse) {
    var origin := cors.originOf(plan.pageUrl);
    if plan.credentials then cors.responseAllowsCredentials(response, origin) else cors.responseAllows(response, origin)
  }

  /**
   What a script may see of a transfer's response. Across origins it sees one only when
   CORS lets the page read it; its headers are exposed in full, and its cookies kept,
   only where that is due.
   */
  predicate MayRead(cors: Cors, plan: Plan, outcome: Outcome) {
    outcome.Success? ==>
      && outcome.allHeaders == !Foreign(cors, plan)
      && outcome.absorbsCookies == (!Foreign(cors, plan) || plan.credentials)
      && (Foreign(cors, plan) ==> CorsLetsRead(cors, plan, outcome.response))
  }

  /** The preflight's answer allows the page's origin, the method and the headers. */
  predicate PreflightAllows(cors: Cors, plan: Plan, response: FetchResponse) {
    cors.preflightAllows(response, cors.originOf(plan.pageUrl), plan.method_, plan.headers)
  }

  /**
   The preflight asks for just what the transfer will do: it names the page's origin, the
   method of the actual request as that method is read, and the headers that need it.
   */
  predicate AsksPermission(cors: Cors, plan: Plan) {
    var lines, names := plan.preflight.headers, cors.requestHeaderNames(plan.headers);
    && |lines| == (if names.Some? then 3 else 2)
    && lines[0] == ("Origin", cors.originOf(plan.pageUrl))
    && lines[1].0 == "Access-Control-Request-Method" && FromWire(lines[1].1) == Some(plan.actual.method_)
    && (names.Some? ==> lines[2] == ("Access-Control-Request-Headers", names.value))
    && plan.preflight.method_ == Options && plan.preflight.url == plan.actual.url
    && plan.preflight.cookie.None? && plan.preflight.body.None?
  }

  /**
   The plan asks for a preflight exactly when it leaves the page's origin and is not
   simple, it names that origin, and it sends cookies only where it may.
   */
  predicate WellPlanned(cors: Cors, plan: Plan) {
    && plan.origin == (if Foreign(cors, plan) then Some(cors.originOf(plan.pageUrl)) else None)
    && (plan.needsPreflight <==> Foreign(cors, plan) && !cors.simple(plan.actual.method_, plan.headers))
    && plan.method_ == plan.actual.method_
    && AsksPermission(cors, plan)
    && (Foreign(cors, plan) && !plan.credentials ==> plan.actual.cookie.None?)
  }

  /** The legal lives: preflight first where one is needed, one actual request, one end. */
  function NextPhase(cors: Cors, p: Phase, e: Event): Phase {
    match e
    case Planned(_, plan) => if p.Fresh? && WellPlanned(cors, plan) then Drafted(plan) else Illegal
    case Sent(_, request) =>
      if p.Drafted? && p.plan.needsPreflight && request == p.plan.preflight then Preflighting(p.plan)
      else if p.Drafted? && !p.plan.needsPreflight && request == p.plan.actual then Fetching(p.plan)
      else if p.Allowed? && request == p.plan.actual then Fetching(p.plan)
      else Illegal
    case Granted(_, response) =>
      if p.Preflighting? && PreflightAllows(cors, p.plan, response) then Allowed(p.plan) else Illegal
    case Ended(_, asker, _, outcome) =>
      if p.Preflighting? && !outcome.Success? && asker == p.plan.document then Over(p.plan, outcome)
      else if p.Fetching? && MayRead(cors, p.plan, outcome) && asker == p.plan.document then Over(p.plan, outcome)
      else Illegal
  }

  function PhaseOf(cors: Cors, log: seq<Event>, ticket: nat): Phase {
    if log == [] then Fresh
    else
      var p := PhaseOf(cors, log[..|log| - 1], ticket);
      if log[|log| - 1].ticket == ticket then NextPhase(cors, p, log[|log| - 1]) else p
  }

  lemma PhaseSnoc(cors: Cors, log: seq<Event>, e: Event, ticket: nat)
    ensures PhaseOf(cors, log + [e], ticket) ==
            if e.ticket == ticket then NextPhase(cors, PhaseOf(cors, log, ticket), e) else PhaseOf(cors, log, ticket)
  {
    hide NextPhase;
    assert (log + [e])[..|log|] == log;
  }

  lemma PhaseSnocTwo(cors: Cors, log: seq<Event>, d: Event, e: Event, ticket: nat)
    ensures PhaseOf(cors, log + [d, e], ticket) == PhaseOf(cors, log + [d] + [e], ticket)
  {
    hide PhaseOf;
    assert log + [d, e] == log + [d] + [e];
  }

  // ---- The invariant --------------------------------------------------------------------------------

  function TicketsOf(ts: seq<PendingPageFetch>): set<nat> {
    set i | 0 <= i < |ts| :: ts[i].ticket
  }

  predicate Distinct(ts: seq<PendingPageFetch>) {
    forall i, j :: 0 <= i < j < |ts| ==> ts[i].ticket != ts[j].ticket
  }

  /** The transfer's stage is where its history says it is. */
  predicate Tracks(cors: Cors, t: PendingPageFetch, p: Phase) {
    match t.stage
    case Response(origin, credentials) =>
      p.Fetching? && WellPlanned(cors, p.plan) && p.plan.origin == origin && p.plan.credentials == credentials
      && p.plan.tab == t.tab && p.plan.document == t.document
    case Preflight(origin, method_, headers, actual, credentials) =>
      p.Preflighting? && WellPlanned(cors, p.plan) && p.plan.origin == Some(origin) && p.plan.credentials == credentials
      && p.plan.method_ == method_ && p.plan.headers == headers && p.plan.actual == actual
      && p.plan.tab == t.tab && p.plan.document == t.document
  }

  /**
   Every ticket is in exactly one place: unused, in one pending transfer at the stage
   its history says, or over.
   */
  ghost predicate Inv(cors: Cors, s: Shell) {
    && Distinct(s.pending)
    && (forall i :: 0 <= i < |s.pending| ==> s.pending[i].ticket < s.tickets)
    && (forall i :: 0 <= i < |s.pending| ==> Tracks(cors, s.pending[i], PhaseOf(cors, s.log, s.pending[i].ticket)))
    && (forall t: nat :: t < s.tickets && t !in TicketsOf(s.pending) ==> PhaseOf(cors, s.log, t).Over?)
    && (forall t: nat :: t >= s.tickets ==> PhaseOf(cors, s.log, t) == Fresh)
  }

  // ---- A polling pass -------------------------------------------------------------------------------

  /** The outcome is one the transfer's phase may end with. */
  predicate MayEnd(cors: Cors, s: Settlement, p: Phase) {
    && (p.Preflighting? || p.Fetching?)
    && p.plan.document == s.transfer.document
    && (p.Preflighting? ==> !s.outcome.Success?)
    && (p.Fetching? ==> MayRead(cors, p.plan, s.outcome))
  }

  function Transfers(settled: seq<Settlement>): (ts: seq<PendingPageFetch>)
    ensures |ts| == |settled|
    ensures forall i :: 0 <= i < |ts| ==> ts[i] == settled[i].transfer
  {
    seq(|settled|, i requires 0 <= i < |settled| => settled[i].transfer)
  }

  /** What a pass leaves behind, before anything is settled. */
  ghost predicate PassFits(cors: Cors, log: seq<Event>, ts: seq<PendingPageFetch>, b: Pass) {
    && Distinct(b.waiting) && Distinct(Transfers(b.settled))
    && TicketsOf(b.waiting) !! TicketsOf(Transfers(b.settled))
    && TicketsOf(b.waiting) + TicketsOf(Transfers(b.settled)) == TicketsOf(ts)
    && (forall i :: 0 <= i < |b.waiting| ==> Tracks(cors, b.waiting[i], PhaseOf(cors, log + b.log, b.waiting[i].ticket)))
    && (forall i :: 0 <= i < |b.settled| ==>
          MayEnd(cors, b.settled[i], PhaseOf(cors, log + b.log, b.settled[i].transfer.ticket)))
    && (forall t: nat :: t !in TicketsOf(ts) ==> PhaseOf(cors, log + b.log, t) == PhaseOf(cors, log, t))
  }

  lemma TicketsSnoc(ts: seq<PendingPageFetch>, t: PendingPageFetch)
    ensures TicketsOf(ts + [t]) == TicketsOf(ts) + {t.ticket}
    ensures Distinct(ts + [t]) <==> Distinct(ts) && t.ticket !in TicketsOf(ts)
  {
    var all := ts + [t];
    assert forall i :: 0 <= i < |ts| ==> all[i] == ts[i];
    assert all[|ts|] == t;
    forall x | x in TicketsOf(ts) + {t.ticket} ensures x in TicketsOf(all) {
      if x in TicketsOf(ts) {
        var i :| 0 <= i < |ts| && ts[i].ticket == x;
        assert all[i].ticket == x;
      }
    }
    if Distinct(all) {
      assert forall i :: 0 <= i < |ts| ==> all[i].ticket != all[|ts|].ticket;
      forall i, j | 0 <= i < j < |ts| ensures ts[i].ticket != ts[j].ticket {
        assert all[i].ticket != all[j].ticket;
      }
    }
  }

  lemma TransfersSnoc(settled: seq<Settlement>, s: Settlement)
    ensures Transfers(settled + [s]) == Transfers(settled) + [s.transfer]
  {
  }

  /** One more transfer in the pass, whatever becomes of it. */
  lemma PassFitsSnoc(cors: Cors, log: seq<Event>, ts: seq<PendingPageFetch>, b: Pass, t: PendingPageFetch, c: Completion,
                     next: Pass)
    requires PassFits(cors, log, ts, b) && t.ticket !in TicketsOf(ts)
    requires Tracks(cors, t, PhaseOf(cors, log, t.ticket))
    requires next == match ProgressOf(cors, t, c)
                     case Stays => b.(waiting := b.waiting + [t])
                     case Settles(outcome) => b.(settled := b.settled + [Settlement(t, outcome)])
                     case Proceeds(to, response, actual) =>
                       b.(waiting := b.waiting + [to],
                          log := b.log + [Granted(t.ticket, response), Sent(t.ticket, actual)])
    ensures PassFits(cors, log, ts + [t], next)
  {
    hide PhaseOf, TicketsOf, Distinct, Transfers, AsksPermission;
    TicketsSnoc(ts, t);
    var here := log + b.log;
    assert PhaseOf(cors, here, t.ticket) == PhaseOf(cors, log, t.ticket);
    match ProgressOf(cors, t, c) {
      case Stays =>
        TicketsSnoc(b.waiting, t);
      case Settles(outcome) =>
        TransfersSnoc(b.settled, Settlement(t, outcome));
        TicketsSnoc(Transfers(b.settled), t);
      case Proceeds(to, response, actual) =>
        TicketsSnoc(b.waiting, to);
        var d, e := Granted(t.ticket, response), Sent(t.ticket, actual);
        assert log + next.log == here + [d, e];
        forall x: nat ensures PhaseOf(cors, log + next.log, x) ==
                              if x == t.ticket then NextPhase(cors, NextPhase(cors, PhaseOf(cors, here, x), d), e)
                              else PhaseOf(cors, here, x)
        {
          PhaseSnocTwo(cors, here, d, e, x);
          PhaseSnoc(cors, here, d, x);
          PhaseSnoc(cors, here + [d], e, x);
        }
        MembersAvoid(b.waiting, t.ticket);
        MembersAvoid(Transfers(b.settled), t.ticket);
    }
  }

  lemma MembersAvoid(ts: seq<PendingPageFetch>, ticket: nat)
    requires ticket !in TicketsOf(ts)
    ensures forall i :: 0 <= i < |ts| ==> ts[i].ticket != ticket
  {
  }

  lemma {:induction false} PassKeeps(cors: Cors, log: seq<Event>, ts: seq<PendingPageFetch>, cs: seq<Completion>)
    requires |ts| == |cs| && Distinct(ts)
    requires forall i :: 0 <= i < |ts| ==> Tracks(cors, ts[i], PhaseOf(cors, log, ts[i].ticket))
    ensures PassFits(cors, log, ts, PassOver(cors, ts, cs))
  {
    hide PhaseOf, PassOver, Tracks, ProgressOf, MayEnd;
    if ts == [] {
      PassOverNothing(cors);
      assert log + [] == log;
    } else {
      hide PassFits;
      var n := |ts| - 1;
      InitLast(ts);
      InitLast(cs);
      TicketsSnoc(ts[..n], ts[n]);
      PassKeeps(cors, log, ts[..n], cs[..n]);
      PassSnoc(cors, ts[..n], cs[..n], ts[n], cs[n]);
      PassFitsSnoc(cors, log, ts[..n], PassOver(cors, ts[..n], cs[..n]), ts[n], cs[n], PassOver(cors, ts, cs));
    }
  }

  /** Settling ends exactly the transfers that settle. */
  lemma {:induction false} EndKeeps(cors: Cors, log: seq<Event>, pages: map<nat, Page>, settled: seq<Settlement>)
    requires Distinct(Transfers(settled))
    requires forall i :: 0 <= i < |settled| ==> MayEnd(cors, settled[i], PhaseOf(cors, log, settled[i].transfer.ticket))
    ensures
      var after := log + EndAll(pages, settled).log;
      && (forall t: nat :: t in TicketsOf(Transfers(settled)) ==> PhaseOf(cors, after, t).Over?)
      && (forall t: nat :: t !in TicketsOf(Transfers(settled)) ==> PhaseOf(cors, after, t) == PhaseOf(cors, log, t))
  {
    hide PhaseOf, EndAll, MayRead, Received, Receiver, Transfers;
    var after := log + EndAll(pages, settled).log;
    if settled == [] {
      EndNothing(pages);
      assert after == log;
      assert Transfers(settled) == [];
    } else {
      hide TicketsOf, Distinct;
      var n := |settled| - 1;
      var init, s := settled[..n], settled[n];
      InitLast(settled);
      TransfersSnoc(init, s);
      TicketsSnoc(Transfers(init), s.transfer);
      EndKeeps(cors, log, pages, init);
      EndSnoc(pages, init, s);
      var e := EndOf(EndAll(pages, init).pages, s);
      var before := log + EndAll(pages, init).log;
      assert after == before + [e];
      forall t: nat
        ensures PhaseOf(cors, after, t) ==
                if t == s.transfer.ticket then NextPhase(cors, PhaseOf(cors, before, t), e) else PhaseOf(cors, before, t)
      {
        PhaseSnoc(cors, before, e, t);
      }
    }
  }

  lemma EndNothing(pages: map<nat, Page>)
    ensures EndAll(pages, []) == Ending(pages, [])
  {
  }

  lemma PollKeepsInv(cors: Cors, s: Shell, cs: seq<Completion>)
    requires Inv(cors, s) && |cs| == |s.pending|
    ensures Inv(cors, PollIn(cors, s, cs))
  {
    hide PhaseOf, PassOver, EndAll, Tracks, MayEnd, TicketsOf, Distinct, Transfers;
    var b := PassOver(cors, s.pending, cs);
    PassKeeps(cors, s.log, s.pending, cs);
    EndKeeps(cors, s.log + b.log, s.pages, b.settled);
    var after := PollIn(cors, s, cs);
    MembersIn(s.pending, s.tickets);
    MembersAreIn(b.waiting);
    MembersIn(b.waiting, s.tickets);
    forall t: nat | t >= s.tickets ensures PhaseOf(cors, after.log, t) == Fresh {
      assert t !in TicketsOf(s.pending);
    }
  }

  lemma MembersIn(ts: seq<PendingPageFetch>, bound: nat)
    ensures (forall i :: 0 <= i < |ts| ==> ts[i].ticket < bound) <==> (forall t :: t in TicketsOf(ts) ==> t < bound)
  {
    if forall t :: t in TicketsOf(ts) ==> t < bound {
      forall i | 0 <= i < |ts| ensures ts[i].ticket < bound {
        assert ts[i].ticket in TicketsOf(ts);
      }
    }
  }

  lemma MembersAreIn(ts: seq<PendingPageFetch>)
    ensures forall i :: 0 <= i < |ts| ==> ts[i].ticket in TicketsOf(ts)
  {
  }

  /** A header line added or replaced changes neither the target, the cookie nor the body. */
  lemma {:induction false} WithHeadersKeeps(request: FetchRequest, headers: Headers)
    ensures
      var r := WithHeaders(request, headers);
      && r.url == request.url && r.method_ == request.method_ && r.cookie == request.cookie && r.body == request.body
      && r.byteRange == request.byteRange && r.cacheValidators == request.cacheValidators
  {
    if headers != [] {
      WithHeadersKeeps(request, headers[..|headers| - 1]);
    }
  }

  lemma PlansAreWell(cors: Cors, tab: nat, document: nat, pageUrl: Url, request: PendingFetch, url: Url,
                     method_: HttpMethod, cookie: Option<string>)
    ensures WellPlanned(cors, PlanFor(cors, tab, document, pageUrl, request, url, method_, cookie))
  {
    hide WithHeaders, AuthorHeaders, FromWire, MethodName;
    MethodNamesParse(method_, MethodName(method_));
    WithHeadersKeeps(NewRequest(method_, url), AuthorHeaders(cors, request.headers));
  }

  lemma SubmitKeepsInv(cors: Cors, s: Shell, tab: nat, request: PendingFetch, cookie: Option<string>)
    requires Inv(cors, s)
    ensures Inv(cors, SubmitIn(cors, s, tab, request, cookie))
  {
    hide PhaseOf, WithHeaders, AuthorHeaders, PreflightRequest, TicketsOf, Distinct, Received;
    if request.url.Some? && request.method_.Some? && tab in s.pages {
      var page := s.pages[tab];
      var plan := PlanFor(cors, tab, page.document, page.url, request, request.url.value, request.method_.value, cookie);
      PlansAreWell(cors, tab, page.document, page.url, request, request.url.value, request.method_.value, cookie);
      hide WellPlanned;
      var after := SubmitIn(cors, s, tab, request, cookie);
      var t := after.pending[|s.pending|];
      var d, e := Planned(s.tickets, plan), Sent(s.tickets, FirstRequest(plan));
      forall x: nat ensures PhaseOf(cors, after.log, x) ==
                            if x == s.tickets then NextPhase(cors, NextPhase(cors, PhaseOf(cors, s.log, x), d), e)
                            else PhaseOf(cors, s.log, x)
      {
        PhaseSnocTwo(cors, s.log, d, e, x);
        PhaseSnoc(cors, s.log, d, x);
        PhaseSnoc(cors, s.log + [d], e, x);
      }
      TicketsSnoc(s.pending, t);
      MembersIn(s.pending, s.tickets);
    }
  }

  lemma StepKeepsInv(cors: Cors, s: Shell, step: Step)
    requires Inv(cors, s) && CanStep(s, step)
    ensures Inv(cors, Apply(cors, s, step))
  {
    hide SubmitIn, PollIn, PhaseOf, TicketsOf, Distinct, Tracks;
    match step {
      case Poll(completions) => PollKeepsInv(cors, s, completions);
      case Fetch(tab, request, cookie) =>
        SubmitKeepsInv(cors, IssueIn(s, tab), tab, request.(id := s.pages[tab].nextId), cookie);
      case _ =>
    }
  }

  lemma {:induction false} RunKeepsInv(cors: Cors, s: Shell, steps: seq<Step>, after: Shell)
    requires Inv(cors, s) && Reaches(cors, s, steps, after)
    ensures Inv(cors, after)
    decreases |steps|
  {
    hide Inv, Apply, CanStep;
    if steps != [] {
      StepKeepsInv(cors, s, steps[0]);
      RunKeepsInv(cors, Apply(cors, s, steps[0]), steps[1..], after);
    }
  }

  lemma EmptyShellInv(cors: Cors)
    ensures Inv(cors, EMPTY_SHELL)
  {
  }

  // ---- Main results ---------------------------------------------------------------------------------

  /** How often the ticket's transfer settled. */
  function Ends(log: seq<Event>, ticket: nat): nat {
    if log == [] then 0
    else
      var e := log[|log| - 1];
      Ends(log[..|log| - 1], ticket) + if e.Ended? && e.ticket == ticket then 1 else 0
  }

  lemma {:induction false} LegalLivesEndOnce(cors: Cors, log: seq<Event>, ticket: nat)
    requires PhaseOf(cors, log, ticket) != Illegal
    ensures Ends(log, ticket) == if PhaseOf(cors, log, ticket).Over? then 1 else 0
  {
    if log != [] {
      LegalLivesEndOnce(cors, log[..|log| - 1], ticket);
    }
  }

  /**
   Conservation: in every reachable shell, each accepted transfer is pending in exactly
   one place and has not settled, or it is not pending and has settled exactly once.
   */
  lemma TransfersAreConserved(cors: Cors, steps: seq<Step>, s: Shell, ticket: nat)
    requires Reaches(cors, EMPTY_SHELL, steps, s) && ticket < s.tickets
    ensures forall i, j :: 0 <= i < j < |s.pending| ==> s.pending[i].ticket != s.pending[j].ticket
    ensures Ends(s.log, ticket) == if exists i :: 0 <= i < |s.pending| && s.pending[i].ticket == ticket then 0 else 1
  {
    hide Reaches, PhaseOf, Ends, Tracks;
    EmptyShellInv(cors);
    RunKeepsInv(cors, EMPTY_SHELL, steps, s);
    if ticket in TicketsOf(s.pending) {
      var i :| 0 <= i < |s.pending| && s.pending[i].ticket == ticket;
      TrackedIsUnderWay(cors, s.pending[i], PhaseOf(cors, s.log, ticket));
    }
    LegalLivesEndOnce(cors, s.log, ticket);
  }

  lemma TrackedIsUnderWay(cors: Cors, t: PendingPageFetch, p: Phase)
    requires Tracks(cors, t, p)
    ensures p.Preflighting? || p.Fetching?
    ensures t.stage.Preflight? <==> p.Preflighting?
  {
  }

  /** A preflight of the plan was sent and then answered so that the actual request may go ahead. */
  ghost predicate PreflightPassed(cors: Cors, log: seq<Event>, ticket: nat, plan: Plan) {
    exists k :: 0 <= k < |log| && log[k].Granted? && log[k].ticket == ticket
           && PreflightAllows(cors, plan, log[k].response)
           && Sent(ticket, plan.preflight) in log[..k]
  }

  /** What the phase of a ticket tells about its past. */
  lemma {:induction false} PhaseRemembers(cors: Cors, log: seq<Event>, ticket: nat)
    ensures
      var p := PhaseOf(cors, log, ticket);
      && (!p.Fresh? && !p.Illegal? ==> Planned(ticket, p.plan) in log && WellPlanned(cors, p.plan))
      && (p.Preflighting? ==> Sent(ticket, p.plan.preflight) in log)
      && (p.Allowed? ==> PreflightPassed(cors, log, ticket, p.plan))
      && (p.Fetching? ==> Sent(ticket, p.plan.actual) in log)
  {
    hide WellPlanned, MayRead, PreflightAllows;
    if log != [] {
      var init, e := log[..|log| - 1], log[|log| - 1];
      PhaseRemembers(cors, init, ticket);
      InitLast(log);
      assert forall x :: x in init ==> x in log;
      var before, p := PhaseOf(cors, init, ticket), PhaseOf(cors, log, ticket);
      if p.Allowed? {
        if e.ticket == ticket {
          assert log[|init|] == e && log[..|init|] == init;
        } else {
          var k :| 0 <= k < |init| && init[k].Granted? && init[k].ticket == ticket
            && PreflightAllows(cors, p.plan, init[k].response)
            && Sent(ticket, p.plan.preflight) in init[..k];
          assert log[k] == init[k] && log[..k] == init[..k];
        }
      }
    }
  }

  lemma {:induction false} LegalBefore(cors: Cors, log: seq<Event>, ticket: nat, j: nat)
    requires j < |log| && PhaseOf(cors, log, ticket) != Illegal
    ensures PhaseOf(cors, log[..j], ticket) != Illegal
    ensures log[j].ticket == ticket ==> NextPhase(cors, PhaseOf(cors, log[..j], ticket), log[j]) != Illegal
    decreases |log|
  {
    var init := log[..|log| - 1];
    if j < |init| {
      LegalBefore(cors, init, ticket, j);
      assert init[..j] == log[..j];
    }
  }

  lemma ReachableLivesAreLegal(cors: Cors, steps: seq<Step>, s: Shell, ticket: nat)
    requires Reaches(cors, EMPTY_SHELL, steps, s)
    ensures PhaseOf(cors, s.log, ticket) != Illegal
  {
    hide Reaches, PhaseOf, Tracks;
    EmptyShellInv(cors);
    RunKeepsInv(cors, EMPTY_SHELL, steps, s);
    if ticket in TicketsOf(s.pending) {
      var i :| 0 <= i < |s.pending| && s.pending[i].ticket == ticket;
      TrackedIsUnderWay(cors, s.pending[i], PhaseOf(cors, s.log, ticket));
    }
  }

  // ---- Where plans come from ----------------------------------------------------------------------------

  /** `plan` is what the shell makes of this request of the page its tab shows, at its address of the moment. */
  predicate PlansFetch(cors: Cors, s: Shell, step: Step, plan: Plan) {
    && step.Fetch? && step.tab in s.pages && step.request.url.Some? && step.request.method_.Some?
    && var page := s.pages[step.tab];
       plan == PlanFor(cors, step.tab, page.document, page.url, step.request.(id := page.nextId),
                       step.request.url.value, step.request.method_.value, step.cookie)
  }

  ghost predicate AskedAt(cors: Cors, steps: seq<Step>, plan: Plan, k: nat, before: Shell) {
    && k < |steps| && Reaches(cors, EMPTY_SHELL, steps[..k], before)
    && PlansFetch(cors, before, steps[k], plan)
  }

  /** Some step of the run made this plan, for a page that was on show then. */
  ghost predicate WasAsked(cors: Cors, steps: seq<Step>, plan: Plan) {
    exists k: nat, before :: AskedAt(cors, steps, plan, k, before)
  }

  /** A pass sends and grants, it plans nothing. */
  lemma {:induction false} PassPlansNothing(cors: Cors, ts: seq<PendingPageFetch>, cs: seq<Completion>, i: nat)
    requires |ts| == |cs| && i < |PassOver(cors, ts, cs).log|
    ensures !PassOver(cors, ts, cs).log[i].Planned?
  {
    hide PassOver, ProgressOf;
    if ts == [] {
      PassOverNothing(cors);
    } else {
      var n := |ts| - 1;
      InitLast(ts);
      InitLast(cs);
      PassSnoc(cors, ts[..n], cs[..n], ts[n], cs[n]);
      if i < |PassOver(cors, ts[..n], cs[..n]).log| {
        PassPlansNothing(cors, ts[..n], cs[..n], i);
      }
    }
  }

  lemma {:induction false} EndPlansNothing(pages: map<nat, Page>, settled: seq<Settlement>, i: nat)
    requires i < |EndAll(pages, settled).log|
    ensures !EndAll(pages, settled).log[i].Planned?
  {
    hide EndAll, Received, Receiver;
    if settled == [] {
      EndNothing(pages);
    } else {
      var n := |settled| - 1;
      InitLast(settled);
      EndSnoc(pages, settled[..n], settled[n]);
      if i < |EndAll(pages, settled[..n]).log| {
        EndPlansNothing(pages, settled[..n], i);
      }
    }
  }

  lemma PollPlansNothing(cors: Cors, s: Shell, cs: seq<Completion>, i: nat)
    requires |cs| == |s.pending| && |s.log| <= i < |PollIn(cors, s, cs).log|
    ensures !PollIn(cors, s, cs).log[i].Planned?
  {
    hide PassOver, EndAll;
    var b := PassOver(cors, s.pending, cs);
    if i < |s.log| + |b.log| {
      PassPlansNothing(cors, s.pending, cs, i - |s.log|);
    } else {
      EndPlansNothing(s.pages, b.settled, i - |s.log| - |b.log|);
    }
  }

  /** A step only appends to the history, and plans only what a page asks for in that step. */
  lemma StepPlans(cors: Cors, s: Shell, step: Step)
    requires CanStep(s, step)
    ensures s.log <= Apply(cors, s, step).log
    ensures forall i :: |s.log| <= i < |Apply(cors, s, step).log| && Apply(cors, s, step).log[i].Planned? ==>
              PlansFetch(cors, s, step, Apply(cors, s, step).log[i].plan)
  {
    hide PlanFor, PassOver, EndAll;
    if step.Poll? {
      forall i | |s.log| <= i < |Apply(cors, s, step).log| ensures !Apply(cors, s, step).log[i].Planned? {
        PollPlansNothing(cors, s, step.completions, i);
      }
    }
  }

  /** The last step of a run. */
  lemma {:induction false} LastStep(cors: Cors, s: Shell, steps: seq<Step>, after: Shell) returns (before: Shell)
    requires steps != [] && Reaches(cors, s, steps, after)
    ensures Reaches(cors, s, steps[..|steps| - 1], before) && CanStep(before, steps[|steps| - 1])
    ensures after == Apply(cors, before, steps[|steps| - 1])
    decreases |steps|
  {
    hide Apply, CanStep;
    if |steps| == 1 {
      before := s;
      assert steps[1..] == [] && steps[..0] == [];
    } else {
      before := LastStep(cors, Apply(cors, s, steps[0]), steps[1..], after);
      assert steps[1..][..|steps[1..]| - 1] == steps[..|steps| - 1][1..];
    }
  }

  /** Over every run each plan was made for a page on show, at the address it had then. */
  lemma {:induction false} PlansWereAsked(cors: Cors, steps: seq<Step>, s: Shell, i: nat)
    requires Reaches(cors, EMPTY_SHELL, steps, s) && i < |s.log| && s.log[i].Planned?
    ensures WasAsked(cors, steps, s.log[i].plan)
    decreases |steps|
  {
    hide Reaches, Apply, CanStep, PlansFetch;
    if steps == [] {
      NothingReached(cors, s);
    } else {
      var n := |steps| - 1;
      var before := LastStep(cors, EMPTY_SHELL, steps, s);
      StepPlans(cors, before, steps[n]);
      if i < |before.log| {
        PlansWereAsked(cors, steps[..n], before, i);
        var k: nat, was :| AskedAt(cors, steps[..n], s.log[i].plan, k, was);
        assert steps[..n][..k] == steps[..k];
        assert AskedAt(cors, steps, s.log[i].plan, k, was);
      } else {
        assert AskedAt(cors, steps, s.log[i].plan, n, before);
      }
    }
  }

  lemma NothingReached(cors: Cors, s: Shell)
    requires Reaches(cors, EMPTY_SHELL, [], s)
    ensures s.log == []
  {
  }

  /** The ticket's plan before position `j` of a reachable history, and what the ticket did so far. */
  lemma PlanBefore(cors: Cors, steps: seq<Step>, s: Shell, j: nat) returns (plan: Plan)
    requires Reaches(cors, EMPTY_SHELL, steps, s) && j < |s.log| && !s.log[j].Planned?
    ensures Planned(s.log[j].ticket, plan) in s.log[..j] && WellPlanned(cors, plan) && WasAsked(cors, steps, plan)
    ensures
      var p := PhaseOf(cors, s.log[..j], s.log[j].ticket);
      && !p.Fresh? && !p.Illegal? && p.plan == plan && NextPhase(cors, p, s.log[j]) != Illegal
      && (p.Allowed? ==> PreflightPassed(cors, s.log[..j], s.log[j].ticket, plan))
      && (p.Fetching? ==> Sent(s.log[j].ticket, plan.actual) in s.log[..j])
  {
    hide Reaches, PhaseOf, WellPlanned, PreflightPassed, WasAsked, MayRead, PreflightAllows;
    var ticket := s.log[j].ticket;
    ReachableLivesAreLegal(cors, steps, s, ticket);
    LegalBefore(cors, s.log, ticket, j);
    PhaseRemembers(cors, s.log[..j], ticket);
    plan := PhaseOf(cors, s.log[..j], ticket).plan;
    var i :| 0 <= i < j && s.log[i] == Planned(ticket, plan);
    PlansWereAsked(cors, steps, s, i);
  }

  /**
   Every request submitted belongs to a transfer planned for a page that was on show, at
   the address it had then. When it leaves that page's origin and is not simple, it is
   sent only after its own preflight was sent and allowed it; what goes out before that
   is the preflight, without cookies or body, which asks for the method, the origin and
   the headers of that very request.
   */
  lemma PreflightComesFirst(cors: Cors, steps: seq<Step>, s: Shell, j: nat)
    requires Reaches(cors, EMPTY_SHELL, steps, s)
    requires j < |s.log| && s.log[j].Sent?
    ensures exists plan ::
              && Planned(s.log[j].ticket, plan) in s.log[..j] && WasAsked(cors, steps, plan)
              && s.log[j].request.url == plan.actual.url
              && if cors.crossOrigin(plan.pageUrl, s.log[j].request.url)
                    && !cors.simple(plan.actual.method_, plan.headers)
                 then
                   || (s.log[j].request == plan.actual
                       && PreflightPassed(cors, s.log[..j], s.log[j].ticket, plan))
                   || (s.log[j].request == plan.preflight && AsksPermission(cors, plan))
                 else s.log[j].request == plan.actual
  {
    hide Reaches, PhaseOf, PreflightPassed, WasAsked;
    var plan := PlanBefore(cors, steps, s, j);
    assert Planned(s.log[j].ticket, plan) in s.log[..j];
  }

  /**
   Every settlement ends a transfer planned for a page that was on show. It delivers a
   response only after the actual request went out, and, across origins, only if CORS
   lets that page's origin read it; with credentials, only if the response allows them.
   */
  lemma ScriptsSeeWhatCorsAllows(cors: Cors, steps: seq<Step>, s: Shell, j: nat)
    requires Reaches(cors, EMPTY_SHELL, steps, s)
    requires j < |s.log| && s.log[j].Ended?
    ensures exists plan ::
              && Planned(s.log[j].ticket, plan) in s.log[..j] && WasAsked(cors, steps, plan)
              && s.log[j].asker == plan.document
              && (s.log[j].outcome.Success? ==>
                    && Sent(s.log[j].ticket, plan.actual) in s.log[..j]
                    && (cors.crossOrigin(plan.pageUrl, plan.actual.url) ==>
                          CorsLetsRead(cors, plan, s.log[j].outcome.response)))
  {
    hide Reaches, PhaseOf, WellPlanned, WasAsked;
    var plan := PlanBefore(cors, steps, s, j);
    assert Planned(s.log[j].ticket, plan) in s.log[..j];
  }

  /** A request that does not parse ends its wait at once and sends nothing; any other one of a page is sent. */
  lemma UnparsableIsSettled(cors: Cors, s: Shell, tab: nat, request: PendingFetch, cookie: Option<string>)
    requires tab in s.pages
    ensures
      var id, after := s.pages[tab].nextId, Apply(cors, s, Fetch(tab, request, cookie));
      if request.url.None? || request.method_.None?
      then after.log == s.log && after.pending == s.pending && id !in after.pages[tab].waiting
      else
        && |after.log| == |s.log| + 2 && after.log[|s.log|].Planned? && after.log[|s.log| + 1].Sent?
        && |after.pending| == |s.pending| + 1 && id in after.pages[tab].waiting
  {
    hide PlanFor;
  }

  // ---- One completion -------------------------------------------------------------------------------------

  /**
   A completion takes a transfer forward or leaves it alone: it stays only while nothing
   arrived, goes from an allowed preflight to the actual request of its plan and nothing
   else, and otherwise ends for good.
   */
  lemma CompletionMovesForward(cors: Cors, t: PendingPageFetch, c: Completion, p: Phase)
    requires Tracks(cors, t, p)
    ensures
      match ProgressOf(cors, t, c)
      case Stays => c.Waiting?
      case Proceeds(next, response, actual) =>
        var sent := NextPhase(cors, NextPhase(cors, p, Granted(t.ticket, response)), Sent(t.ticket, actual));
        && p.Preflighting? && c == Completed(response) && actual == p.plan.actual
        && Tracks(cors, next, sent)
        && next.ticket == t.ticket && next.tab == t.tab && next.id == t.id && next.document == t.document
      case Settles(outcome) =>
        && !c.Waiting? && (outcome.Success? ==> p.Fetching?)
        && forall to :: NextPhase(cors, p, Ended(t.ticket, t.document, to, outcome)) == Over(p.plan, outcome)
  {
  }

  /** A response is delivered exactly when it does not leave the page's origin or CORS lets the page read it. */
  lemma DeliveredIffReadable(cors: Cors, t: PendingPageFetch, response: FetchResponse, p: Phase)
    requires Tracks(cors, t, p) && t.stage.Response?
    ensures
      var outcome := OutcomeOf(cors, t.stage.origin, t.stage.credentials, response);
      && (outcome.Success? <==> !Foreign(cors, p.plan) || CorsLetsRead(cors, p.plan, response))
      && (outcome.Success? ==> outcome.response == response && (outcome.allHeaders <==> !Foreign(cors, p.plan)))
      && (!outcome.Success? ==> outcome == Blocked)
  {
  }

  // ---- What a page may send ---------------------------------------------------------------------------

  /** `kept` has every header at these positions, which are those of the allowed ones. */
  ghost predicate KeepsAllowed(cors: Cors, headers: Headers, kept: Headers, at: seq<nat>) {
    && StandsAt(headers, kept, at)
    && (forall p: nat :: p in at <==> p < |headers| && !cors.forbidden(headers[p].0))
  }

  lemma {:induction false} AuthorHeadersKeepOrder(cors: Cors, headers: Headers) returns (at: seq<nat>)
    ensures KeepsAllowed(cors, headers, AuthorHeaders(cors, headers), at)
  {
    if headers == [] {
      at := [];
    } else {
      var n := |headers| - 1;
      var before := AuthorHeadersKeepOrder(cors, headers[..n]);
      InitLast(headers);
      if cors.forbidden(headers[n].0) {
        at := before;
        StandsAtStill(headers[..n], AuthorHeaders(cors, headers[..n]), before, headers[n]);
      } else {
        at := before + [n];
        StandsAtSnoc(headers[..n], AuthorHeaders(cors, headers[..n]), before, headers[n]);
      }
      hide StandsAt, AuthorHeaders;
      assert forall p: nat :: p in at <==> p in before || (p == n && !cors.forbidden(headers[n].0));
    }
  }

  /** `kept` has every header at these positions, which are those of all but the `Accept` lines. */
  ghost predicate KeepsAllButAccept(headers: Headers, kept: Headers, at: seq<nat>) {
    && StandsAt(headers, kept, at)
    && (forall p: nat :: p in at <==> p < |headers| && !SameName(headers[p].0, "accept"))
  }

  /** The last `Accept` line says what the transport sends for it. */
  predicate LastAccept(headers: Headers, accept: Option<string>) {
    match accept
    case None => forall i :: 0 <= i < |headers| ==> !SameName(headers[i].0, "accept")
    case Some(value) =>
      exists i :: 0 <= i < |headers| && SameName(headers[i].0, "accept") && headers[i].1 == value
                  && forall j :: i < j < |headers| ==> !SameName(headers[j].0, "accept")
  }

  lemma {:induction false} WithHeadersKeepsOrder(request: FetchRequest, headers: Headers)
    returns (kept: Headers, at: seq<nat>)
    requires request.headers == [] && request.accept == None
    ensures WithHeaders(request, headers).headers == kept && KeepsAllButAccept(headers, kept, at)
    ensures LastAccept(headers, WithHeaders(request, headers).accept)
  {
    hide SameName;
    if headers == [] {
      kept, at := [], [];
    } else {
      var n := |headers| - 1;
      var init, positions := WithHeadersKeepsOrder(request, headers[..n]);
      InitLast(headers);
      if SameName(headers[n].0, "accept") {
        kept, at := init, positions;
        StandsAtStill(headers[..n], init, positions, headers[n]);
      } else {
        kept, at := init + [headers[n]], positions + [n];
        StandsAtSnoc(headers[..n], init, positions, headers[n]);
        AcceptStays(headers[..n], headers[n], WithHeaders(request, headers[..n]).accept);
      }
      hide StandsAt, WithHeaders;
      assert forall p: nat :: p in at <==> p in positions || (p == n && !SameName(headers[n].0, "accept"));
    }
  }

  lemma AcceptStays(headers: Headers, h: (string, string), accept: Option<string>)
    requires LastAccept(headers, accept) && !SameName(h.0, "accept")
    ensures LastAccept(headers + [h], accept)
  {
    hide SameName;
    if accept.Some? {
      var i :| 0 <= i < |headers| && SameName(headers[i].0, "accept") && headers[i].1 == accept.value
               && forall j :: i < j < |headers| ==> !SameName(headers[j].0, "accept");
      assert (headers + [h])[i] == headers[i];
    }
  }

  /**
   What goes out for a page. Its own headers without the forbidden ones, in its order,
   where `Accept` has a field of its own; for another origin then the referrer and the
   origin; cookies always to the page's own origin, whatever the credentials mode, and to
   another origin only when the page includes credentials.
   */
  lemma PagesSendOnlyWhatTheyMay(cors: Cors, tab: nat, document: nat, pageUrl: Url, request: PendingFetch, url: Url,
                                 method_: HttpMethod, cookie: Option<string>)
    returns (allowed: seq<nat>, lines: Headers, at: seq<nat>)
    ensures
      var plan := PlanFor(cors, tab, document, pageUrl, request, url, method_, cookie);
      var foreign := cors.crossOrigin(pageUrl, url);
      && plan.tab == tab && plan.document == document && plan.pageUrl == pageUrl
      && plan.credentials == (!foreign || request.credentials.Include?)
      && plan.actual.url == url && plan.actual.method_ == method_ && plan.actual.body == request.body
      && plan.actual.byteRange.None? && plan.actual.cacheValidators.None?
      && plan.actual.cookie == (if foreign && !request.credentials.Include? then None else cookie)
      && KeepsAllowed(cors, request.headers, plan.headers, allowed)
      && KeepsAllButAccept(plan.headers, lines, at) && LastAccept(plan.headers, plan.actual.accept)
      && plan.actual.headers ==
         lines + if foreign then [("Referer", cors.referer(pageUrl, url)), ("Origin", cors.originOf(pageUrl))] else []
  {
    hide WithHeaders, AuthorHeaders, PreflightRequest, SameName, KeepsAllowed, KeepsAllButAccept, LastAccept;
    var headers := AuthorHeaders(cors, request.headers);
    allowed := AuthorHeadersKeepOrder(cors, request.headers);
    WithHeadersKeeps(NewRequest(method_, url), headers);
    lines, at := WithHeadersKeepsOrder(NewRequest(method_, url), headers);
  }
}
