/**
 `fetch()` and XHR transfers the shell carries out for pages
 (`submit_page_fetch`, `poll_pending_fetch_settlements`, `page_fetch_outcome`;
 "CORS-preflight fetch", section 4.8 of the WHATWG Fetch standard).

 Every transfer carries two fields that only the model needs: a ticket that names
 it for good, and the document that asked for it.
 */
module PageFetches {
  import opened Text
  import opened HttpTypes

  type Headers = seq<(string, string)>

  /** The decisions of the CORS rules; everything below holds whatever they are. */
  datatype Cors = Cors(
    crossOrigin: (Url, Url) -> bool,
    originOf: Url -> string,
    referer: (Url, Url) -> string,
    forbidden: string -> bool,
    simple: (HttpMethod, Headers) -> bool,
    requestHeaderNames: Headers -> Option<string>,
    preflightAllows: (FetchResponse, string, HttpMethod, Headers) -> bool,
    responseAllows: (FetchResponse, string) -> bool,
    responseAllowsCredentials: (FetchResponse, string) -> bool)

  datatype Credentials = Include | SameOrigin | Omit

  /** A request of a page's script; `url` and `method_` are absent when they do not parse. */
  datatype PendingFetch = PendingFetch(
    id: nat,
    url: Option<Url>,
    method_: Option<HttpMethod>,
    headers: Headers,
    body: Option<seq<bv8>>,
    credentials: Credentials)

  /** What a transfer does when the request it is waiting on completes. */
  datatype Stage =
    | Response(origin: Option<string>, credentials: bool)
    | Preflight(asOrigin: string, method_: HttpMethod, headers: Headers, actual: FetchRequest, withCredentials: bool)

  datatype PendingPageFetch = PendingPageFetch(tab: nat, id: nat, stage: Stage, ticket: nat, document: nat)

  /** What the transport reports about a request in flight. */
  datatype Completion = Waiting | Completed(response: FetchResponse) | Broken

  /** What a transfer settles with; the flags say what else the shell does with the response. */
  datatype Outcome =
    | Success(response: FetchResponse, allHeaders: bool, absorbsCookies: bool)
    | Blocked
    | TransferError

  // ---- The requests -----------------------------------------------------------------------------

  function NewRequest(method_: HttpMethod, url: Url): FetchRequest {
    FetchRequest(url, method_, [], None, None, None, None, None)
  }

  function WithHeader(request: FetchRequest, name: string, value: string): FetchRequest {
    request.(headers := request.headers + [(name, value)])
  }

  /** `Accept` has a field of its own in a request; the last one given counts. */
  function WithHeaders(request: FetchRequest, headers: Headers): FetchRequest {
    if headers == [] then request
    else
      var init, h := headers[..|headers| - 1], headers[|headers| - 1];
      var r := WithHeaders(request, init);
      if SameName(h.0, "accept") then r.(accept := Some(h.1)) else WithHeader(r, h.0, h.1)
  }

  /** The headers a page may set, in its order. */
  function AuthorHeaders(cors: Cors, headers: Headers): Headers {
    if headers == [] then []
    else
      var init, h := headers[..|headers| - 1], headers[|headers| - 1];
      if cors.forbidden(h.0) then AuthorHeaders(cors, init) else AuthorHeaders(cors, init) + [h]
  }

  function MethodName(method_: HttpMethod): string {
    match method_
    case Get => "GET"
    case Post => "POST"
    case Put => "PUT"
    case Delete => "DELETE"
    case Head => "HEAD"
    case Options => "OPTIONS"
    case Patch => "PATCH"
  }

  /** How a method token is read; anything else is no method. */
  function FromWire(token: string): Option<HttpMethod> {
    if token == "GET" then Some(Get)
    else if token == "POST" then Some(Post)
    else if token == "PUT" then Some(Put)
    else if token == "DELETE" then Some(Delete)
    else if token == "HEAD" then Some(Head)
    else if token == "OPTIONS" then Some(Options)
    else if token == "PATCH" then Some(Patch)
    else None
  }

  /** Every method is read back from its name, and nothing else is read as that method. */
  lemma MethodNamesParse(method_: HttpMethod, token: string)
    ensures FromWire(token) == Some(method_) <==> token == MethodName(method_)
  {
  }

  /** The preflight carries neither cookies nor a body. */
  function PreflightRequest(cors: Cors, url: Url, origin: string, method_: HttpMethod, headers: Headers): FetchRequest {
    var asked := WithHeader(
                   WithHeader(NewRequest(Options, url), "Origin", origin),
                   "Access-Control-Request-Method", MethodName(method_));
    var names := cors.requestHeaderNames(headers);
    if names.Some? then WithHeader(asked, "Access-Control-Request-Headers", names.value) else asked
  }

  /** Everything that is decided about a transfer when it is accepted; `pageUrl` is the page's address then. */
  datatype Plan = Plan(
    tab: nat,
    document: nat,
    pageUrl: Url,
    origin: Option<string>,
    needsPreflight: bool,
    credentials: bool,
    method_: HttpMethod,
    headers: Headers,
    preflight: FetchRequest,
    actual: FetchRequest)

  /**
   The plan for a request of a page at `pageUrl`. `cookie` is what the cookie jar
   holds for the target. Only a cross-origin request looks at the credentials mode.
   */
  function PlanFor(cors: Cors, tab: nat, document: nat, pageUrl: Url, request: PendingFetch, url: Url,
                   method_: HttpMethod, cookie: Option<string>): Plan
  {
    var headers := AuthorHeaders(cors, request.headers);
    var base := WithHeaders(NewRequest(method_, url), headers).(body := request.body);
    var origin := cors.originOf(pageUrl);
    var preflight := PreflightRequest(cors, url, origin, method_, headers);
    if !cors.crossOrigin(pageUrl, url) then
      Plan(tab, document, pageUrl, None, false, true, method_, headers, preflight, base.(cookie := cookie))
    else
      var referred := WithHeader(base, "Referer", cors.referer(pageUrl, url));
      var credentialed := request.credentials.Include?;
      var decorated := if credentialed then referred.(cookie := cookie) else referred;
      Plan(tab, document, pageUrl, Some(origin), !cors.simple(method_, headers), credentialed, method_, headers,
           preflight, WithHeader(decorated, "Origin", origin))
  }

  /** Where a planned transfer starts. */
  function FirstStage(plan: Plan): Stage
    requires plan.needsPreflight ==> plan.origin.Some?
  {
    if plan.needsPreflight
    then Preflight(plan.origin.value, plan.method_, plan.headers, plan.actual, plan.credentials)
    else Response(plan.origin, plan.credentials)
  }

  function FirstRequest(plan: Plan): FetchRequest {
    if plan.needsPreflight then plan.preflight else plan.actual
  }

  // ---- Responses ----------------------------------------------------------------------------------

  function OutcomeOf(cors: Cors, origin: Option<string>, credentials: bool, response: FetchResponse): Outcome {
    if origin.Some? && !(if credentials then cors.responseAllowsCredentials(response, origin.value)
                         else cors.responseAllows(response, origin.value))
    then Blocked
    else Success(response, origin.None?, origin.None? || credentials)
  }

  /** The history of the shell's transfers. */
  datatype Event =
    | Planned(ticket: nat, plan: Plan)
    | Sent(ticket: nat, request: FetchRequest)
    | Granted(ticket: nat, response: FetchResponse)
    /** `to` is the document whose script saw the outcome, if any did. */
    | Ended(ticket: nat, asker: nat, to: Option<nat>, outcome: Outcome)

  /** What one polling pass makes of one transfer. */
  datatype Progress =
    | Stays
    | Proceeds(next: PendingPageFetch, response: FetchResponse, actual: FetchRequest)
    | Settles(outcome: Outcome)

  function ProgressOf(cors: Cors, t: PendingPageFetch, c: Completion): Progress {
    match c
    case Waiting => Stays
    case Broken => Settles(TransferError)
    case Completed(response) =>
      match t.stage
      case Response(origin, credentials) => Settles(OutcomeOf(cors, origin, credentials, response))
      case Preflight(origin, method_, headers, actual, credentials) =>
        if cors.preflightAllows(response, origin, method_, headers)
        then Proceeds(t.(stage := Response(Some(origin), credentials)), response, actual)
        else Settles(Blocked)
  }

  datatype Settlement = Settlement(transfer: PendingPageFetch, outcome: Outcome)

  datatype Pass = Pass(waiting: seq<PendingPageFetch>, settled: seq<Settlement>, log: seq<Event>)

  /** The pass over all transfers in order: who keeps waiting, who settles, and what is sent. */
  function PassOver(cors: Cors, ts: seq<PendingPageFetch>, cs: seq<Completion>): Pass
    requires |ts| == |cs|
  {
    if ts == [] then Pass([], [], [])
    else
      var t := ts[|ts| - 1];
      var before := PassOver(cors, ts[..|ts| - 1], cs[..|cs| - 1]);
      match ProgressOf(cors, t, cs[|cs| - 1])
      case Stays => before.(waiting := before.waiting + [t])
      case Settles(outcome) => before.(settled := before.settled + [Settlement(t, outcome)])
      case Proceeds(next, response, actual) =>
        before.(waiting := before.waiting + [next],
                log := before.log + [Granted(t.ticket, response), Sent(t.ticket, actual)])
  }

  // ---- The shell ------------------------------------------------------------------------------------

  /** A tab's page: its document, the ids its runtime has given out, and those it still waits for. */
  datatype Page = Page(document: nat, url: Url, nextId: nat, waiting: set<nat>)

  datatype Shell = Shell(
    pages: map<nat, Page>,
    nextTab: nat,
    pending: seq<PendingPageFetch>,
    tickets: nat,
    log: seq<Event>)

  const EMPTY_SHELL: Shell := Shell(map[], 0, [], 0, [])

  /** A runtime ignores the outcome of an id it does not wait for. */
  function Receiver(pages: map<nat, Page>, tab: nat, id: nat): Option<nat> {
    if tab in pages && id in pages[tab].waiting then Some(pages[tab].document) else None
  }

  function Received(pages: map<nat, Page>, tab: nat, id: nat): map<nat, Page> {
    if tab in pages then pages[tab := pages[tab].(waiting := pages[tab].waiting - {id})] else pages
  }

  datatype Ending = Ending(pages: map<nat, Page>, log: seq<Event>)

  /** Settles transfers one after the other; the transfers of a closed tab are dropped. */
  function EndAll(pages: map<nat, Page>, settled: seq<Settlement>): Ending {
    if settled == [] then Ending(pages, [])
    else
      var before := EndAll(pages, settled[..|settled| - 1]);
      var s := settled[|settled| - 1];
      Ending(Received(before.pages, s.transfer.tab, s.transfer.id), before.log + [EndOf(before.pages, s)])
  }

  function EndOf(pages: map<nat, Page>, s: Settlement): Event {
    Ended(s.transfer.ticket, s.transfer.document, Receiver(pages, s.transfer.tab, s.transfer.id), s.outcome)
  }

  function SubmitIn(cors: Cors, s: Shell, tab: nat, request: PendingFetch, cookie: Option<string>): Shell {
    if request.url.None? || request.method_.None? then s.(pages := Received(s.pages, tab, request.id))
    else if tab !in s.pages then s
    else
      var page := s.pages[tab];
      var plan := PlanFor(cors, tab, page.document, page.url, request, request.url.value, request.method_.value, cookie);
      s.(pending := s.pending + [PendingPageFetch(tab, request.id, FirstStage(plan), s.tickets, page.document)],
         tickets := s.tickets + 1,
         log := s.log + [Planned(s.tickets, plan), Sent(s.tickets, FirstRequest(plan))])
  }

  function PollIn(cors: Cors, s: Shell, cs: seq<Completion>): Shell
    requires |cs| == |s.pending|
  {
    var pass := PassOver(cors, s.pending, cs);
    var ending := EndAll(s.pages, pass.settled);
    s.(pages := ending.pages, pending := pass.waiting, log := s.log + pass.log + ending.log)
  }

  // ---- The methods --------------------------------------------------------------------------------

  class PageFetchShell {
    const cors: Cors
    var pages: map<nat, Page>
    var nextTab: nat
    var pendingFetches: seq<PendingPageFetch>
    /** Numbers the transfers; a handle has an identity of its own in the source. */
    var tickets: nat
    ghost var log: seq<Event>

    ghost function State(): Shell
      reads this
    {
      Shell(pages, nextTab, pendingFetches, tickets, log)
    }

    constructor (cors: Cors)
      ensures this.cors == cors && State() == EMPTY_SHELL
    {
      this.cors := cors;
      pages, nextTab, pendingFetches := map[], 0, [];
      tickets, log := 0, [];
    }

    /** The author headers of the request, `Accept` apart, one at a time. */
    method AddHeaders(request: FetchRequest, headers: Headers) returns (r: FetchRequest)
      ensures r == WithHeaders(request, headers)
    {
      r := request;
      for i := 0 to |headers|
        invariant r == WithHeaders(request, headers[..i])
      {
        TakeNext(headers, i);
        assert headers[..i + 1][..i] == headers[..i];
        var h := headers[i];
        r := if SameName(h.0, "accept") then r.(accept := Some(h.1)) else WithHeader(r, h.0, h.1);
      }
      assert headers[..|headers|] == headers;
    }

    /** Puts a transfer in flight: its first request is sent at once. */
    method PushFetch(tab: nat, id: nat, stage: Stage, document: nat, ghost plan: Plan, ghost sent: FetchRequest)
      modifies this`pendingFetches, this`tickets, this`log
      ensures pendingFetches == old(pendingFetches) + [PendingPageFetch(tab, id, stage, old(tickets), document)]
      ensures tickets == old(tickets) + 1
      ensures log == old(log) + [Planned(old(tickets), plan), Sent(old(tickets), sent)]
    {
      pendingFetches := pendingFetches + [PendingPageFetch(tab, id, stage, tickets, document)];
      log := log + [Planned(tickets, plan), Sent(tickets, sent)];
      tickets := tickets + 1;
    }

    method SettleFetch(tab: nat, id: nat) returns (receiver: Option<nat>)
      modifies this`pages
      ensures pages == Received(old(pages), tab, id) && receiver == Receiver(old(pages), tab, id)
    {
      receiver := None;
      if tab in pages {
        var page := pages[tab];
        if id in page.waiting {
          receiver := Some(page.document);
        }
        pages := pages[tab := page.(waiting := page.waiting - {id})];
      }
    }

    method SubmitPageFetch(tab: nat, request: PendingFetch, cookie: Option<string>)
      modifies this
      ensures State() == SubmitIn(cors, old(State()), tab, request, cookie)
    {
      hide WithHeaders, AuthorHeaders, Received, Receiver;
      if request.url.None? || request.method_.None? {
        var _ := SettleFetch(tab, request.id);
        return;
      }
      if tab !in pages {
        return;
      }
      var url, method_, page := request.url.value, request.method_.value, pages[tab];
      ghost var plan := PlanFor(cors, tab, page.document, page.url, request, url, method_, cookie);
      var headers := AuthorHeaders(cors, request.headers);
      var fetch := AddHeaders(NewRequest(method_, url), headers);
      fetch := fetch.(body := request.body);
      if !cors.crossOrigin(page.url, url) {
        fetch := fetch.(cookie := cookie);
        PushFetch(tab, request.id, Response(None, true), page.document, plan, fetch);
        return;
      }
      fetch := WithHeader(fetch, "Referer", cors.referer(page.url, url));
      var includeCredentials := request.credentials.Include?;
      if includeCredentials {
        fetch := fetch.(cookie := cookie);
      }
      var origin := cors.originOf(page.url);
      fetch := WithHeader(fetch, "Origin", origin);
      if cors.simple(method_, headers) {
        PushFetch(tab, request.id, Response(Some(origin), includeCredentials), page.document, plan, fetch);
      } else {
        var preflight := PreflightRequest(cors, url, origin, method_, headers);
        PushFetch(tab, request.id, Preflight(origin, method_, headers, fetch, includeCredentials), page.document, plan,
                  preflight);
      }
    }

    /** Hands the outcomes to the pages, after the pass, in the order they were found. */
    method SettleAll(settled: seq<Settlement>)
      modifies this`pages, this`log
      ensures pages == EndAll(old(pages), settled).pages
      ensures log == old(log) + EndAll(old(pages), settled).log
    {
      hide Received, Receiver;
      assert settled[..0] == [];
      for i := 0 to |settled|
        invariant pages == EndAll(old(pages), settled[..i]).pages
        invariant log == old(log) + EndAll(old(pages), settled[..i]).log
      {
        EndOneMore(old(pages), settled, i);
        var t := settled[i].transfer;
        var receiver := SettleFetch(t.tab, t.id);
        log := log + [Ended(t.ticket, t.document, receiver, settled[i].outcome)];
      }
      assert settled[..|settled|] == settled;
    }

    method PollPendingFetchSettlements(completions: seq<Completion>)
      requires |completions| == |pendingFetches|
      modifies this
      ensures State() == PollIn(cors, old(State()), completions)
    {
      hide PassOver, EndAll, ProgressOf;
      var taken := pendingFetches;
      pendingFetches := [];
      var waiting: seq<PendingPageFetch>, settled: seq<Settlement> := [], [];
      ghost var sent: seq<Event> := [];
      PassOverNothing(cors);
      assert taken[..0] == [] && completions[..0] == [];
      for i := 0 to |taken|
        invariant Pass(waiting, settled, sent) == PassOver(cors, taken[..i], completions[..i])
        modifies {}
      {
        PassOneMore(cors, taken, completions, i);
        var t := taken[i];
        var progress := HandleCompletion(t, completions[i]);
        match progress {
          case Stays => waiting := waiting + [t];
          case Settles(outcome) => settled := settled + [Settlement(t, outcome)];
          case Proceeds(next, response, actual) =>
            sent := sent + [Granted(t.ticket, response), Sent(t.ticket, actual)];
            waiting := waiting + [next];
        }
      }
      assert taken[..|taken|] == taken && completions[..|taken|] == completions;
      pendingFetches := waiting;
      log := log + sent;
      SettleAll(settled);
    }

    method HandleCompletion(t: PendingPageFetch, c: Completion) returns (progress: Progress)
      ensures progress == ProgressOf(cors, t, c)
    {
      match c {
        case Waiting => return Stays;
        case Broken => return Settles(TransferError);
        case Completed(response) =>
          match t.stage {
            case Preflight(origin, method_, headers, actual, credentials) =>
              if cors.preflightAllows(response, origin, method_, headers) {
                return Proceeds(t.(stage := Response(Some(origin), credentials)), response, actual);
              }
              return Settles(Blocked);
            case Response(origin, credentials) =>
              var outcome := PageFetchOutcome(origin, credentials, response);
              return Settles(outcome);
          }
      }
    }

    method PageFetchOutcome(origin: Option<string>, credentials: bool, response: FetchResponse) returns (outcome: Outcome)
      ensures outcome == OutcomeOf(cors, origin, credentials, response)
    {
      if origin.Some? {
        var allowed := if credentials then cors.responseAllowsCredentials(response, origin.value)
                       else cors.responseAllows(response, origin.value);
        if !allowed {
          return Blocked;
        }
      }
      var absorbs := false;
      if origin.None? || credentials {
        absorbs := true;
      }
      return Success(response, origin.None?, absorbs);
    }
  }

  lemma PassOverNothing(cors: Cors)
    ensures PassOver(cors, [], []) == Pass([], [], [])
  {
  }

  lemma PassSnoc(cors: Cors, ts: seq<PendingPageFetch>, cs: seq<Completion>, t: PendingPageFetch, c: Completion)
    requires |ts| == |cs|
    ensures
      var before := PassOver(cors, ts, cs);
      PassOver(cors, ts + [t], cs + [c]) ==
      match ProgressOf(cors, t, c)
      case Stays => before.(waiting := before.waiting + [t])
      case Settles(outcome) => before.(settled := before.settled + [Settlement(t, outcome)])
      case Proceeds(next, response, actual) =>
        before.(waiting := before.waiting + [next],
                log := before.log + [Granted(t.ticket, response), Sent(t.ticket, actual)])
  {
    hide ProgressOf;
    assert (ts + [t])[..|ts|] == ts && (cs + [c])[..|cs|] == cs;
  }

  lemma PassOneMore(cors: Cors, ts: seq<PendingPageFetch>, cs: seq<Completion>, i: nat)
    requires i < |ts| == |cs|
    ensures
      var before := PassOver(cors, ts[..i], cs[..i]);
      PassOver(cors, ts[..i + 1], cs[..i + 1]) ==
      match ProgressOf(cors, ts[i], cs[i])
      case Stays => before.(waiting := before.waiting + [ts[i]])
      case Settles(outcome) => before.(settled := before.settled + [Settlement(ts[i], outcome)])
      case Proceeds(next, response, actual) =>
        before.(waiting := before.waiting + [next],
                log := before.log + [Granted(ts[i].ticket, response), Sent(ts[i].ticket, actual)])
  {
    hide ProgressOf, PassOver;
    TakeNext(ts, i);
    TakeNext(cs, i);
    PassSnoc(cors, ts[..i], cs[..i], ts[i], cs[i]);
  }

  lemma EndSnoc(pages: map<nat, Page>, settled: seq<Settlement>, s: Settlement)
    ensures EndAll(pages, settled + [s]) ==
            var before := EndAll(pages, settled);
            Ending(Received(before.pages, s.transfer.tab, s.transfer.id), before.log + [EndOf(before.pages, s)])
  {
    hide Received, EndOf;
    assert (settled + [s])[..|settled|] == settled;
  }

  lemma EndOneMore(pages: map<nat, Page>, settled: seq<Settlement>, i: nat)
    requires i < |settled|
    ensures EndAll(pages, settled[..i + 1]) ==
            var before := EndAll(pages, settled[..i]);
            Ending(Received(before.pages, settled[i].transfer.tab, settled[i].transfer.id),
                   before.log + [EndOf(before.pages, settled[i])])
  {
    hide Received, EndOf, EndAll;
    TakeNext(settled, i);
    EndSnoc(pages, settled[..i], settled[i]);
  }
}
