/**
 Which exchanges the cache accepts, and the request values that select a stored
 response (`cache_policy`, `CacheKey`, `VaryVariant`, `request_header_value`).
 */
module CachePolicy {
  import opened Text
  import opened HttpTypes
  import opened FieldValues
  import opened FieldScanner
  import opened HeaderLists
  import opened CacheControl

  /** Primary key: the URL without its fragment, and the transport's `Accept` value. */
  datatype CacheKey = CacheKey(fetchUrl: string, accept: Option<string>)

  function KeyOf(request: FetchRequest): CacheKey {
    CacheKey(request.url.text, request.accept)
  }

  /** Two requests for the same resource: the same URL up to its fragment, and the same `Accept` field. */
  predicate SameTarget(a: FetchRequest, b: FetchRequest) {
    a.url.text == b.url.text && a.accept == b.accept
  }

  /** Keys tell exactly the targets apart. */
  lemma KeysTellTargets(a: FetchRequest, b: FetchRequest)
    ensures KeyOf(a) == KeyOf(b) <==> SameTarget(a, b)
  {
  }

  function RequestSkipReason(request: FetchRequest): Option<SkipReason> {
    if request.url.Scheme() != "http" && request.url.Scheme() != "https" then Some(UnsupportedScheme)
    else if request.method_ != Get then Some(NonGetMethod)
    else if request.cookie.Some? then Some(RequestHasCookie)
    else if request.byteRange.Some? then Some(RequestHasByteRange)
    else None
  }

  predicate SameFetchUrl(a: Url, b: Url) {
    a.text == b.text
  }

  /** The response answers this very request, without redirects. */
  predicate Direct(request: FetchRequest, response: FetchResponse) {
    && SameFetchUrl(request.url, response.requestedUrl)
    && SameFetchUrl(request.url, response.finalUrl)
    && response.redirects == []
    && |response.redirectChain| <= 1
  }

  function PolicyFor(request: FetchRequest, response: FetchResponse): Policy {
    if RequestSkipReason(request).Some? then Skip(RequestSkipReason(request).value)
    else if response.status != 200 then Skip(ResponseStatus(response.status))
    else if !Direct(request, response) then Skip(Redirected)
    else if HasHeader(response.headers, "set-cookie") then Skip(ResponseSetsCookie)
    else if VarySelectors(response.headers).None? then Skip(Vary)
    else CacheControlPolicy(response.headers)
  }

  // ---- Selecting values -----------------------------------------------------------

  type RequestLines = seq<(string, string)>

  /** The values of every request line of that name, in order. */
  function LineValues(lines: RequestLines, name: string): seq<string> {
    if lines == [] then []
    else
      var init, line := lines[..|lines| - 1], lines[|lines| - 1];
      if SameName(line.0, name) then LineValues(init, name) + [line.1] else LineValues(init, name)
  }

  function NormalizeEach(values: seq<string>): (r: seq<string>)
    ensures |r| == |values|
  {
    seq(|values|, i requires 0 <= i < |values| => Normalized(values[i]))
  }

  /** The combined value of a request field; absent is not the same as empty. */
  function RequestHeaderValue(request: FetchRequest, name: string): Option<string> {
    var lines := LineValues(request.headers, name);
    var values :=
      if lines == [] && SameName(name, "accept") && request.accept.Some? then [request.accept.value] else lines;
    if values == [] then None else Some(Join(NormalizeEach(values)))
  }

  /** Selecting names with the request values that selected the response. */
  type Variant = seq<(string, Option<string>)>

  function VariantFor(request: FetchRequest, headers: seq<Header>): Option<Variant> {
    match VarySelectors(headers)
    case None => None
    case Some(names) =>
      Some(seq(|names|, i requires 0 <= i < |names| => (names[i], RequestHeaderValue(request, names[i]))))
  }

  predicate Matches(variant: Variant, request: FetchRequest) {
    forall i :: 0 <= i < |variant| ==> RequestHeaderValue(request, variant[i].0) == variant[i].1
  }

  /** Two requests carry the same value of every field the response varies on. */
  ghost predicate AgreeOnVary(a: FetchRequest, b: FetchRequest, headers: seq<Header>) {
    && VarySelectors(headers).Some?
    && forall name :: name in VarySelectors(headers).value ==> RequestHeaderValue(a, name) == RequestHeaderValue(b, name)
  }

  /** A stored variant matches exactly the requests that agree with the storing one. */
  lemma MatchesMeansAgreement(stored: FetchRequest, request: FetchRequest, headers: seq<Header>)
    requires VariantFor(stored, headers).Some?
    ensures Matches(VariantFor(stored, headers).value, request) <==> AgreeOnVary(stored, request, headers)
  {
    hide VarySelectors, RequestHeaderValue;
    var names, variant := VarySelectors(headers).value, VariantFor(stored, headers).value;
    if Matches(variant, request) {
      forall name | name in names ensures RequestHeaderValue(stored, name) == RequestHeaderValue(request, name) {
        var i :| 0 <= i < |names| && names[i] == name;
        assert variant[i].0 == name;
      }
    }
    if AgreeOnVary(stored, request, headers) {
      forall i | 0 <= i < |variant| ensures RequestHeaderValue(request, variant[i].0) == variant[i].1 {
        assert names[i] in names;
      }
    }
  }

  lemma {:induction false} LineValuesConcat(a: RequestLines, b: RequestLines, name: string)
    ensures LineValues(a + b, name) == LineValues(a, name) + LineValues(b, name)
    decreases |b|
  {
    if b == [] {
      assert a + b == a;
    } else {
      LineValuesConcat(a, b[..|b| - 1], name);
      InitConcat(a, b);
    }
  }

  /** Two values in a row, or one value joined by a comma, combine to the same text. */
  lemma JoinPair(a: seq<string>, x: string, y: string, b: seq<string>)
    requires Closed(x)
    ensures
      Join(NormalizeEach(a + [x, y] + b)) == Join(NormalizeEach(a + [x + [','] + y] + b))
  {
    hide Join, Normalized, Members, ModeAfter;
    var p, q := NormalizeEach(a), NormalizeEach(b);
    var u, v := Normalized(x), Normalized(y);
    assert NormalizeEach(a + [x, y] + b) == p + [u] + [v] + q;
    assert NormalizeEach(a + [x + [','] + y] + b) == p + [Normalized(x + [','] + y)] + q;
    NormalizedJoin(x, y);
    PairInContext(p, u, v, q);
  }

  lemma PairInContext(p: seq<string>, u: string, v: string, q: seq<string>)
    ensures Join(p + [u] + [v] + q) == Join(p + [u + [','] + v] + q)
  {
    hide Join;
    var l, r := p + [u] + [v], p + [u + [','] + v];
    JoinOne(u);
    JoinOne(v);
    JoinOne(u + [','] + v);
    JoinConcat(p + [u], [v]);
    if p != [] {
      JoinConcat(p, [u]);
      JoinConcat(p, [u + [','] + v]);
      assert Join(p) + [','] + u + [','] + v == Join(p) + [','] + (u + [','] + v);
    } else {
      assert p + [u] == [u] && r == [u + [','] + v];
    }
    if q != [] {
      JoinConcat(l, q);
      JoinConcat(r, q);
    } else {
      assert l + q == l && r + q == r;
    }
  }

  /**
   Repeated request lines and one combined line select the same responses
   (section 5.3 of RFC 9110), provided the first value closes its quotes.
   */
  lemma RepeatedLinesCombine(
      request: FetchRequest, before: RequestLines, after: RequestLines, field: string, x: string, y: string, name: string)
    requires Closed(x)
    ensures
      RequestHeaderValue(request.(headers := before + [(field, x), (field, y)] + after), name) ==
      RequestHeaderValue(request.(headers := before + [(field, x + [','] + y)] + after), name)
  {
    hide Join, LineValues, NormalizeEach, SameName, ModeAfter;
    var two, one := [(field, x), (field, y)], [(field, x + [','] + y)];
    LineValuesConcat(before, two, name);
    LineValuesConcat(before + two, after, name);
    LineValuesConcat(before, one, name);
    LineValuesConcat(before + one, after, name);
    LineValuesFew(field, x, y, name);
    var a, b := LineValues(before, name), LineValues(after, name);
    var l := LineValues(before + two + after, name);
    var r := LineValues(before + one + after, name);
    if SameName(field, name) {
      assert l == a + [x, y] + b && r == a + [x + [','] + y] + b;
      assert l[|a|] == x && r[|a|] == x + [','] + y;
      JoinPair(a, x, y, b);
    } else {
      assert l == r;
    }
    var p, q := request.(headers := before + two + after), request.(headers := before + one + after);
    assert LineValues(p.headers, name) == l && LineValues(q.headers, name) == r;
    assert (l == []) == (r == []);
  }

  lemma LineValuesFew(field: string, x: string, y: string, name: string)
    ensures LineValues([(field, x), (field, y)], name) == if SameName(field, name) then [x, y] else []
    ensures LineValues([(field, x + [','] + y)], name) == if SameName(field, name) then [x + [','] + y] else []
  {
    hide LineValues;
    LineValuesOne(field, x, name);
    LineValuesOne(field, y, name);
    LineValuesOne(field, x + [','] + y, name);
    LineValuesConcat([(field, x)], [(field, y)], name);
    assert [(field, x)] + [(field, y)] == [(field, x), (field, y)];
  }

  lemma LineValuesOne(field: string, x: string, name: string)
    ensures LineValues([(field, x)], name) == if SameName(field, name) then [x] else []
  {
    assert [(field, x)][..0] == [];
  }

  // ---- The same decisions, by running the parsers ---------------------------------------

  method DecidePolicy(request: FetchRequest, response: FetchResponse) returns (policy: Policy)
    ensures policy == PolicyFor(request, response)
  {
    var reason := RequestSkipReason(request);
    if reason.Some? {
      return Skip(reason.value);
    }
    if response.status != 200 {
      return Skip(ResponseStatus(response.status));
    }
    if !Direct(request, response) {
      return Skip(Redirected);
    }
    if HasHeader(response.headers, "set-cookie") {
      return Skip(ResponseSetsCookie);
    }
    var selectors := ParseVary(response.headers);
    if selectors.None? {
      return Skip(Vary);
    }
    policy := ParseCacheControl(response.headers);
  }

  method CombineHeaderValue(request: FetchRequest, name: string) returns (value: Option<string>)
    ensures value == RequestHeaderValue(request, name)
  {
    hide Join, Normalized, LineValues;
    var values := LineValues(request.headers, name);
    if values == [] && SameName(name, "accept") && request.accept.Some? {
      values := [request.accept.value];
    }
    if values == [] {
      return None;
    }
    var normalized: seq<string> := [];
    var i := 0;
    while i < |values|
      invariant 0 <= i <= |values|
      invariant normalized == NormalizeEach(values[..i])
    {
      var n := NormalizeFieldValue(values[i]);
      normalized := normalized + [n];
      i := i + 1;
    }
    assert values[..i] == values;
    value := Some(Join(normalized));
  }

  method CaptureVariant(request: FetchRequest, headers: seq<Header>) returns (variant: Option<Variant>)
    ensures variant == VariantFor(request, headers)
  {
    hide VarySelectors, RequestHeaderValue;
    var names := ParseVary(headers);
    if names.None? {
      return None;
    }
    var selectors: Variant := [];
    var i := 0;
    while i < |names.value|
      invariant 0 <= i <= |names.value|
      invariant selectors ==
                seq(i, k requires 0 <= k < i => (names.value[k], RequestHeaderValue(request, names.value[k])))
    {
      var value := CombineHeaderValue(request, names.value[i]);
      selectors := selectors + [(names.value[i], value)];
      i := i + 1;
    }
    variant := Some(selectors);
  }
}
