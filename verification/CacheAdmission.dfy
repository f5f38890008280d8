/**
 What the cache admits and when two requests agree, in terms of what stands in them:
 no decision here is named after the function that makes it.
 */
module CacheAdmission {
  import opened Text
  import opened HttpTypes
  import opened FieldValues
  import opened HeaderLists
  import opened CacheControl
  import opened CacheMeaning
  import opened CachePolicy
  import opened RecencyList
  import HeaderMerge

  // ---- Requests -----------------------------------------------------------------------------------

  /** The URL begins with this scheme. */
  predicate StartsScheme(text: string, scheme: string) {
    && |scheme| <= |text| && text[..|scheme|] == scheme
    && (|text| == |scheme| || text[|scheme|] == ':')
  }

  lemma SchemeMeaning(url: Url, scheme: string)
    requires ':' !in scheme
    ensures url.Scheme() == scheme <==> StartsScheme(url.text, scheme)
  {
    hide Split, IndexOf;
    var text := url.text;
    var colon := IndexOf(text, ':');
    if colon.None? {
      SplitPlain(text, ':');
      assert text[..|text|] == text;
    } else {
      var c := colon.value;
      SplitPlain(text[..c], ':');
      SplitJoined(text[..c], ':', text[c + 1..]);
      assert text == text[..c] + [':'] + text[c + 1..];
      if StartsScheme(text, scheme) {
        assert forall k :: 0 <= k < |scheme| ==> text[k] == scheme[k];
        assert forall k :: 0 <= k < c ==> text[k] == text[..c][k] != ':';
      }
    }
  }

  /** A `GET` over HTTP, without cookies and for the whole resource. */
  predicate IsPlainRequest(request: FetchRequest) {
    && (StartsScheme(request.url.text, "http") || StartsScheme(request.url.text, "https"))
    && request.method_ == Get && request.cookie.None? && request.byteRange.None?
  }

  lemma PlainRequestMeaning(request: FetchRequest)
    ensures RequestSkipReason(request).None? <==> IsPlainRequest(request)
  {
    SchemeMeaning(request.url, "http");
    SchemeMeaning(request.url, "https");
  }

  // ---- Exchanges ----------------------------------------------------------------------------------

  /** The response comes from that very URL, without redirects. */
  predicate AnswersDirectly(request: FetchRequest, response: FetchResponse) {
    && response.requestedUrl.text == response.finalUrl.text == request.url.text
    && response.redirects == [] && |response.redirectChain| <= 1
  }

  predicate SetsCookies(headers: seq<Header>) {
    exists i :: 0 <= i < |headers| && Spells(headers[i].name, "set-cookie")
  }

  lemma SetsCookiesMeaning(headers: seq<Header>)
    ensures HasHeader(headers, "set-cookie") <==> SetsCookies(headers)
  {
    forall i | 0 <= i < |headers|
      ensures SameName(headers[i].name, "set-cookie") <==> Spells(headers[i].name, "set-cookie")
    {
      SpellsMeansSameName(headers[i].name, "set-cookie");
    }
  }

  /** A plain request with a direct answer of status 200 that any equal request may share. */
  ghost predicate IsPlainExchange(request: FetchRequest, response: FetchResponse) {
    && IsPlainRequest(request) && response.status == 200 && AnswersDirectly(request, response)
    && !SetsCookies(response.headers) && VaryIsUsable(response.headers)
  }

  /** An exchange is admitted for a lifetime exactly when it is plain and its lines grant that lifetime. */
  lemma AdmissionMeaning(request: FetchRequest, response: FetchResponse, lifetime: nat)
    ensures PolicyFor(request, response) == Store(lifetime) <==>
            IsPlainExchange(request, response) && GrantsLifetime(response.headers, lifetime)
  {
    hide RequestSkipReason, HasHeader, VarySelectors, CacheControlPolicy;
    PlainRequestMeaning(request);
    SetsCookiesMeaning(response.headers);
    VaryMeaning(response.headers);
    LifetimeMeaning(response.headers, lifetime);
  }

  /** What the store retains: the exchange, for the lifetime from now on. */
  lemma RetentionMeaning(request: FetchRequest, response: FetchResponse, now: nat, lifetime: nat)
    requires IsPlainExchange(request, response) && GrantsLifetime(response.headers, lifetime)
    ensures
      var r := SlotFor(request, response, now);
      if now + lifetime <= INSTANT_MAX
      then r.Storable? && r.slot.response == response && r.slot.freshUntil == now + lifetime
           && r.slot.key == KeyOf(request)
      else r.Overflow?
  {
    hide IsPlainExchange, GrantsLifetime, PolicyFor, RequestHeaderValue;
    AdmissionMeaning(request, response, lifetime);
    PolicyNeedsSelectors(request, response);
  }

  lemma PolicyNeedsSelectors(request: FetchRequest, response: FetchResponse)
    requires PolicyFor(request, response).Store?
    ensures VarySelectors(response.headers).Some?
  {
    hide VarySelectors, CacheControlPolicy, HasHeader, RequestSkipReason, Direct;
  }

  /** The cache is switched on and the body is small enough for it. */
  predicate HasRoom(config: Config, response: FetchResponse) {
    && config.maxEntries > 0 && config.maxBytes > 0
    && |response.body| <= config.maxEntryBytes && |response.body| <= config.maxBytes
  }

  /** Exactly what is stored: a plain exchange of this epoch, with a lifetime that ends in time and room for it. */
  lemma StoredExactly(
      config: Config, c: Cache, request: FetchRequest, response: FetchResponse, now: nat, epoch: nat)
    ensures StoreIn(config, c, request, response, now, epoch).0 == Stored <==>
            && epoch == c.epoch && IsPlainExchange(request, response) && HasRoom(config, response)
            && exists lifetime :: GrantsLifetime(response.headers, lifetime) && now + lifetime <= INSTANT_MAX
  {
    hide IsPlainExchange, GrantsLifetime, SlotFor, Insert;
    var r := SlotFor(request, response, now);
    if IsPlainExchange(request, response)
       && exists lifetime :: GrantsLifetime(response.headers, lifetime) && now + lifetime <= INSTANT_MAX
    {
      var lifetime :| GrantsLifetime(response.headers, lifetime) && now + lifetime <= INSTANT_MAX;
      RetentionMeaning(request, response, now, lifetime);
    }
    if r.Storable? {
      StorableIsGranted(request, response, now);
    }
  }

  lemma StorableIsGranted(request: FetchRequest, response: FetchResponse, now: nat)
    requires SlotFor(request, response, now).Storable?
    ensures
      var slot := SlotFor(request, response, now).slot;
      && IsPlainExchange(request, response)
      && slot.freshUntil > now && GrantsLifetime(response.headers, slot.freshUntil - now)
      && slot.freshUntil <= INSTANT_MAX
  {
    hide IsPlainExchange, GrantsLifetime, PolicyFor, VariantFor;
    var lifetime := PolicyFor(request, response).freshness;
    AdmissionMeaning(request, response, lifetime);
    GrantedIsPositive(response.headers, lifetime);
  }

  lemma GrantedIsPositive(headers: seq<Header>, lifetime: nat)
    requires GrantsLifetime(headers, lifetime)
    ensures lifetime > 0
  {
  }

  // ---- Selecting values -----------------------------------------------------------------------------

  /** The same name up to the case of ASCII letters. */
  predicate SameLetters(a: string, b: string) {
    && |a| == |b|
    && forall k :: 0 <= k < |a| ==> SameLetter(a[k], b[k])
  }

  predicate SameLetter(c: char, d: char) {
    || c == d
    || ('A' <= c <= 'Z' && c as int + 32 == d as int)
    || ('A' <= d <= 'Z' && d as int + 32 == c as int)
  }

  lemma SameLettersMeansSameName(a: string, b: string)
    ensures SameName(a, b) <==> SameLetters(a, b)
  {
    if SameName(a, b) {
      assert forall k :: 0 <= k < |a| ==> LowerChar(a[k]) == Lower(a)[k] == Lower(b)[k] == LowerChar(b[k]);
    }
    if SameLetters(a, b) {
      forall k | 0 <= k < |a| ensures Lower(a)[k] == Lower(b)[k] {
        assert SameLetter(a[k], b[k]);
      }
    }
  }

  /** No request line has this name. */
  predicate Lacks(lines: RequestLines, name: string) {
    forall i :: 0 <= i < |lines| ==> !SameLetters(lines[i].0, name)
  }

  lemma {:induction false} LackedHasNoValues(lines: RequestLines, name: string)
    requires Lacks(lines, name)
    ensures LineValues(lines, name) == []
  {
    if lines != [] {
      SameLettersMeansSameName(lines[|lines| - 1].0, name);
      LackedHasNoValues(lines[..|lines| - 1], name);
    }
  }

  /** Without a line of its own, a field has no value, except for `Accept`, which the transport sends. */
  lemma AbsentValue(request: FetchRequest, name: string)
    requires Lacks(request.headers, name)
    ensures RequestHeaderValue(request, name) ==
            if SameLetters(name, "accept") && request.accept.Some? then Some(Normalized(request.accept.value)) else None
  {
    hide Normalized, SameLetters, LineValues, Join;
    SameLettersMeansSameName(name, "accept");
    LackedHasNoValues(request.headers, name);
    if request.accept.Some? {
      assert NormalizeEach([request.accept.value]) == [Normalized(request.accept.value)];
      JoinOne(Normalized(request.accept.value));
    }
  }

  /** The first line of a field gives its value, followed by those of the later lines after a comma. */
  lemma FirstLineValue(request: FetchRequest, before: RequestLines, field: string, x: string, after: RequestLines,
                       name: string)
    requires request.headers == before + [(field, x)] + after
    requires Lacks(before, name) && SameLetters(field, name)
    ensures !Lacks(after, name) ==> RequestHeaderValue(request.(headers := after), name).Some?
    ensures
      var rest := RequestHeaderValue(request.(headers := after), name);
      RequestHeaderValue(request, name) ==
      Some(if Lacks(after, name) then Normalized(x) else Normalized(x) + [','] + rest.value)
  {
    hide Normalized, SameLetters, LineValues, Join;
    LineValuesConcat(before, [(field, x)], name);
    LineValuesConcat(before + [(field, x)], after, name);
    LackedHasNoValues(before, name);
    SameLettersMeansSameName(field, name);
    LineValuesOne(field, x, name);
    var values := LineValues(after, name);
    assert LineValues(request.headers, name) == [x] + values;
    LacksMeansNone(after, name);
    assert NormalizeEach([x] + values) == [Normalized(x)] + NormalizeEach(values);
    JoinOne(Normalized(x));
    if values == [] {
      assert [Normalized(x)] + NormalizeEach(values) == [Normalized(x)];
    } else {
      JoinConcat([Normalized(x)], NormalizeEach(values));
    }
  }

  lemma {:induction false} LacksMeansNone(lines: RequestLines, name: string)
    ensures Lacks(lines, name) <==> LineValues(lines, name) == []
  {
    hide SameLetters;
    if lines != [] {
      var init := lines[..|lines| - 1];
      SameLettersMeansSameName(lines[|lines| - 1].0, name);
      LacksMeansNone(init, name);
      assert forall i :: 0 <= i < |init| ==> init[i] == lines[i];
    }
  }

  lemma ValuesIgnoreCase(lines: RequestLines, a: string, b: string)
    requires SameName(a, b)
    ensures LineValues(lines, a) == LineValues(lines, b)
  {
  }

  /** Two requests agree on every field that the response's `Vary` lines name, in whatever case. */
  ghost predicate AgreeOnFields(a: FetchRequest, b: FetchRequest, headers: seq<Header>) {
    && VaryIsUsable(headers)
    && forall field :: VariesOn(headers, field) ==> RequestHeaderValue(a, field) == RequestHeaderValue(b, field)
  }

  lemma AgreementMeaning(a: FetchRequest, b: FetchRequest, headers: seq<Header>)
    ensures AgreeOnVary(a, b, headers) <==> AgreeOnFields(a, b, headers)
  {
    hide VarySelectors, VariesOn, VaryIsUsable, RequestHeaderValue, Lower;
    VaryMeaning(headers);
    if VarySelectors(headers).Some? {
      forall field | VariesOn(headers, field)
        ensures Lower(field) in VarySelectors(headers).value
        ensures forall r :: RequestHeaderValue(r, field) == RequestHeaderValue(r, Lower(field))
      {
        LowerIsSpelled(field, Lower(field));
        forall r ensures RequestHeaderValue(r, field) == RequestHeaderValue(r, Lower(field)) {
          NamesIgnoreCase(r, field);
        }
      }
      forall name | name in VarySelectors(headers).value
        ensures exists field :: VariesOn(headers, field) && Lower(field) == name
      {
        var field :| IsLowerCase(name) && VariesOn(headers, field) && Spells(field, name);
        LowerIsSpelled(field, name);
      }
    }
  }

  lemma NamesIgnoreCase(request: FetchRequest, field: string)
    ensures RequestHeaderValue(request, field) == RequestHeaderValue(request, Lower(field))
  {
    assert Lower(Lower(field)) == Lower(field);
    ValuesIgnoreCase(request.headers, field, Lower(field));
  }

  /** A `304` is taken as an answer exactly when it is one: of this epoch, to a plain request, and direct. */
  lemma NotModifiedMeaning(c: Cache, request: FetchRequest, response: FetchResponse, epoch: nat)
    ensures Answers304(c, request, response, epoch) <==>
            && epoch == c.epoch && response.status == 304
            && IsPlainRequest(request) && AnswersDirectly(request, response)
  {
    hide RequestSkipReason, IsPlainRequest;
    PlainRequestMeaning(request);
  }

  // ---- Header lines -----------------------------------------------------------------------------------

  /** The first line of that name holds this text. */
  predicate FirstLineHolds(headers: seq<Header>, word: string, text: string) {
    exists p :: 0 <= p < |headers| && Spells(headers[p].name, word) && headers[p].value == Utf8(text)
                && forall q :: 0 <= q < p ==> !Spells(headers[q].name, word)
  }

  lemma {:induction false} HeaderTextMeaning(headers: seq<Header>, word: string, text: string)
    requires IsLowerCase(word)
    ensures HeaderText(headers, word) == Some(text) <==> FirstLineHolds(headers, word, text)
    decreases |headers|
  {
    hide Spells, SameName, IsLowerCase;
    if headers != [] {
      SpellsMeansSameName(headers[0].name, word);
      HeaderTextMeaning(headers[1..], word, text);
      if FirstLineHolds(headers[1..], word, text) && !Spells(headers[0].name, word) {
        var p :| 0 <= p < |headers| - 1 && Spells(headers[1..][p].name, word) && headers[1..][p].value == Utf8(text)
                 && forall q :: 0 <= q < p ==> !Spells(headers[1..][q].name, word);
        assert headers[p + 1] == headers[1..][p];
        assert forall q :: 1 <= q < p + 1 ==> headers[q] == headers[1..][q - 1];
      }
      if p :| 0 <= p < |headers| && Spells(headers[p].name, word) && headers[p].value == Utf8(text)
              && forall q :: 0 <= q < p ==> !Spells(headers[q].name, word)
      {
        if p > 0 {
          assert headers[1..][p - 1] == headers[p];
          assert forall q :: 0 <= q < p - 1 ==> headers[1..][q] == headers[q + 1];
        }
      }
    }
  }

  /** A conditional request carries the stored entity tag as such, and the stored date as such. */
  lemma ValidatorsMeaning(headers: seq<Header>, text: string)
    ensures ValidatorsOf(headers).etag == Some(text) <==> FirstLineHolds(headers, "etag", text)
    ensures ValidatorsOf(headers).lastModified == Some(text) <==> FirstLineHolds(headers, "last-modified", text)
  {
    HeaderTextMeaning(headers, "etag", text);
    HeaderTextMeaning(headers, "last-modified", text);
  }

  /** The fields that describe the stored body. */
  const FRAMING: seq<string> :=
    ["content-length", "content-type", "content-encoding", "content-range", "transfer-encoding"]

  predicate IsFraming(name: string) {
    exists k :: 0 <= k < |FRAMING| && Spells(name, FRAMING[k])
  }

  lemma FramingMeaning(name: string)
    ensures HeaderMerge.Frozen(name) <==> IsFraming(name)
  {
    forall k | 0 <= k < |FRAMING| ensures Spells(name, FRAMING[k]) <==> Lower(name) == FRAMING[k] {
      FramingIsLowerCase(k);
      LowerIsSpelled(name, FRAMING[k]);
    }
    assert |FRAMING| == 5;
    assert IsFraming(name) <==>
           Spells(name, FRAMING[0]) || Spells(name, FRAMING[1]) || Spells(name, FRAMING[2])
           || Spells(name, FRAMING[3]) || Spells(name, FRAMING[4]);
  }

  lemma FramingIsLowerCase(k: nat)
    requires k < |FRAMING|
    ensures IsLowerCase(FRAMING[k])
  {
  }

  /** A `304` leaves every line of the stored framing fields as it was. */
  lemma FramingStays(previous: seq<Header>, update: seq<Header>, name: string)
    requires IsFraming(name)
    ensures HeaderMerge.Lines(HeaderMerge.Reference(previous, update), name) == HeaderMerge.Lines(previous, name)
  {
    hide HeaderMerge.Lines, HeaderMerge.Reference, HeaderMerge.Merged, HeaderMerge.Frozen, IsFraming;
    FramingMeaning(name);
    HeaderMerge.MergedIsReference(previous, update);
    HeaderMerge.MergedLines(previous, update, name);
  }

  /** Of any other field that it carries, the last line is all that is left. */
  lemma OthersAreUpdated(previous: seq<Header>, update: seq<Header>, k: nat)
    requires k < |update| && !IsFraming(update[k].name)
    requires forall j :: k < j < |update| ==> !SameLetters(update[j].name, update[k].name)
    ensures HeaderMerge.Lines(HeaderMerge.Reference(previous, update), update[k].name) == [update[k]]
  {
    hide HeaderMerge.Lines, HeaderMerge.Reference, HeaderMerge.Merged, HeaderMerge.Frozen, IsFraming;
    hide HeaderMerge.LastUpdate;
    FramingMeaning(update[k].name);
    HeaderMerge.MergedIsReference(previous, update);
    HeaderMerge.MergedLines(previous, update, update[k].name);
    LastOfItsName(update, k);
  }

  lemma {:induction false} LastOfItsName(update: seq<Header>, k: nat)
    requires k < |update| && !HeaderMerge.Frozen(update[k].name)
    requires forall j :: k < j < |update| ==> !SameLetters(update[j].name, update[k].name)
    ensures HeaderMerge.LastUpdate(update, update[k].name) == Some(update[k])
    decreases |update|
  {
    hide HeaderMerge.Frozen, SameLetters;
    var last := |update| - 1;
    SameLettersMeansSameName(update[last].name, update[k].name);
    if k < last {
      LastOfItsName(update[..last], k);
    }
  }
}
