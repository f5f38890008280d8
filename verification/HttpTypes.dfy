/** Requests and responses as the cache and the page pipeline see them. */
module HttpTypes {
  import opened Text

  /** The source's counters and lifetimes are 64-bit; they saturate or are rejected here. */
  const U64_MAX: nat := 0xFFFF_FFFF_FFFF_FFFF

  datatype Option<+T> = None | Some(value: T)

  /** A header value is bytes; most of the time they are UTF-8 text. */
  datatype FieldValue = Utf8(text: string) | NotUtf8(bytes: seq<bv8>)

  datatype Header = Header(name: string, value: FieldValue)

  /** A URL: its serialisation without the fragment, and the fragment. */
  datatype Url = Url(text: string, fragment: Option<string>) {
    function Scheme(): string {
      Split(text, ':')[0]
    }
  }

  datatype HttpMethod = Get | Post | Put | Delete | Head | Options | Patch

  datatype ByteRange =
    | From(start: nat)
    | Inclusive(first: nat, end: nat)
    | Suffix(length: nat)

  datatype CacheValidators = CacheValidators(etag: Option<string>, lastModified: Option<string>)

  datatype FetchRequest = FetchRequest(
    url: Url,
    method_: HttpMethod,
    headers: seq<(string, string)>,
    body: Option<seq<bv8>>,
    accept: Option<string>,
    cookie: Option<string>,
    byteRange: Option<ByteRange>,
    cacheValidators: Option<CacheValidators>)

  /** A media type with the charset it names, both in lower case. */
  datatype ContentType = ContentType(mediaType: string, charset: Option<string>)

  datatype FetchResponse = FetchResponse(
    requestedUrl: Url,
    finalUrl: Url,
    redirectChain: seq<Url>,
    redirects: seq<Url>,
    status: nat,
    contentType: Option<ContentType>,
    headers: seq<Header>,
    body: seq<bv8>)

  /** The text of the first line of that name, when it is UTF-8. */
  function HeaderText(headers: seq<Header>, name: string): Option<string> {
    if headers == [] then None
    else if SameName(headers[0].name, name) then
      if headers[0].value.Utf8? then Some(headers[0].value.text) else None
    else HeaderText(headers[1..], name)
  }

  predicate HasHeader(headers: seq<Header>, name: string) {
    exists i :: 0 <= i < |headers| && SameName(headers[i].name, name)
  }
}
