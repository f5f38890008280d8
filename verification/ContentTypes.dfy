/**
 The content type of a response (`parse_content_type`): the media type and the charset
 of its first `Content-Type` line. A `304` never changes it.
 */
module ContentTypes {
  import opened Text
  import opened HttpTypes
  import opened CacheControl
  import opened CacheMeaning
  import HeaderMerge

  function ParseContentType(value: string): Option<ContentType> {
    var parts := Split(value, ';');
    var mediaType := Lower(Trim(parts[0], WHITE_SPACE));
    if mediaType == "" || '/' !in mediaType then None else Some(ContentType(mediaType, Charset(parts[1..])))
  }

  /** The value of the first parameter named `charset`. */
  function Charset(parameters: seq<string>): Option<string> {
    if parameters == [] then None
    else
      var parameter := parameters[0];
      match IndexOf(parameter, '=')
      case None => Charset(parameters[1..])
      case Some(eq) =>
        if SameName(Trim(parameter[..eq], WHITE_SPACE), "charset")
        then Some(Lower(Trim(Trim(parameter[eq + 1..], WHITE_SPACE), {'"'})))
        else Charset(parameters[1..])
  }

  function ContentTypeOf(headers: seq<Header>): Option<ContentType> {
    var value := HeaderText(headers, "content-type");
    if value.Some? then ParseContentType(value.value) else None
  }

  // ---- A merge keeps it ---------------------------------------------------------------------------

  lemma LinesTail(hs: seq<Header>, name: string)
    requires hs != []
    ensures HeaderMerge.Lines(hs, name) ==
            if SameName(hs[0].name, name) then [hs[0]] + HeaderMerge.Lines(hs[1..], name)
            else HeaderMerge.Lines(hs[1..], name)
  {
    hide SameName;
    HeadTail(hs);
    HeaderMerge.LinesConcat([hs[0]], hs[1..], name);
    assert [hs[0]][..0] == [] && HeaderMerge.Lines([], name) == [];
  }

  /** The text of a header is that of the first of its lines. */
  lemma {:induction false} HeaderTextIsFirstLine(hs: seq<Header>, name: string)
    ensures
      var lines := HeaderMerge.Lines(hs, name);
      HeaderText(hs, name) ==
      if lines != [] && lines[0].value.Utf8? then Some(lines[0].value.text) else None
  {
    hide SameName, HeaderMerge.Lines;
    if hs == [] {
      HeaderMerge.LinesAbsent([], name);
    } else {
      LinesTail(hs, name);
      HeaderTextIsFirstLine(hs[1..], name);
    }
  }

  lemma ContentTypeIsFrozen()
    ensures HeaderMerge.Frozen("content-type")
  {
    assert Lower("content-type") == "content-type";
  }

  /** A `304` leaves the content type of the stored headers as it was, whatever it carries itself. */
  lemma MergeKeepsContentType(previous: seq<Header>, update: seq<Header>)
    ensures ContentTypeOf(HeaderMerge.Reference(previous, update)) == ContentTypeOf(previous)
  {
    hide HeaderMerge.Reference, HeaderMerge.Merged, HeaderMerge.Lines, ParseContentType, HeaderText, HeaderMerge.Frozen;
    var name := "content-type";
    ContentTypeIsFrozen();
    HeaderMerge.MergedIsReference(previous, update);
    HeaderMerge.MergedLines(previous, update, name);
    HeaderTextIsFirstLine(previous, name);
    HeaderTextIsFirstLine(HeaderMerge.Reference(previous, update), name);
  }

  // ---- It is what the line says ---------------------------------------------------------------------

  /** A name of lower-case text without blanks, separators or quotes. */
  predicate IsPlainName(s: string) {
    s != "" && IsLowerCase(s) && forall k :: 0 <= k < |s| ==>
      s[k] !in WHITE_SPACE && s[k] != ';' && s[k] != '=' && s[k] != '\"'
  }

  const CHARSET: string := "charset"

  lemma LowerCaseStays(s: string)
    requires IsLowerCase(s)
    ensures Lower(s) == s
  {
  }

  lemma PlainNameIsTight(s: string)
    requires IsPlainName(s)
    ensures Trim(s, WHITE_SPACE) == s && Trim(s, {'\"'}) == s && Lower(s) == s && ';' !in s && '=' !in s
  {
    hide Trim;
    assert s[0..|s|] == s && s[..0] == [] && s[|s|..] == [];
    TrimIs(s, 0, |s|, WHITE_SPACE);
    TrimIs(s, 0, |s|, {'\"'});
    LowerCaseStays(s);
  }

  /** A media type by itself has no charset. */
  lemma MediaTypeIsRead(mediaType: string)
    requires IsPlainName(mediaType) && '/' in mediaType
    ensures ParseContentType(mediaType) == Some(ContentType(mediaType, None))
  {
    hide Split, Trim, Lower;
    PlainNameIsTight(mediaType);
    SplitPlain(mediaType, ';');
    assert [mediaType][1..] == [];
  }

  /** A media type followed by a blank and a charset, bare or in quotes, is read as just that. */
  lemma CharsetIsRead(mediaType: string, charset: string, quotes: string)
    requires IsPlainName(mediaType) && '/' in mediaType && IsPlainName(charset) && quotes in {"", "\""}
    ensures ParseContentType(mediaType + [';'] + ([' '] + CHARSET + ['='] + (quotes + charset + quotes))) ==
            Some(ContentType(mediaType, Some(charset)))
  {
    hide Split, Trim, Lower, IndexOf;
    var value := quotes + charset + quotes;
    var parameter := [' '] + CHARSET + ['='] + value;
    PlainNameIsTight(mediaType);
    CharsetParameter(charset, quotes);
    SplitPlain(mediaType, ';');
    ParameterIsOne(charset, quotes);
    SplitPlain(parameter, ';');
    SplitJoined(mediaType, ';', parameter);
    assert [mediaType] + [parameter] == [mediaType, parameter] && [mediaType, parameter][1..] == [parameter];
    assert Charset([parameter]) == Some(charset);
  }

  lemma ParameterIsOne(charset: string, quotes: string)
    requires IsPlainName(charset) && quotes in {"", "\""}
    ensures ';' !in [' '] + CHARSET + ['='] + (quotes + charset + quotes)
  {
  }

  lemma CharsetParameter(charset: string, quotes: string)
    requires IsPlainName(charset) && quotes in {"", "\""}
    ensures
      var value := quotes + charset + quotes;
      var parameter := [' '] + CHARSET + ['='] + value;
      && IndexOf(parameter, '=') == Some(8) && parameter[9..] == value
      && Trim(parameter[..8], WHITE_SPACE) == CHARSET && SameName(CHARSET, "charset")
      && Trim(Trim(value, WHITE_SPACE), {'\"'}) == charset && Lower(charset) == charset
  {
    hide Trim, IndexOf, IsPlainName;
    CharsetHead(quotes + charset + quotes);
    CharsetValue(charset, quotes);
    PlainNameIsTight(charset);
  }

  lemma CharsetHead(value: string)
    ensures
      var parameter := [' '] + CHARSET + ['='] + value;
      && IndexOf(parameter, '=') == Some(8) && parameter[9..] == value
      && Trim(parameter[..8], WHITE_SPACE) == CHARSET
  {
    hide Trim, IndexOf;
    var parameter := [' '] + CHARSET + ['='] + value;
    var head := parameter[..8];
    assert parameter[8] == '=' && head == [' '] + CHARSET;
    FirstSignAt(parameter, 8);
    assert head[1..8] == CHARSET && head[..1] == [' '] && head[8..] == [];
    TrimIs(head, 1, 8, WHITE_SPACE);
  }

  lemma CharsetValue(charset: string, quotes: string)
    requires IsPlainName(charset) && quotes in {"", "\""}
    ensures Trim(Trim(quotes + charset + quotes, WHITE_SPACE), {'\"'}) == charset
  {
    hide Trim, IsPlainName, Only;
    var value := quotes + charset + quotes;
    QuotedNameIsTight(charset, quotes);
    TrimBetween("", value, "", WHITE_SPACE);
    assert "" + value + "" == value;
    TrimBetween(quotes, charset, quotes, {'\"'});
  }

  lemma QuotedNameIsTight(charset: string, quotes: string)
    requires IsPlainName(charset) && quotes in {"", "\""}
    ensures IsTight(quotes + charset + quotes, WHITE_SPACE) && IsTight(charset, {'\"'})
    ensures Only(quotes, {'\"'}) && Only("", WHITE_SPACE)
  {
    LettersAreNoBlanks('\"');
  }
}
