/**
 What the span lexer's result means: its tokens are those of the one reading of the
 source as comments and literals with code between them, and every line of spans is
 that source line without the dropped text.
 */
module SpanLexerLaws {
  import opened Text
  import opened SpanLexer

  // ---- The shape of tokens ----------------------------------------------------------------------

  /** The tokens cover the text from `a` to `b`, in order, without gaps or overlaps. */
  ghost predicate Tiles(tokens: seq<Token>, a: nat, b: nat) {
    && (forall i :: 0 <= i < |tokens| ==> tokens[i].from < tokens[i].to)
    && (forall i, j :: 0 <= i && j == i + 1 && j < |tokens| ==> tokens[i].to == tokens[j].from)
    && (if tokens == [] then a == b else tokens[0].from == a && tokens[|tokens| - 1].to == b)
  }

  lemma TilesConcat(x: seq<Token>, a: nat, m: nat, y: seq<Token>, b: nat)
    requires Tiles(x, a, m) && Tiles(y, m, b)
    ensures Tiles(x + y, a, b)
  {
    var all := x + y;
    forall i, j | 0 <= i && j == i + 1 && j < |all| ensures all[i].to == all[j].from {
      if j < |x| {
        assert all[i] == x[i] && all[j] == x[j];
      } else if i >= |x| {
        assert all[i] == y[i - |x|] && all[j] == y[j - |x|];
      } else {
        assert all[i] == x[|x| - 1] && all[j] == y[0];
      }
    }
  }

  /** Comment nesting read character by character; `last` may pair with the next character. */
  datatype Nesting = Nesting(depth: int, last: char)

  function NestingAt(text: string, from: nat, k: nat): Nesting
    requires k <= |text|
    decreases k
  {
    if k <= from then Nesting(0, ' ')
    else
      var n, c := NestingAt(text, from, k - 1), text[k - 1];
      if n.last == '/' && c == '*' then Nesting(n.depth + 1, ' ')
      else if n.last == '*' && c == '/' then Nesting(n.depth - 1, ' ')
      else Nesting(n.depth, c)
  }

  /** An odd number of backslashes stands right before `k`, counted from `from`. */
  predicate Escaped(text: string, from: nat, k: nat)
    requires k <= |text|
    decreases k
  {
    k > from && text[k - 1] == '\\' && !Escaped(text, from, k - 1)
  }

  /** A line comment: through its newline, or to the end of the text. */
  ghost predicate LineCommentFits(text: string, from: nat, to: nat)
    requires from < to <= |text|
  {
    && At(text, from, "//")
    && (forall k :: from <= k < to - 1 ==> text[k] != '\n')
    && (text[to - 1] == '\n' || to == |text|)
  }

  /** A block comment: up to where its nesting first returns to zero. */
  ghost predicate BlockCommentFits(text: string, from: nat, to: nat)
    requires from < to <= |text|
  {
    && from + 2 <= to && At(text, from, "/*")
    && (forall k :: from + 2 <= k < to ==> NestingAt(text, from, k).depth >= 1)
    && (NestingAt(text, from, to).depth == 0 || to == |text|)
  }

  predicate Stops(text: string, k: nat)
    requires k < |text|
  {
    text[k] == '\"' || text[k] == '\n'
  }

  /** An ordinary string: up to its first quote or newline that no backslash escapes. */
  ghost predicate PlainStringFits(text: string, from: nat, to: nat)
    requires from <= to <= |text|
  {
    && (forall k :: from <= k < to && Stops(text, k) ==> Escaped(text, from, k))
    && (to == |text| || (Stops(text, to) && !Escaped(text, from, to)))
  }

  /** A raw string: up to the first place where its closing delimiter stands. */
  ghost predicate RawStringFits(text: string, from: nat, to: nat, closer: string)
    requires from <= to <= |text|
  {
    && (forall k :: from <= k < to ==> !At(text, k, closer))
    && (to == |text| || At(text, to, closer))
  }

  /** The delimiter of a raw string stands from `p` to `content`: `r` or `br`, hashes, a quote. */
  ghost predicate RawDelimiter(text: string, p: nat, content: nat) {
    && p < content <= |text| && text[content - 1] == '\"'
    && HashStart(text, p) < content && text[HashStart(text, p) - 1] == 'r'
    && forall k :: HashStart(text, p) <= k < content - 1 ==> text[k] == '#'
  }

  /** Just after the letters of a raw string's delimiter. */
  function HashStart(text: string, p: nat): nat
    requires p < |text|
  {
    if text[p] == 'b' then p + 2 else p + 1
  }

  // ---- Readings ---------------------------------------------------------------------------------

  /**
   What stands between pieces of code: a comment from `mark` to `next`, or a literal whose
   delimiter starts at `mark`, with its content from `content` to `end`, and code again
   from `next` on.
   */
  datatype Section =
    | Remark(mark: nat, next: nat)
    | Quoted(mark: nat, content: nat, end: nat, next: nat)

  ghost predicate Ordered(text: string, s: Section) {
    if s.Remark? then s.mark < s.next <= |text|
    else s.mark < s.content <= s.end <= s.next <= |text|
  }

  ghost predicate PlainFits(text: string, s: Section)
    requires s.Quoted? && Ordered(text, s)
  {
    && PlainStringFits(text, s.content, s.end)
    && s.next == if s.end < |text| && text[s.end] == '\"' then s.end + 1 else s.end
  }

  /** Only a delimiter with hashes makes a string raw; it then closes with the same hashes. */
  ghost predicate RawFits(text: string, s: Section)
    requires s.Quoted? && Ordered(text, s)
  {
    && RawDelimiter(text, s.mark, s.content)
    && var hashes := text[HashStart(text, s.mark)..s.content - 1];
       if hashes == "" then PlainFits(text, s)
       else
         && RawStringFits(text, s.content, s.end, ['\"'] + hashes)
         && s.next == if s.end < |text| then s.end + 1 + |hashes| else s.end
  }

  /** The section is what its first characters open. */
  ghost predicate SectionFits(text: string, s: Section) {
    && Ordered(text, s)
    && if s.Remark? then LineCommentFits(text, s.mark, s.next) || BlockCommentFits(text, s.mark, s.next)
       else if text[s.mark] == '\'' then
         CharLiteralAt(text, s.mark) && s == Quoted(s.mark, s.mark + 1, s.mark + 2, s.mark + 3)
       else if text[s.mark] == '\"' then s.content == s.mark + 1 && PlainFits(text, s)
       else RawFits(text, s)
  }

  /** A comment or a literal starts at `k`. */
  ghost predicate Starts(text: string, k: nat)
    requires k < |text|
  {
    || At(text, k, "//") || At(text, k, "/*") || text[k] == '\"' || CharLiteralAt(text, k)
    || exists content :: RawDelimiter(text, k, content)
  }

  ghost predicate NothingStarts(text: string, a: nat, b: nat)
    requires b <= |text|
  {
    forall k :: a <= k < b ==> !Starts(text, k)
  }

  /** The sections are all there are from `a` on: what starts none of them is code. */
  ghost predicate IsReading(text: string, sections: seq<Section>, a: nat) {
    if sections == [] then a <= |text| && NothingStarts(text, a, |text|)
    else
      var s := sections[0];
      && SectionFits(text, s) && a <= s.mark && NothingStarts(text, a, s.mark)
      && IsReading(text, sections[1..], s.next)
  }

  /** A string's opening delimiter is code; its closing one is dropped. */
  function TokensOf(text: string, sections: seq<Section>, a: nat): seq<Token> {
    if sections == [] then Tok(Code, a, |text|)
    else SectionTokens(sections[0], a, TokensOf(text, sections[1..], sections[0].next))
  }

  /** The code from `a` on before a section, the section, and the rest. */
  function SectionTokens(s: Section, a: nat, rest: seq<Token>): seq<Token> {
    if s.Remark? then Tok(Code, a, s.mark) + Tok(Comment, s.mark, s.next) + rest
    else Tok(Code, a, s.content) + (Tok(String, s.content, s.end) + Tok(Dropped, s.end, s.next) + rest)
  }

  // ---- Scanning ---------------------------------------------------------------------------------

  lemma {:induction false} FindIsFirst(text: string, p: nat, word: string)
    ensures Find(text, p, word).Some? ==> forall k :: p <= k < Find(text, p, word).value ==> !At(text, k, word)
    ensures Find(text, p, word).None? ==> forall k :: p <= k ==> !At(text, k, word)
    decreases |text| - p
  {
    if p <= |text| && !At(text, p, word) {
      FindIsFirst(text, p + 1, word);
    }
  }

  lemma LineEndFits(text: string, p: nat)
    requires At(text, p, "//")
    ensures LineCommentFits(text, p, LineEnd(text, p))
  {
    hide Find;
    FindIsFirst(text, p, "\n");
    forall k | p <= k < LineEnd(text, p) - 1 ensures text[k] != '\n' {
      assert !At(text, k, "\n");
      assert text[k..k + 1] == [text[k]];
    }
  }

  /** `last` and the next character do not make a comment mark. */
  predicate Unpaired(text: string, n: Nesting, p: nat) {
    p < |text| ==> !(n.last == '/' && text[p] == '*') && !(n.last == '*' && text[p] == '/')
  }

  lemma TwoAt(text: string, p: nat, word: string)
    requires |word| == 2
    ensures At(text, p, word) <==> p + 2 <= |text| && text[p] == word[0] && text[p + 1] == word[1]
  {
    if p + 2 <= |text| {
      assert text[p..p + 2] == [text[p], text[p + 1]];
      assert word == [word[0], word[1]];
    }
  }

  /** The look-ahead scan for the end of a comment agrees with the nesting count. */
  lemma {:induction false} CommentEndFits(text: string, from: nat, p: nat, depth: nat)
    requires from + 2 <= p <= |text| && depth >= 1
    requires NestingAt(text, from, p).depth == depth && Unpaired(text, NestingAt(text, from, p), p)
    requires forall k :: from + 2 <= k < p ==> NestingAt(text, from, k).depth >= 1
    ensures
      var e := CommentEnd(text, p, depth);
      && (forall k :: from + 2 <= k < e ==> NestingAt(text, from, k).depth >= 1)
      && (NestingAt(text, from, e).depth == 0 || e == |text|)
    decreases |text| - p
  {
    hide CommentEnd, At;
    if p < |text| {
      CommentEndUnfolds(text, p, depth);
      TwoAt(text, p, "/*");
      TwoAt(text, p, "*/");
      assert NestingAt(text, from, p + 1) == Nesting(depth, text[p]);
      if At(text, p, "/*") {
        CommentEndFits(text, from, p + 2, depth + 1);
      } else if At(text, p, "*/") {
        if depth > 1 {
          CommentEndFits(text, from, p + 2, depth - 1);
        }
      } else {
        CommentEndFits(text, from, p + 1, depth);
      }
    } else {
      CommentEndAtEnd(text, depth);
    }
  }

  lemma CommentEndAtEnd(text: string, depth: nat)
    requires depth >= 1
    ensures CommentEnd(text, |text|, depth) == |text|
  {
  }

  lemma BlockCommentIsFit(text: string, from: nat)
    requires At(text, from, "/*")
    ensures BlockCommentFits(text, from, CommentEnd(text, from + 2, 1))
  {
    hide CommentEnd;
    TwoAt(text, from, "/*");
    assert NestingAt(text, from, from + 1) == Nesting(0, '/');
    assert NestingAt(text, from, from + 2) == Nesting(1, ' ');
    CommentEndFits(text, from, from + 2, 1);
  }

  lemma {:induction false} StringEndFits(text: string, from: nat, p: nat)
    requires from <= p <= |text| && !Escaped(text, from, p)
    requires forall k :: from <= k < p && Stops(text, k) ==> Escaped(text, from, k)
    ensures
      var e := StringEnd(text, p);
      && (forall k :: from <= k < e && Stops(text, k) ==> Escaped(text, from, k))
      && (e == |text| || (Stops(text, e) && !Escaped(text, from, e)))
    decreases |text| - p
  {
    hide StringEnd;
    if p < |text| {
      StringEndUnfolds(text, p);
      if text[p] == '\\' {
        assert Escaped(text, from, p + 1);
        if p + 2 <= |text| {
          assert !Escaped(text, from, p + 2);
          StringEndFits(text, from, p + 2);
        } else {
          StringEndAtEnd(text);
        }
      } else if !Stops(text, p) {
        assert !Escaped(text, from, p + 1);
        StringEndFits(text, from, p + 1);
      }
    } else {
      StringEndAtEnd(text);
    }
  }

  lemma StringEndAtEnd(text: string)
    ensures StringEnd(text, |text|) == |text|
  {
  }

  // ---- The meaning is a reading ---------------------------------------------------------------------

  lemma HashesEnd(text: string, p: nat, q: nat)
    requires p <= q < |text| && text[q] != '#' && forall k :: p <= k < q ==> text[k] == '#'
    ensures HashesAt(text, p) == q - p
    decreases q - p
  {
    if p < q {
      HashesEnd(text, p + 1, q);
    }
  }

  /** The scan for a raw string's delimiter finds it exactly when it is there. */
  lemma RawOpeningFits(text: string, p: nat)
    requires p < |text|
    ensures RawOpening(text, p).NoOpening? ==> !exists content :: RawDelimiter(text, p, content)
    ensures RawOpening(text, p).Opening? ==>
              && RawDelimiter(text, p, RawOpening(text, p).content)
              && RawOpening(text, p).hashes == text[HashStart(text, p)..RawOpening(text, p).content - 1]
  {
    forall content: nat | RawDelimiter(text, p, content)
      ensures RawOpening(text, p) == Opening(content, text[HashStart(text, p)..content - 1])
    {
      HashesEnd(text, HashStart(text, p), content - 1);
    }
  }

  lemma NothingStartsNext(text: string, a: nat, p: nat)
    requires a <= p < |text| && NothingStarts(text, a, p) && !Starts(text, p)
    ensures NothingStarts(text, a, p + 1)
  {
    hide Starts;
  }

  lemma ReadingGrows(text: string, s: Section, rest: seq<Section>, a: nat)
    requires SectionFits(text, s) && a <= s.mark && NothingStarts(text, a, s.mark) && IsReading(text, rest, s.next)
    ensures IsReading(text, [s] + rest, a)
    ensures TokensOf(text, [s] + rest, a) == SectionTokens(s, a, TokensOf(text, rest, s.next))
  {
    hide SectionFits, NothingStarts, SectionTokens;
    assert ([s] + rest)[1..] == rest;
  }

  /** The tokens of a string are those of the one section that its delimiter opens. */
  lemma StringIsSection(text: string, p: nat, content: nat, hashes: string) returns (s: Section)
    requires p < content <= |text| && text[p] != '\''
    requires if text[p] == '\"' then content == p + 1 && hashes == ""
             else RawDelimiter(text, p, content) && hashes == text[HashStart(text, p)..content - 1]
    ensures s.Quoted? && s.mark == p && s.content == content && SectionFits(text, s)
    ensures StringFrom(text, content, content, hashes) ==
            Tok(String, content, s.end) + Tok(Dropped, s.end, s.next) + CodeFrom(text, s.next, s.next)
  {
    hide CodeFrom, Find, StringEnd, RawDelimiter, At;
    if hashes != "" {
      var closer := ['\"'] + hashes;
      FindIsFirst(text, content, closer);
      var i := Find(text, content, closer);
      if i.None? {
        s := Quoted(p, content, |text|, |text|);
        CodeAtEnd(text);
      } else {
        AtFits(text, i.value, closer);
        s := Quoted(p, content, i.value, i.value + |closer|);
      }
    } else {
      var e := StringEnd(text, content);
      StringEndFits(text, content, content);
      s := Quoted(p, content, e, if e < |text| && text[e] == '\"' then e + 1 else e);
    }
  }

  lemma CodeFromEnd(text: string, start: nat)
    requires start <= |text|
    ensures CodeFrom(text, start, |text|) == Tok(Code, start, |text|)
  {
  }

  lemma Regroup(a: seq<Token>, b: seq<Token>, c: seq<Token>)
    ensures a + b + c == a + (b + c)
  {
  }

  lemma CommentMarks(text: string, p: nat)
    requires p < |text|
    ensures At(text, p, "//") || At(text, p, "/*") ==> text[p] == '/'
    ensures At(text, p, "//") ==> !At(text, p, "/*")
  {
    TwoAt(text, p, "//");
    TwoAt(text, p, "/*");
  }

  /** The section that starts at `p`, and the tokens of the text from `start` on. */
  lemma SectionAt(text: string, start: nat, p: nat) returns (s: Section)
    requires start <= p < |text| && Starts(text, p)
    ensures SectionFits(text, s) && s.mark == p
    ensures s.next <= |text| && CodeFrom(text, start, p) == SectionTokens(s, start, CodeFrom(text, s.next, s.next))
  {
    hide CodeFrom, CommentFrom, StringFrom, LineEnd, CommentEnd, RawOpening, RawDelimiter, CharLiteralAt, At, Tok;
    hide SectionFits, LineCommentFits, BlockCommentFits;
    CodeUnfolds(text, start, p);
    RawOpeningFits(text, p);
    CommentMarks(text, p);
    if At(text, p, "//") {
      LineEndFits(text, p);
      s := Remark(p, LineEnd(text, p));
      RemarkFits(text, s);
    } else if At(text, p, "/*") {
      AtFits(text, p, "/*");
      BlockCommentIsFit(text, p);
      s := Remark(p, CommentEnd(text, p + 2, 1));
      RemarkFits(text, s);
      CommentUnfolds(text, p);
      Regroup(Tok(Code, start, p), Tok(Comment, p, s.next), CodeFrom(text, s.next, s.next));
    } else if RawOpening(text, p).Opening? {
      var o := RawOpening(text, p);
      RawMark(text, p, o.content);
      s := StringIsSection(text, p, o.content, o.hashes);
    } else if text[p] == '\"' {
      s := StringIsSection(text, p, p + 1, "");
    } else {
      s := Quoted(p, p + 1, p + 2, p + 3);
      CharFits(text, p);
      Reassociate(Tok(Code, start, p + 1), Tok(String, p + 1, p + 2), Tok(Dropped, p + 2, p + 3),
                  CodeFrom(text, p + 3, p + 3));
    }
    FitsAdvance(text, s);
  }

  lemma RemarkFits(text: string, s: Section)
    requires s.Remark? && s.mark < s.next <= |text|
    requires LineCommentFits(text, s.mark, s.next) || BlockCommentFits(text, s.mark, s.next)
    ensures SectionFits(text, s)
  {
  }

  lemma CommentUnfolds(text: string, p: nat)
    requires p + 2 <= |text|
    ensures
      var e := CommentEnd(text, p + 2, 1);
      CommentFrom(text, p, p + 2, 1) == Tok(Comment, p, e) + CodeFrom(text, e, e)
  {
  }

  lemma RawMark(text: string, p: nat, content: nat)
    requires RawDelimiter(text, p, content)
    ensures text[p] == 'b' || text[p] == 'r'
    ensures HashStart(text, p) < content <= |text|
  {
  }

  lemma CharFits(text: string, p: nat)
    requires CharLiteralAt(text, p)
    ensures p + 3 <= |text| && text[p] == '\'' && SectionFits(text, Quoted(p, p + 1, p + 2, p + 3))
  {
  }

  /** The tokens from `start` on are those of a reading. */
  lemma {:induction false} CodeHasReading(text: string, start: nat, p: nat) returns (sections: seq<Section>)
    requires start <= p <= |text| && NothingStarts(text, start, p)
    ensures IsReading(text, sections, start) && CodeFrom(text, start, p) == TokensOf(text, sections, start)
    decreases |text| - p
  {
    hide CodeFrom, Starts, SectionFits, NothingStarts, IsReading, TokensOf, Tok;
    if p == |text| {
      CodeFromEnd(text, start);
      NoSections(text, start);
      sections := [];
    } else if Starts(text, p) {
      var s := SectionAt(text, start, p);
      FitsAdvance(text, s);
      NothingYet(text, s.next);
      var rest := CodeHasReading(text, s.next, s.next);
      ReadingGrows(text, s, rest, start);
      sections := [s] + rest;
    } else {
      CodePasses(text, start, p);
      NothingStartsNext(text, start, p);
      sections := CodeHasReading(text, start, p + 1);
    }
  }

  lemma NoSections(text: string, a: nat)
    requires a <= |text| && NothingStarts(text, a, |text|)
    ensures IsReading(text, [], a) && TokensOf(text, [], a) == Tok(Code, a, |text|)
  {
  }

  lemma NothingYet(text: string, a: nat)
    requires a <= |text|
    ensures NothingStarts(text, a, a)
  {
  }

  lemma FitsAdvance(text: string, s: Section)
    requires SectionFits(text, s)
    ensures Ordered(text, s) && s.mark < s.next <= |text|
  {
  }

  lemma CodePasses(text: string, start: nat, p: nat)
    requires start <= p < |text| && !Starts(text, p)
    ensures CodeFrom(text, start, p) == CodeFrom(text, start, p + 1)
  {
    hide CodeFrom, RawDelimiter, CharLiteralAt, At;
    CodeUnfolds(text, start, p);
    RawOpeningFits(text, p);
  }

  // ---- The reading is the only one --------------------------------------------------------------------

  lemma FittingStarts(text: string, s: Section)
    requires SectionFits(text, s)
    ensures s.mark < |text| && Starts(text, s.mark)
  {
    hide CharLiteralAt, PlainFits, RawStringFits, NestingAt;
  }

  lemma DelimiterIsUnique(text: string, p: nat, c: nat, d: nat)
    requires RawDelimiter(text, p, c) && RawDelimiter(text, p, d)
    ensures c == d
  {
  }

  lemma PlainEndIsUnique(text: string, from: nat, d: nat, e: nat)
    requires from <= d <= |text| && from <= e <= |text|
    requires PlainStringFits(text, from, d) && PlainStringFits(text, from, e)
    ensures d == e
  {
    hide Escaped;
  }

  lemma RawEndIsUnique(text: string, from: nat, d: nat, e: nat, closer: string)
    requires from <= d <= |text| && from <= e <= |text|
    requires RawStringFits(text, from, d, closer) && RawStringFits(text, from, e, closer)
    ensures d == e
  {
    hide At;
  }

  lemma RemarkIsUnique(text: string, s: Section, t: Section)
    requires s.Remark? && SectionFits(text, s) && SectionFits(text, t) && s.mark == t.mark
    ensures s == t
  {
    hide At, NestingAt, PlainFits, RawFits;
    CommentMarks(text, s.mark);
    RemarkMark(text, s);
    if t.Quoted? {
      QuotedMark(text, t);
    }
  }

  lemma RemarkMark(text: string, s: Section)
    requires s.Remark? && SectionFits(text, s)
    ensures text[s.mark] == '/'
  {
    hide NestingAt, At;
    CommentMarks(text, s.mark);
  }

  lemma QuotedMark(text: string, s: Section)
    requires s.Quoted? && SectionFits(text, s)
    ensures text[s.mark] in {'\'', '\"', 'b', 'r'}
  {
    hide PlainFits, RawStringFits, CharLiteralAt;
  }

  lemma QuotedIsUnique(text: string, s: Section, t: Section)
    requires s.Quoted? && t.Quoted? && SectionFits(text, s) && SectionFits(text, t) && s.mark == t.mark
    ensures s == t
  {
    hide RawDelimiter, PlainStringFits, RawStringFits, CharLiteralAt;
    if text[s.mark] != '\'' {
      if text[s.mark] != '\"' {
        DelimiterIsUnique(text, s.mark, s.content, t.content);
        RawMark(text, s.mark, s.content);
      }
      if text[s.mark] == '\"' || HashStart(text, s.mark) == s.content - 1 {
        PlainEndIsUnique(text, s.content, s.end, t.end);
      } else {
        RawEndIsUnique(text, s.content, s.end, t.end, ['\"'] + text[HashStart(text, s.mark)..s.content - 1]);
      }
    }
  }

  /** Two readings of the same text are equal. */
  lemma {:induction false} ReadingIsUnique(text: string, x: seq<Section>, y: seq<Section>, a: nat)
    requires IsReading(text, x, a) && IsReading(text, y, a)
    ensures x == y
    decreases |x|
  {
    hide SectionFits, Starts;
    if x != [] {
      FittingStarts(text, x[0]);
    }
    if y != [] {
      FittingStarts(text, y[0]);
    }
    if x != [] && y != [] {
      var s, t := x[0], y[0];
      if s.Remark? {
        RemarkIsUnique(text, s, t);
      } else if t.Remark? {
        RemarkIsUnique(text, t, s);
      } else {
        QuotedIsUnique(text, s, t);
      }
      ReadingIsUnique(text, x[1..], y[1..], s.next);
      assert x == [s] + x[1..] && y == [t] + y[1..];
    }
  }

  // ---- A reading covers the text ----------------------------------------------------------------------

  lemma TokTiles(kind: Kind, a: nat, b: nat, rest: seq<Token>, c: nat)
    requires a <= b && Tiles(rest, b, c)
    ensures Tiles(Tok(kind, a, b) + rest, a, c)
  {
    TilesConcat(Tok(kind, a, b), a, b, rest, c);
  }

  /** The dropped text of a literal has no line break. */
  lemma DroppedHasNoBreak(text: string, s: Section)
    requires s.Quoted? && SectionFits(text, s)
    ensures s.end <= s.next <= |text| && '\n' !in text[s.end..s.next]
  {
    hide PlainStringFits, RawDelimiter, At;
    if text[s.mark] == '\'' {
      assert text[s.end] != '\n';
    } else if text[s.mark] != '\"' {
      RawMark(text, s.mark, s.content);
      RawCloserHasNoBreak(text, s);
    }
  }

  lemma RawCloserHasNoBreak(text: string, s: Section)
    requires s.Quoted? && Ordered(text, s) && RawFits(text, s)
    ensures '\n' !in text[s.end..s.next]
  {
    hide PlainStringFits;
    var hashes := text[HashStart(text, s.mark)..s.content - 1];
    assert forall c :: c in hashes ==> c == '#';
    if hashes != "" && s.end < |text| {
      assert text[s.end..s.next] == ['\"'] + hashes;
    }
  }

  ghost predicate Breakless(text: string, t: Token) {
    t.from <= t.to <= |text| && (t.kind == Dropped ==> '\n' !in TextOf(text, t))
  }

  /** Tokens that tile the text from `a` on and drop no line break. */
  ghost predicate Covers(text: string, tokens: seq<Token>, a: nat) {
    Tiles(tokens, a, |text|) && forall i :: 0 <= i < |tokens| ==> Breakless(text, tokens[i])
  }

  lemma TokCovers(text: string, kind: Kind, a: nat, b: nat, rest: seq<Token>)
    requires a <= b <= |text| && Covers(text, rest, b)
    requires kind == Dropped ==> '\n' !in text[a..b]
    ensures Covers(text, Tok(kind, a, b) + rest, a)
  {
    hide Tiles;
    TokTiles(kind, a, b, rest, |text|);
  }

  lemma SectionCovers(text: string, s: Section, a: nat, rest: seq<Token>)
    requires SectionFits(text, s) && a <= s.mark && Covers(text, rest, s.next)
    ensures Covers(text, SectionTokens(s, a, rest), a)
  {
    hide SectionFits, Covers, Tok;
    FitsAdvance(text, s);
    if s.Remark? {
      TokCovers(text, Comment, s.mark, s.next, rest);
      TokCovers(text, Code, a, s.mark, Tok(Comment, s.mark, s.next) + rest);
      Regroup(Tok(Code, a, s.mark), Tok(Comment, s.mark, s.next), rest);
    } else {
      DroppedHasNoBreak(text, s);
      TokCovers(text, Dropped, s.end, s.next, rest);
      TokCovers(text, String, s.content, s.end, Tok(Dropped, s.end, s.next) + rest);
      Regroup(Tok(String, s.content, s.end), Tok(Dropped, s.end, s.next), rest);
      TokCovers(text, Code, a, s.content, Tok(String, s.content, s.end) + Tok(Dropped, s.end, s.next) + rest);
    }
  }

  /** The tokens of a reading tile the text, and drop no line break. */
  lemma {:induction false} ReadingCovers(text: string, sections: seq<Section>, a: nat)
    requires IsReading(text, sections, a)
    ensures Covers(text, TokensOf(text, sections, a), a)
    decreases |sections|
  {
    hide SectionFits, NothingStarts, Covers, SectionTokens, Tok;
    if sections == [] {
      NothingCovers(text);
      TokCovers(text, Code, a, |text|, []);
      assert Tok(Code, a, |text|) + [] == Tok(Code, a, |text|);
    } else {
      ReadingCovers(text, sections[1..], sections[0].next);
      SectionCovers(text, sections[0], a, TokensOf(text, sections[1..], sections[0].next));
    }
  }

  lemma NothingCovers(text: string)
    ensures Covers(text, [], |text|)
  {
  }

  // ---- Lines --------------------------------------------------------------------------------------

  /** Characters, each painted with the kind of the token it lies in. */
  type Painted = seq<(Kind, char)>

  function Paint(kind: Kind, s: string): (r: Painted)
    ensures |r| == |s|
  {
    seq(|s|, i requires 0 <= i < |s| => (kind, s[i]))
  }

  function Unpainted(ps: Painted): (s: string)
    ensures |s| == |ps|
  {
    seq(|ps|, i requires 0 <= i < |ps| => ps[i].1)
  }

  function PaintedTokens(text: string, tokens: seq<Token>): Painted
    requires Inside(text, tokens)
  {
    if tokens == [] then []
    else
      var t := tokens[|tokens| - 1];
      PaintedTokens(text, tokens[..|tokens| - 1]) + Paint(t.kind, TextOf(text, t))
  }

  /** What the spans of one line record. */
  function PaintedLine(spans: seq<Span>): Painted {
    if spans == [] then []
    else
      var span := spans[|spans| - 1];
      PaintedLine(spans[..|spans| - 1]) + Paint(span.0, span.1)
  }

  /** The characters that are recorded. */
  function Kept(ps: Painted): Painted {
    if ps == [] then []
    else
      var init, p := ps[..|ps| - 1], ps[|ps| - 1];
      if p.0 == Dropped then Kept(init) else Kept(init) + [p]
  }

  /** `lines` continued with `ps`, which breaks at newlines. */
  function BrokenOnto(lines: seq<Painted>, ps: Painted): (r: seq<Painted>)
    requires lines != []
    ensures r != []
  {
    if ps == [] then lines
    else
      var init, p := ps[..|ps| - 1], ps[|ps| - 1];
      var before := BrokenOnto(lines, init);
      if p.1 == '\n' then before + [[]] else before[|before| - 1 := before[|before| - 1] + [p]]
  }

  function PaintedLines(spans: seq<seq<Span>>): (r: seq<Painted>)
    ensures |r| == |spans|
  {
    seq(|spans|, i requires 0 <= i < |spans| => PaintedLine(spans[i]))
  }

  function KeptLines(lines: seq<Painted>): (r: seq<Painted>)
    ensures |r| == |lines|
  {
    seq(|lines|, i requires 0 <= i < |lines| => Kept(lines[i]))
  }

  function UnpaintedLines(lines: seq<Painted>): (r: seq<string>)
    ensures |r| == |lines|
  {
    seq(|lines|, i requires 0 <= i < |lines| => Unpainted(lines[i]))
  }

  lemma BrokenSnoc(lines: seq<Painted>, ps: Painted, p: (Kind, char))
    requires lines != []
    ensures
      var before := BrokenOnto(lines, ps);
      BrokenOnto(lines, ps + [p]) ==
      if p.1 == '\n' then before + [[]] else before[|before| - 1 := before[|before| - 1] + [p]]
  {
    assert (ps + [p])[..|ps|] == ps;
  }

  lemma BrokenNothing(lines: seq<Painted>)
    requires lines != []
    ensures BrokenOnto(lines, []) == lines
  {
  }

  lemma {:induction false} BrokenConcat(lines: seq<Painted>, a: Painted, b: Painted)
    requires lines != []
    ensures BrokenOnto(lines, a + b) == BrokenOnto(BrokenOnto(lines, a), b)
    decreases |b|
  {
    hide BrokenOnto;
    if b == [] {
      BrokenNothing(BrokenOnto(lines, a));
      assert a + b == a;
    } else {
      var init, p := b[..|b| - 1], b[|b| - 1];
      InitLast(b);
      BrokenConcat(lines, a, init);
      BrokenSnoc(lines, a + init, p);
      BrokenSnoc(BrokenOnto(lines, a), init, p);
      assert a + init + [p] == a + b;
    }
  }

  lemma PaintSnoc(kind: Kind, s: string, c: char)
    ensures Paint(kind, s + [c]) == Paint(kind, s) + [(kind, c)]
  {
  }

  lemma PaintedLineSnoc(line: seq<Span>, span: Span)
    ensures PaintedLine(line + [span]) == PaintedLine(line) + Paint(span.0, span.1)
  {
    assert (line + [span])[..|line|] == line;
  }

  /** `lines` with `ps` appended to the last one. */
  function LastExtended(lines: seq<Painted>, ps: Painted): (r: seq<Painted>)
    requires lines != []
    ensures |r| == |lines|
  {
    lines[|lines| - 1 := lines[|lines| - 1] + ps]
  }

  lemma ExtendedByNothing(lines: seq<Painted>)
    requires lines != []
    ensures LastExtended(lines, []) == lines
  {
    assert lines[|lines| - 1] + [] == lines[|lines| - 1];
  }

  lemma ExtendedTwice(lines: seq<Painted>, a: Painted, b: Painted)
    requires lines != []
    ensures LastExtended(LastExtended(lines, a), b) == LastExtended(lines, a + b)
  {
    assert lines[|lines| - 1] + a + b == lines[|lines| - 1] + (a + b);
  }

  lemma NewLinePaints(spans: seq<seq<Span>>)
    ensures PaintedLines(spans + [[]]) == PaintedLines(spans) + [[]]
  {
  }

  lemma PutPaints(spans: seq<seq<Span>>, kind: Kind, part: string)
    requires spans != []
    ensures PaintedLines(AddSpan(spans, kind, part)) == LastExtended(PaintedLines(spans), Paint(kind, part))
  {
    hide PaintedLine;
    if part == "" {
      assert Paint(kind, part) == [];
      ExtendedByNothing(PaintedLines(spans));
    } else {
      PaintedLineSnoc(spans[|spans| - 1], (kind, part));
    }
  }

  function Base(spans: seq<seq<Span>>, kind: Kind, parts: seq<string>): (r: seq<seq<Span>>)
    requires spans != []
    ensures r != []
  {
    if parts == [] then spans else Recorded(spans, kind, parts) + [[]]
  }

  lemma RecordedSnoc(spans: seq<seq<Span>>, kind: Kind, parts: seq<string>, part: string)
    requires spans != []
    ensures Recorded(spans, kind, parts + [part]) == AddSpan(Base(spans, kind, parts), kind, part)
  {
    hide AddSpan;
    assert (parts + [part])[..|parts|] == parts;
  }

  lemma NothingPaints(spans: seq<seq<Span>>, kind: Kind)
    requires spans != []
    ensures PaintedLines(Recorded(spans, kind, Split("", '\n'))) == BrokenOnto(PaintedLines(spans), Paint(kind, ""))
  {
    hide Recorded, Split, BrokenOnto, PaintedLine, PaintedLines, AddSpan;
    SplitEmpty('\n');
    assert [] + [""] == [""];
    RecordedSnoc(spans, kind, [], "");
    PutPaints(spans, kind, "");
    assert Paint(kind, "") == [];
    BrokenNothing(PaintedLines(spans));
    ExtendedByNothing(PaintedLines(spans));
  }

  /** Recording a chunk paints its lines on. */
  lemma {:induction false} RecordedPaints(spans: seq<seq<Span>>, kind: Kind, s: string)
    requires spans != []
    ensures PaintedLines(Recorded(spans, kind, Split(s, '\n'))) == BrokenOnto(PaintedLines(spans), Paint(kind, s))
    decreases |s|
  {
    hide Recorded, Split, BrokenOnto, PaintedLine, PaintedLines, AddSpan, Extend, Paint;
    if s == "" {
      NothingPaints(spans, kind);
    } else {
      var init, c := s[..|s| - 1], s[|s| - 1];
      InitLast(s);
      RecordedPaints(spans, kind, init);
      PaintSnoc(kind, init, c);
      BrokenSnoc(PaintedLines(spans), Paint(kind, init), (kind, c));
      SplitSnoc(init, c, '\n');
      OneMoreChar(spans, kind, Split(init, '\n'), c);
    }
  }

  lemma OneMoreChar(spans: seq<seq<Span>>, kind: Kind, parts: seq<string>, c: char)
    requires spans != [] && parts != []
    ensures PaintedLines(Recorded(spans, kind, parts + [""])) == PaintedLines(Recorded(spans, kind, parts)) + [[]]
    ensures PaintedLines(Recorded(spans, kind, Extend(parts, c))) ==
            LastExtended(PaintedLines(Recorded(spans, kind, parts)), [(kind, c)])
  {
    hide Recorded, AddSpan, PaintedLine, PaintedLines, LastExtended;
    RecordedSnoc(spans, kind, parts, "");
    PutPaints(Base(spans, kind, parts), kind, "");
    assert Paint(kind, "") == [];
    ExtendedByNothing(PaintedLines(Base(spans, kind, parts)));
    NewLinePaints(Recorded(spans, kind, parts));
    var init, part := parts[..|parts| - 1], parts[|parts| - 1];
    InitLast(parts);
    RecordedSnoc(spans, kind, init, part);
    RecordedSnoc(spans, kind, init, part + [c]);
    PutPaints(Base(spans, kind, init), kind, part);
    PutPaints(Base(spans, kind, init), kind, part + [c]);
    PaintSnoc(kind, part, c);
    ExtendedTwice(PaintedLines(Base(spans, kind, init)), Paint(kind, part), [(kind, c)]);
  }

  lemma KeptSnoc(ps: Painted, p: (Kind, char))
    ensures Kept(ps + [p]) == if p.0 == Dropped then Kept(ps) else Kept(ps) + [p]
  {
    assert (ps + [p])[..|ps|] == ps;
  }

  /** Dropping commutes with breaking lines, as long as no line break is dropped. */
  lemma {:induction false} KeptBroken(lines: seq<Painted>, kind: Kind, s: string)
    requires lines != [] && (kind == Dropped ==> '\n' !in s)
    ensures KeptLines(BrokenOnto(lines, Paint(kind, s))) ==
            if kind == Dropped then KeptLines(lines) else BrokenOnto(KeptLines(lines), Paint(kind, s))
    decreases |s|
  {
    hide BrokenOnto, Kept;
    if s == "" {
      assert Paint(kind, s) == [];
      BrokenNothing(lines);
      BrokenNothing(KeptLines(lines));
    } else {
      var init, c := s[..|s| - 1], s[|s| - 1];
      InitLast(s);
      KeptBroken(lines, kind, init);
      PaintSnoc(kind, init, c);
      var before := BrokenOnto(lines, Paint(kind, init));
      BrokenSnoc(lines, Paint(kind, init), (kind, c));
      BrokenSnoc(KeptLines(lines), Paint(kind, init), (kind, c));
      KeptSnoc(before[|before| - 1], (kind, c));
      KeptNothing();
    }
  }

  lemma KeptNothing()
    ensures Kept([]) == []
  {
  }

  ghost predicate NoBreakDropped(text: string, tokens: seq<Token>)
    requires Inside(text, tokens)
  {
    forall i :: 0 <= i < |tokens| && tokens[i].kind == Dropped ==> '\n' !in TextOf(text, tokens[i])
  }

  lemma PaintedTokensSnoc(text: string, tokens: seq<Token>, t: Token)
    requires Inside(text, tokens) && t.from <= t.to <= |text|
    ensures Inside(text, tokens + [t])
    ensures PaintedTokens(text, tokens + [t]) == PaintedTokens(text, tokens) + Paint(t.kind, TextOf(text, t))
  {
    assert (tokens + [t])[..|tokens|] == tokens;
  }

  lemma PaintedNothing(text: string)
    ensures PaintedTokens(text, []) == []
  {
  }

  /** The spans of each line are that painted line without the dropped characters. */
  lemma {:induction false} FiledPaints(text: string, tokens: seq<Token>)
    requires Inside(text, tokens) && NoBreakDropped(text, tokens)
    ensures PaintedLines(Filed(text, tokens)) == KeptLines(BrokenOnto([[]], PaintedTokens(text, tokens)))
    decreases |tokens|
  {
    hide Filed, BrokenOnto, PaintedTokens, Recorded, Split, TextOf;
    if tokens == [] {
      FiledNothing(text);
      PaintedNothing(text);
      BrokenNothing([[]]);
      KeptNothing();
    } else {
      var init, t := tokens[..|tokens| - 1], tokens[|tokens| - 1];
      InitLast(tokens);
      FiledPaints(text, init);
      FiledSnoc(text, init, t);
      PaintedTokensSnoc(text, init, t);
      var s := TextOf(text, t);
      BrokenConcat([[]], PaintedTokens(text, init), Paint(t.kind, s));
      KeptBroken(BrokenOnto([[]], PaintedTokens(text, init)), t.kind, s);
      RecordedPaints(Filed(text, init), t.kind, s);
    }
  }

  lemma UnpaintedSnoc(ps: Painted, p: (Kind, char))
    ensures Unpainted(ps + [p]) == Unpainted(ps) + [p.1]
  {
  }

  lemma UnpaintedAppend(ps: Painted, kind: Kind, s: string)
    ensures Unpainted(ps + Paint(kind, s)) == Unpainted(ps) + s
  {
  }

  lemma UnpaintedLinesStep(lines: seq<Painted>, p: (Kind, char))
    requires lines != []
    ensures UnpaintedLines(lines + [[]]) == UnpaintedLines(lines) + [""]
    ensures UnpaintedLines(lines[|lines| - 1 := lines[|lines| - 1] + [p]]) == Extend(UnpaintedLines(lines), p.1)
  {
    UnpaintedSnoc(lines[|lines| - 1], p);
  }

  lemma {:induction false} BrokenIsSplit(ps: Painted)
    ensures UnpaintedLines(BrokenOnto([[]], ps)) == Split(Unpainted(ps), '\n')
    decreases |ps|
  {
    hide BrokenOnto, Split;
    if ps == [] {
      BrokenNothing([[]]);
      SplitEmpty('\n');
    } else {
      var init, p := ps[..|ps| - 1], ps[|ps| - 1];
      InitLast(ps);
      BrokenIsSplit(init);
      BrokenSnoc([[]], init, p);
      SplitSnoc(Unpainted(init), p.1, '\n');
      UnpaintedSnoc(init, p);
      UnpaintedLinesStep(BrokenOnto([[]], init), p);
    }
  }

  lemma TilesInit(tokens: seq<Token>, a: nat, b: nat)
    requires tokens != [] && Tiles(tokens, a, b)
    ensures Tiles(tokens[..|tokens| - 1], a, tokens[|tokens| - 1].from)
    ensures a <= tokens[|tokens| - 1].from < tokens[|tokens| - 1].to == b
    decreases |tokens|
  {
    if |tokens| > 1 {
      TilesInit(tokens[..|tokens| - 1], a, tokens[|tokens| - 1].from);
    }
  }

  /** Tiling tokens paint exactly the text they cover. */
  lemma {:induction false} TilesPaintAll(text: string, tokens: seq<Token>, a: nat, b: nat)
    requires Tiles(tokens, a, b) && b <= |text|
    ensures a <= b && Inside(text, tokens) && Unpainted(PaintedTokens(text, tokens)) == text[a..b]
    decreases |tokens|
  {
    hide PaintedTokens, Tiles;
    if tokens == [] {
      EmptyTiles(a, b);
      PaintedNothing(text);
    } else {
      var init, t := tokens[..|tokens| - 1], tokens[|tokens| - 1];
      TilesInit(tokens, a, b);
      TilesPaintAll(text, init, a, t.from);
      InitLast(tokens);
      PaintedTokensSnoc(text, init, t);
      UnpaintedAppend(PaintedTokens(text, init), t.kind, TextOf(text, t));
      assert text[a..t.from] + text[t.from..b] == text[a..b];
    }
  }

  lemma EmptyTiles(a: nat, b: nat)
    requires Tiles([], a, b)
    ensures a == b
  {
  }

  lemma {:induction false} SplitCounts(s: string)
    ensures |Split(s, '\n')| == 1 + multiset(s)['\n']
  {
    hide Split;
    if s == "" {
      SplitEmpty('\n');
    } else {
      InitLast(s);
      SplitCounts(s[..|s| - 1]);
      SplitSnoc(s[..|s| - 1], s[|s| - 1], '\n');
    }
  }

  /** The source, every character painted with the kind of its token. */
  function Painting(text: string): Painted
    requires Inside(text, CodeFrom(text, 0, 0))
  {
    PaintedTokens(text, CodeFrom(text, 0, 0))
  }

  /** The one reading of a text, and its tokens. */
  ghost predicate IsReadingWith(text: string, sections: seq<Section>, tokens: seq<Token>) {
    && IsReading(text, sections, 0) && tokens == TokensOf(text, sections, 0)
    && forall other :: IsReading(text, other, 0) ==> other == sections
  }

  /**
   Every source has exactly one reading as comments and literals with code between them,
   and the lexer's tokens are the tokens of that reading.
   */
  lemma LexIsTheReading(text: string)
    ensures exists sections :: IsReadingWith(text, sections, CodeFrom(text, 0, 0))
  {
    hide IsReading, TokensOf, CodeFrom, NothingStarts;
    NothingYet(text, 0);
    var sections := CodeHasReading(text, 0, 0);
    forall other | IsReading(text, other, 0) ensures other == sections {
      ReadingIsUnique(text, sections, other, 0);
    }
    assert IsReadingWith(text, sections, CodeFrom(text, 0, 0));
  }

  /**
   Faithfulness, for every source. The tokens tile it; the result has one line of spans
   for each source line; and the spans of a line, read with their kinds, are exactly that
   source line without its dropped characters.
   */
  lemma LexIsFaithful(text: string)
    ensures Tiles(CodeFrom(text, 0, 0), 0, |text|)
    ensures Inside(text, CodeFrom(text, 0, 0)) && Unpainted(Painting(text)) == text
    ensures PaintedLines(Filed(text, CodeFrom(text, 0, 0))) == KeptLines(BrokenOnto([[]], Painting(text)))
    ensures UnpaintedLines(BrokenOnto([[]], Painting(text))) == Split(text, '\n')
    ensures |Filed(text, CodeFrom(text, 0, 0))| == 1 + multiset(text)['\n']
  {
    hide CodeFrom, PaintedTokens, BrokenOnto, Filed, Split, TextOf, Tiles, TokensOf, IsReading;
    var tokens := CodeFrom(text, 0, 0);
    LexIsTheReading(text);
    var sections :| IsReadingWith(text, sections, tokens);
    ReadingCovers(text, sections, 0);
    TilesPaintAll(text, tokens, 0, |text|);
    assert text[0..|text|] == text;
    assert forall i :: 0 <= i < |tokens| ==> Breakless(text, tokens[i]);
    FiledPaints(text, tokens);
    BrokenIsSplit(Painting(text));
    SplitCounts(text);
  }

  // ---- Where the code does not read Rust ------------------------------------------------------------

  /** Every section of a reading is what its first characters open. */
  lemma {:induction false} ReadingFits(text: string, sections: seq<Section>, a: nat, i: nat)
    requires IsReading(text, sections, a) && i < |sections|
    ensures SectionFits(text, sections[i])
    decreases |sections|
  {
    hide SectionFits, NothingStarts;
    if i > 0 {
      ReadingFits(text, sections[1..], sections[0].next, i - 1);
    }
  }

  /** `q` is the first quote at or after `from`, or the end of the text. */
  ghost predicate FirstQuote(text: string, from: nat, q: nat) {
    && from <= q <= |text|
    && (forall k :: from <= k < q ==> text[k] != '\"')
    && (q < |text| ==> text[q] == '\"')
  }

  /** No backslash stands right before the quote at `q`, and no bare line break before it. */
  ghost predicate NothingMisleads(text: string, from: nat, q: nat)
    requires from <= q <= |text|
  {
    && (forall k :: from <= k < q && text[k] == '\n' ==> Escaped(text, from, k))
    && (q < |text| ==> !Escaped(text, from, q))
  }

  /** Reading an ordinary string gets to its first quote exactly when nothing misleads it. */
  lemma PlainEndsAtFirstQuoteIff(text: string, from: nat, e: nat, q: nat)
    requires from <= e <= |text| && PlainStringFits(text, from, e) && FirstQuote(text, from, q)
    ensures e == q <==> NothingMisleads(text, from, q)
  {
    hide Escaped;
    if NothingMisleads(text, from, q) {
      PlainEndIsUnique(text, from, e, q);
    }
  }

  /** The section is the raw string that its delimiter opens: to the first closer with the same hashes. */
  ghost predicate ReadAsRaw(text: string, s: Section)
    requires s.Quoted? && Ordered(text, s) && RawDelimiter(text, s.mark, s.content)
  {
    var closer := ['\"'] + text[HashStart(text, s.mark)..s.content - 1];
    && RawStringFits(text, s.content, s.end, closer)
    && s.next == if s.end < |text| then s.end + |closer| else s.end
  }

  lemma QuoteStands(text: string, k: nat)
    ensures At(text, k, "\"") <==> k < |text| && text[k] == '\"'
  {
    if k < |text| {
      assert text[k..k + 1] == [text[k]];
    }
  }

  /**
   Exactly when a raw string is read as one. With hashes always; without, if and only if
   nothing up to its first quote misleads the reading of an ordinary string.
   */
  lemma RawStringIsReadIff(text: string, s: Section, q: nat)
    requires s.Quoted? && SectionFits(text, s) && RawDelimiter(text, s.mark, s.content)
    requires FirstQuote(text, s.content, q)
    ensures ReadAsRaw(text, s) <==> HashStart(text, s.mark) < s.content - 1 || NothingMisleads(text, s.content, q)
    ensures HashStart(text, s.mark) == s.content - 1 ==> (ReadAsRaw(text, s) <==> s.end == q)
  {
    hide NothingMisleads, PlainStringFits, At;
    RawMark(text, s.mark, s.content);
    var hashes := text[HashStart(text, s.mark)..s.content - 1];
    if hashes == "" {
      assert ['\"'] + hashes == "\"";
      forall k: nat ensures At(text, k, "\"") <==> k < |text| && text[k] == '\"' {
        QuoteStands(text, k);
      }
      PlainEndsAtFirstQuoteIff(text, s.content, s.end, q);
    }
  }

  lemma {:induction false} FirstQuoteExists(text: string, from: nat) returns (q: nat)
    requires from <= |text|
    ensures FirstQuote(text, from, q)
    decreases |text| - from
  {
    if from == |text| || text[from] == '\"' {
      q := from;
    } else {
      q := FirstQuoteExists(text, from + 1);
    }
  }

  predicate IsRawString(text: string, s: Section) {
    s.Quoted? && s.mark < |text| && (text[s.mark] == 'r' || text[s.mark] == 'b')
  }

  ghost predicate IsReadAsRaw(text: string, s: Section) {
    s.Quoted? && Ordered(text, s) && RawDelimiter(text, s.mark, s.content) && ReadAsRaw(text, s)
  }

  /** The raw string has hashes, or nothing up to its first quote misleads. */
  ghost predicate IsSafeRaw(text: string, s: Section) {
    && s.Quoted? && s.mark < |text|
    && (|| HashStart(text, s.mark) < s.content - 1
        || exists q: nat :: FirstQuote(text, s.content, q) && NothingMisleads(text, s.content, q))
  }

  /** Of the raw strings in a text exactly the safe ones are read as such. */
  lemma RawStringsAreReadIff(text: string, sections: seq<Section>)
    requires IsReading(text, sections, 0)
    ensures forall i :: 0 <= i < |sections| && IsRawString(text, sections[i]) ==>
              (IsReadAsRaw(text, sections[i]) <==> IsSafeRaw(text, sections[i]))
  {
    hide IsReading, ReadAsRaw, NothingMisleads, FirstQuote, RawDelimiter, PlainFits, RawStringFits, CharLiteralAt;
    forall i | 0 <= i < |sections| && IsRawString(text, sections[i])
      ensures IsReadAsRaw(text, sections[i]) <==> IsSafeRaw(text, sections[i])
    {
      var s := sections[i];
      ReadingFits(text, sections, 0, i);
      RawMark(text, s.mark, s.content);
      var q := FirstQuoteExists(text, s.content);
      RawStringIsReadIff(text, s, q);
      forall p: nat | FirstQuote(text, s.content, p) ensures p == q {
        FirstQuoteIsUnique(text, s.content, p, q);
      }
    }
  }

  lemma FirstQuoteIsUnique(text: string, from: nat, p: nat, q: nat)
    requires FirstQuote(text, from, p) && FirstQuote(text, from, q)
    ensures p == q
  {
  }

  /** A character literal from `p` up to `e`: a quote, one plain character or an escape, a quote. */
  predicate CharLiteralSpan(text: string, p: nat, e: nat) {
    && p + 3 <= e <= |text| && text[p] == '\'' && text[e - 1] == '\''
    && if text[p + 1] == '\\' then e == p + 4 && text[p + 2] != '\n' else e == p + 3 && text[p + 1] != '\''
  }

  /**
   Exactly when a character literal is read as one: the reading stops after its closing
   quote if and only if its content is not an escape. Of an escape it stops one character
   early: the escaped character is dropped, and the closing quote is read as code.
   */
  lemma CharLiteralIsReadIff(text: string, s: Section)
    requires s.Quoted? && SectionFits(text, s) && text[s.mark] == '\''
    ensures exists e: nat :: CharLiteralSpan(text, s.mark, e) && (forall f :: CharLiteralSpan(text, s.mark, f) ==> f == e)
              && (s.next == e <==> text[s.mark + 1] != '\\')
              && (text[s.mark + 1] == '\\' ==> s.next == e - 1 && s.end == e - 2)
  {
    var e := if text[s.mark + 1] == '\\' then s.mark + 4 else s.mark + 3;
    assert CharLiteralSpan(text, s.mark, e);
  }

  /** Character literals are found exactly where one stands. */
  lemma CharLiteralsAreFound(text: string, p: nat)
    ensures CharLiteralAt(text, p) <==> exists e: nat :: CharLiteralSpan(text, p, e)
  {
    if CharLiteralAt(text, p) {
      assert CharLiteralSpan(text, p, if text[p + 1] == '\\' then p + 4 else p + 3);
    }
  }

  /** What starts in a text is read: the place lies in a section of the reading. */
  lemma {:induction false} StartsAreRead(text: string, sections: seq<Section>, a: nat, p: nat)
    requires IsReading(text, sections, a) && a <= p < |text| && Starts(text, p)
    ensures exists i :: 0 <= i < |sections| && sections[i].mark <= p < sections[i].next
    decreases |sections|
  {
    hide SectionFits, Starts;
    if sections != [] && sections[0].next <= p {
      StartsAreRead(text, sections[1..], sections[0].next, p);
      var i :| 0 <= i < |sections| - 1 && sections[1..][i].mark <= p < sections[1..][i].next;
      assert sections[i + 1] == sections[1..][i];
    }
  }

  /** Every character literal, comment mark and quote of a text lies in a section of its reading, none in code. */
  lemma NothingIsOverlooked(text: string, sections: seq<Section>, p: nat, e: nat)
    requires IsReading(text, sections, 0) && p < |text|
    requires CharLiteralSpan(text, p, e) || text[p] == '\"' || At(text, p, "//") || At(text, p, "/*")
    ensures exists i :: 0 <= i < |sections| && sections[i].mark <= p < sections[i].next
  {
    hide IsReading, CharLiteralSpan, At, RawDelimiter, CharLiteralAt;
    CharLiteralsAreFound(text, p);
    StartsAreRead(text, sections, 0, p);
  }

  /** A raw string without hashes is read like an ordinary one: a backslash before its quote escapes it. */
  lemma BareRawStringEscapes()
    ensures CodeFrom("r\"\\\"", 0, 0) == [Token(Code, 0, 2), Token(String, 2, 4)]
  {
    var text := "r\"\\\"";
    assert !At(text, 0, "//") && !At(text, 0, "/*");
    assert RawOpening(text, 0) == Opening(2, "");
    assert StringEnd(text, 2) == 4;
  }

  /** Of an escaped character literal the escaped character is dropped, not the closing quote. */
  lemma EscapedCharacterIsDropped()
    ensures CodeFrom("'\\n'", 0, 0) ==
            [Token(Code, 0, 1), Token(String, 1, 2), Token(Dropped, 2, 3), Token(Code, 3, 4)]
  {
    var text := "'\\n'";
    TwoAt(text, 0, "//");
    TwoAt(text, 0, "/*");
    assert RawOpening(text, 0) == NoOpening && CharLiteralAt(text, 0);
    TwoAt(text, 3, "//");
    TwoAt(text, 3, "/*");
    assert RawOpening(text, 3) == NoOpening && !CharLiteralAt(text, 3);
    assert CodeFrom(text, 3, 3) == CodeFrom(text, 3, 4) == Tok(Code, 3, 4);
  }
}
