/**
 The span lexer of the site-neutrality check (`_Lexer` in
 `tools/check_site_neutrality.py`): it splits Rust source into code, strings and
 comments, line by line. `\n` is the only line break.

 `CodeFrom` and its companions say token by token what a source means; the class
 is the machine that gets there one character at a time.
 */
module SpanLexer {
  import opened Text
  import opened HttpTypes

  /** `Dropped` marks text that no span records. */
  datatype Kind = Code | String | Comment | Dropped

  datatype Token = Token(kind: Kind, from: nat, to: nat)

  /** A span of one line: its kind and its characters. */
  type Span = (Kind, string)

  // ---- What a source means ------------------------------------------------------------------

  /** The token from `a` to `b`, unless it is empty. */
  function Tok(kind: Kind, a: nat, b: nat): seq<Token> {
    if a < b then [Token(kind, a, b)] else []
  }

  predicate At(text: string, p: nat, word: string) {
    p + |word| <= |text| && text[p..p + |word|] == word
  }

  /** The first place at or after `p` where `word` stands. */
  function Find(text: string, p: nat, word: string): (r: Option<nat>)
    ensures r.Some? ==> p <= r.value && At(text, r.value, word)
    decreases |text| - p
  {
    if p > |text| then None
    else if At(text, p, word) then Some(p)
    else Find(text, p + 1, word)
  }

  /** Just after the next newline, or the end of the text. */
  function LineEnd(text: string, p: nat): (e: nat)
    requires p <= |text|
    ensures p <= e <= |text|
    ensures p < |text| ==> p < e
  {
    var newline := Find(text, p, "\n");
    if newline.Some? then newline.value + 1 else |text|
  }

  /** Where a block comment of this nesting depth ends; comments nest. */
  function CommentEnd(text: string, p: nat, depth: nat): (e: nat)
    requires p <= |text| && depth >= 1
    ensures p <= e <= |text|
    decreases |text| - p
  {
    if p == |text| then p
    else if At(text, p, "/*") then CommentEnd(text, p + 2, depth + 1)
    else if At(text, p, "*/") then if depth == 1 then p + 2 else CommentEnd(text, p + 2, depth - 1)
    else CommentEnd(text, p + 1, depth)
  }

  /** Where the content of an ordinary string ends: at a quote, a newline, or the end. */
  function StringEnd(text: string, p: nat): (e: nat)
    requires p <= |text|
    ensures p <= e <= |text|
    decreases |text| - p
  {
    if p == |text| then p
    else if text[p] == '\\' then StringEnd(text, if p + 2 < |text| then p + 2 else |text|)
    else if text[p] == '\"' || text[p] == '\n' then p
    else StringEnd(text, p + 1)
  }

  /** How many `#` stand at `p`. */
  function HashesAt(text: string, p: nat): (n: nat)
    ensures n > 0 ==> p + n <= |text|
    ensures forall i :: p <= i < p + n ==> text[i] == '#'
    decreases |text| - p
  {
    if p < |text| && text[p] == '#' then 1 + HashesAt(text, p + 1) else 0
  }

  /** The opening of a raw string at `p`: where its content starts, and its hashes. */
  datatype Opening = NoOpening | Opening(content: nat, hashes: string)

  function RawOpening(text: string, p: nat): (o: Opening)
    ensures o.Opening? ==> p < o.content <= |text| && forall c :: c in o.hashes ==> c == '#'
  {
    var r := if p < |text| && text[p] == 'b' then p + 1 else p;
    if r < |text| && text[r] == 'r' then
      var n := HashesAt(text, r + 1);
      var quote := r + 1 + n;
      if quote < |text| && text[quote] == '\"' then Opening(quote + 1, text[r + 1..quote]) else NoOpening
    else NoOpening
  }

  /** A character literal at `p`: one plain character, or an escape other than a line break. */
  predicate CharLiteralAt(text: string, p: nat) {
    p < |text| && text[p] == '\'' &&
    (|| (p + 3 < |text| && text[p + 1] == '\\' && text[p + 2] != '\n' && text[p + 3] == '\'')
     || (p + 2 < |text| && text[p + 1] != '\\' && text[p + 1] != '\'' && text[p + 2] == '\''))
  }

  /** The tokens from `start` on, when everything from `start` to `p` is code. */
  function CodeFrom(text: string, start: nat, p: nat): seq<Token>
    requires start <= p <= |text|
    decreases |text| - p, 0
  {
    if p == |text| then Tok(Code, start, p)
    else if At(text, p, "//") then
      var e := LineEnd(text, p);
      Tok(Code, start, p) + Tok(Comment, p, e) + CodeFrom(text, e, e)
    else if At(text, p, "/*") then
      Tok(Code, start, p) + CommentFrom(text, p, p + 2, 1)
    else if RawOpening(text, p).Opening? then
      var o := RawOpening(text, p);
      Tok(Code, start, o.content) + StringFrom(text, o.content, o.content, o.hashes)
    else if text[p] == '\"' then
      Tok(Code, start, p + 1) + StringFrom(text, p + 1, p + 1, "")
    else if CharLiteralAt(text, p) then
      Tok(Code, start, p + 1) + Tok(String, p + 1, p + 2) + Tok(Dropped, p + 2, p + 3) + CodeFrom(text, p + 3, p + 3)
    else CodeFrom(text, start, p + 1)
  }

  /** The tokens from `start` on, in a block comment of this depth read up to `p`. */
  function CommentFrom(text: string, start: nat, p: nat, depth: nat): seq<Token>
    requires start < p <= |text|
    decreases |text| - p, 1
  {
    var e := if depth == 0 then LineEnd(text, p) else CommentEnd(text, p, depth);
    Tok(Comment, start, e) + CodeFrom(text, e, e)
  }

  /** The tokens from `start` on, in a string whose content was read up to `p`. */
  function StringFrom(text: string, start: nat, p: nat, hashes: string): seq<Token>
    requires start <= p <= |text|
    decreases |text| - p, 1
  {
    if hashes != "" then
      var closer := ['\"'] + hashes;
      var i := Find(text, p, closer);
      if i.None? then Tok(String, start, |text|)
      else
        Tok(String, start, i.value) + Tok(Dropped, i.value, i.value + |closer|)
        + CodeFrom(text, i.value + |closer|, i.value + |closer|)
    else
      var e := StringEnd(text, p);
      Tok(String, start, e) +
      if e < |text| && text[e] == '\"' then Tok(Dropped, e, e + 1) + CodeFrom(text, e + 1, e + 1)
      else CodeFrom(text, e, e)
  }

  // ---- Filing tokens under lines ------------------------------------------------------------------

  function AddSpan(spans: seq<seq<Span>>, kind: Kind, part: string): (r: seq<seq<Span>>)
    requires spans != []
    ensures |r| == |spans|
  {
    if part == "" then spans else spans[|spans| - 1 := spans[|spans| - 1] + [(kind, part)]]
  }

  /** A chunk's first line goes to the current line; each further one starts a new line. */
  function Recorded(spans: seq<seq<Span>>, kind: Kind, parts: seq<string>): (r: seq<seq<Span>>)
    requires spans != [] && parts != []
    ensures |r| == |spans| + |parts| - 1
  {
    if |parts| == 1 then AddSpan(spans, kind, parts[0])
    else AddSpan(Recorded(spans, kind, parts[..|parts| - 1]) + [[]], kind, parts[|parts| - 1])
  }

  /** Every token lies inside the text. */
  predicate Inside(text: string, tokens: seq<Token>) {
    forall i :: 0 <= i < |tokens| ==> tokens[i].from <= tokens[i].to <= |text|
  }

  function TextOf(text: string, t: Token): string
    requires t.from <= t.to <= |text|
  {
    text[t.from..t.to]
  }

  /** The spans of each line. */
  function Filed(text: string, tokens: seq<Token>): (r: seq<seq<Span>>)
    requires Inside(text, tokens)
    ensures r != []
  {
    if tokens == [] then [[]]
    else
      var before, t := Filed(text, tokens[..|tokens| - 1]), tokens[|tokens| - 1];
      if t.kind == Dropped then before else Recorded(before, t.kind, Split(TextOf(text, t), '\n'))
  }

  lemma FiledNothing(text: string)
    ensures Filed(text, []) == [[]]
  {
  }

  lemma FiledSnoc(text: string, tokens: seq<Token>, t: Token)
    requires Inside(text, tokens) && t.from <= t.to <= |text|
    ensures Inside(text, tokens + [t])
    ensures Filed(text, tokens + [t]) ==
            if t.kind == Dropped then Filed(text, tokens)
            else Recorded(Filed(text, tokens), t.kind, Split(TextOf(text, t), '\n'))
  {
    hide Recorded, Split, TextOf;
    assert (tokens + [t])[..|tokens|] == tokens;
  }

  // ---- The machine ----------------------------------------------------------------------------------

  /** The tokens still to come for a machine in this state. */
  function Rest(text: string, kind: Kind, start: nat, pos: nat, depth: nat, hashes: string): seq<Token>
    requires start <= pos <= |text| && (kind == Comment ==> start < pos)
  {
    match kind
    case Code => CodeFrom(text, start, pos)
    case Comment => CommentFrom(text, start, pos, depth)
    case String => StringFrom(text, start, pos, hashes)
    case Dropped => []
  }

  class Lexer {
    const text: string
    var pos: nat
    var kind: Kind
    var start: nat
    var line: nat
    var spans: seq<seq<Span>>
    var blockDepth: nat
    var rawHashes: string
    /** The tokens closed so far, with the text that was dropped. */
    ghost var tokens: seq<Token>

    /** The closed tokens are filed under their lines. */
    ghost predicate Filing()
      reads this
    {
      && start <= pos <= |text| && kind != Dropped
      && |spans| == line + 1
      && Inside(text, tokens) && spans == Filed(text, tokens)
    }

    ghost predicate Valid()
      reads this
    {
      Filing() && (kind == Comment ==> start < pos)
    }

    /** What the machine has found and will find. */
    ghost function Meaning(): seq<Token>
      requires Valid()
      reads this
    {
      tokens + Rest(text, kind, start, pos, blockDepth, rawHashes)
    }

    constructor (text: string)
      ensures this.text == text && Valid() && pos == 0 && kind == Code
      ensures Meaning() == CodeFrom(text, 0, 0)
    {
      this.text := text;
      pos, kind, start, line, spans := 0, Code, 0, 0, [[]];
      blockDepth, rawHashes := 0, "";
      tokens := [];
      new;
      FiledNothing(text);
    }

    method Record(chunk: string)
      requires |spans| == line + 1
      modifies this`line, this`spans
      ensures |spans| == line + 1
      ensures spans == if chunk == "" then old(spans) else Recorded(old(spans), kind, Split(chunk, '\n'))
    {
      hide Split;
      if chunk == "" {
        return;
      }
      var parts := Split(chunk, '\n');
      for index := 0 to |parts|
        invariant |spans| == line + 1
        invariant spans == if index == 0 then old(spans) else Recorded(old(spans), kind, parts[..index])
      {
        assert parts[..index + 1][..index] == parts[..index];
        if index > 0 {
          line := line + 1;
          if line >= |spans| {
            spans := spans + [[]];
          }
        }
        if parts[index] != "" {
          spans := spans[line := spans[line] + [(kind, parts[index])]];
        }
      }
      assert parts[..|parts|] == parts;
    }

    /** Turns the text from `start` up to `pos` into a token, if there is any. */
    method Close()
      requires Filing()
      modifies this`line, this`spans, this`start, this`tokens
      ensures Filing() && start == pos
      ensures tokens == old(tokens) + Tok(kind, old(start), pos)
    {
      hide Filed, Recorded, Split;
      if pos > start {
        Record(text[start..pos]);
        FiledSnoc(text, tokens, Token(kind, start, pos));
        tokens := tokens + [Token(kind, start, pos)];
      }
      start := pos;
    }

    /** The pending text was of kind `ending`; what comes is of kind `next`. */
    method EndSpan(ending: Kind, next: Kind)
      requires Filing() && ending != Dropped && next != Dropped
      modifies this`line, this`spans, this`start, this`tokens, this`kind
      ensures Filing() && start == pos && kind == next
      ensures tokens == old(tokens) + Tok(ending, old(start), pos)
    {
      hide Filed;
      kind := ending;
      Close();
      kind := next;
      start := pos;
    }

    /** Moves past text that no span records. */
    method Drop(upTo: nat)
      requires Filing() && start == pos <= upTo <= |text|
      modifies this`pos, this`start, this`tokens
      ensures Filing() && start == pos == upTo
      ensures tokens == old(tokens) + Tok(Dropped, old(start), upTo)
    {
      hide Filed;
      if pos < upTo {
        FiledSnoc(text, tokens, Token(Dropped, pos, upTo));
        tokens := tokens + [Token(Dropped, pos, upTo)];
      }
      pos := upTo;
      start := pos;
    }

    /** Leaves code and begins a string whose first character is its content. */
    method OpenString(contentStart: nat, hashes: string)
      requires Filing() && kind == Code && pos <= contentStart <= |text|
      modifies this`line, this`spans, this`start, this`tokens, this`kind, this`pos, this`rawHashes
      ensures Filing() && kind == String && start == pos == contentStart && rawHashes == hashes
      ensures tokens == old(tokens) + Tok(Code, old(start), contentStart)
    {
      pos := contentStart;
      EndSpan(Code, String);
      rawHashes := hashes;
      start := contentStart;
    }

    method LineComment()
      requires Filing() && kind == Code && pos < |text|
      modifies this
      ensures Filing() && kind == Code && start == pos == LineEnd(text, old(pos))
      ensures tokens == old(tokens) + Tok(Code, old(start), old(pos)) + Tok(Comment, old(pos), pos)
    {
      hide Filed, Find;
      var from := pos;
      EndSpan(Code, Comment);
      var newline := Find(text, from, "\n");
      pos := if newline.None? then |text| else newline.value + 1;
      EndSpan(Comment, Code);
    }

    method CharLiteral()
      requires Filing() && kind == Code && CharLiteralAt(text, pos)
      modifies this
      ensures Filing() && kind == Code && start == pos == old(pos) + 3
      ensures tokens == old(tokens) + Tok(Code, old(start), old(pos) + 1) + Tok(String, old(pos) + 1, old(pos) + 2)
                        + Tok(Dropped, old(pos) + 2, pos)
    {
      hide Filed;
      var from := pos;
      OpenString(from + 1, "");
      pos := from + 2;
      EndSpan(String, Code);
      Drop(from + 3);
    }

    /** One step in code. */
    method CodeStep()
      requires Valid() && kind == Code && pos < |text|
      modifies this
      ensures Valid() && Meaning() == old(Meaning())
      ensures pos > old(pos)
      ensures kind == Comment ==> blockDepth >= 1
    {
      hide Filed, CodeFrom, CommentFrom, StringFrom, CharLiteralAt, RawOpening, LineEnd, At, Tok;
      ghost var was := Meaning();
      CodeUnfolds(text, start, pos);
      if At(text, pos, "//") {
        LineComment();
        Reassociate(old(tokens), Tok(Code, old(start), old(pos)), Tok(Comment, old(pos), pos), CodeFrom(text, pos, pos));
      } else if At(text, pos, "/*") {
        AtFits(text, pos, "/*");
        EndSpan(Code, Comment);
        blockDepth := 1;
        pos := pos + 2;
      } else if RawOpening(text, pos).Opening? {
        var o := RawOpening(text, pos);
        OpenString(o.content, o.hashes);
      } else if text[pos] == '\"' {
        OpenString(pos + 1, "");
      } else if CharLiteralAt(text, pos) {
        CharLiteral();
      } else {
        pos := pos + 1;
      }
    }

    /** One step in a comment; with a depth of zero it would be a line comment. */
    method CommentStep()
      requires Valid() && kind == Comment && pos < |text|
      modifies this
      ensures Valid() && Meaning() == old(Meaning())
      ensures pos > old(pos)
      ensures kind == Comment ==> blockDepth >= 1
    {
      hide Filed, CodeFrom, LineEnd, CommentEnd, At, Tok;
      if blockDepth == 0 {
        pos := LineEnd(text, pos);
        EndSpan(Comment, Code);
        return;
      }
      CommentEndUnfolds(text, pos, blockDepth);
      if At(text, pos, "/*") {
        AtFits(text, pos, "/*");
        blockDepth := blockDepth + 1;
        pos := pos + 2;
      } else if At(text, pos, "*/") {
        AtFits(text, pos, "*/");
        blockDepth := blockDepth - 1;
        pos := pos + 2;
        if blockDepth == 0 {
          EndSpan(Comment, Code);
        }
      } else {
        pos := pos + 1;
      }
    }

    /** One step in a raw string: to its closing delimiter, or to the end of the text. */
    method RawStringStep()
      requires Valid() && kind == String && rawHashes != "" && pos < |text|
      modifies this
      ensures Valid() && Meaning() == old(Meaning())
      ensures kind == Code && pos > old(pos)
    {
      hide Filed, CodeFrom, Find, At;
      CodeAtEnd(text);
      var closer := ['\"'] + rawHashes;
      var index := Find(text, pos, closer);
      if index.None? {
        pos := |text|;
        EndSpan(String, Code);
      } else {
        AtFits(text, index.value, closer);
        pos := index.value;
        EndSpan(String, Code);
        Drop(index.value + |closer|);
      }
    }

    /**
     One step in an ordinary string. A newline ends an unterminated string without
     moving on, so that the newline is read again as code.
     */
    method PlainStringStep()
      requires Valid() && kind == String && rawHashes == "" && pos < |text|
      modifies this
      ensures Valid() && Meaning() == old(Meaning())
      ensures kind != Comment
      ensures pos > old(pos) || (pos == old(pos) && kind == Code)
    {
      hide Filed, CodeFrom, StringEnd, Find, At, Tok;
      StringEndUnfolds(text, pos);
      if text[pos] == '\\' {
        pos := if pos + 2 < |text| then pos + 2 else |text|;
      } else if text[pos] == '\"' {
        EndSpan(String, Code);
        Drop(pos + 1);
      } else if text[pos] == '\n' {
        EndSpan(String, Code);
      } else {
        pos := pos + 1;
      }
    }

    method StringStep()
      requires Valid() && kind == String && pos < |text|
      modifies this
      ensures Valid() && Meaning() == old(Meaning())
      ensures kind != Comment
      ensures pos > old(pos) || (pos == old(pos) && kind == Code)
    {
      hide Filed, Rest;
      if rawHashes != "" {
        RawStringStep();
      } else {
        PlainStringStep();
      }
    }

    /**
     Lexes the whole text. The string step that does not advance leaves the string, so
     the machine stops; and in the loop a comment is always a block comment.
     */
    method Run() returns (lines: seq<seq<Span>>)
      requires Valid() && pos == 0 && kind == Code && Meaning() == CodeFrom(text, 0, 0)
      modifies this
      ensures tokens == CodeFrom(text, 0, 0)
      ensures Inside(text, CodeFrom(text, 0, 0)) && lines == Filed(text, CodeFrom(text, 0, 0))
    {
      hide Filed, CodeFrom, CommentFrom, StringFrom;
      while pos < |text|
        invariant Valid() && Meaning() == CodeFrom(text, 0, 0)
        invariant kind == Comment ==> blockDepth >= 1
        decreases |text| - pos, kind == String
      {
        if kind == Code {
          CodeStep();
        } else if kind == Comment {
          CommentStep();
        } else {
          StringStep();
        }
      }
      RestAtEnd(text, kind, start, blockDepth, rawHashes);
      Close();
      return spans;
    }
  }

  /** `lex`. */
  method Lex(text: string) returns (lines: seq<seq<Span>>)
    ensures Inside(text, CodeFrom(text, 0, 0)) && lines == Filed(text, CodeFrom(text, 0, 0))
  {
    var lexer := new Lexer(text);
    lines := lexer.Run();
  }

  lemma Reassociate(a: seq<Token>, b: seq<Token>, c: seq<Token>, d: seq<Token>)
    ensures a + b + c + d == a + (b + c + d)
  {
  }

  lemma AtFits(text: string, p: nat, word: string)
    requires At(text, p, word)
    ensures p + |word| <= |text|
  {
  }

  lemma CodeUnfolds(text: string, start: nat, p: nat)
    requires start <= p < |text|
    ensures CodeFrom(text, start, p) ==
            if At(text, p, "//") then
              Tok(Code, start, p) + Tok(Comment, p, LineEnd(text, p)) + CodeFrom(text, LineEnd(text, p), LineEnd(text, p))
            else if At(text, p, "/*") then
              AtFits(text, p, "/*");
              Tok(Code, start, p) + CommentFrom(text, p, p + 2, 1)
            else if RawOpening(text, p).Opening? then
              var o := RawOpening(text, p);
              Tok(Code, start, o.content) + StringFrom(text, o.content, o.content, o.hashes)
            else if text[p] == '\"' then
              Tok(Code, start, p + 1) + StringFrom(text, p + 1, p + 1, "")
            else if CharLiteralAt(text, p) then
              Tok(Code, start, p + 1) + Tok(String, p + 1, p + 2) + Tok(Dropped, p + 2, p + 3)
              + CodeFrom(text, p + 3, p + 3)
            else CodeFrom(text, start, p + 1)
  {
    hide LineEnd, RawOpening, CommentFrom, StringFrom, At, Tok;
  }

  lemma CommentEndUnfolds(text: string, p: nat, depth: nat)
    requires p < |text| && depth >= 1
    ensures CommentEnd(text, p, depth) ==
            if At(text, p, "/*") then
              AtFits(text, p, "/*");
              CommentEnd(text, p + 2, depth + 1)
            else if At(text, p, "*/") then
              AtFits(text, p, "*/");
              if depth == 1 then p + 2 else CommentEnd(text, p + 2, depth - 1)
            else CommentEnd(text, p + 1, depth)
  {
    hide At;
  }

  lemma StringEndUnfolds(text: string, p: nat)
    requires p < |text|
    ensures StringEnd(text, p) ==
            if text[p] == '\\' then StringEnd(text, if p + 2 < |text| then p + 2 else |text|)
            else if text[p] == '\"' || text[p] == '\n' then p
            else StringEnd(text, p + 1)
  {
  }

  lemma CodeAtEnd(text: string)
    ensures CodeFrom(text, |text|, |text|) == []
  {
  }

  /** At the end of the text only the open span is left. */
  lemma RestAtEnd(text: string, kind: Kind, start: nat, depth: nat, hashes: string)
    requires start <= |text| && kind != Dropped && (kind == Comment ==> start < |text|)
    ensures Rest(text, kind, start, |text|, depth, hashes) == Tok(kind, start, |text|)
  {
    CodeAtEnd(text);
  }
}
