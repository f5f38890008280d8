/**
 ASCII text helpers shared by the header parsers: case folding, trimming,
 splitting on a separator and the byte order of ASCII names.
 */
module Text {

  /** Optional whitespace, section 5.6.3 of RFC 9110. */
  const OWS: set<char> := {' ', '\t'}

  function LowerChar(c: char): char {
    if 'A' <= c <= 'Z' then c + 32 as char else c
  }

  function Lower(s: string): (r: string)
    ensures |r| == |s|
  {
    seq(|s|, i requires 0 <= i < |s| => LowerChar(s[i]))
  }

  /** `eq_ignore_ascii_case`. */
  predicate SameName(a: string, b: string) {
    Lower(a) == Lower(b)
  }

  /** `s` is `word`, which is in lower case, in any mixture of cases. */
  predicate Spells(s: string, word: string) {
    && |s| == |word|
    && forall k :: 0 <= k < |s| ==>
         s[k] == word[k] || ('A' <= s[k] <= 'Z' && s[k] as int + 32 == word[k] as int)
  }

  predicate IsLowerCase(word: string) {
    forall k :: 0 <= k < |word| ==> !('A' <= word[k] <= 'Z')
  }

  lemma SpellsMeansSameName(s: string, word: string)
    requires IsLowerCase(word)
    ensures SameName(s, word) <==> Spells(s, word)
  {
    if SameName(s, word) {
      forall k | 0 <= k < |s|
        ensures s[k] == word[k] || ('A' <= s[k] <= 'Z' && s[k] as int + 32 == word[k] as int)
      {
        assert Lower(s)[k] == Lower(word)[k];
      }
    }
    if Spells(s, word) {
      assert forall k :: 0 <= k < |s| ==> Lower(s)[k] == Lower(word)[k];
    }
  }

  lemma LowerIsSpelled(s: string, word: string)
    ensures Lower(s) == word <==> IsLowerCase(word) && Spells(s, word)
  {
    if Lower(s) == word {
      assert forall k :: 0 <= k < |s| ==> word[k] == LowerChar(s[k]);
    }
    if IsLowerCase(word) && Spells(s, word) {
      assert forall k :: 0 <= k < |s| ==> Lower(s)[k] == word[k];
    }
  }

  function TrimLeft(s: string, drop: set<char>): (r: string)
    ensures |r| <= |s| && r == s[|s| - |r|..]
    ensures r != [] ==> r[0] !in drop
    ensures forall i :: 0 <= i < |s| - |r| ==> s[i] in drop
  {
    if s != [] && s[0] in drop then TrimLeft(s[1..], drop) else s
  }

  function TrimRight(s: string, drop: set<char>): (r: string)
    ensures |r| <= |s| && r == s[..|r|]
    ensures r != [] ==> r[|r| - 1] !in drop
    ensures forall i :: |r| <= i < |s| ==> s[i] in drop
  {
    if s != [] && s[|s| - 1] in drop then TrimRight(s[..|s| - 1], drop) else s
  }

  function Trim(s: string, drop: set<char>): (r: string)
    ensures |r| <= |s|
    ensures r != [] ==> r[0] !in drop && r[|r| - 1] !in drop
  {
    TrimRight(TrimLeft(s, drop), drop)
  }

  lemma TrimLeftStep(s: string, drop: set<char>)
    ensures TrimLeft(s, drop) == if s != [] && s[0] in drop then TrimLeft(s[1..], drop) else s
  {
  }

  lemma TrimRightStep(s: string, drop: set<char>)
    ensures TrimRight(s, drop) == if s != [] && s[|s| - 1] in drop then TrimRight(s[..|s| - 1], drop) else s
  {
  }

  lemma {:induction false} TrimLeftAppend(s: string, c: char, drop: set<char>)
    ensures TrimLeft(s, drop) != [] ==> TrimLeft(s + [c], drop) == TrimLeft(s, drop) + [c]
    ensures TrimLeft(s, drop) == [] ==> TrimLeft(s + [c], drop) == if c in drop then [] else [c]
    decreases |s|
  {
    hide TrimLeft;
    TrimLeftStep(s, drop);
    TrimLeftStep(s + [c], drop);
    if s == [] {
      assert s + [c] == [c] && [c][1..] == [];
      TrimLeftStep([], drop);
    } else if s[0] in drop {
      TrimLeftAppend(s[1..], c, drop);
      assert (s + [c])[1..] == s[1..] + [c];
    }
  }

  /** A dropped character at either end does not change the trimmed text. */
  lemma TrimEnds(s: string, c: char, drop: set<char>)
    requires c in drop
    ensures Trim(s + [c], drop) == Trim(s, drop)
    ensures Trim([c] + s, drop) == Trim(s, drop)
    ensures TrimLeft([c] + s, drop) == TrimLeft(s, drop)
  {
    hide TrimLeft, TrimRight;
    TrimLeftAppend(s, c, drop);
    var t := TrimLeft(s, drop);
    TrimRightStep(t + [c], drop);
    assert (t + [c])[..|t|] == t;
    TrimLeftStep([c] + s, drop);
    assert ([c] + s)[1..] == s;
  }

  lemma TrimTwice(s: string, drop: set<char>)
    ensures Trim(Trim(s, drop), drop) == Trim(s, drop)
  {
    hide TrimLeft, TrimRight;
    var t := Trim(s, drop);
    TrimLeftStep(t, drop);
    TrimRightStep(t, drop);
  }

  lemma HeadTail<T>(s: seq<T>)
    requires s != []
    ensures [s[0]] + s[1..] == s
  {
  }

  lemma InitLast<T>(s: seq<T>)
    requires s != []
    ensures s[..|s| - 1] + [s[|s| - 1]] == s
  {
  }

  lemma InitConcat<T>(a: seq<T>, b: seq<T>)
    requires b != []
    ensures (a + b)[..|a + b| - 1] == a + b[..|b| - 1]
  {
  }

  lemma TakeNext<T>(s: seq<T>, i: nat)
    requires i < |s|
    ensures s[..i + 1] == s[..i] + [s[i]]
  {
  }

  lemma CutAt<T>(s: seq<T>, i: nat)
    requires i < |s|
    ensures s[..i] + [s[i]] + s[i + 1..] == s
  {
  }

  /** `parts` with `c` appended to its last part. */
  function Extend(parts: seq<string>, c: char): (r: seq<string>)
    requires parts != []
    ensures |r| == |parts|
  {
    parts[..|parts| - 1] + [parts[|parts| - 1] + [c]]
  }

  lemma ExtendConcat(l: seq<string>, r: seq<string>, c: char)
    requires r != []
    ensures Extend(l + r, c) == l + Extend(r, c)
  {
    assert (l + r)[..|l + r| - 1] == l + r[..|r| - 1];
  }

  /** Text between separators; `n` separators give `n + 1` parts. */
  function Split(s: string, sep: char): (parts: seq<string>)
    ensures |parts| >= 1
  {
    if s == [] then [""]
    else
      var init, c := s[..|s| - 1], s[|s| - 1];
      if c == sep then Split(init, sep) + [""] else Extend(Split(init, sep), c)
  }

  lemma SplitSnoc(s: string, c: char, sep: char)
    ensures Split(s + [c], sep) == if c == sep then Split(s, sep) + [""] else Extend(Split(s, sep), c)
  {
    assert (s + [c])[..|s|] == s;
  }

  /** A text without the separator is its only part. */
  lemma {:induction false} SplitPlain(s: string, sep: char)
    requires sep !in s
    ensures Split(s, sep) == [s]
    decreases |s|
  {
    hide Split;
    if s == "" {
      SplitEmpty(sep);
    } else {
      SplitPlain(s[..|s| - 1], sep);
      SplitSnoc(s[..|s| - 1], s[|s| - 1], sep);
      InitLast(s);
    }
  }

  /** Splitting a separator-joined text splits its two halves. */
  lemma {:induction false} SplitJoined(a: string, sep: char, b: string)
    ensures Split(a + [sep] + b, sep) == Split(a, sep) + Split(b, sep)
    decreases |b|
  {
    hide Split;
    if b == [] {
      SplitSnoc(a, sep, sep);
      SplitEmpty(sep);
      assert a + [sep] + b == a + [sep];
    } else {
      var init, c := b[..|b| - 1], b[|b| - 1];
      InitLast(b);
      SplitJoined(a, sep, init);
      SplitSnoc(a + [sep] + init, c, sep);
      SplitSnoc(init, c, sep);
      assert a + [sep] + init + [c] == a + [sep] + b;
      ExtendConcat(Split(a, sep), Split(init, sep), c);
      assert Split(a, sep) + Split(init, sep) + [""] == Split(a, sep) + (Split(init, sep) + [""]);
    }
  }

  lemma SplitEmpty(sep: char)
    ensures Split([], sep) == [""]
  {
  }

  /** Byte order of ASCII names, strict. */
  predicate Before(a: string, b: string) {
    if b == [] then false
    else if a == [] then true
    else if a[0] != b[0] then a[0] < b[0]
    else Before(a[1..], b[1..])
  }

  lemma {:induction false} BeforeTotal(a: string, b: string)
    ensures a == b || Before(a, b) || Before(b, a)
    ensures !(Before(a, b) && Before(b, a))
    ensures !Before(a, a)
  {
    if a != [] {
      BeforeTotal(a[1..], if b != [] then b[1..] else b);
      if b != [] && a[0] == b[0] && a[1..] == b[1..] {
        assert a == [a[0]] + a[1..] == b;
      }
    }
  }

  lemma {:induction false} BeforeTransitive(a: string, b: string, c: string)
    requires Before(a, b) && Before(b, c)
    ensures Before(a, c)
  {
    if a != [] && a[0] == b[0] == c[0] {
      BeforeTransitive(a[1..], b[1..], c[1..]);
    }
  }

  // ---- Order ----------------------------------------------------------------------------------------

  /** `kept` is what stands in `all` at these positions, in this order. */
  ghost predicate StandsAt<T>(all: seq<T>, kept: seq<T>, at: seq<nat>) {
    && |at| == |kept|
    && (forall i :: 0 <= i < |at| ==> at[i] < |all| && all[at[i]] == kept[i])
    && (forall i, j :: 0 <= i < j < |at| ==> at[i] < at[j])
  }

  lemma StandsAtSnoc<T>(all: seq<T>, kept: seq<T>, at: seq<nat>, x: T)
    requires StandsAt(all, kept, at)
    ensures StandsAt(all + [x], kept + [x], at + [|all|])
  {
    var more := at + [|all|];
    assert more[|at|] == |all| && forall i :: 0 <= i < |at| ==> more[i] == at[i];
  }

  lemma StandsAtStill<T>(all: seq<T>, kept: seq<T>, at: seq<nat>, x: T)
    requires StandsAt(all, kept, at)
    ensures StandsAt(all + [x], kept, at)
  {
  }
}
