/**
 What the cache's decisions about header lines mean, in terms of the characters that
 stand in them: where the members of a list begin and end, what a directive is named,
 and which number its value writes.
 */
module CacheMeaning {
  import opened Text
  import opened HttpTypes
  import opened HeaderLists
  import opened CacheControl

  // ---- Characters ---------------------------------------------------------------------------------

  /** Blanks in directives are Unicode's `White_Space`; blanks in lists of field names are spaces and tabs. */
  lemma BlankCharacters(c: char)
    ensures c in WHITE_SPACE <==>
            || 0x9 <= c as int <= 0xD || c as int in {0x20, 0x85, 0xA0, 0x1680}
            || 0x2000 <= c as int <= 0x200A || c as int in {0x2028, 0x2029, 0x202F, 0x205F, 0x3000}
    ensures c in OWS <==> c as int in {0x9, 0x20}
  {
  }

  predicate Only(s: string, drop: set<char>) {
    forall k :: 0 <= k < |s| ==> s[k] in drop
  }

  predicate IsTight(s: string, drop: set<char>) {
    s != "" ==> s[0] !in drop && s[|s| - 1] !in drop
  }

  /** What trimming leaves stands between text that was dropped. */
  lemma TrimShape(s: string, drop: set<char>) returns (a: nat, b: nat)
    ensures a <= b <= |s| && Trim(s, drop) == s[a..b] && Only(s[..a], drop) && Only(s[b..], drop)
  {
    hide TrimLeft, TrimRight;
    var l := TrimLeft(s, drop);
    a := |s| - |l|;
    b := a + |Trim(s, drop)|;
    assert l == s[a..] && Trim(s, drop) == l[..b - a] == s[a..b];
    assert Only(s[..a], drop);
    forall k | 0 <= k < |s[b..]| ensures s[b..][k] in drop {
      assert s[b..][k] == l[b - a + k];
    }
  }

  /** And the other way round: whatever is tight and stands between dropped text is what trimming leaves. */
  lemma TrimIs(s: string, a: nat, b: nat, drop: set<char>)
    requires a <= b <= |s| && Only(s[..a], drop) && Only(s[b..], drop) && IsTight(s[a..b], drop)
    ensures Trim(s, drop) == s[a..b]
  {
    hide Trim, Only;
    var c, d := TrimShape(s, drop);
    DroppedAt(s, 0, a, drop);
    DroppedAt(s, b, |s|, drop);
    DroppedAt(s, 0, c, drop);
    DroppedAt(s, d, |s|, drop);
    if a < b {
      assert s[a..b][0] == s[a] && s[a..b][b - a - 1] == s[b - 1];
      assert s[a] !in drop && s[b - 1] !in drop;
      assert c <= a && b <= d;
    }
    if c < d {
      assert Trim(s, drop)[0] == s[c] && Trim(s, drop)[d - c - 1] == s[d - 1];
      assert a <= c && d <= b;
    }
  }

  lemma DroppedAt(s: string, a: nat, b: nat, drop: set<char>)
    requires a <= b <= |s|
    ensures Only(s[a..b], drop) <==> forall k :: a <= k < b ==> s[k] in drop
    ensures a == 0 ==> s[a..b] == s[..b]
    ensures b == |s| ==> s[a..b] == s[a..]
  {
    if Only(s[a..b], drop) {
      forall k | a <= k < b ensures s[k] in drop {
        assert s[a..b][k - a] == s[k];
      }
    }
  }

  lemma TrimBetween(before: string, s: string, after: string, drop: set<char>)
    requires Only(before, drop) && Only(after, drop) && IsTight(s, drop)
    ensures Trim(before + s + after, drop) == s
  {
    hide Trim, Only, IsTight;
    var all, a, b := before + s + after, |before|, |before| + |s|;
    assert all[a..b] == s && all[..a] == before && all[b..] == after;
    TrimIs(all, a, b, drop);
  }

  lemma BlankTrims(s: string, drop: set<char>)
    ensures Trim(s, drop) == "" <==> Only(s, drop)
  {
    var a, b := TrimShape(s, drop);
    if a == b {
      forall k | 0 <= k < |s| ensures s[k] in drop {
        if k < a { assert s[..a][k] == s[k]; } else { assert s[b..][k - b] == s[k]; }
      }
    } else {
      assert Trim(s, drop)[0] == s[a];
    }
  }

  // ---- List members ---------------------------------------------------------------------------------

  /** A stretch of the text between commas. */
  predicate IsSegment(text: string, a: nat, b: nat) {
    && a <= b <= |text|
    && (a == 0 || text[a - 1] == ',') && (b == |text| || text[b] == ',')
    && ',' !in text[a..b]
  }

  lemma SegmentIsPart(text: string, a: nat, b: nat)
    requires IsSegment(text, a, b)
    ensures text[a..b] in Split(text, ',')
  {
    hide Split;
    var part := text[a..b];
    SplitPlain(part, ',');
    var tail := text[a..];
    if b < |text| {
      SplitJoined(part, ',', text[b + 1..]);
      assert tail == part + [','] + text[b + 1..];
    } else {
      assert tail == part;
    }
    assert part in Split(tail, ',');
    if a > 0 {
      SplitJoined(text[..a - 1], ',', tail);
      assert text == text[..a - 1] + [','] + tail;
    } else {
      assert text == tail;
    }
  }

  lemma WholeSegments(text: string, c: nat)
    requires c <= |text| && ',' !in text[..c] && (c == |text| || text[c] == ',')
    ensures IsSegment(text, 0, c) && text[0..c] == text[..c]
  {
  }

  lemma SegmentShifts(text: string, c: nat, x: nat, y: nat)
    requires c < |text| && text[c] == ',' && IsSegment(text[c + 1..], x, y)
    ensures IsSegment(text, c + 1 + x, c + 1 + y) && text[c + 1 + x..c + 1 + y] == text[c + 1..][x..y]
  {
    assert text[c + 1..|text|] == text[c + 1..];
    SliceOfSlice(text, c + 1, |text|, x, y);
  }

  lemma {:induction false} PartIsSegment(text: string, part: string) returns (a: nat, b: nat)
    requires part in Split(text, ',')
    ensures IsSegment(text, a, b) && text[a..b] == part
    decreases |text|
  {
    hide Split, IndexOf, IsSegment;
    if ',' !in text {
      SplitPlain(text, ',');
      a, b := 0, |text|;
      WholeSegments(text, |text|);
    } else {
      var c := IndexOf(text, ',').value;
      var head, rest := text[..c], text[c + 1..];
      SplitPlain(head, ',');
      SplitJoined(head, ',', rest);
      assert text == head + [','] + rest;
      if part == head {
        a, b := 0, c;
        WholeSegments(text, c);
      } else {
        var x, y := PartIsSegment(rest, part);
        a, b := c + 1 + x, c + 1 + y;
        SegmentShifts(text, c, x, y);
      }
    }
  }

  lemma {:induction false} KeptMeaning(parts: seq<string>, drop: set<char>, item: Item)
    ensures item in Kept(parts, drop) <==>
            exists part :: part in parts && Trim(part, drop) != "" && item == Member(Trim(part, drop))
  {
    hide Trim;
    if parts != [] {
      KeptMeaning(parts[..|parts| - 1], drop, item);
      InitLast(parts);
      assert forall x :: x in parts <==> x in parts[..|parts| - 1] || x == parts[|parts| - 1];
    }
  }

  lemma {:induction false} ItemsMeaning(headers: seq<Header>, name: string, drop: set<char>, item: Item)
    ensures item in Items(headers, name, drop) <==>
            exists i :: 0 <= i < |headers| && SameName(headers[i].name, name) && item in LineItems(headers[i].value, drop)
  {
    hide SameName, LineItems;
    if headers != [] {
      var n := |headers| - 1;
      ItemsMeaning(headers[..n], name, drop, item);
      assert forall i :: 0 <= i < n ==> headers[..n][i] == headers[i];
    }
  }

  /** A non-blank member of a line of that name. */
  ghost predicate IsMember(headers: seq<Header>, name: string, drop: set<char>, i: nat, a: nat, b: nat) {
    && i < |headers| && Spells(headers[i].name, name) && headers[i].value.Utf8?
    && IsSegment(headers[i].value.text, a, b) && !Only(headers[i].value.text[a..b], drop)
  }

  function MemberText(headers: seq<Header>, i: nat, a: nat, b: nat): string {
    if i < |headers| && headers[i].value.Utf8? && a <= b <= |headers[i].value.text| then headers[i].value.text[a..b]
    else ""
  }

  /** Some line of that name is no text. */
  ghost predicate HasUndecodable(headers: seq<Header>, name: string) {
    exists i :: 0 <= i < |headers| && Spells(headers[i].name, name) && headers[i].value.NotUtf8?
  }

  lemma MembersAreItems(headers: seq<Header>, name: string, drop: set<char>, i: nat, a: nat, b: nat)
    requires IsLowerCase(name) && IsMember(headers, name, drop, i, a, b)
    ensures Member(Trim(MemberText(headers, i, a, b), drop)) in Items(headers, name, drop)
  {
    hide Split, Trim, Kept;
    var part := MemberText(headers, i, a, b);
    SpellsMeansSameName(headers[i].name, name);
    SegmentIsPart(headers[i].value.text, a, b);
    BlankTrims(part, drop);
    KeptMeaning(Split(headers[i].value.text, ','), drop, Member(Trim(part, drop)));
    ItemsMeaning(headers, name, drop, Member(Trim(part, drop)));
  }

  lemma ItemsAreMembers(headers: seq<Header>, name: string, drop: set<char>, item: Item) returns (i: nat, a: nat, b: nat)
    requires IsLowerCase(name) && item in Items(headers, name, drop) && item.Member?
    ensures IsMember(headers, name, drop, i, a, b) && item.text == Trim(MemberText(headers, i, a, b), drop)
  {
    hide Split, Trim, Kept, Items, SameName, Only;
    ItemsMeaning(headers, name, drop, item);
    i :| 0 <= i < |headers| && SameName(headers[i].name, name) && item in LineItems(headers[i].value, drop);
    SpellsMeansSameName(headers[i].name, name);
    KeptMeaning(Split(headers[i].value.text, ','), drop, item);
    var part :| part in Split(headers[i].value.text, ',') && Trim(part, drop) != "" && item == Member(Trim(part, drop));
    a, b := PartIsSegment(headers[i].value.text, part);
    BlankTrims(part, drop);
  }

  lemma UndecodableIsItem(headers: seq<Header>, name: string, drop: set<char>)
    requires IsLowerCase(name)
    ensures Undecodable in Items(headers, name, drop) <==> HasUndecodable(headers, name)
  {
    hide Split, Trim, SameName, Items;
    ItemsMeaning(headers, name, drop, Undecodable);
    forall i | 0 <= i < |headers|
      ensures SameName(headers[i].name, name) <==> Spells(headers[i].name, name)
      ensures Undecodable in LineItems(headers[i].value, drop) <==> headers[i].value.NotUtf8?
    {
      SpellsMeansSameName(headers[i].name, name);
      if headers[i].value.Utf8? {
        KeptMeaning(Split(headers[i].value.text, ','), drop, Undecodable);
      }
    }
  }

  // ---- Directives -----------------------------------------------------------------------------------

  /** From `i` to `j` the name `word` stands, between blanks, up to a `=` at `k` or the end. */
  ghost predicate NamesAt(part: string, word: string, i: nat, j: nat, k: nat) {
    && i <= j <= k <= |part|
    && Only(part[..i], WHITE_SPACE) && Spells(part[i..j], word) && Only(part[j..k], WHITE_SPACE)
    && (k == |part| || part[k] == '=')
  }

  ghost predicate Names(part: string, word: string) {
    exists i: nat, j: nat, k: nat :: NamesAt(part, word, i, j, k)
  }

  /** A word of lower-case letters and dashes. */
  predicate IsWord(word: string) {
    word != "" && forall k :: 0 <= k < |word| ==> 'a' <= word[k] <= 'z' || word[k] == '-'
  }

  lemma SpelledText(s: string, word: string)
    requires Spells(s, word) && IsWord(word)
    ensures s != "" && '=' !in s && IsTight(s, WHITE_SPACE)
  {
    forall k | 0 <= k < |s| ensures s[k] != '=' && s[k] !in WHITE_SPACE {
      LettersAreNoBlanks(s[k]);
    }
  }

  lemma LettersAreNoBlanks(c: char)
    requires 'a' <= c <= 'z' || 'A' <= c <= 'Z' || c == '-' || c == '=' || c == '\"' || c == '+' || '0' <= c <= '9'
    ensures c !in WHITE_SPACE
  {
  }

  /** The name that a trimmed directive is compared by. */
  function NameIn(directive: string): string {
    var eq := IndexOf(directive, '=');
    if eq.Some? then Trim(directive[..eq.value], WHITE_SPACE) else directive
  }

  lemma FirstSignAt(s: string, q: nat)
    requires q < |s| && s[q] == '=' && '=' !in s[..q]
    ensures IndexOf(s, '=') == Some(q)
  {
    hide IndexOf;
    var i := IndexOf(s, '=');
    assert i.Some? && forall k :: 0 <= k < i.value ==> s[k] == s[..i.value][k] != '=';
    assert forall k :: 0 <= k < q ==> s[k] == s[..q][k] != '=';
  }

  /** The name of a member, in its text, is what the trimmed member is compared by. */
  lemma NamedIsCompared(part: string, word: string, i: nat, j: nat, k: nat)
    requires IsWord(word) && NamesAt(part, word, i, j, k)
    ensures NameIn(Trim(part, WHITE_SPACE)) == part[i..j]
    ensures k < |part| ==>
              var d := Trim(part, WHITE_SPACE);
              IndexOf(d, '=').Some? && k == i + IndexOf(d, '=').value
    ensures !Only(part, WHITE_SPACE)
  {
    hide Trim, IndexOf;
    SpelledText(part[i..j], word);
    assert part[i] == part[i..j][0] && part[i] !in WHITE_SPACE;
    if k == |part| {
      TrimIs(part, i, j, WHITE_SPACE);
    } else {
      var c, e := TrimShape(part, WHITE_SPACE);
      DroppedAt(part, 0, c, WHITE_SPACE);
      DroppedAt(part, e, |part|, WHITE_SPACE);
      DroppedAt(part, 0, i, WHITE_SPACE);
      DroppedAt(part, j, k, WHITE_SPACE);
      LettersAreNoBlanks('=');
      assert c <= i && k < e;
      var d := Trim(part, WHITE_SPACE);
      assert d[0] == part[c];
      assert c == i;
      assert d[k - i] == '=';
      forall x | 0 <= x < k - i ensures d[x] != '=' {
        if x < j - i { assert d[x] == part[i..j][x]; } else { assert d[x] == part[i + x]; }
      }
      FirstSignAt(d, k - i);
      var head := d[..k - i];
      assert head == part[i..k] && head[..0] == [] && head[0..j - i] == part[i..j] && head[j - i..] == part[j..k];
      TrimIs(head, 0, j - i, WHITE_SPACE);
    }
  }

  lemma ComparedIsNamed(part: string, word: string)
    requires !Only(part, WHITE_SPACE) && Spells(NameIn(Trim(part, WHITE_SPACE)), word)
    ensures Names(part, word)
  {
    hide Trim, IndexOf, Only, Spells, Names;
    var c, e := TrimShape(part, WHITE_SPACE);
    var d := Trim(part, WHITE_SPACE);
    var eq := IndexOf(d, '=');
    if eq.None? {
      NameAlone(part, word, c, e);
    } else {
      assert part[c + eq.value] == d[eq.value];
      SliceOfSlice(part, c, e, 0, eq.value);
      NameBeforeSign(part, word, c, c + eq.value);
    }
  }

  lemma NameAlone(part: string, word: string, i: nat, j: nat)
    requires i <= j <= |part| && Only(part[..i], WHITE_SPACE) && Only(part[j..], WHITE_SPACE)
    requires Spells(part[i..j], word)
    ensures Names(part, word)
  {
    hide Only, Spells;
    assert part[j..|part|] == part[j..];
    assert NamesAt(part, word, i, j, |part|);
  }

  lemma NameBeforeSign(part: string, word: string, c: nat, k: nat)
    requires c <= k < |part| && part[k] == '=' && Only(part[..c], WHITE_SPACE)
    requires Spells(Trim(part[c..k], WHITE_SPACE), word)
    ensures Names(part, word)
  {
    hide Trim, Only, Spells;
    var x, y := TrimShape(part[c..k], WHITE_SPACE);
    SliceOfSlice(part, c, k, 0, x);
    SliceOfSlice(part, c, k, x, y);
    SliceOfSlice(part, c, k, y, k - c);
    OnlyConcat(part[..c], part[c..c + x], WHITE_SPACE);
    assert part[..c] + part[c..c + x] == part[..c + x];
    assert NamesAt(part, word, c + x, c + y, k);
  }

  lemma OnlyConcat(s: string, t: string, drop: set<char>)
    requires Only(s, drop) && Only(t, drop)
    ensures Only(s + t, drop)
  {
  }

  lemma WordsAreLowerCase(word: string)
    requires IsWord(word)
    ensures IsLowerCase(word)
  {
  }

  lemma NamesMeansCompared(part: string, word: string)
    requires IsWord(word) && !Only(part, WHITE_SPACE)
    ensures Names(part, word) <==> SameName(NameIn(Trim(part, WHITE_SPACE)), word)
  {
    hide Trim, IndexOf, NameIn, SameName, NamesAt;
    WordsAreLowerCase(word);
    SpellsMeansSameName(NameIn(Trim(part, WHITE_SPACE)), word);
    if Names(part, word) {
      var i: nat, j: nat, k: nat :| NamesAt(part, word, i, j, k);
      NamedIsCompared(part, word, i, j, k);
      NamedSpells(part, word, i, j, k);
    }
    if Spells(NameIn(Trim(part, WHITE_SPACE)), word) {
      ComparedIsNamed(part, word);
    }
  }

  lemma NamedSpells(part: string, word: string, i: nat, j: nat, k: nat)
    requires NamesAt(part, word, i, j, k)
    ensures i <= j <= |part| && Spells(part[i..j], word)
  {
  }

  // ---- Values -----------------------------------------------------------------------------------------

  const DIGITS: string := "0123456789"

  /** Digits are read from left to right, in base ten. */
  lemma DigitsMeaning(s: string, k: nat)
    requires k < 10 && (s == "" || IsDigits(s))
    ensures IsDigits(s + [DIGITS[k]]) && DigitsValue("") == 0
    ensures DigitsValue(s + [DIGITS[k]]) == 10 * DigitsValue(s) + k
  {
    var t := s + [DIGITS[k]];
    assert DIGITS[k] as int == '0' as int + k;
    assert t[..|t| - 1] == s && t[|t| - 1] == DIGITS[k];
  }

  lemma OnlyDigitsAreDigits(s: string)
    ensures IsDigits(s) <==> s != "" && forall i :: 0 <= i < |s| ==> s[i] in DIGITS
  {
    forall c: char ensures '0' <= c <= '9' <==> c in DIGITS {
      if '0' <= c <= '9' { assert DIGITS[c as int - '0' as int] == c; }
    }
  }

  /** Decimal digits, with or without a plus sign. */
  ghost predicate IsNumber(s: string, n: nat) {
    exists digits :: (s == digits || s == ['+'] + digits) && IsDigits(digits) && DigitsValue(digits) == n
  }

  /** The text writes this number, perhaps in quotes, between blanks. */
  ghost predicate WritesAt(value: string, n: nat, p: nat, a: nat, b: nat, q: nat) {
    && p <= a <= b <= q <= |value|
    && Only(value[..p], WHITE_SPACE) && Only(value[p..a], {'\"'})
    && IsNumber(value[a..b], n)
    && Only(value[b..q], {'\"'}) && Only(value[q..], WHITE_SPACE)
  }

  ghost predicate Writes(value: string, n: nat) {
    exists p: nat, a: nat, b: nat, q: nat :: WritesAt(value, n, p, a, b, q)
  }

  /** After the first `=` of the member its value writes this number, which fits 64 bits. */
  ghost predicate HasValue(part: string, n: nat) {
    n <= U64_MAX && exists k: nat :: k < |part| && part[k] == '=' && '=' !in part[..k] && Writes(part[k + 1..], n)
  }

  lemma NumberParses(s: string, n: nat)
    requires n <= U64_MAX
    ensures IsNumber(s, n) <==> ParseU64(s) == Some(n)
  {
    hide DigitsValue;
    if IsNumber(s, n) {
      var digits :| (s == digits || s == ['+'] + digits) && IsDigits(digits) && DigitsValue(digits) == n;
      if s == ['+'] + digits { assert s[1..] == digits; }
    }
    if ParseU64(s) == Some(n) {
      var digits := if s != [] && s[0] == '+' then s[1..] else s;
      assert s == digits || s == ['+'] + digits;
    }
  }

  lemma NumberText(s: string, n: nat)
    requires IsNumber(s, n)
    ensures s != "" && IsTight(s, WHITE_SPACE) && IsTight(s, {'\"'})
  {
    hide DigitsValue;
    var digits :| (s == digits || s == ['+'] + digits) && IsDigits(digits) && DigitsValue(digits) == n;
    assert s[|s| - 1] == digits[|digits| - 1];
    LettersAreNoBlanks(s[0]);
    LettersAreNoBlanks(s[|s| - 1]);
  }

  /** What the value's text writes is what is left of it once blanks and quotes are trimmed. */
  lemma WritesMeansParses(value: string, n: nat)
    requires n <= U64_MAX
    ensures Writes(value, n) <==> ParseU64(Trim(Trim(value, WHITE_SPACE), {'\"'})) == Some(n)
  {
    hide Trim, ParseU64, IsNumber, WritesAt;
    NumberParses(Trim(Trim(value, WHITE_SPACE), {'\"'}), n);
    if IsNumber(Trim(Trim(value, WHITE_SPACE), {'\"'}), n) {
      TrimmedNumberWrites(value, n);
    }
    if Writes(value, n) {
      var p: nat, a: nat, b: nat, q: nat :| WritesAt(value, n, p, a, b, q);
      WrittenNumberIsTrimmed(value, n, p, a, b, q);
    }
  }

  lemma TrimmedNumberWrites(value: string, n: nat)
    requires IsNumber(Trim(Trim(value, WHITE_SPACE), {'\"'}), n)
    ensures Writes(value, n)
  {
    hide Trim, IsNumber, Only;
    var x, y := TrimShape(value, WHITE_SPACE);
    var inner := Trim(value, WHITE_SPACE);
    var u, v := TrimShape(inner, {'\"'});
    SliceOfSlice(value, x, y, 0, u);
    SliceOfSlice(value, x, y, u, v);
    SliceOfSlice(value, x, y, v, y - x);
    assert WritesAt(value, n, x, x + u, x + v, y);
  }

  lemma WrittenNumberIsTrimmed(value: string, n: nat, p: nat, a: nat, b: nat, q: nat)
    requires WritesAt(value, n, p, a, b, q)
    ensures IsNumber(Trim(Trim(value, WHITE_SPACE), {'\"'}), n)
  {
    hide Trim, IsNumber, Only, IsTight;
    NumberText(value[a..b], n);
    QuotedIsTight(value, p, a, b, q);
    TrimIs(value, p, q, WHITE_SPACE);
    var inner := value[p..q];
    SliceOfSlice(value, p, q, 0, a - p);
    SliceOfSlice(value, p, q, a - p, b - p);
    SliceOfSlice(value, p, q, b - p, q - p);
    TrimIs(inner, a - p, b - p, {'\"'});
  }

  lemma SliceOfSlice(s: string, p: nat, q: nat, a: nat, b: nat)
    requires p <= q <= |s| && a <= b <= q - p
    ensures s[p..q][a..b] == s[p + a..p + b]
    ensures a == 0 ==> s[p..q][..b] == s[p..p + b]
    ensures b == q - p ==> s[p..q][a..] == s[p + a..q]
  {
    var t := s[p..q];
    assert forall k :: 0 <= k < b - a ==> t[a..b][k] == t[a + k] == s[p + a + k];
    assert t[..b] == t[0..b] && t[a..] == t[a..|t|];
  }

  lemma QuotedIsTight(value: string, p: nat, a: nat, b: nat, q: nat)
    requires p <= a < b <= q <= |value| && Only(value[p..a], {'\"'}) && Only(value[b..q], {'\"'})
    requires IsTight(value[a..b], WHITE_SPACE)
    ensures IsTight(value[p..q], WHITE_SPACE)
  {
    LettersAreNoBlanks('\"');
    DroppedAt(value, p, a, {'\"'});
    DroppedAt(value, b, q, {'\"'});
    assert value[a..b][0] == value[a] && value[a..b][b - a - 1] == value[b - 1];
    assert value[p..q][0] == value[p] && value[p..q][q - p - 1] == value[q - 1];
  }

  lemma TrimTail(s: string, t: string, drop: set<char>)
    requires Only(t, drop)
    ensures Trim(s + t, drop) == Trim(s, drop)
  {
    hide Trim;
    var x, y := TrimShape(s, drop);
    assert (s + t)[x..y] == s[x..y] && (s + t)[..x] == s[..x] && (s + t)[y..] == s[y..] + t;
    TrimIsTight(s, drop);
    TrimIs(s + t, x, y, drop);
  }

  lemma TrimIsTight(s: string, drop: set<char>)
    ensures IsTight(Trim(s, drop), drop)
  {
  }

  /** The text after the first `=`, once trimmed, is the same in the member and in the trimmed member. */
  lemma ValueOfTrimmed(part: string, k: nat)
    requires k < |part| && part[k] == '=' && '=' !in part[..k]
    ensures
      var d := Trim(part, WHITE_SPACE);
      && IndexOf(d, '=').Some?
      && Trim(d[IndexOf(d, '=').value + 1..], WHITE_SPACE) == Trim(part[k + 1..], WHITE_SPACE)
  {
    hide Trim, IndexOf, Only;
    var c, e := TrimShape(part, WHITE_SPACE);
    var d := Trim(part, WHITE_SPACE);
    LettersAreNoBlanks('=');
    DroppedAt(part, 0, c, WHITE_SPACE);
    DroppedAt(part, e, |part|, WHITE_SPACE);
    assert c <= k < e;
    assert d[k - c] == '=';
    assert forall x :: 0 <= x < k - c ==> d[x] == part[..k][c + x];
    FirstSignAt(d, k - c);
    SliceOfSlice(part, c, e, k - c + 1, e - c);
    assert part[k + 1..] == part[k + 1..e] + part[e..];
    TrimTail(part[k + 1..e], part[e..], WHITE_SPACE);
  }

  lemma TrimmedHasSign(part: string)
    requires IndexOf(Trim(part, WHITE_SPACE), '=').Some?
    ensures exists k: nat :: k < |part| && part[k] == '=' && '=' !in part[..k]
  {
    hide Trim, IndexOf;
    var c, e := TrimShape(part, WHITE_SPACE);
    var d := Trim(part, WHITE_SPACE);
    var q := IndexOf(d, '=').value;
    assert part[c + q] == d[q] == '=';
    var k := IndexOf(part, '=');
    assert k.Some?;
  }

  lemma HasValueMeansParses(part: string, n: nat)
    ensures
      var d := Trim(part, WHITE_SPACE);
      var eq := IndexOf(d, '=');
      HasValue(part, n) <==>
      eq.Some? && ParseU64(Trim(Trim(d[eq.value + 1..], WHITE_SPACE), {'\"'})) == Some(n)
  {
    hide Trim, IndexOf, Writes, ParseU64;
    var d := Trim(part, WHITE_SPACE);
    if eq: nat :| eq < |part| && part[eq] == '=' && '=' !in part[..eq] {
      ValueOfTrimmed(part, eq);
      if n <= U64_MAX { WritesMeansParses(part[eq + 1..], n); }
      ParsesAreSmall(Trim(Trim(part[eq + 1..], WHITE_SPACE), {'\"'}));
      forall k: nat | k < |part| && part[k] == '=' && '=' !in part[..k] ensures k == eq {
        OneFirstSign(part, k, eq);
      }
    } else {
      if IndexOf(d, '=').Some? { TrimmedHasSign(part); }
    }
  }

  lemma OneFirstSign(part: string, k: nat, l: nat)
    requires k < |part| && part[k] == '=' && '=' !in part[..k]
    requires l < |part| && part[l] == '=' && '=' !in part[..l]
    ensures k == l
  {
    hide IndexOf;
    FirstSignAt(part, k);
    FirstSignAt(part, l);
  }

  lemma ParsesAreSmall(s: string)
    ensures ParseU64(s).Some? ==> ParseU64(s).value <= U64_MAX
  {
    hide DigitsValue;
  }

  // ---- What grants a lifetime ---------------------------------------------------------------------------

  /** The member names one of the directives that forbid storage. */
  ghost predicate Forbids(part: string) {
    Names(part, "no-store") || Names(part, "private") || Names(part, "no-cache")
  }

  /** The member neither forbids storage nor asks for anything but this lifetime. */
  ghost predicate Allows(part: string, n: nat) {
    !Forbids(part) && (Names(part, "max-age") ==> HasValue(part, n))
  }

  ghost predicate AsksFor(part: string, n: nat) {
    Names(part, "max-age") && HasValue(part, n)
  }

  const CONTROL: string := "cache-control"

  /**
   The `Cache-Control` lines grant exactly this lifetime: all of them are text, every
   member allows it, and some member asks for it.
   */
  ghost predicate GrantsLifetime(headers: seq<Header>, n: nat) {
    && n > 0 && !HasUndecodable(headers, CONTROL)
    && (forall i: nat, a: nat, b: nat :: IsMember(headers, CONTROL, WHITE_SPACE, i, a, b) ==>
          Allows(MemberText(headers, i, a, b), n))
    && (exists i: nat, a: nat, b: nat ::
          IsMember(headers, CONTROL, WHITE_SPACE, i, a, b) && AsksFor(MemberText(headers, i, a, b), n))
  }

  lemma FourWords()
    ensures IsWord("no-store") && IsWord("private") && IsWord("no-cache") && IsWord("max-age")
    ensures forall s :: SameName(s, "max-age") ==>
              !SameName(s, "no-store") && !SameName(s, "private") && !SameName(s, "no-cache")
  {
    assert Lower("max-age")[0] == 'm' && Lower("no-store")[0] == 'n' && Lower("private")[0] == 'p'
        && Lower("no-cache")[0] == 'n';
  }

  /** What a member is taken for. */
  lemma VerdictMeaning(part: string, n: nat)
    requires !Only(part, WHITE_SPACE)
    ensures DirectiveVerdict(Trim(part, WHITE_SPACE)) in {Ignored, CacheControl.MaxAge(n)} <==> Allows(part, n)
    ensures DirectiveVerdict(Trim(part, WHITE_SPACE)) == CacheControl.MaxAge(n) <==> Allows(part, n) && AsksFor(part, n)
  {
    hide Trim, IndexOf, Names, HasValue, SameName, ParseU64, Only;
    FourWords();
    NamesMeansCompared(part, "no-store");
    NamesMeansCompared(part, "private");
    NamesMeansCompared(part, "no-cache");
    NamesMeansCompared(part, "max-age");
    HasValueMeansParses(part, n);
  }

  lemma ControlIsLowerCase()
    ensures IsLowerCase(CONTROL)
  {
  }

  lemma AllAllowMeaning(headers: seq<Header>, n: nat)
    ensures AllAllow(ControlItems(headers), n) <==>
            && !HasUndecodable(headers, CONTROL)
            && forall i: nat, a: nat, b: nat :: IsMember(headers, CONTROL, WHITE_SPACE, i, a, b) ==>
                 Allows(MemberText(headers, i, a, b), n)
  {
    hide Items, DirectiveVerdict, IsMember, Allows, HasUndecodable, Trim;
    var items := ControlItems(headers);
    ControlIsLowerCase();
    UndecodableIsItem(headers, CONTROL, WHITE_SPACE);
    if AllAllow(items, n) {
      assert Undecodable !in items;
      forall i: nat, a: nat, b: nat | IsMember(headers, CONTROL, WHITE_SPACE, i, a, b)
        ensures Allows(MemberText(headers, i, a, b), n)
      {
        MembersAreItems(headers, CONTROL, WHITE_SPACE, i, a, b);
        MemberIsNotBlank(headers, i, a, b);
        VerdictMeaning(MemberText(headers, i, a, b), n);
      }
    }
    if !HasUndecodable(headers, CONTROL)
       && forall i: nat, a: nat, b: nat :: IsMember(headers, CONTROL, WHITE_SPACE, i, a, b) ==>
            Allows(MemberText(headers, i, a, b), n)
    {
      forall k | 0 <= k < |items| ensures ItemVerdict(items[k]) in {Ignored, CacheControl.MaxAge(n)} {
        assert items[k] in items && items[k].Member?;
        var i, a, b := ItemsAreMembers(headers, CONTROL, WHITE_SPACE, items[k]);
        MemberIsNotBlank(headers, i, a, b);
        VerdictMeaning(MemberText(headers, i, a, b), n);
      }
    }
  }

  lemma MemberIsNotBlank(headers: seq<Header>, i: nat, a: nat, b: nat)
    requires IsMember(headers, CONTROL, WHITE_SPACE, i, a, b)
    ensures !Only(MemberText(headers, i, a, b), WHITE_SPACE)
  {
  }

  lemma SomeAsksMeaning(headers: seq<Header>, n: nat)
    requires AllAllow(ControlItems(headers), n)
    ensures SomeAsks(ControlItems(headers), n) <==>
            exists i: nat, a: nat, b: nat ::
              IsMember(headers, CONTROL, WHITE_SPACE, i, a, b) && AsksFor(MemberText(headers, i, a, b), n)
  {
    hide Items, DirectiveVerdict, IsMember, AsksFor, HasUndecodable, Trim, Allows;
    var items := ControlItems(headers);
    ControlIsLowerCase();
    AllAllowMeaning(headers, n);
    if SomeAsks(items, n) {
      var k :| 0 <= k < |items| && ItemVerdict(items[k]) == CacheControl.MaxAge(n);
      assert items[k] in items && items[k].Member?;
      var i, a, b := ItemsAreMembers(headers, CONTROL, WHITE_SPACE, items[k]);
      MemberIsNotBlank(headers, i, a, b);
      VerdictMeaning(MemberText(headers, i, a, b), n);
    }
    if i: nat, a: nat, b: nat :|
      IsMember(headers, CONTROL, WHITE_SPACE, i, a, b) && AsksFor(MemberText(headers, i, a, b), n)
    {
      MembersAreItems(headers, CONTROL, WHITE_SPACE, i, a, b);
      MemberIsNotBlank(headers, i, a, b);
      VerdictMeaning(MemberText(headers, i, a, b), n);
      var item := Member(Trim(MemberText(headers, i, a, b), WHITE_SPACE));
      var k :| 0 <= k < |items| && items[k] == item;
    }
  }

  /** A response is given a lifetime exactly when the text of its lines grants it. */
  lemma LifetimeMeaning(headers: seq<Header>, n: nat)
    ensures CacheControlPolicy(headers) == Store(n) <==> GrantsLifetime(headers, n)
  {
    hide AllAllow, SomeAsks, CacheControlPolicy, ControlItems, IsMember, Allows, AsksFor, HasUndecodable;
    StoreMeaning(headers, n);
    AllAllowMeaning(headers, n);
    if AllAllow(ControlItems(headers), n) {
      SomeAsksMeaning(headers, n);
    }
  }

  /** A line that is no text, a member that forbids storage, or a `max-age` without a number: no lifetime at all. */
  lemma RefusalMeaning(headers: seq<Header>)
    requires
      || HasUndecodable(headers, CONTROL)
      || exists i: nat, a: nat, b: nat ::
           && IsMember(headers, CONTROL, WHITE_SPACE, i, a, b)
           && var part := MemberText(headers, i, a, b);
              Forbids(part) || (Names(part, "max-age") && forall n: nat :: !HasValue(part, n))
    ensures CacheControlPolicy(headers).Skip?
  {
    hide CacheControlPolicy, IsMember, Names, HasValue, HasUndecodable;
    var policy := CacheControlPolicy(headers);
    if policy.Store? {
      LifetimeMeaning(headers, policy.freshness);
    }
  }

  // ---- Field names in `Vary` ------------------------------------------------------------------------------

  /** What separates tokens, section 5.6.2 of RFC 9110. */
  const DELIMITERS: set<char> := {
    '\"', '(', ')', ',', '/', ':', ';', '<', '=', '>', '?', '@', '[', '\\', ']', '{', '}'
  }

  /** Visible ASCII characters other than delimiters. */
  predicate IsFieldName(s: string) {
    s != "" && forall k :: 0 <= k < |s| ==> '!' <= s[k] <= '~' && s[k] !in DELIMITERS
  }

  lemma TokensAreFieldNames(s: string)
    ensures IsHttpToken(s) <==> IsFieldName(s)
  {
    forall c: char ensures IsTokenChar(c) <==> '!' <= c <= '~' && c !in DELIMITERS {
    }
  }

  /** The member names this field: the name stands between blanks. */
  ghost predicate NamesField(part: string, field: string) {
    && field != "" && IsTight(field, OWS)
    && exists a: nat, b: nat :: a <= b <= |part| && part[a..b] == field && Only(part[..a], OWS) && Only(part[b..], OWS)
  }

  lemma NamedFieldIsTrimmed(part: string, field: string)
    requires !Only(part, OWS)
    ensures NamesField(part, field) <==> field == Trim(part, OWS)
  {
    hide Trim, Only, IsTight;
    var x, y := TrimShape(part, OWS);
    TrimIsTight(part, OWS);
    BlankTrims(part, OWS);
    if NamesField(part, field) {
      var a: nat, b: nat :| a <= b <= |part| && part[a..b] == field && Only(part[..a], OWS) && Only(part[b..], OWS);
      TrimIs(part, a, b, OWS);
    }
  }

  const VARY: string := "vary"

  /** A member of a `Vary` line names this field. */
  ghost predicate VariesOn(headers: seq<Header>, field: string) {
    exists i: nat, a: nat, b: nat ::
      IsMember(headers, VARY, OWS, i, a, b) && NamesField(MemberText(headers, i, a, b), field)
  }

  /** Every `Vary` line is text and lists field names other than `*`. */
  ghost predicate VaryIsUsable(headers: seq<Header>) {
    && !HasUndecodable(headers, VARY)
    && forall field :: VariesOn(headers, field) ==> field != "*" && IsFieldName(field)
  }

  lemma VaryIsLowerCase()
    ensures IsLowerCase(VARY)
  {
  }

  lemma VaryItemsMeaning(headers: seq<Header>, field: string)
    ensures Member(field) in VaryItems(headers) <==> VariesOn(headers, field)
  {
    hide Items, IsMember, Trim, NamesField;
    VaryIsLowerCase();
    if Member(field) in VaryItems(headers) {
      var i, a, b := ItemsAreMembers(headers, VARY, OWS, Member(field));
      VaryMemberIsNotBlank(headers, i, a, b);
      NamedFieldIsTrimmed(MemberText(headers, i, a, b), field);
    }
    if i: nat, a: nat, b: nat :|
      IsMember(headers, VARY, OWS, i, a, b) && NamesField(MemberText(headers, i, a, b), field)
    {
      VaryMemberIsNotBlank(headers, i, a, b);
      NamedFieldIsTrimmed(MemberText(headers, i, a, b), field);
      MembersAreItems(headers, VARY, OWS, i, a, b);
    }
  }

  lemma VaryMemberIsNotBlank(headers: seq<Header>, i: nat, a: nat, b: nat)
    requires IsMember(headers, VARY, OWS, i, a, b)
    ensures !Only(MemberText(headers, i, a, b), OWS)
  {
  }

  lemma UsableItems(headers: seq<Header>)
    ensures VarySelectors(headers).Some? <==> forall item :: item in VaryItems(headers) ==> !Unrepresentable(item)
  {
    hide Items, Unrepresentable, SortedNames, LowerNames;
    var items := VaryItems(headers);
    assert forall i :: 0 <= i < |items| ==> items[i] in items;
  }

  lemma UsableMeaning(headers: seq<Header>)
    ensures VarySelectors(headers).Some? <==> VaryIsUsable(headers)
  {
    hide Items, VariesOn, HasUndecodable, IsFieldName, IsHttpToken, VarySelectors;
    VaryIsLowerCase();
    UndecodableIsItem(headers, VARY, OWS);
    UsableItems(headers);
    forall field
      ensures Member(field) in VaryItems(headers) <==> VariesOn(headers, field)
      ensures IsHttpToken(field) <==> IsFieldName(field)
    {
      VaryItemsMeaning(headers, field);
      TokensAreFieldNames(field);
    }
    if VaryIsUsable(headers) {
      forall item | item in VaryItems(headers) ensures !Unrepresentable(item) {
        assert item.Member? ==> item == Member(item.text) && VariesOn(headers, item.text);
      }
    }
    if VarySelectors(headers).Some? {
      assert Undecodable !in VaryItems(headers) by {
        assert Unrepresentable(Undecodable);
      }
      forall field | VariesOn(headers, field) ensures field != "*" && IsFieldName(field) {
        assert !Unrepresentable(Member(field));
      }
    }
  }

  lemma SelectorMeaning(headers: seq<Header>, name: string)
    requires VarySelectors(headers).Some?
    ensures name in VarySelectors(headers).value <==>
            IsLowerCase(name) && exists field :: VariesOn(headers, field) && Spells(field, name)
  {
    hide Items, VariesOn, Lower, VarySelectors, IsLowerCase, Spells;
    var items := VaryItems(headers);
    VarySelectorsMeaning(headers);
    if name in VarySelectors(headers).value {
      var k :| 0 <= k < |items| && items[k].Member? && Lower(items[k].text) == name;
      assert items[k] in items && items[k] == Member(items[k].text);
      VaryItemsMeaning(headers, items[k].text);
      LowerIsSpelled(items[k].text, name);
    }
    if field :| IsLowerCase(name) && VariesOn(headers, field) && Spells(field, name) {
      VaryItemsMeaning(headers, field);
      LowerIsSpelled(field, name);
      var k :| 0 <= k < |items| && items[k] == Member(field);
    }
  }

  /** The selectors of a response: none when a `Vary` line is unusable, else the names it lists, in lower case. */
  lemma VaryMeaning(headers: seq<Header>)
    ensures VarySelectors(headers).Some? <==> VaryIsUsable(headers)
    ensures VarySelectors(headers).Some? ==>
              forall name :: name in VarySelectors(headers).value <==>
                IsLowerCase(name) && exists field :: VariesOn(headers, field) && Spells(field, name)
  {
    hide VarySelectors, VariesOn, VaryIsUsable, IsLowerCase, Spells;
    UsableMeaning(headers);
    if VarySelectors(headers).Some? {
      forall name
        ensures name in VarySelectors(headers).value <==>
                IsLowerCase(name) && exists field :: VariesOn(headers, field) && Spells(field, name)
      {
        SelectorMeaning(headers, name);
      }
    }
  }
}
