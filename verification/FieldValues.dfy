/**
 Normalisation of request field values for `Vary` matching
 (`normalize_field_value`, `request_header_value`).

 The reference reading of a field value is its list of top-level members: the
 texts between commas that lie outside quoted strings (section 5.6.1 of
 RFC 9110). The one-pass method below is proved to compute exactly "trim every
 member and join them with bare commas".
 */
module FieldValues {
  import opened Text

  /** Where a scan stands: outside quotes, inside, or just past a backslash inside. */
  datatype Mode = Plain | Quoted | Escaped

  function Advance(m: Mode, c: char): Mode {
    match m
    case Plain => if c == '"' then Quoted else Plain
    case Quoted => if c == '"' then Plain else if c == '\\' then Escaped else Quoted
    case Escaped => Quoted
  }

  function ModeAfter(s: string): Mode {
    if s == [] then Plain else Advance(ModeAfter(s[..|s| - 1]), s[|s| - 1])
  }

  /** Every quoted string of `s` is closed. */
  predicate Closed(s: string) {
    ModeAfter(s) == Plain
  }

  /** The texts between top-level commas. */
  function Members(s: string): (ms: seq<string>)
    ensures |ms| >= 1
  {
    if s == [] then [""]
    else
      var init, c := s[..|s| - 1], s[|s| - 1];
      if c == ',' && Closed(init) then Members(init) + [""] else Extend(Members(init), c)
  }

  function Join(ms: seq<string>): string {
    if ms == [] then "" else if |ms| == 1 then ms[0]
    else Join(ms[..|ms| - 1]) + [','] + ms[|ms| - 1]
  }

  function TrimEach(ms: seq<string>): (r: seq<string>)
    ensures |r| == |ms|
  {
    seq(|ms|, i requires 0 <= i < |ms| => Trim(ms[i], OWS))
  }

  /** The reference meaning of normalisation. */
  function Normalized(value: string): string {
    Join(TrimEach(Members(value)))
  }

  // ---- Unfolding the definitions ---------------------------------------------

  lemma ScanEmpty()
    ensures ModeAfter([]) == Plain && Members([]) == [""]
  {
  }

  lemma ScanSnoc(s: string, c: char)
    ensures ModeAfter(s + [c]) == Advance(ModeAfter(s), c)
    ensures Members(s + [c]) == if c == ',' && Closed(s) then Members(s) + [""] else Extend(Members(s), c)
  {
    assert (s + [c])[..|s|] == s;
  }

  /** Scanning text after a prefix, one character at a time. */
  lemma ScanStep(a: string, b: string) returns (init: string, c: char)
    requires b != []
    ensures b == init + [c] && |init| < |b| && a + b == a + init + [c]
    ensures ModeAfter(b) == Advance(ModeAfter(init), c)
    ensures ModeAfter(a + b) == Advance(ModeAfter(a + init), c)
    ensures Members(b) == if c == ',' && Closed(init) then Members(init) + [""] else Extend(Members(init), c)
    ensures
      Members(a + b) ==
      if c == ',' && Closed(a + init) then Members(a + init) + [""] else Extend(Members(a + init), c)
  {
    hide Members, ModeAfter;
    init, c := b[..|b| - 1], b[|b| - 1];
    InitLast(b);
    assert a + b == a + init + [c];
    ScanSnoc(init, c);
    ScanSnoc(a + init, c);
  }

  lemma JoinSnoc(ms: seq<string>)
    requires |ms| > 1
    ensures Join(ms) == Join(ms[..|ms| - 1]) + [','] + ms[|ms| - 1]
  {
  }

  lemma JoinOne(m: string)
    ensures Join([m]) == m
  {
  }

  // ---- Scanning facts -----------------------------------------------------------

  /** Text after closed quotes is scanned as if it stood alone. */
  lemma {:induction false} ModeConcat(a: string, b: string)
    requires Closed(a)
    ensures ModeAfter(a + b) == ModeAfter(b)
    decreases |b|
  {
    hide Members, ModeAfter;
    ScanEmpty();
    if b == [] {
      assert a + b == a;
    } else {
      var init, c := ScanStep(a, b);
      ModeConcat(a, init);
    }
  }

  /** Members of two values joined by a comma, when the first closes its quotes. */
  lemma {:induction false} JoinedScan(a: string, b: string)
    requires Closed(a)
    ensures Members(a + [','] + b) == Members(a) + Members(b)
    ensures ModeAfter(a + [','] + b) == ModeAfter(b)
    decreases |b|
  {
    hide Members, ModeAfter;
    ScanEmpty();
    ScanSnoc(a, ',');
    if b == [] {
      assert a + [','] + b == a + [','];
    } else {
      var init, c := ScanStep(a + [','], b);
      JoinedScan(a, init);
      ExtendConcat(Members(a), Members(init), c);
      assert Members(a) + Members(init) + [""] == Members(a) + (Members(init) + [""]);
    }
  }

  lemma {:induction false} MembersGrow(a: string, b: string)
    ensures |Members(a)| <= |Members(a + b)|
    decreases |b|
  {
    hide Members, ModeAfter;
    if b == [] {
      assert a + b == a;
    } else {
      var init, c := ScanStep(a, b);
      MembersGrow(a, init);
    }
  }

  /** The text is a single member: it has no top-level comma. */
  predicate Single(m: string) {
    Members(m) == [m]
  }

  /** A list of members as `Members` produces it: single, and closed but for the last. */
  ghost predicate WellSplit(ms: seq<string>) {
    && ms != []
    && (forall i :: 0 <= i < |ms| ==> Single(ms[i]))
    && (forall i :: 0 <= i < |ms| - 1 ==> Closed(ms[i]))
  }

  /** One more character keeps a member single unless it is a top-level comma. */
  lemma SingleSnoc(m: string, c: char)
    requires Single(m) && !(c == ',' && Closed(m))
    ensures Single(m + [c]) && ModeAfter(m + [c]) == Advance(ModeAfter(m), c)
  {
    hide Members, ModeAfter;
    ScanSnoc(m, c);
    assert Extend([m], c) == [m + [c]];
  }

  lemma WellSplitSnoc(ms: seq<string>, c: char)
    requires WellSplit(ms)
    ensures
      var last := ms[|ms| - 1];
      if c == ',' && Closed(last) then WellSplit(ms + [""])
      else WellSplit(Extend(ms, c)) && ModeAfter(last + [c]) == Advance(ModeAfter(last), c)
  {
    hide Members, ModeAfter;
    var last := ms[|ms| - 1];
    ScanEmpty();
    if !(c == ',' && Closed(last)) {
      SingleSnoc(last, c);
      var r := Extend(ms, c);
      assert forall i :: 0 <= i < |r| - 1 ==> r[i] == ms[i];
    }
  }

  lemma {:induction false} MembersWellSplit(s: string)
    ensures WellSplit(Members(s))
    ensures ModeAfter(Members(s)[|Members(s)| - 1]) == ModeAfter(s)
    decreases |s|
  {
    hide Members, ModeAfter;
    ScanEmpty();
    if s != [] {
      var init, c := ScanStep([], s);
      MembersWellSplit(init);
      WellSplitSnoc(Members(init), c);
    }
  }

  lemma {:induction false} JoinSplits(ms: seq<string>)
    requires WellSplit(ms)
    ensures Members(Join(ms)) == ms
    ensures ModeAfter(Join(ms)) == ModeAfter(ms[|ms| - 1])
  {
    hide Members, ModeAfter, Join;
    if |ms| == 1 {
      assert ms == [ms[0]];
      JoinOne(ms[0]);
    } else {
      var init, last := ms[..|ms| - 1], ms[|ms| - 1];
      JoinSplits(init);
      InitLast(ms);
      JoinSnoc(ms);
      JoinedScan(Join(init), last);
    }
  }

  lemma {:induction false} JoinConcat(l: seq<string>, r: seq<string>)
    requires l != [] && r != []
    ensures Join(l + r) == Join(l) + [','] + Join(r)
  {
    hide Join;
    InitConcat(l, r);
    JoinSnoc(l + r);
    if |r| == 1 {
      assert l + r[..0] == l && r == [r[0]];
      JoinOne(r[0]);
    } else {
      JoinConcat(l, r[..|r| - 1]);
      JoinSnoc(r);
    }
  }

  lemma {:induction false} JoinMembers(s: string)
    ensures Join(Members(s)) == s
    decreases |s|
  {
    hide Members, ModeAfter, Join;
    ScanEmpty();
    JoinOne("");
    if s != [] {
      var init, c := ScanStep([], s);
      JoinMembers(init);
      var ms := Members(init);
      if c == ',' && Closed(init) {
        JoinConcat(ms, [""]);
      } else {
        JoinExtend(ms, c);
      }
    }
  }

  lemma JoinExtend(ms: seq<string>, c: char)
    requires ms != []
    ensures Join(Extend(ms, c)) == Join(ms) + [c]
  {
    hide Join;
    var r := Extend(ms, c);
    if |ms| == 1 {
      assert ms == [ms[0]] && r == [ms[0] + [c]];
      JoinOne(ms[0]);
      JoinOne(ms[0] + [c]);
    } else {
      assert r[..|r| - 1] == ms[..|ms| - 1];
      JoinSnoc(ms);
      JoinSnoc(r);
      assert Join(ms) + [c] == Join(ms[..|ms| - 1]) + [','] + (ms[|ms| - 1] + [c]);
    }
  }

  lemma NoTopLevelComma(m: string, i: nat)
    requires Single(m) && i < |m| && m[i] == ','
    ensures !Closed(m[..i])
  {
    hide Members, ModeAfter;
    CutAt(m, i);
    ScanSnoc(m[..i], ',');
    MembersGrow(m[..i] + [','], m[i + 1..]);
  }

  // ---- Trimming keeps the member structure ----------------------------------

  lemma LastOnly(c: char, s: string, ms: seq<string>)
    requires ms != [] && [s + [c]] == Extend(ms, c)
    ensures ms == [s]
  {
    var l, r := [s + [c]], Extend(ms, c);
    assert |l| == |r| && l[0] == r[0];
    assert (ms[0] + [c])[..|ms[0]|] == ms[0] && (s + [c])[..|s|] == s;
  }

  lemma HeadOnly(c: char, s: string, ms: seq<string>)
    requires ms != [] && [[c] + s] == [[c] + ms[0]] + ms[1..]
    ensures ms == [s]
  {
    var l, r := [[c] + s], [[c] + ms[0]] + ms[1..];
    assert |l| == |r| && l[0] == r[0];
    assert ([c] + ms[0])[1..] == ms[0] && ([c] + s)[1..] == s;
  }

  /** Dropping trailing optional whitespace. */
  lemma TrimmedRightOne(s: string, c: char)
    requires c in OWS && Single(s + [c])
    ensures Single(s) && (Closed(s + [c]) ==> Closed(s))
  {
    hide Members, ModeAfter;
    ScanSnoc(s, c);
    LastOnly(c, s, Members(s));
  }

  lemma OwsAlone(c: char)
    requires c in OWS
    ensures Closed([c]) && Members([c]) == [[c]]
  {
    hide Members, ModeAfter;
    ScanEmpty();
    ScanSnoc([], c);
    assert [] + [c] == [c];
  }

  /** Leading optional whitespace only lengthens the first member. */
  lemma {:induction false} LeadingOws(c: char, s: string)
    requires c in OWS
    ensures ModeAfter([c] + s) == ModeAfter(s)
    ensures Members([c] + s) == [[c] + Members(s)[0]] + Members(s)[1..]
    decreases |s|
  {
    hide Members, ModeAfter;
    OwsAlone(c);
    ModeConcat([c], s);
    if s == [] {
      ScanEmpty();
      assert [c] + s == [c];
    } else {
      var init, d := ScanStep([c], s);
      LeadingOws(c, init);
      LengthenFirst(c, Members(init), d);
    }
  }

  lemma LengthenFirst(c: char, ms: seq<string>, d: char)
    requires ms != []
    ensures
      Extend([[c] + ms[0]] + ms[1..], d) == [[c] + Extend(ms, d)[0]] + Extend(ms, d)[1..]
    ensures [[c] + ms[0]] + ms[1..] + [""] == [[c] + (ms + [""])[0]] + (ms + [""])[1..]
  {
    if |ms| == 1 {
      assert [c] + ms[0] + [d] == [c] + (ms[0] + [d]);
    } else {
      var l := [[c] + ms[0]] + ms[1..];
      assert l[..|l| - 1] == [[c] + ms[0]] + ms[1..|ms| - 1];
      assert Extend(ms, d)[1..] == ms[1..|ms| - 1] + [ms[|ms| - 1] + [d]];
    }
  }

  lemma TrimmedLeftOne(c: char, s: string)
    requires c in OWS && Single([c] + s)
    ensures Single(s) && ModeAfter([c] + s) == ModeAfter(s)
  {
    hide Members, ModeAfter;
    LeadingOws(c, s);
    HeadOnly(c, s, Members(s));
  }

  lemma {:induction false} TrimLeftMember(m: string)
    requires Single(m)
    ensures Single(TrimLeft(m, OWS)) && ModeAfter(TrimLeft(m, OWS)) == ModeAfter(m)
    decreases |m|
  {
    hide Members, ModeAfter, TrimLeft;
    TrimLeftStep(m, OWS);
    if m != [] && m[0] in OWS {
      HeadTail(m);
      TrimmedLeftOne(m[0], m[1..]);
      TrimLeftMember(m[1..]);
    }
  }

  lemma {:induction false} TrimRightMember(m: string)
    requires Single(m)
    ensures Single(TrimRight(m, OWS)) && (Closed(m) ==> Closed(TrimRight(m, OWS)))
    decreases |m|
  {
    hide Members, ModeAfter, TrimRight;
    TrimRightStep(m, OWS);
    if m != [] && m[|m| - 1] in OWS {
      InitLast(m);
      TrimmedRightOne(m[..|m| - 1], m[|m| - 1]);
      TrimRightMember(m[..|m| - 1]);
    }
  }

  lemma TrimEachWellSplit(ms: seq<string>)
    requires WellSplit(ms)
    ensures WellSplit(TrimEach(ms))
  {
    hide Members, ModeAfter, TrimLeft, TrimRight;
    forall i | 0 <= i < |ms|
      ensures Single(TrimEach(ms)[i]) && (Closed(ms[i]) ==> Closed(TrimEach(ms)[i]))
    {
      TrimLeftMember(ms[i]);
      TrimRightMember(TrimLeft(ms[i], OWS));
    }
  }

  // ---- Laws of normalisation ------------------------------------------------

  /** The members of a normalised value are the trimmed members of the value. */
  lemma NormalizedMembers(value: string)
    ensures Members(Normalized(value)) == TrimEach(Members(value))
  {
    hide Members, ModeAfter, Join, TrimEach;
    MembersWellSplit(value);
    TrimEachWellSplit(Members(value));
    JoinSplits(TrimEach(Members(value)));
  }

  lemma TrimEachTwice(ms: seq<string>)
    ensures TrimEach(TrimEach(ms)) == TrimEach(ms)
  {
    hide Trim;
    forall i | 0 <= i < |ms| ensures TrimEach(TrimEach(ms))[i] == TrimEach(ms)[i] {
      TrimTwice(ms[i], OWS);
    }
  }

  lemma NormalizedTwice(value: string)
    ensures Normalized(Normalized(value)) == Normalized(value)
  {
    hide Members, Join, TrimEach;
    NormalizedMembers(value);
    TrimEachTwice(Members(value));
  }

  lemma TrimEachConcat(a: seq<string>, b: seq<string>)
    ensures TrimEach(a + b) == TrimEach(a) + TrimEach(b)
  {
  }

  /** Two lines combined with a comma normalise to the combination of their normal forms. */
  lemma NormalizedJoin(a: string, b: string)
    requires Closed(a)
    ensures Normalized(a + [','] + b) == Normalized(a) + [','] + Normalized(b)
  {
    hide Members, ModeAfter, Join, TrimEach;
    JoinedScan(a, b);
    TrimEachConcat(Members(a), Members(b));
    JoinConcat(TrimEach(Members(a)), TrimEach(Members(b)));
  }

  /** An unclosed quote swallows the comma, and with it the right to trim before it. */
  lemma NormalizedJoinNeedsClosedQuotes()
    ensures
      var a := ['"', ' '];
      Normalized(a + [','] + []) != Normalized(a) + [','] + Normalized([])
  {
    hide Members, ModeAfter, Join, Trim, TrimEach, Normalized;
    var x, a := ['"'], ['"', ' '];
    ScanEmpty();
    SingleSnoc([], '"');
    assert [] + ['"'] == x && x + [' '] == a && a + [','] + [] == a + [','];
    SingleSnoc(x, ' ');
    SingleSnoc(a, ',');
    NormalizedSingle(a);
    NormalizedSingle(a + [',']);
    NormalizedSingle([]);
    TrimmedAlready(x);
    TrimmedAlready(a + [',']);
    TrimEnds(x, ' ', OWS);
  }

  lemma NormalizedSingle(m: string)
    requires Single(m)
    ensures Normalized(m) == Trim(m, OWS)
  {
    hide Members, Join, Trim;
    JoinOne(Trim(m, OWS));
    assert TrimEach([m]) == [Trim(m, OWS)];
  }

  lemma TrimmedAlready(s: string)
    requires s != [] ==> s[0] !in OWS && s[|s| - 1] !in OWS
    ensures Trim(s, OWS) == s
  {
  }

  /** Changing one member without changing its trimmed text. */
  lemma SameTrims(ms: seq<string>, r: seq<string>, i: nat)
    requires i < |ms| == |r| && Trim(r[i], OWS) == Trim(ms[i], OWS)
    requires forall j :: 0 <= j < |ms| && j != i ==> r[j] == ms[j]
    ensures TrimEach(r) == TrimEach(ms)
  {
    hide Trim;
  }

  lemma TrimEachOws(ms: seq<string>, c: char)
    requires c in OWS && ms != []
    ensures TrimEach([[c] + ms[0]] + ms[1..]) == TrimEach(ms)
    ensures TrimEach(Extend(ms, c)) == TrimEach(ms)
  {
    hide Trim, TrimEach;
    TrimEnds(ms[0], c, OWS);
    SameTrims(ms, [[c] + ms[0]] + ms[1..], 0);
    TrimEnds(ms[|ms| - 1], c, OWS);
    SameTrims(ms, Extend(ms, c), |ms| - 1);
  }

  /** Surrounding optional whitespace never matters. */
  lemma NormalizedOws(value: string, c: char)
    requires c in OWS
    ensures Normalized([c] + value) == Normalized(value)
    ensures Normalized(value + [c]) == Normalized(value)
  {
    hide Members, ModeAfter, Join, TrimEach;
    LeadingOws(c, value);
    ScanSnoc(value, c);
    TrimEachOws(Members(value), c);
  }

  lemma {:induction false} NormalizedTrimLeft(s: string)
    ensures Normalized(TrimLeft(s, OWS)) == Normalized(s)
    decreases |s|
  {
    hide Normalized, TrimLeft;
    TrimLeftStep(s, OWS);
    if s != [] && s[0] in OWS {
      NormalizedTrimLeft(s[1..]);
      NormalizedOws(s[1..], s[0]);
      HeadTail(s);
    }
  }

  lemma {:induction false} NormalizedTrimRight(s: string)
    ensures Normalized(TrimRight(s, OWS)) == Normalized(s)
    decreases |s|
  {
    hide Normalized, TrimRight;
    TrimRightStep(s, OWS);
    if s != [] && s[|s| - 1] in OWS {
      NormalizedTrimRight(s[..|s| - 1]);
      NormalizedOws(s[..|s| - 1], s[|s| - 1]);
      InitLast(s);
    }
  }

  lemma NormalizedTrim(s: string)
    ensures Normalized(Trim(s, OWS)) == Normalized(s)
  {
    hide Normalized, TrimLeft, TrimRight;
    NormalizedTrimLeft(s);
    NormalizedTrimRight(TrimLeft(s, OWS));
  }

  // ---- Exactly when lines combine ------------------------------------------------

  lemma JoinLast(p: seq<string>, u: string)
    ensures Join(p + [u]) == if p == [] then u else Join(p) + [','] + u
  {
    hide Join;
    JoinOne(u);
    if p != [] {
      JoinConcat(p, [u]);
    } else {
      assert p + [u] == [u];
    }
  }

  /** Inside an open quote a comma and a blank are text like any other. */
  lemma OpenMembers(a: string, c: char)
    requires !Closed(a) && c != '\"'
    ensures Members(a + [c]) == Extend(Members(a), c)
    ensures c != '\\' ==> !Closed(a + [c])
  {
    hide Members, ModeAfter;
    ScanSnoc(a, c);
  }

  /** The last member of a value with an open quote is not just whitespace. */
  lemma OpenLastMember(a: string)
    requires !Closed(a)
    ensures TrimLeft(Members(a)[|Members(a)| - 1], OWS) != []
  {
    hide Members, ModeAfter, TrimLeft;
    MembersWellSplit(a);
    TrimLeftMember(Members(a)[|Members(a)| - 1]);
    ScanEmpty();
  }

  lemma TrimRightShorter(s: string)
    ensures |Trim(s, OWS)| <= |TrimLeft(s, OWS)|
  {
  }

  /** A value with an open quote does not combine with one that starts with a blank. */
  lemma OpenQuotesDoNotCombine(a: string)
    requires !Closed(a)
    ensures Normalized(a + [','] + [' ', 'y']) != Normalized(a) + [','] + Normalized([' ', 'y'])
  {
    hide Members, ModeAfter, Join, TrimLeft, TrimRight;
    var ms := Members(a);
    var p, m := ms[..|ms| - 1], ms[|ms| - 1];
    InitLast(ms);
    OpenMembers(a, ',');
    OpenMembers(a + [','], ' ');
    OpenMembers(a + [','] + [' '], 'y');
    assert a + [','] + [' '] + ['y'] == a + [','] + [' ', 'y'];
    var longer := m + [','] + [' '] + ['y'];
    assert Members(a + [','] + [' ', 'y']) == p + [longer];
    OpenLastMember(a);
    TrimLeftAppend(m, ',', OWS);
    TrimLeftAppend(m + [','], ' ', OWS);
    TrimLeftAppend(m + [','] + [' '], 'y', OWS);
    TrimLeftKeepsLast(longer);
    TrimRightShorter(m);
    TrimEachConcat(p, [longer]);
    TrimEachConcat(p, [m]);
    assert TrimEach([longer]) == [Trim(longer, OWS)] && TrimEach([m]) == [Trim(m, OWS)];
    JoinLast(TrimEach(p), Trim(longer, OWS));
    JoinLast(TrimEach(p), Trim(m, OWS));
    BlankThenLetter();
  }

  lemma BlankThenLetter()
    ensures Normalized([' ', 'y']) == ['y']
  {
    hide Members, ModeAfter, Join, TrimLeft, TrimRight, Trim;
    ScanEmpty();
    SingleSnoc([], 'y');
    assert [] + ['y'] == ['y'] && [' '] + ['y'] == [' ', 'y'];
    NormalizedOws(['y'], ' ');
    NormalizedSingle(['y']);
    TrimmedAlready(['y']);
  }

  /**
   A value combines with every other one, whichever that is, if and only if it closes
   its quotes.
   */
  lemma CombinesExactlyWhenClosed(a: string)
    ensures Closed(a) <==> forall b: string :: Normalized(a + [','] + b) == Normalized(a) + [','] + Normalized(b)
  {
    hide ModeAfter, Normalized;
    if Closed(a) {
      forall b: string ensures Normalized(a + [','] + b) == Normalized(a) + [','] + Normalized(b) {
        NormalizedJoin(a, b);
      }
    } else {
      OpenQuotesDoNotCombine(a);
    }
  }

  // ---- What normalisation keeps and removes ----------------------------------

  /** `s` without its unquoted optional whitespace; quoted text is kept whole. */
  function Significant(s: string): string {
    if s == [] then []
    else
      var init, c := s[..|s| - 1], s[|s| - 1];
      if Closed(init) && c in OWS then Significant(init) else Significant(init) + [c]
  }

  lemma SignificantSnoc(s: string, c: char)
    ensures Significant(s + [c]) == if Closed(s) && c in OWS then Significant(s) else Significant(s) + [c]
  {
    hide ModeAfter;
    assert (s + [c])[..|s|] == s;
  }

  lemma SignificantEmpty()
    ensures Significant([]) == []
  {
  }

  lemma {:induction false} SignificantConcat(a: string, b: string)
    requires Closed(a)
    ensures Significant(a + b) == Significant(a) + Significant(b)
    decreases |b|
  {
    hide Members, ModeAfter, Significant;
    if b == [] {
      SignificantEmpty();
      assert a + b == a;
    } else {
      var init, c := ScanStep(a, b);
      SignificantConcat(a, init);
      ModeConcat(a, init);
      SignificantSnoc(a + init, c);
      SignificantSnoc(init, c);
    }
  }

  lemma {:induction false} SignificantTrimLeft(s: string)
    ensures Significant(TrimLeft(s, OWS)) == Significant(s)
    decreases |s|
  {
    hide Members, ModeAfter, Significant, TrimLeft;
    TrimLeftStep(s, OWS);
    if s != [] && s[0] in OWS {
      SignificantTrimLeft(s[1..]);
      HeadTail(s);
      OwsAlone(s[0]);
      ScanEmpty();
      SignificantEmpty();
      SignificantSnoc([], s[0]);
      assert [] + [s[0]] == [s[0]];
      SignificantConcat([s[0]], s[1..]);
    }
  }

  lemma {:induction false} SignificantTrimRight(s: string)
    requires Closed(s) || TrimRight(s, OWS) == s
    ensures Significant(TrimRight(s, OWS)) == Significant(s)
    decreases |s|
  {
    hide Members, ModeAfter, Significant, TrimRight;
    TrimRightStep(s, OWS);
    if s != [] && s[|s| - 1] in OWS {
      var init, c := ScanStep([], s);
      SignificantSnoc(init, c);
      SignificantTrimRight(init);
    }
  }

  function SignificantEach(ms: seq<string>): string {
    if ms == [] then "" else if |ms| == 1 then Significant(ms[0])
    else SignificantEach(ms[..|ms| - 1]) + [','] + Significant(ms[|ms| - 1])
  }

  lemma {:induction false} SignificantJoin(ms: seq<string>)
    requires WellSplit(ms)
    ensures Significant(Join(ms)) == SignificantEach(ms)
  {
    hide Members, ModeAfter, Significant, Join;
    if |ms| == 1 {
      JoinOne(ms[0]);
      assert ms == [ms[0]];
    } else {
      var init, last := ms[..|ms| - 1], ms[|ms| - 1];
      SignificantJoin(init);
      JoinSplits(init);
      JoinSnoc(ms);
      ScanSnoc(Join(init), ',');
      SignificantSnoc(Join(init), ',');
      SignificantConcat(Join(init) + [','], last);
    }
  }

  lemma {:induction false} SignificantSame(a: seq<string>, b: seq<string>)
    requires |a| == |b| && forall i :: 0 <= i < |a| ==> Significant(a[i]) == Significant(b[i])
    ensures SignificantEach(a) == SignificantEach(b)
  {
    hide Significant;
    if |a| > 1 {
      SignificantSame(a[..|a| - 1], b[..|b| - 1]);
    }
  }

  lemma LastMember(s: string)
    requires s != [] && Members(s)[|Members(s)| - 1] != []
    ensures var last := Members(s)[|Members(s)| - 1]; last[|last| - 1] == s[|s| - 1]
  {
    hide Members, ModeAfter;
    var init, c := ScanStep([], s);
  }

  lemma TrimLeftKeepsLast(m: string)
    requires m != [] && m[|m| - 1] !in OWS
    ensures Trim(m, OWS) == TrimLeft(m, OWS)
  {
    hide TrimLeft;
    var l := TrimLeft(m, OWS);
    if l != [] {
      assert l[|l| - 1] == m[|m| - 1];
    }
  }

  lemma SignificantTrimMember(m: string)
    requires Single(m) && (Closed(m) || m == [] || m[|m| - 1] !in OWS)
    ensures Significant(Trim(m, OWS)) == Significant(m)
  {
    hide Members, ModeAfter, Significant, TrimLeft, TrimRight;
    TrimLeftMember(m);
    SignificantTrimLeft(m);
    if m != [] && m[|m| - 1] !in OWS {
      TrimLeftKeepsLast(m);
    } else if m == [] {
      TrimLeftStep(m, OWS);
      TrimRightStep(m, OWS);
    } else {
      SignificantTrimRight(TrimLeft(m, OWS));
    }
  }

  /**
   Apart from the trim at the ends, normalisation deletes unquoted optional
   whitespace and nothing else: quoted strings are copied verbatim.
   */
  lemma NormalizedKeepsQuotedText(value: string)
    ensures Significant(Normalized(value)) == Significant(Trim(value, OWS))
  {
    hide Members, ModeAfter, Significant, Join, Trim;
    var t := Trim(value, OWS);
    var ms := Members(t);
    NormalizedTrim(value);
    MembersWellSplit(t);
    TrimEachWellSplit(ms);
    forall i | 0 <= i < |ms| ensures Significant(TrimEach(ms)[i]) == Significant(ms[i]) {
      if i == |ms| - 1 && ms[i] != [] {
        if t == [] { ScanEmpty(); } else { LastMember(t); }
      }
      SignificantTrimMember(ms[i]);
    }
    SignificantSame(TrimEach(ms), ms);
    SignificantJoin(TrimEach(ms));
    SignificantJoin(ms);
    JoinMembers(t);
  }

  /** No optional whitespace at either end or next to a comma outside quotes. */
  ghost predicate Tight(s: string) {
    && (s != [] ==> s[0] !in OWS && s[|s| - 1] !in OWS)
    && (forall i :: 0 < i < |s| && s[i] == ',' && Closed(s[..i]) ==> s[i - 1] !in OWS)
    && (forall i :: 0 <= i < |s| - 1 && s[i] == ',' && Closed(s[..i]) ==> s[i + 1] !in OWS)
  }

  /** A top-level comma of `a + [','] + m` is in `a` or between the two. */
  lemma TopLevelCommaAt(a: string, m: string, i: nat)
    requires Closed(a) && Single(m) && |a| < i <= |a| + |m|
    requires (a + [','] + m)[i] == ','
    ensures !Closed((a + [','] + m)[..i])
  {
    hide Members, ModeAfter;
    var j := i - |a| - 1;
    assert (a + [','] + m)[..i] == a + [','] + m[..j];
    JoinedScan(a, m[..j]);
    NoTopLevelComma(m, j);
  }

  lemma TightJoin(a: string, m: string)
    requires Tight(a) && Closed(a) && Single(m)
    requires m != [] ==> m[0] !in OWS && m[|m| - 1] !in OWS
    ensures Tight(a + [','] + m)
  {
    hide Members, ModeAfter;
    var s := a + [','] + m;
    forall i | 0 <= i < |s| && s[i] == ',' && Closed(s[..i])
      ensures i > 0 ==> s[i - 1] !in OWS
      ensures i < |s| - 1 ==> s[i + 1] !in OWS
    {
      if i < |a| {
        assert s[..i] == a[..i];
      } else if i > |a| {
        TopLevelCommaAt(a, m, i);
      }
    }
  }

  lemma TightMember(m: string)
    requires Single(m)
    requires m != [] ==> m[0] !in OWS && m[|m| - 1] !in OWS
    ensures Tight(m)
  {
    hide Members, ModeAfter;
    forall i | 0 <= i < |m| && m[i] == ',' ensures !Closed(m[..i]) {
      NoTopLevelComma(m, i);
    }
  }

  ghost predicate AllTrimmed(ms: seq<string>) {
    forall i :: 0 <= i < |ms| ==> ms[i] != [] ==> ms[i][0] !in OWS && ms[i][|ms[i]| - 1] !in OWS
  }

  lemma {:induction false} JoinTight(ms: seq<string>)
    requires WellSplit(ms) && AllTrimmed(ms)
    ensures Tight(Join(ms))
  {
    hide Members, ModeAfter, Join, Tight;
    if |ms| == 1 {
      assert ms == [ms[0]];
      JoinOne(ms[0]);
      TightMember(ms[0]);
    } else {
      var init := ms[..|ms| - 1];
      JoinSplits(init);
      JoinTight(init);
      JoinSnoc(ms);
      TightJoin(Join(init), ms[|ms| - 1]);
    }
  }

  lemma NormalizedTight(value: string)
    ensures Tight(Normalized(value))
  {
    hide Members, ModeAfter, Join, Tight, Trim;
    MembersWellSplit(value);
    TrimEachWellSplit(Members(value));
    JoinTight(TrimEach(Members(value)));
  }
}
