/**
 The one-pass scanner of `normalize_field_value`, proved against the reference meaning
 in `FieldValues`.
 */
module FieldScanner {
  import opened Text
  import opened FieldValues

  /** The finished members of a list, each followed by its comma. */
  function Finished(ms: seq<string>): string
    requires ms != []
  {
    if |ms| == 1 then "" else Join(TrimEach(ms[..|ms| - 1])) + [',']
  }

  /** The last member without its leading whitespace. */
  function Current(ms: seq<string>): string
    requires ms != []
  {
    TrimLeft(ms[|ms| - 1], OWS)
  }

  /** What the scan has produced after reading a text with members `ms`. */
  function Partial(ms: seq<string>): string
    requires ms != []
  {
    Finished(ms) + Current(ms)
  }

  lemma ExtendKeepsFinished(ms: seq<string>, c: char)
    requires ms != []
    ensures Finished(Extend(ms, c)) == Finished(ms)
  {
    assert Extend(ms, c)[..|ms| - 1] == ms[..|ms| - 1];
  }

  lemma PartialPush(ms: seq<string>, c: char)
    requires ms != [] && (c in OWS ==> Current(ms) != [])
    ensures Partial(Extend(ms, c)) == Partial(ms) + [c]
    ensures Current(Extend(ms, c)) != []
  {
    hide Join, TrimEach, TrimLeft, Finished;
    ExtendKeepsFinished(ms, c);
    TrimLeftAppend(ms[|ms| - 1], c, OWS);
    assert Finished(ms) + Current(ms) + [c] == Finished(ms) + (Current(ms) + [c]);
  }

  lemma PartialSkip(ms: seq<string>, c: char)
    requires ms != [] && c in OWS && Current(ms) == []
    ensures Partial(Extend(ms, c)) == Partial(ms) && Current(Extend(ms, c)) == []
  {
    hide Join, TrimEach, TrimLeft, Finished;
    ExtendKeepsFinished(ms, c);
    TrimLeftAppend(ms[|ms| - 1], c, OWS);
  }

  lemma JoinShape(ms: seq<string>)
    requires ms != []
    ensures Join(TrimEach(ms)) == Finished(ms) + Trim(ms[|ms| - 1], OWS)
  {
    hide Join, Trim;
    var l, last := TrimEach(ms[..|ms| - 1]), [Trim(ms[|ms| - 1], OWS)];
    assert TrimEach(ms) == l + last;
    JoinOne(last[0]);
    if |ms| > 1 {
      JoinConcat(l, last);
    } else {
      assert l + last == last;
    }
  }

  lemma {:induction false} TrimRightAfter(x: string, y: string)
    requires x != [] ==> x[|x| - 1] !in OWS
    ensures TrimRight(x + y, OWS) == x + TrimRight(y, OWS)
  {
    hide TrimRight;
    TrimRightStep(x + y, OWS);
    TrimRightStep(y, OWS);
    if y != [] && y[|y| - 1] in OWS {
      TrimRightAfter(x, y[..|y| - 1]);
      InitConcat(x, y);
    } else {
      assert y == [] ==> x + y == x;
    }
  }

  /** Popping trailing whitespace finishes the current member. */
  lemma PartialFinish(ms: seq<string>)
    requires ms != []
    ensures TrimRight(Partial(ms), OWS) == Join(TrimEach(ms))
  {
    hide Join, TrimEach, TrimRight, TrimLeft;
    JoinShape(ms);
    TrimRightAfter(Finished(ms), Current(ms));
  }

  lemma PartialComma(ms: seq<string>)
    requires ms != []
    ensures Partial(ms + [""]) == Join(TrimEach(ms)) + [','] && Current(ms + [""]) == []
  {
    assert (ms + [""])[..|ms|] == ms;
  }

  lemma TrimmedRight(m: string)
    requires m == [] || m[|m| - 1] !in OWS
    ensures Trim(m, OWS) == TrimLeft(m, OWS)
  {
    if m == [] { TrimmedAlready(m); } else { TrimLeftKeepsLast(m); }
  }

  lemma PartialEnd(t: string)
    requires t != [] ==> t[|t| - 1] !in OWS
    ensures Partial(Members(t)) == Normalized(t)
  {
    hide Members, ModeAfter, Join, Finished, TrimEach, TrimLeft, TrimRight, Trim, Extend;
    var ms := Members(t);
    var last := ms[|ms| - 1];
    assert last == [] || last[|last| - 1] !in OWS by {
      LastMemberEnds(t);
    }
    TrimmedRight(last);
    JoinShape(ms);
    assert Partial(ms) == Join(TrimEach(ms));
  }

  /** A text that does not end in whitespace has no member that does. */
  lemma LastMemberEnds(t: string)
    requires t != [] ==> t[|t| - 1] !in OWS
    ensures
      var last := Members(t)[|Members(t)| - 1];
      last == [] || last[|last| - 1] !in OWS
  {
    hide Members;
    if t == [] {
      ScanEmpty();
    } else if Members(t)[|Members(t)| - 1] != [] {
      LastMember(t);
    }
  }

  /** How reading one more character changes the members. */
  lemma ReadNext(t: string, i: nat)
    requires i < |t|
    ensures ModeAfter(t[..i + 1]) == Advance(ModeAfter(t[..i]), t[i])
    ensures
      Members(t[..i + 1]) ==
      if t[i] == ',' && Closed(t[..i]) then Members(t[..i]) + [""] else Extend(Members(t[..i]), t[i])
  {
    hide Members, ModeAfter;
    TakeNext(t, i);
    ScanSnoc(t[..i], t[i]);
  }

  lemma ReadNothing(t: string)
    ensures ModeAfter(t[..0]) == Plain && Members(t[..0]) == [""]
    ensures Partial([""]) == ""
  {
  }

  method NormalizeFieldValue(value: string) returns (normalized: string)
    ensures normalized == Normalized(value)
  {
    hide Members, ModeAfter, Join, TrimEach, Finished, Current, Partial, Extend, TrimLeft, TrimRight, Trim;
    var t := Trim(value, OWS);
    normalized := "";
    var inQuotes := false;
    var i := 0;
    ghost var ms := [""];
    ReadNothing(t);
    while i < |t|
      invariant 0 <= i <= |t|
      invariant ms == Members(t[..i]) && normalized == Partial(ms)
      invariant i < |t| ==> ModeAfter(t[..i]) == if inQuotes then Quoted else Plain
      invariant i < |t| && t[i] in OWS ==> Current(ms) != []
    {
      var c := t[i];
      ReadNext(t, i);
      if c == '"' {
        inQuotes := !inQuotes;
        PartialPush(ms, c);
        normalized := normalized + [c];
      } else if c == '\\' && inQuotes {
        PartialPush(ms, c);
        normalized := normalized + [c];
        if i + 1 < |t| {
          i, ms := i + 1, Extend(ms, c);
          ReadNext(t, i);
          PartialPush(ms, t[i]);
          normalized := normalized + [t[i]];
        }
      } else if c == ',' && !inQuotes {
        PartialFinish(ms);
        PartialComma(ms);
        while normalized != [] && normalized[|normalized| - 1] in OWS
          invariant TrimRight(normalized, OWS) == Join(TrimEach(ms))
          decreases |normalized|
        {
          TrimRightStep(normalized, OWS);
          normalized := normalized[..|normalized| - 1];
        }
        TrimRightStep(normalized, OWS);
        normalized := normalized + [','];
        ms := ms + [""];
        while i + 1 < |t| && t[i + 1] in OWS
          invariant 0 <= i < |t|
          invariant ms == Members(t[..i + 1]) && Closed(t[..i + 1])
          invariant normalized == Partial(ms) && Current(ms) == []
        {
          i := i + 1;
          ReadNext(t, i);
          PartialSkip(ms, t[i]);
          ms := Extend(ms, t[i]);
        }
      } else {
        PartialPush(ms, c);
        normalized := normalized + [c];
      }
      i, ms := i + 1, Members(t[..i + 1]);
    }
    assert t[..i] == t;
    PartialEnd(t);
    NormalizedTrim(value);
  }
}
