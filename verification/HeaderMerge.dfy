/**
 Updating stored header lines from a `304` response (`merge_headers`; section
 3.2 of RFC 9111).

 The method works line by line on a growing list. Its reference, `Reference`,
 is a single pass over the stored lines followed by the lines that are new: it
 never mentions positions, retained lists or insertions.
 */
module HeaderMerge {
  import opened Text
  import opened HttpTypes

  /** Content framing always describes the stored body, so it is never replaced. */
  predicate Frozen(name: string) {
    Lower(name) in {"content-length", "content-type", "content-encoding", "content-range", "transfer-encoding"}
  }

  // ---- One replacement ------------------------------------------------------

  predicate HasLine(hs: seq<Header>, name: string) {
    if hs == [] then false
    else SameName(hs[|hs| - 1].name, name) || HasLine(hs[..|hs| - 1], name)
  }

  /** The lines of one name, in order. */
  function Lines(hs: seq<Header>, name: string): seq<Header> {
    if hs == [] then []
    else
      var init, h := hs[..|hs| - 1], hs[|hs| - 1];
      if SameName(h.name, name) then Lines(init, name) + [h] else Lines(init, name)
  }

  /** All other lines, in order. */
  function Without(hs: seq<Header>, name: string): (r: seq<Header>)
    ensures |r| <= |hs|
  {
    if hs == [] then []
    else
      var init, h := hs[..|hs| - 1], hs[|hs| - 1];
      if SameName(h.name, name) then Without(init, name) else Without(init, name) + [h]
  }

  /** Where the first line of that name stands. */
  function FirstLine(hs: seq<Header>, name: string): (r: Option<nat>)
    ensures r.Some? ==> r.value < |hs| && SameName(hs[r.value].name, name)
    ensures r.Some? ==> forall j :: 0 <= j < r.value ==> !SameName(hs[j].name, name)
    ensures r.None? ==> forall j :: 0 <= j < |hs| ==> !SameName(hs[j].name, name)
  {
    if hs == [] then None
    else
      var r := FirstLine(hs[..|hs| - 1], name);
      if r.Some? then r
      else if SameName(hs[|hs| - 1].name, name) then Some(|hs| - 1) else None
  }

  /** One update line takes the place of the first line of its name; the others go. */
  function Replace(hs: seq<Header>, h: Header): seq<Header> {
    if hs == [] then [h]
    else
      var init, x := hs[..|hs| - 1], hs[|hs| - 1];
      if HasLine(init, h.name) then
        if SameName(x.name, h.name) then Replace(init, h) else Replace(init, h) + [x]
      else if SameName(x.name, h.name) then init + [h]
      else init + [x, h]
  }

  function Merged(previous: seq<Header>, update: seq<Header>): seq<Header> {
    if update == [] then previous
    else
      var init, h := update[..|update| - 1], update[|update| - 1];
      if Frozen(h.name) then Merged(previous, init) else Replace(Merged(previous, init), h)
  }

  // ---- Reference --------------------------------------------------------------

  /** The last usable update line of a name. */
  function LastUpdate(update: seq<Header>, name: string): (r: Option<Header>)
    ensures r.Some? ==> SameName(r.value.name, name) && !Frozen(name)
  {
    if update == [] then None
    else
      var h := update[|update| - 1];
      if SameName(h.name, name) && !Frozen(name) then Some(h) else LastUpdate(update[..|update| - 1], name)
  }

  /** Stored lines: an updated name keeps one line, at its first place, with the last update. */
  function InPlace(previous: seq<Header>, update: seq<Header>): seq<Header> {
    if previous == [] then []
    else
      var init, x := previous[..|previous| - 1], previous[|previous| - 1];
      var u := LastUpdate(update, x.name);
      if u.None? then InPlace(init, update) + [x]
      else if HasLine(init, x.name) then InPlace(init, update)
      else InPlace(init, update) + [u.value]
  }

  /** Names of the first `k` update lines that were not stored, with their last update. */
  function Appended(previous: seq<Header>, update: seq<Header>, k: nat): seq<Header>
    requires k <= |update|
  {
    if k == 0 then []
    else
      var name := update[k - 1].name;
      var u := LastUpdate(update, name);
      if u.None? || HasLine(previous, name) || HasLine(update[..k - 1], name)
      then Appended(previous, update, k - 1)
      else Appended(previous, update, k - 1) + [u.value]
  }

  function Reference(previous: seq<Header>, update: seq<Header>): seq<Header> {
    InPlace(previous, update) + Appended(previous, update, |update|)
  }

  // ---- Facts about single replacements --------------------------------------

  lemma {:induction false} HasLineIndex(hs: seq<Header>, name: string)
    ensures HasLine(hs, name) <==> exists i :: 0 <= i < |hs| && SameName(hs[i].name, name)
  {
    if hs != [] {
      var init := hs[..|hs| - 1];
      HasLineIndex(init, name);
      if HasLine(init, name) {
        var i :| 0 <= i < |init| && SameName(init[i].name, name);
        assert SameName(hs[i].name, name);
      }
      forall i | 0 <= i < |hs| && SameName(hs[i].name, name) ensures HasLine(hs, name) {
        if i < |init| { assert init[i] == hs[i]; }
      }
    }
  }

  lemma HasLineSnoc(hs: seq<Header>, x: Header, name: string)
    ensures HasLine(hs + [x], name) == (SameName(x.name, name) || HasLine(hs, name))
  {
    assert (hs + [x])[..|hs|] == hs;
  }

  lemma ReplaceSnoc(hs: seq<Header>, x: Header, h: Header)
    ensures
      Replace(hs + [x], h) ==
      if HasLine(hs, h.name) then
        (if SameName(x.name, h.name) then Replace(hs, h) else Replace(hs, h) + [x])
      else if SameName(x.name, h.name) then hs + [h]
      else hs + [x, h]
  {
    assert (hs + [x])[..|hs|] == hs;
  }

  /** With no line of that name, the update line is appended. */
  lemma ReplaceAbsent(hs: seq<Header>, h: Header)
    requires !HasLine(hs, h.name)
    ensures Replace(hs, h) == hs + [h]
  {
    if hs != [] {
      assert hs + [h] == hs[..|hs| - 1] + [hs[|hs| - 1], h];
    }
  }

  /** The line list the source builds: retain the others, insert at the first place. */
  lemma {:induction false} ReplaceBySplice(hs: seq<Header>, h: Header)
    ensures
      var at := FirstLine(hs, h.name);
      && (at.Some? ==> at.value <= |Without(hs, h.name)|)
      && Replace(hs, h) ==
         (match at
          case Some(i) => Without(hs, h.name)[..i] + [h] + Without(hs, h.name)[i..]
          case None => Without(hs, h.name) + [h])
  {
    if hs != [] {
      var init, x := hs[..|hs| - 1], hs[|hs| - 1];
      ReplaceBySplice(init, h);
      HasLineIndex(init, h.name);
      if !HasLine(init, h.name) {
        WithoutAbsent(init, h.name);
      }
    }
  }

  lemma {:induction false} WithoutAbsent(hs: seq<Header>, name: string)
    requires !HasLine(hs, name)
    ensures Without(hs, name) == hs
  {
    if hs != [] {
      WithoutAbsent(hs[..|hs| - 1], name);
      InitLast(hs);
    }
  }

  lemma LinesSnoc(hs: seq<Header>, x: Header, name: string)
    ensures Lines(hs + [x], name) == if SameName(x.name, name) then Lines(hs, name) + [x] else Lines(hs, name)
  {
    assert (hs + [x])[..|hs|] == hs;
  }

  lemma {:induction false} LinesAbsent(hs: seq<Header>, name: string)
    ensures (Lines(hs, name) == []) == !HasLine(hs, name)
  {
    if hs != [] {
      LinesAbsent(hs[..|hs| - 1], name);
    }
  }

  /** What one replacement does to the lines of any name. */
  lemma {:induction false} ReplaceLines(hs: seq<Header>, h: Header, name: string)
    ensures Lines(Replace(hs, h), name) == if SameName(h.name, name) then [h] else Lines(hs, name)
  {
    LinesAbsent(hs, h.name);
    if !HasLine(hs, h.name) {
      ReplaceAbsent(hs, h);
      LinesSnoc(hs, h, name);
      if SameName(h.name, name) { LinesSameName(hs, h.name, name); }
    } else {
      var init, x := hs[..|hs| - 1], hs[|hs| - 1];
      InitLast(hs);
      ReplaceSnoc(init, x, h);
      LinesSnoc(init, x, name);
      if HasLine(init, h.name) {
        ReplaceLines(init, h, name);
        LinesSnoc(Replace(init, h), x, name);
      } else {
        LinesAbsent(init, h.name);
        if SameName(h.name, name) { LinesSameName(init, h.name, name); }
        LinesSnoc(init, h, name);
      }
    }
  }

  lemma {:induction false} LinesSameName(hs: seq<Header>, a: string, b: string)
    requires SameName(a, b)
    ensures Lines(hs, a) == Lines(hs, b) && HasLine(hs, a) == HasLine(hs, b)
  {
    if hs != [] {
      LinesSameName(hs[..|hs| - 1], a, b);
    }
  }

  /** Replacing in a list whose tail has no line of that name. */
  lemma {:induction false} ReplaceBefore(a: seq<Header>, b: seq<Header>, h: Header)
    requires HasLine(a, h.name) && !HasLine(b, h.name)
    ensures Replace(a + b, h) == Replace(a, h) + b
  {
    if b == [] {
      assert a + b == a;
    } else {
      var init, x := b[..|b| - 1], b[|b| - 1];
      InitLast(b);
      HasLineSnoc(init, x, h.name);
      ReplaceBefore(a, init, h);
      HasLineConcat(a, init, h.name);
      ReplaceSnoc(a + init, x, h);
      InitConcat(a, b);
    }
  }

  lemma {:induction false} HasLineConcat(a: seq<Header>, b: seq<Header>, name: string)
    ensures HasLine(a + b, name) == (HasLine(a, name) || HasLine(b, name))
  {
    if b == [] {
      assert a + b == a;
    } else {
      HasLineConcat(a, b[..|b| - 1], name);
      InitConcat(a, b);
    }
  }

  /** Replacing in a list whose head has no line of that name. */
  lemma {:induction false} ReplaceAfter(a: seq<Header>, b: seq<Header>, h: Header)
    requires !HasLine(a, h.name)
    ensures Replace(a + b, h) == a + Replace(b, h)
  {
    if b == [] {
      ReplaceAbsent(a, h);
      assert a + b == a;
    } else {
      var init, x := b[..|b| - 1], b[|b| - 1];
      ReplaceAfter(a, init, h);
      HasLineConcat(a, init, h.name);
      ReplaceSnoc(a + init, x, h);
      assert a + b == a + init + [x];
    }
  }

  // ---- The merge computes the reference ---------------------------------------

  lemma LastUpdateSnoc(update: seq<Header>, h: Header, name: string)
    ensures
      LastUpdate(update + [h], name) ==
      if SameName(h.name, name) && !Frozen(name) then Some(h) else LastUpdate(update, name)
  {
    assert (update + [h])[..|update|] == update;
  }

  lemma {:induction false} LastUpdateExists(update: seq<Header>, name: string)
    ensures LastUpdate(update, name).Some? == (HasLine(update, name) && !Frozen(name))
  {
    if update != [] {
      LastUpdateExists(update[..|update| - 1], name);
    }
  }

  lemma {:induction false} InPlaceHasLine(previous: seq<Header>, update: seq<Header>, name: string)
    ensures HasLine(InPlace(previous, update), name) == HasLine(previous, name)
  {
    if previous != [] {
      var init, x := previous[..|previous| - 1], previous[|previous| - 1];
      InPlaceHasLine(init, update, name);
      var u := LastUpdate(update, x.name);
      if u.None? {
        HasLineSnoc(InPlace(init, update), x, name);
      } else if HasLine(init, x.name) {
        if SameName(x.name, name) { LinesSameName(init, x.name, name); }
      } else {
        HasLineSnoc(InPlace(init, update), u.value, name);
      }
    }
  }

  /** One more update line, seen from the stored lines. */
  lemma {:induction false} InPlaceStep(previous: seq<Header>, update: seq<Header>, h: Header)
    ensures
      InPlace(previous, update + [h]) ==
      if HasLine(previous, h.name) && !Frozen(h.name) then Replace(InPlace(previous, update), h)
      else InPlace(previous, update)
  {
    if previous != [] {
      var init, x := previous[..|previous| - 1], previous[|previous| - 1];
      InPlaceStep(init, update, h);
      LastUpdateSnoc(update, h, x.name);
      var m := InPlace(init, update);
      InPlaceHasLine(init, update, h.name);
      var u := LastUpdate(update, x.name);
      var y := if u.Some? then u.value else x;
      ReplaceSnoc(m, y, h);
      if SameName(x.name, h.name) {
        LinesSameName(init, x.name, h.name);
      }
    }
  }

  lemma {:induction false} AppendedOnlyNew(previous: seq<Header>, update: seq<Header>, k: nat, name: string)
    requires k <= |update|
    ensures
      HasLine(Appended(previous, update, k), name) ==
      (HasLine(update[..k], name) && !HasLine(previous, name) && !Frozen(name))
  {
    if k > 0 {
      var h := update[k - 1];
      AppendedOnlyNew(previous, update, k - 1, name);
      TakeNext(update, k - 1);
      HasLineSnoc(update[..k - 1], h, name);
      CutAt(update, k - 1);
      HasLineConcat(update[..k - 1] + [h], update[k..], h.name);
      HasLineSnoc(update[..k - 1], h, h.name);
      LastUpdateExists(update, h.name);
      var u := LastUpdate(update, h.name);
      if SameName(h.name, name) {
        LinesSameName(previous, h.name, name);
        LinesSameName(update[..k - 1], h.name, name);
      }
      if u.Some? {
        HasLineSnoc(Appended(previous, update, k - 1), u.value, name);
      }
    }
  }

  /** What one update line contributes to the appended lines. */
  lemma AppendedOne(previous: seq<Header>, update: seq<Header>, k: nat)
    requires 0 < k <= |update|
    ensures LastUpdate(update, update[k - 1].name).None? == Frozen(update[k - 1].name)
    ensures
      var x, a := update[k - 1], Appended(previous, update, k - 1);
      Appended(previous, update, k) ==
      if Frozen(x.name) || HasLine(previous, x.name) || HasLine(update[..k - 1], x.name) then a
      else a + [LastUpdate(update, x.name).value]
  {
    hide LastUpdate, HasLine;
    var x := update[k - 1];
    CutAt(update, k - 1);
    HasLineConcat(update[..k - 1] + [x], update[k..], x.name);
    HasLineSnoc(update[..k - 1], x, x.name);
    LastUpdateExists(update, x.name);
  }

  /** What the `k`-th update line contributes, with and without one more update line after it. */
  lemma AppendedBoth(previous: seq<Header>, update: seq<Header>, h: Header, k: nat) returns (y: Header)
    requires 0 < k <= |update|
    ensures
      var x, more := update[k - 1], update + [h];
      var a, c := Appended(previous, update, k - 1), Appended(previous, more, k - 1);
      if Frozen(x.name) || HasLine(previous, x.name) || HasLine(update[..k - 1], x.name)
      then Appended(previous, update, k) == a && Appended(previous, more, k) == c
      else
        && SameName(y.name, x.name) && Appended(previous, update, k) == a + [y]
        && Appended(previous, more, k) == c + [if SameName(h.name, x.name) then h else y]
  {
    hide LastUpdate, HasLine, Appended, Frozen, SameName;
    var x := update[k - 1];
    SameTake(update, h, k - 1);
    AppendedOne(previous, update, k);
    AppendedOne(previous, update + [h], k);
    LastUpdateSnoc(update, h, x.name);
    var u := LastUpdate(update, x.name);
    LastUpdateName(update, x.name);
    y := if u.Some? then u.value else x;
  }

  lemma LastUpdateName(update: seq<Header>, name: string)
    ensures LastUpdate(update, name).Some? ==> SameName(LastUpdate(update, name).value.name, name)
  {
  }

  /** One more update line, seen from the appended lines. */
  lemma {:induction false} AppendedStep(previous: seq<Header>, update: seq<Header>, h: Header, k: nat)
    requires k <= |update|
    ensures
      var a := Appended(previous, update, k);
      Appended(previous, update + [h], k) == if HasLine(a, h.name) then Replace(a, h) else a
  {
    hide LastUpdate, HasLine, Appended, Replace, Frozen, SameName;
    if k > 0 {
      AppendedStep(previous, update, h, k - 1);
      var y := AppendedBoth(previous, update, h, k);
      var x, a := update[k - 1], Appended(previous, update, k - 1);
      AppendedOnlyNew(previous, update, k - 1, h.name);
      if Appended(previous, update, k) != a {
        AppendedName(previous, update, h, k, y);
        ReplaceSnoc(a, y, h);
        HasLineSnoc(a, y, h.name);
      }
    } else {
      AppendedNone(previous, update);
      AppendedNone(previous, update + [h]);
      HasNone(h.name);
    }
  }

  lemma AppendedNone(previous: seq<Header>, update: seq<Header>)
    ensures Appended(previous, update, 0) == []
  {
  }

  /** A name appended for the first time is not among the lines appended before. */
  lemma AppendedName(previous: seq<Header>, update: seq<Header>, h: Header, k: nat, y: Header)
    requires 0 < k <= |update| && SameName(y.name, update[k - 1].name)
    requires Appended(previous, update, k) == Appended(previous, update, k - 1) + [y]
    ensures SameName(h.name, update[k - 1].name) <==> SameName(y.name, h.name)
    ensures SameName(y.name, h.name) ==> !HasLine(Appended(previous, update, k - 1), h.name)
  {
    hide LastUpdate, HasLine, Appended, Frozen;
    var x := update[k - 1];
    AppendedOne(previous, update, k);
    AppendedOnlyNew(previous, update, k - 1, h.name);
    if SameName(x.name, h.name) {
      LinesSameName(previous, x.name, h.name);
      LinesSameName(update[..k - 1], x.name, h.name);
    }
  }

  lemma SameTake(update: seq<Header>, h: Header, k: nat)
    requires k < |update|
    ensures (update + [h])[..k] == update[..k] && (update + [h])[k] == update[k]
  {
  }

  lemma HasNone(name: string)
    ensures !HasLine([], name)
  {
  }

  lemma MergedUnfolds(previous: seq<Header>, update: seq<Header>)
    requires update != []
    ensures
      var init, h := update[..|update| - 1], update[|update| - 1];
      Merged(previous, update) == if Frozen(h.name) then Merged(previous, init) else Replace(Merged(previous, init), h)
  {
    hide Replace, Frozen;
  }

  /** Line-by-line merging computes the single-pass reference, for all inputs. */
  lemma {:induction false} MergedIsReference(previous: seq<Header>, update: seq<Header>)
    ensures Merged(previous, update) == Reference(previous, update)
  {
    hide Merged, InPlace, Appended, LastUpdate, HasLine, Replace, Frozen, SameName;
    if update == [] {
      InPlaceNothing(previous);
      AppendedNone(previous, update);
      MergedNothing(previous);
    } else {
      var u, h := update[..|update| - 1], update[|update| - 1];
      InitLast(update);
      MergedUnfolds(previous, update);
      MergedIsReference(previous, u);
      InPlaceStep(previous, u, h);
      AppendedStep(previous, u, h, |u|);
      AppendedOnlyNew(previous, u, |u|, h.name);
      AppendedOne(previous, update, |update|);
      LastUpdateSnoc(u, h, h.name);
      SameItself(h.name);
      assert u[..|u|] == u && update[..|u|] == u;
      var a, b := InPlace(previous, u), Appended(previous, u, |u|);
      InPlaceHasLine(previous, u, h.name);
      if !Frozen(h.name) {
        if HasLine(previous, h.name) {
          ReplaceBefore(a, b, h);
        } else {
          ReplaceAfter(a, b, h);
          if !HasLine(u, h.name) {
            ReplaceAbsent(b, h);
            assert a + b + [h] == a + (b + [h]);
          }
        }
      }
    }
  }

  lemma MergedNothing(previous: seq<Header>)
    ensures Merged(previous, []) == previous
  {
  }

  lemma SameItself(name: string)
    ensures SameName(name, name)
  {
  }

  lemma {:induction false} InPlaceNothing(previous: seq<Header>)
    ensures InPlace(previous, []) == previous
  {
    if previous != [] {
      InPlaceNothing(previous[..|previous| - 1]);
      InitLast(previous);
    }
  }

  /** An updated name ends with exactly its last update line; any other name keeps all its lines. */
  lemma {:induction false} MergedLines(previous: seq<Header>, update: seq<Header>, name: string)
    ensures
      Lines(Merged(previous, update), name) ==
      match LastUpdate(update, name) case Some(h) => [h] case None => Lines(previous, name)
  {
    if update != [] {
      var u, h := update[..|update| - 1], update[|update| - 1];
      MergedLines(previous, u, name);
      if !Frozen(h.name) {
        ReplaceLines(Merged(previous, u), h, name);
      }
    }
  }

  /** The stored lines that no update line replaces. */
  function Untouched(hs: seq<Header>, update: seq<Header>): seq<Header> {
    if hs == [] then []
    else
      var init, x := hs[..|hs| - 1], hs[|hs| - 1];
      if LastUpdate(update, x.name).Some? then Untouched(init, update) else Untouched(init, update) + [x]
  }

  /** Replacements leave the order of all other lines alone. */
  lemma {:induction false} ReplaceUntouched(hs: seq<Header>, h: Header, update: seq<Header>)
    requires LastUpdate(update, h.name).Some?
    ensures Untouched(Replace(hs, h), update) == Untouched(hs, update)
  {
    if hs == [] {
      UntouchedSnoc([], h, update);
      assert [] + [h] == [h];
    } else {
      var init, x := hs[..|hs| - 1], hs[|hs| - 1];
      ReplaceUntouched(init, h, update);
      UntouchedSnoc(Replace(init, h), x, update);
      UntouchedSnoc(init, h, update);
      UntouchedSnoc(init, x, update);
      UntouchedSnoc(init + [x], h, update);
      assert init + [x] + [h] == init + [x, h];
      if SameName(x.name, h.name) { LastUpdateSameName(update, x.name, h.name); }
    }
  }

  lemma UntouchedSnoc(hs: seq<Header>, x: Header, update: seq<Header>)
    ensures
      Untouched(hs + [x], update) ==
      if LastUpdate(update, x.name).Some? then Untouched(hs, update) else Untouched(hs, update) + [x]
  {
    assert (hs + [x])[..|hs|] == hs;
  }

  lemma LastUpdateSameName(update: seq<Header>, a: string, b: string)
    requires SameName(a, b)
    ensures LastUpdate(update, a).Some? == LastUpdate(update, b).Some?
  {
    LastUpdateExists(update, a);
    LastUpdateExists(update, b);
    LinesSameName(update, a, b);
  }

  lemma {:induction false} MergedUntouchedUpTo(previous: seq<Header>, update: seq<Header>, k: nat)
    requires k <= |update|
    ensures Untouched(Merged(previous, update[..k]), update) == Untouched(previous, update)
  {
    if k > 0 {
      MergedUntouchedUpTo(previous, update, k - 1);
      var h := update[k - 1];
      TakeNext(update, k - 1);
      assert update[..k][..k - 1] == update[..k - 1];
      if !Frozen(h.name) {
        CutAt(update, k - 1);
        HasLineSnoc(update[..k - 1], h, h.name);
        HasLineConcat(update[..k - 1] + [h], update[k..], h.name);
        LastUpdateExists(update, h.name);
        ReplaceUntouched(Merged(previous, update[..k - 1]), h, update);
      }
    }
  }

  lemma MergedUntouched(previous: seq<Header>, update: seq<Header>)
    ensures Untouched(Merged(previous, update), update) == Untouched(previous, update)
  {
    assert update[..|update|] == update;
    MergedUntouchedUpTo(previous, update, |update|);
  }

  /** Merging the same update again changes nothing. */
  lemma MergedTwice(previous: seq<Header>, update: seq<Header>)
    ensures Merged(Merged(previous, update), update) == Merged(previous, update)
  {
    var m := Merged(previous, update);
    MergedIsReference(m, update);
    assert m[..|m|] == m;
    forall i | 0 <= i < |m|
      ensures LastUpdate(update, m[i].name).Some? ==>
                LastUpdate(update, m[i].name).value == m[i] && !HasLine(m[..i], m[i].name)
    {
      MergedLines(previous, update, m[i].name);
      if LastUpdate(update, m[i].name).Some? {
        OnlyLine(m, i);
      }
    }
    InPlaceStable(m, update, |m|);
    AppendedNothing(m, update, previous, |update|);
  }

  lemma OnlyLine(hs: seq<Header>, i: nat)
    requires i < |hs| && |Lines(hs, hs[i].name)| == 1
    ensures Lines(hs, hs[i].name) == [hs[i]] && !HasLine(hs[..i], hs[i].name)
  {
    var name := hs[i].name;
    CutAt(hs, i);
    LinesConcat(hs[..i] + [hs[i]], hs[i + 1..], name);
    LinesSnoc(hs[..i], hs[i], name);
    LinesAbsent(hs[..i], name);
  }

  lemma {:induction false} LinesConcat(a: seq<Header>, b: seq<Header>, name: string)
    ensures Lines(a + b, name) == Lines(a, name) + Lines(b, name)
  {
    if b == [] {
      assert a + b == a;
    } else {
      LinesConcat(a, b[..|b| - 1], name);
      InitConcat(a, b);
    }
  }

  lemma {:induction false} InPlaceStable(m: seq<Header>, update: seq<Header>, k: nat)
    requires k <= |m|
    requires forall i :: 0 <= i < |m| && LastUpdate(update, m[i].name).Some? ==>
               LastUpdate(update, m[i].name).value == m[i] && !HasLine(m[..i], m[i].name)
    ensures InPlace(m[..k], update) == m[..k]
  {
    if k > 0 {
      InPlaceStable(m, update, k - 1);
      TakeNext(m, k - 1);
      assert m[..k][..k - 1] == m[..k - 1];
    }
  }

  lemma {:induction false} AppendedNothing(m: seq<Header>, update: seq<Header>, previous: seq<Header>, k: nat)
    requires m == Merged(previous, update) && k <= |update|
    ensures Appended(m, update, k) == []
  {
    if k > 0 {
      AppendedNothing(m, update, previous, k - 1);
      var name := update[k - 1].name;
      MergedLines(previous, update, name);
      LinesAbsent(m, name);
    }
  }

  // ---- The method ---------------------------------------------------------------

  method MergeHeaders(previous: seq<Header>, update: seq<Header>) returns (merged: seq<Header>)
    ensures merged == Reference(previous, update)
  {
    merged := previous;
    var i := 0;
    while i < |update|
      invariant 0 <= i <= |update|
      invariant merged == Merged(previous, update[..i])
    {
      var replacement := update[i];
      TakeNext(update, i);
      assert update[..i + 1][..i] == update[..i];
      i := i + 1;
      if Frozen(replacement.name) {
        continue;
      }
      var insertAt := FirstLine(merged, replacement.name);
      ReplaceBySplice(merged, replacement);
      merged := Without(merged, replacement.name);
      if insertAt.Some? {
        merged := merged[..insertAt.value] + [replacement] + merged[insertAt.value..];
      } else {
        merged := merged + [replacement];
      }
    }
    assert update[..i] == update;
    MergedIsReference(previous, update);
  }
}
