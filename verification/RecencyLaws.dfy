/** What every operation of the recency list keeps, and what single operations achieve. */
module RecencyLaws {
  import opened Text
  import opened HttpTypes
  import opened CacheControl
  import opened CachePolicy
  import opened RecencyList
  import ContentTypes
  import opened HeaderLists

  /** Responses have pairwise different keys or variants. */
  ghost predicate Distinct(s: Slots) {
    forall i, j :: 0 <= i < j < |s| ==> !SamePlace(s[i], s[j].key, s[j].variant)
  }

  ghost predicate Inv(config: Config, s: Slots) {
    Distinct(s) && Fits(config, s)
  }

  // ---- List arithmetic ----------------------------------------------------------------

  lemma {:induction false} TotalBytesConcat(a: Slots, b: Slots)
    ensures TotalBytes(a + b) == TotalBytes(a) + TotalBytes(b)
  {
    if b == [] {
      assert a + b == a;
    } else {
      TotalBytesConcat(a, b[..|b| - 1]);
      InitConcat(a, b);
    }
  }

  lemma TotalBytesOne(slot: Slot)
    ensures TotalBytes([slot]) == slot.Bytes()
  {
    assert [slot][..0] == [];
  }

  lemma TotalBytesRemove(s: Slots, i: nat)
    requires i < |s|
    ensures TotalBytes(RemoveAt(s, i)) == TotalBytes(s) - s[i].Bytes()
    ensures TotalBytes(MoveToFront(s, i)) == TotalBytes(s)
  {
    hide TotalBytes;
    CutAt(s, i);
    TotalBytesConcat(s[..i] + [s[i]], s[i + 1..]);
    TotalBytesConcat(s[..i], [s[i]]);
    TotalBytesConcat(s[..i], s[i + 1..]);
    TotalBytesConcat([s[i]], RemoveAt(s, i));
    TotalBytesOne(s[i]);
  }

  lemma WithoutUnfolds(s: Slots, key: CacheKey, variant: Variant)
    requires s != []
    ensures
      var init, x := s[..|s| - 1], s[|s| - 1];
      Without(s, key, variant) ==
      if SamePlace(x, key, variant) then Without(init, key, variant) else Without(init, key, variant) + [x]
  {
    hide SamePlace;
  }

  lemma DistinctSnoc(s: Slots, x: Slot)
    ensures Distinct(s + [x]) <==> Distinct(s) && forall i :: 0 <= i < |s| ==> !SamePlace(s[i], x.key, x.variant)
  {
    hide SamePlace;
    var all := s + [x];
    assert all[|s|] == x && forall i :: 0 <= i < |s| ==> all[i] == s[i];
    if Distinct(all) {
      forall i, j | 0 <= i < j < |s| ensures !SamePlace(s[i], s[j].key, s[j].variant) {
        assert !SamePlace(all[i], all[j].key, all[j].variant);
      }
      forall i | 0 <= i < |s| ensures !SamePlace(s[i], x.key, x.variant) {
        assert !SamePlace(all[i], all[|s|].key, all[|s|].variant);
      }
    }
  }

  lemma {:induction false} WithoutFacts(s: Slots, key: CacheKey, variant: Variant)
    ensures TotalBytes(Without(s, key, variant)) <= TotalBytes(s)
    ensures forall slot :: slot in s && !SamePlace(slot, key, variant) ==> slot in Without(s, key, variant)
    ensures Distinct(s) ==> Distinct(Without(s, key, variant))
  {
    hide Without, TotalBytes, SamePlace, Distinct;
    if s == [] {
      WithoutNothing(s, key, variant);
    } else {
      var init, x := s[..|s| - 1], s[|s| - 1];
      InitLast(s);
      WithoutUnfolds(s, key, variant);
      WithoutFacts(init, key, variant);
      var w := Without(init, key, variant);
      TotalBytesConcat(init, [x]);
      TotalBytesConcat(w, [x]);
      assert forall slot :: slot in s ==> slot in init || slot == x;
      assert x in w + [x] && forall slot :: slot in w ==> slot in w + [x];
      DistinctSnoc(init, x);
      DistinctSnoc(w, x);
      if Distinct(s) {
        forall i | 0 <= i < |w| ensures !SamePlace(w[i], x.key, x.variant) {
          assert w[i] in init;
        }
      }
    }
  }

  lemma {:induction false} WithoutNothing(s: Slots, key: CacheKey, variant: Variant)
    requires forall i :: 0 <= i < |s| ==> !SamePlace(s[i], key, variant)
    ensures Without(s, key, variant) == s
  {
    if s != [] {
      WithoutNothing(s[..|s| - 1], key, variant);
      InitLast(s);
    }
  }

  // ---- The structural invariant -------------------------------------------------------

  lemma RemoveDistinct(s: Slots, i: nat)
    requires Distinct(s) && i < |s|
    ensures Distinct(RemoveAt(s, i))
    ensures forall j :: 0 <= j < |RemoveAt(s, i)| ==> !SamePlace(s[i], RemoveAt(s, i)[j].key, RemoveAt(s, i)[j].variant)
  {
    var r := RemoveAt(s, i);
    assert forall j :: 0 <= j < |r| ==> r[j] == s[if j < i then j else j + 1];
  }

  lemma FrontDistinct(slot: Slot, s: Slots)
    requires Distinct(s) && forall j :: 0 <= j < |s| ==> !SamePlace(slot, s[j].key, s[j].variant)
    ensures Distinct([slot] + s)
  {
    hide SamePlace;
    var l := [slot] + s;
    assert l[0] == slot && forall j :: 1 <= j < |l| ==> l[j] == s[j - 1];
  }

  lemma RemoveKeeps(config: Config, s: Slots, i: nat)
    requires Inv(config, s) && i < |s|
    ensures Inv(config, RemoveAt(s, i)) && Inv(config, MoveToFront(s, i))
  {
    hide Distinct, TotalBytes, SamePlace;
    TotalBytesRemove(s, i);
    RemoveDistinct(s, i);
    FrontDistinct(s[i], RemoveAt(s, i));
  }

  lemma InsertKeeps(config: Config, s: Slots, slot: Slot)
    requires Distinct(s)
    ensures Inv(config, Insert(config, s, slot))
  {
    WithoutFacts(s, slot.key, slot.variant);
    var w := Without(s, slot.key, slot.variant);
    var l := [slot] + w;
    forall a, b | 0 <= a < b < |l| ensures !SamePlace(l[a], l[b].key, l[b].variant) {
      if a == 0 { assert l[b] in w; }
    }
  }

  /** No operation ever breaks the limits or stores two responses under one key and variant. */
  lemma OperationsKeepInv(
      config: Config, c: Cache, request: FetchRequest, response: FetchResponse, now: nat, epoch: nat)
    requires Inv(config, c.slots)
    ensures Inv(config, LookupIn(c.slots, request, now).1)
    ensures Inv(config, StaleIn(c.slots, request, now).1)
    ensures Inv(config, StoreIn(config, c, request, response, now, epoch).1.slots)
    ensures Inv(config, MergeIn(config, c, request, response, now, epoch).1.slots)
    ensures Inv(config, Cleared(c).slots)
  {
    hide Inv, SlotFor, Best, Insert, RemoveAt, MoveToFront, RequestSkipReason, MergedResponse, Direct;
    var hit := Best(c.slots, request, now, true);
    if hit.Some? { RemoveKeeps(config, c.slots, hit.value); }
    var stored := SlotFor(request, response, now);
    InvDistinct(config, c.slots);
    if stored.Storable? { InsertKeeps(config, c.slots, stored.slot); }
    var stale := Best(c.slots, request, now, false);
    if stale.Some? {
      RemoveKeeps(config, c.slots, stale.value);
      var rest := RemoveAt(c.slots, stale.value);
      InvDistinct(config, rest);
      var merged := SlotFor(request, MergedResponse(c.slots[stale.value].response, response.headers), now);
      if merged.Storable? { InsertKeeps(config, rest, merged.slot); }
    }
    InvEmpty(config);
  }

  lemma InvDistinct(config: Config, s: Slots)
    requires Inv(config, s)
    ensures Distinct(s)
  {
  }

  lemma InvEmpty(config: Config)
    ensures Inv(config, [])
  {
  }

  // ---- Merging a 304 --------------------------------------------------------------------

  /** Stored lifetimes are positive, so what is retained at `now` is fresh at `now`. */
  lemma RetainedIsFresh(request: FetchRequest, response: FetchResponse, now: nat)
    requires SlotFor(request, response, now).Storable?
    ensures
      var slot := SlotFor(request, response, now).slot;
      && slot.key == KeyOf(request) && slot.response == response
      && VariantFor(request, response.headers) == Some(slot.variant)
      && PolicyFor(request, response) == Store(slot.freshUntil - now)
      && now < slot.freshUntil
  {
    hide VariantFor, CacheControlPolicy;
    var freshness := PolicyFor(request, response).freshness;
    StoreMeaning(response.headers, freshness);
  }

  /** A list that fits is not cut. */
  lemma TrimmedFits(config: Config, s: Slots)
    requires Fits(config, s)
    ensures Trimmed(config, s) == s
  {
  }

  /**
   The whole effect of a `304`. A body comes back exactly when the response
   answers the request in this epoch, a stale match exists and the new expiry is
   representable; then it is the stale entry's body with status 200. Retaining
   it never evicts for capacity, and an unstorable result removes exactly the
   selected entry.
   */
  lemma MergeOutcome(
      config: Config, c: Cache, request: FetchRequest, response: FetchResponse, now: nat, epoch: nat)
    requires Inv(config, c.slots)
    ensures
      var stale := Best(c.slots, request, now, false);
      var (out, after) := MergeIn(config, c, request, response, now, epoch);
      if !Answers304(c, request, response, epoch) || stale.None? then out == None && after == c
      else
        var selected := c.slots[stale.value];
        var rest := RemoveAt(c.slots, stale.value);
        var merged := MergedResponse(selected.response, response.headers);
        && merged.status == 200 && merged.body == selected.response.body
        && merged.contentType == ContentTypes.ContentTypeOf(selected.response.headers)
        && after.epoch == c.epoch
        && |after.slots| <= |c.slots| && TotalBytes(after.slots) <= TotalBytes(c.slots)
        && match SlotFor(request, merged, now)
           case Overflow => out == None && after == c
           case Unstorable(_) => out == Some(merged) && after.slots == rest
           case Storable(slot) =>
             && out == Some(merged) && slot.response == merged && now < slot.freshUntil
             && after.slots == [slot] + Without(rest, slot.key, slot.variant)
  {
    hide SlotFor, Best, Direct, RequestSkipReason, Without, Trimmed, TotalBytes;
    var stale := Best(c.slots, request, now, false);
    if Answers304(c, request, response, epoch) && stale.Some? {
      var selected := c.slots[stale.value];
      var rest := RemoveAt(c.slots, stale.value);
      var merged := MergedResponse(selected.response, response.headers);
      ContentTypes.MergeKeepsContentType(selected.response.headers, response.headers);
      TotalBytesRemove(c.slots, stale.value);
      var r := SlotFor(request, merged, now);
      if r.Storable? {
        RetainedIsFresh(request, merged, now);
        WithoutFacts(rest, r.slot.key, r.slot.variant);
        var w := Without(rest, r.slot.key, r.slot.variant);
        TotalBytesConcat([r.slot], w);
        TotalBytesOne(r.slot);
        TrimmedFits(config, [r.slot] + w);
      }
    }
  }

  /** Entries other than the selected one survive a retaining merge unless they share its new variant. */
  lemma MergeKeepsOthers(
      config: Config, c: Cache, request: FetchRequest, response: FetchResponse, now: nat, epoch: nat, other: Slot)
    requires Inv(config, c.slots) && other in c.slots
    requires Answers304(c, request, response, epoch)
    requires Best(c.slots, request, now, false).Some?
    requires other != c.slots[Best(c.slots, request, now, false).value]
    ensures
      var selected := c.slots[Best(c.slots, request, now, false).value];
      var r := SlotFor(request, MergedResponse(selected.response, response.headers), now);
      var after := MergeIn(config, c, request, response, now, epoch).1;
      other in after.slots <==> !(r.Storable? && SamePlace(other, r.slot.key, r.slot.variant) && other != r.slot)
  {
    hide SlotFor, Best, Direct, RequestSkipReason, TotalBytes, Trimmed, MergedResponse;
    MergeOutcome(config, c, request, response, now, epoch);
    var i := Best(c.slots, request, now, false).value;
    var rest := RemoveAt(c.slots, i);
    InRemoveAt(c.slots, i, other);
    var r := SlotFor(request, MergedResponse(c.slots[i].response, response.headers), now);
    if r.Storable? {
      WithoutFacts(rest, r.slot.key, r.slot.variant);
    }
  }

  lemma InRemoveAt(s: Slots, i: nat, x: Slot)
    requires i < |s| && x in s && x != s[i]
    ensures x in RemoveAt(s, i)
  {
    CutAt(s, i);
    assert x in s[..i] + [s[i]] + s[i + 1..];
  }

  /** `t` is `s` with one response taken to the front, which is this one. */
  ghost predicate TakenToFront(s: Slots, t: Slots, response: FetchResponse) {
    exists i :: 0 <= i < |s| && t == [s[i]] + s[..i] + s[i + 1..] && s[i].response == response
  }

  /** Whatever is served becomes the most recently used; a miss changes nothing. */
  lemma ServedIsMostRecent(s: Slots, request: FetchRequest, now: nat)
    ensures
      var (out, next) := LookupIn(s, request, now);
      if out.Hit? then TakenToFront(s, next, out.response) else next == s
    ensures
      var (stale, next) := StaleIn(s, request, now);
      if stale.Some? then TakenToFront(s, next, stale.value) else next == s
  {
    hide Best, RequestSkipReason;
    forall i | 0 <= i < |s| ensures MoveToFront(s, i) == [s[i]] + s[..i] + s[i + 1..] {
    }
  }

  // ---- Storing and reading back -----------------------------------------------------------

  /** A stored response survives its own eviction pass, at the front. */
  lemma StoredIsFirst(
      config: Config, c: Cache, request: FetchRequest, response: FetchResponse, now: nat, epoch: nat)
    requires StoreIn(config, c, request, response, now, epoch).0 == Stored
    ensures
      var slot, after := SlotFor(request, response, now).slot, StoreIn(config, c, request, response, now, epoch).1;
      after.slots != [] && after.slots[0] == slot && slot.response == response && now < slot.freshUntil
  {
    hide SlotFor, Without, Trimmed;
    RetainedIsFresh(request, response, now);
    var slot := SlotFor(request, response, now).slot;
    var l := [slot] + Without(c.slots, slot.key, slot.variant);
    var t := Trimmed(config, l);
    TotalBytesOne(slot);
    assert l[..1] == [slot] && Fits(config, l[..1]);
    assert t == l[..|t|];
  }

  /**
   After a store the same request, sent without validators and with whatever
   fragment, hits at every time before the expiry: with a response at least as
   long-lived as the stored one, and with the stored one when nothing else under its
   key matches.
   */
  lemma StoreThenLookup(
      config: Config, c: Cache, request: FetchRequest, response: FetchResponse, now: nat, epoch: nat, later: nat,
      fragment: Option<string>)
    requires StoreIn(config, c, request, response, now, epoch).0 == Stored
    requires later < SlotFor(request, response, now).slot.freshUntil
    ensures
      var after := StoreIn(config, c, request, response, now, epoch).1;
      var plain := request.(url := Url(request.url.text, fragment), cacheValidators := None);
      var (out, next) := LookupIn(after.slots, plain, later);
      && out.Hit?
      && (exists i :: 0 <= i < |after.slots| && after.slots[i].response == out.response
            && after.slots[i].freshUntil >= SlotFor(request, response, now).slot.freshUntil)
      && ((forall i :: 1 <= i < |after.slots| ==> !Selected(after.slots[i], plain, later, true)) ==>
            out.response == response)
  {
    hide SlotFor, Insert, Best, VariantFor, RequestHeaderValue;
    StoredIsFirst(config, c, request, response, now, epoch);
    RetainedIsFresh(request, response, now);
    var after := StoreIn(config, c, request, response, now, epoch).1;
    var plain := request.(url := Url(request.url.text, fragment), cacheValidators := None);
    StoredMatches(request, response, fragment);
    assert Selected(after.slots[0], plain, later, true);
    var best := Best(after.slots, plain, later, true);
    assert best.Some?;
  }

  lemma StoredMatches(request: FetchRequest, response: FetchResponse, fragment: Option<string>)
    requires PolicyFor(request, response).Store?
    requires VariantFor(request, response.headers).Some?
    ensures
      var plain := request.(url := Url(request.url.text, fragment), cacheValidators := None);
      && Matches(VariantFor(request, response.headers).value, plain)
      && RequestSkipReason(plain) == None && KeyOf(plain) == KeyOf(request)
  {
    hide VarySelectors, CacheControlPolicy, LineValues;
  }
}
