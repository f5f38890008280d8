/**
 The in-memory response cache (`HttpCache`): buckets of variants, a byte counter,
 an access clock and a clear epoch, all updated in place.

 The ghost field `order` lists the entries by recency. `Valid` ties it to the
 concrete fields, and every method is specified by what it does to that list.
 */
module HttpCaching {
  import opened HttpTypes
  import opened CacheControl
  import opened CachePolicy
  import opened RecencyList
  import opened RecencyLaws
  import opened Buckets
  import HeaderMerge
  import ContentTypes

  function SaturatingSub(a: nat, b: nat): nat {
    if b <= a then a - b else 0
  }

  /** Where a bucket holds that variant. */
  function VariantIndex(b: Bucket, variant: Variant): (r: Option<nat>)
    ensures r.Some? ==> r.value < |b| && b[r.value].variant == variant
    ensures r.None? ==> forall i :: 0 <= i < |b| ==> b[i].variant != variant
  {
    if b == [] then None
    else
      var r := VariantIndex(b[..|b| - 1], variant);
      if r.Some? then r else if b[|b| - 1].variant == variant then Some(|b| - 1) else None
  }

  class HttpCache {
    const config: Config
    var entries: BucketMap
    var memoryBytes: nat
    var accessClock: nat
    var epoch: nat
    ghost var order: seq<Cell>

    /** The fields describe one recency-ordered list whose stamps do not exceed `clock`. */
    ghost predicate Consistent(clock: int)
      reads this
    {
      && clock >= 0 && Represents(entries, order, clock)
      && memoryBytes == TotalBytes(View(order))
    }

    ghost predicate Valid()
      reads this
    {
      Consistent(accessClock) && Inv(config, View(order))
    }

    /** The list and the epoch this object stands for. */
    ghost function Model(): Cache
      reads this
    {
      Cache(View(order), epoch)
    }

    constructor (config: Config)
      ensures Valid() && Model() == Cache([], 0)
      ensures this.config == config && accessClock == 0
    {
      this.config := config;
      entries, memoryBytes, accessClock, epoch := map[], 0, 0, 0;
      order := [];
    }

    method EntryCount() returns (count: nat)
      requires Consistent(accessClock)
      ensures count == |order|
    {
      hide CountEntries, Inv;
      count := 0;
      var rest := entries;
      ghost var zero := CountEntries(map[]);
      while rest != map[]
        invariant rest.Keys <= entries.Keys && forall k :: k in rest ==> rest[k] == entries[k]
        invariant count + CountEntries(rest) == CountEntries(entries)
        decreases |rest|
      {
        var key :| key in rest;
        CountAt(rest, key);
        count := count + |rest[key]|;
        rest := rest - {key};
      }
      CountNothing();
    }

    method NextAccess() returns (stamp: nat)
      modifies this`accessClock
      ensures stamp == accessClock == SaturatingNext(old(accessClock))
    {
      accessClock := SaturatingNext(accessClock);
      stamp := accessClock;
    }

    /** Serves a fresh response and marks it as used. */
    method Lookup(request: FetchRequest, now: nat) returns (out: RecencyList.Lookup)
      requires Valid() && accessClock < U64_MAX
      modifies this
      ensures Valid() && epoch == old(epoch)
      ensures accessClock == old(accessClock) + if out.Hit? then 1 else 0
      ensures (out, View(order)) == LookupIn(old(View(order)), request, now)
    {
      hide Represents, Inv, TotalBytes, Best, RequestSkipReason;
      if RequestSkipReason(request).Some? || request.cacheValidators.Some? {
        return Miss;
      }
      var key := KeyOf(request);
      SelectionAgrees(entries, order, accessClock, request, now, true);
      if key !in entries {
        return Miss;
      }
      var index := EntryIndex(entries[key], request, now, true);
      if index.None? {
        return Miss;
      }
      ghost var p := Best(View(order), request, now, true).value;
      out := Hit(entries[key][index.value].response);
      Touch(key, index.value, p);
    }

    /** Hands out an expired response for revalidation and marks it as used. */
    method StaleResponse(request: FetchRequest, now: nat) returns (out: Option<FetchResponse>)
      requires Valid() && accessClock < U64_MAX
      modifies this
      ensures Valid() && epoch == old(epoch)
      ensures accessClock <= old(accessClock) + 1
      ensures (out, View(order)) == StaleIn(old(View(order)), request, now)
    {
      hide Represents, Inv, TotalBytes, Best, RequestSkipReason;
      if RequestSkipReason(request).Some? {
        return None;
      }
      var key := KeyOf(request);
      SelectionAgrees(entries, order, accessClock, request, now, false);
      if key !in entries {
        return None;
      }
      var index := EntryIndex(entries[key], request, now, false);
      if index.None? {
        return None;
      }
      ghost var p := Best(View(order), request, now, false).value;
      out := Some(entries[key][index.value].response);
      Touch(key, index.value, p);
    }

    /** Restamps one entry, which moves it to the front of the list. */
    method Touch(key: CacheKey, index: nat, ghost p: nat)
      requires Valid() && accessClock < U64_MAX
      requires key in entries && index < |entries[key]|
      requires p < |order| && order[p] == Cell(key, entries[key][index])
      modifies this
      ensures Valid() && epoch == old(epoch)
      ensures View(order) == MoveToFront(old(View(order)), p)
      ensures accessClock == old(accessClock) + 1
    {
      hide Represents, Inv, TotalBytes, CutCell, MoveToFront, RemoveAt;
      var lastUsed := NextAccess();
      TouchRepresents(entries, order, accessClock, key, index, p);
      TotalBytesRemove(View(order), p);
      RemoveKeeps(config, View(order), p);
      ghost var cell := Cell(key, entries[key][index].(lastUsed := lastUsed));
      ViewCut(order, p);
      ViewFront(cell, CutCell(order, p));
      MovedFront(View(order), p, cell.ToSlot());
      entries := TouchEntry(entries, key, index, lastUsed);
      order := [cell] + CutCell(order, p);
    }

    /** Builds a conditional request from an expired response. */
    method RevalidationRequest(request: FetchRequest, now: nat) returns (out: Option<FetchRequest>)
      requires Valid() && accessClock < U64_MAX
      modifies this
      ensures Valid() && epoch == old(epoch)
      ensures accessClock <= old(accessClock) + 1
      ensures (out, View(order)) == RevalidationIn(old(View(order)), request, now)
    {
      var stale := StaleResponse(request, now);
      if stale.None? {
        return None;
      }
      var validators := ValidatorsOf(stale.value.headers);
      if validators.etag.None? && validators.lastModified.None? {
        return None;
      }
      out := Some(request.(cacheValidators := Some(validators)));
    }

    /** Folds a `304` into the stale response it answers. */
    method MergeNotModified(request: FetchRequest, response: FetchResponse, now: nat, submittedEpoch: nat)
      returns (out: Option<FetchResponse>)
      requires Valid() && accessClock < U64_MAX
      modifies this
      ensures Valid()
      ensures accessClock <= old(accessClock) + 1
      ensures (out, Model()) == MergeIn(config, old(Model()), request, response, now, submittedEpoch)
    {
      hide Represents, Inv, TotalBytes, Best, RequestSkipReason, Insert, RemoveAt, PolicyFor, VariantFor, CutCell;
      if submittedEpoch != epoch || response.status != 304 {
        return None;
      }
      if RequestSkipReason(request).Some? {
        return None;
      }
      if !Direct(request, response) {
        return None;
      }
      var key := KeyOf(request);
      SelectionAgrees(entries, order, accessClock, request, now, false);
      if key !in entries {
        return None;
      }
      var index := EntryIndex(entries[key], request, now, false);
      if index.None? {
        return None;
      }
      ghost var p := Best(View(order), request, now, false).value;
      var previous := entries[key][index.value].response;
      var headers := HeaderMerge.MergeHeaders(previous.headers, response.headers);
      var contentType := ContentTypes.ContentTypeOf(headers);
      var merged := previous.(status := 200, contentType := contentType, headers := headers);
      var variant := CaptureVariant(request, merged.headers);
      if variant.None? {
        ViewCut(order, p);
        RemoveKeeps(config, View(order), p);
        RemoveBucketEntry(key, index.value, p);
        PolicyNeedsVariant(request, merged);
        return Some(merged);
      }
      var policy := DecidePolicy(request, merged);
      if policy.Skip? {
        ViewCut(order, p);
        RemoveKeeps(config, View(order), p);
        RemoveBucketEntry(key, index.value, p);
        return Some(merged);
      }
      var freshUntil := CheckedAdd(now, policy.freshness);
      if freshUntil.None? {
        return None;
      }
      ViewCut(order, p);
      RemoveKeeps(config, View(order), p);
      var lastUsed := NextAccess();
      var entry := CacheEntry(merged, variant.value, freshUntil.value, |merged.body|, lastUsed);
      RemoveBucketEntry(key, index.value, p);
      InsertEntry(key, entry);
      out := Some(merged);
    }

    /** Retains an eligible response of the current epoch. */
    method Store(request: FetchRequest, response: FetchResponse, now: nat, submittedEpoch: nat)
      returns (out: StoreOutcome)
      requires Valid() && accessClock < U64_MAX
      modifies this
      ensures Valid()
      ensures accessClock <= old(accessClock) + 1
      ensures (out, Model()) == StoreIn(config, old(Model()), request, response, now, submittedEpoch)
    {
      hide Represents, Inv, TotalBytes, Insert, PolicyFor, VariantFor;
      if submittedEpoch != epoch {
        return Skipped(StaleEpoch);
      }
      var policy := DecidePolicy(request, response);
      if policy.Skip? {
        return Skipped(policy.reason);
      }
      var variant := CaptureVariant(request, response.headers);
      if variant.None? {
        return Skipped(Vary);
      }
      if config.maxEntries == 0 || config.maxBytes == 0 {
        return Skipped(CapacityDisabled);
      }
      var responseBytes := |response.body|;
      if responseBytes > config.maxEntryBytes || responseBytes > config.maxBytes {
        return Skipped(EntryTooLarge);
      }
      var freshUntil := CheckedAdd(now, policy.freshness);
      if freshUntil.None? {
        return Skipped(TimeOverflow);
      }
      var key := KeyOf(request);
      var lastUsed := NextAccess();
      var entry := CacheEntry(response, variant.value, freshUntil.value, responseBytes, lastUsed);
      InsertEntry(key, entry);
      out := Stored;
    }

    /** Drops everything and moves to the next epoch. */
    method Clear() returns (memoryEntries: nat, bytes: nat, newEpoch: nat)
      requires Valid()
      modifies this
      ensures Valid()
      ensures Model() == Cleared(old(Model())) && newEpoch == epoch && accessClock == old(accessClock)
      ensures memoryEntries == |old(order)| && bytes == TotalBytes(old(View(order)))
    {
      epoch := SaturatingNext(epoch);
      memoryEntries := EntryCount();
      bytes := memoryBytes;
      newEpoch := epoch;
      entries, memoryBytes := map[], 0;
      order := [];
    }

    /** Puts a newly stamped entry in its bucket, in place of one with the same variant. */
    method InsertEntry(key: CacheKey, entry: CacheEntry)
      requires Consistent(accessClock - 1) && Inv(config, View(order))
      requires entry.lastUsed == accessClock && entry.responseBytes == |entry.response.body|
      modifies this
      ensures Valid() && epoch == old(epoch) && accessClock == old(accessClock)
      ensures View(order) == Insert(config, old(View(order)), Cell(key, entry).ToSlot())
    {
      hide Represents, Inv, TotalBytes, Without, RemoveAt, CutCell, CutBucket, RemoveEntry, Distinct;
      ghost var before, buckets := View(order), entries;
      InvDistinct(config, before);
      var index := if key in entries then VariantIndex(entries[key], entry.variant) else None;
      if index.Some? {
        ghost var p := EntryListed(entries, order, accessClock - 1, key, index.value);
        WithoutIsCut(before, p);
        ViewCut(order, p);
        TotalBytesRemove(before, p);
        RemoveRepresents(entries, order, accessClock - 1, key, index.value, p);
        ListedBytes(order, accessClock - 1, p, entries);
        RemoveThenPush(entries, key, index.value, entry);
        memoryBytes := SaturatingSub(memoryBytes, entries[key][index.value].responseBytes);
        buckets := RemoveEntry(entries, key, index.value);
        order := CutCell(order, p);
        entries := entries[key := CutBucket(entries[key], index.value) + [entry]];
      } else {
        AbsentVariant(entries, order, accessClock - 1, key, entry.variant);
        entries := PushEntry(entries, key, entry);
      }
      assert entries == PushEntry(buckets, key, entry) && View(order) == Without(before, key, entry.variant);
      PushRepresents(buckets, order, accessClock, key, entry);
      ViewFront(Cell(key, entry), order);
      TotalBytesConcat([Cell(key, entry).ToSlot()], View(order));
      TotalBytesOne(Cell(key, entry).ToSlot());
      order := [Cell(key, entry)] + order;
      memoryBytes := memoryBytes + entry.responseBytes;
      InsertKeeps(config, before, Cell(key, entry).ToSlot());
      EvictToLimits();
    }

    /** Removes one entry, and its bucket when that became empty. */
    method RemoveBucketEntry(key: CacheKey, index: nat, ghost p: nat)
      requires Consistent(accessClock) || Consistent(accessClock - 1)
      requires key in entries && index < |entries[key]|
      requires p < |order| && order[p] == Cell(key, entries[key][index])
      modifies this
      ensures old(Consistent(accessClock)) ==> Consistent(accessClock)
      ensures old(Consistent(accessClock - 1)) ==> Consistent(accessClock - 1)
      ensures order == CutCell(old(order), p) && View(order) == RemoveAt(old(View(order)), p)
      ensures epoch == old(epoch) && accessClock == old(accessClock)
    {
      hide Represents, TotalBytes, RemoveAt, CutCell, RemoveEntry;
      ghost var clock := if Consistent(accessClock) then accessClock else accessClock - 1;
      if Consistent(accessClock) { RemoveRepresents(entries, order, accessClock, key, index, p); }
      if Consistent(accessClock - 1) { RemoveRepresents(entries, order, accessClock - 1, key, index, p); }
      ViewCut(order, p);
      TotalBytesRemove(View(order), p);
      ListedBytes(order, clock, p, entries);
      var removed := entries[key][index];
      entries := RemoveEntry(entries, key, index);
      order := CutCell(order, p);
      memoryBytes := SaturatingSub(memoryBytes, removed.responseBytes);
    }

    /** The least recently used entry, found by scanning every bucket. */
    method FindOldest() returns (oldest: Option<(CacheKey, nat)>)
      requires Consistent(accessClock)
      ensures oldest.None? <==> order == []
      ensures oldest.Some? ==>
                var (key, index) := oldest.value;
                key in entries && index < |entries[key]| && order[|order| - 1] == Cell(key, entries[key][index])
    {
      hide CountEntries, TotalBytes;
      oldest := None;
      var lowest := 0;
      var keys := entries.Keys;
      while keys != {}
        invariant keys <= entries.Keys
        invariant oldest.None? ==> keys == entries.Keys
        invariant oldest.Some? ==>
                    && oldest.value.0 in entries && oldest.value.1 < |entries[oldest.value.0]|
                    && entries[oldest.value.0][oldest.value.1].lastUsed == lowest
                    && forall k, i :: k in entries.Keys - keys && 0 <= i < |entries[k]| ==>
                         lowest <= entries[k][i].lastUsed
        decreases keys
      {
        var key :| key in keys;
        var index := 0;
        while index < |entries[key]|
          invariant 0 <= index <= |entries[key]|
          invariant index > 0 ==> oldest.Some?
          invariant oldest.None? ==> keys == entries.Keys
          invariant oldest.Some? ==>
                      && oldest.value.0 in entries && oldest.value.1 < |entries[oldest.value.0]|
                      && entries[oldest.value.0][oldest.value.1].lastUsed == lowest
                      && (forall k, i :: k in entries.Keys - keys && 0 <= i < |entries[k]| ==>
                            lowest <= entries[k][i].lastUsed)
                      && forall i :: 0 <= i < index ==> lowest <= entries[key][i].lastUsed
        {
          if oldest.None? || entries[key][index].lastUsed < lowest {
            oldest, lowest := Some((key, index)), entries[key][index].lastUsed;
          }
          index := index + 1;
        }
        keys := keys - {key};
      }
      if oldest.Some? {
        OldestIsLast(entries, order, accessClock, oldest.value.0, oldest.value.1);
      } else {
        assert entries.Keys == {} && entries == map[];
        CountNothing();
      }
    }

    /** Evicts least recently used entries until both limits hold. */
    method EvictToLimits()
      requires Consistent(accessClock)
      modifies this
      ensures Consistent(accessClock) && epoch == old(epoch) && accessClock == old(accessClock)
      ensures View(order) == Trimmed(config, old(View(order)))
    {
      hide Represents, TotalBytes, CutCell, RemoveAt;
      var count := EntryCount();
      while count > config.maxEntries || memoryBytes > config.maxBytes
        invariant Consistent(accessClock) && epoch == old(epoch) && accessClock == old(accessClock)
        invariant count == |order|
        invariant Trimmed(config, View(order)) == Trimmed(config, old(View(order)))
        decreases |order|
      {
        var oldest := FindOldest();
        NothingToEvict();
        assert oldest.Some?;  // so the early exit for an empty cache is never taken
        var (key, index) := oldest.value;
        CutLast(order);
        RemoveLast(View(order));
        RemoveBucketEntry(key, index, |order| - 1);
        count := EntryCount();
      }
    }
  }

  lemma CountNothing()
    ensures CountEntries(map[]) == 0
  {
  }

  lemma NothingToEvict()
    ensures View([]) == [] && TotalBytes([]) == 0
  {
  }

  lemma CutLast(order: seq<Cell>)
    requires order != []
    ensures |CutCell(order, |order| - 1)| == |order| - 1
  {
  }

  lemma RemoveLast(s: Slots)
    requires s != []
    ensures RemoveAt(s, |s| - 1) == s[..|s| - 1]
  {
  }

  /** A listed entry's byte count is the length of its body, and is part of the total. */
  lemma ListedBytes(order: seq<Cell>, clock: nat, p: nat, m: BucketMap)
    requires Represents(m, order, clock) && p < |order|
    ensures order[p].entry.responseBytes == View(order)[p].Bytes()
  {
    hide CountEntries;
  }

  lemma MovedFront(s: Slots, p: nat, slot: Slot)
    requires p < |s| && s[p] == slot
    ensures MoveToFront(s, p) == [slot] + RemoveAt(s, p)
  {
  }

  /** Removing the old variant and pushing the new one touches the bucket only once. */
  lemma RemoveThenPush(m: BucketMap, key: CacheKey, index: nat, entry: CacheEntry)
    requires key in m && index < |m[key]|
    ensures PushEntry(RemoveEntry(m, key, index), key, entry) == m[key := CutBucket(m[key], index) + [entry]]
  {
    var b := CutBucket(m[key], index);
    if b == [] {
      assert b + [entry] == [entry] && [] + [entry] == [entry];
    }
  }

  /** A response whose `Vary` cannot be represented is never storable. */
  lemma PolicyNeedsVariant(request: FetchRequest, response: FetchResponse)
    requires VariantFor(request, response.headers).None?
    ensures PolicyFor(request, response).Skip?
  {
    hide CacheControlPolicy;
  }
}
