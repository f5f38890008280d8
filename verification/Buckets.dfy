/**
 How the concrete cache state, a map of buckets whose entries carry access
 stamps, represents one recency-ordered list.
 */
module Buckets {
  import opened HttpTypes
  import opened CachePolicy
  import opened RecencyList
  import opened RecencyLaws

  datatype CacheEntry = CacheEntry(
    response: FetchResponse,
    variant: Variant,
    freshUntil: nat,
    responseBytes: nat,
    lastUsed: nat)

  type Bucket = seq<CacheEntry>
  type BucketMap = map<CacheKey, Bucket>

  /** An entry together with the bucket it lives in. */
  datatype Cell = Cell(key: CacheKey, entry: CacheEntry) {
    function ToSlot(): Slot {
      Slot(key, entry.response, entry.variant, entry.freshUntil)
    }
  }

  function View(order: seq<Cell>): (s: Slots)
    ensures |s| == |order|
  {
    seq(|order|, i requires 0 <= i < |order| => order[i].ToSlot())
  }

  ghost function CountEntries(m: BucketMap): nat {
    if m == map[] then 0 else var k :| k in m; |m[k]| + CountEntries(m - {k})
  }

  lemma {:induction false} CountAt(m: BucketMap, k: CacheKey)
    requires k in m
    ensures CountEntries(m) == |m[k]| + CountEntries(m - {k})
    decreases |m|
  {
    var j :| j in m && CountEntries(m) == |m[j]| + CountEntries(m - {j});
    if j != k {
      CountAt(m - {j}, k);
      CountAt(m - {k}, j);
      assert m - {j} - {k} == m - {k} - {j};
    }
  }

  // ---- The representation relation ----------------------------------------------------

  /** Access stamps strictly decrease along the list and never exceed the clock. */
  ghost predicate Stamped(order: seq<Cell>, clock: nat) {
    && (forall i, j :: 0 <= i < j < |order| ==> order[i].entry.lastUsed > order[j].entry.lastUsed)
    && (forall i :: 0 <= i < |order| ==> order[i].entry.lastUsed <= clock)
    && (forall i :: 0 <= i < |order| ==> order[i].entry.responseBytes == |order[i].entry.response.body|)
  }

  /** The list holds exactly the entries of the buckets, and no bucket is empty. */
  ghost predicate Covers(m: BucketMap, order: seq<Cell>) {
    && (forall p :: 0 <= p < |order| ==> order[p].key in m && order[p].entry in m[order[p].key])
    && (forall k :: k in m ==> m[k] != [])
    && (forall k, i :: k in m && 0 <= i < |m[k]| ==> Cell(k, m[k][i]) in order)
    && (forall k, i, j :: k in m && 0 <= i < j < |m[k]| ==> m[k][i].lastUsed != m[k][j].lastUsed)
    && CountEntries(m) == |order|
  }

  ghost predicate Represents(m: BucketMap, order: seq<Cell>, clock: nat) {
    Stamped(order, clock) && Covers(m, order)
  }

  function CutCell(order: seq<Cell>, p: nat): seq<Cell>
    requires p < |order|
  {
    order[..p] + order[p + 1..]
  }

  lemma ViewCut(order: seq<Cell>, p: nat)
    requires p < |order|
    ensures View(CutCell(order, p)) == RemoveAt(View(order), p)
  {
  }

  lemma ViewFront(cell: Cell, order: seq<Cell>)
    ensures View([cell] + order) == [cell.ToSlot()] + View(order)
  {
  }

  // ---- Removing an entry ----------------------------------------------------------------

  function CutBucket(b: Bucket, index: nat): Bucket
    requires index < |b|
  {
    b[..index] + b[index + 1..]
  }

  /** `Vec::remove`, and the bucket itself when it became empty. */
  function RemoveEntry(m: BucketMap, key: CacheKey, index: nat): BucketMap
    requires key in m && index < |m[key]|
  {
    var b := CutBucket(m[key], index);
    if b == [] then m - {key} else m[key := b]
  }

  lemma RemoveCount(m: BucketMap, key: CacheKey, index: nat)
    requires key in m && index < |m[key]|
    ensures CountEntries(RemoveEntry(m, key, index)) == CountEntries(m) - 1
  {
    hide CountEntries;
    CountAt(m, key);
    var b := CutBucket(m[key], index);
    if b != [] {
      var r := m[key := b];
      CountAt(r, key);
      assert r - {key} == m - {key};
    }
  }

  lemma CutStamped(order: seq<Cell>, clock: nat, p: nat)
    requires Stamped(order, clock) && p < |order|
    ensures Stamped(CutCell(order, p), clock)
    ensures forall c :: c in CutCell(order, p) <==> c in order && c != order[p]
  {
    var r := CutCell(order, p);
    assert forall i :: 0 <= i < |r| ==> r[i] == order[if i < p then i else i + 1];
    forall c | c in order && c != order[p] ensures c in r {
      var i :| 0 <= i < |order| && order[i] == c;
      assert r[if i < p then i else i - 1] == c;
    }
  }

  lemma CutBucketMembers(b: Bucket, index: nat)
    requires index < |b|
    requires forall i, j :: 0 <= i < j < |b| ==> b[i].lastUsed != b[j].lastUsed
    ensures forall e :: e in CutBucket(b, index) <==> e in b && e != b[index]
    ensures var r := CutBucket(b, index); forall i, j :: 0 <= i < j < |r| ==> r[i].lastUsed != r[j].lastUsed
  {
    var r := CutBucket(b, index);
    assert forall i :: 0 <= i < |r| ==> r[i] == b[if i < index then i else i + 1];
    forall e | e in b && e != b[index] ensures e in r {
      var i :| 0 <= i < |b| && b[i] == e;
      assert r[if i < index then i else i - 1] == e;
    }
  }

  lemma RemoveRepresents(m: BucketMap, order: seq<Cell>, clock: nat, key: CacheKey, index: nat, p: nat)
    requires Represents(m, order, clock)
    requires key in m && index < |m[key]| && p < |order| && order[p] == Cell(key, m[key][index])
    ensures Represents(RemoveEntry(m, key, index), CutCell(order, p), clock)
  {
    hide CountEntries, CutCell, CutBucket, Stamped;
    var r, cut := RemoveEntry(m, key, index), CutCell(order, p);
    var b := CutBucket(m[key], index);
    RemoveCount(m, key, index);
    CutStamped(order, clock, p);
    CutBucketMembers(m[key], index);
    assert |cut| == |order| - 1 by { CutLength(order, p); }
    forall q | 0 <= q < |cut| ensures cut[q].key in r && cut[q].entry in r[cut[q].key] {
      var c := cut[q];
      assert c in cut;
      var o :| 0 <= o < |order| && order[o] == c;
      if c.key == key { assert c.entry in b; }
    }
    forall k, i | k in r && 0 <= i < |r[k]| ensures Cell(k, r[k][i]) in cut {
      if k == key {
        assert r[k][i] in b && r[k][i] in m[key];
        var j :| 0 <= j < |m[key]| && m[key][j] == r[k][i];
        assert Cell(k, m[key][j]) in order;
      } else {
        assert Cell(k, m[k][i]) in order;
      }
    }
  }

  lemma CutLength(order: seq<Cell>, p: nat)
    requires p < |order|
    ensures |CutCell(order, p)| == |order| - 1
  {
  }

  // ---- Adding an entry ----------------------------------------------------------------------

  /** `Vec::push`, or a new bucket. */
  function PushEntry(m: BucketMap, key: CacheKey, entry: CacheEntry): BucketMap {
    m[key := (if key in m then m[key] else []) + [entry]]
  }

  lemma PushCount(m: BucketMap, key: CacheKey, entry: CacheEntry)
    ensures CountEntries(PushEntry(m, key, entry)) == CountEntries(m) + 1
  {
    hide CountEntries;
    var r := PushEntry(m, key, entry);
    CountAt(r, key);
    assert r - {key} == m - {key};
    if key in m {
      CountAt(m, key);
    } else {
      assert m - {key} == m;
    }
  }

  lemma PushStamped(order: seq<Cell>, clock: nat, cell: Cell)
    requires clock > 0 && Stamped(order, clock - 1)
    requires cell.entry.lastUsed == clock && cell.entry.responseBytes == |cell.entry.response.body|
    ensures Stamped([cell] + order, clock)
  {
    var more := [cell] + order;
    assert more[0] == cell && forall i :: 0 < i < |more| ==> more[i] == order[i - 1];
  }

  /** Where the entries of the buckets are after a push. */
  lemma PushedAt(m: BucketMap, key: CacheKey, entry: CacheEntry, k: CacheKey, i: nat)
    requires k in PushEntry(m, key, entry) && i < |PushEntry(m, key, entry)[k]|
    ensures
      var pushed := PushEntry(m, key, entry)[k][i];
      if k == key && i == |PushEntry(m, key, entry)[k]| - 1 then pushed == entry
      else k in m && i < |m[k]| && pushed == m[k][i]
  {
  }

  lemma PushListed(m: BucketMap, order: seq<Cell>, key: CacheKey, entry: CacheEntry, k: CacheKey, i: nat)
    requires Covers(m, order)
    requires k in PushEntry(m, key, entry) && i < |PushEntry(m, key, entry)[k]|
    ensures Cell(k, PushEntry(m, key, entry)[k][i]) in [Cell(key, entry)] + order
  {
    hide CountEntries, PushEntry;
    PushedAt(m, key, entry, k, i);
  }

  lemma PushStamps(
      m: BucketMap, order: seq<Cell>, clock: nat, key: CacheKey, entry: CacheEntry, k: CacheKey, i: nat, j: nat)
    requires clock > 0 && Represents(m, order, clock - 1) && entry.lastUsed == clock
    requires k in PushEntry(m, key, entry) && i < j < |PushEntry(m, key, entry)[k]|
    ensures PushEntry(m, key, entry)[k][i].lastUsed != PushEntry(m, key, entry)[k][j].lastUsed
  {
    hide CountEntries, PushEntry, Stamped;
    PushedAt(m, key, entry, k, i);
    PushedAt(m, key, entry, k, j);
    StampBelow(order, clock - 1, Cell(k, m[k][i]));
  }

  lemma PushKeys(m: BucketMap, key: CacheKey, entry: CacheEntry)
    requires forall k :: k in m ==> m[k] != []
    ensures forall k :: k in PushEntry(m, key, entry) ==> PushEntry(m, key, entry)[k] != []
  {
  }

  lemma PushRepresents(m: BucketMap, order: seq<Cell>, clock: nat, key: CacheKey, entry: CacheEntry)
    requires clock > 0 && Represents(m, order, clock - 1)
    requires entry.lastUsed == clock && entry.responseBytes == |entry.response.body|
    ensures Represents(PushEntry(m, key, entry), [Cell(key, entry)] + order, clock)
  {
    hide CountEntries, Stamped, PushEntry;
    var r, more := PushEntry(m, key, entry), [Cell(key, entry)] + order;
    PushCount(m, key, entry);
    PushKeys(m, key, entry);
    PushStamped(order, clock, Cell(key, entry));
    forall k, i | k in r && 0 <= i < |r[k]| ensures Cell(k, r[k][i]) in more {
      PushListed(m, order, key, entry, k, i);
    }
    forall q | 0 <= q < |more| ensures more[q].key in r && more[q].entry in r[more[q].key] {
      PushedCells(m, key, entry, order, q);
    }
    forall k, i, j | k in r && 0 <= i < j < |r[k]| ensures r[k][i].lastUsed != r[k][j].lastUsed {
      PushStamps(m, order, clock, key, entry, k, i, j);
    }
  }

  lemma StampBelow(order: seq<Cell>, clock: nat, cell: Cell)
    requires Stamped(order, clock) && cell in order
    ensures cell.entry.lastUsed <= clock
  {
  }

  lemma PushedCells(m: BucketMap, key: CacheKey, entry: CacheEntry, order: seq<Cell>, q: nat)
    requires Covers(m, order) && q < |order| + 1
    ensures
      var cell, r := ([Cell(key, entry)] + order)[q], PushEntry(m, key, entry);
      cell.key in r && cell.entry in r[cell.key]
  {
    hide CountEntries;
    var r := PushEntry(m, key, entry);
    if q == 0 {
      assert r[key][|r[key]| - 1] == entry;
    } else {
      var cell := order[q - 1];
      assert cell.entry in m[cell.key];
      assert forall e :: key in m && e in m[key] ==> e in r[key];
    }
  }

  // ---- Touching an entry ----------------------------------------------------------------------

  /** A use restamps an entry in place. */
  function TouchEntry(m: BucketMap, key: CacheKey, index: nat, stamp: nat): BucketMap
    requires key in m && index < |m[key]|
  {
    m[key := m[key][index := m[key][index].(lastUsed := stamp)]]
  }

  lemma TouchStamped(order: seq<Cell>, clock: nat, p: nat, cell: Cell)
    requires clock > 0 && Stamped(order, clock - 1) && p < |order|
    requires cell.entry.lastUsed == clock && cell.entry.responseBytes == |cell.entry.response.body|
    ensures Stamped([cell] + CutCell(order, p), clock)
  {
    CutStamped(order, clock - 1, p);
    var cut := CutCell(order, p);
    var more := [cell] + cut;
    assert forall i :: 0 < i < |more| ==> more[i] == cut[i - 1];
  }

  lemma TouchCount(m: BucketMap, key: CacheKey, index: nat, stamp: nat)
    requires key in m && index < |m[key]|
    ensures CountEntries(TouchEntry(m, key, index, stamp)) == CountEntries(m)
  {
    hide CountEntries;
    var r := TouchEntry(m, key, index, stamp);
    CountAt(m, key);
    CountAt(r, key);
    assert r - {key} == m - {key};
  }

  lemma TouchRepresents(m: BucketMap, order: seq<Cell>, clock: nat, key: CacheKey, index: nat, p: nat)
    requires clock > 0 && Represents(m, order, clock - 1)
    requires key in m && index < |m[key]| && p < |order| && order[p] == Cell(key, m[key][index])
    ensures
      var entry := m[key][index].(lastUsed := clock);
      Represents(TouchEntry(m, key, index, clock), [Cell(key, entry)] + CutCell(order, p), clock)
  {
    hide CountEntries, CutCell;
    var cell := Cell(key, m[key][index].(lastUsed := clock));
    TouchCount(m, key, index, clock);
    TouchStamped(order, clock, p, cell);
    CutLength(order, p);
    TouchListed(m, order, clock, key, index, p);
    TouchFound(m, order, clock, key, index, p);
  }

  lemma TouchListed(m: BucketMap, order: seq<Cell>, clock: nat, key: CacheKey, index: nat, p: nat)
    requires clock > 0 && Represents(m, order, clock - 1)
    requires key in m && index < |m[key]| && p < |order| && order[p] == Cell(key, m[key][index])
    ensures
      var r := TouchEntry(m, key, index, clock);
      var more := [Cell(key, m[key][index].(lastUsed := clock))] + CutCell(order, p);
      && (forall k, i :: k in r && 0 <= i < |r[k]| ==> Cell(k, r[k][i]) in more)
      && (forall k, i, j :: k in r && 0 <= i < j < |r[k]| ==> r[k][i].lastUsed != r[k][j].lastUsed)
  {
    hide CountEntries, CutCell;
    var cell, cut := Cell(key, m[key][index].(lastUsed := clock)), CutCell(order, p);
    var r, more := TouchEntry(m, key, index, clock), [cell] + cut;
    assert more[0] == cell && forall c :: c in cut ==> c in more;
    forall k, i | k in r && 0 <= i < |r[k]| && !(k == key && i == index)
      ensures Cell(k, r[k][i]) in more && r[k][i] == m[k][i] && r[k][i].lastUsed < clock
    {
      OtherEntry(m, order, clock - 1, key, index, p, k, i);
    }
  }

  lemma TouchFound(m: BucketMap, order: seq<Cell>, clock: nat, key: CacheKey, index: nat, p: nat)
    requires clock > 0 && Represents(m, order, clock - 1)
    requires key in m && index < |m[key]| && p < |order| && order[p] == Cell(key, m[key][index])
    ensures
      var r := TouchEntry(m, key, index, clock);
      var more := [Cell(key, m[key][index].(lastUsed := clock))] + CutCell(order, p);
      forall q :: 0 <= q < |more| ==> more[q].key in r && more[q].entry in r[more[q].key]
  {
    hide CountEntries, CutCell, Represents;
    var cell, cut := Cell(key, m[key][index].(lastUsed := clock)), CutCell(order, p);
    var r, more := TouchEntry(m, key, index, clock), [cell] + cut;
    assert r[key][index] == cell.entry;
    forall q | 0 < q < |more| ensures more[q].key in r && more[q].entry in r[more[q].key] {
      var c := more[q];
      assert c == cut[q - 1] && c in cut;
      OtherCell(m, order, clock - 1, key, index, p, c);
      var i :| 0 <= i < |m[c.key]| && m[c.key][i] == c.entry && !(c.key == key && i == index);
      assert r[c.key][i] == c.entry;
    }
  }

  lemma OtherEntry(
      m: BucketMap, order: seq<Cell>, clock: nat, key: CacheKey, index: nat, p: nat, k: CacheKey, i: nat)
    requires Represents(m, order, clock)
    requires key in m && index < |m[key]| && p < |order| && order[p] == Cell(key, m[key][index])
    requires k in m && i < |m[k]| && !(k == key && i == index)
    ensures Cell(k, m[k][i]) in CutCell(order, p) && m[k][i].lastUsed <= clock
  {
    hide CountEntries, CutCell;
    CutStamped(order, clock, p);
    assert Cell(k, m[k][i]) in order;
    var q :| 0 <= q < |order| && order[q] == Cell(k, m[k][i]);
    if k == key {
      assert m[k][i].lastUsed != m[key][index].lastUsed;
    }
  }

  lemma OtherCell(m: BucketMap, order: seq<Cell>, clock: nat, key: CacheKey, index: nat, p: nat, c: Cell)
    requires Represents(m, order, clock)
    requires key in m && index < |m[key]| && p < |order| && order[p] == Cell(key, m[key][index])
    requires c in CutCell(order, p)
    ensures c.key in m
    ensures exists i :: 0 <= i < |m[c.key]| && m[c.key][i] == c.entry && !(c.key == key && i == index)
  {
    hide CountEntries, CutCell;
    CutStamped(order, clock, p);
    var o :| 0 <= o < |order| && order[o] == c;
    assert c.entry in m[c.key];
    var i :| 0 <= i < |m[c.key]| && m[c.key][i] == c.entry;
  }

  // ---- Selection -----------------------------------------------------------------------------

  /** Lexicographic comparison of expiry and access stamp. */
  predicate NoLater(a: CacheEntry, b: CacheEntry) {
    a.freshUntil < b.freshUntil || (a.freshUntil == b.freshUntil && a.lastUsed <= b.lastUsed)
  }

  predicate Eligible(e: CacheEntry, request: FetchRequest, now: nat, wantFresh: bool) {
    (now < e.freshUntil) == wantFresh && Matches(e.variant, request)
  }

  /** `fresh_entry_index` and `stale_entry_index`: the eligible entry with the greatest key. */
  function EntryIndex(b: Bucket, request: FetchRequest, now: nat, wantFresh: bool): (r: Option<nat>)
    ensures r.Some? ==> r.value < |b| && Eligible(b[r.value], request, now, wantFresh)
    ensures r.Some? ==> forall j :: 0 <= j < |b| && Eligible(b[j], request, now, wantFresh) ==> NoLater(b[j], b[r.value])
    ensures r.None? ==> forall j :: 0 <= j < |b| ==> !Eligible(b[j], request, now, wantFresh)
  {
    hide Matches;
    if b == [] then None
    else
      var last := |b| - 1;
      var r := EntryIndex(b[..last], request, now, wantFresh);
      if Eligible(b[last], request, now, wantFresh) && (r.None? || NoLater(b[r.value], b[last])) then Some(last) else r
  }

  /** Scanning one bucket finds the list's best response. */
  lemma SelectionAgrees(m: BucketMap, order: seq<Cell>, clock: nat, request: FetchRequest, now: nat, wantFresh: bool)
    requires Represents(m, order, clock)
    ensures
      var key := KeyOf(request);
      var best := Best(View(order), request, now, wantFresh);
      if key !in m then best == None
      else
        match EntryIndex(m[key], request, now, wantFresh)
        case None => best == None
        case Some(i) => best.Some? && order[best.value] == Cell(key, m[key][i])
  {
    hide Best, EntryIndex, Matches, CountEntries;
    var key := KeyOf(request);
    var best := Best(View(order), request, now, wantFresh);
    if best.Some? {
      var c := order[best.value];
      assert Selected(View(order)[best.value], request, now, wantFresh);
      var j :| 0 <= j < |m[key]| && m[key][j] == c.entry;
    }
    if key in m && EntryIndex(m[key], request, now, wantFresh).Some? {
      var i := EntryIndex(m[key], request, now, wantFresh).value;
      assert Cell(key, m[key][i]) in order;
      var p :| 0 <= p < |order| && order[p] == Cell(key, m[key][i]);
      assert Selected(View(order)[p], request, now, wantFresh);
    }
  }

  // ---- Further facts about represented lists -----------------------------------------------

  lemma EntryListed(m: BucketMap, order: seq<Cell>, clock: nat, key: CacheKey, index: nat) returns (p: nat)
    requires Represents(m, order, clock)
    requires key in m && index < |m[key]|
    ensures p < |order| && order[p] == Cell(key, m[key][index])
  {
    hide CountEntries;
    assert Cell(key, m[key][index]) in order;
    p :| 0 <= p < |order| && order[p] == Cell(key, m[key][index]);
  }

  /** Entries of one bucket never share a variant, and no bucket is empty. */
  lemma BucketStructure(m: BucketMap, order: seq<Cell>, clock: nat, key: CacheKey)
    requires Represents(m, order, clock) && Distinct(View(order)) && key in m
    ensures m[key] != []
    ensures forall i, j :: 0 <= i < j < |m[key]| ==> m[key][i].variant != m[key][j].variant
  {
    hide CountEntries;
    forall i, j | 0 <= i < j < |m[key]| ensures m[key][i].variant != m[key][j].variant {
      var p := EntryListed(m, order, clock, key, i);
      var q := EntryListed(m, order, clock, key, j);
      assert p != q;
      assert !SamePlace(View(order)[p], View(order)[q].key, View(order)[q].variant) ||
             !SamePlace(View(order)[q], View(order)[p].key, View(order)[p].variant);
    }
  }

  /** An entry with the smallest stamp of all is the last one of the list. */
  lemma OldestIsLast(m: BucketMap, order: seq<Cell>, clock: nat, key: CacheKey, index: nat)
    requires Represents(m, order, clock)
    requires key in m && index < |m[key]|
    requires forall k, i :: k in m && 0 <= i < |m[k]| ==> m[key][index].lastUsed <= m[k][i].lastUsed
    ensures order != [] && order[|order| - 1] == Cell(key, m[key][index])
  {
    hide CountEntries;
    var p := EntryListed(m, order, clock, key, index);
    var last := order[|order| - 1];
    assert last.entry in m[last.key];
    var i :| 0 <= i < |m[last.key]| && m[last.key][i] == last.entry;
  }

  /** Without an entry of that key and variant there is nothing to take out of the list. */
  lemma AbsentVariant(m: BucketMap, order: seq<Cell>, clock: nat, key: CacheKey, variant: Variant)
    requires Represents(m, order, clock)
    requires key in m ==> forall i :: 0 <= i < |m[key]| ==> m[key][i].variant != variant
    ensures Without(View(order), key, variant) == View(order)
  {
    hide CountEntries, Without;
    var s := View(order);
    forall i | 0 <= i < |s| ensures !SamePlace(s[i], key, variant) {
      var c := order[i];
      assert c.entry in m[c.key];
    }
    WithoutNothing(s, key, variant);
  }

  lemma RemoveAtLast(s: Slots, p: nat)
    requires p < |s|
    ensures RemoveAt(s, p) == if p == |s| - 1 then s[..|s| - 1] else RemoveAt(s[..|s| - 1], p) + [s[|s| - 1]]
  {
  }

  /** In a list without repetition, taking a response out by key and variant removes one position. */
  lemma {:induction false} WithoutIsCut(s: Slots, p: nat)
    requires Distinct(s) && p < |s|
    ensures Without(s, s[p].key, s[p].variant) == RemoveAt(s, p)
  {
    hide Without, RemoveAt, SamePlace;
    var last := |s| - 1;
    WithoutUnfolds(s, s[p].key, s[p].variant);
    RemoveAtLast(s, p);
    if p == last {
      InItsPlace(s[p]);
      WithoutNothing(s[..last], s[p].key, s[p].variant);
    } else {
      WithoutIsCut(s[..last], p);
      PlacesAgree(s[p], s[last]);
    }
  }

  lemma InItsPlace(slot: Slot)
    ensures SamePlace(slot, slot.key, slot.variant)
  {
  }

  lemma PlacesAgree(a: Slot, b: Slot)
    ensures SamePlace(a, b.key, b.variant) == SamePlace(b, a.key, a.variant)
  {
  }
}
