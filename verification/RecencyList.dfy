/**
 The cache seen as one list of responses, most recently used first.

 There are no buckets, no access clock and no byte counter here: a use moves a
 response to the front, and a list that grew too long is cut at its end. The
 imperative `HttpCache` is proved to behave exactly like this list, so every
 theorem stated here is a theorem about it.
 */
module RecencyList {
  import opened HttpTypes
  import HeaderMerge
  import opened CacheControl
  import opened CachePolicy
  import ContentTypes

  datatype Config = Config(maxEntries: nat, maxBytes: nat, maxEntryBytes: nat)

  /** The largest instant, in seconds, that a clock reading can be advanced to. */
  const INSTANT_MAX: nat := 0x7FFF_FFFF_FFFF_FFFF

  /** A retained response. */
  datatype Slot = Slot(key: CacheKey, response: FetchResponse, variant: Variant, freshUntil: nat) {
    function Bytes(): nat {
      |response.body|
    }
  }

  type Slots = seq<Slot>

  function TotalBytes(s: Slots): nat {
    if s == [] then 0 else TotalBytes(s[..|s| - 1]) + s[|s| - 1].Bytes()
  }

  predicate Fits(config: Config, s: Slots) {
    |s| <= config.maxEntries && TotalBytes(s) <= config.maxBytes
  }

  /** Drops least recently used responses until the limits hold. */
  function Trimmed(config: Config, s: Slots): (r: Slots)
    ensures |r| <= |s| && r == s[..|r|]
    ensures Fits(config, r)
    ensures forall m :: |r| < m <= |s| ==> !Fits(config, s[..m])
  {
    if Fits(config, s) then s
    else
      assert s[..|s|] == s;
      var r := Trimmed(config, s[..|s| - 1]);
      assert forall m :: 0 <= m < |s| ==> s[..|s| - 1][..m] == s[..m];
      r
  }

  function RemoveAt(s: Slots, i: nat): Slots
    requires i < |s|
  {
    s[..i] + s[i + 1..]
  }

  function MoveToFront(s: Slots, i: nat): Slots
    requires i < |s|
  {
    [s[i]] + RemoveAt(s, i)
  }

  predicate SamePlace(slot: Slot, key: CacheKey, variant: Variant) {
    slot.key == key && slot.variant == variant
  }

  /** The list without the response stored under that key and variant. */
  function Without(s: Slots, key: CacheKey, variant: Variant): (r: Slots)
    ensures |r| <= |s|
    ensures forall slot :: slot in r ==> slot in s && !SamePlace(slot, key, variant)
  {
    if s == [] then []
    else
      var init, x := s[..|s| - 1], s[|s| - 1];
      if SamePlace(x, key, variant) then Without(init, key, variant) else Without(init, key, variant) + [x]
  }

  function Insert(config: Config, s: Slots, slot: Slot): Slots {
    Trimmed(config, [slot] + Without(s, slot.key, slot.variant))
  }

  // ---- Selection --------------------------------------------------------------------

  /** A stored response this request selects, fresh or stale as asked. */
  predicate Selected(slot: Slot, request: FetchRequest, now: nat, wantFresh: bool) {
    slot.key == KeyOf(request) && (now < slot.freshUntil) == wantFresh && Matches(slot.variant, request)
  }

  /** The selected response with the latest expiry; among equals, the most recently used. */
  function Best(s: Slots, request: FetchRequest, now: nat, wantFresh: bool): (r: Option<nat>)
    ensures r.Some? ==> r.value < |s| && Selected(s[r.value], request, now, wantFresh)
    ensures r.Some? ==> forall j :: 0 <= j < |s| && Selected(s[j], request, now, wantFresh) ==>
              s[j].freshUntil < s[r.value].freshUntil || (s[j].freshUntil == s[r.value].freshUntil && r.value <= j)
    ensures r.None? ==> forall j :: 0 <= j < |s| ==> !Selected(s[j], request, now, wantFresh)
  {
    if s == [] then None
    else
      var last := |s| - 1;
      var r := Best(s[..last], request, now, wantFresh);
      if Selected(s[last], request, now, wantFresh) && (r.None? || s[r.value].freshUntil < s[last].freshUntil)
      then Some(last) else r
  }

  // ---- Operations ---------------------------------------------------------------------

  datatype Cache = Cache(slots: Slots, epoch: nat)

  datatype Lookup = Hit(response: FetchResponse) | Miss

  datatype StoreOutcome = Stored | Skipped(reason: SkipReason)

  function LookupIn(s: Slots, request: FetchRequest, now: nat): (Lookup, Slots) {
    if RequestSkipReason(request).Some? || request.cacheValidators.Some? then (Miss, s)
    else
      match Best(s, request, now, true)
      case None => (Miss, s)
      case Some(i) => (Hit(s[i].response), MoveToFront(s, i))
  }

  function StaleIn(s: Slots, request: FetchRequest, now: nat): (Option<FetchResponse>, Slots) {
    if RequestSkipReason(request).Some? then (None, s)
    else
      match Best(s, request, now, false)
      case None => (None, s)
      case Some(i) => (Some(s[i].response), MoveToFront(s, i))
  }

  function ValidatorsOf(headers: seq<Header>): CacheValidators {
    CacheValidators(HeaderText(headers, "etag"), HeaderText(headers, "last-modified"))
  }

  function RevalidationIn(s: Slots, request: FetchRequest, now: nat): (Option<FetchRequest>, Slots) {
    var (stale, t) := StaleIn(s, request, now);
    if stale.None? then (None, t)
    else
      var validators := ValidatorsOf(stale.value.headers);
      if validators.etag.None? && validators.lastModified.None? then (None, t)
      else (Some(request.(cacheValidators := Some(validators))), t)
  }

  /** The stored response with the header lines of a `304` folded in. */
  function MergedResponse(previous: FetchResponse, update: seq<Header>): FetchResponse {
    var headers := HeaderMerge.Reference(previous.headers, update);
    previous.(status := 200, contentType := ContentTypes.ContentTypeOf(headers), headers := headers)
  }

  function CheckedAdd(now: nat, freshness: nat): Option<nat> {
    if now + freshness <= INSTANT_MAX then Some(now + freshness) else None
  }

  /** What one exchange would retain, or why not. */
  function SlotFor(request: FetchRequest, response: FetchResponse, now: nat): Retention {
    match PolicyFor(request, response)
    case Skip(reason) => Unstorable(reason)
    case Store(freshness) =>
      match VariantFor(request, response.headers)
      case None => Unstorable(Vary)
      case Some(variant) =>
        match CheckedAdd(now, freshness)
        case None => Overflow
        case Some(freshUntil) => Storable(Slot(KeyOf(request), response, variant, freshUntil))
  }

  datatype Retention = Storable(slot: Slot) | Unstorable(reason: SkipReason) | Overflow

  function StoreIn(config: Config, c: Cache, request: FetchRequest, response: FetchResponse, now: nat, epoch: nat)
    : (StoreOutcome, Cache)
  {
    if epoch != c.epoch then (Skipped(StaleEpoch), c)
    else
      var slot := SlotFor(request, response, now);
      if slot.Unstorable? then (Skipped(slot.reason), c)
      else if config.maxEntries == 0 || config.maxBytes == 0 then (Skipped(CapacityDisabled), c)
      else if |response.body| > config.maxEntryBytes || |response.body| > config.maxBytes then (Skipped(EntryTooLarge), c)
      else if slot.Overflow? then (Skipped(TimeOverflow), c)
      else (Stored, c.(slots := Insert(config, c.slots, slot.slot)))
  }

  /** The `304` answers this request within the current epoch. */
  predicate Answers304(c: Cache, request: FetchRequest, response: FetchResponse, epoch: nat) {
    && epoch == c.epoch && response.status == 304
    && RequestSkipReason(request).None? && Direct(request, response)
  }

  function MergeIn(config: Config, c: Cache, request: FetchRequest, response: FetchResponse, now: nat, epoch: nat)
    : (Option<FetchResponse>, Cache)
  {
    if !Answers304(c, request, response, epoch) then (None, c)
    else
      match Best(c.slots, request, now, false)
      case None => (None, c)
      case Some(i) =>
        var merged := MergedResponse(c.slots[i].response, response.headers);
        var rest := RemoveAt(c.slots, i);
        match SlotFor(request, merged, now)
        case Unstorable(_) => (Some(merged), c.(slots := rest))
        case Overflow => (None, c)
        case Storable(slot) => (Some(merged), c.(slots := Insert(config, rest, slot)))
  }

  function SaturatingNext(n: nat): nat {
    if n < U64_MAX then n + 1 else n
  }

  function Cleared(c: Cache): Cache {
    Cache([], SaturatingNext(c.epoch))
  }
}
