/**
 The entry points of the shell's cache-aware transfers, on the cache that is updated in
 place; `FetchEpochs` says what they do to the cache seen as a list.
 */
module FetchFrontends {
  import opened HttpTypes
  import opened CachePolicy
  import opened RecencyList
  import opened HttpCaching
  import opened FetchEpochs

  class FetchFrontend {
    const cache: HttpCache
    /** A clear whose disk part is still running refuses another one. */
    var clearing: bool

    constructor (cache: HttpCache)
      ensures this.cache == cache && !clearing
    {
      this.cache := cache;
      clearing := false;
    }

    method SubmitCachedFetch(request: FetchRequest, now: nat, reply: NetworkReply) returns (handle: Handle)
      requires cache.Valid() && cache.accessClock < U64_MAX
      modifies cache
      ensures cache.Valid() && cache.accessClock <= old(cache.accessClock) + 1
      ensures (handle, cache.Model()) == SubmitFetch(old(cache.Model()), request, now, reply)
    {
      hide Best, RequestSkipReason, MoveToFront;
      var epoch := cache.epoch;
      var hit := cache.Lookup(request, now);
      match hit {
        case Hit(response) =>
          handle := Handle(request, epoch, Ready(Ok(response)));
        case Miss =>
          var conditional := cache.RevalidationRequest(request, now);
          var submitted := if conditional.Some? then conditional.value else request;
          handle := Handle(submitted, epoch, StateFor(reply));
      }
    }

    method FinishCachedFetch(handle: Handle, result: FetchResult, now: nat) returns (out: FetchResult)
      requires cache.Valid() && cache.accessClock < U64_MAX
      modifies cache
      ensures cache.Valid() && cache.accessClock <= old(cache.accessClock) + 1
      ensures (out, cache.Model()) == FinishFetch(cache.config, old(cache.Model()), handle, result, now)
    {
      hide MergeIn, StoreIn;
      out := result;
      match result {
        case Failed =>
        case Ok(response) =>
          if response.status == 304 {
            var merged := cache.MergeNotModified(handle.request, response, now, handle.epoch);
            out := if merged.Some? then Ok(merged.value) else Failed;
          } else if !handle.state.Ready? {
            var _ := cache.Store(handle.request, response, now, handle.epoch);
          }
      }
    }

    method ClearHttpCache(diskAccepts: bool)
      requires cache.Valid()
      modifies this, cache
      ensures cache.Valid() && cache.accessClock == old(cache.accessClock)
      ensures clearing == (old(clearing) || diskAccepts)
      ensures cache.Model() == if old(clearing) then old(cache.Model()) else Cleared(old(cache.Model()))
    {
      if clearing {
        return;
      }
      var _, _, _ := cache.Clear();
      clearing := diskAccepts;
    }
  }
}
