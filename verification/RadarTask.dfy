/** app/radar/tasks.py: the collection task between acquire and release. */
module RadarTask {
  import opened Options
  import opened Redis

  const LOCK_KEY := "radar-cvm:collection"

  datatype Mode = Full | Incremental

  /** How run_radar_collection ends. */
  datatype Outcome = Returned(published: bool) | Raised(error: string)

  datatype TaskResult = LockUnavailable | AlreadyRunning | Collected(outcome: Outcome)

  /** The calls a worker makes, in order. */
  datatype Call =
    | Acquire(answer: Option<string>)
    | Collect(mode: Mode)
    | ReleaseCall(token: string)

  /** run_radar_collection itself is not modelled: it takes `elapsed` and ends as
      `outcome` says, and the other clients leave `meanwhile` in the store by then. */
  class Worker {
    const cache: RedisCache
    var calls: seq<Call>

    constructor (cache: RedisCache)
      ensures this.cache == cache && calls == []
    {
      this.cache := cache;
      calls := [];
    }

    method RunCollection(mode: Mode, outcome: Outcome, meanwhile: Store, elapsed: nat) returns (r: Outcome)
      modifies this`calls, cache.server
      ensures r == outcome && calls == old(calls) + [Collect(mode)]
      ensures cache.server.now == old(cache.server.now) + elapsed && cache.server.store == meanwhile
    {
      calls := calls + [Collect(mode)];
      cache.server.now := cache.server.now + elapsed;
      cache.server.store := meanwhile;
      r := outcome;
    }

    /** The worker runs the collection exactly when it was given a token, and then
        makes exactly one release call, under that token and last, whether the
        collection returned or raised. After it, no live lease is left under the
        token unless the release itself was lost. */
    method RunTask(ttlSeconds: int, mode: string, token: string, outcome: Outcome, meanwhile: Store, elapsed: nat,
                   atAcquire: Fault, atRelease: Fault)
      returns (r: TaskResult)
      requires token != ""
      modifies this`calls, cache.server
      ensures r.Collected? <==>
        ttlSeconds > 0 && atAcquire == Healthy && !Live(old(cache.server.store), old(cache.server.now), "radar-cvm:collection")
      ensures r == AlreadyRunning <==>
        ttlSeconds > 0 && atAcquire == Healthy && Live(old(cache.server.store), old(cache.server.now), "radar-cvm:collection")
      ensures calls == old(calls) +
        match r
        case Collected(_) =>
          [Acquire(Some(token)), Collect(if mode == "incremental" then Incremental else Full), ReleaseCall(token)]
        case AlreadyRunning => [Acquire(Some(""))]
        case LockUnavailable => [Acquire(None)]
      ensures !r.Collected? ==>
        && cache.server.now == old(cache.server.now)
        && cache.server.store == if ttlSeconds <= 0 || atAcquire == RequestLost then old(cache.server.store)
                                 else SetNx(old(cache.server.store), old(cache.server.now), "radar-cvm:collection", token, ttlSeconds).0
      ensures r.Collected? ==>
        && r == Collected(outcome) && cache.server.now == old(cache.server.now) + elapsed
        && cache.server.store == if atRelease == RequestLost then meanwhile
                                 else CompareAndDelete(meanwhile, cache.server.now, "radar-cvm:collection", token)
      ensures r.Collected? && atRelease != RequestLost ==>
        Read(cache.server.store, cache.server.now, "radar-cvm:collection") != Some(token)
    {
      var answer := cache.AcquireLock(LOCK_KEY, ttlSeconds, token, atAcquire);
      calls := calls + [Acquire(answer)];
      if answer.None? {
        return LockUnavailable;
      }
      if answer == Some("") {
        return AlreadyRunning;
      }
      var normalizedMode := if mode == "incremental" then Incremental else Full;
      var collected := RunCollection(normalizedMode, outcome, meanwhile, elapsed);
      if answer.value != "" {
        cache.ReleaseLock(LOCK_KEY, answer.value, atRelease);
        calls := calls + [ReleaseCall(answer.value)];
      }
      r := Collected(collected);
    }
  }
}
