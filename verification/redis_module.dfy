/** The Redis client settings and the cache store built on it
    (backend/src/redis/redis.module.ts). The connection is reduced to its
    `ready` status, the contents to a map from key to entry, and whether an
    ioredis call throws to an explicit `Outcome` argument. Every operation is
    total: a failed call leaves the contents unchanged and reads as empty. */
module RedisModule {
  import opened Base

  const DefaultTtl: int := 3600
  const MaxRetryAttempts: int := 20
  const RetryDelayMultiplier: int := 50
  const MaxRetryDelay: int := 2000

  /** `retryStrategy(times)`: `None` stops reconnecting. */
  function RetryStrategy(times: int): (r: Option<int>)
    ensures r.None? <==> times > MaxRetryAttempts
    ensures r.Some? ==> r.value <= MaxRetryDelay
    ensures r.Some? ==> r.value == times * RetryDelayMultiplier || r.value == MaxRetryDelay
  {
    if times > MaxRetryAttempts then None else Some(Min(times * RetryDelayMultiplier, MaxRetryDelay))
  }

  /** The delay never decreases as attempts go up, and within the 20 allowed
      attempts it is exactly 50 ms per attempt: the 2000 ms cap is never reached. */
  lemma RetryStrategyMonotone(a: int, b: int)
    requires a <= b <= MaxRetryAttempts
    ensures RetryStrategy(a).value <= RetryStrategy(b).value
    ensures RetryStrategy(b).value == b * RetryDelayMultiplier
  {
  }

  /** What the underlying ioredis command does: succeed, or throw. */
  datatype Outcome = Ok | Throws

  /** A stored value with the expiry (in seconds) it was written with; `None`
      means no expiry. */
  datatype Entry<V> = Entry(value: V, ttlSeconds: Option<int>)

  datatype Store<V> = Store(ready: bool, data: map<string, Entry<V>>)

  /** `isAvailable()`: the client status is `'ready'`. */
  predicate Live<V>(s: Store<V>, o: Outcome)
  {
    s.ready && o == Ok
  }

  /** `get(key)`: the stored value, or `None` when absent, unavailable or failing. */
  function Get<V>(s: Store<V>, key: string, o: Outcome): (r: Option<V>)
    ensures r.Some? <==> Live(s, o) && key in s.data
    ensures r.Some? ==> r.value == s.data[key].value
  {
    if Live(s, o) && key in s.data then Some(s.data[key].value) else None
  }

  /** The seconds `setex` is given: `Math.floor(ttl / 1000)` when that is
      truthy, `None` (a plain `set`) when `ttl` is missing or 0, or when it
      rounds down to 0 seconds. Dafny's `/` by a positive divisor rounds down,
      as `Math.floor` does. */
  function TtlSeconds(ttlMs: Option<int>): (r: Option<int>)
    ensures r.None? <==> ttlMs.None? || 0 <= ttlMs.value < 1000
    ensures r.Some? ==> r.value != 0 && r.value * 1000 <= ttlMs.value < r.value * 1000 + 1000
  {
    if ttlMs.None? || ttlMs.value / 1000 == 0 then None else Some(ttlMs.value / 1000)
  }

  /** `set(key, value, ttl)`: `setex` with a non-zero number of seconds, a
      plain `set` (no expiry) otherwise. Redis rejects a negative `setex`
      time; that error is swallowed and nothing is written. */
  function Set<V>(s: Store<V>, key: string, value: V, ttlMs: Option<int>, o: Outcome): (r: Store<V>)
    ensures r.ready == s.ready
    ensures !Live(s, o) ==> r == s
    ensures Live(s, o) && TtlSeconds(ttlMs).Some? && TtlSeconds(ttlMs).value < 0 ==> r == s
    ensures Live(s, o) && (TtlSeconds(ttlMs).None? || TtlSeconds(ttlMs).value > 0) ==>
      key in r.data && r.data[key] == Entry(value, TtlSeconds(ttlMs))
    ensures forall k :: k != key ==> (k in r.data <==> k in s.data) && (k in r.data ==> r.data[k] == s.data[k])
  {
    if !Live(s, o) then s
    else
      match TtlSeconds(ttlMs)
      case None => s.(data := s.data[key := Entry(value, None)])
      case Some(secs) => if secs < 0 then s else s.(data := s.data[key := Entry(value, Some(secs))])
  }

  /** `del(key)`. */
  function Del<V>(s: Store<V>, key: string, o: Outcome): (r: Store<V>)
    ensures r.ready == s.ready
    ensures !Live(s, o) ==> r == s
    ensures Live(s, o) ==> key !in r.data
    ensures forall k :: k != key ==> (k in r.data <==> k in s.data) && (k in r.data ==> r.data[k] == s.data[k])
  {
    if Live(s, o) then s.(data := s.data - {key}) else s
  }

  /** `reset()` (`flushdb`). */
  function Reset<V>(s: Store<V>, o: Outcome): (r: Store<V>)
    ensures r.ready == s.ready
    ensures !Live(s, o) ==> r == s
    ensures Live(s, o) ==> r.data == map[]
  {
    if Live(s, o) then s.(data := map[]) else s
  }

  /** `keys(pattern)`: the stored keys the glob `pattern` matches; `KEYS`
      glob matching is the parameter `matches`. Empty when unavailable or failing. */
  function Keys<V>(s: Store<V>, pattern: string, matches: (string, string) -> bool, o: Outcome): (r: set<string>)
    ensures forall k :: k in r <==> Live(s, o) && k in s.data && matches(pattern, k)
  {
    if Live(s, o) then set k | k in s.data && matches(pattern, k) else {}
  }

  /** A value written with a live connection is read back, and writing one
      key does not change what any other key reads. */
  lemma GetAfterSet<V>(s: Store<V>, key: string, other: string, value: V, ttlMs: Option<int>, o: Outcome)
    requires Live(s, o) && other != key
    requires TtlSeconds(ttlMs).None? || TtlSeconds(ttlMs).value > 0
    ensures Get(Set(s, key, value, ttlMs, o), key, o) == Some(value)
    ensures Get(Set(s, key, value, ttlMs, o), other, o) == Get(s, other, o)
  {
  }

  /** After `del` the key reads as absent; after `reset` every key does. */
  lemma GetAfterDelete<V>(s: Store<V>, key: string, other: string, o: Outcome)
    requires Live(s, o)
    ensures Get(Del(s, key, o), key, o).None?
    ensures other != key ==> Get(Del(s, key, o), other, o) == Get(s, other, o)
    ensures Get(Reset(s, o), other, o).None?
  {
  }
}
