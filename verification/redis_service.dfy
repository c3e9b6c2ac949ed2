/** The cache service the application talks to
    (backend/src/redis/redis.service.ts): `ttl` in seconds with a default of
    one hour, handed to the store in milliseconds; every error is swallowed.
    `exposed` says whether the cache manager exposes the store with its
    `keys`/`reset` functions; when it does not, pattern deletion and reset do
    nothing. */
module RedisService {
  import opened Base
  import opened RedisModule

  /** `get(key)`: the cached value, `None` on a miss, an unavailable store or an error. */
  function Get<V>(s: Store<V>, key: string, o: Outcome): (r: Option<V>)
    ensures r.Some? <==> Live(s, o) && key in s.data
    ensures r.Some? ==> r.value == s.data[key].value
  {
    RedisModule.Get(s, key, o)
  }

  /** `set(key, value, ttl)` with `ttl` in seconds: a positive `ttl` expires
      the entry after exactly `ttl` seconds, 0 stores it without expiry, and a
      negative one is rejected by Redis and leaves the cache as it was. */
  function Set<V>(s: Store<V>, key: string, value: V, ttl: int, o: Outcome): (r: Store<V>)
    ensures r.ready == s.ready
    ensures !Live(s, o) || ttl < 0 ==> r == s
    ensures Live(s, o) && ttl > 0 ==> key in r.data && r.data[key] == Entry(value, Some(ttl))
    ensures Live(s, o) && ttl == 0 ==> key in r.data && r.data[key] == Entry(value, None)
    ensures forall k :: k != key ==> (k in r.data <==> k in s.data) && (k in r.data ==> r.data[k] == s.data[k])
  {
    assert (ttl * 1000) / 1000 == ttl;
    RedisModule.Set(s, key, value, Some(ttl * 1000), o)
  }

  /** `set(key, value)` with the default `ttl`: the entry lives one hour. */
  function SetDefault<V>(s: Store<V>, key: string, value: V, o: Outcome): (r: Store<V>)
    ensures Live(s, o) ==> key in r.data && r.data[key] == Entry(value, Some(3600))
    ensures !Live(s, o) ==> r == s
  {
    Set(s, key, value, DefaultTtl, o)
  }

  /** `delete(key)`. */
  function Delete<V>(s: Store<V>, key: string, o: Outcome): (r: Store<V>)
    ensures r.ready == s.ready
    ensures Live(s, o) ==> key !in r.data
    ensures !Live(s, o) ==> r == s
    ensures forall k :: k != key ==> (k in r.data <==> k in s.data) && (k in r.data ==> r.data[k] == s.data[k])
  {
    Del(s, key, o)
  }

  /** Deleting the listed keys one after another, key `k` with outcome `oDel(k)`. */
  function DeleteAll<V>(s: Store<V>, ks: seq<string>, oDel: string -> Outcome): (r: Store<V>)
    ensures r.ready == s.ready
    decreases |ks|
  {
    if |ks| == 0 then s else DeleteAll(Delete(s, ks[0], oDel(ks[0])), ks[1..], oDel)
  }

  /** `deletePattern(pattern)`: every key `keys(pattern)` lists is deleted
      concurrently, key `k` succeeding or failing as `oDel(k)` says; a
      failure to list keys deletes nothing. */
  function DeletePattern<V>(s: Store<V>, pattern: string, matches: (string, string) -> bool, exposed: bool,
                            oKeys: Outcome, oDel: string -> Outcome): (r: Store<V>)
    ensures r.ready == s.ready
    ensures forall k :: k in r.data ==> k in s.data && r.data[k] == s.data[k]
  {
    var listed := if exposed then Keys(s, pattern, matches, oKeys) else {};
    s.(data := map k | k in s.data && !(k in listed && Live(s, oDel(k))) :: s.data[k])
  }

  /** `reset()`: flushes the store when the cache manager exposes it. */
  function Reset<V>(s: Store<V>, exposed: bool, o: Outcome): (r: Store<V>)
    ensures r.ready == s.ready
    ensures exposed && Live(s, o) ==> r.data == map[]
    ensures !exposed || !Live(s, o) ==> r == s
  {
    if exposed then RedisModule.Reset(s, o) else s
  }

  /** Sequential deletion removes exactly the listed keys whose delete
      succeeds, whatever the order or repetition of the list. */
  lemma {:induction false} DeleteAllData<V>(s: Store<V>, ks: seq<string>, oDel: string -> Outcome)
    ensures DeleteAll(s, ks, oDel).data == map k | k in s.data && !(k in ks && Live(s, oDel(k))) :: s.data[k]
    decreases |ks|
  {
    if |ks| > 0 {
      var s1 := Delete(s, ks[0], oDel(ks[0]));
      DeleteAllData(s1, ks[1..], oDel);
      var lhs := DeleteAll(s, ks, oDel).data;
      var rhs := map k | k in s.data && !(k in ks && Live(s, oDel(k))) :: s.data[k];
      assert forall k :: k in ks <==> k == ks[0] || k in ks[1..] by {
        assert ks == [ks[0]] + ks[1..];
      }
      forall k
        ensures k in lhs <==> k in rhs
        ensures k in lhs ==> lhs[k] == rhs[k]
      {
        if k != ks[0] {
          assert k in s1.data <==> k in s.data;
        }
      }
      assert lhs == rhs;
    }
  }

  /** The concurrent deletion ends in the same state as deleting the listed
      keys one by one in the order `keys` returned them. */
  lemma DeletePatternIsSequential<V>(s: Store<V>, pattern: string, matches: (string, string) -> bool,
                                     oKeys: Outcome, oDel: string -> Outcome, ks: seq<string>)
    requires forall k :: k in ks <==> k in Keys(s, pattern, matches, oKeys)
    ensures DeleteAll(s, ks, oDel) == DeletePattern(s, pattern, matches, true, oKeys, oDel)
  {
    DeleteAllData(s, ks, oDel);
  }

  /** When every call succeeds, a key survives `deletePattern` exactly when the
      pattern does not match it, keeping its value; otherwise nothing is lost
      that the pattern does not match. */
  lemma DeletePatternRemovesMatches<V>(s: Store<V>, pattern: string, matches: (string, string) -> bool,
                                       exposed: bool, oKeys: Outcome, oDel: string -> Outcome)
    ensures exposed && Live(s, oKeys) && (forall k :: oDel(k) == Ok) ==>
      forall k :: k in DeletePattern(s, pattern, matches, exposed, oKeys, oDel).data <==> k in s.data && !matches(pattern, k)
    ensures forall k :: k in s.data && !matches(pattern, k) ==>
      k in DeletePattern(s, pattern, matches, exposed, oKeys, oDel).data
    ensures !exposed || !Live(s, oKeys) ==> DeletePattern(s, pattern, matches, exposed, oKeys, oDel) == s
  {
    var r := DeletePattern(s, pattern, matches, exposed, oKeys, oDel);
    if !exposed || !Live(s, oKeys) {
      assert r.data == s.data;
    }
  }
}
