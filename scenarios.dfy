/** The scenarios of the repository's tests, stated on the specification
  * functions that the cache methods are proved to follow. The keys stand for
  * the tests' "key1", "key2", ...; the TTL scenarios replace sleeping by a
  * later `now`. */
module Scenarios {

  import opened Wrappers
  import opened Recency
  import LruCache
  import LruCacheTtl

  function Empty<V>(): LruCache.Snapshot<V>
  {
    LruCache.Snapshot([], map[])
  }

  /** The state after writing three keys into an empty cache. */
  lemma ThreeWrites<V>(maxSize: int, k1: string, k2: string, k3: string, v1: V, v2: V, v3: V)
    requires k1 != k2 && k1 != k3 && k2 != k3
    requires maxSize <= 0 || maxSize >= 3
    ensures LruCache.AfterSet(LruCache.AfterSet(LruCache.AfterSet(Empty(), maxSize, k1, v1), maxSize, k2, v2), maxSize, k3, v3)
         == LruCache.Snapshot([k3, k2, k1], map[k1 := v1, k2 := v2, k3 := v3])
  {
    var s1 := LruCache.AfterSet(Empty(), maxSize, k1, v1);
    assert s1 == LruCache.Snapshot([k1], map[k1 := v1]);
    var s2 := LruCache.AfterSet(s1, maxSize, k2, v2);
    assert s2 == LruCache.Snapshot([k2, k1], map[k1 := v1, k2 := v2]);
  }

  /** In a full cache of three keys, reading the oldest and then writing a
    * new key evicts the key that was in the middle. */
  lemma ReadOldestThenWrite<V>(k1: string, k2: string, k3: string, k4: string, m: map<string, V>, v4: V)
    requires k1 != k2 && k1 != k3 && k1 != k4 && k2 != k3 && k2 != k4 && k3 != k4
    requires m.Keys == {k1, k2, k3}
    ensures LruCache.AfterSet(LruCache.AfterGet(LruCache.Snapshot([k3, k2, k1], m), k1), 3, k4, v4)
         == LruCache.Snapshot([k4, k1, k3], m[k4 := v4] - {k2})
  {
    ReadOldestOfThree(k3, k2, k1, m);
    WriteIntoFullThree(k1, k3, k2, k4, m, v4);
  }

  /** Reading the oldest of three keys makes it the most recent. */
  lemma ReadOldestOfThree<V>(a: string, b: string, c: string, m: map<string, V>)
    requires a != b && a != c && b != c && c in m
    ensures LruCache.AfterGet(LruCache.Snapshot([a, b, c], m), c) == LruCache.Snapshot([c, a, b], m)
  {
    assert Without([a, b, c], c) == [a, b] by {
      assert [a, b, c][1..] == [b, c];
      assert [b, c][1..] == [c];
    }
  }

  /** Writing a new key into a cache of three at its bound evicts the
    * oldest. */
  lemma WriteIntoFullThree<V>(a: string, b: string, c: string, d: string, m: map<string, V>, v: V)
    requires d !in m
    ensures LruCache.AfterSet(LruCache.Snapshot([a, b, c], m), 3, d, v) == LruCache.Snapshot([d, a, b], m[d := v] - {c})
  {
    var pushed := LruCache.Snapshot([d] + [a, b, c], m[d := v]);
    assert LruCache.AfterSet(LruCache.Snapshot([a, b, c], m), 3, d, v) == LruCache.AfterEvict(pushed);
    assert pushed.order[..3] == [d, a, b];
  }

  /** Insert three keys, read the oldest, insert a fourth: the key least
    * recently used is evicted, the one just read survives; an overwrite is
    * read back. */
  lemma SimpleLruCache<V>(k1: string, k2: string, k3: string, k4: string, v1: V, v2: V, v3: V, v4: V, w3: V)
    requires k1 != k2 && k1 != k3 && k1 != k4 && k2 != k3 && k2 != k4 && k3 != k4
    ensures var s3 := LruCache.AfterSet(LruCache.AfterSet(LruCache.AfterSet(Empty(), 3, k1, v1), 3, k2, v2), 3, k3, v3);
      var s5 := LruCache.AfterSet(LruCache.AfterGet(s3, k1), 3, k4, v4);
      var s7 := LruCache.AfterSet(LruCache.AfterGet(s5, k2), 3, k3, w3);
      && LruCache.Lookup(s3, k1) == Some(v1)
      && LruCache.Lookup(s5, k2) == None
      && s5.order == [k4, k1, k3]
      && LruCache.Lookup(s7, k3) == Some(w3)
  {
    var m := map[k1 := v1, k2 := v2, k3 := v3];
    ThreeWrites(3, k1, k2, k3, v1, v2, v3);
    ReadOldestThenWrite(k1, k2, k3, k4, m, v4);
  }

  /** Without a read in between, a fourth write into a cache of three evicts
    * the first key written; the other three hit. */
  lemma FourWritesEvictFirst<V>(k1: string, k2: string, k3: string, k4: string, v1: V, v2: V, v3: V, v4: V)
    requires k1 != k2 && k1 != k3 && k1 != k4 && k2 != k3 && k2 != k4 && k3 != k4
    ensures var s3 := LruCache.AfterSet(LruCache.AfterSet(LruCache.AfterSet(Empty(), 3, k1, v1), 3, k2, v2), 3, k3, v3);
      var s4 := LruCache.AfterSet(s3, 3, k4, v4);
      && LruCache.Lookup(s4, k1) == None
      && LruCache.Lookup(s4, k2) == Some(v2)
      && LruCache.Lookup(s4, k3) == Some(v3)
      && LruCache.Lookup(s4, k4) == Some(v4)
  {
    ThreeWrites(3, k1, k2, k3, v1, v2, v3);
    var pushed := LruCache.Snapshot([k4] + [k3, k2, k1], map[k1 := v1, k2 := v2, k3 := v3, k4 := v4]);
    assert pushed.order[3] == k1;
  }

  /** Writing one key twice keeps one key, holding the second value. */
  lemma OverwriteKeepsOneKey<V>(k: string, v1: V, v2: V)
    ensures var s := LruCache.AfterSet(LruCache.AfterSet(Empty(), 3, k, v1), 3, k, v2);
      && LruCache.Lookup(s, k) == Some(v2)
      && s.order == [k]
      && s.store.Keys == {k}
  {
    assert Without([k], k) == [];
  }

  /** With room for two keys, reading the older one makes the other the
    * one evicted by the next insertion. */
  lemma SimpleLruEvictionOrder(k1: string, k2: string, k3: string)
    requires k1 != k2 && k1 != k3 && k2 != k3
    ensures var s2 := LruCache.AfterSet(LruCache.AfterSet(Empty(), 2, k1, "value1"), 2, k2, "value2");
      var s4 := LruCache.AfterSet(LruCache.AfterGet(s2, k1), 2, k3, "value3");
      && LruCache.Lookup(s4, k2) == None
      && LruCache.Lookup(LruCache.AfterGet(s4, k2), k1) == Some("value1")
  {
    var s2 := LruCache.AfterSet(LruCache.AfterSet(Empty(), 2, k1, "value1"), 2, k2, "value2");
    assert s2.order == [k2, k1];
    assert Without([k2, k1], k1) == [k2] by {
      assert [k2, k1][1..] == [k1];
    }
    assert [k3, k1, k2][..2] == [k3, k1];
  }

  /** A deleted key misses; the other key keeps its value. */
  lemma SimpleLruDelete(k1: string, k2: string)
    requires k1 != k2
    ensures var s := LruCache.AfterDelete(LruCache.AfterSet(LruCache.AfterSet(Empty(), 3, k1, "value1"), 3, k2, "value2"), k1);
      && LruCache.Lookup(s, k1) == None
      && LruCache.Lookup(LruCache.AfterGet(s, k1), k2) == Some("value2")
  {
  }

  /** With a two-second time to live: eviction as in the plain cache, a miss
    * for an entry read three seconds after it was written, and an overwrite
    * read back. The clock is past the epoch. */
  lemma LruCacheWithTtl<V>(k1: string, k2: string, k3: string, k4: string, k5: string,
                           v1: V, v2: V, v3: V, v4: V, v5: V, w5: V, start: int)
    requires k1 != k2 && k1 != k3 && k1 != k4 && k2 != k3 && k2 != k4 && k3 != k4
    requires k5 != k1 && k5 != k2 && k5 != k3 && k5 != k4
    requires start > 0
    ensures var second := 1_000_000_000;
      var ttl := 2 * second;
      var later := start + 3 * second;
      var s3 := LruCacheTtl.AfterSet(LruCacheTtl.AfterSet(LruCacheTtl.AfterSet(Empty(), 3, ttl, start, k1, v1), 3, ttl, start, k2, v2), 3, ttl, start, k3, v3);
      var s5 := LruCacheTtl.AfterSet(LruCacheTtl.AfterGet(s3, k1, start), 3, ttl, start, k4, v4);
      var s6 := LruCacheTtl.AfterGet(s5, k2, start);
      var s7 := LruCacheTtl.AfterGet(s6, k1, later);
      var s9 := LruCacheTtl.AfterSet(LruCacheTtl.AfterSet(s7, 3, ttl, later, k5, v5), 3, ttl, later, k5, w5);
      && LruCacheTtl.Lookup(s3, k1, start) == Some(v1)
      && LruCacheTtl.Lookup(s5, k2, start) == None
      && LruCacheTtl.Lookup(s6, k1, later) == None
      && LruCacheTtl.Lookup(s9, k5, later) == Some(w5)
  {
    var ttl := 2 * 1_000_000_000;
    var later := start + 3 * 1_000_000_000;
    var s3 := LruCacheTtl.AfterSet(LruCacheTtl.AfterSet(LruCacheTtl.AfterSet(Empty(), 3, ttl, start, k1, v1), 3, ttl, start, k2, v2), 3, ttl, start, k3, v3);
    TtlWritesThenRead(k1, k2, k3, k4, v1, v2, v3, v4, ttl, start);
    var e := (v: V) => LruCacheTtl.CacheEntry(v, start + ttl);
    var s5 := LruCache.Snapshot([k4, k1, k3], map[k1 := e(v1), k2 := e(v2), k3 := e(v3)][k4 := e(v4)] - {k2});
    assert LruCacheTtl.AfterSet(LruCacheTtl.AfterGet(s3, k1, start), 3, ttl, start, k4, v4) == s5;
    assert LruCacheTtl.AfterGet(s5, k2, start) == s5;
    ExpireThenWriteTwice(k4, k1, k3, k5, s5.store, v5, w5, ttl, later);
  }

  /** The first part of the test with a time to live: three writes, a read of
    * the oldest key and a fourth write, all at the same time, act as in the
    * plain cache, every entry carrying the stamp `start + ttl`. */
  lemma TtlWritesThenRead<V>(k1: string, k2: string, k3: string, k4: string, v1: V, v2: V, v3: V, v4: V, ttl: int, start: int)
    requires k1 != k2 && k1 != k3 && k1 != k4 && k2 != k3 && k2 != k4 && k3 != k4
    requires ttl > 0
    ensures var e := (v: V) => LruCacheTtl.CacheEntry(v, start + ttl);
      var m := map[k1 := e(v1), k2 := e(v2), k3 := e(v3)];
      var s3 := LruCacheTtl.AfterSet(LruCacheTtl.AfterSet(LruCacheTtl.AfterSet(Empty(), 3, ttl, start, k1, v1), 3, ttl, start, k2, v2), 3, ttl, start, k3, v3);
      && s3 == LruCache.Snapshot([k3, k2, k1], m)
      && LruCacheTtl.AfterSet(LruCacheTtl.AfterGet(s3, k1, start), 3, ttl, start, k4, v4)
         == LruCache.Snapshot([k4, k1, k3], m[k4 := e(v4)] - {k2})
  {
    var e := (v: V) => LruCacheTtl.CacheEntry(v, start + ttl);
    var m := map[k1 := e(v1), k2 := e(v2), k3 := e(v3)];
    ThreeWrites(3, k1, k2, k3, e(v1), e(v2), e(v3));
    var s3 := LruCache.Snapshot([k3, k2, k1], m);
    assert LruCacheTtl.AfterGet(s3, k1, start) == LruCache.AfterGet(s3, k1);
    ReadOldestThenWrite(k1, k2, k3, k4, m, e(v4));
  }

  /** In a full cache of three keys, a read of an expired key frees its slot,
    * so writing a new key twice evicts nothing: the two keys that were live
    * stay, behind the new one, and its second value is read back. */
  lemma ExpireThenWriteTwice<V>(k4: string, k1: string, k3: string, k5: string, m: map<string, LruCacheTtl.CacheEntry<V>>,
                                v5: V, w5: V, ttl: int, now: int)
    requires k1 != k3 && k1 != k4 && k3 != k4 && k5 != k1 && k5 != k3 && k5 != k4
    requires m.Keys == {k4, k1, k3} && LruCacheTtl.Expired(m[k1], now)
    ensures var s7 := LruCacheTtl.AfterGet(LruCache.Snapshot([k4, k1, k3], m), k1, now);
      var s9 := LruCacheTtl.AfterSet(LruCacheTtl.AfterSet(s7, 3, ttl, now, k5, v5), 3, ttl, now, k5, w5);
      && LruCacheTtl.Lookup(s9, k5, now) == Some(w5)
      && s9.order == [k5, k4, k3]
      && s9.store.Keys == {k5, k4, k3}
  {
    assert Without([k4, k1, k3], k1) == [k4, k3] by {
      assert [k4, k1, k3][1..] == [k1, k3];
      assert [k1, k3][1..] == [k3];
    }
    var s7 := LruCache.Snapshot([k4, k3], m - {k1});
    assert LruCacheTtl.AfterGet(LruCache.Snapshot([k4, k1, k3], m), k1, now) == s7;
    var s8 := LruCacheTtl.AfterSet(s7, 3, ttl, now, k5, v5);
    assert s8 == LruCache.Snapshot([k5] + [k4, k3], s7.store[k5 := LruCacheTtl.CacheEntry(v5, LruCacheTtl.ExpirationTime(now, ttl))]);
    assert Without([k5, k4, k3], k5) == [k4, k3];
    var s9 := LruCacheTtl.AfterSet(s8, 3, ttl, now, k5, w5);
    assert s9.store[k5] == LruCacheTtl.CacheEntry(w5, LruCacheTtl.ExpirationTime(now, ttl));
  }

  /** The eviction-order scenario on the cache with a time to live. */
  lemma TtlEvictionOrder(k1: string, k2: string, k3: string, start: int)
    requires k1 != k2 && k1 != k3 && k2 != k3
    ensures var ttl := 5 * 1_000_000_000;
      var s2 := LruCacheTtl.AfterSet(LruCacheTtl.AfterSet(Empty(), 2, ttl, start, k1, "value1"), 2, ttl, start, k2, "value2");
      var s4 := LruCacheTtl.AfterSet(LruCacheTtl.AfterGet(s2, k1, start), 2, ttl, start, k3, "value3");
      && LruCacheTtl.Lookup(s4, k2, start) == None
      && LruCacheTtl.Lookup(LruCacheTtl.AfterGet(s4, k2, start), k1, start) == Some("value1")
  {
    var ttl := 5 * 1_000_000_000;
    var s2 := LruCacheTtl.AfterSet(LruCacheTtl.AfterSet(Empty(), 2, ttl, start, k1, "value1"), 2, ttl, start, k2, "value2");
    assert s2.order == [k2, k1];
    assert Without([k2, k1], k1) == [k2] by {
      assert [k2, k1][1..] == [k1];
    }
    assert [k3, k1, k2][..2] == [k3, k1];
  }
}
