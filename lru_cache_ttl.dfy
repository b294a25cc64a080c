/** `LruMemoryCacheWithTtl`: the LRU cache of module `LruCache` whose values
  * carry an absolute expiration time, fixed when they are written from a
  * single cache-wide time to live. Expiration is lazy: only `Get` looks at
  * it, and an expired entry it finds is removed and reported as a miss.
  *
  * The wall clock is a parameter: `now` is the value `time.Now()` would give,
  * in integer nanoseconds, and `ttl` is a `time.Duration` in nanoseconds. */
module LruCacheTtl {

  import opened Wrappers
  import opened Recency
  import LruCache

  /** A stored value and its expiration time; `0` means it never expires. */
  datatype CacheEntry<V> = CacheEntry(value: V, expiration: int)

  /** `getExpirationTime`: with a positive `ttl` the stamp lies exactly `ttl`
    * after `now`; otherwise it is the never-expires sentinel `0`. */
  function ExpirationTime(now: int, ttl: int): (stamp: int)
    ensures ttl > 0 ==> stamp > now && stamp - now == ttl
    ensures ttl <= 0 ==> stamp == 0
  {
    if ttl > 0 then now + ttl else 0
  }

  /** The test `Get` applies: an entry with a positive expiration time is
    * expired once the clock is strictly past it. */
  predicate Expired<V>(entry: CacheEntry<V>, now: int): (expired: bool)
    ensures entry.expiration <= 0 ==> !expired
    ensures expired ==> now > entry.expiration
  {
    entry.expiration > 0 && now > entry.expiration
  }

  /** The observable state: keys from most to least recently used, and the
    * entry under each. */
  type Snapshot<V> = LruCache.Snapshot<CacheEntry<V>>

  /** `Set` at time `now`: the plain cache's `Set` with a freshly stamped entry. */
  function AfterSet<V>(s: Snapshot<V>, maxSize: int, ttl: int, now: int, key: string, value: V): (r: Snapshot<V>)
    ensures |r.order| > 0 && r.order[0] == key
    ensures key in r.store ==> r.store[key] == CacheEntry(value, ExpirationTime(now, ttl))
    ensures maxSize <= 0 || |s.order| < maxSize ==> r.store.Keys == s.store.Keys + {key}
  {
    LruCache.AfterSet(s, maxSize, key, CacheEntry(value, ExpirationTime(now, ttl)))
  }

  /** What `Get` at time `now` returns. */
  function Lookup<V>(s: Snapshot<V>, key: string, now: int): (r: Option<V>)
    ensures r.Some? <==> key in s.store && !Expired(s.store[key], now)
    ensures r.Some? ==> r.value == s.store[key].value
  {
    if key in s.store && !Expired(s.store[key], now) then Some(s.store[key].value) else None
  }

  /** The state after `Get` at time `now`: an expired entry is removed as
    * `Delete` would remove it; a live one moves to the front. */
  function AfterGet<V>(s: Snapshot<V>, key: string, now: int): (r: Snapshot<V>)
    ensures r.store.Keys <= s.store.Keys
    ensures key in s.store && Expired(s.store[key], now) ==> r.store.Keys == s.store.Keys - {key}
    ensures key in s.store && !Expired(s.store[key], now) ==> r.store == s.store && |r.order| > 0 && r.order[0] == key
    ensures key !in s.store ==> r == s
  {
    if key !in s.store then s
    else if Expired(s.store[key], now) then LruCache.AfterDelete(s, key)
    else LruCache.AfterGet(s, key)
  }

  // ---------------------------------------------------------------------
  // Expiration

  /** An entry written at `now` is expired at time `t` exactly when the time
    * to live is positive, the stamp `now + ttl` is positive, and `t` is
    * strictly later than the stamp: at the stamp itself it is still live. */
  lemma EntryExpiry<V>(value: V, now: int, ttl: int, t: int)
    ensures Expired(CacheEntry(value, ExpirationTime(now, ttl)), t)
        <==> ttl > 0 && now + ttl > 0 && t > now + ttl
  {
  }

  /** Expiry is permanent: an entry expired at `now` stays expired at every
    * later time, since its stamp never changes until it is rewritten. */
  lemma ExpiryIsPermanent<V>(entry: CacheEntry<V>, now: int, later: int)
    requires Expired(entry, now) && later >= now
    ensures Expired(entry, later)
  {
  }

  /** Every stored entry carries the sentinel `0`: the state a cache with
    * `ttl <= 0` is always in. */
  ghost predicate NeverExpiring<V>(s: Snapshot<V>)
  {
    forall k :: k in s.store ==> s.store[k].expiration == 0
  }

  /** With `ttl <= 0` expiration never happens: every write stores the
    * sentinel, and every read behaves as in the plain cache. */
  lemma ZeroTtlNeverExpires<V>(s: Snapshot<V>, maxSize: int, ttl: int, now: int, key: string, value: V, t: int)
    requires ttl <= 0 && NeverExpiring(s)
    ensures NeverExpiring(AfterSet(s, maxSize, ttl, now, key, value))
    ensures NeverExpiring(AfterGet(s, key, t)) && NeverExpiring(LruCache.AfterDelete(s, key))
    ensures AfterGet(s, key, t) == LruCache.AfterGet(s, key)
    ensures Lookup(s, key, t) == if key in s.store then Some(s.store[key].value) else None
  {
    var e := CacheEntry(value, ExpirationTime(now, ttl));
    var pushed := LruCache.Snapshot([key] + s.order, s.store[key := e]);
    assert NeverExpiring(pushed);
  }

  /** The lifetime of a written entry: a `Get` of it at time `t` returns the
    * written value until `now + ttl` has passed, and misses after. */
  lemma EntryLifetime<V>(s: Snapshot<V>, maxSize: int, ttl: int, now: int, key: string, value: V, t: int)
    requires LruCache.Consistent(s) && LruCache.WithinCapacity(s, maxSize)
    ensures Lookup(AfterSet(s, maxSize, ttl, now, key, value), key, t)
         == if ttl > 0 && now + ttl > 0 && t > now + ttl then None else Some(value)
  {
    var e := CacheEntry(value, ExpirationTime(now, ttl));
    if key in s.store {
      LruCache.SetStoredKey(s, maxSize, key, e);
    } else {
      LruCache.SetNewKey(s, maxSize, key, e);
    }
    EntryExpiry(value, now, ttl, t);
  }

  // ---------------------------------------------------------------------
  // Invariants kept by every operation

  /** `Set` keeps three-way consistency and the capacity bound. */
  lemma SetKeepsInvariant<V>(s: Snapshot<V>, maxSize: int, ttl: int, now: int, key: string, value: V)
    requires LruCache.Consistent(s) && LruCache.WithinCapacity(s, maxSize)
    ensures LruCache.Consistent(AfterSet(s, maxSize, ttl, now, key, value))
    ensures LruCache.WithinCapacity(AfterSet(s, maxSize, ttl, now, key, value), maxSize)
  {
    LruCache.SetKeepsInvariant(s, maxSize, key, CacheEntry(value, ExpirationTime(now, ttl)));
  }

  /** `Get` keeps three-way consistency and the capacity bound, on the
    * expiring path too. */
  lemma GetKeepsInvariant<V>(s: Snapshot<V>, maxSize: int, key: string, now: int)
    requires LruCache.Consistent(s) && LruCache.WithinCapacity(s, maxSize)
    ensures LruCache.Consistent(AfterGet(s, key, now))
    ensures LruCache.WithinCapacity(AfterGet(s, key, now), maxSize)
  {
    LruCache.DeleteKeepsInvariant(s, maxSize, key);
    LruCache.GetKeepsInvariant(s, maxSize, key);
  }

  // ---------------------------------------------------------------------
  // Set

  /** `Set` of a stored key replaces its value, restamps its expiration from
    * `now` and makes it the most recent; the key count and the order of the
    * other keys do not change. */
  lemma SetStoredKey<V>(s: Snapshot<V>, maxSize: int, ttl: int, now: int, key: string, value: V)
    requires LruCache.Consistent(s) && key in s.store
    ensures var r := AfterSet(s, maxSize, ttl, now, key, value);
      && r.store == s.store[key := CacheEntry(value, ExpirationTime(now, ttl))]
      && r.order[0] == key
      && |r.order| == |s.order|
      && Without(r.order, key) == Without(s.order, key)
  {
    LruCache.SetStoredKey(s, maxSize, key, CacheEntry(value, ExpirationTime(now, ttl)));
  }

  /** `Set` never looks at the clock to decide what to keep: the keys kept,
    * their order, and so the key evicted, are the same whatever `now` is. An
    * expired entry nobody has read still holds its place and is evicted in
    * plain LRU order. */
  lemma SetIgnoresExpiry<V>(s: Snapshot<V>, maxSize: int, ttl: int, now1: int, now2: int, key: string, value: V)
    ensures AfterSet(s, maxSize, ttl, now1, key, value).order == AfterSet(s, maxSize, ttl, now2, key, value).order
    ensures AfterSet(s, maxSize, ttl, now1, key, value).store.Keys == AfterSet(s, maxSize, ttl, now2, key, value).store.Keys
  {
  }

  /** Inserting a new key into a full cache evicts exactly the least recently
    * used key, live or expired, and leaves every other entry, expired ones
    * included, where it was. */
  lemma SetWhenFull<V>(s: Snapshot<V>, maxSize: int, ttl: int, now: int, key: string, value: V)
    requires LruCache.Consistent(s) && key !in s.store
    requires maxSize > 0 && |s.order| == maxSize
    ensures var r := AfterSet(s, maxSize, ttl, now, key, value);
      && |r.order| == maxSize
      && s.order[maxSize - 1] !in r.store
      && r.order == [key] + s.order[..maxSize - 1]
      && (forall k :: k in s.store && k != s.order[maxSize - 1] ==> k in r.store && r.store[k] == s.store[k])
  {
    var e := CacheEntry(value, ExpirationTime(now, ttl));
    LruCache.SetWhenFull(s, maxSize, key, e);
    LruCache.SetNewKey(s, maxSize, key, e);
  }

  // ---------------------------------------------------------------------
  // Get

  /** `Get` of an expired entry reports a miss and removes the key from store
    * and list; every other key keeps its entry and its place in the order. */
  lemma GetExpired<V>(s: Snapshot<V>, key: string, now: int)
    requires LruCache.Consistent(s) && key in s.store && Expired(s.store[key], now)
    ensures Lookup(s, key, now) == None
    ensures var r := AfterGet(s, key, now);
      && key !in r.store && key !in r.order
      && r.order == Without(s.order, key)
      && r.store == s.store - {key}
  {
  }

  /** `Get` of a live entry (one that never expires, or whose expiration time
    * has not been passed) returns its value and makes it the most recent;
    * the store and the order of the other keys do not change. */
  lemma GetLive<V>(s: Snapshot<V>, key: string, now: int)
    requires LruCache.Consistent(s) && key in s.store
    requires !Expired(s.store[key], now)
    ensures Lookup(s, key, now) == Some(s.store[key].value)
    ensures var r := AfterGet(s, key, now);
      && r.store == s.store
      && r.order[0] == key
      && |r.order| == |s.order|
      && Without(r.order, key) == Without(s.order, key)
  {
    LruCache.GetStoredKey(s, key);
  }

  // ---------------------------------------------------------------------
  // Delete

  /** `Delete` of a stored key removes it so that a later `Get` misses at any
    * time; the other keys keep their entries and their order. `Delete` of an
    * absent key changes nothing. */
  lemma DeleteRemoves<V>(s: Snapshot<V>, key: string, now: int)
    requires LruCache.Consistent(s)
    ensures var r := LruCache.AfterDelete(s, key);
      && key !in r.store && key !in r.order
      && Lookup(r, key, now) == None
      && r.order == Without(s.order, key)
      && (forall k :: k != key ==> Lookup(r, k, now) == Lookup(s, k, now))
      && (key !in s.store ==> r == s)
  {
  }

  // ---------------------------------------------------------------------
  // The cache object

  /** The Go type `LruMemoryCacheWithTtl`, with the same three structures as
    * `LruCache.LruMemoryCache`; the store holds `CacheEntry` values. */
  class LruMemoryCacheWithTtl<V> {
    var store: map<string, CacheEntry<V>>
    var keyToElement: map<string, Element>
    var order: seq<Element>
    /** Numbers the nodes `PushFront` allocates. */
    var nextId: nat
    const maxSize: int
    const ttl: int

    /** The three structures agree and the capacity bound holds. */
    ghost predicate Valid()
      reads this
    {
      && Indexed(order, keyToElement)
      && store.Keys == keyToElement.Keys
      && (maxSize > 0 ==> |order| <= maxSize)
    }

    /** The snapshot this object represents. */
    ghost function View(): Snapshot<V>
      reads this
    {
      LruCache.Snapshot(KeysOf(order), store)
    }

    /** The object invariant gives the snapshot's invariants. */
    lemma ValidView()
      requires Valid()
      ensures LruCache.Consistent(View()) && LruCache.WithinCapacity(View(), maxSize)
    {
      IndexedKeys(order, keyToElement);
    }

    /** `NewLruMemoryCacheWithTtl`: an empty store, an empty index, an empty
      * list, and the given bound and time to live. */
    constructor (maxSize: int, ttl: int)
      ensures Valid() && this.maxSize == maxSize && this.ttl == ttl
      ensures store == map[] && keyToElement == map[] && order == []
      ensures View() == LruCache.Snapshot([], map[])
    {
      store := map[];
      keyToElement := map[];
      order := [];
      nextId := 0;
      this.maxSize := maxSize;
      this.ttl := ttl;
    }

    method Set(key: string, value: V, now: int)
      requires Valid()
      modifies this
      ensures Valid()
      ensures View() == AfterSet(old(View()), maxSize, ttl, now, key, value)
    {
      ghost var before := View();
      IndexedKeys(order, keyToElement);
      if key in keyToElement {
        var elem := keyToElement[key];
        var entry := CacheEntry(value, ExpirationTime(now, ttl));
        store := store[key := entry];
        // MoveToFront(elem)
        var i :| 0 <= i < |order| && order[i] == elem;
        MoveToFrontIndexed(order, keyToElement, i);
        order := [elem] + order[..i] + order[i + 1..];
        assert View() == LruCache.Snapshot(Touch(before.order, key), before.store[key := entry]);
        return;
      }
      assert key !in before.store;
      var entry := CacheEntry(value, ExpirationTime(now, ttl));
      store := store[key := entry];
      // element := PushFront(key)
      var element := Element(nextId, key);
      nextId := nextId + 1;
      PushFrontIndexed(order, keyToElement, element);
      order := [element] + order;
      keyToElement := keyToElement[key := element];
      ghost var pushed := LruCache.Snapshot([key] + before.order, before.store[key := entry]);
      assert View() == pushed;
      if maxSize > 0 && |order| > maxSize {
        EvictOldest();
        assert View() == LruCache.AfterEvict(pushed);
      }
    }

    method Get(key: string, now: int) returns (value: Option<V>)
      requires Valid()
      modifies this
      ensures Valid()
      ensures value == Lookup(old(View()), key, now)
      ensures View() == AfterGet(old(View()), key, now)
    {
      if key !in store {
        return None;
      }
      var entry := store[key];
      if entry.expiration > 0 && now > entry.expiration {
        store := store - {key};
        RemoveKey(key);
        return None;
      }
      if key in keyToElement {
        var elem := keyToElement[key];
        // MoveToFront(elem)
        var i :| 0 <= i < |order| && order[i] == elem;
        MoveToFrontIndexed(order, keyToElement, i);
        order := [elem] + order[..i] + order[i + 1..];
      }
      return Some(entry.value);
    }

    method Delete(key: string)
      requires Valid()
      modifies this
      ensures Valid()
      ensures View() == LruCache.AfterDelete(old(View()), key)
    {
      if key in store {
        store := store - {key};
        RemoveKey(key);
      }
    }

    /** Drops the back of the list from all three structures, whether or not
      * its entry has expired. */
    method EvictOldest()
      requires Indexed(order, keyToElement) && store.Keys == keyToElement.Keys
      modifies this
      ensures Indexed(order, keyToElement) && store.Keys == keyToElement.Keys
      ensures View() == LruCache.AfterEvict(old(View()))
      ensures |order| == if old(order) == [] then 0 else |old(order)| - 1
      ensures nextId == old(nextId)
    {
      if order != [] {
        var n := |order|;
        var oldest := order[n - 1];
        var key := oldest.key;
        store := store - {key};
        RemoveIndexed(order, keyToElement, n - 1);
        assert order[..n - 1] + order[n..] == order[..n - 1];
        assert KeysOf(order[..n - 1]) == KeysOf(order)[..n - 1];
        WithoutAt(KeysOf(order), n - 1);
        order := order[..n - 1];
        keyToElement := keyToElement - {key};
      }
    }

    /** Takes `key` out of the list and the index, if the index has it; the
      * store is left alone. */
    method RemoveKey(key: string)
      requires Indexed(order, keyToElement)
      modifies this
      ensures Indexed(order, keyToElement)
      ensures keyToElement == old(keyToElement) - {key}
      ensures KeysOf(order) == Without(old(KeysOf(order)), key)
      ensures store == old(store) && nextId == old(nextId)
    {
      IndexedKeys(order, keyToElement);
      if key in keyToElement {
        var elem := keyToElement[key];
        // order.Remove(elem)
        var i :| 0 <= i < |order| && order[i] == elem;
        RemoveIndexed(order, keyToElement, i);
        order := order[..i] + order[i + 1..];
        keyToElement := keyToElement - {key};
      }
    }
  }
}
