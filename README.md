# LRU memory caches, modelled in Dafny

This project models the two in-process caches of the Go package `cache`:

- `LruMemoryCache` (`lrucache.go`) is a key/value store bounded to `maxSize` keys. When an insertion takes it past the bound, it evicts the least recently used key. A `maxSize` of zero or less means no bound.
- `LruMemoryCacheWithTtl` (`lrucahettl.go`) is the same cache, but each value carries an absolute expiration time. The stamp is taken from one cache-wide time to live when the value is written. Expiration is lazy: only `Get` looks at it, and an expired entry it finds is removed and reported as a miss.

Both caches keep three structures side by side:

- the value store, a `sync.Map`;
- the recency list, a `container/list` holding keys from most to least recently used;
- the key index, `keyToElement`, which maps each key to its list node.

The model has five files:

- `wrappers.dfy` holds `Option`, which stands for Go's `(value, ok)` pair.
- `recency.dfy` models the recency list and the key index. The list is the sequence of its nodes. A node is a value with an identity number and the key it holds. The file proves the list operations the caches use (`PushFront`, `MoveToFront`, `Remove`) together with the index update that goes with each. Each proof shows that the list and the index keep agreeing, and says what happens to the sequence of keys.
- `lru_cache.dfy` models the plain cache in two layers.
  - Pure functions on a `Snapshot` say what each operation does to the observable state: keys in recency order and the value under each.
  - Lemmas about those functions state the cache's promises: three-way consistency, the capacity bound, which key an insertion evicts, what a read returns and promotes, and what a delete removes.
  - The class `LruMemoryCache` has the Go type's fields and methods. Each method is proved to keep the object invariant and to move its snapshot exactly as the matching function says.
- `lru_cache_ttl.dfy` does the same for the cache with a time to live. It reuses the plain cache's functions with `CacheEntry` values.
- `scenarios.dfy` states the repository's test scenarios on the specification functions.

## Model

| member | source | states |
|---|---|---|
| Recency.Without | lrucache.go:97 | taking a key out of the recency keys leaves exactly the other keys; no duplicates appear; the list is one shorter when the key was there and unchanged when it was not |
| Recency.WithoutAt | lrucache.go:97 | in a list without duplicates, removing the node at position `i` removes exactly the key at `i`, and the keys before and after it stay in order |
| Recency.IndexedKeys | lrucache.go:11-12 | when the list and index agree, the index has exactly the keys the list holds |
| Recency.PushFrontIndexed | lrucache.go:44-45 | pushing a node for a new key and registering it in the index keeps list and index in agreement, and puts the key at the front of the key sequence |
| Recency.KeysOfRemoved | lrucache.go:97 | unlinking the node at position `i` leaves the keys before and after that position, in order |
| Recency.RemoveIndexed | lrucache.go:96-99 | unlinking a node and deleting its key from the index keeps them in agreement; the key sequence loses exactly that key |
| Recency.MoveToFrontIndexed | lrucache.go:38 | moving a node to the front keeps list and index in agreement, and makes its key the most recent with the other keys in their old order |
| LruCache.AfterEvict | lrucache.go:84-92 | eviction keeps a prefix of the recency list, one shorter when it was not empty; the back key leaves the store and no key is added |
| LruCache.AfterSet | lrucache.go:28-51 | after `Set` the written key is the most recent; no key other than it is added; below the bound (or with no bound) nothing is evicted and the key set grows by exactly that key |
| LruCache.Lookup | lrucache.go:54-70 | `Get` hits exactly when the key is stored, and then returns the stored value |
| LruCache.AfterGet | lrucache.go:54-70 | `Get` never changes the store; a hit becomes the most recent with the other keys in their old order; a miss changes nothing |
| LruCache.AfterDelete | lrucache.go:73-81 | after `Delete` the key is stored no longer and every other key still is; a key that was stored leaves the list too |
| LruCache.EvictKeepsConsistent | lrucache.go:84-92 | evicting the back of the list removes that key from both list and store, keeps three-way consistency, shortens the list by one (an empty cache is unchanged) and leaves every other value as it was |
| LruCache.SetKeepsInvariant | lrucache.go:28-51 | `Set` keeps three-way consistency (stored keys are exactly the listed keys, none listed twice) and the `maxSize` bound |
| LruCache.GetKeepsInvariant | lrucache.go:54-70 | `Get` keeps three-way consistency and the `maxSize` bound |
| LruCache.DeleteKeepsInvariant | lrucache.go:73-81 | `Delete` keeps three-way consistency and the `maxSize` bound |
| LruCache.SetStoredKey | lrucache.go:33-39 | `Set` of a stored key replaces its value and makes it the most recent; the key count and the order of the other keys do not change |
| LruCache.SetNewKey | lrucache.go:42-50 | `Set` of a new key stores it at the front; at most the back key is evicted, and only when the list was already at a positive `maxSize`; other values and the order of the others are kept |
| LruCache.SetWhenFull | lrucache.go:47-50 | inserting a new key into a full cache leaves it exactly full, evicts the least recently used key and no other, and adds the new key |
| LruCache.GetAfterSet | lrucache.go:28-70 | a `Get` right after a `Set` of the same key returns the value set, whatever the bound |
| LruCache.UnboundedNeverEvicts | lrucache.go:48 | with `maxSize <= 0` a `Set` never evicts: the stored keys only grow |
| LruCache.GetStoredKey | lrucache.go:59-69 | `Get` of a stored key returns its value and makes it the most recent, leaving the store and the order of the others unchanged |
| LruCache.GetAbsentKey | lrucache.go:59-62 | `Get` of an absent key reports a miss and changes nothing; this is the miss path of `Lookup` and `AfterGet`, which hold by their definitions |
| LruCache.GetPromotes | lrucache.go:64-67 | after a `Get` of a stored key, the next insertion of a new key does not evict it (unless `maxSize` is 1) |
| LruCache.DeleteRemoves | lrucache.go:77-80 | after `Delete` the key is in neither store nor list and `Get` misses; every other key reads as before; deleting an absent key changes nothing |
| LruCache.LruMemoryCache.ValidView | lrucache.go:9-15 | the object invariant (list and index agree, store and index have the same keys, the bound holds) gives three-way consistency and the bound on the snapshot |
| LruCache.LruMemoryCache.constructor | lrucache.go:18-25 | a new cache has an empty store, index and list, and the given `maxSize` |
| LruCache.LruMemoryCache.Set | lrucache.go:28-51 | keeps the object invariant and moves the snapshot as `AfterSet`: overwrite and move to front, or push and evict the back past the bound |
| LruCache.LruMemoryCache.Get | lrucache.go:54-70 | keeps the object invariant, returns the stored value or a miss, and moves a hit to the front |
| LruCache.LruMemoryCache.Delete | lrucache.go:73-81 | keeps the object invariant and removes a stored key from store, list and index |
| LruCache.LruMemoryCache.EvictOldest | lrucache.go:84-92 | removes the back of the list from all three structures, keeping list, index and store in agreement; an empty list is left alone |
| LruCache.LruMemoryCache.RemoveKey | lrucache.go:95-100 | unlinks the key's node and deletes it from the index when present; the store is untouched |
| LruCacheTtl.ExpirationTime | lrucahettl.go:129-134 | with a positive `ttl` the stamp lies exactly `ttl` after `now`; otherwise it is the never-expires sentinel `0` |
| LruCacheTtl.Expired | lrucahettl.go:84 | an entry with a stamp `<= 0` never expires; an expired entry's stamp is strictly before the clock |
| LruCacheTtl.ExpiryIsPermanent | lrucahettl.go:84 | an entry expired at one time stays expired at every later time |
| LruCacheTtl.AfterSet | lrucahettl.go:37-68 | after `Set` the written key is the most recent and, while stored, holds the new value with a stamp taken from `now`; below the bound nothing is evicted |
| LruCacheTtl.Lookup | lrucahettl.go:71-96 | `Get` hits exactly when the key is stored and its entry is not expired, and then returns the stored value; with the `Get` method's `value == Lookup(...)` this is the promise that no expired value is ever returned |
| LruCacheTtl.AfterGet | lrucahettl.go:71-96 | `Get` only ever removes keys, and changes no value; an expired hit removes exactly its key; a live hit keeps the store and becomes the most recent; a miss changes nothing |
| LruCacheTtl.EntryExpiry | lrucahettl.go:84 | an entry written at `now` is expired at `t` exactly when `ttl > 0`, the stamp `now + ttl` is positive, and `t` is strictly past the stamp |
| LruCacheTtl.ZeroTtlNeverExpires | lrucahettl.go:129-134 | with `ttl <= 0` every write stores the never-expires sentinel, and reads behave as in the plain cache at any time |
| LruCacheTtl.EntryLifetime | lrucahettl.go:37-96 | a `Get` at time `t` of a value just written returns it until `now + ttl` has passed, and misses after |
| LruCacheTtl.SetKeepsInvariant | lrucahettl.go:37-68 | `Set` keeps three-way consistency and the `maxSize` bound |
| LruCacheTtl.GetKeepsInvariant | lrucahettl.go:71-96 | `Get` keeps three-way consistency and the bound, on the expiring path too |
| LruCacheTtl.SetStoredKey | lrucahettl.go:42-53 | `Set` of a stored key replaces its value, restamps its expiration from `now` and makes it the most recent, without changing the key count or the others' order |
| LruCacheTtl.SetIgnoresExpiry | lrucahettl.go:37-68 | which keys `Set` keeps, and in what order, does not depend on the clock: expired but unread entries hold their place |
| LruCacheTtl.SetWhenFull | lrucahettl.go:55-68 | a new key in a full cache evicts exactly the least recently used key, live or expired, and leaves every other entry as it was |
| LruCacheTtl.GetExpired | lrucahettl.go:83-88 | `Get` of an expired entry misses and removes the key from store and list; the others keep their entries and order |
| LruCacheTtl.GetLive | lrucahettl.go:84-95 | `Get` of an entry that is not expired (any stamp `<= 0`, or a clock not past the stamp) returns its value and makes it the most recent, leaving the store and the others' order unchanged |
| LruCacheTtl.DeleteRemoves | lrucahettl.go:99-107 | after `Delete` the key is gone from store and list and misses at any time; every other key reads as before; deleting an absent key changes nothing |
| LruCacheTtl.LruMemoryCacheWithTtl.ValidView | lrucahettl.go:16-23 | the object invariant gives three-way consistency and the bound on the snapshot |
| LruCacheTtl.LruMemoryCacheWithTtl.constructor | lrucahettl.go:26-34 | a new cache is empty and has the given `maxSize` and `ttl` |
| LruCacheTtl.LruMemoryCacheWithTtl.Set | lrucahettl.go:37-68 | keeps the object invariant and moves the snapshot as `AfterSet`, with the entry stamped from `now` |
| LruCacheTtl.LruMemoryCacheWithTtl.Get | lrucahettl.go:71-96 | keeps the object invariant; returns a live value and moves it to the front, or misses and removes an expired entry |
| LruCacheTtl.LruMemoryCacheWithTtl.Delete | lrucahettl.go:99-107 | keeps the object invariant and removes a stored key from store, list and index |
| LruCacheTtl.LruMemoryCacheWithTtl.EvictOldest | lrucahettl.go:110-118 | removes the back of the list from all three structures whether or not it has expired |
| LruCacheTtl.LruMemoryCacheWithTtl.RemoveKey | lrucahettl.go:121-126 | unlinks the key's node and deletes it from the index when present; the store is untouched |
| Scenarios.ThreeWrites | lrucache_test.go:14-16 | three writes of distinct keys into an empty cache give the keys in reverse order of writing, with their values |
| Scenarios.ReadOldestThenWrite | lrucache_test.go:18-25 | in a full cache of three, reading the oldest key and then writing a new one evicts the middle key |
| Scenarios.ReadOldestOfThree | lrucache_test.go:18-20 | reading the oldest of three keys makes it the most recent, the others keeping their order |
| Scenarios.WriteIntoFullThree | lrucache_test.go:23-24 | writing a new key into a cache at its bound of three evicts the oldest key |
| Scenarios.SimpleLruCache | lrucache_test.go:10-35 | the test's sequence: the first key hits, the second is evicted after the read and the fourth write, and an overwrite reads back the new value |
| Scenarios.FourWritesEvictFirst | lrucache.go:47-50 | with no read in between, a fourth write into a cache of three evicts the first key written, and the other three hit |
| Scenarios.OverwriteKeepsOneKey | lrucache.go:33-39 | writing one key twice leaves one key holding the second value |
| Scenarios.SimpleLruEvictionOrder | lrucache_test.go:37-52 | with room for two, reading the older key makes the other the one evicted, and the read key keeps its value |
| Scenarios.SimpleLruDelete | lrucache_test.go:54-68 | a deleted key misses and the other keeps its value |
| Scenarios.LruCacheWithTtl | lrucahettl_test.go:11-44 | the test's sequence with a two-second time to live: LRU eviction as in the plain cache, a miss three seconds later, and an overwrite read back |
| Scenarios.TtlWritesThenRead | lrucahettl_test.go:14-28 | three writes, a read of the oldest and a fourth write at one time act as in the plain cache, every entry stamped `start + ttl` |
| Scenarios.ExpireThenWriteTwice | lrucahettl_test.go:30-43 | reading an expired key in a full cache frees its slot: writing a new key twice then evicts nothing, the cache holds the new key in front of the two live ones, and the second value is read back |
| Scenarios.TtlEvictionOrder | lrucahettl_test.go:46-61 | the eviction-order scenario on the cache with a time to live |

## Left out

- Concurrency. The `sync.Mutex` and the thread safety of `sync.Map` are not modelled. Every public method holds the mutex for its whole body, so each is modelled as one sequential step and the store is an ordinary map.
- The wall clock. `time.Now()` is the parameter `now`, in integer nanoseconds, on the TTL cache's `Set` and `Get`. `time.Sleep` in the tests becomes a later `now`.
- Integer width. `int64` nanosecond stamps and `int` sizes are unbounded integers. An overflow of `now + ttl`, or of `UnixNano` past the year 2262, is not modelled. The model keeps the source's rule that an entry whose stamp `now + ttl` is `<= 0` never expires, as in the source.
- Pointers and `container/list` internals. A node pointer is a value with an identity number (`nextId` hands out new ones). The list is a sequence that each method reassigns, and finding a node's position is a choice over the sequence, not a pointer dereference. Aliasing of nodes and the O(1) cost of the list operations are not captured.
- Dynamic typing. Values are a type parameter `V` instead of `any`. The type assertions `oldest.Value.(string)` and `value.(*CacheEntry)` are not modelled, because the model's types make them always succeed. `nil, false` is `None`.
- Benchmarks (`BenchmarkSimpleLRUCacheSet`, `BenchmarkSimpleLRUCacheGet`, `BenchmarkLRUCacheSet`, `BenchmarkLRUCacheGet`). They measure speed and have no functional content.
- LruCache.GetPromotes: states nothing for `maxSize == 1`. In that case the key just read is the only one held, so the next insertion evicts it.

## Notes

With no read in between, a fourth write into a cache of three evicts the first key written (`Scenarios.FourWritesEvictFirst`).
