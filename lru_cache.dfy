/** `LruMemoryCache`: a key/value store bounded to `maxSize` keys, which
  * evicts the least recently used key when an insertion goes past the bound.
  *
  * The first half of the module says what the cache does on its observable
  * state, a `Snapshot`: the keys from most to least recently used and the
  * value stored under each. The class at the end keeps the three structures
  * of the Go type (value store, recency list, key index) and each of its
  * methods is proved to move the snapshot exactly as the function of the same
  * name says. The lemmas in between state the promises of the cache about
  * those functions. */
module LruCache {

  import opened Wrappers
  import opened Recency

  /** What a caller can observe: `order` lists the keys from most to least
    * recently used, `store` gives the value under each key. */
  datatype Snapshot<V> = Snapshot(order: seq<string>, store: map<string, V>)

  /** Three-way consistency: a key is stored iff the recency list holds it,
    * and the list holds no key twice. */
  ghost predicate Consistent<V>(s: Snapshot<V>)
  {
    NoDup(s.order) && forall k :: k in s.store <==> k in s.order
  }

  /** The capacity bound: with a positive `maxSize` the list is no longer
    * than `maxSize`; with `maxSize <= 0` nothing is bounded. */
  ghost predicate WithinCapacity<V>(s: Snapshot<V>, maxSize: int)
  {
    maxSize > 0 ==> |s.order| <= maxSize
  }

  /** `evictOldest`: the key at the back of the list loses its value and its
    * node; on an empty list nothing happens. */
  function AfterEvict<V>(s: Snapshot<V>): (r: Snapshot<V>)
    ensures r.order <= s.order
    ensures s.order != [] ==> |r.order| == |s.order| - 1 && s.order[|s.order| - 1] !in r.store
    ensures r.store.Keys <= s.store.Keys
  {
    if s.order == [] then s
    else Snapshot(s.order[..|s.order| - 1], s.store - {s.order[|s.order| - 1]})
  }

  /** `Set`: a stored key gets the new value and moves to the front; a new key
    * is stored and pushed onto the front, and if the list then exceeds a
    * positive `maxSize` the back is evicted. */
  function AfterSet<V>(s: Snapshot<V>, maxSize: int, key: string, value: V): (r: Snapshot<V>)
    ensures |r.order| > 0 && r.order[0] == key
    ensures r.store.Keys <= s.store.Keys + {key}
    ensures maxSize <= 0 || |s.order| < maxSize ==> r.store.Keys == s.store.Keys + {key}
  {
    if key in s.store then
      Snapshot(Touch(s.order, key), s.store[key := value])
    else
      var pushed := Snapshot([key] + s.order, s.store[key := value]);
      if maxSize > 0 && |pushed.order| > maxSize then AfterEvict(pushed) else pushed
  }

  /** What `Get` returns. */
  function Lookup<V>(s: Snapshot<V>, key: string): (r: Option<V>)
    ensures r.Some? <==> key in s.store
    ensures r.Some? ==> r.value == s.store[key]
  {
    if key in s.store then Some(s.store[key]) else None
  }

  /** The state after `Get`: a stored key moves to the front. */
  function AfterGet<V>(s: Snapshot<V>, key: string): (r: Snapshot<V>)
    ensures r.store == s.store
    ensures key in s.store ==> |r.order| > 0 && r.order[0] == key && Without(r.order, key) == Without(s.order, key)
    ensures key !in s.store ==> r == s
  {
    if key in s.store then Snapshot(Touch(s.order, key), s.store) else s
  }

  /** The state after `Delete`: a stored key loses its value and its node. */
  function AfterDelete<V>(s: Snapshot<V>, key: string): (r: Snapshot<V>)
    ensures key !in r.store && r.store.Keys == s.store.Keys - {key}
    ensures key in s.store ==> key !in r.order
  {
    if key in s.store then Snapshot(Without(s.order, key), s.store - {key}) else s
  }

  // ---------------------------------------------------------------------
  // Invariants kept by every operation

  /** Dropping the back of a list without duplicates drops that key entirely. */
  lemma EvictKeepsConsistent<V>(s: Snapshot<V>)
    requires Consistent(s)
    ensures Consistent(AfterEvict(s))
    ensures |AfterEvict(s).order| == if s.order == [] then 0 else |s.order| - 1
    ensures forall k :: k in AfterEvict(s).store ==> AfterEvict(s).store[k] == s.store[k]
  {
    if s.order != [] {
      var n := |s.order|;
      var back := s.order[n - 1];
      assert forall j :: 0 <= j < n - 1 ==> s.order[j] != back;
      assert back !in s.order[..n - 1];
    }
  }

  /** `Set` keeps three-way consistency and the capacity bound. */
  lemma SetKeepsInvariant<V>(s: Snapshot<V>, maxSize: int, key: string, value: V)
    requires Consistent(s) && WithinCapacity(s, maxSize)
    ensures Consistent(AfterSet(s, maxSize, key, value))
    ensures WithinCapacity(AfterSet(s, maxSize, key, value), maxSize)
  {
    if key !in s.store {
      var pushed := Snapshot([key] + s.order, s.store[key := value]);
      assert Consistent(pushed);
      EvictKeepsConsistent(pushed);
    }
  }

  /** `Get` keeps three-way consistency and the capacity bound. */
  lemma GetKeepsInvariant<V>(s: Snapshot<V>, maxSize: int, key: string)
    requires Consistent(s) && WithinCapacity(s, maxSize)
    ensures Consistent(AfterGet(s, key)) && WithinCapacity(AfterGet(s, key), maxSize)
  {
  }

  /** `Delete` keeps three-way consistency and the capacity bound. */
  lemma DeleteKeepsInvariant<V>(s: Snapshot<V>, maxSize: int, key: string)
    requires Consistent(s) && WithinCapacity(s, maxSize)
    ensures Consistent(AfterDelete(s, key)) && WithinCapacity(AfterDelete(s, key), maxSize)
  {
  }

  // ---------------------------------------------------------------------
  // Set

  /** `Set` of a stored key replaces its value and makes it the most recent;
    * the key count and the order of the other keys do not change. */
  lemma SetStoredKey<V>(s: Snapshot<V>, maxSize: int, key: string, value: V)
    requires Consistent(s) && key in s.store
    ensures var r := AfterSet(s, maxSize, key, value);
      && r.store == s.store[key := value]
      && r.order[0] == key
      && |r.order| == |s.order|
      && Without(r.order, key) == Without(s.order, key)
  {
  }

  /** `Set` of a new key stores it at the front. At most one key is evicted,
    * only the back one and never the new one, and only when the list was
    * already at a positive `maxSize`; the others keep their order. */
  lemma SetNewKey<V>(s: Snapshot<V>, maxSize: int, key: string, value: V)
    requires Consistent(s) && WithinCapacity(s, maxSize) && key !in s.store
    ensures var r := AfterSet(s, maxSize, key, value);
      && key in r.store && r.store[key] == value
      && r.order[0] == key
      && (forall k :: k in s.store && k != key ==>
            (k in r.store <==> k != s.order[|s.order| - 1] || r.order == [key] + s.order))
      && (forall k :: k in r.store && k != key ==> k in s.store && r.store[k] == s.store[k])
      && (if maxSize > 0 && |s.order| == maxSize
          then r.order == [key] + s.order[..|s.order| - 1]
          else r.order == [key] + s.order)
  {
    var pushed := Snapshot([key] + s.order, s.store[key := value]);
    if maxSize > 0 && |pushed.order| > maxSize {
      EvictKeepsConsistent(pushed);
      assert ([key] + s.order)[..|pushed.order| - 1] == [key] + s.order[..|s.order| - 1];
    }
  }

  /** Once the cache is full, inserting a new key leaves it exactly full and
    * removes exactly the least recently used key. */
  lemma SetWhenFull<V>(s: Snapshot<V>, maxSize: int, key: string, value: V)
    requires Consistent(s) && key !in s.store
    requires maxSize > 0 && |s.order| == maxSize
    ensures var r := AfterSet(s, maxSize, key, value);
      && |r.order| == maxSize
      && s.order[maxSize - 1] !in r.store
      && r.store.Keys == s.store.Keys - {s.order[maxSize - 1]} + {key}
  {
    SetNewKey(s, maxSize, key, value);
    var r := AfterSet(s, maxSize, key, value);
    SetKeepsInvariant(s, maxSize, key, value);
    assert s.order[maxSize - 1] !in r.order;
  }

  /** A `Get` right after a `Set` of the same key returns the value set. */
  lemma GetAfterSet<V>(s: Snapshot<V>, maxSize: int, key: string, value: V)
    requires Consistent(s) && WithinCapacity(s, maxSize)
    ensures Lookup(AfterSet(s, maxSize, key, value), key) == Some(value)
  {
    if key !in s.store {
      SetNewKey(s, maxSize, key, value);
    }
  }

  /** With `maxSize <= 0` nothing is ever evicted: a `Set` keeps every key. */
  lemma UnboundedNeverEvicts<V>(s: Snapshot<V>, maxSize: int, key: string, value: V)
    requires Consistent(s) && maxSize <= 0
    ensures AfterSet(s, maxSize, key, value).store.Keys == s.store.Keys + {key}
  {
  }

  // ---------------------------------------------------------------------
  // Get

  /** `Get` of a stored key returns its value and makes it the most recent;
    * the store and the order of the other keys do not change. */
  lemma GetStoredKey<V>(s: Snapshot<V>, key: string)
    requires Consistent(s) && key in s.store
    ensures Lookup(s, key) == Some(s.store[key])
    ensures var r := AfterGet(s, key);
      && r.store == s.store
      && r.order[0] == key
      && |r.order| == |s.order|
      && Without(r.order, key) == Without(s.order, key)
  {
  }

  /** `Get` of an absent key reports a miss and changes nothing. */
  lemma GetAbsentKey<V>(s: Snapshot<V>, key: string)
    requires key !in s.store
    ensures Lookup(s, key) == None && AfterGet(s, key) == s
  {
  }

  /** A read protects a key from the next eviction: in a cache that holds
    * more than one key, after a `Get` of a stored key, inserting a new key
    * does not evict it. */
  lemma GetPromotes<V>(s: Snapshot<V>, maxSize: int, key: string, other: string, value: V)
    requires Consistent(s) && WithinCapacity(s, maxSize) && maxSize != 1
    requires key in s.store && other !in s.store
    ensures key in AfterSet(AfterGet(s, key), maxSize, other, value).store
  {
    var g := AfterGet(s, key);
    GetKeepsInvariant(s, maxSize, key);
    SetNewKey(g, maxSize, other, value);
    if |g.order| > 1 {
      assert g.order[|g.order| - 1] in Without(s.order, key);
    }
  }

  // ---------------------------------------------------------------------
  // Delete

  /** `Delete` of a stored key removes it from store and list, so that a
    * later `Get` misses; the other keys keep their values and order.
    * `Delete` of an absent key changes nothing. */
  lemma DeleteRemoves<V>(s: Snapshot<V>, key: string)
    requires Consistent(s)
    ensures var r := AfterDelete(s, key);
      && key !in r.store && key !in r.order
      && Lookup(r, key) == None
      && r.order == Without(s.order, key)
      && (forall k :: k != key ==> Lookup(r, k) == Lookup(s, k))
      && (key !in s.store ==> r == s)
  {
  }

  // ---------------------------------------------------------------------
  // The cache object

  /** The Go type `LruMemoryCache`. The `sync.Map` store becomes an ordinary
    * map and the mutex is left out: every public method holds it for its
    * whole body, so each runs as one sequential step. */
  class LruMemoryCache<V> {
    var store: map<string, V>
    var keyToElement: map<string, Element>
    var order: seq<Element>
    /** Numbers the nodes `PushFront` allocates. */
    var nextId: nat
    const maxSize: int

    /** The three structures agree and the capacity bound holds. */
    ghost predicate Valid()
      reads this
    {
      && Indexed(order, keyToElement)
      && store.Keys == keyToElement.Keys
      && (maxSize > 0 ==> |order| <= maxSize)
    }

    /** The snapshot this object represents. */
    ghost function View(): Snapshot<V>
      reads this
    {
      Snapshot(KeysOf(order), store)
    }

    /** The object invariant gives the snapshot's invariants. */
    lemma ValidView()
      requires Valid()
      ensures Consistent(View()) && WithinCapacity(View(), maxSize)
    {
      IndexedKeys(order, keyToElement);
    }

    /** `NewLruMemoryCache`: an empty store, an empty index, an empty list. */
    constructor (maxSize: int)
      ensures Valid() && this.maxSize == maxSize
      ensures store == map[] && keyToElement == map[] && order == []
      ensures View() == Snapshot([], map[])
    {
      store := map[];
      keyToElement := map[];
      order := [];
      nextId := 0;
      this.maxSize := maxSize;
    }

    method Set(key: string, value: V)
      requires Valid()
      modifies this
      ensures Valid()
      ensures View() == AfterSet(old(View()), maxSize, key, value)
    {
      ghost var before := View();
      IndexedKeys(order, keyToElement);
      if key in keyToElement {
        var elem := keyToElement[key];
        store := store[key := value];
        // MoveToFront(elem)
        var i :| 0 <= i < |order| && order[i] == elem;
        MoveToFrontIndexed(order, keyToElement, i);
        order := [elem] + order[..i] + order[i + 1..];
        assert View() == Snapshot(Touch(before.order, key), before.store[key := value]);
        return;
      }
      assert key !in before.store;
      store := store[key := value];
      // element := PushFront(key)
      var element := Element(nextId, key);
      nextId := nextId + 1;
      PushFrontIndexed(order, keyToElement, element);
      order := [element] + order;
      keyToElement := keyToElement[key := element];
      ghost var pushed := Snapshot([key] + before.order, before.store[key := value]);
      assert View() == pushed;
      if maxSize > 0 && |order| > maxSize {
        EvictOldest();
        assert View() == AfterEvict(pushed);
      }
    }

    method Get(key: string) returns (value: Option<V>)
      requires Valid()
      modifies this
      ensures Valid()
      ensures value == Lookup(old(View()), key)
      ensures View() == AfterGet(old(View()), key)
    {
      if key !in store {
        return None;
      }
      var v := store[key];
      if key in keyToElement {
        var elem := keyToElement[key];
        // MoveToFront(elem)
        var i :| 0 <= i < |order| && order[i] == elem;
        MoveToFrontIndexed(order, keyToElement, i);
        order := [elem] + order[..i] + order[i + 1..];
      }
      return Some(v);
    }

    method Delete(key: string)
      requires Valid()
      modifies this
      ensures Valid()
      ensures View() == AfterDelete(old(View()), key)
    {
      if key in store {
        store := store - {key};
        RemoveKey(key);
      }
    }

    /** Drops the back of the list from all three structures. `Set` calls it
      * right after a push, when the list is one past the bound. */
    method EvictOldest()
      requires Indexed(order, keyToElement) && store.Keys == keyToElement.Keys
      modifies this
      ensures Indexed(order, keyToElement) && store.Keys == keyToElement.Keys
      ensures View() == AfterEvict(old(View()))
      ensures |order| == if old(order) == [] then 0 else |old(order)| - 1
      ensures nextId == old(nextId)
    {
      if order != [] {
        var n := |order|;
        var oldest := order[n - 1];
        var key := oldest.key;
        store := store - {key};
        RemoveIndexed(order, keyToElement, n - 1);
        assert order[..n - 1] + order[n..] == order[..n - 1];
        assert KeysOf(order[..n - 1]) == KeysOf(order)[..n - 1];
        WithoutAt(KeysOf(order), n - 1);
        order := order[..n - 1];
        keyToElement := keyToElement - {key};
      }
    }

    /** Takes `key` out of the list and the index, if the index has it.
      * `Delete` calls it after removing the value, so the store is left
      * alone here. */
    method RemoveKey(key: string)
      requires Indexed(order, keyToElement)
      modifies this
      ensures Indexed(order, keyToElement)
      ensures keyToElement == old(keyToElement) - {key}
      ensures KeysOf(order) == Without(old(KeysOf(order)), key)
      ensures store == old(store) && nextId == old(nextId)
    {
      IndexedKeys(order, keyToElement);
      if key in keyToElement {
        var elem := keyToElement[key];
        // order.Remove(elem)
        var i :| 0 <= i < |order| && order[i] == elem;
        RemoveIndexed(order, keyToElement, i);
        order := order[..i] + order[i + 1..];
        keyToElement := keyToElement - {key};
      }
    }
  }
}
