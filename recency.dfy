/** The recency list and the key index that both caches keep beside their
  * value store.
  *
  * Go's `container/list` is a doubly-linked list of nodes; here it is the
  * sequence of its nodes, front (most recently used) first. Each node holds
  * one key. The key index (`keyToElement`) maps a key to the node holding it.
  * The lemmas below are the three list operations the caches use
  * (`PushFront`, `MoveToFront`, `Remove`) together with the index update that
  * goes with each, stated on the keys the list holds. */
module Recency {

  /** A list node: `id` stands for the node's identity (its address in Go),
    * `key` is the value the node holds. */
  datatype Element = Element(id: nat, key: string)

  /** No element occurs twice. */
  ghost predicate NoDup<T>(s: seq<T>)
  {
    forall i, j :: 0 <= i < j < |s| ==> s[i] != s[j]
  }

  /** The key sequence `s` with `x` taken out; everything else stays, in the same order. */
  function Without(s: seq<string>, x: string): (r: seq<string>)
    ensures forall y :: y in r <==> y in s && y != x
    ensures x !in s ==> r == s
    ensures NoDup(s) ==> NoDup(r)
    ensures NoDup(s) && x in s ==> |r| == |s| - 1
  {
    if s == [] then []
    else if s[0] == x then Without(s[1..], x)
    else
      assert NoDup(s) ==> NoDup(s[1..]) && s[0] !in s[1..];
      [s[0]] + Without(s[1..], x)
  }

  /** `s` with `x` made the most recent: moved to the front if it is there,
    * pushed onto the front otherwise. */
  function Touch(s: seq<string>, x: string): seq<string>
  {
    [x] + Without(s, x)
  }

  /** The keys a list holds, front first. */
  function KeysOf(order: seq<Element>): seq<string>
  {
    seq(|order|, i requires 0 <= i < |order| => order[i].key)
  }

  /** The list and the key index agree: no key is held by two nodes, every
    * node is the one the index gives for its key, and every node the index
    * gives is in the list. */
  ghost predicate Indexed(order: seq<Element>, index: map<string, Element>)
  {
    && NoDup(KeysOf(order))
    && (forall i :: 0 <= i < |order| ==> order[i].key in index && index[order[i].key] == order[i])
    && (forall k :: k in index ==> index[k].key == k && index[k] in order)
  }

  /** Taking out the element at position `i` of a list without duplicates
    * leaves the elements before and after it, in order. */
  lemma {:induction false} WithoutAt(s: seq<string>, i: nat)
    requires NoDup(s) && i < |s|
    ensures Without(s, s[i]) == s[..i] + s[i + 1..]
  {
    if i == 0 {
      assert s[0] !in s[1..];
    } else {
      assert NoDup(s[1..]);
      WithoutAt(s[1..], i - 1);
      assert s[1..][i - 1] == s[i];
      assert s[0] != s[i];
      calc {
        Without(s, s[i]);
        [s[0]] + Without(s[1..], s[i]);
        [s[0]] + (s[1..][..i - 1] + s[1..][i..]);
        { assert s[1..][..i - 1] == s[1..i] && s[1..][i..] == s[i + 1..]; }
        s[..i] + s[i + 1..];
      }
    }
  }

  /** The keys of the index are exactly the keys the list holds, and there
    * are as many as there are nodes. */
  lemma IndexedKeys(order: seq<Element>, index: map<string, Element>)
    requires Indexed(order, index)
    ensures forall k :: k in index <==> k in KeysOf(order)
  {
    forall k | k in index
      ensures k in KeysOf(order)
    {
      var i :| 0 <= i < |order| && order[i] == index[k];
      assert KeysOf(order)[i] == k;
    }
  }

  /** `PushFront` of a node for a key the index lacks, and registering the
    * node under its key: the list then holds the key at the front. */
  lemma PushFrontIndexed(order: seq<Element>, index: map<string, Element>, e: Element)
    requires Indexed(order, index)
    requires e.key !in index
    ensures Indexed([e] + order, index[e.key := e])
    ensures KeysOf([e] + order) == [e.key] + KeysOf(order)
  {
    IndexedKeys(order, index);
    assert KeysOf([e] + order) == [e.key] + KeysOf(order);
  }

  /** The keys of a list with the node at position `i` taken out are the
    * keys before and after that position. */
  lemma KeysOfRemoved(order: seq<Element>, i: nat)
    requires i < |order|
    ensures KeysOf(order[..i] + order[i + 1..]) == KeysOf(order)[..i] + KeysOf(order)[i + 1..]
  {
    var rest := order[..i] + order[i + 1..];
    var ks := KeysOf(order);
    assert |KeysOf(rest)| == |ks[..i] + ks[i + 1..]|;
    forall j | 0 <= j < |rest|
      ensures KeysOf(rest)[j] == (ks[..i] + ks[i + 1..])[j]
    {
      if j < i {
        assert rest[j] == order[j];
      } else {
        assert rest[j] == order[j + 1];
      }
    }
  }

  /** `Remove` of the node at position `i`, and deleting its key from the
    * index: the key is gone and the other keys keep their order. */
  lemma RemoveIndexed(order: seq<Element>, index: map<string, Element>, i: nat)
    requires Indexed(order, index)
    requires i < |order|
    ensures Indexed(order[..i] + order[i + 1..], index - {order[i].key})
    ensures KeysOf(order[..i] + order[i + 1..]) == Without(KeysOf(order), order[i].key)
  {
    var rest := order[..i] + order[i + 1..];
    var smaller := index - {order[i].key};
    KeysOfRemoved(order, i);
    WithoutAt(KeysOf(order), i);
    assert KeysOf(order)[i] == order[i].key;
    forall k | k in smaller
      ensures smaller[k].key == k && smaller[k] in rest
    {
      var p :| 0 <= p < |order| && order[p] == index[k];
      assert p != i;
      assert index[k] == if p < i then rest[p] else rest[p - 1];
    }
    forall j | 0 <= j < |rest|
      ensures rest[j].key in smaller && smaller[rest[j].key] == rest[j]
    {
      assert rest[j] == if j < i then order[j] else order[j + 1];
      assert rest[j].key == KeysOf(rest)[j];
    }
  }

  /** `MoveToFront` of the node at position `i`: the index is unchanged and
    * the list holds the same keys with that one made the most recent. */
  lemma MoveToFrontIndexed(order: seq<Element>, index: map<string, Element>, i: nat)
    requires Indexed(order, index)
    requires i < |order|
    ensures Indexed([order[i]] + order[..i] + order[i + 1..], index)
    ensures KeysOf([order[i]] + order[..i] + order[i + 1..]) == Touch(KeysOf(order), order[i].key)
  {
    var moved := [order[i]] + order[..i] + order[i + 1..];
    assert KeysOf(moved) == [order[i].key] + (KeysOf(order)[..i] + KeysOf(order)[i + 1..]);
    WithoutAt(KeysOf(order), i);
    assert KeysOf(order)[i] == order[i].key;
  }
}
