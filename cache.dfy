/** The fixed-capacity LRU cache of cache/cache.go: a map from key to list node
    and a circular doubly-linked list of the same nodes, most recently used at
    `head`, least recently used (the eviction victim) at `head.prev`.

    The ghost sequence `order` lists the ring's nodes from `head` onwards and
    `Contents` is the abstract view (module Entries) they hold; every public
    operation is specified by the function of Entries it performs on
    `Contents`. The mutex is not modelled: the methods run one at a time. */
module Cache {
  import opened Entries

  /** A list node. `key` never changes once the node exists. */
  class CacheNode {
    var prev: CacheNode?
    var next: CacheNode?
    var value: string
    const key: string

    constructor (key: string, value: string)
      ensures this.key == key && this.value == value
      ensures prev == null && next == null
    {
      this.key := key;
      this.value := value;
      prev, next := null, null;
    }
  }

  /** The one failure of the package: a capacity that is not positive. */
  datatype CacheError = InvalidCapacity

  datatype Result<T> = Ok(value: T) | Err(error: CacheError)

  class LruCache {
    var head: CacheNode?
    const capacity: int
    var store: map<string, CacheNode>

    ghost var order: seq<CacheNode>
    ghost var Contents: seq<Entry>
    ghost var Repr: set<CacheNode>

    /** `o` is the ring reached from `head`: pairwise distinct nodes, each one's
        `next` the following node and the last one's `next` the first, with
        `prev` the mirror image; `head` is nil exactly when `o` is empty. */
    ghost predicate Ring(o: seq<CacheNode>)
      reads this`head, o`next, o`prev
    {
      (o == [] <==> head == null) &&
      (o != [] ==> head == o[0]) &&
      Distinct(o) &&
      (forall i :: 0 <= i < |o| - 1 ==> o[i].next == o[i + 1] && o[i + 1].prev == o[i]) &&
      (o != [] ==> o[|o| - 1].next == o[0] && o[0].prev == o[|o| - 1])
    }

    /** In a ring, the node at position `at` has the node at After(at) as its
        `next` and the node at Before(at) as its `prev`, and both neighbours
        point back to it: the mirrored links verifyIntegrity checks per node. */
    lemma RingNeighbours(o: seq<CacheNode>, at: nat)
      requires Ring(o) && at < |o|
      ensures o[at].next == o[After(at, |o|)] && o[at].prev == o[Before(at, |o|)]
      ensures o[at].next.prev == o[at] && o[at].prev.next == o[at]
    {
      var n := |o|;
      if at < n - 1 {
        assert o[at].next == o[at + 1] && o[at + 1].prev == o[at];
      } else {
        assert o[n - 1].next == o[0] && o[0].prev == o[n - 1];
      }
      if 0 < at {
        assert o[at - 1].next == o[at] && o[at].prev == o[at - 1];
      } else {
        assert o[n - 1].next == o[0] && o[0].prev == o[n - 1];
      }
    }

    /** The list on its own: a ring whose nodes hold `Contents` in order. The
        list primitives keep this; the store may lag behind between them. */
    ghost predicate Chain()
      reads this`head, this`order, this`Contents, this`Repr, Repr
    {
      (forall i :: 0 <= i < |order| ==> order[i] in Repr) &&
      Ring(order) &&
      |Contents| == |order| &&
      (forall i :: 0 <= i < |order| ==> Contents[i] == Entry(order[i].key, order[i].value))
    }

    /** The invariant every public operation keeps. */
    ghost predicate Valid()
      reads this, Repr
    {
      Chain() &&
      0 < capacity && |store| <= capacity &&
      Indexed(store, order) && KeysMatch(store)
    }

    /** Keys are unique in the view, and the view and the store hold the same
        keys with the same values; the tail of the view is `head.prev`. */
    lemma ViewMatchesStore()
      requires Valid()
      ensures UniqueKeys(Contents)
      ensures forall k :: Lookup(Contents, k) == if k in store then Some(store[k].value) else None
      ensures (store == map[]) <==> (head == null)
      ensures head != null ==> head.prev == store[Contents[|Contents| - 1].key]
    {
      forall k
        ensures Lookup(Contents, k) == if k in store then Some(store[k].value) else None
      {
        if k in store {
          var i :| 0 <= i < |order| && order[i] == store[k];
          LookupAt(Contents, i);
        } else {
          LookupNone(Contents, k);
        }
      }
      if store == map[] {
        assert |order| == 0;
      } else {
        var k :| k in store;
        assert order != [];
      }
    }

    /** The single-key form of ViewMatchesStore. */
    lemma ViewAt(k: string)
      requires Valid()
      ensures UniqueKeys(Contents)
      ensures Lookup(Contents, k) == if k in store then Some(store[k].value) else None
    {
      ViewMatchesStore();
    }

    constructor (capacity: int)
      requires 0 < capacity
      ensures Valid() && fresh(Repr)
      ensures this.capacity == capacity && head == null && store == map[] && Contents == []
    {
      this.capacity := capacity;
      head := null;
      store := map[];
      order := [];
      Contents := [];
      Repr := {};
    }

    /** cache.go addToHead: a new node becomes `head`; on an empty list it is
        linked to itself, otherwise it sits between the old tail and old head. */
    method AddToHead(key: string, value: string) returns (node: CacheNode)
      requires Chain()
      modifies this`head, this`order, this`Contents, this`Repr, Repr`next, Repr`prev
      ensures Chain() && Repr == old(Repr) + {node}
      ensures fresh(node) && node.key == key && node.value == value
      ensures head == node && order == [node] + old(order)
      ensures Contents == [Entry(key, value)] + old(Contents)
    {
      node := new CacheNode(key, value);
      if head == null {
        node.next := node;
        node.prev := node;
      } else {
        node.next := head;
        node.prev := head.prev;
        head.prev.next := node;
        head.prev := node;
      }
      head := node;
      order := [node] + order;
      Contents := [Entry(key, value)] + Contents;
      Repr := Repr + {node};
    }

    /** cache.go addToTail: addToHead, then `head` moves on, which leaves the
        new node at `head.prev`, the least recently used end. */
    method AddToTail(key: string, value: string) returns (node: CacheNode)
      requires Chain()
      modifies this`head, this`order, this`Contents, this`Repr, Repr`next, Repr`prev
      ensures Chain() && Repr == old(Repr) + {node}
      ensures fresh(node) && node.key == key && node.value == value
      ensures order == old(order) + [node]
      ensures head == if old(head) == null then node else old(head)
      ensures Contents == old(Contents) + [Entry(key, value)]
    {
      node := AddToHead(key, value);
      ghost var o, C := order, Contents;
      head := head.next;
      order := o[1..] + [o[0]];
      Contents := C[1..] + [C[0]];
      RotatedChain(o, C);
    }

    /** Moving `head` one step along a ring rotates the ring: `o` held `C`,
        and the first node and entry now come last. */
    lemma RotatedChain(o: seq<CacheNode>, C: seq<Entry>)
      requires 0 < |o| && Distinct(o) && |C| == |o|
      requires forall j :: 0 <= j < |o| ==> o[j] in Repr && C[j] == Entry(o[j].key, o[j].value)
      requires forall i :: 0 <= i < |o| - 1 ==> o[i].next == o[i + 1] && o[i + 1].prev == o[i]
      requires o[|o| - 1].next == o[0] && o[0].prev == o[|o| - 1]
      requires head == o[0].next
      requires order == o[1..] + [o[0]] && Contents == C[1..] + [C[0]]
      ensures Chain()
    {
      var n := |o|;
      assert forall i :: 0 <= i < n - 1 ==> order[i] == o[i + 1];
      assert order[n - 1] == o[0];
      assert head == order[0] by {
        if n == 1 { assert head == o[0]; } else { assert head == o[1]; }
      }
      forall i, j | 0 <= i < j < n
        ensures order[i] != order[j]
      {
        if j < n - 1 {
          assert order[i] == o[i + 1] && order[j] == o[j + 1];
        } else {
          assert order[i] == o[i + 1] && order[j] == o[0];
        }
      }
      forall i | 0 <= i < n - 1
        ensures Contents[i] == Entry(order[i].key, order[i].value)
      {
        assert Contents[i] == C[i + 1];
      }
      if n > 1 {
        assert order[n - 2] == o[n - 1] && order[0] == o[1];
      }
    }

    /** cache.go removeFromList: unlinks the node at position `at` of the ring.
        The only node leaves an empty list; removing `head` advances it. */
    method RemoveFromList(node: CacheNode, ghost at: nat)
      requires Chain() && at < |order| && order[at] == node
      modifies this`head, this`order, this`Contents, Repr`next, Repr`prev
      ensures Chain() && Repr == old(Repr)
      ensures order == old(order[..at] + order[at + 1..])
      ensures Contents == old(Contents[..at] + Contents[at + 1..])
    {
      RingNeighbours(order, at);
      if node.next == node {
        assert After(at, |order|) == at;
        head := null;
        order, Contents := [], [];
        return;
      }
      Bypass(node, at);
    }

    /** removeFromList on a ring of two or more nodes: the neighbours are
        linked to each other, and `head` moves on if it was the node. */
    method Bypass(node: CacheNode, ghost at: nat)
      requires Chain() && at < |order| && order[at] == node && node.next != node
      modifies this`head, this`order, this`Contents, Repr`next, Repr`prev
      ensures Chain() && Repr == old(Repr)
      ensures order == old(order[..at] + order[at + 1..])
      ensures Contents == old(Contents[..at] + Contents[at + 1..])
    {
      ghost var o, C := order, Contents;
      Relink(node, at);
      order := o[..at] + o[at + 1..];
      Contents := C[..at] + C[at + 1..];
      UnlinkedChain(o, C, at);
    }

    /** The link updates of removeFromList (lines 69-76 of cache.go): `head`
        moves on if it was the node, and the node's neighbours point to each
        other. Every other link of the ring is as before. */
    method Relink(node: CacheNode, ghost at: nat)
      requires Chain() && at < |order| && order[at] == node && node.next != node
      modifies this`head, Repr`next, Repr`prev
      ensures var o, n := order, |order|;
        2 <= n &&
        (forall i :: 0 <= i < n - 1 && i != Before(at, n) ==> o[i].next == o[i + 1]) &&
        (forall i :: 0 <= i < n - 1 && i + 1 != After(at, n) ==> o[i + 1].prev == o[i]) &&
        (Before(at, n) != n - 1 ==> o[n - 1].next == o[0]) &&
        (After(at, n) != 0 ==> o[0].prev == o[n - 1]) &&
        o[Before(at, n)].next == o[After(at, n)] && o[After(at, n)].prev == o[Before(at, n)] &&
        head == if at == 0 then o[1] else o[0]
    {
      ghost var o, n := order, |order|;
      ghost var before, after := Before(at, n), After(at, n);
      RingNeighbours(o, at);
      if node == head {
        head := node.next;
      }
      node.prev.next := node.next;
      node.next.prev := node.prev;
      forall i | 0 <= i < n - 1 && i != before
        ensures o[i].next == o[i + 1]
      {
        assert o[i] != o[before];
      }
      forall i | 0 <= i < n - 1 && i + 1 != after
        ensures o[i + 1].prev == o[i]
      {
        assert o[i + 1] != o[after];
      }
      assert before != n - 1 ==> o[n - 1].next == o[0] by {
        if before != n - 1 { assert o[n - 1] != o[before]; }
      }
      assert after != 0 ==> o[0].prev == o[n - 1] by {
        if after != 0 { assert o[0] != o[after]; }
      }
    }

    /** What removeFromList leaves is again a chain: `o` held `C` as a ring,
        the neighbours of position `at` now point to each other, every other
        link is as before, and `head` moved on if it was the removed node. */
    lemma UnlinkedChain(o: seq<CacheNode>, C: seq<Entry>, at: nat)
      requires 2 <= |o| && at < |o| && Distinct(o) && |C| == |o|
      requires forall j :: 0 <= j < |o| ==> o[j] in Repr
      requires forall j :: 0 <= j < |o| ==> C[j] == Entry(o[j].key, o[j].value)
      requires forall i :: 0 <= i < |o| - 1 && i != Before(at, |o|) ==> o[i].next == o[i + 1]
      requires forall i :: 0 <= i < |o| - 1 && i + 1 != After(at, |o|) ==> o[i + 1].prev == o[i]
      requires Before(at, |o|) != |o| - 1 ==> o[|o| - 1].next == o[0]
      requires After(at, |o|) != 0 ==> o[0].prev == o[|o| - 1]
      requires o[Before(at, |o|)].next == o[After(at, |o|)] && o[After(at, |o|)].prev == o[Before(at, |o|)]
      requires head == if at == 0 then o[1] else o[0]
      requires order == o[..at] + o[at + 1..] && Contents == C[..at] + C[at + 1..]
      ensures Chain()
    {
      var n := |o|;
      var before, after := Before(at, n), After(at, n);
      var r := order;
      assert forall i :: 0 <= i < n - 1 ==> r[i] == o[if i < at then i else i + 1];
      DistinctWithout(o, at);
      forall i | 0 <= i < n - 2
        ensures r[i].next == r[i + 1] && r[i + 1].prev == r[i]
      {
        if i + 1 == at {
          assert r[i] == o[before] && r[i + 1] == o[after];
        } else {
          var a := if i < at then i else i + 1;
          assert r[i] == o[a] && r[i + 1] == o[a + 1];
        }
      }
      if at == 0 || at == n - 1 {
        assert r[0] == o[after] && r[n - 2] == o[before];
      } else {
        assert r[0] == o[0] && r[n - 2] == o[n - 1];
      }
    }

    /** `delete(cache.store, k)`: only the store changes, so the list and its
        view are untouched. */
    method StoreDelete(k: string)
      requires Chain()
      modifies this`store
      ensures Chain() && store == old(store) - {k}
    {
      store := store - {k};
    }

    /** `cache.store[k] = node`: only the store changes. */
    method StorePut(k: string, node: CacheNode)
      requires Chain()
      modifies this`store
      ensures Chain() && store == old(store)[k := node]
    {
      store := store[k := node];
    }

    /** removeFromList followed by `delete(cache.store, node.key)`, as Set
        does for the tail and Delete for the deleted key: the entry at `at`
        leaves both the list and the store. */
    method RemoveEntry(node: CacheNode, ghost at: nat)
      requires Valid() && at < |order| && order[at] == node
      modifies this, Repr`next, Repr`prev
      ensures Valid() && Repr == old(Repr)
      ensures order == old(order[..at] + order[at + 1..])
      ensures Contents == old(Contents[..at] + Contents[at + 1..])
      ensures store == old(store) - {node.key} && |store| == |old(store)| - 1
    {
      IndexedWithout(store, order, at);
      RemoveFromList(node, at);
      StoreDelete(node.key);
    }

    /** addToTail followed by `cache.store[key] = node`, the insertion half of
        Set: a new key becomes the last entry of the list and of the store. */
    method AppendEntry(key: string, value: string) returns (node: CacheNode)
      requires Valid() && key !in store && |store| < capacity
      modifies this, Repr
      ensures Valid()
      ensures Repr == old(Repr) + {node} && fresh(node)
      ensures order == old(order) + [node] && Contents == old(Contents) + [Entry(key, value)]
      ensures store == old(store)[key := node]
    {
      ghost var o := order;
      node := AddToTail(key, value);
      IndexedInsert(store, o, node, false);
      StorePut(key, node);
    }

    /** Lines 93-95 of cache.go Get: the node at `at` is unlinked, a fresh node
        for its key holding `value` is put at the head, and the store maps the
        key to the fresh node. Get itself never deletes the key: it only
        overwrites `store[key]` at line 95. The unlinking goes through
        RemoveEntry, whose delete keeps `Valid()` between the two steps; the
        final store is the same, by MapReplace. */
    method Reinsert(node: CacheNode, ghost at: nat, value: string) returns (newNode: CacheNode)
      requires Valid() && at < |order| && order[at] == node
      modifies this, Repr`next, Repr`prev
      ensures Valid() && Repr == old(Repr) + {newNode} && fresh(newNode)
      ensures head == newNode && newNode.key == node.key && newNode.value == value
      ensures Contents == [Entry(node.key, value)] + old(Contents[..at] + Contents[at + 1..])
      ensures store == old(store)[node.key := newNode]
    {
      ghost var S := store;
      RemoveEntry(node, at);
      ghost var o := order;
      newNode := AddToHead(node.key, value);
      IndexedInsert(store, o, newNode, true);
      MapReplace(S, node.key, newNode);
      StorePut(node.key, newNode);
    }

    /** cache.go Get. A missing key gives ("", false) and changes nothing. A
        cached key gives its value and true; its node is unlinked and a fresh
        node for the key is put at the head and stored. As in the source, that
        node is made from the result variable while it still holds "", so the
        key's value becomes "". */
    method Get(key: string) returns (value: string, ok: bool)
      requires Valid()
      modifies this, Repr
      ensures Valid()
      ensures Repr == if ok then old(Repr) + {head} else old(Repr)
      ensures ok <==> key in old(store)
      ensures (if ok then Some(value) else None) == Lookup(old(Contents), key)
      ensures !ok ==> value == "" && store == old(store) && order == old(order) && Contents == old(Contents)
      ensures ok ==> Contents == Promote(old(Contents), key, "")
      ensures ok ==> head == store[key] && fresh(head) && head.value == ""
    {
      value := "";
      ViewAt(key);
      ok := key in store;
      if !ok {
        return "", ok;
      }
      var node := store[key];
      ghost var at :| 0 <= at < |order| && order[at] == node;
      ghost var C := Contents;
      assert C[at] == Entry(key, node.value) && Lookup(C, key) == Some(node.value);
      WithoutAt(C, at);
      var newNode := Reinsert(node, at, value);
      return node.value, ok;
    }

    /** Get as evidently intended: the refreshed node keeps the value, so Get
        changes recency only. It differs from Get in the value passed to
        Reinsert alone. */
    method GetKeepingValue(key: string) returns (value: string, ok: bool)
      requires Valid()
      modifies this, Repr
      ensures Valid()
      ensures Repr == if ok then old(Repr) + {head} else old(Repr)
      ensures ok <==> key in old(store)
      ensures (if ok then Some(value) else None) == Lookup(old(Contents), key)
      ensures !ok ==> value == "" && store == old(store) && order == old(order)
      ensures Contents == Refresh(old(Contents), key)
      ensures ok ==> head == store[key] && fresh(head) && head.value == value
    {
      value := "";
      ViewAt(key);
      ok := key in store;
      if !ok {
        return "", ok;
      }
      var node := store[key];
      ghost var at :| 0 <= at < |order| && order[at] == node;
      ghost var C := Contents;
      assert C[at] == Entry(key, node.value) && Lookup(C, key) == Some(node.value);
      WithoutAt(C, at);
      var newNode := Reinsert(node, at, node.value);
      return node.value, ok;
    }

    /** `existing.value = value` in Set: the node keeps its place and the
        entry at its position takes the new value. */
    method SetValue(node: CacheNode, ghost at: nat, value: string)
      requires Chain() && at < |order| && order[at] == node
      modifies node`value, this`Contents
      ensures Chain() && node.value == value
      ensures Contents == old(Contents)[at := Entry(node.key, value)]
      ensures order == old(order) && store == old(store)
    {
      node.value := value;
      Contents := Contents[at := Entry(node.key, value)];
    }

    /** The update half of cache.go Set: the cached node takes the new value
        in place and keeps its position in the list. */
    method UpdateExisting(key: string, value: string)
      requires Valid() && key in store
      modifies this, Repr
      ensures Valid() && Repr == old(Repr)
      ensures Contents == Overwrite(old(Contents), key, value)
      ensures order == old(order) && store == old(store)
    {
      var existing := store[key];
      ghost var at :| 0 <= at < |order| && order[at] == existing;
      ViewAt(key);
      assert Contents[at].key == key;
      LookupAt(Contents, at);
      SetValue(existing, at, value);
    }

    /** The eviction in cache.go Set: the tail `head.prev`, the least recently
        used entry, leaves the list and the store. */
    method EvictTail() returns (tail: CacheNode)
      requires Valid() && store != map[]
      modifies this, Repr
      ensures Valid() && Repr == old(Repr)
      ensures tail == old(order[|order| - 1])
      ensures order == old(order[..|order| - 1]) && Contents == old(Contents[..|Contents| - 1])
      ensures store == old(store) - {tail.key} && |store| == |old(store)| - 1
    {
      ViewMatchesStore();
      tail := head.prev;
      RemoveEntry(tail, |order| - 1);
    }

    /** Lines 112-118 of cache.go Set: when the store is full, the tail is
        evicted, so there is room for one more key. A key that was not
        stored is still not stored. */
    method MakeRoom(ghost key: string)
      requires Valid() && key !in store
      modifies this, Repr
      ensures Valid() && Repr == old(Repr)
      ensures |store| < capacity && key !in store
      ensures Contents == if |old(Contents)| == capacity then old(Contents[..|Contents| - 1]) else old(Contents)
    {
      assert |Contents| == |store|;
      if |store| == capacity {
        var tail := EvictTail();
      }
    }

    /** The new-key half of cache.go Set: when the store is full the tail is
        evicted; then the key is appended at the tail. */
    method InsertNew(key: string, value: string) returns (node: CacheNode)
      requires Valid() && key !in store
      modifies this, Repr
      ensures Valid() && Repr == old(Repr) + {node} && fresh(node)
      ensures Contents == Admit(old(Contents), capacity, key, value)
      ensures store[key] == node && order[|order| - 1] == node
    {
      ghost var C := Contents;
      MakeRoom(key);
      ghost var kept := Contents;
      node := AppendEntry(key, value);
      assert Contents == kept + [Entry(key, value)];
    }

    /** cache.go Set. A cached key has its node's value overwritten in place,
        without moving it, and Set reports true. A new key is inserted by
        InsertNew, and Set reports false. */
    method Set(key: string, value: string) returns (updated: bool)
      requires Valid()
      modifies this, Repr
      ensures Valid() && fresh(Repr - old(Repr))
      ensures updated <==> key in old(store)
      ensures updated <==> Lookup(old(Contents), key).Some?
      ensures updated ==> Contents == Overwrite(old(Contents), key, value)
      ensures updated ==> order == old(order) && store == old(store)
      ensures !updated ==> Contents == Admit(old(Contents), capacity, key, value)
      ensures !updated ==> key in store && store[key] == order[|order| - 1] && fresh(store[key])
    {
      ViewAt(key);
      if key in store {
        UpdateExisting(key, value);
        return true;
      }
      var node := InsertNew(key, value);
      return false;
    }

    /** cache.go Delete. A missing key gives ("", false) and changes nothing; a
        cached key is unlinked and dropped from the store, and its value is
        returned with true. */
    method Delete(key: string) returns (value: string, ok: bool)
      requires Valid()
      modifies this, Repr
      ensures Valid() && Repr == old(Repr)
      ensures ok <==> key in old(store)
      ensures (if ok then Some(value) else None) == Lookup(old(Contents), key)
      ensures !ok ==> value == "" && store == old(store) && order == old(order)
      ensures Contents == Without(old(Contents), key)
      ensures ok ==> store == old(store) - {key} && |store| == |old(store)| - 1
    {
      ViewAt(key);
      if key !in store {
        WithoutMissing(Contents, key);
        return "", false;
      }
      var existing := store[key];
      ghost var at :| 0 <= at < |order| && order[at] == existing;
      assert Contents[at].key == key;
      WithoutAt(Contents, at);
      RemoveEntry(existing, at);
      return existing.value, true;
    }

    /** cache.go Capacity: the capacity fixed at construction, which is
        positive and bounds the number of cached keys. */
    function Capacity(): (c: int)
      reads this, Repr
      requires Valid()
      ensures 0 < c && |store| <= c && c == capacity
    {
      capacity
    }
  }

  /** No node occurs twice. */
  ghost predicate Distinct(o: seq<CacheNode>)
  {
    forall i, j :: 0 <= i < j < |o| ==> o[i] != o[j]
  }

  lemma DistinctWithout(o: seq<CacheNode>, at: nat)
    requires Distinct(o) && at < |o|
    ensures Distinct(o[..at] + o[at + 1..])
  {
    var r := o[..at] + o[at + 1..];
    assert forall i :: 0 <= i < |r| ==> r[i] == o[if i < at then i else i + 1];
  }

  /** The store and the ring agree: the ring has as many nodes as the store
      has keys, each ring node is the one stored under its key, and every
      stored node is on the ring. (A node's key never changes, so this does
      not depend on the links.) */
  ghost predicate Indexed(store: map<string, CacheNode>, o: seq<CacheNode>)
  {
    |o| == |store| &&
    (forall i :: 0 <= i < |o| ==> o[i].key in store && store[o[i].key] == o[i]) &&
    (forall k :: k in store ==> store[k] in o)
  }

  /** Each stored node carries the key it is stored under. */
  ghost predicate KeysMatch(store: map<string, CacheNode>)
  {
    forall k :: k in store ==> store[k].key == k
  }

  lemma MapRemoveSize(m: map<string, CacheNode>, k: string)
    requires k in m
    ensures |m - {k}| == |m| - 1
  {
    assert (m - {k}).Keys == m.Keys - {k};
  }

  /** Overwriting a key is deleting it and adding it back. */
  lemma MapReplace(m: map<string, CacheNode>, k: string, v: CacheNode)
    ensures m[k := v] == (m - {k})[k := v]
  {
  }

  /** Unlinking position `at` and deleting its key keeps store and ring in
      agreement. */
  lemma IndexedWithout(store: map<string, CacheNode>, o: seq<CacheNode>, at: nat)
    requires Indexed(store, o) && KeysMatch(store) && Distinct(o) && at < |o|
    ensures Indexed(store - {o[at].key}, o[..at] + o[at + 1..])
    ensures KeysMatch(store - {o[at].key})
  {
    MapRemoveSize(store, o[at].key);
    WithoutKeepsSlots(store, o, at);
    WithoutKeepsCover(store, o, at);
  }

  /** Every node left on the ring is still stored under its key. */
  lemma WithoutKeepsSlots(store: map<string, CacheNode>, o: seq<CacheNode>, at: nat)
    requires Indexed(store, o) && Distinct(o) && at < |o|
    ensures var r, s := o[..at] + o[at + 1..], store - {o[at].key};
      forall i :: 0 <= i < |r| ==> r[i].key in s && s[r[i].key] == r[i]
  {
    var r, s := o[..at] + o[at + 1..], store - {o[at].key};
    forall i | 0 <= i < |r|
      ensures r[i].key in s && s[r[i].key] == r[i]
    {
      var j := if i < at then i else i + 1;
      assert r[i] == o[j] && o[j] != o[at];
    }
  }

  /** Every node still stored is left on the ring. */
  lemma WithoutKeepsCover(store: map<string, CacheNode>, o: seq<CacheNode>, at: nat)
    requires Indexed(store, o) && KeysMatch(store) && at < |o|
    ensures var r, s := o[..at] + o[at + 1..], store - {o[at].key};
      forall k :: k in s ==> s[k] in r
  {
    var r, s := o[..at] + o[at + 1..], store - {o[at].key};
    forall k | k in s
      ensures s[k] in r
    {
      var j :| 0 <= j < |o| && o[j] == store[k];
      if j < at {
        assert s[k] == r[j];
      } else {
        assert j != at && s[k] == r[j - 1];
      }
    }
  }

  /** A new node under a key not yet stored, put at either end of the ring,
      keeps store and ring in agreement. */
  lemma IndexedInsert(store: map<string, CacheNode>, o: seq<CacheNode>, node: CacheNode, atHead: bool)
    requires Indexed(store, o) && KeysMatch(store) && node !in o && node.key !in store
    ensures Indexed(store[node.key := node], if atHead then [node] + o else o + [node])
    ensures KeysMatch(store[node.key := node])
  {
    var r := if atHead then [node] + o else o + [node];
    assert forall i :: 0 <= i < |o| ==> o[i] in r;
  }

  /** Position of the ring neighbour before `at` (`prev`) in a ring of n nodes. */
  function Before(at: nat, n: nat): (b: nat)
    requires at < n
    ensures b < n && (b + 1 == at || (at == 0 && b == n - 1))
  {
    if at == 0 then n - 1 else at - 1
  }

  /** Position of the ring neighbour after `at` (`next`) in a ring of n nodes. */
  function After(at: nat, n: nat): (a: nat)
    requires at < n
    ensures a < n && (a == at + 1 || (at == n - 1 && a == 0))
  {
    if at == n - 1 then 0 else at + 1
  }

  /** cache.go NewCache: fails exactly when the capacity is not positive;
      otherwise an empty cache with that capacity. */
  method NewCache(capacity: int) returns (r: Result<LruCache>)
    ensures r.Err? <==> capacity <= 0
    ensures r.Err? ==> r.error == InvalidCapacity
    ensures r.Ok? ==> fresh(r.value) && fresh(r.value.Repr) && r.value.Valid()
    ensures r.Ok? ==> r.value.capacity == capacity && r.value.head == null
    ensures r.Ok? ==> r.value.store == map[] && r.value.Contents == []
  {
    if capacity <= 0 {
      return Err(InvalidCapacity);
    }
    var cache := new LruCache(capacity);
    return Ok(cache);
  }
}
