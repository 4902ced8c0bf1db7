/** The integrity check of cache/cache_utils_test.go (verifyIntegrity): a walk
    along `next` from `head` that checks every link and the store, and the
    proof that it accepts exactly the caches whose list is a ring agreeing
    with the store, which includes every cache satisfying `Valid()`. */
module Integrity {
  import opened Cache

  /** The first k nodes reached from `from` along `next`, stopping early at nil. */
  ghost function Walk(from: CacheNode?, k: nat): (w: seq<CacheNode>)
    reads *
    ensures |w| <= k
    ensures from != null && 0 < k ==> 0 < |w| && w[0] == from
    decreases k
  {
    if k == 0 || from == null then [] else [from] + Walk(from.next, k - 1)
  }

  /** What verifyIntegrity checks at one node: both links set and mirrored by
      the neighbours, and the store maps the node's key to the node. */
  ghost predicate LinkedAndStored(c: LruCache, x: CacheNode)
    reads c, x, x.next, x.prev
  {
    x.next != null && x.prev != null &&
    x.next.prev == x && x.prev.next == x &&
    x.key in c.store && c.store[x.key] == x
  }

  /** What the walk loop of verifyIntegrity accepts, for `w` the walk of n
      nodes from `head`: it met n nodes, pairwise distinct, that pass the node
      check, and the node after them is one of them. */
  ghost predicate WalkPasses(c: LruCache, w: seq<CacheNode>, n: nat)
    reads *
  {
    0 < n && |w| == n && Distinct(w) &&
    (forall i :: 0 <= i < n ==> LinkedAndStored(c, w[i])) &&
    w[n - 1].next in w
  }

  /** The verdict of verifyIntegrity: an empty store has no head; otherwise
      the store is within capacity, the walk of |store| nodes from `head`
      passes, and every stored node is on it. */
  ghost predicate Integrity(c: LruCache)
    reads *
  {
    if |c.store| == 0 then
      c.head == null
    else
      |c.store| <= c.capacity && WalkPasses(c, Walk(c.head, |c.store|), |c.store|) &&
      (forall k :: k in c.store ==> c.store[k] in Walk(c.head, |c.store|))
  }

  /** One more step of the walk: the node after the first k is appended. */
  lemma {:induction false} WalkStep(from: CacheNode?, k: nat)
    requires |Walk(from, k)| == k
    ensures var x := if k == 0 then from else Walk(from, k)[k - 1].next;
      x != null ==> Walk(from, k + 1) == Walk(from, k) + [x]
    ensures var x := if k == 0 then from else Walk(from, k)[k - 1].next;
      x == null ==> Walk(from, k + 1) == Walk(from, k)
    decreases k
  {
    if k > 0 {
      assert from != null;
      WalkStep(from.next, k - 1);
    }
  }

  /** A shorter walk is a prefix of a longer one. */
  lemma {:induction false} WalkPrefix(from: CacheNode?, k: nat, m: nat)
    requires k <= m
    ensures |Walk(from, k)| <= |Walk(from, m)|
    ensures Walk(from, k) == Walk(from, m)[..|Walk(from, k)|]
    ensures |Walk(from, m)| == m ==> |Walk(from, k)| == k
    decreases k
  {
    if k > 0 && from != null {
      WalkPrefix(from.next, k - 1, m - 1);
    }
  }

  /** The walk from any node of a ring follows the ring to its end. */
  lemma {:induction false} WalkAlongRing(c: LruCache, o: seq<CacheNode>, i: nat)
    requires c.Ring(o) && i < |o|
    ensures Walk(o[i], |o| - i) == o[i..]
    decreases |o| - i
  {
    if i + 1 < |o| {
      WalkAlongRing(c, o, i + 1);
      assert o[i..] == [o[i]] + o[i + 1..];
    }
  }

  /** verifyIntegrity accepts a non-empty cache exactly when the walk from
      `head` is a ring (every link mirrored, the last node's `next` the head)
      whose nodes are exactly the stored ones, and the store is within
      capacity. */
  lemma IntegrityIsRing(c: LruCache)
    ensures Integrity(c) <==>
      if |c.store| == 0 then
        c.head == null
      else
        |c.store| <= c.capacity && c.Ring(Walk(c.head, |c.store|)) &&
        Indexed(c.store, Walk(c.head, |c.store|))
  {
    var n := |c.store|;
    if n == 0 {
      return;
    }
    var w := Walk(c.head, n);
    if Integrity(c) {
      ClosesAtHead(c, w);
      forall i | 0 <= i < n - 1
        ensures w[i].next == w[i + 1] && w[i + 1].prev == w[i]
      {
        WalkLinks(c.head, n, i);
        assert LinkedAndStored(c, w[i]);
      }
      assert LinkedAndStored(c, w[n - 1]);
    }
    if n <= c.capacity && c.Ring(w) && Indexed(c.store, w) {
      forall i | 0 <= i < n
        ensures LinkedAndStored(c, w[i])
      {
        if i < n - 1 {
          assert w[i].next == w[i + 1];
        }
        if 0 < i {
          assert w[i].prev == w[i - 1];
        }
      }
    }
  }

  /** Consecutive nodes of a walk are linked by `next`. */
  lemma {:induction false} WalkLinks(from: CacheNode?, k: nat, i: nat)
    requires i + 1 < |Walk(from, k)|
    ensures Walk(from, k)[i].next == Walk(from, k)[i + 1]
    decreases k
  {
    if i > 0 {
      WalkLinks(from.next, k - 1, i - 1);
    }
  }

  /** The walk can only close at the head: a `next` from the last node back
      into the middle would give that node two different `prev` nodes. */
  lemma ClosesAtHead(c: LruCache, w: seq<CacheNode>)
    requires 0 < |c.store| && w == Walk(c.head, |c.store|) && Integrity(c)
    ensures w[|w| - 1].next == w[0] && w[0] == c.head
  {
    var n := |w|;
    var j :| 0 <= j < n && w[j] == w[n - 1].next;
    if j > 0 {
      WalkLinks(c.head, n, j - 1);
      assert false;
    }
  }

  /** Every cache that keeps the invariant passes the integrity check. */
  lemma ValidImpliesIntegrity(c: LruCache)
    requires c.Valid()
    ensures Integrity(c)
  {
    IntegrityIsRing(c);
    if 0 < |c.order| {
      WalkAlongRing(c, c.order, 0);
      assert c.order[0..] == c.order;
    }
  }

  /** Where the walk loop stands after k nodes, with `x` the node it looks
      at next: if the walk of n nodes passes, `x` is a node, it was visited
      exactly when all n were, and before that it passes the node check. */
  lemma WalkContinues(c: LruCache, n: nat, k: nat, x: CacheNode?)
    requires k <= n && |Walk(c.head, k)| == k
    requires x == if k == 0 then c.head else Walk(c.head, k)[k - 1].next
    ensures WalkPasses(c, Walk(c.head, n), n) ==>
      x != null && (x in Walk(c.head, k) <==> k == n) && (k < n ==> LinkedAndStored(c, x))
  {
    WalkStep(c.head, k);
    var w := Walk(c.head, n);
    if WalkPasses(c, w, n) && k < n {
      WalkPrefix(c.head, k + 1, n);
      assert w[..k + 1] == Walk(c.head, k) + [x];
      assert x == w[k];
      assert forall j :: 0 <= j < k ==> Walk(c.head, k)[j] == w[j];
    }
  }

  /** The traversal loop of verifyIntegrity: from `head`, each node is
      checked and marked visited until a visited node comes round again, which
      must happen after exactly n nodes. It succeeds exactly when the walk of
      n nodes passes, and then `visited` holds that walk's nodes. */
  method WalkRing(c: LruCache, n: nat) returns (ok: bool, visited: set<CacheNode>)
    requires 0 < n
    ensures ok <==> WalkPasses(c, Walk(c.head, n), n)
    ensures ok ==> forall x :: x in visited <==> x in Walk(c.head, n)
  {
    var nodeCount := 0;
    visited := {};
    var current := c.head;
    ghost var walk: seq<CacheNode> := [];
    while true
      invariant nodeCount <= n && walk == Walk(c.head, nodeCount) && |walk| == nodeCount
      invariant forall x :: x in visited <==> x in walk
      invariant Distinct(walk)
      invariant forall i :: 0 <= i < nodeCount ==> LinkedAndStored(c, walk[i])
      invariant current == if nodeCount == 0 then c.head else walk[nodeCount - 1].next
      decreases n - nodeCount
    {
      WalkStep(c.head, nodeCount);
      WalkContinues(c, n, nodeCount, current);
      if current == null {
        return false, visited;
      }
      if current in visited {
        if nodeCount != n {
          return false, visited;
        }
        return true, visited;
      }
      if current.next == null || current.prev == null {
        return false, visited;
      }
      if current.next.prev != current {
        return false, visited;
      }
      if current.prev.next != current {
        return false, visited;
      }
      if current.key !in c.store {
        return false, visited;
      }
      var storeNode := c.store[current.key];
      if storeNode != current {
        return false, visited;
      }
      visited := visited + {current};
      walk := walk + [current];
      nodeCount := nodeCount + 1;
      current := current.next;
      if nodeCount > n {
        return false, visited;
      }
    }
  }

  /** cache_utils_test.go verifyIntegrity, with the error reduced to `false`:
      an empty store needs a nil head; otherwise the store must be within
      capacity, the traversal must succeed, and every stored node must have
      been visited. */
  method VerifyIntegrity(c: LruCache) returns (ok: bool)
    ensures ok <==> Integrity(c)
  {
    var n := |c.store|;
    if n == 0 {
      return c.head == null;
    }
    if n > c.capacity {
      return false;
    }
    var walked, visited := WalkRing(c, n);
    if !walked {
      return false;
    }
    var keys := c.store.Keys;
    while keys != {}
      invariant keys <= c.store.Keys
      invariant forall k :: k in c.store && k !in keys ==> c.store[k] in visited
      decreases keys
    {
      var key :| key in keys;
      if c.store[key] !in visited {
        return false;
      }
      keys := keys - {key};
    }
    return true;
  }
}
