/** The scenarios of cache/cache_test.go, replayed against the contracts of
    the cache: each method performs a test's calls in order and its ensures
    state what the test expects, including that verifyIntegrity accepts the
    cache after every step. */
module Scenarios {
  import opened Entries
  import opened Cache
  import opened Integrity

  /** The view after Set(key, value): updated in place if cached, admitted
      at the tail otherwise. */
  function AfterSet(es: seq<Entry>, capacity: int, key: string, value: string): seq<Entry>
    requires 0 < capacity
  {
    if Lookup(es, key).Some? then Overwrite(es, key, value) else Admit(es, capacity, key, value)
  }

  /** The view after Get(key): promoted with the value "" if cached,
      unchanged otherwise. */
  function AfterGet(es: seq<Entry>, key: string): seq<Entry>
  {
    if Lookup(es, key).Some? then Promote(es, key, "") else es
  }

  /** verifyIntegrity on a cache that keeps the invariant. */
  method Check(c: LruCache) returns (ok: bool)
    requires c.Valid()
    ensures ok
  {
    ok := VerifyIntegrity(c);
    ValidImpliesIntegrity(c);
  }

  /** Set followed by verifyIntegrity, as the rows of TestBasicOperations
      do. */
  method SetRow(c: LruCache, key: string, value: string) returns (updated: bool, intact: bool)
    requires c.Valid()
    modifies c, c.Repr
    ensures c.Valid() && fresh(c.Repr - old(c.Repr))
    ensures updated == Lookup(old(c.Contents), key).Some?
    ensures c.Contents == AfterSet(old(c.Contents), c.capacity, key, value)
    ensures intact
  {
    updated := c.Set(key, value);
    intact := Check(c);
  }

  /** Get followed by verifyIntegrity. */
  method GetRow(c: LruCache, key: string) returns (value: string, ok: bool, intact: bool)
    requires c.Valid()
    modifies c, c.Repr
    ensures c.Valid() && fresh(c.Repr - old(c.Repr))
    ensures (if ok then Some(value) else None) == Lookup(old(c.Contents), key)
    ensures !ok ==> value == ""
    ensures c.Contents == AfterGet(old(c.Contents), key)
    ensures intact
  {
    value, ok := c.Get(key);
    intact := Check(c);
  }

  // TestEviction, one method per row of its table. The rows share a cache
  // of capacity 2; the view before and after each row is written out.

  /** "add first": key1 is set and found. */
  method EvictionAddFirst(c: LruCache) returns (found: bool, intact: bool)
    requires c.Valid() && c.capacity == 2 && c.Contents == []
    modifies c, c.Repr
    ensures c.Valid() && fresh(c.Repr - old(c.Repr))
    ensures c.Contents == [Entry("key1", "")]
    ensures found && intact
  {
    assert AfterSet([], 2, "key1", "value1") == [Entry("key1", "value1")];
    assert Lookup([Entry("key1", "value1")], "key1").Some?;
    var updated, setIntact, getIntact: bool;
    var value: string;
    updated, setIntact := SetRow(c, "key1", "value1");
    value, found, getIntact := GetRow(c, "key1");
    intact := setIntact && getIntact;
  }

  /** "add second": key2 is set and found, and the Get moves it to the head. */
  method EvictionAddSecond(c: LruCache) returns (found: bool, intact: bool)
    requires c.Valid() && c.capacity == 2 && c.Contents == [Entry("key1", "")]
    modifies c, c.Repr
    ensures c.Valid() && fresh(c.Repr - old(c.Repr))
    ensures c.Contents == [Entry("key2", ""), Entry("key1", "")]
    ensures found && intact
  {
    assert AfterSet([Entry("key1", "")], 2, "key2", "value2") == [Entry("key1", ""), Entry("key2", "value2")];
    assert Lookup([Entry("key1", ""), Entry("key2", "value2")], "key2").Some?;
    var updated, setIntact, getIntact: bool;
    var value: string;
    updated, setIntact := SetRow(c, "key2", "value2");
    value, found, getIntact := GetRow(c, "key2");
    intact := setIntact && getIntact;
  }

  /** "evict first": setting key3 in the full cache evicts the tail, key1. */
  method EvictionEvictFirst(c: LruCache) returns (found: bool, intact: bool)
    requires c.Valid() && c.capacity == 2 && c.Contents == [Entry("key2", ""), Entry("key1", "")]
    modifies c, c.Repr
    ensures c.Valid() && fresh(c.Repr - old(c.Repr))
    ensures c.Contents == [Entry("key2", ""), Entry("key3", "value3")]
    ensures !found && intact
  {
    assert AfterSet(c.Contents, 2, "key3", "value3") == [Entry("key2", ""), Entry("key3", "value3")];
    assert Lookup([Entry("key2", ""), Entry("key3", "value3")], "key1").None?;
    var updated, setIntact, getIntact: bool;
    var value: string;
    updated, setIntact := SetRow(c, "key3", "value3");
    value, found, getIntact := GetRow(c, "key1");
    intact := setIntact && getIntact;
  }

  /** "verify second": key2 is still cached; the Get leaves it at the head. */
  method EvictionVerifySecond(c: LruCache) returns (found: bool, intact: bool)
    requires c.Valid() && c.Contents == [Entry("key2", ""), Entry("key3", "value3")]
    modifies c, c.Repr
    ensures c.Valid() && fresh(c.Repr - old(c.Repr))
    ensures c.Contents == [Entry("key2", ""), Entry("key3", "value3")]
    ensures found && intact
  {
    var V := c.Contents;
    assert Lookup(V, "key2") == Some("");
    assert V[1..] == [Entry("key3", "value3")];
    WithoutAbsent(V[1..], "key2");
    var value: string;
    value, found, intact := GetRow(c, "key2");
  }

  /** "verify third": key3 is still cached; the Get moves it to the head. */
  method EvictionVerifyThird(c: LruCache) returns (found: bool, intact: bool)
    requires c.Valid() && c.Contents == [Entry("key2", ""), Entry("key3", "value3")]
    modifies c, c.Repr
    ensures c.Valid() && fresh(c.Repr - old(c.Repr))
    ensures c.Contents == [Entry("key3", ""), Entry("key2", "")]
    ensures found && intact
  {
    var V := c.Contents;
    assert Lookup(V, "key3") == Some("value3");
    assert Without(V[1..], "key3") == [];
    assert Without(V, "key3") == [Entry("key2", "")];
    var value: string;
    value, found, intact := GetRow(c, "key3");
  }

  /** The two "verify" rows of TestEviction. */
  method EvictionVerify(c: LruCache) returns (found2: bool, found3: bool, intact: bool)
    requires c.Valid() && c.Contents == [Entry("key2", ""), Entry("key3", "value3")]
    modifies c, c.Repr
    ensures c.Valid() && fresh(c.Repr - old(c.Repr))
    ensures c.Contents == [Entry("key3", ""), Entry("key2", "")]
    ensures found2 && found3 && intact
  {
    var i2, i3: bool;
    found2, i2 := EvictionVerifySecond(c);
    found3, i3 := EvictionVerifyThird(c);
    intact := i2 && i3;
  }

  /** The first three rows of TestEviction, which end in the eviction of key1. */
  method EvictionOpening(c: LruCache) returns (found1: bool, found2: bool, foundAfterEvict: bool, intact: bool)
    requires c.Valid() && c.capacity == 2 && c.Contents == []
    modifies c, c.Repr
    ensures c.Valid() && fresh(c.Repr - old(c.Repr))
    ensures c.Contents == [Entry("key2", ""), Entry("key3", "value3")]
    ensures found1 && found2 && !foundAfterEvict && intact
  {
    var i1, i2, i3: bool;
    found1, i1 := EvictionAddFirst(c);
    found2, i2 := EvictionAddSecond(c);
    foundAfterEvict, i3 := EvictionEvictFirst(c);
    intact := i1 && i2 && i3;
  }

  /** TestEviction: in a cache of capacity 2, key1 and key2 are set, each
      followed by a Get; the Get of key2 moves it to the head, so setting key3
      evicts key1, and key2 and key3 are found afterwards. */
  method Eviction() returns (found1: bool, found2: bool, foundAfterEvict: bool, found2Later: bool, found3: bool, intact: bool)
    ensures found1 && found2 && !foundAfterEvict && found2Later && found3
    ensures intact
  {
    var r := NewCache(2);
    var c := r.value;
    var i1, i2: bool;
    found1, found2, foundAfterEvict, i1 := EvictionOpening(c);
    found2Later, found3, i2 := EvictionVerify(c);
    intact := i1 && i2;
  }

  /** "change priority by update": key2 takes the value "hi" in place; it
      does not move, so it stays at the tail. The Get of a key never set
      misses. */
  method EvictionUpdateSecond(c: LruCache) returns (updated: bool, found: bool, intact: bool)
    requires c.Valid() && c.capacity == 2 && c.Contents == [Entry("key3", ""), Entry("key2", "")]
    modifies c, c.Repr
    ensures c.Valid() && fresh(c.Repr - old(c.Repr))
    ensures c.Contents == [Entry("key3", ""), Entry("key2", "hi")]
    ensures updated && !found && intact
  {
    assert Find(c.Contents, "key2") == Some(1);
    assert Lookup(c.Contents[1 := Entry("key2", "hi")], "nonexistent").None?;
    var value: string;
    var setIntact, getIntact: bool;
    updated, setIntact := SetRow(c, "key2", "hi");
    value, found, getIntact := GetRow(c, "nonexistent");
    intact := setIntact && getIntact;
  }

  /** "evict second": key4 is new and the cache is full, so the tail is
      evicted. The tail is key2, whose update left it in place, so key3 is
      still found and key2 is gone. */
  method EvictionEvictSecond(c: LruCache) returns (found3: bool, intact: bool)
    requires c.Valid() && c.capacity == 2 && c.Contents == [Entry("key3", ""), Entry("key2", "hi")]
    modifies c, c.Repr
    ensures c.Contents == [Entry("key3", ""), Entry("key4", "value")]
    ensures found3 && intact
  {
    var V := [Entry("key3", ""), Entry("key4", "value")];
    assert AfterSet(c.Contents, 2, "key4", "value") == V;
    assert Lookup(V, "key3") == Some("");
    assert V[1..] == [Entry("key4", "value")];
    WithoutAbsent(V[1..], "key3");
    var updated: bool;
    var value: string;
    var setIntact, getIntact: bool;
    updated, setIntact := SetRow(c, "key4", "value");
    value, found3, getIntact := GetRow(c, "key3");
    intact := setIntact && getIntact;
  }

  /** TestEviction of cache/cache_sequential_test.go: the rows above followed
      by an update of key2 and the insertion of key4. As written, the cache
      evicts key2, the tail, so key3 is still found after the last row. */
  method SequentialEviction() returns (foundAfterEvict: bool, updated: bool, foundMissing: bool, found3AfterKey4: bool, intact: bool)
    ensures !foundAfterEvict && updated && !foundMissing && found3AfterKey4
    ensures intact
  {
    var r := NewCache(2);
    var c := r.value;
    var found1, found2, found2Later, found3: bool;
    var i1, i2, i3, i4: bool;
    found1, found2, foundAfterEvict, i1 := EvictionOpening(c);
    found2Later, found3, i2 := EvictionVerify(c);
    updated, foundMissing, i3 := EvictionUpdateSecond(c);
    found3AfterKey4, i4 := EvictionEvictSecond(c);
    intact := i1 && i2 && i3 && i4;
  }

  // TestSingleElement: a cache of capacity 1 holding key1.

  /** Set key1, on the empty cache (an insert) or over the entry a Get left
      (an update in place). */
  method SingleSet(c: LruCache, value: string) returns (updated: bool, intact: bool)
    requires c.Valid() && c.capacity == 1
    requires c.Contents == [] || c.Contents == [Entry("key1", "")]
    modifies c, c.Repr
    ensures c.Valid() && fresh(c.Repr - old(c.Repr))
    ensures c.Contents == [Entry("key1", value)]
    ensures updated == (old(c.Contents) != []) && intact
  {
    if c.Contents != [] {
      assert Find(c.Contents, "key1") == Some(0);
    }
    assert AfterSet(c.Contents, 1, "key1", value) == [Entry("key1", value)];
    updated, intact := SetRow(c, "key1", value);
  }

  /** Get key1, which reports its value; the refreshed node holds "". */
  method SingleGet(c: LruCache, expected: string) returns (value: string, ok: bool, intact: bool)
    requires c.Valid() && c.Contents == [Entry("key1", expected)]
    modifies c, c.Repr
    ensures c.Valid() && fresh(c.Repr - old(c.Repr))
    ensures c.Contents == [Entry("key1", "")]
    ensures ok && value == expected && intact
  {
    assert Lookup(c.Contents, "key1") == Some(expected);
    assert c.Contents[1..] == [];
    assert Without(c.Contents, "key1") == [];
    value, ok, intact := GetRow(c, "key1");
  }

  /** Set key1 to `value` and Get it back, as TestSingleElement does twice:
      first an insert into the empty cache, then an update in place. */
  method SingleSetThenGet(c: LruCache, value: string) returns (updated: bool, got: string, ok: bool, intact: bool)
    requires c.Valid() && c.capacity == 1
    requires c.Contents == [] || c.Contents == [Entry("key1", "")]
    modifies c, c.Repr
    ensures c.Valid() && fresh(c.Repr - old(c.Repr))
    ensures c.Contents == [Entry("key1", "")]
    ensures updated == (old(c.Contents) != [])
    ensures ok && got == value && intact
  {
    var i1, i2: bool;
    updated, i1 := SingleSet(c, value);
    got, ok, i2 := SingleGet(c, value);
    intact := i1 && i2;
  }

  /** Delete key1; a Get afterwards misses. */
  method SingleDelete(c: LruCache) returns (deleted: bool, foundAfter: bool, intact: bool)
    requires c.Valid() && c.Contents == [Entry("key1", "")]
    modifies c, c.Repr
    ensures c.Valid() && fresh(c.Repr - old(c.Repr)) && c.Contents == []
    ensures deleted && !foundAfter && intact
  {
    assert Lookup(c.Contents, "key1").Some?;
    var value;
    value, deleted := c.Delete("key1");
    assert c.Contents == [];
    assert Lookup(c.Contents, "key1").None?;
    intact := Check(c);
    value, foundAfter := c.Get("key1");
  }

  /** The opening of TestSingleElement: set, get, update, get, delete and
      get again on a cache of capacity 1, which ends empty. */
  method SingleOpening(c: LruCache) returns (got: string, ok: bool, updatedGot: string, updatedOk: bool, deleted: bool, foundAfter: bool, intact: bool)
    requires c.Valid() && c.capacity == 1 && c.Contents == []
    modifies c, c.Repr
    ensures c.Valid() && fresh(c.Repr - old(c.Repr)) && c.Contents == []
    ensures ok && got == "value1"
    ensures updatedOk && updatedGot == "newvalue"
    ensures deleted && !foundAfter
    ensures intact
  {
    var updated: bool;
    var i1, i2, i3: bool;
    updated, got, ok, i1 := SingleSetThenGet(c, "value1");
    updated, updatedGot, updatedOk, i2 := SingleSetThenGet(c, "newvalue");
    deleted, foundAfter, i3 := SingleDelete(c);
    intact := i1 && i2 && i3;
  }

  /** TestSingleElement of cache/cache_test.go. */
  method SingleElement() returns (got: string, ok: bool, updatedGot: string, updatedOk: bool, deleted: bool, foundAfter: bool, intact: bool)
    ensures ok && got == "value1"
    ensures updatedOk && updatedGot == "newvalue"
    ensures deleted && !foundAfter
    ensures intact
  {
    var r := NewCache(1);
    var c := r.value;
    got, ok, updatedGot, updatedOk, deleted, foundAfter, intact := SingleOpening(c);
  }

  /** "Add 2 elements", the Sets: key1 goes into the emptied cache, and key2
      then evicts it, the cache holding one entry. */
  method RefillSets(c: LruCache) returns (intact: bool)
    requires c.Valid() && c.capacity == 1 && c.Contents == []
    modifies c, c.Repr
    ensures c.Valid() && fresh(c.Repr - old(c.Repr))
    ensures c.Contents == [Entry("key2", "val2")]
    ensures intact
  {
    assert AfterSet([], 1, "key1", "val1") == [Entry("key1", "val1")];
    assert Lookup([Entry("key1", "val1")], "key2").None?;
    assert AfterSet([Entry("key1", "val1")], 1, "key2", "val2") == [Entry("key2", "val2")];
    var updated, i1, i2: bool;
    updated, i1 := SetRow(c, "key1", "val1");
    updated, i2 := SetRow(c, "key2", "val2");
    intact := i1 && i2;
  }

  /** "Add 2 elements", the Gets: key1 was evicted, and key2 reads "val2". */
  method RefillGets(c: LruCache) returns (found1: bool, got2: string, found2: bool, intact: bool)
    requires c.Valid() && c.Contents == [Entry("key2", "val2")]
    modifies c, c.Repr
    ensures c.Valid() && fresh(c.Repr - old(c.Repr))
    ensures c.Contents == [Entry("key2", "")]
    ensures !found1 && found2 && got2 == "val2" && intact
  {
    assert Lookup(c.Contents, "key1").None?;
    var got1: string;
    var i1, i2: bool;
    got1, found1, i1 := GetRow(c, "key1");
    got2, found2, i2 := SingleGetKey2(c);
    intact := i1 && i2;
  }

  /** Get key2 from a cache holding only key2. */
  method SingleGetKey2(c: LruCache) returns (value: string, ok: bool, intact: bool)
    requires c.Valid() && c.Contents == [Entry("key2", "val2")]
    modifies c, c.Repr
    ensures c.Valid() && fresh(c.Repr - old(c.Repr))
    ensures c.Contents == [Entry("key2", "")]
    ensures ok && value == "val2" && intact
  {
    assert Lookup(c.Contents, "key2") == Some("val2");
    assert c.Contents[1..] == [];
    assert Without(c.Contents, "key2") == [];
    value, ok, intact := GetRow(c, "key2");
  }

  /** TestSingleElement of cache/cache_sequential_test.go: the opening above,
      then key1 is set again in the emptied cache and key2 evicts it. */
  method SequentialSingleElement() returns (foundAfter: bool, found1: bool, got2: string, found2: bool, intact: bool)
    ensures !foundAfter && !found1 && found2 && got2 == "val2"
    ensures intact
  {
    var r := NewCache(1);
    var c := r.value;
    var got, updatedGot: string;
    var ok, updatedOk, deleted, i1, i2, i3: bool;
    got, ok, updatedGot, updatedOk, deleted, foundAfter, i1 := SingleOpening(c);
    i2 := RefillSets(c);
    found1, got2, found2, i3 := RefillGets(c);
    intact := i1 && i2 && i3;
  }

  /** TestNewCache: capacity 5 gives a cache holding nothing, while
      capacities 0 and -1 are refused. */
  method NewCacheTable() returns (validErr: bool, zeroErr: bool, negativeErr: bool, validEmpty: bool)
    ensures !validErr && zeroErr && negativeErr && validEmpty
  {
    var r := NewCache(5);
    validErr := r.Err?;
    validEmpty := r.Ok? && r.value.capacity == 5 && r.value.head == null && r.value.store == map[];
    r := NewCache(0);
    zeroErr := r.Err?;
    r := NewCache(-1);
    negativeErr := r.Err?;
  }

  /** TestEmptyCache: on an empty cache of capacity 1, Get and Delete of a
      missing key both report false and leave the cache intact. */
  method EmptyCache() returns (found: bool, deleted: bool, intact: bool)
    ensures !found && !deleted && intact
  {
    var r := NewCache(1);
    var c := r.value;
    var value: string;
    value, found := c.Get("nonexistent");
    var i1 := Check(c);
    value, deleted := c.Delete("nonexistent");
    var i2 := Check(c);
    intact := i1 && i2;
  }

  // Insertion at the tail. cache.go Set appends a new key at the tail
  // (addToTail) and evicts the tail, so without a Get in between the newest
  // key is the next one evicted.

  /** Set a and b into an empty cache of capacity 2: both land in order. */
  method TailInsertsTwo(c: LruCache) returns (intact: bool)
    requires c.Valid() && c.capacity == 2 && c.Contents == []
    modifies c, c.Repr
    ensures c.Valid() && fresh(c.Repr - old(c.Repr))
    ensures c.Contents == [Entry("a", "1"), Entry("b", "2")]
    ensures intact
  {
    assert AfterSet([], 2, "a", "1") == [Entry("a", "1")];
    assert Lookup([Entry("a", "1")], "b").None?;
    assert AfterSet([Entry("a", "1")], 2, "b", "2") == [Entry("a", "1"), Entry("b", "2")];
    var updated, i1, i2: bool;
    updated, i1 := SetRow(c, "a", "1");
    updated, i2 := SetRow(c, "b", "2");
    intact := i1 && i2;
  }

  /** Set c into the full cache: b, the tail, is evicted and a stays. */
  method TailInsertThird(c: LruCache) returns (intact: bool)
    requires c.Valid() && c.capacity == 2 && c.Contents == [Entry("a", "1"), Entry("b", "2")]
    modifies c, c.Repr
    ensures c.Valid() && fresh(c.Repr - old(c.Repr))
    ensures c.Contents == [Entry("a", "1"), Entry("c", "3")]
    ensures intact
  {
    assert Lookup(c.Contents, "c").None?;
    assert AfterSet(c.Contents, 2, "c", "3") == [Entry("a", "1"), Entry("c", "3")];
    var updated: bool;
    updated, intact := SetRow(c, "c", "3");
  }

  /** After the three Sets, b misses and a reads "1". */
  method TailProbe(c: LruCache) returns (foundA: bool, gotA: string, foundB: bool, intact: bool)
    requires c.Valid() && c.Contents == [Entry("a", "1"), Entry("c", "3")]
    modifies c, c.Repr
    ensures foundA && gotA == "1" && !foundB && intact
  {
    assert Lookup(c.Contents, "b").None?;
    var got: string;
    var i1, i2: bool;
    got, foundB, i1 := GetRow(c, "b");
    assert Lookup(c.Contents, "a") == Some("1");
    gotA, foundA, i2 := GetRow(c, "a");
    intact := i1 && i2;
  }

  /** With capacity 2, Set a, Set b, Set c evicts b and keeps a. */
  method NewestEvictedFirst() returns (foundA: bool, gotA: string, foundB: bool, intact: bool)
    ensures foundA && gotA == "1" && !foundB && intact
  {
    var r := NewCache(2);
    var c := r.value;
    var i1 := TailInsertsTwo(c);
    var i2 := TailInsertThird(c);
    var i3: bool;
    foundA, gotA, foundB, i3 := TailProbe(c);
    intact := i1 && i2 && i3;
  }

  /** One call of the corrected Get: it returns the key's lookup and
      refreshes the view. */
  method KeepingGetRow(c: LruCache, key: string) returns (value: string, ok: bool)
    requires c.Valid()
    modifies c, c.Repr
    ensures c.Valid() && fresh(c.Repr - old(c.Repr))
    ensures (if ok then Some(value) else None) == Lookup(old(c.Contents), key)
    ensures !ok ==> value == ""
    ensures UniqueKeys(old(c.Contents)) && c.Contents == Refresh(old(c.Contents), key)
  {
    c.ViewMatchesStore();
    value, ok := c.GetKeepingValue(key);
  }

  /** The corrected Get, called twice on any key, returns the same result
      both times: reading a key does not change its value. */
  method RepeatedGetsAgree(c: LruCache, key: string) returns (first: string, firstOk: bool, second: string, secondOk: bool)
    requires c.Valid()
    modifies c, c.Repr
    ensures c.Valid() && fresh(c.Repr - old(c.Repr))
    ensures firstOk == secondOk && first == second
    ensures (if firstOk then Some(first) else None) == Lookup(old(c.Contents), key)
  {
    ghost var C := c.Contents;
    first, firstOk := KeepingGetRow(c, key);
    RefreshKeepsValues(C, key);
    second, secondOk := KeepingGetRow(c, key);
  }

  // TestBasicOperations: a cache of capacity 3.

  /** "set new item 1": key1 is inserted into the empty cache. */
  method BasicSetFirst(c: LruCache) returns (updated: bool, intact: bool)
    requires c.Valid() && c.capacity == 3 && c.Contents == []
    modifies c, c.Repr
    ensures c.Valid() && fresh(c.Repr - old(c.Repr))
    ensures c.Contents == [Entry("key1", "value1")]
    ensures !updated && intact
  {
    assert AfterSet([], 3, "key1", "value1") == [Entry("key1", "value1")];
    updated, intact := SetRow(c, "key1", "value1");
  }

  /** "set new item 2": key2 is inserted behind key1. */
  method BasicSetSecond(c: LruCache) returns (updated: bool, intact: bool)
    requires c.Valid() && c.capacity == 3 && c.Contents == [Entry("key1", "value1")]
    modifies c, c.Repr
    ensures c.Valid() && fresh(c.Repr - old(c.Repr))
    ensures c.Contents == [Entry("key1", "value1"), Entry("key2", "value2")]
    ensures !updated && intact
  {
    assert Lookup(c.Contents, "key2").None?;
    assert AfterSet(c.Contents, 3, "key2", "value2") == [Entry("key1", "value1"), Entry("key2", "value2")];
    updated, intact := SetRow(c, "key2", "value2");
  }

  /** "update existing": key1 takes its new value in place. */
  method BasicUpdate(c: LruCache) returns (updated: bool, intact: bool)
    requires c.Valid() && c.capacity == 3 && c.Contents == [Entry("key1", "value1"), Entry("key2", "value2")]
    modifies c, c.Repr
    ensures c.Valid() && fresh(c.Repr - old(c.Repr))
    ensures c.Contents == [Entry("key1", "value1-updated"), Entry("key2", "value2")]
    ensures updated && intact
  {
    assert Find(c.Contents, "key1") == Some(0);
    updated, intact := SetRow(c, "key1", "value1-updated");
  }

  /** Get key1, which reports its updated value and moves to the head. */
  method BasicGetFirst(c: LruCache) returns (value: string, ok: bool, intact: bool)
    requires c.Valid() && c.Contents == [Entry("key1", "value1-updated"), Entry("key2", "value2")]
    modifies c, c.Repr
    ensures c.Valid() && fresh(c.Repr - old(c.Repr))
    ensures c.Contents == [Entry("key1", ""), Entry("key2", "value2")]
    ensures ok && value == "value1-updated" && intact
  {
    var V := c.Contents;
    assert Lookup(V, "key1") == Some("value1-updated");
    assert V[1..] == [Entry("key2", "value2")];
    WithoutAbsent(V[1..], "key1");
    value, ok, intact := GetRow(c, "key1");
  }

  /** Get key2, which reports its value and moves to the head. */
  method BasicGetSecond(c: LruCache) returns (value: string, ok: bool, intact: bool)
    requires c.Valid() && c.Contents == [Entry("key1", ""), Entry("key2", "value2")]
    modifies c, c.Repr
    ensures c.Valid() && fresh(c.Repr - old(c.Repr))
    ensures c.Contents == [Entry("key2", ""), Entry("key1", "")]
    ensures ok && value == "value2" && intact
  {
    var V := c.Contents;
    assert Lookup(V, "key2") == Some("value2");
    assert V[1..] == [Entry("key2", "value2")];
    assert Without(V[1..], "key2") == [];
    assert Without(V, "key2") == [Entry("key1", "")];
    value, ok, intact := GetRow(c, "key2");
  }

  /** Get a key never set: a miss. */
  method BasicGetMissing(c: LruCache) returns (value: string, ok: bool, intact: bool)
    requires c.Valid() && c.Contents == [Entry("key2", ""), Entry("key1", "")]
    modifies c, c.Repr
    ensures !ok && value == "" && intact
  {
    assert Lookup(c.Contents, "nonexistent").None?;
    value, ok, intact := GetRow(c, "nonexistent");
  }

  /** The Set table of TestBasicOperations. */
  method BasicSets(c: LruCache) returns (set1: bool, set2: bool, set3: bool, intact: bool)
    requires c.Valid() && c.capacity == 3 && c.Contents == []
    modifies c, c.Repr
    ensures c.Valid() && fresh(c.Repr - old(c.Repr))
    ensures c.Contents == [Entry("key1", "value1-updated"), Entry("key2", "value2")]
    ensures !set1 && !set2 && set3 && intact
  {
    var i1, i2, i3: bool;
    set1, i1 := BasicSetFirst(c);
    set2, i2 := BasicSetSecond(c);
    set3, i3 := BasicUpdate(c);
    intact := i1 && i2 && i3;
  }

  /** The Get table of TestBasicOperations. */
  method BasicGets(c: LruCache) returns (got1: string, ok1: bool, got2: string, ok2: bool, got3: string, ok3: bool, intact: bool)
    requires c.Valid() && c.Contents == [Entry("key1", "value1-updated"), Entry("key2", "value2")]
    modifies c, c.Repr
    ensures ok1 && got1 == "value1-updated"
    ensures ok2 && got2 == "value2"
    ensures !ok3 && got3 == ""
    ensures intact
  {
    var i1, i2, i3: bool;
    got1, ok1, i1 := BasicGetFirst(c);
    got2, ok2, i2 := BasicGetSecond(c);
    got3, ok3, i3 := BasicGetMissing(c);
    intact := i1 && i2 && i3;
  }

  /** TestBasicOperations: two new keys and an update, then two hits and a
      miss. */
  method BasicOperations() returns (set1: bool, set2: bool, set3: bool, got1: string, ok1: bool, got2: string, ok2: bool, got3: string, ok3: bool, intact: bool)
    ensures !set1 && !set2 && set3
    ensures ok1 && got1 == "value1-updated"
    ensures ok2 && got2 == "value2"
    ensures !ok3 && got3 == ""
    ensures intact
  {
    var r := NewCache(3);
    var c := r.value;
    var i1, i2: bool;
    set1, set2, set3, i1 := BasicSets(c);
    got1, ok1, got2, ok2, got3, ok3, i2 := BasicGets(c);
    intact := i1 && i2;
  }
}
