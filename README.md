# go-cache LRU cache, modelled in Dafny

go-cache is a fixed-capacity, thread-safe LRU cache of string keys and string
values. Each `LruCache` holds two structures:

- a map `store` from each key to its list node;
- a circular doubly-linked list of those nodes. The most recently used node is
  at `head`, and the least recently used node, which is evicted first, is at
  `head.prev`.

This project models the cache package's core:

- the node and cache types;
- the internal list primitives `addToHead`, `addToTail` and `removeFromList`;
- the public operations `Get`, `Set`, `Delete`, `Capacity` and `NewCache`;
- the test helper `verifyIntegrity`, which walks the list and checks every link
  against the store.

The model has four modules:

- `Entries` (entries.dfy) is the abstract view of a cache: its entries from most
  to least recently used, a `seq<Entry>`. Each public operation is a function
  on that view (`Promote`, `Overwrite`, `Admit`, `Without`, `Lookup`). Lemmas
  state what each function promises: the other keys keep their values, sizes
  stay within the capacity, keys stay unique, and Set followed by Get reads the
  new value.
- `Cache` (cache.dfy) is the imperative model. `CacheNode` and `LruCache` are
  classes whose fields are those of the Go structs. The list primitives and
  public operations are methods that change those fields in place. The class
  invariant `Valid()` says the following:
  - the nodes reached from `head` form a ring whose links are mirrored;
  - the ring is listed by the ghost sequence `order`;
  - the ring holds the view `Contents`;
  - the store maps each key to exactly the ring node carrying that key;
  - the store's size is within the capacity.

  Every public method keeps `Valid()`. Each one states its effect as the
  `Entries` function applied to the old view, and states what it returns in
  terms of `Lookup` on the old view.
- `Integrity` (integrity.dfy) models `verifyIntegrity` as two loop methods: the
  traversal and the store scan. They are proved to return true exactly when the
  predicate `Integrity` holds, and `Integrity` is proved equivalent to "the walk
  from `head` is a ring that agrees with the store". Every cache satisfying
  `Valid()` passes the check.
- `Scenarios` (scenarios.dfy) replays, through the contracts above, the
  tests of cache/cache_test.go (TestNewCache, TestBasicOperations,
  TestEviction, TestSingleElement and TestEmptyCache) and the longer
  TestEviction and TestSingleElement of cache/cache_sequential_test.go.
  After every step where a test calls verifyIntegrity, the check is shown to
  pass. One more scenario
  records a consequence of inserting new keys at the tail: with no Get in
  between, the newest key is the next one evicted.

## Model

| member | source | states |
|---|---|---|
| Entries.Find | cache/cache.go:85 | The position found holds the key, no earlier position does, and None means no position holds it. |
| Entries.LookupAt | cache/cache.go:85 | With unique keys, looking up the key at position i finds position i and its value. |
| Entries.LookupNone | cache/cache.go:85-89 | A key is missing exactly when no entry carries it, the case where Get returns ("", false). |
| Entries.LookupRemoveAt | cache/cache.go:62-77 | Unlinking one node leaves what every other key finds unchanged. |
| Entries.LookupReplaceOther | cache/cache.go:106-108 | Changing one entry in place leaves what every other key finds unchanged. |
| Entries.LookupAppend | cache/cache.go:120-121 | Appending at the tail leaves what every other key finds unchanged. |
| Entries.WithoutAbsent | cache/cache.go:131-134 | Removing a key that no entry carries leaves the view as it was. |
| Entries.WithoutAt | cache/cache.go:136-137 | Removing the key at position i removes exactly position i and keeps the order of the rest. |
| Entries.WithoutRemovesOne | cache/cache.go:125-139 | Delete of a cached key shrinks the view by one and keeps keys unique. The key is then missing and every other key finds what it found before. |
| Entries.WithoutMissing | cache/cache.go:131-134 | Delete of a missing key leaves the view unchanged. |
| Entries.PromoteMovesToHead | cache/cache.go:92-95 | Get of a cached key keeps the size and keeps keys unique. It puts the key at the head with the value re-inserted, and every other key keeps its value and relative order. |
| Entries.SecondGetSeesEmpty | cache/cache.go:94 | As written, after a Get the same key holds "". |
| Entries.SecondGetSeesEmptyExample | cache/cache.go:79-98 | A concrete input: "a" holds "1"; the first Get finds "1" and a second Get finds "". |
| Entries.RefreshKeepsValues | cache/cache.go:92-97 | With the intended refresh, Get keeps the size, keeps keys unique and changes no key's value, and the key read moves to the head. |
| Entries.OverwriteInPlace | cache/cache.go:106-110 | Set on a cached key keeps every key in its position, gives that key the new value and changes no other key. |
| Entries.AdmitAtTail | cache/cache.go:112-122 | Set on a new key keeps keys unique and keeps the size within the capacity. The new entry lands at the tail. When the cache is full, exactly the old tail is evicted. Every other key is unchanged. |
| Entries.AdmitUnique | cache/cache.go:112-122 | Admitting a key not yet cached keeps keys unique. |
| Entries.AdmitKeepsOther | cache/cache.go:112-122 | A key that is neither admitted nor evicted finds what it found before. |
| Entries.SetThenGet | cache/cache.go:100-123 | After Set(key, value), looking up key finds value, whether it was an update or an insert: a key never evicts itself. |
| Cache.CacheNode.constructor | cache/cache.go:35-37 | A fresh node carries the given key and value and has no links yet. |
| Cache.LruCache.constructor | cache/cache.go:149-157 | An empty cache: nil head, empty store, the given capacity, and the invariant holds. |
| Cache.LruCache.ViewMatchesStore | cache/cache.go:19-24 | In a valid cache, the view has unique keys and agrees with the store on every key's value. The store is empty exactly when head is nil, and head.prev is the node of the view's last entry. |
| Cache.LruCache.ViewAt | cache/cache.go:85 | A single key's lookup in the view agrees with the store. |
| Cache.LruCache.AddToHead | cache/cache.go:34-54 | The new node becomes head, linked to itself on an empty list or else between the old tail and the old head. The ring and the view gain it at the front. |
| Cache.LruCache.AddToTail | cache/cache.go:56-60 | addToHead, then head moves on one step, so the new node is last in the ring and in the view. On an empty list it is also the head. |
| Cache.LruCache.RingNeighbours | cache/cache_utils_test.go:50-60 | In a ring, each node's next and prev are its neighbours in the listed order, wrapping at both ends, and both neighbours point back to it: the mirrored links verifyIntegrity checks for every node. |
| Cache.LruCache.RotatedChain | cache/cache.go:58 | Advancing head one step along a ring rotates the listed ring by one. |
| Cache.LruCache.RemoveFromList | cache/cache.go:62-77 | The node at position `at` leaves the ring and the view, and the others keep their order. The only node leaves an empty list. |
| Cache.LruCache.Bypass | cache/cache.go:69-76 | With two or more nodes, the node leaves the ring and the view, and the others keep their order. |
| Cache.LruCache.Relink | cache/cache.go:69-76 | Head moves on if it was the node, the node's two neighbours point to each other, and every other link of the ring is as before. |
| Cache.LruCache.UnlinkedChain | cache/cache.go:69-76 | After the two link updates, the remaining nodes form a ring in the old order. |
| Cache.LruCache.StoreDelete | cache/cache.go:116 | `delete(store, k)` removes exactly k from the store and leaves the list as it was. |
| Cache.LruCache.StorePut | cache/cache.go:95 | `store[k] = node` maps exactly k to the node and leaves the list as it was. |
| Cache.LruCache.RemoveEntry | cache/cache.go:114-116 | removeFromList followed by delete: the entry leaves the ring, the view and the store, the invariant is kept, and the store shrinks by one. |
| Cache.LruCache.AppendEntry | cache/cache.go:120-121 | addToTail followed by a store put: the new key becomes the last entry of the ring and of the view, and is stored under its key. |
| Cache.LruCache.Reinsert | cache/cache.go:93-95 | The node is unlinked, and a fresh node for the same key with the given value becomes head and is stored. The view becomes that entry followed by the old view without position `at`. |
| Cache.LruCache.Get | cache/cache.go:79-98 | Get reports (value, true) exactly when the key was cached, with the value it held, and ("", false) with nothing changed otherwise. On a hit, the view becomes Promote(old view, key, "") and the key's new head node holds "". |
| Cache.LruCache.GetKeepingValue | cache/cache.go:79-98 | The corrected Get: the same result as Get, and on a hit the same fresh head node stored under the key, but holding the value read; the view becomes Refresh(old view, key), so no value changes. |
| Cache.LruCache.SetValue | cache/cache.go:108 | `existing.value = value`: the node at position `at` and its entry take the new value. The order and the store are unchanged. |
| Cache.LruCache.UpdateExisting | cache/cache.go:106-110 | Set on a cached key: the view becomes Overwrite(old view, key, value), and the ring and the store are unchanged. |
| Cache.LruCache.EvictTail | cache/cache.go:113-117 | When the store is not empty, the tail head.prev (the last entry of the view) leaves the ring, the view and the store. |
| Cache.LruCache.MakeRoom | cache/cache.go:112-117 | When the store is full the tail leaves the view, which otherwise stays as it was. Afterwards the store has room for one more key, and a key not stored is still not stored. |
| Cache.LruCache.InsertNew | cache/cache.go:112-122 | Set on a new key: the view becomes Admit(old view, capacity, key, value), and the new node is stored and last in the ring. |
| Cache.LruCache.Set | cache/cache.go:100-123 | Set reports true exactly when the key was cached. If so, the view becomes Overwrite(old view, key, value) and the ring and store are unchanged. Otherwise, the view becomes Admit(old view, capacity, key, value), with eviction of the tail when full. |
| Cache.LruCache.Delete | cache/cache.go:125-139 | Delete reports (value, true) exactly when the key was cached, with its value, and ("", false) otherwise. The view becomes Without(old view, key), and on a hit the store loses exactly that key. |
| Cache.LruCache.Capacity | cache/cache.go:141-143 | The capacity is positive and bounds the number of stored keys. |
| Cache.IndexedWithout | cache/cache.go:114-116 | Unlinking a node and deleting its key keeps ring and store in agreement. |
| Cache.WithoutKeepsSlots | cache/cache.go:114-116 | Every node left on the ring is still stored under its key. |
| Cache.WithoutKeepsCover | cache/cache.go:114-116 | Every node still stored is left on the ring. |
| Cache.IndexedInsert | cache/cache.go:120-121 | A new node under a new key, added at either end of the ring and to the store, keeps them in agreement. |
| Cache.NewCache | cache/cache.go:145-159 | Fails with InvalidCapacity exactly when the capacity is not positive; otherwise returns a fresh, valid, empty cache with that capacity. |
| Integrity.Walk | cache/cache_utils_test.go:32-35 | The walk of k steps from a node has at most k nodes and starts at that node. |
| Integrity.WalkStep | cache/cache_utils_test.go:73 | One more step of the walk appends the next node, or stops at nil. |
| Integrity.WalkPrefix | cache/cache_utils_test.go:35-79 | A shorter walk is a prefix of a longer one. |
| Integrity.WalkAlongRing | cache/cache_utils_test.go:35-79 | Walking from any node of a ring follows the ring to its end. |
| Integrity.WalkLinks | cache/cache_utils_test.go:73 | Consecutive nodes of a walk are linked by next. |
| Integrity.ClosesAtHead | cache/cache_utils_test.go:42-46 | When the check passes, the walk closes back at head: closing into the middle would give a node two different prev nodes. |
| Integrity.IntegrityIsRing | cache/cache_utils_test.go:15-89 | The check accepts a non-empty cache exactly when the store fits the capacity and the walk from head is a mirrored ring whose nodes are exactly the stored ones, each under its own key. An empty cache is accepted exactly when head is nil. |
| Integrity.ValidImpliesIntegrity | cache/cache_utils_test.go:15-89 | Every cache that keeps the invariant passes the check. |
| Integrity.WalkContinues | cache/cache_utils_test.go:37-69 | While the walk is shorter than the store, the next node is non-nil, unvisited and passes the node checks; after all n nodes it is a visited one. |
| Integrity.WalkRing | cache/cache_utils_test.go:30-79 | The traversal loop succeeds exactly when the walk of n nodes passes every check. On success, the visited set is exactly the walk's nodes. |
| Integrity.VerifyIntegrity | cache/cache_utils_test.go:15-89 | verifyIntegrity returns no error exactly when Integrity holds. |
| Scenarios.Check | cache/cache_test.go:134-136 | The integrity check passes on every cache that keeps the invariant. |
| Scenarios.SetRow | cache/cache_test.go:128-138 | One Set row: the result says whether the key was cached, the view follows Set, and the check passes. |
| Scenarios.GetRow | cache/cache_test.go:152-162 | One Get row: the result is the key's lookup in the old view, the view follows Get, and the check passes. |
| Scenarios.EvictionAddFirst | cache/cache_test.go:178 | "add first": key1 is set and found. |
| Scenarios.EvictionAddSecond | cache/cache_test.go:179 | "add second": key2 is set and found, and the Get moves it to the head. |
| Scenarios.EvictionEvictFirst | cache/cache_test.go:180 | "evict first": setting key3 in the full cache evicts key1, the tail. |
| Scenarios.EvictionVerifySecond | cache/cache_test.go:181 | "verify second": key2 is found, and the view is unchanged because key2 is already at the head. |
| Scenarios.EvictionVerifyThird | cache/cache_test.go:182 | "verify third": key3 is found and moves to the head. |
| Scenarios.EvictionVerify | cache/cache_test.go:181-182 | The two verify rows: key2 and key3 are found, and key3 ends at the head. |
| Scenarios.EvictionOpening | cache/cache_test.go:178-180 | The first three rows: key1 and key2 are found, and setting key3 evicts key1. |
| Scenarios.Eviction | cache/cache_test.go:166-204 | TestEviction's expected results all hold, and the check passes after every step. |
| Scenarios.EvictionUpdateSecond | cache/cache_sequential_test.go:169 | "change priority by update": key2 takes "hi" in place and stays at the tail, and the Get of a key never set misses. |
| Scenarios.EvictionEvictSecond | cache/cache_sequential_test.go:170 | "evict second": setting key4 in the full cache evicts key2, the tail, so key3 is still found. |
| Scenarios.SequentialEviction | cache/cache_sequential_test.go:151-192 | The longer TestEviction as the code runs it: key1 is evicted, the update of key2 succeeds, the missing key misses, and key3 survives the insertion of key4. |
| Scenarios.SingleSet | cache/cache_test.go:211-225 | Set of key1 in a cache of capacity 1: an insert on the empty cache, an update over the existing entry. |
| Scenarios.SingleGet | cache/cache_test.go:217-228 | Get of key1 reports the value last set. |
| Scenarios.SingleSetThenGet | cache/cache_test.go:211-231 | Set followed by Get of key1 reports the value just set. |
| Scenarios.SingleDelete | cache/cache_test.go:234-244 | Delete of key1 succeeds, and a later Get misses. |
| Scenarios.SingleOpening | cache/cache_test.go:209-244 | Set, Get, update, Get, Delete and Get on a cache of capacity 1 give the expected results, and the cache ends empty. |
| Scenarios.SingleElement | cache/cache_test.go:206-246 | TestSingleElement's expected results all hold. |
| Scenarios.RefillSets | cache/cache_sequential_test.go:131-136 | key1 goes into the emptied cache, and key2 then evicts it, so the cache holds key2 alone. |
| Scenarios.RefillGets | cache/cache_sequential_test.go:137-146 | key1 misses, and key2 returns ("val2", true). |
| Scenarios.SingleGetKey2 | cache/cache_sequential_test.go:141 | Get of key2 in a cache holding only key2 returns its value. |
| Scenarios.SequentialSingleElement | cache/cache_sequential_test.go:93-148 | The longer TestSingleElement: after the opening, key1 is set again, key2 evicts it, key1 misses and key2 returns "val2". |
| Scenarios.NewCacheTable | cache/cache_test.go:85-108 | TestNewCache: capacity 5 gives an empty cache, and capacities 0 and -1 are refused. |
| Scenarios.EmptyCache | cache/cache_test.go:248-268 | Get and Delete on an empty cache report false, and the check passes. |
| Scenarios.TailInsertsTwo | cache/cache.go:119-121 | Set a then Set b on an empty cache of capacity 2 lists a then b: each new key lands at the tail. |
| Scenarios.TailInsertThird | cache/cache.go:112-121 | Set c on the full cache evicts b, the key set just before, and keeps a. |
| Scenarios.TailProbe | cache/cache.go:79-98 | After those Sets, Get b misses and Get a returns ("1", true). |
| Scenarios.NewestEvictedFirst | cache/cache.go:100-123 | With capacity 2 and no Get in between, Set a, Set b, Set c evicts b and keeps a: the newest key is the next one evicted. |
| Scenarios.KeepingGetRow | cache/cache.go:79-98 | One call of the corrected Get returns the key's lookup in the old view and leaves the view refreshed. |
| Scenarios.RepeatedGetsAgree | cache/cache.go:79-98 | Two calls of the corrected Get on any key, one after the other, return the same value and flag, the key's lookup before the first. |
| Scenarios.BasicSetFirst | cache/cache_test.go:123 | "set new item 1" reports false. |
| Scenarios.BasicSetSecond | cache/cache_test.go:124 | "set new item 2" reports false. |
| Scenarios.BasicUpdate | cache/cache_test.go:125 | "update existing" reports true. |
| Scenarios.BasicSets | cache/cache_test.go:117-138 | The Set table reports false, false, true. |
| Scenarios.BasicGetFirst | cache/cache_test.go:147 | "get existing updated" returns ("value1-updated", true). |
| Scenarios.BasicGetSecond | cache/cache_test.go:148 | "get existing" returns ("value2", true). |
| Scenarios.BasicGetMissing | cache/cache_test.go:149 | "get nonexistent" returns ("", false). |
| Scenarios.BasicGets | cache/cache_test.go:141-163 | The Get table returns the expected pairs. |
| Scenarios.BasicOperations | cache/cache_test.go:110-164 | TestBasicOperations' expected results all hold. |

## Left out

- The mutex (cache.go:20 and the Lock/Unlock pairs in Get, Set and Delete) is not modelled. Methods run one at a time, which is what the lock guarantees. Concurrent interleavings are out of scope.
- Error messages (cache.go:147; the fmt.Errorf calls in cache_utils_test.go) are not modelled. NewCache's error is the single value `InvalidCapacity`, and verifyIntegrity returns a boolean: true for nil, false for any error.
- main.go (a demonstration program that prints) and cache/cache_concurrent_test.go (goroutines) are not part of this model.
- cache/cache_sequential_test.go: its TestEviction and TestSingleElement are replayed, as `Scenarios.SequentialEviction` and `Scenarios.SequentialSingleElement`. Its remaining tests are not replayed on their own.
- Scenarios.SequentialEviction: the last row of that test (cache/cache_sequential_test.go:170) expects key3 to be evicted. By the code, a Set on a cached key changes its value in place without moving it (cache.go:106-110), so key2 is the tail and is evicted, and key3 is still found. The model follows the code, which is also the documented behaviour: an update does not refresh recency. Its contract states that key3 is found.
- Cache.CacheNode: `key` is a `const`. The Go code never reassigns a node's key after addToHead sets it.
- The list's `order`, `Contents` and `Repr` are ghost state with no counterpart in the Go structs. They name the ring's nodes and the cache's view so that contracts can speak of them.
- There is no Len operation in cache.go, so none is modelled. The number of entries is `|store|`.
- Integrity.WalkRing: the traversal loop of verifyIntegrity is a method of its own, separate from the store scan, so that each loop is proved on its own. The checks and their order are those of the source.
- Integrity.WalkRing: cache/cache_utils_test.go:31 declares `visited` as a `map[*cacheNode]bool`, but cache.go defines `CacheNode` and no `cacheNode`, so that file does not build either, read as text. The model reads `visited` as a set of `CacheNode`, the type the traversal walks.
- Read as text, the two test files do not build as one package: both declare TestNewCache, TestEviction and other tests in package cache, and they use the two-result Delete as one value. The scenarios replay what each test expects, against cache.go.
- cache/cache_test.go declares its own `verifyIntegrity(t, cache)` (lines 10-83) beside the one in cache/cache_utils_test.go, and calls `cache.Delete` as if it returned one value. The model follows cache.go (Delete returns a value and a flag) and the cache_utils_test.go version of the check.

## Findings

| source | as written | input that shows it | evidently intended | confidence | as-written member | corrected member |
|---|---|---|---|---|---|---|
| cache/cache.go:94 | `addToHead(key, value)` is called with Get's named result `value`, which is still "" at that point, so the refreshed node stores "" | Set("a", "1"); Get("a") returns ("1", true); a second Get("a") returns ("", true) | the refreshed node keeps the stored value, `addToHead(key, node.value)`, so Get changes recency only | high (not executed) | Entries.SecondGetSeesEmptyExample | Cache.LruCache.GetKeepingValue |

The as-written Get is `Cache.LruCache.Get`. Its contract has the view become
`Promote(old view, key, "")`, and `Entries.SecondGetSeesEmpty` proves that the
key then reads "". The corrected `Cache.LruCache.GetKeepingValue` differs only
in the value passed to `Reinsert`. Its view becomes `Refresh(old view, key)`,
and `Entries.RefreshKeepsValues` proves that this changes no key's value.
`Scenarios.RepeatedGetsAgree` calls it twice on one cache and shows that both
calls return the same value.

TestEviction in cache/cache_test.go reads key2 at line 179 and again at line 181, with no Set of key2 in between. The second Get returns "" (`Scenarios.EvictionAddSecond` leaves key2 holding ""), but the test compares only the flag `ok` (line 193), not the value, so it does not notice. `Scenarios.SingleElement` sets key1 again before its second Get.
