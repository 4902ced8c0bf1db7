/** The abstract view of the cache: its entries listed from most recently used
    (the list head) to least recently used (the tail, head.prev). Each public
    operation of the cache is specified as a function from the old view to the
    new one; the lemmas here state what those functions promise. */
module Entries {

  datatype Option<T> = None | Some(value: T)

  /** One cached pair, as a list node holds it. */
  datatype Entry = Entry(key: string, value: string)

  /** The store maps each key to one node, so no key is listed twice. */
  predicate UniqueKeys(es: seq<Entry>)
  {
    forall i, j :: 0 <= i < j < |es| ==> es[i].key != es[j].key
  }

  /** Position of the first entry for `key`, if any. */
  function Find(es: seq<Entry>, key: string): (r: Option<nat>)
    ensures r.Some? ==> r.value < |es| && es[r.value].key == key
    ensures r.Some? ==> forall j :: 0 <= j < r.value ==> es[j].key != key
    ensures r.None? <==> forall j :: 0 <= j < |es| ==> es[j].key != key
  {
    if es == [] then None
    else if es[0].key == key then Some(0)
    else match Find(es[1..], key)
      case None => None
      case Some(i) => Some(i + 1)
  }

  /** The value the store holds for `key`, if the key is cached. */
  function Lookup(es: seq<Entry>, key: string): Option<string>
  {
    match Find(es, key)
    case None => None
    case Some(i) => Some(es[i].value)
  }

  /** The view with the entry for `key` unlinked; the others keep their order. */
  function Without(es: seq<Entry>, key: string): seq<Entry>
  {
    if es == [] then []
    else if es[0].key == key then Without(es[1..], key)
    else [es[0]] + Without(es[1..], key)
  }

  /** Effect of Get on a cached key: the entry is unlinked and a new node
      carrying `value` is put at the head. */
  function Promote(es: seq<Entry>, key: string, value: string): seq<Entry>
  {
    [Entry(key, value)] + Without(es, key)
  }

  /** Effect of Set on a cached key: the value changes in place, the position
      does not. */
  function Overwrite(es: seq<Entry>, key: string, value: string): seq<Entry>
  {
    match Find(es, key)
    case None => es
    case Some(i) => es[i := Entry(key, value)]
  }

  /** Effect of Set on a new key: when the cache is full the tail is evicted,
      then the new entry is appended at the tail. */
  function Admit(es: seq<Entry>, capacity: int, key: string, value: string): seq<Entry>
    requires 0 < capacity
  {
    (if |es| == capacity then es[..|es| - 1] else es) + [Entry(key, value)]
  }

  /** What Get on a cached key would leave if the refreshed node kept the value
      it had (the evidently intended behaviour, see GetKeepingValue). */
  function Refresh(es: seq<Entry>, key: string): seq<Entry>
  {
    match Lookup(es, key)
    case None => es
    case Some(v) => Promote(es, key, v)
  }

  // ---------------------------------------------------------------------
  // Lookup in a view without duplicate keys

  /** With unique keys, the entry at any position is the one Lookup finds. */
  lemma LookupAt(es: seq<Entry>, i: nat)
    requires UniqueKeys(es) && i < |es|
    ensures Find(es, es[i].key) == Some(i)
    ensures Lookup(es, es[i].key) == Some(es[i].value)
  {
  }

  /** A key is cached exactly when some position holds it. */
  lemma LookupNone(es: seq<Entry>, key: string)
    ensures Lookup(es, key).None? <==> forall j :: 0 <= j < |es| ==> es[j].key != key
  {
  }

  /** Removing the entry at position i does not change what another key finds. */
  lemma {:induction false} LookupRemoveAt(es: seq<Entry>, i: nat, key: string)
    requires i < |es| && es[i].key != key
    ensures Lookup(es[..i] + es[i + 1..], key) == Lookup(es, key)
  {
    var r := es[..i] + es[i + 1..];
    if i == 0 {
      assert r == es[1..];
    } else if es[0].key != key {
      assert r[1..] == es[1..][..i - 1] + es[1..][i..];
      LookupRemoveAt(es[1..], i - 1, key);
    }
  }

  /** Replacing an entry of another key by one of another key does not change
      what a key finds. */
  lemma {:induction false} LookupReplaceOther(es: seq<Entry>, i: nat, e: Entry, key: string)
    requires i < |es| && es[i].key != key && e.key != key
    ensures Lookup(es[i := e], key) == Lookup(es, key)
  {
    if i > 0 && es[0].key != key {
      assert es[i := e][1..] == es[1..][i - 1 := e];
      LookupReplaceOther(es[1..], i - 1, e, key);
    }
  }

  /** Appending an entry for another key does not change what a key finds. */
  lemma {:induction false} LookupAppend(es: seq<Entry>, e: Entry, key: string)
    requires e.key != key
    ensures Lookup(es + [e], key) == Lookup(es, key)
  {
    if es != [] && es[0].key != key {
      assert (es + [e])[1..] == es[1..] + [e];
      LookupAppend(es[1..], e, key);
    }
  }

  // ---------------------------------------------------------------------
  // Without

  lemma {:induction false} WithoutAbsent(es: seq<Entry>, key: string)
    requires forall j :: 0 <= j < |es| ==> es[j].key != key
    ensures Without(es, key) == es
  {
    if es != [] {
      WithoutAbsent(es[1..], key);
    }
  }

  /** Unlinking the node at position i removes exactly that position. */
  lemma {:induction false} WithoutAt(es: seq<Entry>, i: nat)
    requires UniqueKeys(es) && i < |es|
    ensures Without(es, es[i].key) == es[..i] + es[i + 1..]
  {
    if i == 0 {
      WithoutAbsent(es[1..], es[0].key);
    } else {
      assert es[1..][i - 1] == es[i];
      WithoutAt(es[1..], i - 1);
      assert es[1..][..i - 1] + es[1..][i..] == es[1..i] + es[i + 1..];
      assert [es[0]] + es[1..i] == es[..i];
    }
  }

  /** Delete on a cached key: the view loses exactly that key, shrinks by one,
      and every other key keeps its value and relative order. */
  lemma WithoutRemovesOne(es: seq<Entry>, key: string)
    requires UniqueKeys(es) && Lookup(es, key).Some?
    ensures |Without(es, key)| == |es| - 1
    ensures UniqueKeys(Without(es, key))
    ensures Lookup(Without(es, key), key).None?
    ensures forall k :: k != key ==> Lookup(Without(es, key), k) == Lookup(es, k)
  {
    var i := Find(es, key).value;
    WithoutAt(es, i);
    LookupNone(es[..i] + es[i + 1..], key);
    forall k | k != key
      ensures Lookup(Without(es, key), k) == Lookup(es, k)
    {
      LookupRemoveAt(es, i, k);
    }
  }

  /** Delete on a key that is not cached changes nothing. */
  lemma WithoutMissing(es: seq<Entry>, key: string)
    requires Lookup(es, key).None?
    ensures Without(es, key) == es
  {
    WithoutAbsent(es, key);
  }

  // ---------------------------------------------------------------------
  // Promote (Get)

  /** Get on a cached key moves it to the head with the given value; the size
      is unchanged and the other keys keep their values and relative order. */
  lemma PromoteMovesToHead(es: seq<Entry>, key: string, value: string)
    requires UniqueKeys(es) && Lookup(es, key).Some?
    ensures var r := Promote(es, key, value);
      |r| == |es| && UniqueKeys(r) && r[0] == Entry(key, value) &&
      Without(r, key) == Without(es, key) &&
      Lookup(r, key) == Some(value) &&
      forall k :: k != key ==> Lookup(r, k) == Lookup(es, k)
  {
    var w := Without(es, key);
    WithoutRemovesOne(es, key);
    var r := [Entry(key, value)] + w;
    assert r[1..] == w;
    LookupNone(w, key);
    WithoutAbsent(w, key);
    forall k | k != key
      ensures Lookup(r, k) == Lookup(w, k)
    {
      assert Find(r, k) == match Find(w, k) case None => None case Some(i) => Some(i + 1);
    }
  }

  /** As written, Get re-inserts the key with the empty string, so a second Get
      of the same key reports "" whatever value was stored. */
  lemma SecondGetSeesEmpty(es: seq<Entry>, key: string)
    requires UniqueKeys(es) && Lookup(es, key).Some?
    ensures Lookup(Promote(es, key, ""), key) == Some("")
  {
    PromoteMovesToHead(es, key, "");
  }

  /** A concrete instance: "a" holds "1"; the first Get sees "1", the second "". */
  lemma SecondGetSeesEmptyExample()
    ensures Lookup([Entry("a", "1")], "a") == Some("1")
    ensures Lookup(Promote([Entry("a", "1")], "a", ""), "a") == Some("")
  {
    SecondGetSeesEmpty([Entry("a", "1")], "a");
  }

  /** With the intended refresh, Get changes recency only: every key, the one
      read included, still maps to the same value, so repeated Gets agree. */
  lemma RefreshKeepsValues(es: seq<Entry>, key: string)
    requires UniqueKeys(es)
    ensures |Refresh(es, key)| == |es| && UniqueKeys(Refresh(es, key))
    ensures forall k :: Lookup(Refresh(es, key), k) == Lookup(es, k)
    ensures Lookup(es, key).Some? ==> Refresh(es, key)[0].key == key
  {
    match Lookup(es, key)
    case None =>
    case Some(v) =>
      PromoteMovesToHead(es, key, v);
  }

  // ---------------------------------------------------------------------
  // Overwrite and Admit (Set)

  /** Set on a cached key: same keys in the same order, only that key's value
      changes. */
  lemma OverwriteInPlace(es: seq<Entry>, key: string, value: string)
    requires UniqueKeys(es) && Lookup(es, key).Some?
    ensures var r := Overwrite(es, key, value);
      |r| == |es| && UniqueKeys(r) &&
      (forall j :: 0 <= j < |es| ==> r[j].key == es[j].key) &&
      Lookup(r, key) == Some(value) &&
      forall k :: k != key ==> Lookup(r, k) == Lookup(es, k)
  {
    var i := Find(es, key).value;
    var r := es[i := Entry(key, value)];
    LookupAt(r, i);
    forall k | k != key
      ensures Lookup(r, k) == Lookup(es, k)
    {
      LookupReplaceOther(es, i, Entry(key, value), k);
    }
  }

  /** Set on a new key: the new entry becomes the tail; if the cache was full
      exactly the old tail is evicted; the bound |view| <= capacity is kept and
      every other key keeps its value. */
  lemma AdmitAtTail(es: seq<Entry>, capacity: int, key: string, value: string)
    requires 0 < capacity && |es| <= capacity
    requires UniqueKeys(es) && Lookup(es, key).None?
    ensures var r := Admit(es, capacity, key, value);
      UniqueKeys(r) && |r| <= capacity &&
      r[|r| - 1] == Entry(key, value) &&
      Lookup(r, key) == Some(value) &&
      (|es| < capacity ==> |r| == |es| + 1) &&
      (|es| == capacity ==> |r| == |es| && Lookup(r, es[|es| - 1].key).None?) &&
      forall k :: k != key && (|es| == capacity ==> k != es[|es| - 1].key) ==>
        Lookup(r, k) == Lookup(es, k)
  {
    var n := |es|;
    var r := Admit(es, capacity, key, value);
    AdmitUnique(es, capacity, key, value);
    LookupAt(r, |r| - 1);
    if n == capacity {
      LookupNone(r, es[n - 1].key);
    }
    forall k | k != key && (n == capacity ==> k != es[n - 1].key)
      ensures Lookup(r, k) == Lookup(es, k)
    {
      AdmitKeepsOther(es, capacity, key, value, k);
    }
  }

  /** Admitting a new key keeps keys unique. */
  lemma AdmitUnique(es: seq<Entry>, capacity: int, key: string, value: string)
    requires 0 < capacity && UniqueKeys(es) && Lookup(es, key).None?
    ensures UniqueKeys(Admit(es, capacity, key, value))
  {
    LookupNone(es, key);
    var kept := if |es| == capacity then es[..|es| - 1] else es;
    assert forall i :: 0 <= i < |kept| ==> kept[i] == es[i];
  }

  /** A key that is neither admitted nor evicted finds what it found before. */
  lemma AdmitKeepsOther(es: seq<Entry>, capacity: int, key: string, value: string, k: string)
    requires 0 < capacity && |es| <= capacity
    requires k != key && (|es| == capacity ==> k != es[|es| - 1].key)
    ensures Lookup(Admit(es, capacity, key, value), k) == Lookup(es, k)
  {
    var n := |es|;
    var kept := if n == capacity then es[..n - 1] else es;
    LookupAppend(kept, Entry(key, value), k);
    if n == capacity {
      assert es == kept + [es[n - 1]];
      LookupAppend(kept, es[n - 1], k);
    }
  }

  /** Set followed by Get of the same key reports the value just set, whether
      the key was updated or admitted (a key never evicts itself). */
  lemma SetThenGet(es: seq<Entry>, capacity: int, key: string, value: string)
    requires 0 < capacity && |es| <= capacity && UniqueKeys(es)
    ensures Lookup(es, key).Some? ==> Lookup(Overwrite(es, key, value), key) == Some(value)
    ensures Lookup(es, key).None? ==> Lookup(Admit(es, capacity, key, value), key) == Some(value)
  {
    if Lookup(es, key).Some? {
      OverwriteInPlace(es, key, value);
    } else {
      AdmitAtTail(es, capacity, key, value);
    }
  }
}
