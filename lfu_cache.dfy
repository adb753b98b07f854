/**
 * LFUCache (0x01-caching/100-lfu_cache.py): three dicts with the same keys,
 * `cache_data`, `usage_frequency` and `access_order`, bounded by MAX_ITEMS. Every
 * touch of a key (an accepted `put`, a `get` hit) adds one to its frequency and sets
 * its access order to the number of entries `access_order` has just before. When a
 * `put` makes the cache overflow, the key with the least (frequency, access order)
 * is discarded, chosen with Python's `min` over the keys, including the key just put.
 */
module LfuCache {
  import opened Wrappers
  import opened KeyOrder

  /** The state of an LFUCache. The three dicts always receive and lose keys
      together, so they share one insertion order, `keyOrder`, which is the order
      in which `min` visits the keys. */
  datatype Lfu<K, V> = Lfu(
    keyOrder: seq<K>,
    cacheData: map<K, V>,
    usageFrequency: map<K, nat>,
    accessOrder: map<K, nat>)

  /** The three dicts have the same keys, listed once each in `keyOrder`. */
  ghost predicate Synced<K(!new), V>(s: Lfu<K, V>) {
    && ListsKeys(s.keyOrder, s.cacheData)
    && (forall k :: k in s.usageFrequency <==> k in s.cacheData)
    && (forall k :: k in s.accessOrder <==> k in s.cacheData)
  }

  /** `len(access_order)` is the number of items. */
  lemma AccessOrderSize<K(!new), V>(s: Lfu<K, V>)
    requires Synced(s)
    ensures |s.accessOrder| == |s.cacheData|
  {
    assert s.accessOrder.Keys == s.cacheData.Keys;
  }

  /** What every reachable state satisfies. */
  ghost predicate Inv<K(!new), V>(s: Lfu<K, V>, maxItems: nat) {
    maxItems > 0 && |s.cacheData| <= maxItems && Synced(s)
  }

  /** The order of the `min` key `(usage_frequency[k], access_order[k])`: tuples
      compare lexicographically. */
  predicate Less<K>(x: K, y: K, f: map<K, nat>, a: map<K, nat>)
    requires x in f && x in a && y in f && y in a
  {
    f[x] < f[y] || (f[x] == f[y] && a[x] < a[y])
  }

  /** The position of the key that `min(usage_frequency, key=...)` returns: `min`
      scans the keys from the left and replaces its candidate only by a strictly
      smaller key. `LeastUsedIndexIsFirstLeast` states what it finds. */
  function LeastUsedIndex<K>(keys: seq<K>, f: map<K, nat>, a: map<K, nat>): (i: nat)
    requires |keys| > 0
    requires forall j :: 0 <= j < |keys| ==> keys[j] in f && keys[j] in a
    ensures i < |keys|
    decreases |keys|
  {
    if |keys| == 1 then 0
    else
      var m := LeastUsedIndex(keys[..|keys| - 1], f, a);
      if Less(keys[|keys| - 1], keys[m], f, a) then |keys| - 1 else m
  }

  /** `min` returns a least key, and the first among equally small ones: no key is
      strictly less than it, and it is strictly less than every key before it. */
  lemma {:induction false} LeastUsedIndexIsFirstLeast<K>(keys: seq<K>, f: map<K, nat>, a: map<K, nat>)
    requires |keys| > 0
    requires forall j :: 0 <= j < |keys| ==> keys[j] in f && keys[j] in a
    ensures var i := LeastUsedIndex(keys, f, a);
            && (forall j :: 0 <= j < |keys| ==> !Less(keys[j], keys[i], f, a))
            && (forall j :: 0 <= j < i ==> Less(keys[i], keys[j], f, a))
    decreases |keys|
  {
    if |keys| > 1 {
      var init := keys[..|keys| - 1];
      LeastUsedIndexIsFirstLeast(init, f, a);
      var m := LeastUsedIndex(init, f, a);
      assert forall j :: 0 <= j < |init| ==> init[j] == keys[j];
    }
  }

  /** The bookkeeping of one accepted `put(k, v)`: store the item (a new key is
      appended to the dict order), add one to the frequency or start it at 1, and
      set the access order to `len(access_order)` before the assignment. */
  function Touch<K, V>(s: Lfu<K, V>, k: K, v: V): Lfu<K, V> {
    Lfu(
      if k in s.cacheData then s.keyOrder else s.keyOrder + [k],
      s.cacheData[k := v],
      if k in s.usageFrequency then s.usageFrequency[k := s.usageFrequency[k] + 1] else s.usageFrequency[k := 1],
      s.accessOrder[k := |s.accessOrder|])
  }

  /** A touch keeps the dicts in step, stores the item, counts one more use (the
      first use of a new key), records `len(access_order)`, which equals the number
      of items before the touch, and leaves every other key's bookkeeping alone. */
  lemma TouchSynced<K(!new), V>(s: Lfu<K, V>, k: K, v: V)
    requires Synced(s)
    ensures var r := Touch(s, k, v);
            && Synced(r)
            && r.cacheData == s.cacheData[k := v]
            && r.keyOrder == (if k in s.cacheData then s.keyOrder else s.keyOrder + [k])
            && r.usageFrequency[k] == (if k in s.cacheData then s.usageFrequency[k] + 1 else 1)
            && r.accessOrder[k] == |s.cacheData|
            && (forall y :: y in s.cacheData && y != k ==>
                  r.usageFrequency[y] == s.usageFrequency[y] && r.accessOrder[y] == s.accessOrder[y])
  {
    StoreListed(s.keyOrder, s.cacheData, k, v);
    AccessOrderSize(s);
  }

  /** The position in `keyOrder` of the key that `min` picks. */
  function VictimIndex<K(!new), V>(t: Lfu<K, V>): (i: nat)
    requires Synced(t) && |t.cacheData| > 0
    ensures i < |t.keyOrder| && t.keyOrder[i] in t.cacheData
  {
    FirstListed(t.keyOrder, t.cacheData);
    LeastUsedIndex(t.keyOrder, t.usageFrequency, t.accessOrder)
  }

  /** `del` of the key at position `i` of the dict order from all three dicts. */
  function Evict<K, V>(t: Lfu<K, V>, i: nat): Lfu<K, V>
    requires i < |t.keyOrder|
  {
    var x := t.keyOrder[i];
    Lfu(RemoveAt(t.keyOrder, i), t.cacheData - {x}, t.usageFrequency - {x}, t.accessOrder - {x})
  }

  /** Evicting a listed key keeps the dicts in step, removes exactly that key and
      leaves the other keys' items and bookkeeping alone. */
  lemma EvictSynced<K(!new), V>(t: Lfu<K, V>, i: nat)
    requires Synced(t) && i < |t.keyOrder|
    ensures var r := Evict(t, i);
            && Synced(r)
            && |r.cacheData| == |t.cacheData| - 1
            && (forall y :: y in r.cacheData <==> y in t.cacheData && y != t.keyOrder[i])
            && (forall y :: y in r.cacheData ==>
                  r.cacheData[y] == t.cacheData[y] && r.usageFrequency[y] == t.usageFrequency[y] &&
                  r.accessOrder[y] == t.accessOrder[y])
  {
    RemoveListed(t.keyOrder, t.cacheData, i);
  }

  /** The key `min(...)` returns in a state `t`: it has the least (frequency, access
      order) of all keys, and every key before it in dict order is strictly greater. */
  ghost predicate IsLeastUsed<K(!new), V>(t: Lfu<K, V>, x: K)
    requires Synced(t)
  {
    && x in t.cacheData
    && (forall y :: y in t.cacheData ==> !Less(y, x, t.usageFrequency, t.accessOrder))
    && (forall j :: 0 <= j < IndexOf(t.keyOrder, x) ==> Less(x, t.keyOrder[j], t.usageFrequency, t.accessOrder))
  }

  /** The key that `put(key, item)` discards, if any. */
  function Discarded<K(!new), V>(s: Lfu<K, V>, maxItems: nat, key: Option<K>, item: Option<V>): (d: Option<K>)
    requires Inv(s, maxItems)
    ensures d.Some? <==> key.Some? && item.Some? && key.value !in s.cacheData && |s.cacheData| == maxItems
  {
    if key.None? || item.None? then None
    else
      TouchSynced(s, key.value, item.value);
      var t := Touch(s, key.value, item.value);
      if |t.cacheData| > maxItems then
        Some(t.keyOrder[VictimIndex(t)])
      else
        None
  }

  /** `VictimIndex` finds the key `IsLeastUsed` describes. */
  lemma VictimIsLeastUsed<K(!new), V>(t: Lfu<K, V>)
    requires Synced(t) && |t.cacheData| > 0
    ensures IsLeastUsed(t, t.keyOrder[VictimIndex(t)])
  {
    var i := VictimIndex(t);
    var x := t.keyOrder[i];
    IndexOfDistinct(t.keyOrder, i);
    LeastUsedIndexIsFirstLeast(t.keyOrder, t.usageFrequency, t.accessOrder);
    forall y | y in t.cacheData ensures !Less(y, x, t.usageFrequency, t.accessOrder) {
      var j := IndexOf(t.keyOrder, y);
    }
  }

  /** The state after `put(key, item)`. */
  function AfterPut<K(!new), V>(s: Lfu<K, V>, maxItems: nat, key: Option<K>, item: Option<V>): (r: Lfu<K, V>)
    requires Inv(s, maxItems)
    ensures Inv(r, maxItems)
    ensures key.None? || item.None? ==> r == s
  {
    if key.None? || item.None? then s
    else
      TouchSynced(s, key.value, item.value);
      var t := Touch(s, key.value, item.value);
      if |t.cacheData| > maxItems then
        EvictSynced(t, VictimIndex(t));
        Evict(t, VictimIndex(t))
      else
        t
  }

  /** The state after `get(key)`: a hit adds one to the key's frequency and sets its
      access order to `len(access_order)`; the items stay as they are. */
  function AfterGet<K(!new), V>(s: Lfu<K, V>, maxItems: nat, key: Option<K>): (r: Lfu<K, V>)
    requires Inv(s, maxItems)
    ensures Inv(r, maxItems)
    ensures r.cacheData == s.cacheData && r.keyOrder == s.keyOrder
    ensures key.None? || key.value !in s.cacheData ==> r == s
  {
    if key.None? || key.value !in s.cacheData then s
    else
      var k := key.value;
      Lfu(s.keyOrder, s.cacheData, s.usageFrequency[k := s.usageFrequency[k] + 1], s.accessOrder[k := |s.accessOrder|])
  }

  /** What `get(key)` returns: the stored item, or `None`. */
  function Lookup<K(!new), V>(s: Lfu<K, V>, key: Option<K>): (r: Option<V>)
    ensures r.Some? <==> key.Some? && key.value in s.cacheData
    ensures r.Some? ==> r.value == s.cacheData[key.value]
  {
    if key.Some? && key.value in s.cacheData then Some(s.cacheData[key.value]) else None
  }

  /** An accepted `put` is a touch, followed by the eviction of the least used key
      exactly when a new key overflows a full cache. */
  lemma PutCases<K(!new), V>(s: Lfu<K, V>, maxItems: nat, k: K, v: V)
    requires Inv(s, maxItems)
    ensures var overflow := k !in s.cacheData && |s.cacheData| == maxItems;
            var t := Touch(s, k, v);
            && Synced(t) && |t.cacheData| > 0
            && AfterPut(s, maxItems, Some(k), Some(v)) == (if overflow then Evict(t, VictimIndex(t)) else t)
            && Discarded(s, maxItems, Some(k), Some(v)) == (if overflow then Some(t.keyOrder[VictimIndex(t)]) else None)
  {
    TouchSynced(s, k, v);
  }

  /** The discarded key is the one `min` returns over the dicts after the touch: the
      least (frequency, access order) of all keys, the new key included, and the first
      in dict order among equally small ones. */
  lemma DiscardedIsLeastUsed<K(!new), V>(s: Lfu<K, V>, maxItems: nat, k: K, v: V)
    requires Inv(s, maxItems)
    ensures Synced(Touch(s, k, v))
    ensures var d := Discarded(s, maxItems, Some(k), Some(v));
            d.Some? ==> IsLeastUsed(Touch(s, k, v), d.value)
  {
    PutCases(s, maxItems, k, v);
    if k !in s.cacheData && |s.cacheData| == maxItems {
      VictimIsLeastUsed(Touch(s, k, v));
    }
  }

  /** Putting a present key never evicts, keeps the dict order, stores the item,
      adds one to the key's frequency and refreshes its access order. */
  lemma PutPresentKey<K(!new), V>(s: Lfu<K, V>, maxItems: nat, k: K, v: V)
    requires Inv(s, maxItems) && k in s.cacheData
    ensures Discarded(s, maxItems, Some(k), Some(v)) == None
    ensures var r := AfterPut(s, maxItems, Some(k), Some(v));
            && r.keyOrder == s.keyOrder
            && r.cacheData == s.cacheData[k := v]
            && r.usageFrequency[k] == s.usageFrequency[k] + 1
            && r.accessOrder[k] == |s.cacheData|
  {
    PutCases(s, maxItems, k, v);
    TouchSynced(s, k, v);
  }

  /** A new key starts at frequency 1 with access order `len(access_order)`, unless
      it is itself the key that the same `put` discards. */
  lemma PutNewKey<K(!new), V>(s: Lfu<K, V>, maxItems: nat, k: K, v: V)
    requires Inv(s, maxItems) && k !in s.cacheData
    ensures var r := AfterPut(s, maxItems, Some(k), Some(v));
            && (k in r.cacheData <==> Discarded(s, maxItems, Some(k), Some(v)) != Some(k))
            && (k in r.cacheData ==> r.cacheData[k] == v && r.usageFrequency[k] == 1 && r.accessOrder[k] == |s.cacheData|)
  {
    PutCases(s, maxItems, k, v);
    TouchSynced(s, k, v);
    var t := Touch(s, k, v);
    if |s.cacheData| == maxItems {
      EvictSynced(t, VictimIndex(t));
    }
  }

  /** A `put` evicts at most one key, the discarded one, and takes its frequency and
      access order with it; so a later `put` of that key starts again at 1. */
  lemma PutEvictsAtMostOne<K(!new), V>(s: Lfu<K, V>, maxItems: nat, k: K, v: V)
    requires Inv(s, maxItems)
    ensures var r := AfterPut(s, maxItems, Some(k), Some(v));
            var d := Discarded(s, maxItems, Some(k), Some(v));
            && (forall y :: y in r.cacheData <==> (y in s.cacheData || y == k) && d != Some(y))
            && (d.Some? ==> d.value !in r.usageFrequency && d.value !in r.accessOrder)
  {
    PutCases(s, maxItems, k, v);
    TouchSynced(s, k, v);
    var t := Touch(s, k, v);
    if k !in s.cacheData && |s.cacheData| == maxItems {
      var i := VictimIndex(t);
      EvictSynced(t, i);
    }
  }

  /** The other keys keep their items, frequencies and access orders. */
  lemma PutKeepsOthers<K(!new), V>(s: Lfu<K, V>, maxItems: nat, k: K, v: V, other: K)
    requires Inv(s, maxItems) && other != k
    requires other in AfterPut(s, maxItems, Some(k), Some(v)).cacheData
    ensures var r := AfterPut(s, maxItems, Some(k), Some(v));
            && other in s.cacheData
            && r.cacheData[other] == s.cacheData[other]
            && r.usageFrequency[other] == s.usageFrequency[other]
            && r.accessOrder[other] == s.accessOrder[other]
  {
    PutCases(s, maxItems, k, v);
    TouchSynced(s, k, v);
    var t := Touch(s, k, v);
    if k !in s.cacheData && |s.cacheData| == maxItems {
      EvictSynced(t, VictimIndex(t));
    }
  }

  /** When every key already in a full cache has been used at least twice, a new
      key is the least used one and is discarded by its own `put`. */
  lemma NewKeyEvictsItself<K(!new), V>(s: Lfu<K, V>, maxItems: nat, k: K, v: V)
    requires Inv(s, maxItems) && k !in s.cacheData && |s.cacheData| == maxItems
    requires forall y :: y in s.usageFrequency ==> s.usageFrequency[y] >= 2
    ensures Discarded(s, maxItems, Some(k), Some(v)) == Some(k)
    ensures k !in AfterPut(s, maxItems, Some(k), Some(v)).cacheData
  {
    PutCases(s, maxItems, k, v);
    TouchSynced(s, k, v);
    var t := Touch(s, k, v);
    var i := VictimIndex(t);
    var x := t.keyOrder[i];
    VictimIsLeastUsed(t);
    assert t.usageFrequency[k] == 1 && !Less(k, x, t.usageFrequency, t.accessOrder);
    assert forall y :: y in t.cacheData && y != k ==> t.usageFrequency[y] >= 2;
    EvictSynced(t, i);
  }

  /** `get` of a present key returns its item and touches it; the items stay. */
  lemma GetHit<K(!new), V>(s: Lfu<K, V>, maxItems: nat, k: K)
    requires Inv(s, maxItems) && k in s.cacheData
    ensures Lookup(s, Some(k)) == Some(s.cacheData[k])
    ensures var r := AfterGet(s, maxItems, Some(k));
            && r.cacheData == s.cacheData
            && r.usageFrequency[k] == s.usageFrequency[k] + 1
            && r.accessOrder[k] == |s.cacheData|
            && (forall y :: y in s.cacheData && y != k ==>
                  r.usageFrequency[y] == s.usageFrequency[y] && r.accessOrder[y] == s.accessOrder[y])
  {
    AccessOrderSize(s);
  }

  /** The choice `min` makes on a given state, written out by hand: key 1 has
      frequency 3, keys 2 and 3 frequency 1 each, and 2 has the smaller access order
      (1 against 2). Frequency decides first and access order breaks the tie, so 2 is
      chosen. */
  lemma FrequencyThenRecency()
    ensures LeastUsedIndex([1, 2, 3], map[1 := 3, 2 := 1, 3 := 1], map[1 := 2, 2 := 1, 3 := 2]) == 1
  {
  }

  /** The choice `min` makes on a given state, written out by hand, where keys 3, 4
      and 5 all stand at frequency 1 and access order 2. Such ties arise because an
      access order is an entry count, not a counter; `min` takes the first of them in
      dict order. */
  lemma ExactTieTakesFirstKey()
    ensures LeastUsedIndex([3, 4, 5], map[3 := 1, 4 := 1, 5 := 1], map[3 := 2, 4 := 2, 5 := 2]) == 0
  {
  }

  /** An LFU cache with capacity `maxItems`, storing each state component in a field. */
  class LFUCache<K(==,!new), V> {
    const maxItems: nat
    var keyOrder: seq<K>
    var cacheData: map<K, V>
    var usageFrequency: map<K, nat>
    var accessOrder: map<K, nat>

    function State(): Lfu<K, V>
      reads this
    {
      Lfu(keyOrder, cacheData, usageFrequency, accessOrder)
    }

    ghost predicate Valid()
      reads this
    {
      Inv(State(), maxItems)
    }

    constructor(maxItems: nat)
      requires maxItems > 0
      ensures this.maxItems == maxItems
      ensures State() == Lfu([], map[], map[], map[])
      ensures Valid()
    {
      this.maxItems := maxItems;
      keyOrder := [];
      cacheData := map[];
      usageFrequency := map[];
      accessOrder := map[];
    }

    /** `put(key, item)`; returns the key it discards, which the source prints. */
    method Put(key: Option<K>, item: Option<V>) returns (discarded: Option<K>)
      requires Valid()
      modifies this
      ensures discarded == Discarded(old(State()), maxItems, key, item)
      ensures State() == AfterPut(old(State()), maxItems, key, item)
      ensures Valid()
    {
      discarded := None;
      if key.None? || item.None? {
        return;
      }
      ghost var before := State();
      Register(key.value, item.value);
      TouchSynced(before, key.value, item.value);
      if |cacheData| > maxItems {
        var i := VictimIndex(State());
        discarded := Some(keyOrder[i]);
        DiscardAt(i);
      }
    }

    /** The first half of `put`: store the item, count the use, record the access order. */
    method Register(k: K, v: V)
      modifies this
      ensures State() == Touch(old(State()), k, v)
    {
      if k !in cacheData {
        keyOrder := keyOrder + [k];
      }
      cacheData := cacheData[k := v];
      if k in usageFrequency {
        usageFrequency := usageFrequency[k := usageFrequency[k] + 1];
      } else {
        usageFrequency := usageFrequency[k := 1];
      }
      accessOrder := accessOrder[k := |accessOrder|];
    }

    /** The second half of `put` on overflow: `del` the chosen key from every dict. */
    method DiscardAt(i: nat)
      requires i < |keyOrder|
      modifies this
      ensures State() == Evict(old(State()), i)
    {
      var lfuKey := keyOrder[i];
      keyOrder := RemoveAt(keyOrder, i);
      cacheData := cacheData - {lfuKey};
      usageFrequency := usageFrequency - {lfuKey};
      accessOrder := accessOrder - {lfuKey};
    }

    /** `get(key)`: the stored item or `None`; a hit touches the key. */
    method Get(key: Option<K>) returns (item: Option<V>)
      requires Valid()
      modifies this
      ensures item == Lookup(old(State()), key)
      ensures State() == AfterGet(old(State()), maxItems, key)
      ensures Valid()
    {
      if key.None? || key.value !in cacheData {
        return None;
      }
      var k := key.value;
      ghost var before := State();
      usageFrequency := usageFrequency[k := usageFrequency[k] + 1];
      accessOrder := accessOrder[k := |accessOrder|];
      item := Some(cacheData[k]);
      assert State() == AfterGet(before, maxItems, key);
    }
  }
}
