/**
 * FIFOCache (0x01-caching/1-fifo_cache.py): a dict `cache_data` bounded by MAX_ITEMS,
 * and a list `keys_order` of its keys in order of first insertion. When the cache is
 * full, every accepted `put` discards the head of `keys_order`, even a `put` that
 * overwrites a key already present.
 */
module FifoCache {
  import opened Wrappers
  import opened KeyOrder

  /** The state of a FIFOCache: its `cache_data` and its `keys_order`. */
  datatype Fifo<K, V> = Fifo(cacheData: map<K, V>, keysOrder: seq<K>)

  /** `keysOrder` lists exactly the cached keys, each once. */
  ghost predicate Synced<K(!new), V>(s: Fifo<K, V>) {
    ListsKeys(s.keysOrder, s.cacheData)
  }

  /** What every reachable state satisfies: at most `maxItems` entries, and the
      key list in step with the dict. */
  ghost predicate Inv<K(!new), V>(s: Fifo<K, V>, maxItems: nat) {
    maxItems > 0 && |s.cacheData| <= maxItems && Synced(s)
  }

  /** `keys_order.pop(0)` followed by `del cache_data[first_key]`. */
  function DropHead<K(!new), V>(s: Fifo<K, V>): (r: Fifo<K, V>)
    requires Synced(s) && |s.cacheData| > 0
    ensures Synced(r) && |r.cacheData| == |s.cacheData| - 1
    ensures r.cacheData.Keys == s.cacheData.Keys - {s.keysOrder[0]}
    ensures forall k :: k in r.cacheData ==> r.cacheData[k] == s.cacheData[k]
    ensures r.keysOrder == s.keysOrder[1..]
  {
    DropFirstListed(s.keysOrder, s.cacheData);
    Fifo(s.cacheData - {s.keysOrder[0]}, s.keysOrder[1..])
  }

  /** `cache_data[key] = item`, then `keys_order.append(key)` unless it is listed. */
  function Store<K(!new), V>(s: Fifo<K, V>, k: K, v: V): (r: Fifo<K, V>)
    requires Synced(s)
    ensures Synced(r)
    ensures r.cacheData == s.cacheData[k := v]
    ensures r.keysOrder == if k in s.cacheData then s.keysOrder else s.keysOrder + [k]
  {
    StoreListed(s.keysOrder, s.cacheData, k, v);
    if k in s.keysOrder then
      Fifo(s.cacheData[k := v], s.keysOrder)
    else
      Fifo(s.cacheData[k := v], s.keysOrder + [k])
  }

  /** The key that `put(key, item)` discards, if any: the head of `keysOrder`,
      whenever both arguments are present and the cache is full. */
  function Discarded<K(!new), V>(s: Fifo<K, V>, maxItems: nat, key: Option<K>, item: Option<V>): (d: Option<K>)
    requires Inv(s, maxItems)
    ensures d.Some? <==> key.Some? && item.Some? && |s.cacheData| == maxItems
    ensures d.Some? ==> |s.keysOrder| > 0 && d.value == s.keysOrder[0] && d.value in s.cacheData
  {
    if key.Some? && item.Some? && |s.cacheData| >= maxItems then
      FirstListed(s.keysOrder, s.cacheData);
      Some(s.keysOrder[0])
    else
      None
  }

  /** The state after `put(key, item)`: drop the head if the cache is full, then store
      the item and append the key unless it is still listed. */
  function AfterPut<K(!new), V>(s: Fifo<K, V>, maxItems: nat, key: Option<K>, item: Option<V>): (r: Fifo<K, V>)
    requires Inv(s, maxItems)
    ensures Inv(r, maxItems)
    ensures key.None? || item.None? ==> r == s
  {
    if key.None? || item.None? then s
    else
      var kept := if |s.cacheData| >= maxItems then DropHead(s) else s;
      assert |kept.cacheData| < maxItems;
      Store(kept, key.value, item.value)
  }

  /** `get(key)`: the stored item, or `None` for `None` or an absent key. */
  function Lookup<K(!new), V>(s: Fifo<K, V>, key: Option<K>): (r: Option<V>)
    ensures r.Some? <==> key.Some? && key.value in s.cacheData
    ensures r.Some? ==> r.value == s.cacheData[key.value]
  {
    if key.Some? && key.value in s.cacheData then Some(s.cacheData[key.value]) else None
  }

  /** An accepted `put` removes the discarded key and nothing else from the cache,
      and adds the key put. */
  lemma PutEvictsOnlyHead<K(!new), V>(s: Fifo<K, V>, maxItems: nat, k: K, v: V)
    requires Inv(s, maxItems)
    ensures var d := Discarded(s, maxItems, Some(k), Some(v));
            AfterPut(s, maxItems, Some(k), Some(v)).cacheData.Keys
              == (s.cacheData.Keys - (if d.Some? then {d.value} else {})) + {k}
  {
    if |s.cacheData| >= maxItems {
      assert Discarded(s, maxItems, Some(k), Some(v)) == Some(s.keysOrder[0]);
      assert AfterPut(s, maxItems, Some(k), Some(v)) == Store(DropHead(s), k, v);
    } else {
      assert Discarded(s, maxItems, Some(k), Some(v)) == None;
      assert AfterPut(s, maxItems, Some(k), Some(v)) == Store(s, k, v);
    }
  }

  /** An accepted `put` stores the new item under its key and leaves the value of
      every other surviving key as it was. */
  lemma PutKeepsOtherValues<K(!new), V>(s: Fifo<K, V>, maxItems: nat, k: K, v: V)
    requires Inv(s, maxItems)
    ensures var r := AfterPut(s, maxItems, Some(k), Some(v));
            forall k' :: k' in r.cacheData && k' != k ==> k' in s.cacheData && r.cacheData[k'] == s.cacheData[k']
  {
    if |s.cacheData| >= maxItems {
      assert AfterPut(s, maxItems, Some(k), Some(v)) == Store(DropHead(s), k, v);
    } else {
      assert AfterPut(s, maxItems, Some(k), Some(v)) == Store(s, k, v);
    }
  }

  /** `get(k)` right after `put(k, v)` returns `v`. */
  lemma GetAfterPut<K(!new), V>(s: Fifo<K, V>, maxItems: nat, k: K, v: V)
    requires Inv(s, maxItems)
    ensures Lookup(AfterPut(s, maxItems, Some(k), Some(v)), Some(k)) == Some(v)
  {
  }

  /** `keysOrder` stays in order of first insertion: the old keys that a `put` does
      not discard stay listed and keep their relative order ... */
  lemma PutKeepsInsertionOrder<K(!new), V>(s: Fifo<K, V>, maxItems: nat, k: K, v: V)
    requires Inv(s, maxItems)
    ensures var r := AfterPut(s, maxItems, Some(k), Some(v));
            var d := Discarded(s, maxItems, Some(k), Some(v));
            forall a, b :: a in s.keysOrder && b in s.keysOrder && d != Some(a) && d != Some(b) ==>
              a in r.keysOrder && b in r.keysOrder && (Before(r.keysOrder, a, b) <==> Before(s.keysOrder, a, b))
  {
    var d := Discarded(s, maxItems, Some(k), Some(v));
    var kept := if d.Some? then DropHead(s) else s;
    assert AfterPut(s, maxItems, Some(k), Some(v)) == Store(kept, k, v);
    if d.Some? {
      DropHeadKeepsOrder(s);
    }
    StoreKeepsOrder(kept, k, v);
  }

  lemma DropHeadKeepsOrder<K(!new), V>(s: Fifo<K, V>)
    requires Synced(s) && |s.cacheData| > 0
    ensures forall a, b :: a in s.keysOrder && b in s.keysOrder && a != s.keysOrder[0] && b != s.keysOrder[0] ==>
              a in DropHead(s).keysOrder && b in DropHead(s).keysOrder &&
              (Before(DropHead(s).keysOrder, a, b) <==> Before(s.keysOrder, a, b))
  {
    assert DropHead(s).keysOrder == RemoveAt(s.keysOrder, 0);
    RemoveAtKeepsKeys(s.keysOrder, 0);
    RemoveAtKeepsOrder(s.keysOrder, 0);
  }

  lemma StoreKeepsOrder<K(!new), V>(s: Fifo<K, V>, k: K, v: V)
    requires Synced(s)
    ensures forall a, b :: a in s.keysOrder && b in s.keysOrder ==>
              a in Store(s, k, v).keysOrder && b in Store(s, k, v).keysOrder &&
              (Before(Store(s, k, v).keysOrder, a, b) <==> Before(s.keysOrder, a, b))
  {
    if k !in s.keysOrder {
      AppendKeepsOrder(s.keysOrder, k);
    }
  }

  /** ... and a key that the `put` (re-)adds comes after all of them; when nothing is
      discarded, overwriting a present key leaves `keysOrder` as it was. */
  lemma PutAppendsNewKey<K(!new), V>(s: Fifo<K, V>, maxItems: nat, k: K, v: V)
    requires Inv(s, maxItems)
    ensures var r := AfterPut(s, maxItems, Some(k), Some(v));
            var d := Discarded(s, maxItems, Some(k), Some(v));
            && (k !in s.cacheData || d == Some(k) ==> r.keysOrder[|r.keysOrder| - 1] == k)
            && (k in s.cacheData && d.None? ==> r.keysOrder == s.keysOrder)
  {
    if |s.cacheData| >= maxItems {
      assert AfterPut(s, maxItems, Some(k), Some(v)) == Store(DropHead(s), k, v);
    } else {
      assert AfterPut(s, maxItems, Some(k), Some(v)) == Store(s, k, v);
    }
  }

  /** The eviction-on-overwrite quirk: a full cache discards its head even when the
      key being put is already present, and then holds one entry fewer. */
  lemma OverwriteOfFullCacheEvicts<K(!new), V>(s: Fifo<K, V>, maxItems: nat, k: K, v: V)
    requires Inv(s, maxItems) && |s.cacheData| == maxItems
    requires k in s.cacheData && k != s.keysOrder[0]
    ensures Discarded(s, maxItems, Some(k), Some(v)) == Some(s.keysOrder[0])
    ensures |AfterPut(s, maxItems, Some(k), Some(v)).cacheData| == maxItems - 1
  {
    var head := s.keysOrder[0];
    PutEvictsOnlyHead(s, maxItems, k, v);
    SwapKeeps(s.cacheData.Keys, head, k);
  }

  /** When the key put into a full cache is the head itself, the head is popped and
      then stored and appended again: the cache stays full, and the key moves last. */
  lemma OverwriteOfFullHeadKeepsSize<K(!new), V>(s: Fifo<K, V>, maxItems: nat, v: V)
    requires Inv(s, maxItems) && |s.cacheData| == maxItems
    ensures |s.keysOrder| > 0
    ensures Discarded(s, maxItems, Some(s.keysOrder[0]), Some(v)) == Some(s.keysOrder[0])
    ensures var r := AfterPut(s, maxItems, Some(s.keysOrder[0]), Some(v));
            && |r.cacheData| == maxItems
            && r.cacheData[s.keysOrder[0]] == v
            && r.keysOrder == s.keysOrder[1..] + [s.keysOrder[0]]
  {
    FirstListed(s.keysOrder, s.cacheData);
    var head := s.keysOrder[0];
    assert AfterPut(s, maxItems, Some(head), Some(v)) == Store(DropHead(s), head, v);
    PutEvictsOnlyHead(s, maxItems, head, v);
    assert (s.cacheData.Keys - {head}) + {head} == s.cacheData.Keys;
  }

  /** Taking one member out of a set and putting back a member that was still in it
      leaves one member fewer. */
  lemma SwapKeeps<K>(a: set<K>, out: K, kept: K)
    requires out in a && kept in a && kept != out
    ensures |(a - {out}) + {kept}| == |a| - 1
  {
    assert (a - {out}) + {kept} == a - {out};
  }

  /**
   * The FIFOCache object. `maxItems` is MAX_ITEMS; `Put` returns the key it
   * discards (the source prints it).
   */
  class FIFOCache<K(==,!new), V> {
    const maxItems: nat
    var cacheData: map<K, V>
    var keysOrder: seq<K>

    function State(): Fifo<K, V>
      reads this
    {
      Fifo(cacheData, keysOrder)
    }

    ghost predicate Valid()
      reads this
    {
      Inv(State(), maxItems)
    }

    constructor (maxItems: nat)
      requires maxItems > 0
      ensures Valid() && this.maxItems == maxItems
      ensures cacheData == map[] && keysOrder == []
    {
      this.maxItems := maxItems;
      cacheData := map[];
      keysOrder := [];
    }

    method Put(key: Option<K>, item: Option<V>) returns (discarded: Option<K>)
      requires Valid()
      modifies this
      ensures discarded == Discarded(old(State()), maxItems, key, item)
      ensures State() == AfterPut(old(State()), maxItems, key, item)
      ensures Valid()
    {
      discarded := None;
      if key.Some? && item.Some? {
        ghost var before := State();
        if |cacheData| >= maxItems {
          FirstListed(keysOrder, cacheData);
          var firstKey := keysOrder[0];
          keysOrder := keysOrder[1..];
          cacheData := cacheData - {firstKey};
          discarded := Some(firstKey);
          assert State() == DropHead(before);
        }
        ghost var kept := State();
        cacheData := cacheData[key.value := item.value];
        if key.value !in keysOrder {
          keysOrder := keysOrder + [key.value];
        }
        assert State() == Store(kept, key.value, item.value);
      }
    }

    method Get(key: Option<K>) returns (item: Option<V>)
      requires Valid()
      ensures item == Lookup(State(), key)
    {
      if key.Some? && key.value in cacheData {
        item := Some(cacheData[key.value]);
      } else {
        item := None;
      }
    }
  }
}
