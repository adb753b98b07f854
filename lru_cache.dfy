/**
 * LRUCache (0x01-caching/3-lru_cache.py): `cache_data` is an OrderedDict bounded by
 * MAX_ITEMS whose order runs from least to most recently used. `put` and a `get` hit
 * move the key to the end; when a `put` makes the dict overflow, its first key is
 * discarded.
 */
module LruCache {
  import opened Wrappers
  import opened KeyOrder

  /** The OrderedDict `cache_data`: its key order and its entries. */
  datatype Lru<K, V> = Lru(cacheOrder: seq<K>, cacheData: map<K, V>)

  /** What every reachable state satisfies: at most `maxItems` entries, each key
      listed once in the order. */
  ghost predicate Inv<K(!new), V>(s: Lru<K, V>, maxItems: nat) {
    maxItems > 0 && |s.cacheData| <= maxItems && ListsKeys(s.cacheOrder, s.cacheData)
  }

  /** `move_to_end(key)` if the key is present, then `cache_data[key] = item`
      (which appends a new key). */
  function Touch<K(!new), V>(s: Lru<K, V>, k: K, v: V): (r: Lru<K, V>)
    requires ListsKeys(s.cacheOrder, s.cacheData)
    ensures ListsKeys(r.cacheOrder, r.cacheData)
    ensures r.cacheData == s.cacheData[k := v]
    ensures |r.cacheOrder| > 0 && r.cacheOrder[|r.cacheOrder| - 1] == k
  {
    StoreListed(s.cacheOrder, s.cacheData, k, v);
    if k in s.cacheData then
      MoveToEndListed(s.cacheOrder, s.cacheData, k, v);
      Lru(MoveToEnd(s.cacheOrder, k), s.cacheData[k := v])
    else
      Lru(s.cacheOrder + [k], s.cacheData[k := v])
  }

  /** `popitem(last=False)`: take out the first key. */
  function PopFirst<K(!new), V>(s: Lru<K, V>): (r: Lru<K, V>)
    requires ListsKeys(s.cacheOrder, s.cacheData) && |s.cacheData| > 0
    ensures ListsKeys(r.cacheOrder, r.cacheData) && |r.cacheData| == |s.cacheData| - 1
    ensures r.cacheData.Keys == s.cacheData.Keys - {s.cacheOrder[0]}
    ensures forall k :: k in r.cacheData ==> r.cacheData[k] == s.cacheData[k]
    ensures r.cacheOrder == s.cacheOrder[1..]
  {
    DropFirstListed(s.cacheOrder, s.cacheData);
    Lru(s.cacheOrder[1..], s.cacheData - {s.cacheOrder[0]})
  }

  /** The key that `put(key, item)` discards, if any. */
  function Discarded<K(!new), V>(s: Lru<K, V>, maxItems: nat, key: Option<K>, item: Option<V>): (d: Option<K>)
    requires Inv(s, maxItems)
    ensures d.Some? <==> key.Some? && item.Some? && key.value !in s.cacheData && |s.cacheData| == maxItems
    ensures d.Some? ==> |s.cacheOrder| > 0 && d.value == s.cacheOrder[0] && d.value != key.value
  {
    if key.None? || item.None? then None
    else
      var t := Touch(s, key.value, item.value);
      if |t.cacheData| > maxItems then
        FirstListed(s.cacheOrder, s.cacheData);
        assert t.cacheOrder == s.cacheOrder + [key.value];
        Some(t.cacheOrder[0])
      else
        None
  }

  /** The state after `put(key, item)`. */
  function AfterPut<K(!new), V>(s: Lru<K, V>, maxItems: nat, key: Option<K>, item: Option<V>): (r: Lru<K, V>)
    requires Inv(s, maxItems)
    ensures Inv(r, maxItems)
    ensures key.None? || item.None? ==> r == s
    ensures key.Some? && item.Some? ==>
              key.value in r.cacheData && r.cacheData[key.value] == item.value &&
              r.cacheOrder[|r.cacheOrder| - 1] == key.value
  {
    if key.None? || item.None? then s
    else
      var t := Touch(s, key.value, item.value);
      if |t.cacheData| > maxItems then
        FirstListed(s.cacheOrder, s.cacheData);
        assert t.cacheOrder == s.cacheOrder + [key.value];
        PopFirst(t)
      else
        t
  }

  /** The state after `get(key)`: a hit moves the key to the end. */
  function AfterGet<K(!new), V>(s: Lru<K, V>, maxItems: nat, key: Option<K>): (r: Lru<K, V>)
    requires Inv(s, maxItems)
    ensures Inv(r, maxItems)
    ensures r.cacheData == s.cacheData
    ensures key.None? || key.value !in s.cacheData ==> r == s
    ensures key.Some? && key.value in s.cacheData ==> r.cacheOrder[|r.cacheOrder| - 1] == key.value
  {
    if key.Some? && key.value in s.cacheData then
      MoveToEndListed(s.cacheOrder, s.cacheData, key.value, s.cacheData[key.value]);
      MoveToEndKeepsOrder(s.cacheOrder, key.value);
      Lru(MoveToEnd(s.cacheOrder, key.value), s.cacheData)
    else
      s
  }

  /** What `get(key)` returns: the stored item, or `None`. */
  function Lookup<K(!new), V>(s: Lru<K, V>, key: Option<K>): (r: Option<V>)
    ensures r.Some? <==> key.Some? && key.value in s.cacheData
    ensures r.Some? ==> r.value == s.cacheData[key.value]
  {
    if key.Some? && key.value in s.cacheData then Some(s.cacheData[key.value]) else None
  }

  /** An accepted `put` either only touches its key or, when it adds a new key to a
      full cache, touches it and then pops the first key. */
  lemma PutCases<K(!new), V>(s: Lru<K, V>, maxItems: nat, k: K, v: V)
    requires Inv(s, maxItems)
    ensures var overflow := k !in s.cacheData && |s.cacheData| == maxItems;
            && |Touch(s, k, v).cacheData| > 0
            && (overflow ==> Touch(s, k, v).cacheOrder[0] == s.cacheOrder[0])
            && AfterPut(s, maxItems, Some(k), Some(v)) == (if overflow then PopFirst(Touch(s, k, v)) else Touch(s, k, v))
  {
    var t := Touch(s, k, v);
    if k !in s.cacheData && |s.cacheData| == maxItems {
      FirstListed(s.cacheOrder, s.cacheData);
      assert t.cacheOrder == s.cacheOrder + [k];
    }
  }

  /** An accepted `put` adds its key and removes the discarded key and nothing else. */
  lemma PutEvictsAtMostOne<K(!new), V>(s: Lru<K, V>, maxItems: nat, k: K, v: V)
    requires Inv(s, maxItems)
    ensures var d := Discarded(s, maxItems, Some(k), Some(v));
            AfterPut(s, maxItems, Some(k), Some(v)).cacheData.Keys
              == (s.cacheData.Keys + {k}) - (if d.Some? then {d.value} else {})
  {
    PutCases(s, maxItems, k, v);
  }

  /** An accepted `put` leaves the value of every key other than its own as it was. */
  lemma PutKeepsOtherValues<K(!new), V>(s: Lru<K, V>, maxItems: nat, k: K, v: V)
    requires Inv(s, maxItems)
    ensures var r := AfterPut(s, maxItems, Some(k), Some(v));
            forall k' :: k' in r.cacheData && k' != k ==> k' in s.cacheData && r.cacheData[k'] == s.cacheData[k']
  {
    PutCases(s, maxItems, k, v);
  }

  /** Overwriting a present key never discards anything and keeps the size. */
  lemma OverwriteNeverEvicts<K(!new), V>(s: Lru<K, V>, maxItems: nat, k: K, v: V)
    requires Inv(s, maxItems) && k in s.cacheData
    ensures Discarded(s, maxItems, Some(k), Some(v)).None?
    ensures |AfterPut(s, maxItems, Some(k), Some(v)).cacheData| == |s.cacheData|
  {
    PutCases(s, maxItems, k, v);
  }

  /** Every key other than the one put (and the one discarded) keeps its place
      relative to the others: `put` only moves its own key to the most recent end. */
  lemma PutKeepsRecencyOfOthers<K(!new), V>(s: Lru<K, V>, maxItems: nat, k: K, v: V)
    requires Inv(s, maxItems)
    ensures var r := AfterPut(s, maxItems, Some(k), Some(v));
            var d := Discarded(s, maxItems, Some(k), Some(v));
            forall a, b :: a in s.cacheData && b in s.cacheData && a != k && b != k && d != Some(a) && d != Some(b) ==>
              a in r.cacheOrder && b in r.cacheOrder && (Before(r.cacheOrder, a, b) <==> Before(s.cacheOrder, a, b))
  {
    PutCases(s, maxItems, k, v);
    TouchKeepsOrder(s, k, v);
    if k !in s.cacheData && |s.cacheData| == maxItems {
      PopFirstKeepsOrder(Touch(s, k, v));
    }
  }

  /** `Touch` keeps the relative order of the keys other than the one touched. */
  lemma TouchKeepsOrder<K(!new), V>(s: Lru<K, V>, k: K, v: V)
    requires ListsKeys(s.cacheOrder, s.cacheData)
    ensures forall a, b :: a in s.cacheOrder && b in s.cacheOrder && a != k && b != k ==>
              a in Touch(s, k, v).cacheOrder && b in Touch(s, k, v).cacheOrder &&
              (Before(Touch(s, k, v).cacheOrder, a, b) <==> Before(s.cacheOrder, a, b))
  {
    if k in s.cacheData {
      MoveToEndKeepsOrder(s.cacheOrder, k);
    } else {
      AppendKeepsOrder(s.cacheOrder, k);
    }
  }

  /** `PopFirst` keeps the relative order of the keys it leaves. */
  lemma PopFirstKeepsOrder<K(!new), V>(s: Lru<K, V>)
    requires ListsKeys(s.cacheOrder, s.cacheData) && |s.cacheData| > 0
    ensures forall a, b :: a in s.cacheOrder && b in s.cacheOrder && a != s.cacheOrder[0] && b != s.cacheOrder[0] ==>
              a in PopFirst(s).cacheOrder && b in PopFirst(s).cacheOrder &&
              (Before(PopFirst(s).cacheOrder, a, b) <==> Before(s.cacheOrder, a, b))
  {
    assert PopFirst(s).cacheOrder == RemoveAt(s.cacheOrder, 0);
    RemoveAtKeepsKeys(s.cacheOrder, 0);
    RemoveAtKeepsOrder(s.cacheOrder, 0);
  }

  /** A `get` hit keeps the relative order of all other keys. */
  lemma GetKeepsRecencyOfOthers<K(!new), V>(s: Lru<K, V>, maxItems: nat, k: K)
    requires Inv(s, maxItems) && k in s.cacheData
    ensures var r := AfterGet(s, maxItems, Some(k));
            forall a, b :: a in s.cacheData && b in s.cacheData && a != k && b != k ==>
              (Before(r.cacheOrder, a, b) <==> Before(s.cacheOrder, a, b))
  {
    MoveToEndKeepsOrder(s.cacheOrder, k);
  }

  /**
   * The LRUCache object. The OrderedDict `cache_data` is the pair of fields
   * `cacheOrder` and `cacheData`; `maxItems` is MAX_ITEMS; `Put` returns the key it
   * discards (the source prints it).
   */
  class LRUCache<K(==,!new), V> {
    const maxItems: nat
    var cacheOrder: seq<K>
    var cacheData: map<K, V>

    function State(): Lru<K, V>
      reads this
    {
      Lru(cacheOrder, cacheData)
    }

    ghost predicate Valid()
      reads this
    {
      Inv(State(), maxItems)
    }

    constructor (maxItems: nat)
      requires maxItems > 0
      ensures Valid() && this.maxItems == maxItems
      ensures cacheOrder == [] && cacheData == map[]
    {
      this.maxItems := maxItems;
      cacheOrder := [];
      cacheData := map[];
    }

    method Put(key: Option<K>, item: Option<V>) returns (discarded: Option<K>)
      requires Valid()
      modifies this
      ensures discarded == Discarded(old(State()), maxItems, key, item)
      ensures State() == AfterPut(old(State()), maxItems, key, item)
      ensures Valid()
    {
      discarded := None;
      if key.Some? && item.Some? {
        ghost var before := State();
        if key.value in cacheData {
          cacheOrder := MoveToEnd(cacheOrder, key.value);
        } else {
          cacheOrder := cacheOrder + [key.value];
        }
        cacheData := cacheData[key.value := item.value];
        assert State() == Touch(before, key.value, item.value);
        if |cacheData| > maxItems {
          ghost var touched := State();
          FirstListed(cacheOrder, cacheData);
          var first := cacheOrder[0];
          cacheOrder := cacheOrder[1..];
          cacheData := cacheData - {first};
          discarded := Some(first);
          assert State() == PopFirst(touched);
        }
      }
    }

    method Get(key: Option<K>) returns (item: Option<V>)
      requires Valid()
      modifies this
      ensures item == Lookup(old(State()), key)
      ensures State() == AfterGet(old(State()), maxItems, key)
      ensures Valid()
    {
      if key.Some? && key.value in cacheData {
        cacheOrder := MoveToEnd(cacheOrder, key.value);
        item := Some(cacheData[key.value]);
      } else {
        item := None;
      }
    }
  }
}
