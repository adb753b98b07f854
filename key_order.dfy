/**
 * Sequences of keys without repetition, as used for the insertion order of a Python
 * dict or list of keys: lookup of a key's position, removal at a position, moving a
 * key to the end, and the relative order of two keys.
 */
module KeyOrder {

  /** No key occurs twice. */
  predicate Distinct<K(==)>(s: seq<K>) {
    forall i, j :: 0 <= i < j < |s| ==> s[i] != s[j]
  }

  /** `order` lists exactly the keys of `m`, each once: the insertion order of a dict. */
  ghost predicate ListsKeys<K(!new), V>(order: seq<K>, m: map<K, V>) {
    Distinct(order) && forall k :: k in order <==> k in m
  }

  /** A non-empty dict has a first key in its order. */
  lemma FirstListed<K(!new), V>(order: seq<K>, m: map<K, V>)
    requires ListsKeys(order, m) && |m| > 0
    ensures |order| > 0 && order[0] in m
  {
    var k :| k in m;
    assert k in order;
  }

  /** Dropping the first key from both the order and the dict (`pop(0)` and `del`,
      or `popitem(last=False)`) keeps them in step and removes one entry. */
  lemma DropFirstListed<K(!new), V>(order: seq<K>, m: map<K, V>)
    requires ListsKeys(order, m) && |m| > 0
    ensures |order| > 0 && order[0] in m
    ensures ListsKeys(order[1..], m - {order[0]})
    ensures |m - {order[0]}| == |m| - 1
  {
    FirstListed(order, m);
    assert order[1..] == RemoveAt(order, 0);
    RemoveAtKeepsKeys(order, 0);
    MapRemoveCard(m, order[0]);
  }

  /** Storing under a key: a new key is appended to the order, a present key keeps
      its place; either way the order stays in step with the dict. */
  lemma StoreListed<K(!new), V>(order: seq<K>, m: map<K, V>, k: K, v: V)
    requires ListsKeys(order, m)
    ensures k in m ==> ListsKeys(order, m[k := v])
    ensures k !in m ==> ListsKeys(order + [k], m[k := v])
  {
    if k !in m {
      AppendKeepsOrder(order, k);
    }
  }

  /** The position of the first occurrence of `x` (Python's `list.index`). */
  function IndexOf<K(==)>(s: seq<K>, x: K): (i: nat)
    requires x in s
    ensures i < |s| && s[i] == x
    ensures forall j :: 0 <= j < i ==> s[j] != x
  {
    if s[0] == x then 0 else 1 + IndexOf(s[1..], x)
  }

  /** `s` with the element at position `i` taken out. */
  function RemoveAt<K>(s: seq<K>, i: nat): (r: seq<K>)
    requires i < |s|
    ensures |r| == |s| - 1
    ensures forall j :: 0 <= j < i ==> r[j] == s[j]
    ensures forall j :: i <= j < |r| ==> r[j] == s[j + 1]
  {
    s[..i] + s[i + 1..]
  }

  /** `s` with `x` taken out of its place and put last (`OrderedDict.move_to_end`). */
  function MoveToEnd<K(==)>(s: seq<K>, x: K): (r: seq<K>)
    requires x in s
    ensures |r| == |s| && r[|r| - 1] == x
  {
    RemoveAt(s, IndexOf(s, x)) + [x]
  }

  /** `a` comes strictly before `b` in `s`. */
  predicate Before<K(==)>(s: seq<K>, a: K, b: K) {
    a in s && b in s && IndexOf(s, a) < IndexOf(s, b)
  }

  /** In a sequence without repetition, a key's position is the one index that holds it. */
  lemma IndexOfDistinct<K>(s: seq<K>, i: nat)
    requires Distinct(s) && i < |s|
    ensures IndexOf(s, s[i]) == i
  {
  }

  /** Taking out one position keeps the sequence free of repetition and keeps every
      other key. */
  lemma RemoveAtKeepsKeys<K>(s: seq<K>, i: nat)
    requires Distinct(s) && i < |s|
    ensures Distinct(RemoveAt(s, i))
    ensures forall y :: y in RemoveAt(s, i) <==> y in s && y != s[i]
  {
    var r := RemoveAt(s, i);
    forall y | y in s && y != s[i] ensures y in r {
      var k := IndexOf(s, y);
      if k < i { assert r[k] == y; } else { assert r[k - 1] == y; }
    }
  }

  /** Taking out one position keeps the relative order of all remaining keys. */
  lemma RemoveAtKeepsOrder<K>(s: seq<K>, i: nat)
    requires Distinct(s) && i < |s|
    ensures forall a, b :: a in RemoveAt(s, i) && b in RemoveAt(s, i) ==>
              (Before(RemoveAt(s, i), a, b) <==> Before(s, a, b))
  {
    var r := RemoveAt(s, i);
    RemoveAtKeepsKeys(s, i);
    forall a, b | a in r && b in r ensures Before(r, a, b) <==> Before(s, a, b) {
      var ia, ib := IndexOf(r, a), IndexOf(r, b);
      var sa := if ia < i then ia else ia + 1;
      var sb := if ib < i then ib else ib + 1;
      assert s[sa] == a && s[sb] == b;
      IndexOfDistinct(s, sa);
      IndexOfDistinct(s, sb);
    }
  }

  /** Appending a key that is not yet present keeps the sequence free of repetition,
      keeps the relative order of the old keys and puts the new key after all of them. */
  lemma AppendKeepsOrder<K>(s: seq<K>, x: K)
    requires Distinct(s) && x !in s
    ensures Distinct(s + [x])
    ensures forall a, b :: a in s && b in s ==> (Before(s + [x], a, b) <==> Before(s, a, b))
    ensures forall a :: a in s ==> Before(s + [x], a, x)
  {
    var r := s + [x];
    forall a | a in s ensures IndexOf(r, a) == IndexOf(s, a) {
      var k := IndexOf(s, a);
      assert r[k] == a;
      IndexOfDistinct(r, k);
    }
    assert r[|s|] == x;
    IndexOfDistinct(r, |s|);
  }

  /** Moving `x` to the end keeps every key, keeps the sequence free of repetition,
      makes `x` the last key, and keeps the relative order of all other keys. */
  lemma MoveToEndKeepsOrder<K>(s: seq<K>, x: K)
    requires Distinct(s) && x in s
    ensures Distinct(MoveToEnd(s, x)) && |MoveToEnd(s, x)| == |s|
    ensures forall y :: y in MoveToEnd(s, x) <==> y in s
    ensures MoveToEnd(s, x)[|s| - 1] == x
    ensures forall a, b :: a in s && b in s && a != x && b != x ==>
              (Before(MoveToEnd(s, x), a, b) <==> Before(s, a, b))
  {
    var i := IndexOf(s, x);
    RemoveAtKeepsKeys(s, i);
    RemoveAtKeepsOrder(s, i);
    AppendKeepsOrder(RemoveAt(s, i), x);
  }

  /** Deleting a present key from a dict removes exactly one entry. */
  lemma MapRemoveCard<K, V>(m: map<K, V>, x: K)
    requires x in m
    ensures |m - {x}| == |m| - 1
  {
    assert (m - {x}).Keys == m.Keys - {x};
    assert |m.Keys - {x}| == |m.Keys| - 1;
  }

  /** Moving a present key to the end keeps the order in step with the dict, also
      after a new value is stored under that key. */
  lemma MoveToEndListed<K(!new), V>(order: seq<K>, m: map<K, V>, k: K, v: V)
    requires ListsKeys(order, m) && k in m
    ensures ListsKeys(MoveToEnd(order, k), m)
    ensures ListsKeys(MoveToEnd(order, k), m[k := v])
  {
    MoveToEndKeepsOrder(order, k);
  }

  /** Taking the key at position `i` out of both the order and the dict keeps them
      in step and removes one entry. */
  lemma RemoveListed<K(!new), V>(order: seq<K>, m: map<K, V>, i: nat)
    requires ListsKeys(order, m) && i < |order|
    ensures order[i] in m
    ensures ListsKeys(RemoveAt(order, i), m - {order[i]})
    ensures |m - {order[i]}| == |m| - 1
  {
    RemoveAtKeepsKeys(order, i);
    MapRemoveCard(m, order[i]);
  }
}
