/**
 * Server.indexed_dataset and Server.get_hyper_index
 * (0x00-pagination/3-hypermedia_del_pagination.py): the dataset keyed by position,
 * and a page that starts at a key and skips the keys that rows were deleted from.
 * The indexed dataset is a parameter: any map from integers to rows, holes included.
 */
module DelResilientPagination {
  import opened Wrappers
  import opened HypermediaPagination

  /** `{i: dataset[i] for i in range(len(dataset))}`. */
  function IndexedDataset(dataset: seq<Row>): (m: map<int, Row>)
    ensures forall i :: i in m <==> 0 <= i < |dataset|
    ensures forall i :: 0 <= i < |dataset| ==> m[i] == dataset[i]
  {
    map i | 0 <= i < |dataset| :: dataset[i]
  }

  /** The integers in `[0, n)`, which has `n` elements. */
  ghost function Below(n: nat): (b: set<int>)
    ensures forall i :: i in b <==> 0 <= i < n
    ensures |b| == n
  {
    if n == 0 then {} else Below(n - 1) + {n - 1}
  }

  /** The indexed dataset has one entry per row. */
  lemma IndexedDatasetSize(dataset: seq<Row>)
    ensures |IndexedDataset(dataset)| == |dataset|
  {
    var m := IndexedDataset(dataset);
    assert m.Keys == Below(|dataset|);
  }

  /** The present keys from `lo` on. */
  ghost function KeysFrom(m: map<int, Row>, lo: int): set<int> {
    set k | k in m && k >= lo
  }

  /** The rows of the present keys in `[lo, hi)`, in increasing key order: every
      key in that range that is missing is skipped, and no present one is. */
  function Rows(m: map<int, Row>, lo: int, hi: int): seq<Row>
    decreases hi - lo
  {
    if hi <= lo then [] else Rows(m, lo, hi - 1) + (if hi - 1 in m then [m[hi - 1]] else [])
  }

  /** The answer of `get_hyper_index`. */
  datatype HyperIndex = HyperIndex(index: int, nextIndex: int, pageSize: nat, data: seq<Row>)

  /** The `AssertionError` of `get_hyper_index`. */
  datatype IndexError = IndexOutOfBounds

  /** Stepping past a missing key leaves the keys still ahead as they were. */
  lemma KeysFromSkip(m: map<int, Row>, lo: int)
    requires lo !in m
    ensures KeysFrom(m, lo + 1) == KeysFrom(m, lo)
  {
  }

  /** Stepping past a present key leaves one key fewer ahead. */
  lemma KeysFromTake(m: map<int, Row>, lo: int)
    requires lo in m
    ensures |KeysFrom(m, lo + 1)| == |KeysFrom(m, lo)| - 1
  {
    assert KeysFrom(m, lo + 1) == KeysFrom(m, lo) - {lo};
  }

  /** `get_hyper_index(index, page_size)` over the indexed dataset `indexed`. The
      source's inner `while` runs forever when fewer than `page_size` keys are present
      from `index` on, so a call that passes the bounds check must have that many. */
  method GetHyperIndex(indexed: map<int, Row>, index: int, pageSize: int) returns (r: Result<HyperIndex, IndexError>)
    requires 0 <= index < |indexed| ==> |KeysFrom(indexed, index)| >= pageSize
    ensures r.Failure? <==> !(0 <= index < |indexed|)
    ensures r.Success? ==>
              var h := r.value;
              && h.index == index
              && h.data == Rows(indexed, index, h.nextIndex)
              && |h.data| == (if pageSize > 0 then pageSize else 0)
              && h.pageSize == |h.data|
              && (pageSize <= 0 ==> h.nextIndex == index)
              && (pageSize > 0 ==> h.nextIndex > index && h.nextIndex - 1 in indexed)
  {
    if !(0 <= index < |indexed|) {
      return Failure(IndexOutOfBounds);
    }
    var data: seq<Row> := [];
    var nextIndex := index;
    var count := if pageSize > 0 then pageSize else 0;
    for i := 0 to count
      invariant index <= nextIndex
      invariant data == Rows(indexed, index, nextIndex)
      invariant |data| == i
      invariant |KeysFrom(indexed, nextIndex)| >= count - i
      invariant i == 0 ==> nextIndex == index
      invariant i > 0 ==> nextIndex > index && nextIndex - 1 in indexed
    {
      assert KeysFrom(indexed, nextIndex) != {};
      ghost var target :| target in KeysFrom(indexed, nextIndex);
      while nextIndex !in indexed
        invariant index <= nextIndex <= target
        invariant data == Rows(indexed, index, nextIndex)
        invariant |KeysFrom(indexed, nextIndex)| >= count - i
        decreases target - nextIndex
      {
        KeysFromSkip(indexed, nextIndex);
        nextIndex := nextIndex + 1;
      }
      KeysFromTake(indexed, nextIndex);
      data := data + [indexed[nextIndex]];
      nextIndex := nextIndex + 1;
    }
    return Success(HyperIndex(index, nextIndex, |data|, data));
  }

  /** The rows of `[a, b)` followed by those of `[b, c)` are the rows of `[a, c)`:
      asking again from the returned `next_index` continues with no row repeated
      and none left out. */
  lemma {:induction false} RowsConcat(m: map<int, Row>, a: int, b: int, c: int)
    requires a <= b <= c
    ensures Rows(m, a, b) + Rows(m, b, c) == Rows(m, a, c)
    decreases c - b
  {
    if b < c {
      RowsConcat(m, a, b, c - 1);
      var last := if c - 1 in m then [m[c - 1]] else [];
      assert Rows(m, a, b) + (Rows(m, b, c - 1) + last) == (Rows(m, a, b) + Rows(m, b, c - 1)) + last;
    }
  }

  /** On a dataset without deletions the rows of `[i, j)` are `dataset[i:j]`. */
  lemma {:induction false} RowsOfIndexed(dataset: seq<Row>, i: int, j: int)
    requires 0 <= i <= j <= |dataset|
    ensures Rows(IndexedDataset(dataset), i, j) == dataset[i..j]
    decreases j - i
  {
    if i < j {
      RowsOfIndexed(dataset, i, j - 1);
      assert dataset[i..j] == dataset[i..j - 1] + [dataset[j - 1]];
    }
  }

  /** The rows of `[lo, hi)` are as many as the present keys in that range. */
  lemma {:induction false} RowsCount(m: map<int, Row>, lo: int, hi: int)
    ensures |Rows(m, lo, hi)| == |set k | k in m && lo <= k < hi|
    decreases hi - lo
  {
    if hi <= lo {
      assert (set k | k in m && lo <= k < hi) == {};
    } else {
      RowsCount(m, lo, hi - 1);
      var before := set k | k in m && lo <= k < hi - 1;
      if hi - 1 in m {
        assert (set k | k in m && lo <= k < hi) == before + {hi - 1};
      } else {
        assert (set k | k in m && lo <= k < hi) == before;
      }
    }
  }
}
