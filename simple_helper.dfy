/**
 * index_range (0x00-pagination/0-simple_helper_function.py): the half-open range of
 * positions that a 1-based page of a given size covers. The two pagination servers
 * carry copies of the same function and use this one.
 */
module SimpleHelper {

  /** `(start, end)` for page `page` of size `pageSize`. Python integers are
      unbounded, so the arithmetic is exact. */
  function IndexRange(page: int, pageSize: int): (r: (int, int))
    ensures r.1 - r.0 == pageSize
    ensures r.1 == page * pageSize
    ensures page >= 1 && pageSize >= 0 ==> r.0 >= 0
  {
    var start := (page - 1) * pageSize;
    (start, start + pageSize)
  }

  /** The first page starts at position 0. */
  lemma FirstPage(pageSize: int)
    ensures IndexRange(1, pageSize) == (0, pageSize)
  {
  }

  /** Consecutive pages meet: the end of one page is the start of the next, so the
      pages tile the positions without overlap or gap. */
  lemma PagesAdjacent(page: int, pageSize: int)
    ensures IndexRange(page, pageSize).1 == IndexRange(page + 1, pageSize).0
  {
  }

  /** Later pages start further on, by `pageSize` per page. */
  lemma StartGrowsWithPage(p: int, q: int, pageSize: int)
    requires p <= q && pageSize >= 0
    ensures IndexRange(p, pageSize).0 <= IndexRange(q, pageSize).0
    ensures IndexRange(q, pageSize).0 - IndexRange(p, pageSize).0 == (q - p) * pageSize
  {
    assert (q - 1) * pageSize - (p - 1) * pageSize == (q - p) * pageSize;
  }
}
