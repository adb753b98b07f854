/**
 * Server.get_page and Server.get_hyper (0x00-pagination/2-hypermedia_pagination.py):
 * a page of the dataset rows, and the page together with its metadata. The dataset,
 * which the server reads from a CSV file and memoises, is a parameter here.
 */
module HypermediaPagination {
  import opened Wrappers
  import opened SimpleHelper

  /** A CSV row: its fields as strings. */
  type Row = seq<string>

  /** The two `AssertionError`s of `get_page`, in the order it checks them. */
  datatype PageError = PageNotPositive | PageSizeNotPositive

  /** Python's `s[start:end]` for `0 <= start <= end`: both bounds are clipped to
      the length, so a range past the end gives an empty list. */
  function Slice<T>(s: seq<T>, start: nat, end: nat): (r: seq<T>)
    requires start <= end
    ensures |r| == (if end <= |s| then end - start else if start <= |s| then |s| - start else 0)
    ensures forall i :: 0 <= i < |r| ==> r[i] == s[start + i]
  {
    var lo := if start <= |s| then start else |s|;
    var hi := if end <= |s| then end else |s|;
    s[lo..hi]
  }

  /** `get_page(page, page_size)` over `dataset`. */
  function GetPage(dataset: seq<Row>, page: int, pageSize: int): (r: Result<seq<Row>, PageError>)
    ensures page <= 0 ==> r == Failure(PageNotPositive)
    ensures page > 0 && pageSize <= 0 ==> r == Failure(PageSizeNotPositive)
    ensures page > 0 && pageSize > 0 ==> r.Success?
  {
    if page <= 0 then Failure(PageNotPositive)
    else if pageSize <= 0 then Failure(PageSizeNotPositive)
    else
      var (start, end) := IndexRange(page, pageSize);
      Success(Slice(dataset, start, end))
  }

  /** An accepted page holds the rows from position `(page - 1) * page_size` on, at
      most `page_size` of them and as many as the dataset has up to that size; it is
      empty exactly when it starts at or past the end. */
  lemma GetPageContents(dataset: seq<Row>, page: int, pageSize: int)
    requires page > 0 && pageSize > 0
    ensures var rows := GetPage(dataset, page, pageSize).value;
            var start := (page - 1) * pageSize;
            && |rows| <= pageSize
            && |rows| == (if page * pageSize <= |dataset| then pageSize
                          else if start <= |dataset| then |dataset| - start else 0)
            && (forall i :: 0 <= i < |rows| ==> rows[i] == dataset[start + i])
            && (rows == [] <==> start >= |dataset|)
  {
    var (start, end) := IndexRange(page, pageSize);
    assert start >= 0;
  }

  /** `math.ceil(n / d)`, computed exactly: the least `q` with `q * d >= n`. */
  function CeilDiv(n: nat, d: int): (q: nat)
    requires d > 0
    ensures q * d >= n
    ensures (q - 1) * d < n
  {
    (n + d - 1) / d
  }

  /** The dict `get_hyper` returns. */
  datatype Hyper = Hyper(
    pageSize: nat,
    page: int,
    data: seq<Row>,
    nextPage: Option<int>,
    prevPage: Option<int>,
    totalPages: nat)

  /** `get_hyper(page, page_size)` over `dataset`; `get_page`'s assertions propagate. */
  function GetHyper(dataset: seq<Row>, page: int, pageSize: int): (r: Result<Hyper, PageError>)
    ensures r.Failure? <==> GetPage(dataset, page, pageSize).Failure?
    ensures r.Failure? ==> r.error == GetPage(dataset, page, pageSize).error
    ensures r.Success? ==>
              var h := r.value;
              && h.data == GetPage(dataset, page, pageSize).value
              && h.pageSize == |h.data|
              && h.page == page
              && h.totalPages == CeilDiv(|dataset|, pageSize)
              && (h.nextPage.Some? <==> page < h.totalPages)
              && (h.nextPage.Some? ==> h.nextPage.value == page + 1)
              && (h.prevPage.Some? <==> page > 1)
              && (h.prevPage.Some? ==> h.prevPage.value == page - 1)
  {
    match GetPage(dataset, page, pageSize)
    case Failure(e) => Failure(e)
    case Success(data) =>
      var totalPages := CeilDiv(|dataset|, pageSize);
      Success(Hyper(
        |data|,
        page,
        data,
        if page < totalPages then Some(page + 1) else None,
        if page > 1 then Some(page - 1) else None,
        totalPages))
  }

  /** There is a next page exactly when the next page has rows. */
  lemma NextPageHasRows(dataset: seq<Row>, page: int, pageSize: int)
    requires page > 0 && pageSize > 0
    ensures GetHyper(dataset, page, pageSize).value.nextPage.Some? <==>
            GetPage(dataset, page + 1, pageSize).value != []
  {
    var total := CeilDiv(|dataset|, pageSize);
    GetPageContents(dataset, page + 1, pageSize);
    if page < total {
      MulMonotone(page, total - 1, pageSize);
    } else {
      MulMonotone(total, page, pageSize);
    }
  }

  /** The rows of pages `1..k`, one page after another. */
  function Pages(dataset: seq<Row>, pageSize: int, k: nat): seq<Row>
    requires pageSize > 0
  {
    if k == 0 then [] else Pages(dataset, pageSize, k - 1) + GetPage(dataset, k, pageSize).value
  }

  /** Pages `1..k` together are the first `k * page_size` rows (or all of them). */
  lemma {:induction false} PagesArePrefix(dataset: seq<Row>, pageSize: int, k: nat)
    requires pageSize > 0
    ensures Pages(dataset, pageSize, k) == dataset[..if k * pageSize <= |dataset| then k * pageSize else |dataset|]
  {
    if k > 0 {
      PagesArePrefix(dataset, pageSize, k - 1);
      var prev := (k - 1) * pageSize;
      var end := k * pageSize;
      assert end == prev + pageSize;
      var lo := if prev <= |dataset| then prev else |dataset|;
      var hi := if end <= |dataset| then end else |dataset|;
      assert GetPage(dataset, k, pageSize).value == dataset[lo..hi];
      assert dataset[..hi] == dataset[..lo] + dataset[lo..hi];
    }
  }

  /** Multiplying by a non-negative number keeps an order. */
  lemma MulMonotone(a: int, b: int, c: int)
    requires a <= b && c >= 0
    ensures a * c <= b * c
  {
    assert b * c - a * c == (b - a) * c;
  }

  /** Pages `1..total_pages` reproduce the dataset, and every later page is empty. */
  lemma PagesCoverDataset(dataset: seq<Row>, pageSize: int)
    requires pageSize > 0
    ensures Pages(dataset, pageSize, CeilDiv(|dataset|, pageSize)) == dataset
    ensures forall p :: p > CeilDiv(|dataset|, pageSize) ==> GetPage(dataset, p, pageSize).value == []
  {
    var total := CeilDiv(|dataset|, pageSize);
    PagesArePrefix(dataset, pageSize, total);
    assert dataset[..|dataset|] == dataset;
    forall p | p > total ensures GetPage(dataset, p, pageSize).value == [] {
      GetPageContents(dataset, p, pageSize);
      MulMonotone(total, p - 1, pageSize);
    }
  }
}
