/** The paging rule of `_build_statement` (interfaces/ISQLAlchemyRepository.py):
    paging applies only when both `page` and `page_size` are given; then both
    must be at least 1, and the result is the window of at most `page_size`
    rows starting at row `(page - 1) * page_size`. */
module Paging {
  import opened Wrappers
  import opened Seqs

  /** Both paging arguments were given, so the statement gets OFFSET and LIMIT. */
  predicate Paged(page: Option<int>, pageSize: Option<int>) {
    page.Some? && pageSize.Some?
  }

  /** The paging arguments pass the check that raises `ValueError`. */
  predicate PagingValid(page: Option<int>, pageSize: Option<int>) {
    Paged(page, pageSize) ==> page.value >= 1 && pageSize.value >= 1
  }

  /** The first row of a 1-based page: exactly `page - 1` whole pages come before it. */
  function Offset(page: int, pageSize: int): (offset: nat)
    requires page >= 1 && pageSize >= 1
    ensures offset % pageSize == 0 && offset / pageSize == page - 1
  {
    WholePages(page - 1, pageSize);
    (page - 1) * pageSize
  }

  /** `m` whole pages of size `k` divide by `k` exactly. */
  lemma WholePages(m: nat, k: nat)
    requires k >= 1
    ensures (m * k) / k == m && (m * k) % k == 0
  {
    var q, r := (m * k) / k, (m * k) % k;
    assert (m - q) * k == r;
    if m - q >= 1 {
      assert false;
    } else if m - q <= -1 {
      assert false;
    }
  }

  /** `SELECT ... OFFSET offset LIMIT limit` over rows kept in table order. */
  function OffsetLimit<T>(rows: seq<T>, offset: nat, limit: nat): (r: seq<T>)
    ensures |r| == if offset >= |rows| then 0 else Min(limit, |rows| - offset)
    ensures forall k :: 0 <= k < |r| ==> r[k] == rows[offset + k]
  {
    if offset >= |rows| then [] else rows[offset .. offset + Min(limit, |rows| - offset)]
  }

  /** The rows a paginated statement returns, or the `ValueError` it raises
      before any row is read. */
  function Paginate<T>(rows: seq<T>, page: Option<int>, pageSize: Option<int>): (r: Result<seq<T>>)
    ensures !Paged(page, pageSize) ==> r == Ok(rows)
    ensures r.Err? <==> !PagingValid(page, pageSize)
    ensures r.Err? ==> r.error == ValueError
    ensures Paged(page, pageSize) && r.Ok? ==>
              var offset := (page.value - 1) * pageSize.value;
              && 0 <= offset
              && |r.value| <= pageSize.value
              && (offset >= |rows| ==> r.value == [])
              && (offset < |rows| ==> |r.value| == Min(pageSize.value, |rows| - offset))
              && (forall k :: 0 <= k < |r.value| ==> r.value[k] == rows[offset + k])
  {
    if !Paged(page, pageSize) then Ok(rows)
    else if page.value < 1 || pageSize.value < 1 then Err(ValueError)
    else Ok(OffsetLimit(rows, Offset(page.value, pageSize.value), pageSize.value))
  }

  /** A page is a subsequence of the rows it was cut from: same order, nothing added. */
  lemma PageIsSubseq<T>(rows: seq<T>, page: Option<int>, pageSize: Option<int>)
    requires PagingValid(page, pageSize)
    ensures IsSubseq(Paginate(rows, page, pageSize).value, rows)
  {
    if !Paged(page, pageSize) {
      SubseqRefl(rows);
    } else {
      var offset := Offset(page.value, pageSize.value);
      if offset >= |rows| {
        assert Paginate(rows, page, pageSize).value == rows[0..0];
        SliceIsSubseq(rows, 0, 0);
      } else {
        SliceIsSubseq(rows, offset, offset + Min(pageSize.value, |rows| - offset));
      }
    }
  }

  /** The number of pages of size `k` that `n` rows fill: ceil(n / k). */
  function PageCount(n: nat, k: nat): nat
    requires k >= 1
  {
    (n + k - 1) / k
  }

  /** Pages `1..n` of `rows` at page size `k`, concatenated. */
  function PagesUpTo<T>(rows: seq<T>, k: nat, n: nat): seq<T>
    requires k >= 1
  {
    if n == 0 then [] else PagesUpTo(rows, k, n - 1) + Paginate(rows, Some(n), Some(k)).value
  }

  /** Page `n` of size `k` is the slice between the clamped offsets of pages `n` and `n + 1`. */
  lemma PageIsSlice<T>(rows: seq<T>, k: nat, n: nat)
    requires k >= 1 && n >= 1
    ensures Min((n - 1) * k, |rows|) <= Min(n * k, |rows|)
    ensures Paginate(rows, Some(n), Some(k)).value == rows[Min((n - 1) * k, |rows|) .. Min(n * k, |rows|)]
  {
    var offset := Offset(n, k);
    if offset < |rows| {
      assert offset + Min(k, |rows| - offset) == Min(n * k, |rows|);
    }
  }

  /** The first `n` pages are exactly the first `n * k` rows. */
  lemma {:induction false} PagesUpToPrefix<T>(rows: seq<T>, k: nat, n: nat)
    requires k >= 1
    ensures PagesUpTo(rows, k, n) == rows[..Min(n * k, |rows|)]
  {
    if n > 0 {
      PagesUpToPrefix(rows, k, n - 1);
      PageIsSlice(rows, k, n);
      var lo, hi := Min((n - 1) * k, |rows|), Min(n * k, |rows|);
      assert rows[..lo] + rows[lo..hi] == rows[..hi];
    }
  }

  /** Pages `1..ceil(N/k)` concatenate to the unpaged rows: every row appears
      on exactly one page, in its original order. */
  lemma PagesCover<T>(rows: seq<T>, k: nat)
    requires k >= 1
    ensures PagesUpTo(rows, k, PageCount(|rows|, k)) == rows
  {
    var n := PageCount(|rows|, k);
    PagesUpToPrefix(rows, k, n);
    PageCountCovers(|rows|, k);
    assert Min(n * k, |rows|) == |rows|;
  }

  /** ceil(N/k) pages of size k hold at least N rows, and one page fewer
      holds fewer than N. */
  lemma PageCountCovers(n: nat, k: nat)
    requires k >= 1
    ensures PageCount(n, k) * k >= n
    ensures PageCount(n, k) * k < n + k
  {
    var m := n + k - 1;
    assert m == PageCount(n, k) * k + m % k;
  }

  /** A page past the last one is empty, not an error. */
  lemma PageAfterLastIsEmpty<T>(rows: seq<T>, k: nat, page: nat)
    requires k >= 1 && page > PageCount(|rows|, k)
    ensures Paginate(rows, Some(page), Some(k)) == Ok([])
  {
    var n := PageCount(|rows|, k);
    PageCountCovers(|rows|, k);
    assert (page - 1) * k >= n * k;
  }
}
