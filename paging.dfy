/** Pagination of the working list: a fixed page size and 1-based page numbers. */
module Paging {
  import opened Products

  const RowsPerPage: nat := 10

  /** `Math.ceil(n / rowsPerPage)`: the least page count whose pages hold `n` rows. */
  function TotalPages(n: nat): (r: nat)
    ensures r * RowsPerPage >= n
    ensures r == 0 || (r - 1) * RowsPerPage < n
  {
    (n + RowsPerPage - 1) / RowsPerPage
  }

  lemma TotalPagesMonotone(m: nat, n: nat)
    requires m <= n
    ensures TotalPages(m) <= TotalPages(n)
  {
  }

  function Min(a: int, b: int): int { if a < b then a else b }

  /**
    `data.slice((page - 1) * rowsPerPage, page * rowsPerPage)`: JavaScript's slice
    clips both ends to the length of the list.
  */
  function PageRows(data: seq<Product>, page: int): (r: seq<Product>)
    requires page >= 1
    ensures |r| <= RowsPerPage
    ensures |r| == if (page - 1) * RowsPerPage >= |data| then 0
                   else Min(RowsPerPage, |data| - (page - 1) * RowsPerPage)
    ensures forall k :: 0 <= k < |r| ==> r[k] == data[(page - 1) * RowsPerPage + k]
  {
    data[Min((page - 1) * RowsPerPage, |data|)..Min(page * RowsPerPage, |data|)]
  }

  /** A page has rows exactly when its number is at most the page count. */
  lemma PageNonEmptyIff(data: seq<Product>, page: int)
    requires page >= 1
    ensures |PageRows(data, page)| > 0 <==> page <= TotalPages(|data|)
  {
    var n := TotalPages(|data|);
    if page <= n {
      assert (page - 1) * RowsPerPage <= (n - 1) * RowsPerPage;
    } else {
      assert (page - 1) * RowsPerPage >= n * RowsPerPage;
    }
  }

  /** Every page before the last one is full. */
  lemma PageFullBeforeLast(data: seq<Product>, page: int)
    requires 1 <= page < TotalPages(|data|)
    ensures |PageRows(data, page)| == RowsPerPage
  {
    var n := TotalPages(|data|);
    assert page * RowsPerPage <= (n - 1) * RowsPerPage;
  }

  /** Pages 1 to `n`, one after the other. */
  function Pages(data: seq<Product>, n: nat): seq<Product>
  {
    if n == 0 then [] else Pages(data, n - 1) + PageRows(data, n)
  }

  lemma {:induction false} PagesArePrefix(data: seq<Product>, n: nat)
    ensures Pages(data, n) == data[..Min(n * RowsPerPage, |data|)]
  {
    if n > 0 {
      PagesArePrefix(data, n - 1);
      var lo := Min((n - 1) * RowsPerPage, |data|);
      var hi := Min(n * RowsPerPage, |data|);
      assert data[..lo] + data[lo..hi] == data[..hi];
    }
  }

  /** Reading pages 1 to `TotalPages` in turn shows every row once, in order. */
  lemma PagesCoverData(data: seq<Product>)
    ensures Pages(data, TotalPages(|data|)) == data
  {
    PagesArePrefix(data, TotalPages(|data|));
  }

  /** Every row shown on a page is a row of the working list. */
  lemma PageRowsInData(data: seq<Product>, page: int)
    requires page >= 1
    ensures forall p :: p in PageRows(data, page) ==> p in data
    ensures forall x :: x in Ids(PageRows(data, page)) ==> x in Ids(data)
  {
    SameMembersSameIds(PageRows(data, page), data);
  }
}
