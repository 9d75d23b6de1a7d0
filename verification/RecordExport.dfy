/** Reading an ordered list of records page by page, and what the export makes of the pages. */
module RecordExport {
  import opened Models

  const MAX_PER_PAGE := 100
  const MAX_EXPORT_ROWS := 1000

  function Min(a: int, b: int): int {
    if a < b then a else b
  }

  /** LIMIT perPage OFFSET (page - 1) * perPage on the ordered rows. */
  function PageOf<T>(rows: seq<T>, page: nat, perPage: nat): (batch: seq<T>)
    requires page >= 1
    ensures |batch| <= perPage
  {
    var offset := (page - 1) * perPage;
    if offset >= |rows| then [] else rows[offset..Min(offset + perPage, |rows|)]
  }

  function PagesUpTo<T>(rows: seq<T>, perPage: nat, k: nat): seq<T> {
    if k == 0 then [] else PagesUpTo(rows, perPage, k - 1) + PageOf(rows, k, perPage)
  }

  /** The first k pages, one after the other, are the front of the list. */
  lemma {:induction false} PagesArePrefix<T>(rows: seq<T>, perPage: nat, k: nat)
    ensures PagesUpTo(rows, perPage, k) == rows[..Min(k * perPage, |rows|)]
  {
    if k > 0 {
      PagesArePrefix(rows, perPage, k - 1);
      assert k * perPage == (k - 1) * perPage + perPage;
    }
  }

  /** The export: whole pages of 100 as far as they go, then one page of the remaining size,
      which the database counts from the start in units of that size. */
  function Exported<T>(rows: seq<T>, limit: nat): seq<T> {
    var k, r := limit / 100, limit % 100;
    if |rows| < 100 * k then rows
    else rows[..100 * k] + PageOf(rows, k + 1, r)
  }

  method ExportRecords<T>(rows: seq<T>, limit: int) returns (r: Result<seq<T>>)
    ensures r.Ok? <==> 1 <= limit <= MAX_EXPORT_ROWS
    ensures r.Ok? ==> r.value == Exported(rows, limit)
    ensures r.Ok? && PagesFit(|rows|, limit) ==> r.value == FirstRows(rows, limit)
  {
    if limit < 1 || limit > MAX_EXPORT_ROWS {
      return ValueError;
    }
    var exported: seq<T> := [];
    var page := 1;
    while |exported| < limit
      invariant 1 <= page <= limit / 100 + 2
      invariant page <= limit / 100 + 1 ==> exported == FullPages(rows, page - 1)
      invariant page <= limit / 100 + 1 ==> 100 * (page - 1) <= |rows|
      invariant page == limit / 100 + 2 ==> exported == Exported(rows, limit) && |exported| == limit
      decreases limit - |exported|
    {
      var perPage := Min(100, limit - |exported|);
      var batch := PageOf(rows, page, perPage);
      PageStep(rows, page, limit);
      exported := exported + batch;
      if |batch| < Min(100, limit - |exported| + |batch|) {
        break;
      }
      page := page + 1;
    }
    if PagesFit(|rows|, limit) {
      FittingExport(rows, limit);
    }
    return Ok(exported[..Min(limit, |exported|)]);
  }

  function FullPages<T>(rows: seq<T>, k: nat): seq<T> {
    rows[..Min(100 * k, |rows|)]
  }

  /** One turn of the loop, while whole pages or the last page are being read. */
  lemma {:induction false} PageStep<T>(rows: seq<T>, page: nat, limit: nat)
    requires 1 <= page <= limit / 100 + 1 && 100 * (page - 1) < limit && 100 * (page - 1) <= |rows|
    ensures page <= limit / 100 ==>
              FullPages(rows, page - 1) + PageOf(rows, page, 100) == FullPages(rows, page)
    ensures page <= limit / 100 && |rows| < 100 * page ==>
              FullPages(rows, page) == rows == Exported(rows, limit) && |PageOf(rows, page, 100)| < 100
    ensures page <= limit / 100 && |rows| >= 100 * page ==> |PageOf(rows, page, 100)| == 100
    ensures page == limit / 100 + 1 ==>
              FullPages(rows, page - 1) + PageOf(rows, page, limit % 100) == Exported(rows, limit)
  {
    if page <= limit / 100 {
      assert (page - 1) * 100 + 100 == 100 * page;
      if |rows| < 100 * page {
        assert |rows| < 100 * (limit / 100);
      }
    }
  }

  function FirstRows<T>(rows: seq<T>, limit: nat): seq<T> {
    rows[..Min(limit, |rows|)]
  }

  ghost predicate Distinct<T(!new)>(rows: seq<T>) {
    forall i, j :: 0 <= i < j < |rows| ==> rows[i] != rows[j]
  }

  /** When the last page, if any, is read in the right place. */
  predicate PagesFit(total: nat, limit: nat) {
    limit <= 100 || limit % 100 == 0 || total < 100 * (limit / 100)
  }

  /** The export is the first rows of the list, as it is meant to be, iff the limit is at most
      100, a multiple of 100, or not yet reached by whole pages; if it is not, some row comes twice. */
  lemma {:induction false} ExportIsFirstRowsIff<T(!new)>(rows: seq<T>, limit: nat)
    requires 1 <= limit && Distinct(rows)
    ensures Exported(rows, limit) == FirstRows(rows, limit) <==> PagesFit(|rows|, limit)
    ensures Distinct(Exported(rows, limit)) <==> PagesFit(|rows|, limit)
  {
    var k, r := limit / 100, limit % 100;
    assert limit == 100 * k + r;
    if PagesFit(|rows|, limit) {
      FittingExport(rows, limit);
      assert FirstRows(rows, limit) <= rows;
    } else {
      var out := Exported(rows, limit);
      MisplacedPage(k, r, |rows|);
      assert k * r < |rows| && out[100 * k] == rows[k * r] == out[k * r];
      assert 100 * k < |rows| ==> FirstRows(rows, limit)[100 * k] == rows[100 * k];
    }
  }

  lemma {:induction false} MisplacedPage(k: nat, r: nat, total: nat)
    requires k >= 1 && 0 < r < 100 && total >= 100 * k
    ensures k * r < 100 * k <= total
  {
  }

  lemma {:induction false} FittingExport<T>(rows: seq<T>, limit: nat)
    requires 1 <= limit && PagesFit(|rows|, limit)
    ensures Exported(rows, limit) == FirstRows(rows, limit)
  {
    var k, r := limit / 100, limit % 100;
    if |rows| >= 100 * k {
      if r == 0 {
        assert PageOf(rows, k + 1, 0) == [];
      } else if k == 0 {
        assert (k + 1 - 1) * r == 0;
      }
    }
  }
}
