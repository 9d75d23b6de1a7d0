/** The history curve: the matching records of several detectors are read page by page, sorted,
    and one page of the whole is returned. */
module HistoryQuery {
  import opened Models
  import opened RecordExport

  const HISTORY_MAX_POINTS := 1000

  /** recordedAt stands for the place of the time text in text order. */
  datatype Row = Row(detectorId: int, recordedAt: int, id: int)

  /** The rows of a detector in the time range, as the database orders them. */
  type Source = int -> seq<Row>

  datatype History = History(items: seq<Row>, total: nat)

  /** The rows of the detectors, one detector after the other. */
  function Gathered(rowsOf: Source, ids: seq<int>): seq<Row> {
    if |ids| == 0 then [] else Gathered(rowsOf, ids[..|ids| - 1]) + rowsOf(ids[|ids| - 1])
  }

  lemma {:induction false} GatheredNext(rowsOf: Source, ids: seq<int>, k: nat)
    requires k < |ids|
    ensures Gathered(rowsOf, ids[..k + 1]) == Gathered(rowsOf, ids[..k]) + rowsOf(ids[k])
    ensures |Gathered(rowsOf, ids[..k + 1])| <= |Gathered(rowsOf, ids)|
  {
    assert ids[..k + 1][..k] == ids[..k];
    GatheredGrows(rowsOf, ids, k + 1);
  }

  lemma {:induction false} GatheredGrows(rowsOf: Source, ids: seq<int>, k: nat)
    requires k <= |ids|
    ensures |Gathered(rowsOf, ids[..k])| <= |Gathered(rowsOf, ids)|
  {
    if k < |ids| {
      GatheredGrows(rowsOf, ids[..|ids| - 1], k);
      assert ids[..|ids| - 1][..k] == ids[..k];
    } else {
      assert ids[..k] == ids;
    }
  }

  /* ---------- Sorting by time and id ---------- */

  predicate AtMost(a: Row, b: Row) {
    a.recordedAt < b.recordedAt || (a.recordedAt == b.recordedAt && a.id <= b.id)
  }

  predicate InOrder(a: Row, b: Row, descending: bool) {
    if descending then AtMost(b, a) else AtMost(a, b)
  }

  ghost predicate IsSorted(rows: seq<Row>, descending: bool) {
    forall i, j :: 0 <= i < j < |rows| ==> InOrder(rows[i], rows[j], descending)
  }

  /** Sorted rows go from the earliest to the latest, or the other way round; at one time by id. */
  lemma {:induction false} SortedByTime(rows: seq<Row>, descending: bool)
    ensures IsSorted(rows, descending)
            <==> forall i, j :: 0 <= i < j < |rows| ==>
                   var first, second := if descending then rows[j] else rows[i],
                     if descending then rows[i] else rows[j];
                   && first.recordedAt <= second.recordedAt
                   && (first.recordedAt == second.recordedAt ==> first.id <= second.id)
  {
    forall i, j | 0 <= i < j < |rows|
      ensures InOrder(rows[i], rows[j], descending)
              <==> var first, second := if descending then rows[j] else rows[i],
                     if descending then rows[i] else rows[j];
                   && first.recordedAt <= second.recordedAt
                   && (first.recordedAt == second.recordedAt ==> first.id <= second.id)
    {
    }
  }

  function Insert(row: Row, rows: seq<Row>, descending: bool): seq<Row> {
    if |rows| == 0 then [row]
    else if InOrder(rows[|rows| - 1], row, descending) then rows + [row]
    else Insert(row, rows[..|rows| - 1], descending) + [rows[|rows| - 1]]
  }

  /** A stable sort, as the language's sorted is. */
  function Sorted(rows: seq<Row>, descending: bool): seq<Row> {
    if |rows| == 0 then [] else Insert(rows[|rows| - 1], Sorted(rows[..|rows| - 1], descending), descending)
  }

  lemma {:induction false} InsertKeeps(row: Row, rows: seq<Row>, descending: bool)
    ensures multiset(Insert(row, rows, descending)) == multiset(rows) + multiset{row}
  {
    if |rows| > 0 {
      var front, last := rows[..|rows| - 1], rows[|rows| - 1];
      assert rows == front + [last];
      if !InOrder(last, row, descending) {
        InsertKeeps(row, front, descending);
      }
    }
  }

  lemma {:induction false} InsertSorts(row: Row, rows: seq<Row>, descending: bool)
    requires IsSorted(rows, descending)
    ensures IsSorted(Insert(row, rows, descending), descending)
  {
    if |rows| > 0 {
      var front, last := rows[..|rows| - 1], rows[|rows| - 1];
      if !InOrder(last, row, descending) {
        InsertSorts(row, front, descending);
        InsertKeeps(row, front, descending);
        var inner := Insert(row, front, descending);
        forall i | 0 <= i < |inner|
          ensures InOrder(inner[i], last, descending)
        {
          assert inner[i] in multiset(inner);
          assert inner[i] == row || inner[i] in front;
        }
      }
    }
  }

  lemma {:induction false} SortedSorts(rows: seq<Row>, descending: bool)
    ensures IsSorted(Sorted(rows, descending), descending)
    ensures multiset(Sorted(rows, descending)) == multiset(rows)
  {
    if |rows| > 0 {
      var front, last := rows[..|rows| - 1], rows[|rows| - 1];
      assert rows == front + [last];
      SortedSorts(front, descending);
      InsertSorts(last, Sorted(front, descending), descending);
      InsertKeeps(last, Sorted(front, descending), descending);
    }
  }

  /** The id is the primary key of the table. */
  ghost predicate KeyedById(rows: seq<Row>) {
    forall i, j :: 0 <= i < |rows| && 0 <= j < |rows| && rows[i].id == rows[j].id ==> rows[i] == rows[j]
  }

  /** The same rows have one sorted arrangement only. */
  lemma {:induction false} SortedIsUnique(a: seq<Row>, b: seq<Row>, descending: bool)
    requires IsSorted(a, descending) && IsSorted(b, descending)
    requires multiset(a) == multiset(b) && KeyedById(a)
    ensures a == b
  {
    assert |b| == |multiset(b)| == |multiset(a)| == |a|;
    if |a| > 0 {
      var n := |a| - 1;
      LastIsLast(a, b, descending);
      WithoutLast(a);
      WithoutLast(b);
      FrontIsSorted(a, descending);
      FrontIsSorted(b, descending);
      SortedIsUnique(a[..n], b[..n], descending);
      assert a == a[..n] + [a[n]] && b == b[..n] + [b[n]];
    }
  }

  lemma {:induction false} FrontIsSorted(a: seq<Row>, descending: bool)
    requires |a| > 0 && IsSorted(a, descending)
    ensures IsSorted(a[..|a| - 1], descending)
    ensures KeyedById(a) ==> KeyedById(a[..|a| - 1])
  {
  }

  lemma {:induction false} WithoutLast(a: seq<Row>)
    requires |a| > 0
    ensures multiset(a[..|a| - 1]) == multiset(a) - multiset{a[|a| - 1]}
  {
    assert a == a[..|a| - 1] + [a[|a| - 1]];
  }

  lemma {:induction false} LastIsLast(a: seq<Row>, b: seq<Row>, descending: bool)
    requires |a| == |b| > 0 && multiset(a) == multiset(b) && KeyedById(a)
    requires IsSorted(a, descending) && IsSorted(b, descending)
    ensures a[|a| - 1] == b[|a| - 1]
  {
    var n := |a| - 1;
    assert b[n] in multiset(a) && a[n] in multiset(b);
    var i :| 0 <= i < |a| && a[i] == b[n];
    var j :| 0 <= j < |b| && b[j] == a[n];
    assert InOrder(a[i], a[n], descending) || i == n;
    assert InOrder(b[j], b[n], descending) || j == n;
    assert a[i].id == a[n].id;
  }

  /* ---------- The query ---------- */

  method GatherRows(rowsOf: Source, ids: seq<int>) returns (r: Result<seq<Row>>, total: nat)
    ensures r.Ok? <==> |Gathered(rowsOf, ids)| <= 1000
    ensures r.Ok? ==> r.value == Gathered(rowsOf, ids) && total == |r.value|
  {
    var allRows: seq<Row> := [];
    total := 0;
    for k := 0 to |ids|
      invariant allRows == Gathered(rowsOf, ids[..k])
      invariant total == |allRows| <= HISTORY_MAX_POINTS
    {
      GatheredNext(rowsOf, ids, k);
      ghost var before := allRows;
      var rows := rowsOf(ids[k]);
      total := total + |rows|;
      if total > HISTORY_MAX_POINTS {
        return ValueError, total;
      }
      allRows := allRows + PageOf(rows, 1, 100);
      var page := 2;
      while |allRows| < total
        invariant page >= 2
        invariant allRows == before + rows[..Min((page - 1) * 100, |rows|)]
        decreases total - |allRows|
      {
        var batch := PageOf(rows, page, 100);
        NextPage(rows, page);
        if |batch| == 0 {
          break;
        }
        allRows := allRows + batch;
        page := page + 1;
      }
      assert rows[..|rows|] == rows;
    }
    assert ids[..|ids|] == ids;
    r := Ok(allRows);
  }

  lemma {:induction false} NextPage(rows: seq<Row>, page: nat)
    requires page >= 1
    ensures rows[..Min((page - 1) * 100, |rows|)] + PageOf(rows, page, 100) == rows[..Min(page * 100, |rows|)]
    ensures |PageOf(rows, page, 100)| == 0 <==> (page - 1) * 100 >= |rows|
  {
  }

  /** One page of the sorted arrangement of all rows, and their number; refused when there are
      more than 1000 or the page is not a page. */
  method QueryHistory(rowsOf: Source, ids: seq<int>, page: int, perPage: int, descending: bool)
    returns (r: Result<History>)
    ensures r.Ok? <==> |Gathered(rowsOf, ids)| <= HISTORY_MAX_POINTS && page >= 1 && 1 <= perPage <= MAX_PER_PAGE
    ensures r.Ok? ==> r.value.total == |Gathered(rowsOf, ids)|
    ensures r.Ok? ==> r.value.items == PageOf(Sorted(Gathered(rowsOf, ids), descending), page, perPage)
  {
    var gathered, total := GatherRows(rowsOf, ids);
    if gathered.ValueError? || page < 1 || !(1 <= perPage <= MAX_PER_PAGE) {
      return ValueError;
    }
    return Ok(History(PageOf(Sorted(gathered.value, descending), page, perPage), total));
  }

  /** The pages, one after the other, are the sorted arrangement of every matching row, each as
      often as its detector is asked for. */
  lemma {:induction false} PagesAreTheArrangement(
    rowsOf: Source, ids: seq<int>, perPage: nat, pages: nat, descending: bool)
    requires perPage >= 1 && pages * perPage >= |Gathered(rowsOf, ids)|
    ensures var all := PagesUpTo(Sorted(Gathered(rowsOf, ids), descending), perPage, pages);
            IsSorted(all, descending) && multiset(all) == multiset(Gathered(rowsOf, ids))
  {
    var sorted := Sorted(Gathered(rowsOf, ids), descending);
    SortedSorts(Gathered(rowsOf, ids), descending);
    assert |sorted| == |multiset(sorted)| == |Gathered(rowsOf, ids)|;
    PagesArePrefix(sorted, perPage, pages);
    assert PagesUpTo(sorted, perPage, pages) == sorted;
  }

  /** The query for a detector returns rows of that detector. */
  ghost predicate OwnRows(rowsOf: Source) {
    forall d: int, i :: 0 <= i < |rowsOf(d)| ==> rowsOf(d)[i].detectorId == d
  }

  /** Every row comes once for each time its detector is among the ids. */
  lemma {:induction false} EachRowPerOccurrence(rowsOf: Source, ids: seq<int>, row: Row)
    requires OwnRows(rowsOf)
    ensures multiset(Gathered(rowsOf, ids))[row]
            == multiset(ids)[row.detectorId] * multiset(rowsOf(row.detectorId))[row]
  {
    if |ids| > 0 {
      var front, last := ids[..|ids| - 1], ids[|ids| - 1];
      EachRowPerOccurrence(rowsOf, front, row);
      NoForeignRow(rowsOf, last, row);
      CountsGrow(rowsOf, ids, row);
      OnceMore(multiset(front)[row.detectorId], multiset(rowsOf(row.detectorId))[row]);
    }
  }

  lemma {:induction false} CountsGrow(rowsOf: Source, ids: seq<int>, row: Row)
    requires |ids| > 0
    ensures var front, last := ids[..|ids| - 1], ids[|ids| - 1];
            && multiset(Gathered(rowsOf, ids))[row]
               == multiset(Gathered(rowsOf, front))[row] + multiset(rowsOf(last))[row]
            && multiset(ids)[row.detectorId]
               == multiset(front)[row.detectorId] + if last == row.detectorId then 1 else 0
  {
    assert ids == ids[..|ids| - 1] + [ids[|ids| - 1]];
  }

  lemma {:induction false} OnceMore(times: nat, each: nat)
    ensures (times + 1) * each == times * each + each
  {
  }

  lemma {:induction false} NoForeignRow(rowsOf: Source, d: int, row: Row)
    requires OwnRows(rowsOf)
    ensures row.detectorId != d ==> multiset(rowsOf(d))[row] == 0
  {
    assert row.detectorId != d ==> row !in rowsOf(d);
  }

  /** The order in which the detectors are named does not matter. */
  lemma {:induction false} DetectorOrderDoesNotMatter(rowsOf: Source, ids: seq<int>, others: seq<int>, descending: bool)
    requires OwnRows(rowsOf)
    requires multiset(ids) == multiset(others) && KeyedById(Gathered(rowsOf, ids))
    ensures Sorted(Gathered(rowsOf, ids), descending) == Sorted(Gathered(rowsOf, others), descending)
  {
    var a, b := Gathered(rowsOf, ids), Gathered(rowsOf, others);
    forall row: Row
      ensures multiset(a)[row] == multiset(b)[row]
    {
      EachRowPerOccurrence(rowsOf, ids, row);
      EachRowPerOccurrence(rowsOf, others, row);
    }
    assert multiset(a) == multiset(b);
    SortedSorts(a, descending);
    SortedSorts(b, descending);
    KeysOfSameRows(a, Sorted(a, descending));
    SortedIsUnique(Sorted(a, descending), Sorted(b, descending), descending);
  }

  lemma {:induction false} KeysOfSameRows(a: seq<Row>, b: seq<Row>)
    requires KeyedById(a) && multiset(a) == multiset(b)
    ensures KeyedById(b)
  {
    forall i, j | 0 <= i < |b| && 0 <= j < |b| && b[i].id == b[j].id
      ensures b[i] == b[j]
    {
      assert b[i] in multiset(a) && b[j] in multiset(a);
      assert b[i] in a && b[j] in a;
    }
  }
}
