/** The trade ledger the analytics read: one record per row of the uploaded
    table, the optional date window a performance run is restricted to, and
    the by-date ordering applied before any metric is computed. */
module Ledger {
  import opened Calendar

  datatype Option<T> = None | Some(value: T)

  /** One ledger row. `kind` is the `Type` column as written; only the exact
      text "Buy" counts as a purchase. `totalValue` is carried but never read. */
  datatype TradeRecord = TradeRecord(
    date: Date,
    symbol: string,
    kind: string,
    quantity: int,
    price: real,
    totalValue: real,
    portfolioValue: real)

  predicate InWindow(d: Date, start: Date, end: Date) {
    AtOrBefore(start, d) && AtOrBefore(d, end)
  }

  /** Whether a row survives the window: every row when either bound is
      missing, otherwise the rows dated within both bounds inclusive. */
  predicate Kept(t: TradeRecord, start: Option<Date>, end: Option<Date>) {
    start.None? || end.None? || InWindow(t.date, start.value, end.value)
  }

  /** The rows of the ledger that a performance run analyses, as a multiset:
      the run sorts them by date next, so their order here does not matter. */
  function Window(ledger: seq<TradeRecord>, start: Option<Date>, end: Option<Date>): (rows: seq<TradeRecord>)
    ensures forall t :: multiset(rows)[t] == if Kept(t, start, end) then multiset(ledger)[t] else 0
    ensures |rows| <= |ledger|
  {
    if ledger == [] then []
    else
      var rest := Window(ledger[1..], start, end);
      assert ledger == [ledger[0]] + ledger[1..];
      if Kept(ledger[0], start, end) then [ledger[0]] + rest else rest
  }

  predicate SortedByDate(rows: seq<TradeRecord>) {
    forall i, j :: 0 <= i < j < |rows| ==> AtOrBefore(rows[i].date, rows[j].date)
  }

  /** A row dated no later than every row of a sorted sequence may go in front. */
  lemma PrependSorted(t: TradeRecord, rows: seq<TradeRecord>)
    requires SortedByDate(rows)
    requires forall u :: u in rows ==> AtOrBefore(t.date, u.date)
    ensures SortedByDate([t] + rows)
  {
    var r := [t] + rows;
    forall i, j | 0 <= i < j < |r| ensures AtOrBefore(r[i].date, r[j].date) {
      if i > 0 {
        assert r[i] == rows[i - 1] && r[j] == rows[j - 1];
      } else {
        assert r[j] in rows;
      }
    }
  }

  function Insert(t: TradeRecord, rows: seq<TradeRecord>): (r: seq<TradeRecord>)
    requires SortedByDate(rows)
    ensures SortedByDate(r)
    ensures multiset(r) == multiset(rows) + multiset{t}
  {
    if rows == [] then [t]
    else if AtOrBefore(t.date, rows[0].date) then
      FirstIsEarliest(rows);
      PrependSorted(t, rows);
      [t] + rows
    else
      TailSorted(rows);
      var rest := Insert(t, rows[1..]);
      assert forall u :: u in rest ==> AtOrBefore(rows[0].date, u.date) by {
        FirstIsEarliest(rows);
        InsertedFrom(t, rows, rest);
      }
      PrependSorted(rows[0], rest);
      assert rows == [rows[0]] + rows[1..];
      [rows[0]] + rest
  }

  /** The first row of a date-sorted sequence is dated no later than any row. */
  lemma FirstIsEarliest(rows: seq<TradeRecord>)
    requires |rows| > 0 && SortedByDate(rows)
    ensures forall u :: u in rows ==> AtOrBefore(rows[0].date, u.date)
  {
    forall u | u in rows ensures AtOrBefore(rows[0].date, u.date) {
      var k :| 0 <= k < |rows| && rows[k] == u;
      assert k == 0 || AtOrBefore(rows[0].date, rows[k].date);
    }
  }

  lemma TailSorted(rows: seq<TradeRecord>)
    requires |rows| > 0 && SortedByDate(rows)
    ensures SortedByDate(rows[1..])
  {
    var tail := rows[1..];
    forall i, j | 0 <= i < j < |tail| ensures AtOrBefore(tail[i].date, tail[j].date) {
      assert tail[i] == rows[i + 1] && tail[j] == rows[j + 1];
    }
  }

  /** Every row of `rest`, which holds the tail of `rows` and `t`, is either
      `t` or a row of `rows`. */
  lemma InsertedFrom(t: TradeRecord, rows: seq<TradeRecord>, rest: seq<TradeRecord>)
    requires |rows| > 0 && multiset(rest) == multiset(rows[1..]) + multiset{t}
    ensures forall u :: u in rest ==> u == t || u in rows
  {
    forall u | u in rest ensures u == t || u in rows {
      assert u in multiset(rest);
      if u != t {
        assert u in multiset(rows[1..]);
        var k :| 0 <= k < |rows[1..]| && rows[1..][k] == u;
        assert rows[k + 1] == u;
      }
    }
  }

  /** The ledger ordered by date. Rows sharing a date may come out in any
      order: only "ascending by date" and "the same rows" are promised. */
  function SortByDate(rows: seq<TradeRecord>): (r: seq<TradeRecord>)
    ensures SortedByDate(r)
    ensures multiset(r) == multiset(rows)
  {
    if rows == [] then []
    else
      assert rows == [rows[0]] + rows[1..];
      Insert(rows[0], SortByDate(rows[1..]))
  }

  /** The earliest date in the rows. */
  function MinDate(rows: seq<TradeRecord>): (d: Date)
    requires |rows| > 0
    ensures exists i :: 0 <= i < |rows| && rows[i].date == d
    ensures forall i :: 0 <= i < |rows| ==> AtOrBefore(d, rows[i].date)
  {
    if |rows| == 1 then rows[0].date
    else
      var m := MinDate(rows[1..]);
      assert forall i :: 1 <= i < |rows| ==> rows[i] == rows[1..][i - 1];
      if AtOrBefore(rows[0].date, m) then rows[0].date else m
  }

  /** The latest date in the rows. */
  function MaxDate(rows: seq<TradeRecord>): (d: Date)
    requires |rows| > 0
    ensures exists i :: 0 <= i < |rows| && rows[i].date == d
    ensures forall i :: 0 <= i < |rows| ==> AtOrBefore(rows[i].date, d)
  {
    if |rows| == 1 then rows[0].date
    else
      var m := MaxDate(rows[1..]);
      assert forall i :: 1 <= i < |rows| ==> rows[i] == rows[1..][i - 1];
      if AtOrBefore(m, rows[0].date) then rows[0].date else m
  }

  /** After sorting, the first row carries the earliest date and the last row
      the latest one, whichever sorted order the tie-breaking produced. */
  lemma SortedEnds(rows: seq<TradeRecord>, sorted: seq<TradeRecord>)
    requires |rows| > 0
    requires SortedByDate(sorted) && multiset(sorted) == multiset(rows)
    ensures |sorted| == |rows|
    ensures sorted[0].date == MinDate(rows)
    ensures sorted[|sorted| - 1].date == MaxDate(rows)
  {
    assert |sorted| == |multiset(sorted)| == |rows|;
    var lo, hi := MinDate(rows), MaxDate(rows);
    var i :| 0 <= i < |rows| && rows[i].date == lo;
    var j :| 0 <= j < |rows| && rows[j].date == hi;
    assert rows[i] in multiset(sorted) && rows[j] in multiset(sorted);
    var i' :| 0 <= i' < |sorted| && sorted[i'] == rows[i];
    var j' :| 0 <= j' < |sorted| && sorted[j'] == rows[j];
    assert sorted[0] in multiset(rows) && sorted[|sorted| - 1] in multiset(rows);
    assert AtOrBefore(sorted[0].date, sorted[i'].date);
    assert AtOrBefore(sorted[j'].date, sorted[|sorted| - 1].date);
  }
}
