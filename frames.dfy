/**
  The data model shared by the pipeline: the tables pandas passes between the
  steps, written as values.

  A date is a month number, 12 * year + (month - 1), standing for that month's
  month-end timestamp; the calendar year of month number m is m / 12. A year-end
  series is keyed by the year itself. A cell is None where pandas holds NaN.
*/
module Frames {

  datatype Option<+T> = None | Some(value: T)

  /** One cell of a price table; None is pandas' NaN (a missing value). */
  type Cell = Option<real>

  /** The ways the pipeline stops instead of returning a table. */
  datatype Error =
    | UnknownTicker(ticker: string)     // get_ticker_details: the info has no "longName"
    | MissingInfoKey(key: string)       // get_ticker_details: KeyError on data["currency"]
    | AllocationSumInvalid(total: int)  // the allocations do not add up to 100
    | EmptyWindow                       // iloc[0] on a table without a complete row
    | ZeroBasePrice                     // rebasing against a first value of zero
    | InfiniteReturn                    // pct_change against a year-end value of zero
    | NoAnnualReturns                   // int() of the NaN minimum of an empty return series
    | ZeroStep                          // range() given a step of zero

  datatype Result<+T> = Ok(value: T) | Err(error: Error)

  /** One dated value of a single series. */
  datatype Point = Point(date: int, value: Cell)

  /** One row of a table: its index date and one cell per column. */
  datatype Row = Row(date: int, cells: seq<Cell>)

  /** A date-indexed table: column labels and rows in index order. */
  datatype Frame = Frame(columns: seq<string>, rows: seq<Row>)

  /** A resolved ticker: what get_ticker_details returns, with the ticker itself. */
  datatype Asset = Asset(ticker: string, name: string, currency: string)

  /** One line of the portfolio table: a resolved ticker and its allocation in percent. */
  datatype Holding = Holding(ticker: string, name: string, currency: string, allocation: int)

  function EmptyFrame(): Frame { Frame([], []) }

  predicate Ascending(rows: seq<Row>)
  {
    forall i, j :: 0 <= i < j < |rows| ==> rows[i].date < rows[j].date
  }

  predicate AscendingPoints(pts: seq<Point>)
  {
    forall i, j :: 0 <= i < j < |pts| ==> pts[i].date < pts[j].date
  }

  predicate Rectangular(rows: seq<Row>, width: nat)
  {
    forall i :: 0 <= i < |rows| ==> |rows[i].cells| == width
  }

  /** What every DataFrame satisfies: a strictly increasing index and one cell per column in each row. */
  predicate WellFormed(f: Frame)
  {
    Ascending(f.rows) && Rectangular(f.rows, |f.columns|)
  }

  function RowDates(rows: seq<Row>): set<int>
  {
    set i | 0 <= i < |rows| :: rows[i].date
  }

  function PointDates(pts: seq<Point>): set<int>
  {
    set i | 0 <= i < |pts| :: pts[i].date
  }

  function CellOf(cells: seq<Cell>, j: int): Cell
  {
    if 0 <= j < |cells| then cells[j] else None
  }

  /** The cell at date d in column j: the first row dated d, or missing when there is none. */
  function CellAt(rows: seq<Row>, d: int, j: int): Cell
  {
    if |rows| == 0 then None
    else if rows[0].date == d then CellOf(rows[0].cells, j)
    else CellAt(rows[1..], d, j)
  }

  /** The value of a series at date d, or missing when it has no point dated d. */
  function ValueAt(pts: seq<Point>, d: int): Cell
  {
    if |pts| == 0 then None
    else if pts[0].date == d then pts[0].value
    else ValueAt(pts[1..], d)
  }

  lemma {:induction false} CellAtAbsent(rows: seq<Row>, d: int, j: int)
    requires d !in RowDates(rows)
    ensures CellAt(rows, d, j) == None
  {
    if |rows| > 0 {
      assert RowDates(rows[1..]) <= RowDates(rows) by {
        forall e | e in RowDates(rows[1..]) ensures e in RowDates(rows) {
          var i :| 0 <= i < |rows[1..]| && rows[1..][i].date == e;
          assert rows[i + 1].date == e;
        }
      }
      assert rows[0].date in RowDates(rows);
      CellAtAbsent(rows[1..], d, j);
    }
  }

  lemma {:induction false} ValueAtAbsent(pts: seq<Point>, d: int)
    requires d !in PointDates(pts)
    ensures ValueAt(pts, d) == None
  {
    if |pts| > 0 {
      assert PointDates(pts[1..]) <= PointDates(pts) by {
        forall e | e in PointDates(pts[1..]) ensures e in PointDates(pts) {
          var i :| 0 <= i < |pts[1..]| && pts[1..][i].date == e;
          assert pts[i + 1].date == e;
        }
      }
      assert pts[0].date in PointDates(pts);
      ValueAtAbsent(pts[1..], d);
    }
  }

  /** In an ascending table, the cell at a row's own date is that row's cell. */
  lemma {:induction false} CellAtRow(rows: seq<Row>, i: int, j: int)
    requires Ascending(rows) && 0 <= i < |rows|
    ensures CellAt(rows, rows[i].date, j) == CellOf(rows[i].cells, j)
  {
    if i > 0 {
      assert rows[1..][i - 1] == rows[i];
      CellAtRow(rows[1..], i - 1, j);
    }
  }

  // ---------------------------------------------------------------------------
  // resample(...).last(): one bucket per period from the first to the last one
  // ---------------------------------------------------------------------------

  /** The bucket of a date: its month for period 1, its year for period 12. */
  function Bucket(date: int, period: int): int
    requires period > 0
  {
    date / period
  }

  function MinBucket(pts: seq<Point>, period: int): (m: int)
    requires |pts| > 0 && period > 0
    ensures forall i :: 0 <= i < |pts| ==> m <= Bucket(pts[i].date, period)
    ensures exists i :: 0 <= i < |pts| && Bucket(pts[i].date, period) == m
  {
    if |pts| == 1 then Bucket(pts[0].date, period)
    else
      var rest := MinBucket(pts[1..], period);
      assert forall i :: 1 <= i < |pts| ==> pts[i] == pts[1..][i - 1];
      if Bucket(pts[0].date, period) < rest then Bucket(pts[0].date, period) else rest
  }

  function MaxBucket(pts: seq<Point>, period: int): (m: int)
    requires |pts| > 0 && period > 0
    ensures forall i :: 0 <= i < |pts| ==> Bucket(pts[i].date, period) <= m
    ensures exists i :: 0 <= i < |pts| && Bucket(pts[i].date, period) == m
  {
    if |pts| == 1 then Bucket(pts[0].date, period)
    else
      var rest := MaxBucket(pts[1..], period);
      assert forall i :: 1 <= i < |pts| ==> pts[i] == pts[1..][i - 1];
      if rest < Bucket(pts[0].date, period) then Bucket(pts[0].date, period) else rest
  }

  /** groupby(...).last(): the last non-missing value, by position, among the points of bucket k. */
  function LastIn(pts: seq<Point>, period: int, k: int): Cell
    requires period > 0
  {
    if |pts| == 0 then None
    else
      var p := pts[|pts| - 1];
      if Bucket(p.date, period) == k && p.value.Some? then p.value
      else LastIn(pts[..|pts| - 1], period, k)
  }

  /** LastIn is missing exactly when no point of the bucket has a value; otherwise it is the value of the last such point. */
  lemma {:induction false} LastInSpec(pts: seq<Point>, period: int, k: int)
    requires period > 0
    ensures LastIn(pts, period, k).None? <==>
      forall i :: 0 <= i < |pts| && Bucket(pts[i].date, period) == k ==> pts[i].value.None?
    ensures LastIn(pts, period, k).Some? ==>
      exists i :: 0 <= i < |pts| && Bucket(pts[i].date, period) == k && pts[i].value == LastIn(pts, period, k) &&
        forall j :: i < j < |pts| && Bucket(pts[j].date, period) == k ==> pts[j].value.None?
  {
    if |pts| > 0 {
      var n := |pts| - 1;
      var init := pts[..n];
      LastInSpec(init, period, k);
      assert forall i :: 0 <= i < n ==> init[i] == pts[i];
      if !(Bucket(pts[n].date, period) == k && pts[n].value.Some?) {
        if LastIn(init, period, k).Some? {
          var i :| 0 <= i < n && Bucket(init[i].date, period) == k && init[i].value == LastIn(init, period, k) &&
            forall j :: i < j < n && Bucket(init[j].date, period) == k ==> init[j].value.None?;
          assert Bucket(pts[i].date, period) == k && pts[i].value == LastIn(pts, period, k);
        }
      }
    }
  }

  /**
    pandas' resample(...).last(): one point per bucket from the earliest bucket to the
    latest one, each holding the last value seen in its bucket (missing for a bucket
    without data). An empty series stays empty.
  */
  function ResampleLast(pts: seq<Point>, period: int): (r: seq<Point>)
    requires period > 0
    ensures |pts| == 0 <==> |r| == 0
    ensures |pts| > 0 ==> r[0].date == MinBucket(pts, period) && r[|r| - 1].date == MaxBucket(pts, period)
    ensures forall i :: 0 <= i < |r| ==> r[i].date == r[0].date + i
    ensures forall i :: 0 <= i < |r| ==> r[i].value == LastIn(pts, period, r[i].date)
    ensures AscendingPoints(r)
  {
    if |pts| == 0 then []
    else
      var lo := MinBucket(pts, period);
      var hi := MaxBucket(pts, period);
      seq(hi - lo + 1, i requires 0 <= i <= hi - lo => Point(lo + i, LastIn(pts, period, lo + i)))
  }

  /** The value of a resampled series at bucket k is the last value seen in that bucket. */
  lemma ResampleLastAt(pts: seq<Point>, period: int, k: int)
    requires period > 0
    ensures ValueAt(ResampleLast(pts, period), k) == LastIn(pts, period, k)
  {
    var r := ResampleLast(pts, period);
    if k in PointDates(r) {
      var i :| 0 <= i < |r| && r[i].date == k;
      ValueAtIndex(r, i);
    } else {
      ValueAtAbsent(r, k);
      LastInSpec(pts, period, k);
      ResampleLastCovers(pts, period);
    }
  }

  /** Every observation's bucket has a point in the resampled series. */
  lemma ResampleLastCovers(pts: seq<Point>, period: int)
    requires period > 0
    ensures forall i :: 0 <= i < |pts| ==> Bucket(pts[i].date, period) in PointDates(ResampleLast(pts, period))
  {
    var r := ResampleLast(pts, period);
    forall i | 0 <= i < |pts| ensures Bucket(pts[i].date, period) in PointDates(r) {
      var lo := MinBucket(pts, period);
      var k := Bucket(pts[i].date, period);
      assert 0 <= k - lo < |r|;
      assert r[k - lo].date == k;
    }
  }

  lemma {:induction false} ValueAtIndex(pts: seq<Point>, i: int)
    requires AscendingPoints(pts) && 0 <= i < |pts|
    ensures ValueAt(pts, pts[i].date) == pts[i].value
  {
    if i > 0 {
      assert pts[1..][i - 1] == pts[i];
      ValueAtIndex(pts[1..], i - 1);
    }
  }
}
