/**
  portfolio_optimizer/market_data_service.py: the ticker-metadata check and the
  construction of the aligned price table. The provider calls (yfinance) are not
  modelled: a ticker's info dictionary and its monthly close history are inputs.
*/
module MarketDataService {
  import opened Frames

  datatype TickerDetails = TickerDetails(name: string, currency: string)

  /**
    get_ticker_details: a ticker whose info lacks "longName" is unknown and raises an
    error naming it; otherwise exactly the name and the currency are returned (a
    missing "currency" key raises a KeyError).
  */
  function GetTickerDetails(ticker: string, info: map<string, string>): (r: Result<TickerDetails>)
    ensures "longName" !in info ==> r == Err(UnknownTicker(ticker))
    ensures r.Ok? <==> "longName" in info && "currency" in info
    ensures r.Ok? ==> r.value.name == info["longName"] && r.value.currency == info["currency"]
  {
    if "longName" !in info then Err(UnknownTicker(ticker))
    else if "currency" !in info then Err(MissingInfoKey("currency"))
    else Ok(TickerDetails(info["longName"], info["currency"]))
  }

  /** resample("ME", on="Date").last(): one point per month from the first to the last observation. */
  function MonthEnd(history: seq<Point>): (r: seq<Point>)
    ensures AscendingPoints(r)
    ensures |r| == 0 <==> |history| == 0
    ensures |history| > 0 ==> r[0].date == MinBucket(history, 1) && r[|r| - 1].date == MaxBucket(history, 1)
    ensures forall i :: 0 <= i < |r| ==> r[i].date == r[0].date + i
    ensures forall m :: ValueAt(r, m) == LastIn(history, 1, m)
  {
    forall m ensures ValueAt(ResampleLast(history, 1), m) == LastIn(history, 1, m) {
      ResampleLastAt(history, 1, m);
    }
    ResampleLast(history, 1)
  }

  function Missing(width: nat): (r: seq<Cell>)
    ensures |r| == width && forall j :: 0 <= j < width ==> r[j] == None
  {
    seq(width, j => None)
  }

  /**
    The outer join on the index of a table (width columns) with one more series: rows
    and points are merged by date; a date present on one side only gets a missing cell
    on the other.
  */
  function MergeRows(rows: seq<Row>, width: nat, pts: seq<Point>): seq<Row>
    decreases |rows| + |pts|
  {
    if |rows| == 0 && |pts| == 0 then []
    else if |pts| == 0 || (|rows| > 0 && rows[0].date < pts[0].date) then
      [Row(rows[0].date, rows[0].cells + [None])] + MergeRows(rows[1..], width, pts)
    else if |rows| == 0 || pts[0].date < rows[0].date then
      [Row(pts[0].date, Missing(width) + [pts[0].value])] + MergeRows(rows, width, pts[1..])
    else
      [Row(rows[0].date, rows[0].cells + [pts[0].value])] + MergeRows(rows[1..], width, pts[1..])
  }

  lemma RowDatesCons(r: Row, rows: seq<Row>)
    ensures RowDates([r] + rows) == {r.date} + RowDates(rows)
  {
    var s := [r] + rows;
    forall d | d in RowDates(rows) ensures d in RowDates(s) {
      var i :| 0 <= i < |rows| && rows[i].date == d;
      assert s[i + 1] == rows[i];
    }
    assert s[0] == r;
  }

  lemma PointDatesTail(pts: seq<Point>)
    requires |pts| > 0
    ensures PointDates(pts) == {pts[0].date} + PointDates(pts[1..])
  {
    forall d | d in PointDates(pts[1..]) ensures d in PointDates(pts) {
      var i :| 0 <= i < |pts[1..]| && pts[1..][i].date == d;
      assert pts[i + 1].date == d;
    }
  }

  lemma RowDatesTail(rows: seq<Row>)
    requires |rows| > 0
    ensures RowDates(rows) == {rows[0].date} + RowDates(rows[1..])
  {
    assert rows == [rows[0]] + rows[1..];
    RowDatesCons(rows[0], rows[1..]);
  }

  /** Prepending a row dated before every date of an ascending table keeps it ascending. */
  lemma AscendingCons(r: Row, rows: seq<Row>)
    requires Ascending(rows)
    requires forall d :: d in RowDates(rows) ==> r.date < d
    ensures Ascending([r] + rows)
  {
    var s := [r] + rows;
    forall i, j | 0 <= i < j < |s| ensures s[i].date < s[j].date {
      assert s[j] == rows[j - 1];
      assert rows[j - 1].date in RowDates(rows);
    }
  }

  lemma ConsShape(r: Row, rest: seq<Row>, width: nat)
    requires Ascending(rest) && Rectangular(rest, width) && |r.cells| == width
    requires forall d :: d in RowDates(rest) ==> r.date < d
    ensures Ascending([r] + rest) && Rectangular([r] + rest, width)
    ensures RowDates([r] + rest) == {r.date} + RowDates(rest)
  {
    AscendingCons(r, rest);
    RowDatesCons(r, rest);
  }

  /** Every date after the first row of an ascending table is later than the first. */
  lemma RowsAfter(rows: seq<Row>, lo: int)
    requires Ascending(rows) && |rows| > 0 && lo <= rows[0].date
    ensures forall d :: d in RowDates(rows[1..]) ==> lo < d
  {
    forall d | d in RowDates(rows[1..]) ensures lo < d {
      var i :| 0 <= i < |rows[1..]| && rows[1..][i].date == d;
      assert rows[i + 1].date == d;
    }
  }

  lemma RowsFrom(rows: seq<Row>, lo: int)
    requires Ascending(rows) && |rows| > 0 && lo < rows[0].date
    ensures forall d :: d in RowDates(rows) ==> lo < d
  {
    forall d | d in RowDates(rows) ensures lo < d {
      var i :| 0 <= i < |rows| && rows[i].date == d;
    }
  }

  lemma PointsAfter(pts: seq<Point>, lo: int)
    requires AscendingPoints(pts) && |pts| > 0 && lo <= pts[0].date
    ensures forall d :: d in PointDates(pts[1..]) ==> lo < d
  {
    forall d | d in PointDates(pts[1..]) ensures lo < d {
      var i :| 0 <= i < |pts[1..]| && pts[1..][i].date == d;
      assert pts[i + 1].date == d;
    }
  }

  lemma PointsFrom(pts: seq<Point>, lo: int)
    requires AscendingPoints(pts) && |pts| > 0 && lo < pts[0].date
    ensures forall d :: d in PointDates(pts) ==> lo < d
  {
    forall d | d in PointDates(pts) ensures lo < d {
      var i :| 0 <= i < |pts| && pts[i].date == d;
    }
  }

  /** The merge is an ascending table, one cell wider, over the union of both date sets. */
  lemma {:induction false} MergeRowsShape(rows: seq<Row>, width: nat, pts: seq<Point>)
    requires Ascending(rows) && Rectangular(rows, width) && AscendingPoints(pts)
    ensures Ascending(MergeRows(rows, width, pts))
    ensures Rectangular(MergeRows(rows, width, pts), width + 1)
    ensures RowDates(MergeRows(rows, width, pts)) == RowDates(rows) + PointDates(pts)
    decreases |rows| + |pts|
  {
    if |rows| == 0 && |pts| == 0 {
    } else if |pts| == 0 || (|rows| > 0 && rows[0].date < pts[0].date) {
      var rest := MergeRows(rows[1..], width, pts);
      MergeRowsShape(rows[1..], width, pts);
      RowDatesTail(rows);
      RowsAfter(rows, rows[0].date);
      if |pts| > 0 { PointsFrom(pts, rows[0].date); }
      ConsShape(Row(rows[0].date, rows[0].cells + [None]), rest, width + 1);
    } else if |rows| == 0 || pts[0].date < rows[0].date {
      var rest := MergeRows(rows, width, pts[1..]);
      MergeRowsShape(rows, width, pts[1..]);
      PointDatesTail(pts);
      PointsAfter(pts, pts[0].date);
      if |rows| > 0 { RowsFrom(rows, pts[0].date); }
      ConsShape(Row(pts[0].date, Missing(width) + [pts[0].value]), rest, width + 1);
    } else {
      var rest := MergeRows(rows[1..], width, pts[1..]);
      MergeRowsShape(rows[1..], width, pts[1..]);
      RowDatesTail(rows);
      PointDatesTail(pts);
      RowsAfter(rows, rows[0].date);
      PointsAfter(pts, rows[0].date);
      ConsShape(Row(rows[0].date, rows[0].cells + [pts[0].value]), rest, width + 1);
    }
  }

  /**
    The merge keeps every existing column's cell at every date (missing at a date that is
    new to the table) and puts the series' value, or missing, in the new last column.
  */
  lemma {:induction false} MergeRowsCells(rows: seq<Row>, width: nat, pts: seq<Point>, d: int, j: int)
    requires Ascending(rows) && Rectangular(rows, width) && AscendingPoints(pts)
    requires 0 <= j <= width
    ensures CellAt(MergeRows(rows, width, pts), d, j) == if j < width then CellAt(rows, d, j) else ValueAt(pts, d)
    decreases |rows| + |pts|
  {
    if |rows| == 0 && |pts| == 0 {
    } else if |pts| == 0 || (|rows| > 0 && rows[0].date < pts[0].date) {
      MergeRowsCells(rows[1..], width, pts, d, j);
      if rows[0].date == d && j == width && |pts| > 0 {
        forall i | 0 <= i < |pts| ensures pts[i].date != d {
          assert pts[0].date <= pts[i].date;
        }
        ValueAtAbsent(pts, d);
      }
    } else if |rows| == 0 || pts[0].date < rows[0].date {
      MergeRowsCells(rows, width, pts[1..], d, j);
      if pts[0].date == d && j < width && |rows| > 0 {
        forall i | 0 <= i < |rows| ensures rows[i].date != d {
          assert rows[0].date <= rows[i].date;
        }
        CellAtAbsent(rows, d, j);
      }
    } else {
      MergeRowsCells(rows[1..], width, pts[1..], d, j);
    }
  }

  /** prices_df.merge(series, left_index=True, right_index=True, how="outer").rename(columns={"Close": ticker}) */
  function MergeColumn(prices: Frame, ticker: string, monthly: seq<Point>): Frame
  {
    Frame(prices.columns + [ticker], MergeRows(prices.rows, |prices.columns|, monthly))
  }

  /** What get_prices_df computes: the tickers merged in, one after the other, into an empty table. */
  function PricesTable(tickers: seq<string>, histories: seq<seq<Point>>): Frame
    requires |histories| == |tickers|
  {
    if |tickers| == 0 then EmptyFrame()
    else
      var n := |tickers| - 1;
      MergeColumn(PricesTable(tickers[..n], histories[..n]), tickers[n], MonthEnd(histories[n]))
  }

  /** The aligned price table is well formed, with one column per ticker, in input order, labelled with the ticker. */
  lemma {:induction false} PricesTableShape(tickers: seq<string>, histories: seq<seq<Point>>)
    requires |histories| == |tickers|
    ensures WellFormed(PricesTable(tickers, histories))
    ensures PricesTable(tickers, histories).columns == tickers
  {
    if |tickers| > 0 {
      var n := |tickers| - 1;
      var prev := PricesTable(tickers[..n], histories[..n]);
      PricesTableShape(tickers[..n], histories[..n]);
      MergeRowsShape(prev.rows, n, MonthEnd(histories[n]));
      assert tickers[..n] + [tickers[n]] == tickers;
    }
  }

  /** The month-end dates of one ticker's history. */
  function MonthDates(history: seq<Point>): set<int>
  {
    PointDates(MonthEnd(history))
  }

  /** Every month-end date seen in any of the histories. */
  function AllMonths(histories: seq<seq<Point>>): set<int>
  {
    if |histories| == 0 then {}
    else AllMonths(histories[..|histories| - 1]) + MonthDates(histories[|histories| - 1])
  }

  lemma {:induction false} AllMonthsMember(histories: seq<seq<Point>>, d: int)
    ensures d in AllMonths(histories) <==> exists i :: 0 <= i < |histories| && d in MonthDates(histories[i])
  {
    if |histories| > 0 {
      var n := |histories| - 1;
      var init := histories[..n];
      AllMonthsMember(init, d);
      assert AllMonths(histories) == AllMonths(init) + MonthDates(histories[n]);
      if d in AllMonths(histories) {
        if d in AllMonths(init) {
          var i :| 0 <= i < n && d in MonthDates(init[i]);
          assert init[i] == histories[i];
        } else {
          assert d in MonthDates(histories[n]);
        }
      } else {
        forall i | 0 <= i < |histories| ensures d !in MonthDates(histories[i]) {
          if i < n {
            assert init[i] == histories[i];
          }
        }
      }
    }
  }

  /** Its index is the union of every ticker's month-end dates (ascending and duplicate-free, by PricesTableShape). */
  lemma {:induction false} PricesTableDates(tickers: seq<string>, histories: seq<seq<Point>>)
    requires |histories| == |tickers|
    ensures RowDates(PricesTable(tickers, histories).rows) == AllMonths(histories)
  {
    if |tickers| > 0 {
      var n := |tickers| - 1;
      var prev := PricesTable(tickers[..n], histories[..n]);
      PricesTableShape(tickers[..n], histories[..n]);
      PricesTableDates(tickers[..n], histories[..n]);
      MergeRowsShape(prev.rows, n, MonthEnd(histories[n]));
    }
  }

  /** The cell of ticker j at date d is j's last close of month d, or missing where j has none that month. */
  lemma {:induction false} PricesTableCells(tickers: seq<string>, histories: seq<seq<Point>>, d: int, j: int)
    requires |histories| == |tickers| && 0 <= j < |tickers|
    ensures CellAt(PricesTable(tickers, histories).rows, d, j) == LastIn(histories[j], 1, d)
  {
    var n := |tickers| - 1;
    var prev := PricesTable(tickers[..n], histories[..n]);
    var monthly := MonthEnd(histories[n]);
    PricesTableShape(tickers[..n], histories[..n]);
    assert |prev.columns| == n;
    assert PricesTable(tickers, histories).rows == MergeRows(prev.rows, n, monthly);
    MergeRowsCells(prev.rows, n, monthly, d, j);
    if j < n {
      PricesTableCells(tickers[..n], histories[..n], d, j);
      assert histories[..n][j] == histories[j];
    } else {
      assert ValueAt(monthly, d) == LastIn(histories[n], 1, d);
    }
  }

  lemma PricesTableSpec(tickers: seq<string>, histories: seq<seq<Point>>)
    requires |histories| == |tickers|
    ensures WellFormed(PricesTable(tickers, histories))
    ensures PricesTable(tickers, histories).columns == tickers
    ensures forall d :: d in RowDates(PricesTable(tickers, histories).rows) <==>
      exists i :: 0 <= i < |tickers| && d in MonthDates(histories[i])
    ensures forall d, j :: 0 <= j < |tickers| ==>
      CellAt(PricesTable(tickers, histories).rows, d, j) == LastIn(histories[j], 1, d)
  {
    PricesTableShape(tickers, histories);
    PricesTableDates(tickers, histories);
    forall d ensures d in AllMonths(histories) <==>
      exists i :: 0 <= i < |tickers| && d in MonthDates(histories[i])
    {
      AllMonthsMember(histories, d);
    }
    forall d, j | 0 <= j < |tickers|
      ensures CellAt(PricesTable(tickers, histories).rows, d, j) == LastIn(histories[j], 1, d)
    {
      PricesTableCells(tickers, histories, d, j);
    }
  }

  /**
    get_prices_df: the loop rebinds the accumulated table, merging in one ticker's
    month-end closes per iteration. An empty ticker list gives an empty table.
  */
  method GetPricesDf(tickers: seq<string>, histories: seq<seq<Point>>) returns (prices: Frame)
    requires |histories| == |tickers|
    ensures prices == PricesTable(tickers, histories)
    ensures WellFormed(prices) && prices.columns == tickers
    ensures |tickers| == 0 ==> prices == EmptyFrame()
    ensures forall d :: d in RowDates(prices.rows) <==>
      exists i :: 0 <= i < |tickers| && d in MonthDates(histories[i])
    ensures forall d, j :: 0 <= j < |tickers| ==> CellAt(prices.rows, d, j) == LastIn(histories[j], 1, d)
  {
    prices := EmptyFrame();
    for i := 0 to |tickers|
      invariant prices == PricesTable(tickers[..i], histories[..i])
    {
      var monthly := MonthEnd(histories[i]);
      prices := MergeColumn(prices, tickers[i], monthly);
      assert tickers[..i + 1][..i] == tickers[..i];
      assert histories[..i + 1][..i] == histories[..i];
    }
    assert tickers[..|tickers|] == tickers;
    assert histories[..|histories|] == histories;
    PricesTableSpec(tickers, histories);
  }

  /** Merging a later ticker never changes an earlier column: each keeps its cell at every date. */
  lemma MergeKeepsEarlierColumns(prices: Frame, ticker: string, history: seq<Point>, d: int, j: int)
    requires WellFormed(prices) && 0 <= j < |prices.columns|
    ensures CellAt(MergeColumn(prices, ticker, MonthEnd(history)).rows, d, j) == CellAt(prices.rows, d, j)
  {
    MergeRowsCells(prices.rows, |prices.columns|, MonthEnd(history), d, j);
  }
}
