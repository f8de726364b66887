/**
  portfolio_optimizer/portfolio_metrics.py: the growth indices. Both work on the
  rows of the aligned price table that have no missing cell, and rebase to a
  notional 10 000 at the first such row.
*/
module PortfolioMetrics {
  import opened Frames
  import opened Numbers
  import Utils

  /** The notional every index starts from. */
  const Notional: real := 10000.0

  /** The label compute_portfolio_growth_index gives its single column. */
  const PortfolioColumn: string := "Portfolio Value"

  predicate Complete(r: Row)
  {
    forall j :: 0 <= j < |r.cells| ==> r.cells[j].Some?
  }

  /** dropna(how="any"): the rows without a missing cell. */
  function CompleteRows(rows: seq<Row>): seq<Row>
  {
    if |rows| == 0 then []
    else (if Complete(rows[0]) then [rows[0]] else []) + CompleteRows(rows[1..])
  }

  /**
    The growth window keeps exactly the rows that have no missing cell and, since a
    table's index is ascending, keeps them in their original order.
  */
  lemma {:induction false} CompleteRowsSpec(rows: seq<Row>)
    ensures |CompleteRows(rows)| <= |rows|
    ensures forall r :: r in CompleteRows(rows) <==> r in rows && Complete(r)
    ensures Ascending(rows) ==> Ascending(CompleteRows(rows))
  {
    if |rows| > 0 {
      var rest := CompleteRows(rows[1..]);
      CompleteRowsSpec(rows[1..]);
      assert rows == [rows[0]] + rows[1..];
      if Ascending(rows) && Complete(rows[0]) {
        var w := [rows[0]] + rest;
        forall i, j | 0 <= i < j < |w| ensures w[i].date < w[j].date {
          assert w[j] in rows[1..];
          var k :| 0 <= k < |rows[1..]| && rows[1..][k] == w[j];
          assert rows[k + 1] == w[j];
          if i > 0 {
            assert w[i] == rest[i - 1] && w[j] == rest[j - 1];
          }
        }
      }
    }
  }

  lemma CompleteRowsWellFormed(prices: Frame)
    requires WellFormed(prices)
    ensures WellFormed(Frame(prices.columns, CompleteRows(prices.rows)))
    ensures forall i :: 0 <= i < |CompleteRows(prices.rows)| ==>
      Complete(CompleteRows(prices.rows)[i]) && |CompleteRows(prices.rows)[i].cells| == |prices.columns|
    ensures |CompleteRows(prices.rows)| == 0 <==> forall i :: 0 <= i < |prices.rows| ==> !Complete(prices.rows[i])
  {
    var w := CompleteRows(prices.rows);
    CompleteRowsSpec(prices.rows);
    forall i | 0 <= i < |w| ensures Complete(w[i]) && |w[i].cells| == |prices.columns| {
      assert w[i] in w;
    }
    if |w| == 0 {
      forall i | 0 <= i < |prices.rows| ensures !Complete(prices.rows[i]) {
        assert prices.rows[i] in prices.rows;
      }
    } else {
      assert w[0] in w;
    }
  }

  /** round(v * 10_000 / v0) with numpy's ties-to-even rounding. */
  function Rebase(v: real, v0: real): real
    requires v0 != 0.0
  {
    RoundHalfEven(v * Notional / v0) as real
  }

  lemma RebaseSelf(v0: real)
    requires v0 != 0.0
    ensures Rebase(v0, v0) == Notional
  {
    assert v0 * Notional / v0 == Notional;
  }

  /** Rebasing is a ratio: scaling both the value and the base by the same factor changes nothing. */
  lemma RebaseScale(v: real, v0: real, c: real, cv: real, cv0: real)
    requires v0 != 0.0 && c != 0.0 && cv == c * v && cv0 == c * v0
    ensures cv0 != 0.0
    ensures Rebase(cv, cv0) == Rebase(v, v0)
  {
    assert cv0 != 0.0;
    assert cv * Notional / cv0 == v * Notional / v0 by {
      assert cv * Notional / cv0 == (c * v) * Notional / (c * v0);
    }
  }

  function RebaseCell(c: Cell, base: Cell): Cell
  {
    if c.Some? && base.Some? && base.value != 0.0 then Some(Rebase(c.value, base.value)) else None
  }

  /** One row divided, column by column, by the first row: indv_growth_df * 10_000 / indv_growth_df.iloc[0]. */
  function RebaseRow(cells: seq<Cell>, base: seq<Cell>): seq<Cell>
  {
    seq(|cells|, j requires 0 <= j < |cells| => RebaseCell(cells[j], CellOf(base, j)))
  }

  predicate HasZero(cells: seq<Cell>)
  {
    exists j :: 0 <= j < |cells| && cells[j] == Some(0.0)
  }

  /**
    compute_asset_growth_index: the complete rows, relabelled with the assets' names,
    each column divided by its own first value, times 10 000, rounded. Fails at
    iloc[0] when no row is complete.
  */
  function AssetGrowthIndex(prices: Frame, portfolio: seq<Holding>): (r: Result<Frame>)
    requires WellFormed(prices)
    ensures r == Err(EmptyWindow) <==> forall i :: 0 <= i < |prices.rows| ==> !Complete(prices.rows[i])
    ensures r == Err(ZeroBasePrice) <==> |CompleteRows(prices.rows)| > 0 && HasZero(CompleteRows(prices.rows)[0].cells)
    ensures r.Err? ==> r.error == EmptyWindow || r.error == ZeroBasePrice
    ensures r.Ok? ==> WellFormed(r.value) && |r.value.rows| == |CompleteRows(prices.rows)|
    ensures r.Ok? ==> r.value.columns == Utils.RenameTickerColumnsToNames(prices, portfolio).columns
    ensures r.Ok? ==> forall i :: 0 <= i < |r.value.rows| ==> r.value.rows[i].date == CompleteRows(prices.rows)[i].date
    ensures r.Ok? ==> |r.value.rows| > 0 && forall j :: 0 <= j < |prices.columns| ==> r.value.rows[0].cells[j] == Some(Notional)
  {
    var window := CompleteRows(prices.rows);
    CompleteRowsWellFormed(prices);
    var labels := Utils.RenameTickerColumnsToNames(Frame(prices.columns, window), portfolio).columns;
    if |window| == 0 then Err(EmptyWindow)
    else if HasZero(window[0].cells) then Err(ZeroBasePrice)
    else
      var rows := seq(|window|, i requires 0 <= i < |window| => Row(window[i].date, RebaseRow(window[i].cells, window[0].cells)));
      assert forall j :: 0 <= j < |prices.columns| ==> rows[0].cells[j] == Some(Notional) by {
        forall j | 0 <= j < |prices.columns| ensures rows[0].cells[j] == Some(Notional) {
          RebaseSelf(window[0].cells[j].value);
        }
      }
      assert Ascending(rows) by {
        forall i, k | 0 <= i < k < |rows| ensures rows[i].date < rows[k].date {
          assert rows[i].date == window[i].date && rows[k].date == window[k].date;
        }
      }
      Ok(Frame(labels, rows))
  }

  /** Each value of the asset index is round(p * 10 000 / p0) for the price p and first price p0 of its own column only. */
  lemma AssetGrowthIndexValues(prices: Frame, portfolio: seq<Holding>, i: int, j: int)
    requires WellFormed(prices)
    requires AssetGrowthIndex(prices, portfolio).Ok?
    requires 0 <= i < |CompleteRows(prices.rows)| && 0 <= j < |prices.columns|
    ensures |CompleteRows(prices.rows)[i].cells| == |CompleteRows(prices.rows)[0].cells| == |prices.columns|
    ensures CompleteRows(prices.rows)[i].cells[j].Some? && CompleteRows(prices.rows)[0].cells[j].Some?
    ensures CompleteRows(prices.rows)[0].cells[j].value != 0.0
    ensures AssetGrowthIndex(prices, portfolio).value.rows[i].cells[j] ==
      Some(Rebase(CompleteRows(prices.rows)[i].cells[j].value, CompleteRows(prices.rows)[0].cells[j].value))
  {
    CompleteRowsWellFormed(prices);
    var w := CompleteRows(prices.rows);
    assert !HasZero(w[0].cells);
  }

  // ---------------------------------------------------------------------------
  // Scale invariance of the asset index
  // ---------------------------------------------------------------------------

  function ScaleCell(x: Cell, c: real): (r: Cell)
    ensures r.Some? == x.Some?
    ensures x.Some? ==> r.value == c * x.value
  {
    if x.Some? then Some(c * x.value) else x
  }

  function ScaleCells(cells: seq<Cell>, k: int, c: real): seq<Cell>
  {
    seq(|cells|, j requires 0 <= j < |cells| => if j == k then ScaleCell(cells[j], c) else cells[j])
  }

  function ScaleRows(rows: seq<Row>, k: int, c: real): seq<Row>
  {
    seq(|rows|, i requires 0 <= i < |rows| => Row(rows[i].date, ScaleCells(rows[i].cells, k, c)))
  }

  /** The price table with every price of column k multiplied by c. */
  function ScaleColumn(prices: Frame, k: int, c: real): Frame
  {
    Frame(prices.columns, ScaleRows(prices.rows, k, c))
  }

  lemma {:induction false} CompleteRowsScale(rows: seq<Row>, k: int, c: real)
    ensures CompleteRows(ScaleRows(rows, k, c)) == ScaleRows(CompleteRows(rows), k, c)
  {
    if |rows| > 0 {
      var s := ScaleRows(rows, k, c);
      assert s[1..] == ScaleRows(rows[1..], k, c);
      CompleteRowsScale(rows[1..], k, c);
      assert Complete(s[0]) <==> Complete(rows[0]) by {
        if Complete(rows[0]) {
          forall j | 0 <= j < |s[0].cells| ensures s[0].cells[j].Some? {
            assert rows[0].cells[j].Some?;
          }
        }
        if Complete(s[0]) {
          forall j | 0 <= j < |rows[0].cells| ensures rows[0].cells[j].Some? {
            assert s[0].cells[j].Some?;
          }
        }
      }
      var head := if Complete(rows[0]) then [rows[0]] else [];
      assert ScaleRows(head + CompleteRows(rows[1..]), k, c) == ScaleRows(head, k, c) + ScaleRows(CompleteRows(rows[1..]), k, c);
    }
  }

  lemma ScaleColumnWellFormed(prices: Frame, k: int, c: real)
    requires WellFormed(prices)
    ensures WellFormed(ScaleColumn(prices, k, c))
  {
  }

  lemma ScaleCellsTail(cells: seq<Cell>, k: int, c: real)
    requires |cells| > 0
    ensures ScaleCells(cells, k, c)[1..] == ScaleCells(cells[1..], k - 1, c)
  {
    forall j | 0 <= j < |cells| - 1 ensures ScaleCells(cells, k, c)[1..][j] == ScaleCells(cells[1..], k - 1, c)[j] {
      var v := if j + 1 == k then ScaleCell(cells[j + 1], c) else cells[j + 1];
      assert ScaleCells(cells, k, c)[1..][j] == ScaleCells(cells, k, c)[j + 1] == v;
      assert cells[1..][j] == cells[j + 1];
      assert ScaleCells(cells[1..], k - 1, c)[j] == v;
    }
  }

  lemma HasZeroScale(cells: seq<Cell>, k: int, c: real)
    requires c != 0.0
    ensures HasZero(ScaleCells(cells, k, c)) <==> HasZero(cells)
  {
    var sc := ScaleCells(cells, k, c);
    if HasZero(cells) {
      var j :| 0 <= j < |cells| && cells[j] == Some(0.0);
      assert sc[j] == Some(0.0);
    }
    if HasZero(sc) {
      var j :| 0 <= j < |sc| && sc[j] == Some(0.0);
      assert cells[j] == Some(0.0);
    }
  }

  lemma RebaseCellScale(x: Cell, base: Cell, c: real)
    requires c != 0.0
    ensures RebaseCell(ScaleCell(x, c), ScaleCell(base, c)) == RebaseCell(x, base)
  {
    if x.Some? && base.Some? && base.value != 0.0 {
      var sx, sb := ScaleCell(x, c), ScaleCell(base, c);
      RebaseScale(x.value, base.value, c, sx.value, sb.value);
    }
  }

  /** Rebasing a row against the first row is unchanged when one column is scaled in both. */
  lemma RebaseRowScale(cells: seq<Cell>, base: seq<Cell>, k: int, c: real)
    requires c != 0.0 && |cells| == |base|
    ensures RebaseRow(ScaleCells(cells, k, c), ScaleCells(base, k, c)) == RebaseRow(cells, base)
  {
    var sc, sb := ScaleCells(cells, k, c), ScaleCells(base, k, c);
    forall j | 0 <= j < |cells| ensures RebaseCell(sc[j], CellOf(sb, j)) == RebaseCell(cells[j], CellOf(base, j)) {
      assert CellOf(sb, j) == sb[j] && CellOf(base, j) == base[j];
      if j == k {
        RebaseCellScale(cells[j], base[j], c);
      }
    }
  }

  /**
    Multiplying one column by a non-zero constant leaves the asset index unchanged: each
    column is rebased against its own first value only.
  */
  lemma AssetGrowthIndexScaleInvariant(prices: Frame, portfolio: seq<Holding>, k: int, c: real)
    requires WellFormed(prices) && c != 0.0
    ensures WellFormed(ScaleColumn(prices, k, c))
    ensures AssetGrowthIndex(ScaleColumn(prices, k, c), portfolio) == AssetGrowthIndex(prices, portfolio)
  {
    var scaled := ScaleColumn(prices, k, c);
    ScaleColumnWellFormed(prices, k, c);
    CompleteRowsScale(prices.rows, k, c);
    var w := CompleteRows(prices.rows);
    var ws := CompleteRows(scaled.rows);
    assert ws == ScaleRows(w, k, c);
    CompleteRowsWellFormed(prices);
    CompleteRowsWellFormed(scaled);
    if |w| > 0 {
      HasZeroScale(w[0].cells, k, c);
      if !HasZero(w[0].cells) {
        var rows := seq(|w|, i requires 0 <= i < |w| => Row(w[i].date, RebaseRow(w[i].cells, w[0].cells)));
        var rows' := seq(|ws|, i requires 0 <= i < |ws| => Row(ws[i].date, RebaseRow(ws[i].cells, ws[0].cells)));
        forall i | 0 <= i < |w| ensures rows'[i] == rows[i] {
          RebaseRowScale(w[i].cells, w[0].cells, k, c);
        }
        assert rows' == rows;
      }
    }
  }

  // ---------------------------------------------------------------------------
  // The portfolio index
  // ---------------------------------------------------------------------------

  /**
    portfolio_df.set_index("ticker")["allocation"] / 100: the weight of each ticker.
    The product with the price table aligns by label, so the sort_values reordering of
    this series never matters; a map keyed by ticker says the same.
  */
  function Weights(portfolio: seq<Holding>): map<string, real>
  {
    if |portfolio| == 0 then map[]
    else
      var last := portfolio[|portfolio| - 1];
      Weights(portfolio[..|portfolio| - 1])[last.ticker := last.allocation as real / 100.0]
  }

  predicate UniqueTickers(portfolio: seq<Holding>)
  {
    forall i, j :: 0 <= i < j < |portfolio| ==> portfolio[i].ticker != portfolio[j].ticker
  }

  lemma {:induction false} WeightsSpec(portfolio: seq<Holding>, t: string)
    ensures t in Weights(portfolio) <==> exists i :: 0 <= i < |portfolio| && portfolio[i].ticker == t
    ensures UniqueTickers(portfolio) ==> forall i :: 0 <= i < |portfolio| && portfolio[i].ticker == t ==>
      t in Weights(portfolio) && Weights(portfolio)[t] == portfolio[i].allocation as real / 100.0
  {
    if |portfolio| > 0 {
      var n := |portfolio| - 1;
      var init := portfolio[..n];
      WeightsSpec(init, t);
      assert forall i :: 0 <= i < n ==> init[i] == portfolio[i];
      if exists i :: 0 <= i < |portfolio| && portfolio[i].ticker == t {
        var i :| 0 <= i < |portfolio| && portfolio[i].ticker == t;
        if i < n { assert init[i].ticker == t; }
      }
    }
  }

  /** A column's term of the row sum: price times weight, or nothing for a NaN product (sum skips NaN). */
  function Term(p: (string, Cell), w: map<string, real>): real
  {
    if p.0 in w && p.1.Some? then p.1.value * w[p.0] else 0.0
  }

  function Zip(columns: seq<string>, cells: seq<Cell>): seq<(string, Cell)>
  {
    if |columns| == 0 || |cells| == 0 then [] else [(columns[0], cells[0])] + Zip(columns[1..], cells[1..])
  }

  function SumTerms(ps: seq<(string, Cell)>, w: map<string, real>): real
  {
    if |ps| == 0 then 0.0 else Term(ps[0], w) + SumTerms(ps[1..], w)
  }

  /** (row * allocation).sum(axis=1) for one row: the weighted sum of its prices. */
  function RowValue(columns: seq<string>, cells: seq<Cell>, w: map<string, real>): real
  {
    SumTerms(Zip(columns, cells), w)
  }

  lemma {:induction false} SumTermsRemove(qs: seq<(string, Cell)>, i: int, w: map<string, real>)
    requires 0 <= i < |qs|
    ensures SumTerms(qs, w) == Term(qs[i], w) + SumTerms(qs[..i] + qs[i + 1..], w)
  {
    if i > 0 {
      var rest := qs[..i] + qs[i + 1..];
      SumTermsRemove(qs[1..], i - 1, w);
      assert rest[0] == qs[0];
      assert rest[1..] == qs[1..][..i - 1] + qs[1..][i..];
      assert SumTerms(rest, w) == Term(qs[0], w) + SumTerms(rest[1..], w);
    } else {
      assert qs[..0] + qs[1..] == qs[1..];
    }
  }

  lemma MultisetRemove<T>(qs: seq<T>, i: int)
    requires 0 <= i < |qs|
    ensures multiset(qs[..i] + qs[i + 1..]) == multiset(qs) - multiset{qs[i]}
  {
    assert qs == qs[..i] + [qs[i]] + qs[i + 1..];
  }

  lemma RemoveMatch<T>(ps: seq<T>, qs: seq<T>, i: int)
    requires multiset(ps) == multiset(qs) && |ps| > 0 && 0 <= i < |qs| && qs[i] == ps[0]
    ensures multiset(ps[1..]) == multiset(qs[..i] + qs[i + 1..])
  {
    MultisetRemove(qs, i);
    MultisetRemove(ps, 0);
    assert ps[..0] + ps[1..] == ps[1..];
  }

  /** The weighted sum depends only on which (label, price) pairs the row holds, not on their order. */
  lemma {:induction false} SumTermsPermutation(ps: seq<(string, Cell)>, qs: seq<(string, Cell)>, w: map<string, real>)
    requires multiset(ps) == multiset(qs)
    ensures SumTerms(ps, w) == SumTerms(qs, w)
    decreases |ps|
  {
    if |ps| == 0 {
      assert |multiset(qs)| == 0;
    } else {
      assert ps[0] in multiset(qs);
      var i :| 0 <= i < |qs| && qs[i] == ps[0];
      var rest := qs[..i] + qs[i + 1..];
      RemoveMatch(ps, qs, i);
      SumTermsPermutation(ps[1..], rest, w);
      SumTermsRemove(qs, i, w);
    }
  }

  /** Reordering the columns of a row, labels and prices together, leaves its weighted sum unchanged. */
  lemma RowValueColumnOrder(c1: seq<string>, x1: seq<Cell>, c2: seq<string>, x2: seq<Cell>, w: map<string, real>)
    requires multiset(Zip(c1, x1)) == multiset(Zip(c2, x2))
    ensures RowValue(c1, x1, w) == RowValue(c2, x2, w)
  {
    SumTermsPermutation(Zip(c1, x1), Zip(c2, x2), w);
  }

  /**
    compute_portfolio_growth_index: the complete rows, each reduced to the sum of
    price * allocation / 100 over the tickers, then divided by the first such sum,
    times 10 000, rounded. Fails at iloc[0] when no row is complete.
  */
  function PortfolioGrowthIndex(prices: Frame, portfolio: seq<Holding>): (r: Result<Frame>)
    requires WellFormed(prices)
    ensures r == Err(EmptyWindow) <==> forall i :: 0 <= i < |prices.rows| ==> !Complete(prices.rows[i])
    ensures r == Err(ZeroBasePrice) <==>
      |CompleteRows(prices.rows)| > 0 && RowValue(prices.columns, CompleteRows(prices.rows)[0].cells, Weights(portfolio)) == 0.0
    ensures r.Err? ==> r.error == EmptyWindow || r.error == ZeroBasePrice
    ensures r.Ok? ==> WellFormed(r.value) && r.value.columns == [PortfolioColumn]
    ensures r.Ok? ==> |r.value.rows| == |CompleteRows(prices.rows)|
    ensures r.Ok? ==> forall i :: 0 <= i < |r.value.rows| ==> r.value.rows[i].date == CompleteRows(prices.rows)[i].date
    ensures r.Ok? ==> |r.value.rows| > 0 && r.value.rows[0].cells == [Some(Notional)]
  {
    var window := CompleteRows(prices.rows);
    CompleteRowsWellFormed(prices);
    var w := Weights(portfolio);
    if |window| == 0 then Err(EmptyWindow)
    else
      var v0 := RowValue(prices.columns, window[0].cells, w);
      if v0 == 0.0 then Err(ZeroBasePrice)
      else
        var rows := seq(|window|, i requires 0 <= i < |window| =>
          Row(window[i].date, [Some(Rebase(RowValue(prices.columns, window[i].cells, w), v0))]));
        RebaseSelf(v0);
        assert Ascending(rows) by {
          forall i, k | 0 <= i < k < |rows| ensures rows[i].date < rows[k].date {
            assert rows[i].date == window[i].date && rows[k].date == window[k].date;
          }
        }
        Ok(Frame([PortfolioColumn], rows))
  }

  /** Each value of the portfolio index is round(V * 10 000 / V0) for the row's weighted sum V and the first row's V0. */
  lemma PortfolioGrowthIndexValues(prices: Frame, portfolio: seq<Holding>, i: int)
    requires WellFormed(prices)
    requires PortfolioGrowthIndex(prices, portfolio).Ok?
    requires 0 <= i < |CompleteRows(prices.rows)|
    ensures RowValue(prices.columns, CompleteRows(prices.rows)[0].cells, Weights(portfolio)) != 0.0
    ensures PortfolioGrowthIndex(prices, portfolio).value.rows[i].cells ==
      [Some(Rebase(RowValue(prices.columns, CompleteRows(prices.rows)[i].cells, Weights(portfolio)),
                   RowValue(prices.columns, CompleteRows(prices.rows)[0].cells, Weights(portfolio))))]
  {
  }

  /** The sum of price * allocation / 100 over the holdings, for a row whose columns follow the portfolio's tickers. */
  function HoldingsValue(portfolio: seq<Holding>, cells: seq<Cell>): real
    requires |cells| == |portfolio|
  {
    if |portfolio| == 0 then 0.0
    else
      (if cells[0].Some? then cells[0].value * (portfolio[0].allocation as real / 100.0) else 0.0)
      + HoldingsValue(portfolio[1..], cells[1..])
  }

  lemma {:induction false} SumTermsHoldings(columns: seq<string>, cells: seq<Cell>, portfolio: seq<Holding>, w: map<string, real>)
    requires |columns| == |cells| == |portfolio|
    requires forall i :: 0 <= i < |portfolio| ==>
      columns[i] == portfolio[i].ticker && columns[i] in w && w[columns[i]] == portfolio[i].allocation as real / 100.0
    ensures SumTerms(Zip(columns, cells), w) == HoldingsValue(portfolio, cells)
  {
    if |portfolio| > 0 {
      SumTermsHoldings(columns[1..], cells[1..], portfolio[1..], w);
    }
  }

  /**
    For the table get_prices_df builds from a portfolio with distinct tickers (one column
    per ticker, in portfolio order), a row's value is the sum of price * allocation / 100.
  */
  lemma RowValueIsWeightedSum(portfolio: seq<Holding>, cells: seq<Cell>)
    requires UniqueTickers(portfolio) && |cells| == |portfolio|
    ensures RowValue(seq(|portfolio|, i requires 0 <= i < |portfolio| => portfolio[i].ticker), cells, Weights(portfolio))
      == HoldingsValue(portfolio, cells)
  {
    var columns := seq(|portfolio|, i requires 0 <= i < |portfolio| => portfolio[i].ticker);
    forall i | 0 <= i < |portfolio|
      ensures columns[i] in Weights(portfolio) && Weights(portfolio)[columns[i]] == portfolio[i].allocation as real / 100.0
    {
      WeightsSpec(portfolio, columns[i]);
    }
    SumTermsHoldings(columns, cells, portfolio, Weights(portfolio));
  }

  /** Listing the same holdings (distinct tickers) in another order gives the same weights. */
  lemma WeightsOrderIndependent(p1: seq<Holding>, p2: seq<Holding>)
    requires multiset(p1) == multiset(p2) && UniqueTickers(p1) && UniqueTickers(p2)
    ensures Weights(p1) == Weights(p2)
  {
    forall t ensures (t in Weights(p1) <==> t in Weights(p2)) && (t in Weights(p1) ==> Weights(p1)[t] == Weights(p2)[t]) {
      WeightsSpec(p1, t);
      WeightsSpec(p2, t);
      if exists i :: 0 <= i < |p1| && p1[i].ticker == t {
        var i :| 0 <= i < |p1| && p1[i].ticker == t;
        assert p1[i] in multiset(p2);
        var k :| 0 <= k < |p2| && p2[k] == p1[i];
      }
      if exists k :: 0 <= k < |p2| && p2[k].ticker == t {
        var k :| 0 <= k < |p2| && p2[k].ticker == t;
        assert p2[k] in multiset(p1);
        var i :| 0 <= i < |p1| && p1[i] == p2[k];
      }
    }
  }

  /** The portfolio index does not depend on the order in which the holdings are listed. */
  lemma PortfolioGrowthIndexOrderIndependent(prices: Frame, p1: seq<Holding>, p2: seq<Holding>)
    requires WellFormed(prices)
    requires multiset(p1) == multiset(p2) && UniqueTickers(p1) && UniqueTickers(p2)
    ensures PortfolioGrowthIndex(prices, p1) == PortfolioGrowthIndex(prices, p2)
  {
    WeightsOrderIndependent(p1, p2);
  }

  // ---------------------------------------------------------------------------
  // Finding: the portfolio index weights prices, not growth
  // ---------------------------------------------------------------------------

  /** A two-asset table: A doubles from 1 to 2, B stays at 100. */
  function TwoAssets(): Frame
  {
    Frame(["A", "B"], [Row(0, [Some(1.0), Some(100.0)]), Row(1, [Some(2.0), Some(100.0)])])
  }

  function EvenSplit(): seq<Holding>
  {
    [Holding("A", "Asset A", "EUR", 50), Holding("B", "Asset B", "EUR", 50)]
  }

  lemma TwoAssetsWindow(f: Frame)
    requires f == TwoAssets() || f == ScaleColumn(TwoAssets(), 0, 100.0)
    ensures WellFormed(f) && CompleteRows(f.rows) == f.rows
  {
    assert |f.rows| == 2 && |f.rows[0].cells| == 2 && |f.rows[1].cells| == 2;
    assert f.rows[0].cells[0].Some? && f.rows[0].cells[1].Some?;
    assert f.rows[1].cells[0].Some? && f.rows[1].cells[1].Some?;
    assert Complete(f.rows[0]) && Complete(f.rows[1]);
    assert f.rows[1..][1..] == [];
    assert CompleteRows(f.rows[1..]) == [f.rows[1]];
  }

  lemma EvenSplitWeights()
    ensures Weights(EvenSplit()) == map["A" := 0.5, "B" := 0.5]
  {
    assert EvenSplit()[..1] == [EvenSplit()[0]];
    assert EvenSplit()[..1][..0] == [];
  }

  lemma EvenRowValue(x: real, y: real)
    ensures RowValue(["A", "B"], [Some(x), Some(y)], map["A" := 0.5, "B" := 0.5]) == 0.5 * x + 0.5 * y
  {
    var z := Zip(["A", "B"], [Some(x), Some(y)]);
    var cs: seq<Cell> := [Some(x), Some(y)];
    assert ["A", "B"][1..] == ["B"] && cs[1..] == [Some(y)];
    assert ["B"][1..] == [] && [Some(y)][1..] == [];
    assert Zip(["B"], [Some(y)]) == [("B", Some(y))];
    assert z == [("A", Some(x))] + [("B", Some(y))];
    assert z[1..] == [("B", Some(y))];
    assert z[1..][1..] == [];
    var w := map["A" := 0.5, "B" := 0.5];
    assert Term(("A", Some(x)), w) == x * 0.5;
    assert Term(("B", Some(y)), w) == y * 0.5;
    assert SumTerms(z[1..], w) == Term(("B", Some(y)), w) + SumTerms(z[1..][1..], w);
  }

  /**
    As written, an even split between an asset that doubles (1 to 2) and one that stays
    flat at 100 ends at 10 099, not the 15 000 that averaging the two growth indices
    gives.
  */
  lemma PriceWeightingCounterexample()
    ensures WellFormed(TwoAssets())
    ensures PortfolioGrowthIndex(TwoAssets(), EvenSplit()).Ok?
    ensures PortfolioGrowthIndex(TwoAssets(), EvenSplit()).value.rows[1].cells == [Some(10099.0)]
  {
    var f := TwoAssets();
    TwoAssetsWindow(f);
    EvenSplitWeights();
    EvenRowValue(1.0, 100.0);
    EvenRowValue(2.0, 100.0);
    assert RoundHalfEven(51.0 * Notional / 50.5) == 10099;
    PortfolioGrowthIndexValues(f, EvenSplit(), 1);
  }

  /** Quoting the first asset in cents instead of euros moves the same portfolio's index to 15 000. */
  lemma PriceWeightingUnitDependence()
    ensures WellFormed(ScaleColumn(TwoAssets(), 0, 100.0))
    ensures PortfolioGrowthIndex(ScaleColumn(TwoAssets(), 0, 100.0), EvenSplit()).Ok?
    ensures PortfolioGrowthIndex(ScaleColumn(TwoAssets(), 0, 100.0), EvenSplit()).value.rows[1].cells == [Some(15000.0)]
  {
    var g := ScaleColumn(TwoAssets(), 0, 100.0);
    var s0, s1 := g.rows[0].cells, g.rows[1].cells;
    assert s0[0] == Some(100.0) && s0[1] == Some(100.0);
    assert s1[0] == Some(200.0) && s1[1] == Some(100.0);
    assert s0 == [Some(100.0), Some(100.0)] && s1 == [Some(200.0), Some(100.0)];
    TwoAssetsWindow(g);
    EvenSplitWeights();
    EvenRowValue(100.0, 100.0);
    EvenRowValue(200.0, 100.0);
    assert RoundHalfEven(150.0 * Notional / 100.0) == 15000;
    PortfolioGrowthIndexValues(g, EvenSplit(), 1);
  }

  /** A row's growth against the first row: the allocation-weighted sum of each column's own growth ratio. */
  function GrowthTerms(columns: seq<string>, cells: seq<Cell>, base: seq<Cell>, w: map<string, real>): real
  {
    if |columns| == 0 || |cells| == 0 || |base| == 0 then 0.0
    else
      (if columns[0] in w && cells[0].Some? && base[0].Some? && base[0].value != 0.0
       then w[columns[0]] * (cells[0].value / base[0].value) else 0.0)
      + GrowthTerms(columns[1..], cells[1..], base[1..], w)
  }

  /** The weights of the table's columns, added up. */
  function ColumnWeightTotal(columns: seq<string>, w: map<string, real>): real
  {
    if |columns| == 0 then 0.0 else (if columns[0] in w then w[columns[0]] else 0.0) + ColumnWeightTotal(columns[1..], w)
  }

  /**
    The portfolio index the dashboard's text describes: 10 000 invested at the first
    complete row and split by allocation, so each row is the allocation-weighted
    average of the assets' own growth, times 10 000, rounded.
  */
  function MoneyWeightedGrowthIndex(prices: Frame, portfolio: seq<Holding>): (r: Result<Frame>)
    requires WellFormed(prices)
    ensures r == Err(EmptyWindow) <==> forall i :: 0 <= i < |prices.rows| ==> !Complete(prices.rows[i])
    ensures r == Err(ZeroBasePrice) <==> |CompleteRows(prices.rows)| > 0 && HasZero(CompleteRows(prices.rows)[0].cells)
    ensures r.Err? ==> r.error == EmptyWindow || r.error == ZeroBasePrice
    ensures r.Ok? ==> WellFormed(r.value) && r.value.columns == [PortfolioColumn]
    ensures r.Ok? ==> |r.value.rows| == |CompleteRows(prices.rows)|
    ensures r.Ok? ==> forall i :: 0 <= i < |r.value.rows| ==> r.value.rows[i].date == CompleteRows(prices.rows)[i].date
  {
    var window := CompleteRows(prices.rows);
    CompleteRowsWellFormed(prices);
    var w := Weights(portfolio);
    if |window| == 0 then Err(EmptyWindow)
    else if HasZero(window[0].cells) then Err(ZeroBasePrice)
    else
      var rows := seq(|window|, i requires 0 <= i < |window| =>
        Row(window[i].date, [Some(RoundHalfEven(Notional * GrowthTerms(prices.columns, window[i].cells, window[0].cells, w)) as real)]));
      assert Ascending(rows) by {
        forall i, k | 0 <= i < k < |rows| ensures rows[i].date < rows[k].date {
          assert rows[i].date == window[i].date && rows[k].date == window[k].date;
        }
      }
      Ok(Frame([PortfolioColumn], rows))
  }

  /** Each value of the corrected index is 10 000 times the allocation-weighted growth of the row over the first complete row, rounded. */
  lemma MoneyWeightedGrowthIndexValues(prices: Frame, portfolio: seq<Holding>, i: int)
    requires WellFormed(prices)
    requires MoneyWeightedGrowthIndex(prices, portfolio).Ok?
    requires 0 <= i < |CompleteRows(prices.rows)|
    ensures MoneyWeightedGrowthIndex(prices, portfolio).value.rows[i].cells ==
      [Some(RoundHalfEven(Notional * GrowthTerms(prices.columns, CompleteRows(prices.rows)[i].cells,
                                                 CompleteRows(prices.rows)[0].cells, Weights(portfolio))) as real)]
  {
  }

  /** On the counterexample's input the corrected index reaches the 15 000 of averaging the two assets' growth. */
  lemma MoneyWeightedEvenSplit()
    ensures WellFormed(TwoAssets())
    ensures MoneyWeightedGrowthIndex(TwoAssets(), EvenSplit()).Ok?
    ensures MoneyWeightedGrowthIndex(TwoAssets(), EvenSplit()).value.rows[1].cells == [Some(15000.0)]
  {
    var f := TwoAssets();
    TwoAssetsWindow(f);
    EvenSplitWeights();
    var w := map["A" := 0.5, "B" := 0.5];
    var base: seq<Cell> := [Some(1.0), Some(100.0)];
    var cells: seq<Cell> := [Some(2.0), Some(100.0)];
    assert !HasZero(f.rows[0].cells);
    assert ["A", "B"][1..] == ["B"] && ["B"][1..] == [];
    assert base[1..] == [Some(100.0)] && cells[1..] == [Some(100.0)];
    assert GrowthTerms(["B"], [Some(100.0)], [Some(100.0)], w) == 0.5 * (100.0 / 100.0) + GrowthTerms([], [], [], w);
    assert GrowthTerms(["A", "B"], cells, base, w) == 1.5;
    assert RoundHalfEven(Notional * 1.5) == 15000;
    MoneyWeightedGrowthIndexValues(f, EvenSplit(), 1);
  }

  lemma {:induction false} GrowthTermsAtBase(columns: seq<string>, base: seq<Cell>, w: map<string, real>)
    requires |columns| == |base|
    requires forall j :: 0 <= j < |base| ==> base[j].Some? && base[j].value != 0.0
    ensures GrowthTerms(columns, base, base, w) == ColumnWeightTotal(columns, w)
  {
    if |columns| > 0 {
      GrowthTermsAtBase(columns[1..], base[1..], w);
    }
  }

  /** When the columns' weights add up to 1 (allocations summing to 100), the corrected index starts at exactly 10 000. */
  lemma MoneyWeightedGrowthIndexFirst(prices: Frame, portfolio: seq<Holding>)
    requires WellFormed(prices)
    requires ColumnWeightTotal(prices.columns, Weights(portfolio)) == 1.0
    requires MoneyWeightedGrowthIndex(prices, portfolio).Ok?
    ensures MoneyWeightedGrowthIndex(prices, portfolio).value.rows[0].cells == [Some(Notional)]
  {
    CompleteRowsWellFormed(prices);
    var window := CompleteRows(prices.rows);
    assert !HasZero(window[0].cells);
    GrowthTermsAtBase(prices.columns, window[0].cells, Weights(portfolio));
  }

  lemma {:induction false} GrowthTermsScale(columns: seq<string>, cells: seq<Cell>, base: seq<Cell>, w: map<string, real>, k: int, c: real)
    requires c != 0.0 && |cells| == |base|
    ensures GrowthTerms(columns, ScaleCells(cells, k, c), ScaleCells(base, k, c), w) == GrowthTerms(columns, cells, base, w)
    decreases |columns|
  {
    if |columns| > 0 && |cells| > 0 {
      var sc, sb := ScaleCells(cells, k, c), ScaleCells(base, k, c);
      ScaleCellsTail(cells, k, c);
      ScaleCellsTail(base, k, c);
      GrowthTermsScale(columns[1..], cells[1..], base[1..], w, k - 1, c);
      if k == 0 && cells[0].Some? && base[0].Some? && base[0].value != 0.0 {
        assert (c * cells[0].value) / (c * base[0].value) == cells[0].value / base[0].value;
      }
    }
  }

  /** The corrected index is scale invariant: quoting one asset in another unit changes nothing. */
  lemma MoneyWeightedScaleInvariant(prices: Frame, portfolio: seq<Holding>, k: int, c: real)
    requires WellFormed(prices) && c != 0.0
    ensures WellFormed(ScaleColumn(prices, k, c))
    ensures MoneyWeightedGrowthIndex(ScaleColumn(prices, k, c), portfolio) == MoneyWeightedGrowthIndex(prices, portfolio)
  {
    var scaled := ScaleColumn(prices, k, c);
    ScaleColumnWellFormed(prices, k, c);
    CompleteRowsScale(prices.rows, k, c);
    CompleteRowsWellFormed(prices);
    CompleteRowsWellFormed(scaled);
    var w := CompleteRows(prices.rows);
    var ws := CompleteRows(scaled.rows);
    assert ws == ScaleRows(w, k, c);
    var wt := Weights(portfolio);
    if |w| > 0 {
      HasZeroScale(w[0].cells, k, c);
      if !HasZero(w[0].cells) {
        var rows := seq(|w|, i requires 0 <= i < |w| =>
          Row(w[i].date, [Some(RoundHalfEven(Notional * GrowthTerms(prices.columns, w[i].cells, w[0].cells, wt)) as real)]));
        var rows' := seq(|ws|, i requires 0 <= i < |ws| =>
          Row(ws[i].date, [Some(RoundHalfEven(Notional * GrowthTerms(prices.columns, ws[i].cells, ws[0].cells, wt)) as real)]));
        forall i | 0 <= i < |w| ensures rows'[i] == rows[i] {
          GrowthTermsScale(prices.columns, w[i].cells, w[0].cells, wt, k, c);
        }
        assert rows' == rows;
      }
    }
  }
}
