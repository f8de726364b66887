/**
  The calculations of portfolio_optimizer/streamlit_app.py: the allocation guard,
  the annual returns of the portfolio index, the histogram of those returns and the
  comparison with the risk-free rate. The widgets and charts around them are not
  modelled; a guard that shows an error and stops returns an Err instead.
*/
module PortfolioApp {
  import opened Frames
  import opened Numbers

  // ---------------------------------------------------------------------------
  // The allocation guard
  // ---------------------------------------------------------------------------

  /** The session key of a ticker's allocation widget. */
  function AllocationKey(ticker: string): string
  {
    "allocation_" + ticker
  }

  /** A widget's value; a widget not yet in the session holds its minimum, 0. */
  function AllocationOf(ticker: string, session: map<string, int>): int
  {
    if AllocationKey(ticker) in session then session[AllocationKey(ticker)] else 0
  }

  function AllocationTotal(holdings: seq<Holding>): int
  {
    if |holdings| == 0 then 0 else AllocationTotal(holdings[..|holdings| - 1]) + holdings[|holdings| - 1].allocation
  }

  /** The sum of the weights allocation / 100. */
  function WeightTotal(holdings: seq<Holding>): real
  {
    if |holdings| == 0 then 0.0
    else WeightTotal(holdings[..|holdings| - 1]) + holdings[|holdings| - 1].allocation as real / 100.0
  }

  lemma {:induction false} WeightTotalIsAllocationShare(holdings: seq<Holding>)
    ensures WeightTotal(holdings) == AllocationTotal(holdings) as real / 100.0
  {
    if |holdings| > 0 {
      WeightTotalIsAllocationShare(holdings[..|holdings| - 1]);
    }
  }

  /**
    The allocation column and its guard: every resolved asset takes the allocation
    its widget holds, and the page stops unless these add up to exactly 100.
  */
  function Allocate(assets: seq<Asset>, session: map<string, int>): (r: Result<seq<Holding>>)
    ensures var holdings := seq(|assets|, i requires 0 <= i < |assets| =>
        Holding(assets[i].ticker, assets[i].name, assets[i].currency, AllocationOf(assets[i].ticker, session)));
      (r.Ok? <==> AllocationTotal(holdings) == 100) &&
      (r.Ok? ==> r.value == holdings) &&
      (r.Err? ==> r.error == AllocationSumInvalid(AllocationTotal(holdings)))
    ensures r.Ok? ==> WeightTotal(r.value) == 1.0
  {
    var holdings := seq(|assets|, i requires 0 <= i < |assets| =>
      Holding(assets[i].ticker, assets[i].name, assets[i].currency, AllocationOf(assets[i].ticker, session)));
    WeightTotalIsAllocationShare(holdings);
    if AllocationTotal(holdings) != 100 then Err(AllocationSumInvalid(AllocationTotal(holdings))) else Ok(holdings)
  }

  // ---------------------------------------------------------------------------
  // Annual returns
  // ---------------------------------------------------------------------------

  datatype Sign = Positive | Negative

  /** ge(0) mapped to "positive" / "negative": zero counts as positive. */
  function SignOf(x: real): Sign
  {
    if x >= 0.0 then Positive else Negative
  }

  /** One row of annual_returns_df: the year, the return in percent and its sign. */
  datatype AnnualReturn = AnnualReturn(year: int, pct: real, sign: Sign)

  function Entry(year: int, pct: real): AnnualReturn
  {
    AnnualReturn(year, pct, SignOf(pct))
  }

  /** The single column of the portfolio index as a series. */
  function Series(index: Frame): seq<Point>
  {
    seq(|index.rows|, i requires 0 <= i < |index.rows| => Point(index.rows[i].date, CellOf(index.rows[i].cells, 0)))
  }

  /** resample("YE").last(): one point per year, keyed by the year. */
  function YearEnd(pts: seq<Point>): seq<Point>
  {
    ResampleLast(pts, 12)
  }

  /** The value at position i after a forward fill: the last non-missing value at or before i. */
  function LastKnown(pts: seq<Point>, i: int): Cell
    requires 0 <= i < |pts|
  {
    if pts[i].value.Some? || i == 0 then pts[i].value else LastKnown(pts, i - 1)
  }

  lemma {:induction false} LastKnownSpec(pts: seq<Point>, i: int)
    requires 0 <= i < |pts|
    ensures LastKnown(pts, i).None? <==> forall j :: 0 <= j <= i ==> pts[j].value.None?
    ensures LastKnown(pts, i).Some? ==>
      exists j :: 0 <= j <= i && pts[j].value == LastKnown(pts, i) && forall k :: j < k <= i ==> pts[k].value.None?
  {
    if pts[i].value.None? && i > 0 {
      LastKnownSpec(pts, i - 1);
    }
  }

  /** ffill(), the padding pct_change applies before dividing (its default fill_method="pad"). */
  function PadForward(pts: seq<Point>): (r: seq<Point>)
    ensures |r| == |pts|
    ensures forall i :: 0 <= i < |pts| ==> r[i].date == pts[i].date
    ensures forall i :: 0 <= i < |pts| && pts[i].value.Some? ==> r[i].value == pts[i].value
    ensures forall i :: 0 <= i < |pts| ==> r[i].value == LastKnown(pts, i)
  {
    seq(|pts|, i requires 0 <= i < |pts| => Point(pts[i].date, LastKnown(pts, i)))
  }

  /**
    One step of pct_change().dropna() * 100 between consecutive year-ends: nothing when
    either side is missing or both are zero (NaN, dropped), an infinite return when only
    the earlier one is zero, otherwise the change in percent.
  */
  function Step(prev: Cell, cur: Cell): Result<Option<real>>
  {
    if prev.None? || cur.None? then Ok(None)
    else if prev.value == 0.0 then (if cur.value == 0.0 then Ok(None) else Err(InfiniteReturn))
    else Ok(Some((cur.value / prev.value - 1.0) * 100.0))
  }

  function Changes(pts: seq<Point>): Result<seq<AnnualReturn>>
  {
    if |pts| < 2 then Ok([])
    else
      var s := Step(pts[0].value, pts[1].value);
      var rest := Changes(pts[1..]);
      if s.Err? then Err(s.error)
      else if rest.Err? then rest
      else if s.value.Some? then Ok([Entry(pts[1].date, s.value.value)] + rest.value)
      else rest
  }

  /** The change fails exactly when some year-end follows a zero one with a non-zero value. */
  lemma {:induction false} ChangesErr(pts: seq<Point>)
    ensures Changes(pts).Err? <==> exists i :: 1 <= i < |pts| && Step(pts[i - 1].value, pts[i].value).Err?
    ensures Changes(pts).Err? ==> Changes(pts).error == InfiniteReturn
  {
    if |pts| >= 2 {
      var tail := pts[1..];
      ChangesErr(tail);
      if exists i :: 1 <= i < |pts| && Step(pts[i - 1].value, pts[i].value).Err? {
        var i :| 1 <= i < |pts| && Step(pts[i - 1].value, pts[i].value).Err?;
        if i > 1 {
          assert tail[i - 2] == pts[i - 1] && tail[i - 1] == pts[i];
        }
      }
      if Changes(tail).Err? {
        var i :| 1 <= i < |tail| && Step(tail[i - 1].value, tail[i].value).Err?;
        assert tail[i - 1] == pts[i] && tail[i] == pts[i + 1];
      }
    }
  }

  /**
    The returns are exactly the steps between consecutive year-ends that give a value,
    each dated with the later year.
  */
  lemma {:induction false} ChangesMembers(pts: seq<Point>)
    requires Changes(pts).Ok?
    ensures forall a :: a in Changes(pts).value <==>
      exists i :: 1 <= i < |pts| && Step(pts[i - 1].value, pts[i].value) == Ok(Some(a.pct)) && a == Entry(pts[i].date, a.pct)
  {
    if |pts| >= 2 {
      var tail := pts[1..];
      var s := Step(pts[0].value, pts[1].value);
      ChangesMembers(tail);
      forall a ensures a in Changes(pts).value <==>
        exists i :: 1 <= i < |pts| && Step(pts[i - 1].value, pts[i].value) == Ok(Some(a.pct)) && a == Entry(pts[i].date, a.pct)
      {
        if a in Changes(tail).value {
          var i :| 1 <= i < |tail| && Step(tail[i - 1].value, tail[i].value) == Ok(Some(a.pct)) && a == Entry(tail[i].date, a.pct);
          assert tail[i - 1] == pts[i] && tail[i] == pts[i + 1];
        }
        if exists i :: 1 <= i < |pts| && Step(pts[i - 1].value, pts[i].value) == Ok(Some(a.pct)) && a == Entry(pts[i].date, a.pct) {
          var i :| 1 <= i < |pts| && Step(pts[i - 1].value, pts[i].value) == Ok(Some(a.pct)) && a == Entry(pts[i].date, a.pct);
          if i > 1 {
            assert tail[i - 2] == pts[i - 1] && tail[i - 1] == pts[i];
          }
        }
      }
    }
  }

  /** Over ascending year-ends the returns come in ascending years, all after the first year-end. */
  lemma {:induction false} ChangesOrder(pts: seq<Point>)
    requires AscendingPoints(pts) && Changes(pts).Ok?
    ensures forall i, j :: 0 <= i < j < |Changes(pts).value| ==> Changes(pts).value[i].year < Changes(pts).value[j].year
    ensures |pts| > 0 ==> forall i :: 0 <= i < |Changes(pts).value| ==> pts[0].date < Changes(pts).value[i].year
  {
    if |pts| >= 2 {
      var tail := pts[1..];
      ChangesOrder(tail);
    }
  }

  lemma ChangesFacts(pts: seq<Point>)
    requires AscendingPoints(pts)
    ensures Changes(pts).Ok? ==> forall i :: 0 <= i < |Changes(pts).value| ==>
      (Changes(pts).value[i].sign == Positive <==> Changes(pts).value[i].pct >= 0.0)
    ensures Changes(pts).Ok? ==> forall i, j :: 0 <= i < j < |Changes(pts).value| ==> Changes(pts).value[i].year < Changes(pts).value[j].year
    ensures Changes(pts).Ok? && |pts| > 0 ==> forall i :: 0 <= i < |Changes(pts).value| ==> pts[0].date < Changes(pts).value[i].year
  {
    if Changes(pts).Ok? {
      ChangesOrder(pts);
      ChangesMembers(pts);
      assert forall i :: 0 <= i < |Changes(pts).value| ==> Changes(pts).value[i] in Changes(pts).value;
    }
  }

  /**
    The annual-returns table: the index resampled to year-ends, forward-filled, turned
    into percentage changes with the first year and the undefined ones dropped, and
    each row given its sign.
  */
  function AnnualReturns(index: Frame): (r: Result<seq<AnnualReturn>>)
    ensures r.Err? <==>
      exists i :: 1 <= i < |FilledYearEnds(index)| && Step(FilledYearEnds(index)[i - 1].value, FilledYearEnds(index)[i].value).Err?
    ensures r.Err? ==> r.error == InfiniteReturn
    ensures r.Ok? ==> forall i :: 0 <= i < |r.value| ==> (r.value[i].sign == Positive <==> r.value[i].pct >= 0.0)
    ensures r.Ok? ==> forall i, j :: 0 <= i < j < |r.value| ==> r.value[i].year < r.value[j].year
    ensures r.Ok? && |index.rows| > 0 ==> forall i :: 0 <= i < |r.value| ==> MinBucket(Series(index), 12) < r.value[i].year
  {
    var ys := FilledYearEnds(index);
    ChangesErr(ys);
    ChangesFacts(ys);
    Changes(ys)
  }

  /** The forward-filled year-end series the returns are computed from. */
  function FilledYearEnds(index: Frame): seq<Point>
  {
    PadForward(YearEnd(Series(index)))
  }

  /** Consecutive year-end points: ascending, one per year with no gap. */
  predicate Consecutive(ys: seq<Point>)
  {
    AscendingPoints(ys) && forall i :: 0 <= i < |ys| ==> ys[i].date == ys[0].date + i
  }

  lemma FilledYearEndsConsecutive(index: Frame)
    ensures Consecutive(FilledYearEnds(index))
  {
  }

  /** A date the series has a value for is the date of one of its points. */
  lemma {:induction false} PointOfDate(ys: seq<Point>, d: int) returns (i: int)
    requires AscendingPoints(ys) && ValueAt(ys, d).Some?
    ensures 0 <= i < |ys| && ys[i].date == d && ys[i].value == ValueAt(ys, d)
  {
    if d !in PointDates(ys) {
      ValueAtAbsent(ys, d);
    }
    i :| 0 <= i < |ys| && ys[i].date == d;
    ValueAtIndex(ys, i);
  }

  /** Over consecutive year-ends, every return for year y comes from the values of years y - 1 and y. */
  lemma ChangesOfYearSound(ys: seq<Point>, y: int, pct: real)
    requires Consecutive(ys) && Changes(ys).Ok? && Entry(y, pct) in Changes(ys).value
    ensures ValueAt(ys, y - 1).Some? && ValueAt(ys, y).Some? && ValueAt(ys, y - 1).value != 0.0
    ensures pct == (ValueAt(ys, y).value / ValueAt(ys, y - 1).value - 1.0) * 100.0
  {
    ChangesMembers(ys);
    var i :| 1 <= i < |ys| && Step(ys[i - 1].value, ys[i].value) == Ok(Some(pct)) && Entry(y, pct) == Entry(ys[i].date, pct);
    ValueAtIndex(ys, i);
    ValueAtIndex(ys, i - 1);
  }

  /** Over consecutive year-ends, values for years y - 1 and y, the earlier not zero, give a return for year y. */
  lemma ChangesOfYearComplete(ys: seq<Point>, y: int, p: real, c: real)
    requires Consecutive(ys) && Changes(ys).Ok?
    requires ValueAt(ys, y - 1) == Some(p) && ValueAt(ys, y) == Some(c) && p != 0.0
    ensures Entry(y, (c / p - 1.0) * 100.0) in Changes(ys).value
  {
    ChangesMembers(ys);
    var i := PointOfDate(ys, y - 1);
    var j := PointOfDate(ys, y);
    assert j == i + 1;
    assert Step(ys[j - 1].value, ys[j].value) == Ok(Some((c / p - 1.0) * 100.0));
  }

  /**
    A row for year y is in the table exactly when the filled year-end values of y - 1 and
    y are both present, the earlier is not zero, and the return is
    (value of y / value of y - 1 - 1) * 100.
  */
  lemma AnnualReturnOfYear(index: Frame, y: int, pct: real)
    requires AnnualReturns(index).Ok?
    ensures Entry(y, pct) in AnnualReturns(index).value <==>
      ValueAt(FilledYearEnds(index), y - 1).Some? && ValueAt(FilledYearEnds(index), y).Some? &&
      ValueAt(FilledYearEnds(index), y - 1).value != 0.0 &&
      pct == (ValueAt(FilledYearEnds(index), y).value / ValueAt(FilledYearEnds(index), y - 1).value - 1.0) * 100.0
  {
    var ys := FilledYearEnds(index);
    FilledYearEndsConsecutive(index);
    if Entry(y, pct) in AnnualReturns(index).value {
      ChangesOfYearSound(ys, y, pct);
    }
    var p, c := ValueAt(ys, y - 1), ValueAt(ys, y);
    if p.Some? && c.Some? && p.value != 0.0 && pct == (c.value / p.value - 1.0) * 100.0 {
      ChangesOfYearComplete(ys, y, p.value, c.value);
    }
  }

  /** The forward fill keeps every value that is already present. */
  lemma PadForwardValueAt(pts: seq<Point>, d: int)
    requires AscendingPoints(pts) && ValueAt(pts, d).Some?
    ensures ValueAt(PadForward(pts), d) == ValueAt(pts, d)
  {
    var i := PointOfDate(pts, d);
    ValueAtIndex(PadForward(pts), i);
  }

  /**
    When the index has a last value in both year y - 1 and year y, and the earlier is not
    zero, year y has its return computed from exactly those two last values.
  */
  lemma AnnualReturnFromLastValues(index: Frame, y: int, p: real, c: real)
    requires AnnualReturns(index).Ok?
    requires LastIn(Series(index), 12, y - 1) == Some(p) && LastIn(Series(index), 12, y) == Some(c) && p != 0.0
    ensures Entry(y, (c / p - 1.0) * 100.0) in AnnualReturns(index).value
  {
    var ye := YearEnd(Series(index));
    ResampleLastAt(Series(index), 12, y - 1);
    ResampleLastAt(Series(index), 12, y);
    PadForwardValueAt(ye, y - 1);
    PadForwardValueAt(ye, y);
    AnnualReturnOfYear(index, y, (c / p - 1.0) * 100.0);
  }

  // ---------------------------------------------------------------------------
  // Histogram of the annual returns
  // ---------------------------------------------------------------------------

  function MinPct(rs: seq<AnnualReturn>): (m: real)
    requires |rs| > 0
    ensures forall i :: 0 <= i < |rs| ==> m <= rs[i].pct
    ensures exists i :: 0 <= i < |rs| && rs[i].pct == m
  {
    if |rs| == 1 then rs[0].pct
    else
      var rest := MinPct(rs[1..]);
      assert forall i :: 1 <= i < |rs| ==> rs[i] == rs[1..][i - 1];
      if rs[0].pct < rest then rs[0].pct else rest
  }

  function MaxPct(rs: seq<AnnualReturn>): (m: real)
    requires |rs| > 0
    ensures forall i :: 0 <= i < |rs| ==> rs[i].pct <= m
    ensures exists i :: 0 <= i < |rs| && rs[i].pct == m
  {
    if |rs| == 1 then rs[0].pct
    else
      var rest := MaxPct(rs[1..]);
      assert forall i :: 1 <= i < |rs| ==> rs[i] == rs[1..][i - 1];
      if rest < rs[0].pct then rs[0].pct else rest
  }

  /** int(min / 5 - 1), the lower edge in units of five; int() truncates toward zero. */
  function LowEdgeUnits(m: real): (t: int)
    ensures t == Trunc(m / 5.0 - 1.0)
    ensures (5 * t) as real < m
  {
    Trunc(m / 5.0 - 1.0)
  }

  /** int(max / 5 + 1), the upper edge in units of five. */
  function HighEdgeUnits(m: real): (t: int)
    ensures t == Trunc(m / 5.0 + 1.0)
    ensures m < (5 * t) as real
  {
    Trunc(m / 5.0 + 1.0)
  }

  /**
    bin_region: the larger magnitude of the two edges, a multiple of five. The bins
    from -bin_region to bin_region then hold every return strictly inside.
  */
  function BinRegion(rs: seq<AnnualReturn>): (region: int)
    requires |rs| > 0
    ensures region == 5 * MaxInt(Abs(Trunc(MinPct(rs) / 5.0 - 1.0)), Abs(Trunc(MaxPct(rs) / 5.0 + 1.0)))
    ensures region >= 5 && region % 5 == 0
    ensures forall i :: 0 <= i < |rs| ==> -region as real < rs[i].pct < region as real
  {
    var u := MaxInt(Abs(LowEdgeUnits(MinPct(rs))), Abs(HighEdgeUnits(MaxPct(rs))));
    assert u >= 1 by {
      assert -(5 * u) as real < MinPct(rs) <= MaxPct(rs) < (5 * u) as real;
    }
    5 * u
  }

  /** One bar of the histogram: its lower edge, how many returns fall in (lower, lower + 5], its sign and its caption. */
  datatype Bin = Bin(lower: int, count: nat, sign: Sign, caption: string)

  predicate InBin(x: real, lower: int)
  {
    lower as real < x <= (lower + 5) as real
  }

  /** How many returns fall in the right-closed interval (lower, lower + 5]. */
  function CountIn(rs: seq<AnnualReturn>, lower: int): nat
  {
    if |rs| == 0 then 0 else (if InBin(rs[0].pct, lower) then 1 else 0) + CountIn(rs[1..], lower)
  }

  /** What follows the lower edge in a label. */
  function LabelTail(lower: int): (t: string)
    ensures |t| > 0 && t[0] == ' '
  {
    " to " + IntToString(lower + 5) + " %"
  }

  /** f"{x} to {x + bin_by} %" */
  function Label(lower: int): string
  {
    IntToString(lower) + LabelTail(lower)
  }

  /** In a space-free word followed by text starting with a space, the first space is right after the word. */
  lemma FirstSpace(w: string, t: string)
    requires forall i :: 0 <= i < |w| ==> w[i] != ' '
    requires |t| > 0 && t[0] == ' '
    ensures (w + t)[|w|] == ' '
    ensures forall i :: 0 <= i < |w| ==> (w + t)[i] != ' '
  {
  }

  /** Two space-free words followed by text starting with a space can only be equal as wholes when the words are equal. */
  lemma WordPrefix(s1: string, t1: string, s2: string, t2: string)
    requires s1 + t1 == s2 + t2
    requires forall i :: 0 <= i < |s1| ==> s1[i] != ' '
    requires forall i :: 0 <= i < |s2| ==> s2[i] != ' '
    requires |t1| > 0 && t1[0] == ' ' && |t2| > 0 && t2[0] == ' '
    ensures s1 == s2
  {
    FirstSpace(s1, t1);
    FirstSpace(s2, t2);
    assert |s1| == |s2|;
    assert s1 == (s1 + t1)[..|s1|];
    assert s2 == (s2 + t2)[..|s2|];
  }

  /** Distinct lower edges give distinct labels: no two bars share a label. */
  lemma LabelInjective(a: int, b: int)
    requires Label(a) == Label(b)
    ensures a == b
  {
    IntToStringRoundTrip(a);
    IntToStringRoundTrip(b);
    WordPrefix(IntToString(a), LabelTail(a), IntToString(b), LabelTail(b));
    IntToStringInjective(a, b);
  }

  function MakeBin(rs: seq<AnnualReturn>, lower: int): Bin
  {
    Bin(lower, CountIn(rs, lower), SignOf(lower as real), Label(lower))
  }

  /** n bars with lower edges lo, lo + 5, ..., lo + 5 (n - 1), empty ones included. */
  function Bins(rs: seq<AnnualReturn>, lo: int, n: nat): (bins: seq<Bin>)
    ensures |bins| == n
    ensures forall k :: 0 <= k < n ==> bins[k] == MakeBin(rs, lo + 5 * k)
  {
    seq(n, k requires 0 <= k < n => MakeBin(rs, lo + 5 * k))
  }

  function TotalCount(bins: seq<Bin>): int
  {
    if |bins| == 0 then 0 else TotalCount(bins[..|bins| - 1]) + bins[|bins| - 1].count
  }

  /** How many of the n bars from lo hold x: one if lo < x <= lo + 5n, none otherwise. */
  function Hits(x: real, lo: int, n: nat): int
  {
    if n == 0 then 0 else Hits(x, lo, n - 1) + (if InBin(x, lo + 5 * (n - 1)) then 1 else 0)
  }

  lemma {:induction false} HitsSpec(x: real, lo: int, n: nat)
    ensures Hits(x, lo, n) == if lo as real < x <= (lo + 5 * n) as real then 1 else 0
  {
    if n > 0 {
      HitsSpec(x, lo, n - 1);
    }
  }

  lemma BinsPrefix(rs: seq<AnnualReturn>, lo: int, n: nat)
    requires n > 0
    ensures Bins(rs, lo, n)[..n - 1] == Bins(rs, lo, n - 1)
    ensures TotalCount(Bins(rs, lo, n)) == TotalCount(Bins(rs, lo, n - 1)) + CountIn(rs, lo + 5 * (n - 1))
  {
    assert Bins(rs, lo, n)[..n - 1] == Bins(rs, lo, n - 1);
  }

  lemma {:induction false} TotalCountSplit(rs: seq<AnnualReturn>, lo: int, n: nat)
    requires |rs| > 0
    ensures TotalCount(Bins(rs, lo, n)) == Hits(rs[0].pct, lo, n) + TotalCount(Bins(rs[1..], lo, n))
  {
    if n > 0 {
      TotalCountSplit(rs, lo, n - 1);
      BinsPrefix(rs, lo, n);
      BinsPrefix(rs[1..], lo, n);
    }
  }

  lemma {:induction false} TotalCountEmpty(lo: int, n: nat)
    ensures TotalCount(Bins([], lo, n)) == 0
  {
    if n > 0 {
      TotalCountEmpty(lo, n - 1);
      BinsPrefix([], lo, n);
    }
  }

  /** When every return lies in (lo, lo + 5n], the bar counts add up to the number of returns. */
  lemma {:induction false} BinsTotal(rs: seq<AnnualReturn>, lo: int, n: nat)
    requires forall i :: 0 <= i < |rs| ==> lo as real < rs[i].pct <= (lo + 5 * n) as real
    ensures TotalCount(Bins(rs, lo, n)) == |rs|
  {
    if |rs| == 0 {
      TotalCountEmpty(lo, n);
    } else {
      TotalCountSplit(rs, lo, n);
      HitsSpec(rs[0].pct, lo, n);
      assert forall i :: 0 <= i < |rs[1..]| ==> rs[1..][i] == rs[i + 1];
      BinsTotal(rs[1..], lo, n);
    }
  }

  /** A value lies in at most one bar, and in the bar starting five below its ceiling to a multiple of five. */
  lemma BinOf(x: real, lo: int, n: nat)
    requires lo as real < x <= (lo + 5 * n) as real
    ensures exists k :: 0 <= k < n && InBin(x, lo + 5 * k)
    ensures forall k1, k2 :: 0 <= k1 < n && 0 <= k2 < n && InBin(x, lo + 5 * k1) && InBin(x, lo + 5 * k2) ==> k1 == k2
  {
    HitsSpec(x, lo, n);
    HitsWitness(x, lo, n);
  }

  lemma {:induction false} HitsWitness(x: real, lo: int, n: nat)
    requires Hits(x, lo, n) > 0
    ensures exists k :: 0 <= k < n && InBin(x, lo + 5 * k)
  {
    if !InBin(x, lo + 5 * (n - 1)) {
      HitsWitness(x, lo, n - 1);
    }
  }

  /** The number of bars, 2 * bin_region / 5: the edges from -bin_region to bin_region, less the last. */
  function BarCount(region: int): (n: nat)
    requires region >= 5 && region % 5 == 0
    ensures n >= 2 && -region + 5 * n == region
  {
    var q := region / 5;
    assert region == 5 * q;
    2 * q
  }

  lemma HistogramCounts(rs: seq<AnnualReturn>, lo: int, n: nat)
    requires lo + 5 * n == -lo
    requires forall i :: 0 <= i < |rs| ==> lo as real < rs[i].pct < -lo as real
    ensures TotalCount(Bins(rs, lo, n)) == |rs|
  {
    BinsTotal(rs, lo, n);
  }

  /** Some bar holds x. */
  predicate Covered(x: real, bins: seq<Bin>)
  {
    exists k :: 0 <= k < |bins| && InBin(x, bins[k].lower)
  }

  lemma HistogramCovers(rs: seq<AnnualReturn>, lo: int, n: nat)
    requires lo + 5 * n == -lo
    requires forall i :: 0 <= i < |rs| ==> lo as real < rs[i].pct < -lo as real
    ensures forall i :: 0 <= i < |rs| ==> Covered(rs[i].pct, Bins(rs, lo, n))
  {
    var bins := Bins(rs, lo, n);
    forall i | 0 <= i < |rs| ensures Covered(rs[i].pct, bins) {
      BinOf(rs[i].pct, lo, n);
      var k :| 0 <= k < n && InBin(rs[i].pct, lo + 5 * k);
      assert bins[k].lower == lo + 5 * k;
    }
  }

  /**
    The layout of the bars: at least two bars of width 5, symmetric about zero, in
    ascending order; a bar is positive exactly when its lower edge is at least zero,
    and is captioned by its edges.
  */
  predicate BarLayout(bins: seq<Bin>)
  {
    |bins| >= 2 && bins[0].lower == -bins[|bins| - 1].lower - 5 &&
    (forall k :: 0 <= k < |bins| ==> bins[k].lower == bins[0].lower + 5 * k) &&
    (forall k :: 0 <= k < |bins| ==>
      (bins[k].sign == Positive <==> bins[k].lower >= 0) && bins[k].caption == Label(bins[k].lower))
  }

  /**
    The counts of the bars: each bar counts the returns in its interval, the counts
    add up to the number of returns, and every return falls in a bar.
  */
  predicate BarCounts(rs: seq<AnnualReturn>, bins: seq<Bin>)
  {
    (forall k :: 0 <= k < |bins| ==> bins[k].count == CountIn(rs, bins[k].lower)) &&
    TotalCount(bins) == |rs| &&
    (forall i :: 0 <= i < |rs| ==> Covered(rs[i].pct, bins))
  }

  lemma HistogramLayout(rs: seq<AnnualReturn>, lo: int, n: nat)
    requires n >= 2 && lo + 5 * n == -lo
    ensures BarLayout(Bins(rs, lo, n))
  {
    var bins := Bins(rs, lo, n);
    assert bins[0].lower == lo && bins[n - 1].lower == lo + 5 * (n - 1);
    forall k | 0 <= k < n
      ensures bins[k].lower == bins[0].lower + 5 * k
      ensures (bins[k].sign == Positive <==> bins[k].lower >= 0) && bins[k].caption == Label(bins[k].lower)
    {
      assert bins[k] == MakeBin(rs, lo + 5 * k);
    }
  }

  lemma HistogramBarCounts(rs: seq<AnnualReturn>, lo: int, n: nat)
    requires lo + 5 * n == -lo
    requires forall i :: 0 <= i < |rs| ==> lo as real < rs[i].pct < -lo as real
    ensures BarCounts(rs, Bins(rs, lo, n))
  {
    var bins := Bins(rs, lo, n);
    HistogramCounts(rs, lo, n);
    HistogramCovers(rs, lo, n);
    assert forall k :: 0 <= k < |bins| ==> bins[k].count == CountIn(rs, bins[k].lower);
  }

  /**
    The annual-returns histogram: 2 * bin_region / 5 bars of width 5 from -bin_region,
    each counting the returns in its right-closed interval. An empty return series
    has no minimum, and int() of the NaN fails.
  */
  function Histogram(rs: seq<AnnualReturn>): (r: Result<seq<Bin>>)
    ensures r.Err? <==> |rs| == 0
    ensures r.Err? ==> r.error == NoAnnualReturns
    ensures r.Ok? ==> BarLayout(r.value) && BarCounts(rs, r.value)
    ensures r.Ok? ==> r.value[0].lower == -BinRegion(rs)
  {
    if |rs| == 0 then Err(NoAnnualReturns)
    else
      var lo := -BinRegion(rs);
      var n := BarCount(-lo);
      HistogramLayout(rs, lo, n);
      HistogramBarCounts(rs, lo, n);
      assert Bins(rs, lo, n)[0].lower == lo;
      Ok(Bins(rs, lo, n))
  }

  /**
    Truncation, not floor: returns of -3 % and 2 % give int(-1.6) = -1, so the bars start
    at -5 (floor would give -10) and there are two of them, one return in each.
  */
  lemma HistogramTruncatesEdges()
    ensures var r := Histogram([Entry(2021, -3.0), Entry(2022, 2.0)]);
      r.Ok? && |r.value| == 2 && r.value[0].lower == -5 &&
      r.value[0].count == 1 && r.value[1].count == 1
  {
    var rs := [Entry(2021, -3.0), Entry(2022, 2.0)];
    assert MinPct(rs) == -3.0 && MaxPct(rs) == 2.0;
    assert Trunc(-3.0 / 5.0 - 1.0) == -1;
    assert Trunc(2.0 / 5.0 + 1.0) == 1;
    var r := Histogram(rs);
    assert r.value[0].lower == -5;
    assert r.value[1].lower == 0;
    assert rs[1..] == [Entry(2022, 2.0)] && rs[1..][1..] == [];
    assert CountIn(rs, -5) == 1 && CountIn(rs, 0) == 1;
  }

  /** Returns of -12.3 %, 4.1 % and 22 % give edges -15 and 25, so ten bars from -25 to 25. */
  lemma HistogramWiderSide()
    ensures var r := Histogram([Entry(2021, -12.3), Entry(2022, 4.1), Entry(2023, 22.0)]);
      r.Ok? && |r.value| == 10 && r.value[0].lower == -25
  {
    var rs := [Entry(2021, -12.3), Entry(2022, 4.1), Entry(2023, 22.0)];
    assert rs[1..] == [Entry(2022, 4.1), Entry(2023, 22.0)] && rs[1..][1..] == [Entry(2023, 22.0)];
    assert MinPct(rs) == -12.3 && MaxPct(rs) == 22.0;
    assert Trunc(-12.3 / 5.0 - 1.0) == -3;
    assert Trunc(22.0 / 5.0 + 1.0) == 5;
    var r := Histogram(rs);
    assert r.value[0].lower == -25;
    assert r.value[|r.value| - 1].lower == 20;
  }

  // ---------------------------------------------------------------------------
  // Excess return over the risk-free rate
  // ---------------------------------------------------------------------------

  /** One row of annual_rates_df: rates as fractions, not percent. */
  datatype ExcessRow = ExcessRow(year: int, portfolioReturn: real, riskFreeRate: real, excessReturn: real)

  predicate Joined(a: AnnualReturn, rates: map<int, Cell>, currentYear: int)
  {
    a.year in rates && rates[a.year].Some? && a.year < currentYear
  }

  function ExcessOf(a: AnnualReturn, riskFree: real): ExcessRow
  {
    ExcessRow(a.year, a.pct / 100.0, riskFree, a.pct / 100.0 - riskFree)
  }

  /**
    The return divided by 100, inner-joined by year with the risk-free rates, rows with a
    missing rate dropped, the difference added as a column, and the current year and
    later removed.
  */
  function ExcessReturns(rs: seq<AnnualReturn>, rates: map<int, Cell>, currentYear: int): (r: seq<ExcessRow>)
    ensures |r| <= |rs|
    ensures forall k :: 0 <= k < |r| ==>
      r[k].year < currentYear && r[k].year in rates && rates[r[k].year] == Some(r[k].riskFreeRate) &&
      r[k].excessReturn == r[k].portfolioReturn - r[k].riskFreeRate
  {
    if |rs| == 0 then []
    else
      var rest := ExcessReturns(rs[1..], rates, currentYear);
      if Joined(rs[0], rates, currentYear) then [ExcessOf(rs[0], rates[rs[0].year].value)] + rest else rest
  }

  /** A row is in the excess table exactly when it comes from a return whose year has a rate and is before the current year. */
  lemma {:induction false} ExcessReturnsMembers(rs: seq<AnnualReturn>, rates: map<int, Cell>, currentYear: int)
    ensures forall e :: e in ExcessReturns(rs, rates, currentYear) <==>
      exists i :: 0 <= i < |rs| && Joined(rs[i], rates, currentYear) && e == ExcessOf(rs[i], rates[rs[i].year].value)
  {
    if |rs| > 0 {
      var tail := rs[1..];
      ExcessReturnsMembers(tail, rates, currentYear);
      assert forall i :: 0 <= i < |tail| ==> tail[i] == rs[i + 1];
      forall e | exists i :: 0 <= i < |rs| && Joined(rs[i], rates, currentYear) && e == ExcessOf(rs[i], rates[rs[i].year].value)
        ensures e in ExcessReturns(rs, rates, currentYear)
      {
        var i :| 0 <= i < |rs| && Joined(rs[i], rates, currentYear) && e == ExcessOf(rs[i], rates[rs[i].year].value);
        if i > 0 {
          assert tail[i - 1] == rs[i];
        }
      }
    }
  }

  /** The excess table keeps the order of the returns: ascending years stay ascending. */
  lemma {:induction false} ExcessReturnsOrder(rs: seq<AnnualReturn>, rates: map<int, Cell>, currentYear: int)
    requires forall i, j :: 0 <= i < j < |rs| ==> rs[i].year < rs[j].year
    ensures forall i, j :: 0 <= i < j < |ExcessReturns(rs, rates, currentYear)| ==>
      ExcessReturns(rs, rates, currentYear)[i].year < ExcessReturns(rs, rates, currentYear)[j].year
  {
    if |rs| > 0 {
      var tail := rs[1..];
      ExcessReturnsOrder(tail, rates, currentYear);
      ExcessReturnsMembers(tail, rates, currentYear);
      var rest := ExcessReturns(tail, rates, currentYear);
      forall k | 0 <= k < |rest| ensures rs[0].year < rest[k].year {
        assert rest[k] in rest;
        var i :| 0 <= i < |tail| && Joined(tail[i], rates, currentYear) && rest[k] == ExcessOf(tail[i], rates[tail[i].year].value);
        assert tail[i] == rs[i + 1];
      }
    }
  }
}
