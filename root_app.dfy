/**
  streamlit_app.py at the repository root: the root-level app. It keeps
  the portfolio's tickers and allocations in the session state, warns when the
  allocations do not add up to 100, and charts each ticker's closes rebased to
  10 000 and thinned out by downsample_df.
*/
module RootApp {
  import opened Frames
  import opened Numbers
  import PortfolioMetrics

  // ---------------------------------------------------------------------------
  // downsample_df
  // ---------------------------------------------------------------------------

  /** The default thinning factor of downsample_df. */
  const DefaultFactor: int := 15

  /**
    The rows at positions 0, factor, 2 * factor, ... of the history, as
    df.iloc[range(0, len(df), factor)]. range() refuses a step of zero; a negative
    step counts down from 0 towards len(df), which it never reaches, so it selects nothing.
  */
  function Downsample<T>(rows: seq<T>, factor: int): (r: Result<seq<T>>)
    ensures r.Err? <==> factor == 0
    ensures r.Err? ==> r.error == ZeroStep
    ensures factor < 0 ==> r == Ok([])
    ensures factor > 0 ==> |r.value| * factor >= |rows| && (|r.value| == 0 || (|r.value| - 1) * factor < |rows|)
    ensures factor > 0 ==> forall k :: 0 <= k < |r.value| ==> 0 <= k * factor < |rows| && r.value[k] == rows[k * factor]
  {
    if factor == 0 then Err(ZeroStep)
    else if factor < 0 then Ok([])
    else
      var n := CeilDiv(|rows|, factor);
      assert forall k :: 0 <= k < n ==> 0 <= k * factor < |rows| by {
        forall k | 0 <= k < n ensures 0 <= k * factor < |rows| {
          MulMono(k, n - 1, factor);
        }
      }
      Ok(seq(n, k requires 0 <= k < n => rows[k * factor]))
  }

  /** The number of multiples of f below len: len / f rounded up. */
  function CeilDiv(len: nat, f: int): (n: nat)
    requires f > 0
    ensures n * f >= len
    ensures n == 0 || (n - 1) * f < len
    ensures len > 0 ==> n > 0
  {
    var q := (len + f - 1) / f;
    var m := (len + f - 1) % f;
    assert len + f - 1 == q * f + m && 0 <= m < f;
    assert q * f == len + f - 1 - m;
    assert (q - 1) * f == q * f - f;
    q
  }

  lemma MulMono(a: int, b: int, f: int)
    requires 0 <= a <= b && f > 0
    ensures 0 <= a * f <= b * f
  {
    assert b * f - a * f == (b - a) * f;
  }

  lemma MulCancel(a: int, b: int, f: int)
    requires 0 <= a && 0 <= b && f > 0
    ensures a * f < b * f ==> a < b
  {
    if b <= a {
      MulMono(b, a, f);
    }
  }

  /** Every position that is a multiple of the factor is kept, at its quotient, so no selected row is skipped. */
  lemma DownsampleKeeps<T>(rows: seq<T>, factor: int, k: int)
    requires factor > 0 && 0 <= k && k * factor < |rows|
    ensures k < |Downsample(rows, factor).value| && Downsample(rows, factor).value[k] == rows[k * factor]
  {
    var r := Downsample(rows, factor).value;
    MulCancel(k, |r|, factor);
  }

  /** With the default factor of 15 the chart keeps every fifteenth row, ceil(len / 15) of them. */
  lemma DownsampleDefault<T>(rows: seq<T>)
    ensures Downsample(rows, DefaultFactor).Ok?
    ensures |Downsample(rows, DefaultFactor).value| == (|rows| + 14) / 15
    ensures forall k :: 0 <= k < |Downsample(rows, DefaultFactor).value| ==>
      0 <= 15 * k < |rows| && Downsample(rows, DefaultFactor).value[k] == rows[15 * k]
  {
  }

  /** The first row survives downsampling of a non-empty history. */
  lemma DownsampleKeepsFirst<T>(rows: seq<T>, factor: int)
    requires factor > 0 && |rows| > 0
    ensures |Downsample(rows, factor).value| > 0 && Downsample(rows, factor).value[0] == rows[0]
  {
    DownsampleKeeps(rows, factor, 0);
  }

  // ---------------------------------------------------------------------------
  // The rebased close series (lines 54-55)
  // ---------------------------------------------------------------------------

  /**
    The close column multiplied by 10 000 / its first value and rounded half to even.
    The factor is taken before the column is overwritten. A NaN first close makes every
    value NaN; an empty history has no iloc[0], and a zero first close is refused.
  */
  function Rebased(closes: seq<Cell>): (r: Result<seq<Cell>>)
    ensures r.Err? <==> |closes| == 0 || closes[0] == Some(0.0)
    ensures r.Err? ==> r.error == (if |closes| == 0 then EmptyWindow else ZeroBasePrice)
    ensures r.Ok? ==> |r.value| == |closes|
    ensures r.Ok? ==> forall i :: 0 <= i < |closes| ==> (r.value[i].Some? <==> closes[i].Some? && closes[0].Some?)
    ensures r.Ok? && closes[0].Some? ==> r.value[0] == Some(PortfolioMetrics.Notional)
    ensures r.Ok? ==> forall i :: 0 <= i < |closes| && r.value[i].Some? ==>
      r.value[i].value == RoundHalfEven(closes[i].value * PortfolioMetrics.Notional / closes[0].value) as real
  {
    if |closes| == 0 then Err(EmptyWindow)
    else if closes[0] == Some(0.0) then Err(ZeroBasePrice)
    else
      RebaseCellSelf(closes[0]);
      Ok(seq(|closes|, i requires 0 <= i < |closes| => PortfolioMetrics.RebaseCell(closes[i], closes[0])))
  }

  /** The first close rebased against itself is the notional. */
  lemma RebaseCellSelf(first: Cell)
    requires first != Some(0.0)
    ensures first.Some? ==> PortfolioMetrics.RebaseCell(first, first) == Some(PortfolioMetrics.Notional)
  {
    if first.Some? {
      PortfolioMetrics.RebaseSelf(first.value);
    }
  }

  /** Every close multiplied by c, as when the same history is quoted in another unit. */
  function ScaleAll(closes: seq<Cell>, c: real): (r: seq<Cell>)
    ensures |r| == |closes|
    ensures forall i :: 0 <= i < |closes| ==> r[i] == PortfolioMetrics.ScaleCell(closes[i], c)
  {
    seq(|closes|, i requires 0 <= i < |closes| => PortfolioMetrics.ScaleCell(closes[i], c))
  }

  /** The rebased chart does not depend on the unit of the closes. */
  lemma RebasedScaleInvariant(closes: seq<Cell>, c: real)
    requires c != 0.0
    ensures Rebased(ScaleAll(closes, c)) == Rebased(closes)
  {
    var scaled := ScaleAll(closes, c);
    if |closes| > 0 && closes[0] != Some(0.0) {
      assert scaled[0] != Some(0.0);
      forall i | 0 <= i < |closes|
        ensures PortfolioMetrics.RebaseCell(scaled[i], scaled[0]) == PortfolioMetrics.RebaseCell(closes[i], closes[0])
      {
        PortfolioMetrics.RebaseCellScale(closes[i], closes[0], c);
      }
      assert Rebased(scaled).value == Rebased(closes).value;
    } else if |closes| > 0 {
      assert scaled[0] == Some(0.0);
    }
  }

  /**
    history["Close"] = (history["Close"] * factor_10k).round(0), in place: every close,
    the first one included, is replaced by its rebased value.
  */
  method RebaseClose(close: array<Cell>) returns (status: Result<()>)
    modifies close
    ensures status.Ok? <==> Rebased(old(close[..])).Ok?
    ensures status.Err? ==> status.error == Rebased(old(close[..])).error && close[..] == old(close[..])
    ensures status.Ok? ==> close[..] == Rebased(old(close[..])).value
  {
    if close.Length == 0 {
      return Err(EmptyWindow);
    }
    var first := close[0];
    if first == Some(0.0) {
      return Err(ZeroBasePrice);
    }
    ghost var closes := close[..];
    var i := 0;
    while i < close.Length
      invariant 0 <= i <= close.Length
      invariant forall k :: i <= k < close.Length ==> close[k] == closes[k]
      invariant forall k :: 0 <= k < i ==> close[k] == PortfolioMetrics.RebaseCell(closes[k], first)
    {
      close[i] := PortfolioMetrics.RebaseCell(close[i], first);
      i := i + 1;
    }
    assert close[..] == Rebased(closes).value;
    return Ok(());
  }

  // ---------------------------------------------------------------------------
  // The session state
  // ---------------------------------------------------------------------------

  /**
    st.session_state as far as the app uses it: the number of asset rows and the
    values of the "ticker_i" and "allocation_i" widgets, keyed by i.
  */
  class Session {
    var nTickers: nat
    var tickers: map<nat, string>
    var allocations: map<nat, int>

    /** The allocation widgets only accept 0 to 100. */
    predicate Valid()
      reads this
    {
      forall i :: i in allocations ==> 0 <= allocations[i] <= 100
    }

    /** The first run seeds two assets, VWCE.DE at 90 % and IUSN.DE at 10 %. */
    constructor ()
      ensures nTickers == 2
      ensures tickers == map[0 := "VWCE.DE", 1 := "IUSN.DE"]
      ensures allocations == map[0 := 90, 1 := 10]
      ensures Valid() && AllocationSum() == 100
    {
      nTickers := 2;
      tickers := map[0 := "VWCE.DE", 1 := "IUSN.DE"];
      allocations := map[0 := 90, 1 := 10];
      new;
      assert AllocationSum() == SumAllocations(allocations, 2) == 90 + 10;
    }

    /** "Add Asset": one more asset row; the widgets already set keep their values. */
    method AddAsset()
      requires Valid()
      modifies this
      ensures nTickers == old(nTickers) + 1
      ensures tickers == old(tickers) && allocations == old(allocations)
      ensures Valid()
      ensures old(nTickers) !in allocations ==> AllocationSum() == old(AllocationSum())
    {
      nTickers := nTickers + 1;
    }

    /** The sum of the allocations of the asset rows shown. */
    function AllocationSum(): int
      reads this
    {
      SumAllocations(allocations, nTickers)
    }

    /**
      The check under the inputs: it shows an error when the sum is not 100 and
      goes on rendering either way, so it changes nothing.
    */
    method ShowsAllocationError() returns (shown: bool)
      requires Valid()
      ensures shown <==> AllocationSum() != 100
      ensures 0 <= AllocationSum() <= 100 * nTickers
    {
      SumAllocationsBounds(allocations, nTickers);
      shown := AllocationSum() != 100;
    }
  }

  /** A widget that was never rendered has not stored a value; a new row's number_input starts at its minimum, 0. */
  function AllocationAt(allocations: map<nat, int>, i: nat): int
  {
    if i in allocations then allocations[i] else 0
  }

  /** sum(allocation_i for i in range(n)). */
  function SumAllocations(allocations: map<nat, int>, n: nat): int
  {
    if n == 0 then 0 else SumAllocations(allocations, n - 1) + AllocationAt(allocations, n - 1)
  }

  /** Each allocation is between 0 and 100, so their sum is between 0 and 100 per row. */
  lemma {:induction false} SumAllocationsBounds(allocations: map<nat, int>, n: nat)
    requires forall i :: i in allocations ==> 0 <= allocations[i] <= 100
    ensures 0 <= SumAllocations(allocations, n) <= 100 * n
  {
    if n > 0 {
      SumAllocationsBounds(allocations, n - 1);
    }
  }

  /** Only the first n rows count: values stored for rows beyond them do not change the sum. */
  lemma {:induction false} SumAllocationsFrame(a: map<nat, int>, b: map<nat, int>, n: nat)
    requires forall i :: 0 <= i < n ==> AllocationAt(a, i) == AllocationAt(b, i)
    ensures SumAllocations(a, n) == SumAllocations(b, n)
  {
    if n > 0 {
      SumAllocationsFrame(a, b, n - 1);
    }
  }
}
