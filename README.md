# Portfolio optimizer: a Dafny model of its table pipeline

The portfolio optimizer is a Streamlit app. It takes a list of exchange tickers and an allocation in percent for each one. It then shows how 10 000 invested in each asset, and in the whole portfolio, would have grown. It also shows the portfolio's annual returns, a histogram of those returns, and the excess return over a risk-free rate.

This project models the deterministic table transformations behind those views:

- **Market data** (`MarketDataService`): the ticker-metadata check, and the aligned price table. Each ticker's closes are reduced to one value per month-end, and the series are outer-joined, one column per ticker.
- **Growth indices** (`PortfolioMetrics`):
  - the window of rows with no missing price;
  - each asset rebased to 10 000;
  - the allocation-weighted portfolio index, rebased to 10 000.
- **Return statistics** (`PortfolioApp`):
  - the allocation guard;
  - year-over-year returns and their sign;
  - the histogram of 5 %-wide, right-closed bins with `int()` truncation;
  - the excess-return join with risk-free rates.
- **Helpers** (`Utils`, `RootApp`):
  - the ticker-to-name column rename;
  - the root-level app (`streamlit_app.py`): `downsample_df`, the in-place rebase of a close column, and the session state with its "Add Asset" counter and allocation check.

The data model (`Frames`):

- A date is a month number, 12 · year + month − 1. A year-end series is keyed by its year.
- A cell is `Option<real>`, where `None` is pandas' NaN.
- A table is a list of column labels plus rows of cells in ascending date order.
- Prices are exact reals.
- numpy's `round` is round-half-to-even.
- Python's `int()` on a float is truncation toward zero.

Both are defined in `Numbers`.

A pandas result that would be infinite is modelled as an explicit error instead: rebasing against a zero first value, or a return against a zero year-end value. So is each place where the program raises, where its page stops, or where it indexes an empty table.

Each step's loop or in-place update is modelled in the source's own form:

- `get_prices_df` is a method with a loop that rebinds the accumulated table.
- The root app's close-column rebase overwrites an array in place.
- The root app's session state is a class whose "Add Asset" method updates its counter.

The rest of the steps are expression pipelines, and are modelled as functions with lemmas.

The histogram's edges use `int()`, which truncates toward zero (not floor), and `pd.cut`, whose bins are right-closed: a return lies in (b, b + 5].

## Model

| member | source | states |
|---|---|---|
| Numbers.Trunc | portfolio_optimizer/streamlit_app.py:136-137 | `int()` truncates toward zero: below x by less than 1 for x ≥ 0, above it by less than 1 for x < 0 |
| Numbers.RoundHalfEven | portfolio_optimizer/portfolio_metrics.py:11 | `round(0)` lands within 0.5 of x, and on an exact tie picks the even neighbour |
| Numbers.IntToStringRoundTrip | portfolio_optimizer/streamlit_app.py:154-156 | the decimal text of an integer in a bin label parses back to that integer and holds no space |
| Numbers.IntToStringInjective | portfolio_optimizer/streamlit_app.py:154-156 | distinct integers are formatted as distinct texts |
| Frames.ResampleLast | portfolio_optimizer/market_data_service.py:31 | resampling yields one point per period from the first observation's period to the last, consecutive and ascending, each holding the last observation in its period |
| Frames.ResampleLastAt | portfolio_optimizer/market_data_service.py:31 | the resampled value at any period is the last observation in it, or missing when it has none |
| Frames.LastInSpec | portfolio_optimizer/market_data_service.py:31 | the last observation of a period is missing exactly when the period has no non-missing observation; otherwise it is the latest one |
| MarketDataService.GetTickerDetails | portfolio_optimizer/market_data_service.py:7-13 | without "longName" the result is the error naming the ticker; it succeeds exactly when "longName" and "currency" are present, and then returns just those two fields |
| MarketDataService.MonthEnd | portfolio_optimizer/market_data_service.py:28-31 | the month-end series is ascending, empty only for an empty history, runs one row per month with no gap from the first observation's month to the last one's, and at every month holds that month's last close or missing |
| MarketDataService.MergeRowsShape | portfolio_optimizer/market_data_service.py:33-35 | the outer merge of an ascending table with an ascending series is ascending, one cell wider, and indexed by the union of both date sets |
| MarketDataService.MergeRowsCells | portfolio_optimizer/market_data_service.py:33-35 | after the merge every earlier column keeps its cell at every date (missing at dates new to the table), and the new last column holds the series' value or missing |
| MarketDataService.PricesTableSpec | portfolio_optimizer/market_data_service.py:26-37 | the aligned table is well formed, has the tickers as columns in input order, is indexed by the union, over tickers, of every month from that ticker's first to its last observation (months without data hold missing), and holds at (month, ticker) that ticker's last close of the month |
| MarketDataService.GetPricesDf | portfolio_optimizer/market_data_service.py:25-37 | the loop's result equals the specification table: columns are the tickers, an empty ticker list gives an empty table, and the index and cells are as in PricesTableSpec |
| MarketDataService.MergeKeepsEarlierColumns | portfolio_optimizer/market_data_service.py:33-35 | merging in a later ticker never changes an earlier column's cell at any date |
| MarketDataService.AllMonthsMember | portfolio_optimizer/market_data_service.py:33-34 | a month is in the union index exactly when some ticker's month-end series has it |
| Utils.NamesDictSpec | portfolio_optimizer/utils.py:7 | the ticker-to-name dictionary has exactly the portfolio's tickers as keys; a duplicated ticker maps to its last row's name, as `to_dict` keeps the last |
| Utils.RenameTickerColumnsToNames | portfolio_optimizer/utils.py:4-8 | rows, cell values and column count are unchanged; a column whose label is no ticker keeps it; a ticker column takes its (last) holding's name; a well-formed table stays well formed |
| Utils.RelabelSpec | portfolio_optimizer/utils.py:7-8 | a label is missing from the dictionary exactly when no holding has it as ticker; otherwise it maps to the last such holding's name |
| PortfolioMetrics.CompleteRowsSpec | portfolio_optimizer/portfolio_metrics.py:9 | `dropna(how="any")` keeps exactly the rows with no missing cell, never more rows than given, in the original ascending order |
| PortfolioMetrics.CompleteRowsWellFormed | portfolio_optimizer/portfolio_metrics.py:9 | the window is well formed, its rows are complete and full width, and it is empty exactly when no row is complete |
| PortfolioMetrics.RebaseSelf | portfolio_optimizer/portfolio_metrics.py:11 | a first value rebased against itself is exactly 10 000 |
| PortfolioMetrics.RebaseScale | portfolio_optimizer/portfolio_metrics.py:11 | rebasing is a ratio: scaling value and base by the same non-zero factor leaves the result unchanged |
| PortfolioMetrics.AssetGrowthIndex | portfolio_optimizer/portfolio_metrics.py:6-13 | fails with EmptyWindow exactly when no row is complete, and with ZeroBasePrice exactly when the first complete row holds a zero price; on success the table is well formed, has one row per complete row with the same dates, the renamed labels, and 10 000 in every column of the first row |
| PortfolioMetrics.AssetGrowthIndexValues | portfolio_optimizer/portfolio_metrics.py:11 | each asset index value is round(p · 10 000 / p₀) of its own column's price and its own first price |
| PortfolioMetrics.AssetGrowthIndexScaleInvariant | portfolio_optimizer/portfolio_metrics.py:11 | multiplying one price column by a non-zero constant leaves the asset growth index unchanged |
| PortfolioMetrics.WeightsSpec | portfolio_optimizer/portfolio_metrics.py:21-23 | the allocation series is keyed by exactly the portfolio's tickers, and with unique tickers each weight is allocation / 100 |
| PortfolioMetrics.SumTermsPermutation | portfolio_optimizer/portfolio_metrics.py:24-25 | the label-aligned weighted row sum depends only on the multiset of (label, price) pairs, not their order |
| PortfolioMetrics.RowValueColumnOrder | portfolio_optimizer/portfolio_metrics.py:21-25 | reordering a row's columns, as `sort_values` reorders the weights, does not change the portfolio value |
| PortfolioMetrics.RowValueIsWeightedSum | portfolio_optimizer/portfolio_metrics.py:24-25 | for a table whose columns are the portfolio's unique tickers, the row value is Σ price · allocation / 100 over the holdings |
| PortfolioMetrics.PortfolioGrowthIndex | portfolio_optimizer/portfolio_metrics.py:16-31 | fails with EmptyWindow exactly when no row is complete, and with ZeroBasePrice exactly when the first complete row's weighted sum is zero; on success the single "Portfolio Value" column has one row per complete row with the same dates, and the first value is 10 000 |
| PortfolioMetrics.PortfolioGrowthIndexValues | portfolio_optimizer/portfolio_metrics.py:24-29 | each value is round(v · 10 000 / v₀), where v is the row's weighted price sum and v₀ that of the first complete row |
| PortfolioMetrics.WeightsOrderIndependent | portfolio_optimizer/portfolio_metrics.py:21-23 | listing the same holdings in another order gives the same weights |
| PortfolioMetrics.PortfolioGrowthIndexOrderIndependent | portfolio_optimizer/portfolio_metrics.py:16-31 | the portfolio index does not depend on the order of the holdings |
| PortfolioMetrics.PriceWeightingCounterexample | portfolio_optimizer/portfolio_metrics.py:21-29 | with asset A going 1 → 2, asset B flat at 100, and a 50/50 split, the index as written reaches 10 099 (not the 15 000 that weighting growth gives) |
| PortfolioMetrics.PriceWeightingUnitDependence | portfolio_optimizer/portfolio_metrics.py:21-29 | quoting A in a unit 100 times smaller (100 → 200) changes the as-written index to 15 000: it depends on price units |
| PortfolioMetrics.MoneyWeightedGrowthIndex | portfolio_optimizer/streamlit_app.py:100-101 | the corrected index fails with EmptyWindow exactly when no row is complete, and otherwise only with ZeroBasePrice, exactly when the first complete row holds a zero price; on success it has one "Portfolio Value" row per complete row, with the same dates |
| PortfolioMetrics.MoneyWeightedGrowthIndexValues | portfolio_optimizer/streamlit_app.py:100-101 | each corrected value is round(10 000 · Σ wⱼ · pᵢⱼ / p₀ⱼ), the allocation-weighted average of the assets' own growth since the first complete row |
| PortfolioMetrics.MoneyWeightedEvenSplit | portfolio_optimizer/streamlit_app.py:100-101 | on the counterexample's input (A 1 → 2, B flat at 100, 50/50) the corrected index reaches 15 000 |
| PortfolioMetrics.MoneyWeightedGrowthIndexFirst | portfolio_optimizer/streamlit_app.py:100-101 | when the weights sum to 1, the corrected index starts at 10 000 |
| PortfolioMetrics.MoneyWeightedScaleInvariant | portfolio_optimizer/streamlit_app.py:100-101 | scaling one price column by a non-zero constant leaves the corrected index unchanged |
| PortfolioApp.Allocate | portfolio_optimizer/streamlit_app.py:64-70 | each asset takes its widget's allocation (0 when unset); the result is the holdings exactly when they add up to 100, otherwise the error carrying the sum; past the guard the weights sum to 1 |
| PortfolioApp.WeightTotalIsAllocationShare | portfolio_optimizer/streamlit_app.py:64-70 | the weights allocation / 100 sum to the allocation total / 100 |
| PortfolioApp.PadForward | portfolio_optimizer/streamlit_app.py:115 | pct_change's forward fill keeps length, dates and every present value, and puts in each position the last present value at or before it (characterised by LastKnownSpec) |
| PortfolioApp.LastKnownSpec | portfolio_optimizer/streamlit_app.py:115 | a filled value is missing exactly when no earlier value exists, and otherwise is the latest present value at or before it |
| PortfolioApp.ChangesErr | portfolio_optimizer/streamlit_app.py:115 | the return series fails, with InfiniteReturn, exactly when some step goes from a zero value to a non-zero value |
| PortfolioApp.ChangesMembers | portfolio_optimizer/streamlit_app.py:115-120 | after `dropna`, the returns are exactly the defined step changes, each dated by its later year and signed |
| PortfolioApp.AnnualReturns | portfolio_optimizer/streamlit_app.py:114-120 | it fails, with InfiniteReturn, exactly when some step between consecutive padded year-ends goes from zero to a non-zero value; on success years ascend strictly, the first year is dropped, and a return is positive exactly when it is ≥ 0 |
| PortfolioApp.AnnualReturnOfYear | portfolio_optimizer/streamlit_app.py:114-116 | year y has return pct exactly when the filled year-end values of y − 1 and y exist, the former is non-zero, and pct = (v_y / v_{y−1} − 1) · 100 |
| PortfolioApp.AnnualReturnFromLastValues | portfolio_optimizer/streamlit_app.py:114-116 | when the last index values in years y − 1 and y are p ≠ 0 and c, the returns hold year y with (c / p − 1) · 100 |
| PortfolioApp.FilledYearEndsConsecutive | portfolio_optimizer/streamlit_app.py:115 | the year-end series has one point per consecutive year |
| PortfolioApp.MinPct | portfolio_optimizer/streamlit_app.py:136 | the minimum return is a return, and no return is smaller |
| PortfolioApp.MaxPct | portfolio_optimizer/streamlit_app.py:137 | the maximum return is a return, and no return is larger |
| PortfolioApp.LowEdgeUnits | portfolio_optimizer/streamlit_app.py:136 | the lower edge in units of five is int(m / 5 − 1), truncated toward zero as Numbers.Trunc states, and five times it lies strictly below m |
| PortfolioApp.HighEdgeUnits | portfolio_optimizer/streamlit_app.py:137 | the upper edge in units of five is int(m / 5 + 1), truncated toward zero, and five times it lies strictly above m |
| PortfolioApp.BinRegion | portfolio_optimizer/streamlit_app.py:135-139 | `bin_region` is exactly 5 · max(\|int(min / 5 − 1)\|, \|int(max / 5 + 1)\|), a positive multiple of 5, and every return lies strictly between −bin_region and bin_region |
| PortfolioApp.BarCount | portfolio_optimizer/streamlit_app.py:141 | `range(-bin_region, bin_region + 5, 5)` minus its last edge gives at least two bars that end exactly at bin_region |
| PortfolioApp.BinOf | portfolio_optimizer/streamlit_app.py:143-149 | a return inside the bars' span lies in exactly one right-closed bar (b, b + 5] |
| PortfolioApp.BinsTotal | portfolio_optimizer/streamlit_app.py:143-149 | when all returns lie in the bars' span, the bar counts add up to the number of returns |
| PortfolioApp.Histogram | portfolio_optimizer/streamlit_app.py:135-156 | fails exactly on an empty return series. Otherwise: the first bar starts at −bin_region; at least two bars 5 apart, symmetric about zero, so they end at bin_region; each counts the returns in (b, b + 5], empty bars included; counts total the number of years and every return is in a bar; a bar is positive iff b ≥ 0; its caption is "{b} to {b + 5} %" |
| PortfolioApp.HistogramTruncatesEdges | portfolio_optimizer/streamlit_app.py:135-149 | returns of −3 % and 2 % give int(−1.6) = −1, so exactly two bars from −5 (floor would start at −10), each counting one return |
| PortfolioApp.HistogramWiderSide | portfolio_optimizer/streamlit_app.py:135-141 | returns of −12.3 %, 4.1 % and 22 % give edges −15 and 25, so the larger magnitude sets ten bars from −25 |
| PortfolioApp.LabelInjective | portfolio_optimizer/streamlit_app.py:154-156 | distinct lower edges give distinct captions, so no two bars share a label |
| PortfolioApp.ExcessReturns | portfolio_optimizer/streamlit_app.py:178-190 | no more rows than returns; every row's year is before the current year and has a known risk-free rate, and excess = return − rate |
| PortfolioApp.ExcessReturnsMembers | portfolio_optimizer/streamlit_app.py:181-190 | a row is in the result exactly when it comes from a return whose year has a non-missing risk-free rate and precedes the current year, with the return divided by 100 |
| PortfolioApp.ExcessReturnsOrder | portfolio_optimizer/streamlit_app.py:183-190 | the join keeps the returns' ascending year order |
| RootApp.Downsample | streamlit_app.py:14-15 | step 0 is the error range() raises, and a negative step selects nothing; otherwise the length is ⌈len / factor⌉ and the k-th row kept is row k · factor |
| RootApp.DownsampleDefault | streamlit_app.py:14-15 | with the default factor 15 the call succeeds, keeps ⌈len / 15⌉ rows, and its k-th row is row 15 · k |
| RootApp.DownsampleKeeps | streamlit_app.py:14-15 | every position that is a multiple of the factor is kept, at its quotient |
| RootApp.DownsampleKeepsFirst | streamlit_app.py:14-15 | a non-empty history keeps its first row |
| RootApp.Rebased | streamlit_app.py:54-55 | fails exactly on an empty history or a zero first close; otherwise same length, a value is present iff its close and the first close are, the first is 10 000, and each is round(close · 10 000 / first close) |
| RootApp.RebasedScaleInvariant | streamlit_app.py:54-55 | the rebased closes do not depend on the unit the closes are quoted in |
| RootApp.RebaseClose | streamlit_app.py:54-55 | overwriting the close array in place leaves exactly the rebased series (the factor is taken before the first close is overwritten); on an error the array is untouched |
| RootApp.Session.constructor | streamlit_app.py:18-23 | the first run holds two rows, VWCE.DE at 90 and IUSN.DE at 10, which add up to 100 |
| RootApp.Session.AddAsset | streamlit_app.py:38-40 | "Add Asset" raises the row count by exactly one and keeps every widget value; a new row without a stored value leaves the allocation sum unchanged |
| RootApp.Session.ShowsAllocationError | streamlit_app.py:42-46 | the error is shown exactly when the allocations of the shown rows do not add up to 100; nothing else happens, so rendering goes on; the sum lies between 0 and 100 per row |
| RootApp.SumAllocationsBounds | streamlit_app.py:34-36 | allocations limited to 0..100 sum to between 0 and 100 · n |
| RootApp.SumAllocationsFrame | streamlit_app.py:42-44 | only the first n rows' allocations enter the sum |

## Left out

- Streamlit widgets, markdown, `st.error` and `st.stop`, `st.rerun`, and all `plotly`/`st.line_chart` charting. These are UI. A guard that stops the page is modelled as an `Err`, and one that only shows a message as a boolean.
- yfinance (`get_price_history`, `get_info`) and `@st.cache_data`. These are network calls and a cache. A ticker's info dictionary and its close history are inputs.
- The risk-free rates are a map from year to cell, given as input. `interest_data_service.load_interest_data` reads a CSV through a `config` module that is not part of this model, and the app imports `load_risk_free_rates`, which that file does not define.
- The current year (`datetime.datetime.now().year`) is a parameter of `ExcessReturns`.
- The Sharpe ratio (portfolio_optimizer/streamlit_app.py:218-224). Its sample standard deviation needs a square root over floats.
- Timezone stripping (`tz_convert(None)`). Dates are already plain month numbers.
- Floating-point rounding error and pandas dtypes. Prices are exact reals.
- The ticker-resolution loop and the `split(";")` of the ticker string (portfolio_optimizer/streamlit_app.py:27-43). The resolved assets are an input to `PortfolioApp.Allocate`. Each asset's resolution is `MarketDataService.GetTickerDetails`.
- Duplicate tickers in the portfolio.
  - The dictionaries are modelled as pandas builds them: the last row wins.
  - The portfolio-index lemmas about weights assume unique tickers.
  - pandas' behaviour when aligning against a duplicated index label is not modelled.
- The chart call at portfolio_optimizer/streamlit_app.py:103-107 asks for a column "portfolio_value", which the index (column "Portfolio Value") does not have. This is plotting and is not modelled.
- The root app's loop over ticker rows (streamlit_app.py:50-63). Only its rebase and its `downsample_df` call are modelled. The chart and the `longName`/`currency` lookups are UI and network.
- In-place column assignments of portfolio_optimizer/streamlit_app.py (`portfolio_df["allocation"]`, `["sign"]`, `["label"]`, `["excess_return_rate"]`). They are modelled as building the new rows as values, because each assigns a whole derived column once.
- The allocation widgets' bounds 0..100 are assumed as the `Session.Valid` invariant, not enforced by any modelled operation. Entering values through the widgets is UI.
- PortfolioMetrics.AssetGrowthIndex: a zero first price gives the error ZeroBasePrice. pandas would produce inf/NaN columns instead.
- PortfolioMetrics.PortfolioGrowthIndex: a zero first portfolio value gives ZeroBasePrice where pandas would produce inf/NaN.
- PortfolioApp.AnnualReturns: a year-end value of zero followed by a non-zero one gives InfiniteReturn where pandas yields inf. `pct_change` is modelled as in pandas ≥ 2.2 (which the "ME"/"YE" aliases need) with its default pad fill: forward fill ("pad") before the ratio, 0/0 as NaN.
- RootApp.Rebased: a zero first close gives ZeroBasePrice where numpy yields inf/NaN. An empty history gives EmptyWindow for pandas' IndexError.
- PortfolioApp.Histogram: the bin labels are compared as the texts the f-string writes for integers. The chart's category ordering is not modelled.
- PortfolioMetrics.MoneyWeightedGrowthIndex: its own contract does not state the value of every row. Those are stated by `MoneyWeightedGrowthIndexValues`, `MoneyWeightedGrowthIndexFirst` and `MoneyWeightedScaleInvariant`.

## Findings

| source | as written | input that shows it | evidently intended | confidence | as-written member | corrected member |
|---|---|---|---|---|---|---|
| portfolio_optimizer/portfolio_metrics.py:21-29 (against the text at portfolio_optimizer/streamlit_app.py:100-101) | the portfolio index rebases the allocation-weighted sum of raw prices, so an asset quoted at a high price dominates whatever its allocation | asset A 1 → 2, asset B 100 → 100, 50 % each: the index goes 10 000 → 10 099; quoting A as 100 → 200 gives 15 000 | "the weighted average of the growth of each asset": 10 000 · Σ wᵢ · pᵢ / pᵢ₀, independent of price units (15 000 here) | high; not executed | PortfolioMetrics.PriceWeightingCounterexample | PortfolioMetrics.MoneyWeightedScaleInvariant |
