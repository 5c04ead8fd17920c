# Portfolio analytics of portfolioM, modelled in Dafny

`portfolioM.py` is a dashboard that reads a trade ledger. Each row of the ledger
holds a date, a symbol, a type, a quantity, a price, a total value and the
recorded portfolio value. The analytics behind the dashboard has three parts,
and this project models all three:

- **Performance run** (`calculate_portfolio_performance`):
  - optionally restricts the ledger to an inclusive date window and sorts the rows by date;
  - reports the first and last date;
  - computes the daily fractional changes of the portfolio value and the cumulative return;
  - chooses the annualization factor from the day span;
  - applies the Sharpe ratio's zero-volatility guard;
  - computes the maximum drawdown against the running peak.
- **Weights table** (`calculate_stock_weights`):
  - for every distinct symbol in order of first appearance, nets the quantities (`Buy` adds, any other type subtracts);
  - drops closed positions;
  - prices each open position at the symbol's last ledger row;
  - weighs each position by its absolute value over the total absolute value.
- **Driver**: one performance run over the whole ledger, then one run per calendar year of the ledger, in ascending order. Each yearly run uses the window from January 1st to December 31st of its year.

Files, one module each:

| file | module | contents |
|---|---|---|
| `calendar.dfy` | `Calendar` | dates as (year, month, day), their order, day numbers for `(max - min).days` |
| `ledger.dfy` | `Ledger` | the trade record, the date window, the sort by date, earliest and latest date |
| `performance.dfy` | `Performance` | the performance run |
| `positions.dfy` | `Positions` | the weights table; `CalculateStockWeights` is the imperative loop over symbols |
| `yearly.dfy` | `Yearly` | the sorted years, the driver `YearlyPerformance` and its per-year loop `ResultsByYear` |
| `scenario.dfy` | `Scenario` | the sample ledger the dashboard displays, worked through both computations |

How the model represents the source:

- Prices and values are Dafny `real`, so every division is exact.
- Quantities are `int`.
- The sort is specified only as "ascending by date and a permutation of the rows", because pandas' default quicksort is not stable. Everything proved about a run's dates, cumulative return and annualization factor holds for every sorted order. `SortByDate` is one such order.
- A run needs a non-empty window, valid dates and no zero portfolio value in the window. The code does not handle these inputs: `iloc[0]` on an empty frame raises, and a zero divisor yields infinity or NaN. So they are preconditions, not error results.
- The weights table needs a positive total exposure whenever a position is open. Otherwise the code divides 0 by 0.

Points where the code's behaviour is easy to misread:

- The sort at portfolioM.py:107 uses pandas' default quicksort, which is not stable. Rows sharing a date may come out in any order.
- The cumulative return at portfolioM.py:115 has no guard against a zero first value. A nonzero first value is therefore a precondition.
- For a single-row window, `std()` of one daily return is NaN (portfolioM.py:123), so the Sharpe ratio at portfolioM.py:126 is NaN too. Volatility is not modelled (see below).
- Without a window, portfolioM.py:106 assigns the parsed `Date` column into the caller's frame in place.
- When every open position has zero value, portfolioM.py:172-175 computes 0 / 0 for each weight. The model requires a positive total exposure instead.

## Model

| member | source | states |
|---|---|---|
| Calendar.DayNumber | portfolioM.py:118 | 0001-01-01 is day 0, and dates from year 1 on have non-negative day numbers |
| Calendar.NextDay | portfolioM.py:118 | the day after a valid date is a valid date |
| Calendar.NextDayIsSuccessor | portfolioM.py:118 | the next day follows `d`, and every valid date after `d` is on or after it |
| Calendar.DayNumberNext | portfolioM.py:118 | the next day's number is one more, so a difference of day numbers counts days |
| Calendar.DayNumberMonotone | portfolioM.py:118 | for valid dates in order, the day numbers are in the same order and are equal exactly for equal dates, so `(max - min).days` is never negative |
| Calendar.YearWindowIsYear | portfolioM.py:193-196 | a valid date lies in `[Y-01-01, Y-12-31]` exactly when its year is Y |
| Ledger.Window | portfolioM.py:103-104 | the kept rows, counted with multiplicity, are exactly the ledger rows inside both bounds when both are given, and all rows otherwise |
| Ledger.SortByDate | portfolioM.py:107 | the result is ascending by date and a permutation of its input |
| Ledger.MinDate | portfolioM.py:134 | the result is the date of some row and no row is dated earlier |
| Ledger.MaxDate | portfolioM.py:135 | the result is the date of some row and no row is dated later |
| Ledger.SortedEnds | portfolioM.py:107 | in any date-sorted permutation, the first row has the earliest date and the last row the latest |
| Performance.DailyReturns | portfolioM.py:110 | one daily return per value; DailyReturnsRebuildValues states what each return is |
| Performance.DailyReturnsRebuildValues | portfolioM.py:110 | the first daily return is 0, and applying each later return to the previous value gives the next value |
| Performance.CumulativeReturn | portfolioM.py:113-115 | the first value grown by the cumulative return is the last value |
| Performance.CumulativeReturnSign | portfolioM.py:115 | from a positive first value, the cumulative return is positive, zero or negative exactly as the last value is above, equal to or below the first |
| Performance.CumulativeIsCompoundedDaily | portfolioM.py:110-115 | one plus the cumulative return is the product of one plus each daily return |
| Performance.SpanDays | portfolioM.py:118 | the span is never negative, and is 0 exactly when every row has the same date |
| Performance.AnnualizationFactor | portfolioM.py:119 | the factor lies in (0, 252]; for a positive span, factor × span = 252; otherwise the factor is 252 |
| Performance.SharpeRatio | portfolioM.py:124-126 | the ratio is 0 at zero volatility; otherwise ratio × volatility = annualized return − 0.02 |
| Performance.RunningMax | portfolioM.py:129 | each running maximum is at least every value up to its row, and equals one of them |
| Performance.RunningMaxNonDecreasing | portfolioM.py:129 | the running maximum never decreases |
| Performance.DrawdownOf | portfolioM.py:130 | a drawdown is 0 exactly at the peak; for a positive value at or below a positive peak it lies in (-1, 0] |
| Performance.Drawdowns | portfolioM.py:130 | one drawdown per row; it is 0 exactly where the value equals its running peak, and lies in (-1, 0] for positive values |
| Performance.Minimum | portfolioM.py:131 | the result is an element of the series and no element is smaller |
| Performance.MaxDrawdown | portfolioM.py:131 | the result is one of the drawdowns, and no drawdown is smaller |
| Performance.MaxDrawdownBounds | portfolioM.py:129-131 | for any nonzero values the maximum drawdown is at most 0; with positive values it is also above -1, and it is 0 exactly when the values never fall |
| Performance.Summarize | portfolioM.py:110-135 | one daily return per row, and the first date is not after the last |
| Performance.CalculatePortfolioPerformance | portfolioM.py:102-140 | the reported first and last dates are the earliest and latest dates of the window, with one daily return per kept row |
| Performance.SortedSummaryDates | portfolioM.py:106-135 | for any date-sorted permutation of the window, the first and last reported dates are those of the first and last sorted row, i.e. the window's earliest and latest |
| Performance.SortedSummaryReturns | portfolioM.py:106-119 | for any date-sorted permutation, the cumulative return runs from the first sorted row's value to the last one's, and the factor depends only on the window's span |
| Performance.TieOrderKeepsDates | portfolioM.py:107-119 | two date-sorted orders of the same window report the same dates and the same annualization factor |
| Performance.SingleDateFactor | portfolioM.py:118-119 | a window whose rows share one date gets the factor 252 |
| Performance.SingleRowReturns | portfolioM.py:110-119 | a single row gives daily returns [0], cumulative return 0 and factor 252 |
| Performance.SingleRowDrawdown | portfolioM.py:129-131 | a single row gives maximum drawdown 0 |
| Performance.SummaryDrawdown | portfolioM.py:129-131 | the reported maximum drawdown is at most 0; with positive values it is also above -1, and it is 0 exactly when the sorted values never fall |
| Positions.FirstIndex | portfolioM.py:148 | the index of the symbol's first row: that row has the symbol and no earlier row does |
| Positions.DistinctSymbols | portfolioM.py:148 | a symbol is listed exactly when some row has it, each once, in order of first appearance |
| Positions.SignedQuantity | portfolioM.py:151 | a "Buy" row contributes its quantity, and a row of any other type cancels its quantity |
| Positions.NetQuantity | portfolioM.py:150-153 | a nonzero net quantity only arises for a symbol that appears |
| Positions.NetOfConcat | portfolioM.py:150-153 | the net quantity of two ledgers joined is the sum of their net quantities |
| Positions.NetIsBoughtMinusSold | portfolioM.py:150-153 | the net quantity is the total bought minus the total of every other row type |
| Positions.LastIndex | portfolioM.py:157 | the index of the symbol's last row in ledger order: that row has the symbol and no later row does |
| Positions.LastPrice | portfolioM.py:157 | the price of a row with the symbol after which no row has the symbol |
| Positions.MarketValue | portfolioM.py:158 | the current value is 0 exactly when the net quantity or the price is 0, and at a positive price it has the sign of the net quantity; `Describes` ties each position's value to it |
| Positions.PositionOf | portfolioM.py:155-165 | a symbol contributes no position exactly when its net is 0, and otherwise one position with its net, its last price and their product |
| Positions.PositionsOf | portfolioM.py:148-165 | every position describes its symbol; a symbol has a position exactly when it is listed with a nonzero net; listing order is kept |
| Positions.OpenPositions | portfolioM.py:148-165 | the positions are exactly the appearing symbols with a nonzero net, each described by its net, last price and value, in order of first appearance |
| Positions.ClosedPositionOmitted | portfolioM.py:155 | a symbol bought and sold in equal totals has no position |
| Positions.CollectStep | portfolioM.py:149-165 | one pass of the loop extends the positions of the earlier symbols by the current symbol's position, if it has one |
| Positions.TotalExposure | portfolioM.py:172 | the total absolute value is never negative |
| Positions.ExposureBound | portfolioM.py:172 | no position's absolute value exceeds the total |
| Positions.ShareOf | portfolioM.py:175 | share × total = part, and the share lies in [0, 1] when the part lies in [0, total] |
| Positions.SumOfWeighted | portfolioM.py:172-175 | the weights sum to the total absolute value over the divisor |
| Positions.StockWeights | portfolioM.py:167-182 | one table row per open position |
| Positions.Weighted | portfolioM.py:175 | one weighted row per position; WeightedShares states each row's contents |
| Positions.WeightedShares | portfolioM.py:175 | each weighted row repeats its position and carries its share of the total, in [0, 1] |
| Positions.WeightsNormalised | portfolioM.py:167-182 | each row of the table is the open position with the same index; its weight is its absolute value's share of the total, in [0, 1] |
| Positions.WeightsSumToOne | portfolioM.py:172-180 | the weights sum to 1 whenever the table is not empty |
| Positions.CalculateStockWeights | portfolioM.py:142-182 | the loop over distinct symbols followed by the weight column yields exactly the weights table |
| Yearly.SortedYears | portfolioM.py:189-190 | the years are strictly increasing, and a year is listed exactly when some row is dated in it |
| Yearly.WholeLedgerWindow | portfolioM.py:186 | a run without bounds analyses the whole ledger |
| Yearly.YearWindowRows | portfolioM.py:193-196 | a year's window keeps exactly the rows dated in that year |
| Yearly.YearWindowAnalysable | portfolioM.py:193-196 | the window of a listed year is not empty, can be analysed and holds only rows of that year |
| Yearly.YearSummary | portfolioM.py:193-196 | the run over year y's window reports a first and a last date that both fall in year y |
| Yearly.KeyStep | portfolioM.py:194-196 | storing year n extends the keys from the first n years to the first n + 1 |
| Yearly.RecordStep | portfolioM.py:196 | storing year n under its key keeps the entries of all earlier, smaller years, because the years are strictly increasing |
| Yearly.ResultsByYear | portfolioM.py:191-196 | the loop fills a map whose keys are exactly the listed years, each mapped to the run over its January-to-December window |
| Yearly.YearlyPerformance | portfolioM.py:186-196 | the whole-ledger run is the unbounded run; the years are the sorted distinct years; the map's keys are exactly those years, and each maps to the run over its window |
| Scenario.SampleSymbols | portfolioM.py:57-64 | the sample's distinct symbols are AAPL, TSLA, MSFT |
| Scenario.SamplePositionOf | portfolioM.py:57-64 | each sample symbol's position: 5 AAPL at 160, 3 TSLA at 750, 8 MSFT at 300 |
| Scenario.SamplePositions | portfolioM.py:57-64 | the sample's open positions are AAPL 800, TSLA 2250 and MSFT 2400, in that order |
| Scenario.SampleWeights | portfolioM.py:57-64 | the sample's weights are 16/109, 45/109 and 48/109 of the total 5450 |
| Scenario.SampleSorted | portfolioM.py:57-64 | the sample is already in date order, so sorting keeps it |
| Scenario.InOrderRun | portfolioM.py:103-107 | a ledger already in date order is summarised as it stands by a run without bounds |
| Scenario.EighteenDays | portfolioM.py:118 | rows from 2024-01-02 to 2024-01-20 span 18 days |
| Scenario.SamplePeriod | portfolioM.py:57-64 | the sample's summary runs from 2024-01-02 to 2024-01-20 |
| Scenario.SampleCumulative | portfolioM.py:57-64 | the sample's cumulative return is 1.8 (5000 to 14000) |
| Scenario.SampleFactor | portfolioM.py:57-64 | the sample's annualization factor is 252 / 18 = 14 |
| Scenario.SampleNoDrawdown | portfolioM.py:57-64 | the sample's values never fall, so its maximum drawdown is 0 |

## Left out

- The Streamlit page is not modelled: the sample-format display, uploader, metric tiles, tables, charts, number formatting and style setup (portfolioM.py:1-100, 198-374). It is presentation only.
- `read_file` and `save_file` are not modelled (portfolioM.py:30-48, 376-393). They are file I/O. The model starts from a parsed ledger: the loader is trusted to produce real calendar dates.
- Annualized return `(1 + r) ** factor - 1` and volatility `std() * sqrt(252)` are not computed (portfolioM.py:122-123). They need floating-point real powers and square roots.
- Performance.SharpeRatio takes the annualized return and the volatility as inputs, so the model never computes the ratio from a ledger.
- Performance.Summarize does not report the annualized return or the Sharpe ratio, for the same reason.
- The NaN that the sample standard deviation produces for a single-row window is not modelled, because volatility is not modelled.
- The unused `last_date` is not modelled (portfolioM.py:144).
- The in-place replacement of the caller's `Date` column by parsed timestamps is not modelled (portfolioM.py:106). Neither is the added `Year` column (portfolioM.py:189). The ledger is an immutable sequence whose dates are already parsed.
- String dates are not modelled. Every comparison is between parsed dates, which is what the code compares once the first run has converted the column.
- Times of day within a date are not modelled. Neither are pandas' timestamp range limits (years 1677-2262).
- Performance.CalculatePortfolioPerformance requires every portfolio value in the window to be nonzero, which excludes some inputs the code handles with finite results. `pct_change` at portfolioM.py:110 computes `v[i] / v[i-1] - 1`, so a zero followed by a zero gives 0 / 0, a NaN that `fillna(0)` turns into 0. With a nonzero first value and zeros followed only by zeros, every result stays finite: [5000, 0] and [5000, 0, 0] both give cumulative return -1 and maximum drawdown -1. A zero followed by a nonzero value gives an infinite daily return and a NaN Sharpe ratio, which the model leaves out.
- Performance.Drawdowns and Performance.MaxDrawdown carry the same nonzero requirement, although portfolioM.py:130 only divides by the running peaks and so needs only nonzero peaks.
- Positions.CalculateStockWeights builds the weight column as a new sequence of rows. The code adds a column to the frame in place and then indexes it by symbol.
- Positions.WeightsNormalised states each weight as `ShareOf(|value|, total)` rather than by the product weight × total = |value|. `ShareOf`'s own contract states that product.
- Floating-point rounding is not modelled, because all arithmetic is exact `real`. So the exact results hold only approximately in the program's floats: the weights summing to 1 (Positions.WeightsSumToOne) and factor × span = 252 (Performance.AnnualizationFactor).
- Quantities are integers. A fractional quantity column is not modelled.
- create_sample.py is not part of this model. It is a fixture generator that downloads prices, draws random numbers and writes a CSV file.
