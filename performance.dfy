/** The performance calculator: for the rows of one date window, sorted by
    date, the daily returns of the recorded portfolio value, the cumulative
    return, the annualization factor, the Sharpe-ratio guard and the maximum
    drawdown against the running peak. */
module Performance {
  import opened Calendar
  import opened Ledger

  /** Trading days per year used to annualize. */
  const TradingDays: real := 252.0
  /** The fixed risk-free rate subtracted before the Sharpe ratio. */
  const RiskFreeRate: real := 0.02

  /** What one performance run reports. `dailyReturns` is the series whose
      standard deviation the caller turns into volatility. */
  datatype PerformanceSummary = PerformanceSummary(
    startDate: Date,
    endDate: Date,
    dailyReturns: seq<real>,
    cumulativeReturn: real,
    annualizationFactor: real,
    maxDrawdown: real)

  /** Every row has a real calendar date and a nonzero portfolio value (a
      zero divisor would yield inf or NaN). */
  predicate UsableRows(rows: seq<TradeRecord>) {
    forall t :: t in rows ==> ValidDate(t.date) && t.portfolioValue != 0.0
  }

  /** Rows a run can analyse: at least one, and all of them usable. */
  predicate Analysable(rows: seq<TradeRecord>) {
    |rows| > 0 && UsableRows(rows)
  }

  predicate NonZero(v: seq<real>) {
    forall i :: 0 <= i < |v| ==> v[i] != 0.0
  }

  predicate Positive(v: seq<real>) {
    forall i :: 0 <= i < |v| ==> v[i] > 0.0
  }

  predicate NonDecreasing(v: seq<real>) {
    forall i, j :: 0 <= i < j < |v| ==> v[i] <= v[j]
  }

  /** The `Portfolio Value` column. */
  function Values(rows: seq<TradeRecord>): (v: seq<real>)
    ensures |v| == |rows|
    ensures forall i :: 0 <= i < |rows| ==> v[i] == rows[i].portfolioValue
  {
    seq(|rows|, i requires 0 <= i < |rows| => rows[i].portfolioValue)
  }

  // ---------------------------------------------------------------------------
  // Daily and cumulative return

  /** Fractional change of each value from the one before it; the first row,
      which has no predecessor, gets 0. */
  function DailyReturns(v: seq<real>): (r: seq<real>)
    requires forall i :: 0 <= i < |v| - 1 ==> v[i] != 0.0
    ensures |r| == |v|
  {
    seq(|v|, i requires 0 <= i < |v| => if i == 0 then 0.0 else (v[i] - v[i - 1]) / v[i - 1])
  }

  lemma GrowByReturn(prev: real, next: real, ret: real)
    requires prev != 0.0 && ret == (next - prev) / prev
    ensures prev * (1.0 + ret) == next
  {
    assert prev * ret == next - prev;
  }

  /** The first daily return is 0 and applying each later one to the previous
      value gives the next value back. */
  lemma DailyReturnsRebuildValues(v: seq<real>)
    requires forall i :: 0 <= i < |v| - 1 ==> v[i] != 0.0
    ensures |v| > 0 ==> DailyReturns(v)[0] == 0.0
    ensures forall i :: 1 <= i < |v| ==> v[i - 1] * (1.0 + DailyReturns(v)[i]) == v[i]
  {
    forall i | 1 <= i < |v| {
      DailyStep(v, i);
    }
  }

  lemma DailyStep(v: seq<real>, i: nat)
    requires forall i :: 0 <= i < |v| - 1 ==> v[i] != 0.0
    requires 1 <= i < |v|
    ensures v[i - 1] * (1.0 + DailyReturns(v)[i]) == v[i]
  {
    var r := DailyReturns(v)[i];
    assert v[i - 1] != 0.0 && r == (v[i] - v[i - 1]) / v[i - 1];
    GrowByReturn(v[i - 1], v[i], r);
  }

  /** Fractional change from the first value to the last. */
  function CumulativeReturn(first: real, last: real): (c: real)
    requires first != 0.0
    ensures first * (1.0 + c) == last
  {
    var c := (last - first) / first;
    GrowByReturn(first, last, c);
    c
  }

  /** From a positive start the cumulative return has the sign of the change
      from first to last value. */
  lemma CumulativeReturnSign(first: real, last: real)
    requires first > 0.0
    ensures CumulativeReturn(first, last) > 0.0 <==> last > first
    ensures CumulativeReturn(first, last) == 0.0 <==> last == first
    ensures CumulativeReturn(first, last) < 0.0 <==> last < first
  {
    var c := CumulativeReturn(first, last);
    assert last - first == first * c;
  }

  /** Product of `1 + r` over a series of returns. */
  function Growth(rs: seq<real>): real {
    if rs == [] then 1.0 else Growth(rs[..|rs| - 1]) * (1.0 + rs[|rs| - 1])
  }

  lemma ScaleStep(a: real, g: real, x: real, b: real)
    requires a * g == b
    ensures a * (g * x) == b * x
  {
  }

  lemma {:induction false} GrowthOfPrefix(v: seq<real>, k: nat)
    requires NonZero(v) && k < |v|
    ensures v[0] * Growth(DailyReturns(v)[..k + 1]) == v[k]
  {
    var r := DailyReturns(v);
    GrowthStep(r, k);
    if k == 0 {
      assert r[..0] == [] && r[0] == 0.0;
    } else {
      GrowthOfPrefix(v, k - 1);
      ScaleStep(v[0], Growth(r[..k]), 1.0 + r[k], v[k - 1]);
      DailyStep(v, k);
    }
  }

  /** One more return multiplies the growth by one plus that return. */
  lemma GrowthStep(r: seq<real>, k: nat)
    requires k < |r|
    ensures Growth(r[..k + 1]) == Growth(r[..k]) * (1.0 + r[k])
  {
    assert r[..k + 1][..k] == r[..k];
  }

  lemma Cancel(a: real, x: real, y: real)
    requires a != 0.0 && a * x == a * y
    ensures x == y
  {
    assert a * (x - y) == 0.0;
  }

  /** Compounding every daily return reproduces the cumulative return. */
  lemma CumulativeIsCompoundedDaily(v: seq<real>)
    requires |v| > 0 && NonZero(v)
    ensures 1.0 + CumulativeReturn(v[0], v[|v| - 1]) == Growth(DailyReturns(v))
  {
    var r := DailyReturns(v);
    GrowthOfPrefix(v, |v| - 1);
    assert r[..|v|] == r;
    var g, c := Growth(r), CumulativeReturn(v[0], v[|v| - 1]);
    assert v[0] * g == v[|v| - 1];
    assert v[0] * (1.0 + c) == v[|v| - 1];
    Cancel(v[0], g, 1.0 + c);
  }

  // ---------------------------------------------------------------------------
  // Annualization and the Sharpe guard

  /** Whole days from the earliest to the latest row. */
  function SpanDays(rows: seq<TradeRecord>): (d: int)
    requires |rows| > 0 && forall i :: 0 <= i < |rows| ==> ValidDate(rows[i].date)
    ensures d >= 0
    ensures d == 0 <==> forall i :: 0 <= i < |rows| ==> rows[i].date == rows[0].date
  {
    var lo, hi := MinDate(rows), MaxDate(rows);
    DayNumberMonotone(lo, hi);
    if lo == hi then
      assert forall i :: 0 <= i < |rows| ==> rows[i].date == lo by {
        forall i | 0 <= i < |rows| ensures rows[i].date == lo {
          assert AtOrBefore(lo, rows[i].date) && AtOrBefore(rows[i].date, hi);
        }
      }
      DayNumber(hi) - DayNumber(lo)
    else
      assert AtOrBefore(lo, rows[0].date);
      DayNumber(hi) - DayNumber(lo)
  }

  /** 252 divided by the day span, or 252 itself when the span is not positive. */
  function AnnualizationFactor(days: int): (f: real)
    ensures 0.0 < f <= TradingDays
    ensures days > 0 ==> f * (days as real) == TradingDays
    ensures days <= 0 ==> f == TradingDays
  {
    if days > 0 then TradingDays / (days as real) else TradingDays
  }

  /** Excess return over volatility, and exactly 0 when volatility is 0.
      Annualized return and volatility come from floating-point power and
      square root and are inputs here. */
  function SharpeRatio(annualizedReturn: real, volatility: real): (s: real)
    ensures volatility == 0.0 ==> s == 0.0
    ensures volatility != 0.0 ==> s * volatility == annualizedReturn - RiskFreeRate
  {
    if volatility != 0.0 then (annualizedReturn - RiskFreeRate) / volatility else 0.0
  }

  // ---------------------------------------------------------------------------
  // Drawdown

  function Max(a: real, b: real): real {
    if a >= b then a else b
  }

  /** Each entry of `m` equals one of the values of `v` up to its row. */
  predicate Attains(v: seq<real>, m: seq<real>) {
    forall i :: 0 <= i < |v| && i < |m| ==> exists j :: 0 <= j <= i && m[i] == v[j]
  }

  /** The expanding maximum: at each row, the highest value seen so far. */
  function RunningMax(v: seq<real>): (m: seq<real>)
    ensures |m| == |v|
    ensures forall i, j :: 0 <= j <= i < |v| ==> v[j] <= m[i]
    ensures Attains(v, m)
  {
    if v == [] then []
    else
      var n := |v| - 1;
      var p := RunningMax(v[..n]);
      var top := if n == 0 then v[n] else Max(p[n - 1], v[n]);
      ExtendAbove(v, p, top);
      ExtendAttained(v, p, top);
      p + [top]
  }

  /** Appending the new peak keeps every running maximum at or above the
      values before it. */
  lemma ExtendAbove(v: seq<real>, p: seq<real>, top: real)
    requires |v| > 0 && |p| == |v| - 1
    requires forall i, j :: 0 <= j <= i < |p| ==> v[..|p|][j] <= p[i]
    requires top == if |p| == 0 then v[|p|] else Max(p[|p| - 1], v[|p|])
    ensures forall i, j :: 0 <= j <= i < |v| ==> v[j] <= (p + [top])[i]
  {
    var n, m := |p|, p + [top];
    forall i, j | 0 <= j <= i < |v| ensures v[j] <= m[i] {
      if i < n {
        assert v[..n][j] <= p[i];
      } else if j < n {
        assert v[..n][j] <= p[n - 1];
      }
    }
  }

  /** Appending the new peak keeps every running maximum equal to one of the
      values before it. */
  lemma ExtendAttained(v: seq<real>, p: seq<real>, top: real)
    requires |v| > 0 && |p| == |v| - 1
    requires Attains(v[..|p|], p)
    requires top == if |p| == 0 then v[|p|] else Max(p[|p| - 1], v[|p|])
    ensures Attains(v, p + [top])
  {
    var n, m := |p|, p + [top];
    forall i | 0 <= i < |v| ensures exists j :: 0 <= j <= i && m[i] == v[j] {
      if i < n {
        assert m[i] == p[i];
        var j :| 0 <= j <= i && p[i] == v[..n][j];
        assert v[..n][j] == v[j];
      } else if n > 0 && top == p[n - 1] {
        assert m[i] == p[n - 1];
        var j :| 0 <= j <= n - 1 && p[n - 1] == v[..n][j];
        assert v[..n][j] == v[j];
      } else {
        assert m[i] == v[n];
      }
    }
  }

  /** The running maximum never decreases. */
  lemma RunningMaxNonDecreasing(v: seq<real>)
    ensures NonDecreasing(RunningMax(v))
  {
    var m := RunningMax(v);
    forall i, j | 0 <= i < j < |v| ensures m[i] <= m[j] {
      var k :| 0 <= k <= i && m[i] == v[k];
    }
  }

  lemma QuotientBounds(a: real, b: real)
    requires -b < a <= 0.0 && b > 0.0
    ensures -1.0 < a / b <= 0.0
  {
  }

  /** One drawdown is 0 exactly at the peak, and from a positive value below or
      at a positive peak it lies in (-1, 0]. */
  lemma DrawdownOf(x: real, peak: real, d: real)
    requires peak != 0.0 && d == (x - peak) / peak
    ensures d == 0.0 <==> x == peak
    ensures 0.0 < x <= peak ==> -1.0 < d <= 0.0
  {
    assert d * peak == x - peak;
    if 0.0 < x <= peak {
      QuotientBounds(x - peak, peak);
    }
  }

  /** Each value's fractional distance below its running peak. */
  function Drawdowns(v: seq<real>): (d: seq<real>)
    requires NonZero(v)
    ensures |d| == |v|
    ensures forall i :: 0 <= i < |v| ==> (d[i] == 0.0 <==> v[i] == RunningMax(v)[i])
    ensures Positive(v) ==> forall i :: 0 <= i < |v| ==> -1.0 < d[i] <= 0.0
  {
    var m := RunningMax(v);
    assert forall i :: 0 <= i < |v| ==> m[i] != 0.0 by {
      forall i | 0 <= i < |v| ensures m[i] != 0.0 {
        var j :| 0 <= j <= i && m[i] == v[j];
      }
    }
    var d := seq(|v|, i requires 0 <= i < |v| => (v[i] - m[i]) / m[i]);
    assert forall i :: 0 <= i < |v| ==> (d[i] == 0.0 <==> v[i] == m[i]) && (Positive(v) ==> -1.0 < d[i] <= 0.0) by {
      forall i | 0 <= i < |v| ensures (d[i] == 0.0 <==> v[i] == m[i]) && (Positive(v) ==> -1.0 < d[i] <= 0.0) {
        DrawdownOf(v[i], m[i], d[i]);
      }
    }
    d
  }

  /** The smallest element of a non-empty series. */
  function Minimum(s: seq<real>): (r: real)
    requires |s| > 0
    ensures exists i :: 0 <= i < |s| && s[i] == r
    ensures forall i :: 0 <= i < |s| ==> r <= s[i]
  {
    if |s| == 1 then s[0]
    else
      var m := Minimum(s[1..]);
      assert forall i :: 1 <= i < |s| ==> s[i] == s[1..][i - 1];
      if s[0] <= m then s[0] else m
  }

  /** The deepest drawdown over the window. */
  function MaxDrawdown(v: seq<real>): (md: real)
    requires |v| > 0 && NonZero(v)
    ensures exists i :: 0 <= i < |v| && md == Drawdowns(v)[i]
    ensures forall i :: 0 <= i < |v| ==> md <= Drawdowns(v)[i]
  {
    Minimum(Drawdowns(v))
  }

  /** With positive values the maximum drawdown lies in (-1, 0], and it is 0
      exactly when the values never fall. */
  lemma MaxDrawdownBounds(v: seq<real>)
    requires |v| > 0 && NonZero(v)
    ensures MaxDrawdown(v) <= 0.0
    ensures Positive(v) ==> -1.0 < MaxDrawdown(v)
    ensures Positive(v) ==> (MaxDrawdown(v) == 0.0 <==> NonDecreasing(v))
  {
    var d := Drawdowns(v);
    assert d[0] == 0.0 by {
      FirstDrawdown(v);
    }
    if NonDecreasing(v) {
      NoFallNoDrawdown(v);
      assert MaxDrawdown(v) == 0.0;
    }
    if Positive(v) && MaxDrawdown(v) == 0.0 {
      assert forall i :: 0 <= i < |v| ==> d[i] == 0.0;
      NoDrawdownNoFall(v);
    }
  }

  /** The first row is its own peak. */
  lemma FirstDrawdown(v: seq<real>)
    requires |v| > 0 && NonZero(v)
    ensures Drawdowns(v)[0] == 0.0
  {
    var m := RunningMax(v);
    var j :| 0 <= j <= 0 && m[0] == v[j];
  }

  /** Values that never fall are always at their peak. */
  lemma NoFallNoDrawdown(v: seq<real>)
    requires NonZero(v) && NonDecreasing(v)
    ensures forall i :: 0 <= i < |v| ==> Drawdowns(v)[i] == 0.0
  {
    var m := RunningMax(v);
    forall i | 0 <= i < |v| ensures Drawdowns(v)[i] == 0.0 {
      var j :| 0 <= j <= i && m[i] == v[j];
      assert v[j] <= v[i];
    }
  }

  /** Values that are always at their peak never fall. */
  lemma NoDrawdownNoFall(v: seq<real>)
    requires NonZero(v) && forall i :: 0 <= i < |v| ==> Drawdowns(v)[i] == 0.0
    ensures NonDecreasing(v)
  {
    var m := RunningMax(v);
    forall i, j | 0 <= i < j < |v| ensures v[i] <= v[j] {
      assert Drawdowns(v)[j] == 0.0;
      assert v[i] <= m[j];
    }
  }

  // ---------------------------------------------------------------------------
  // One performance run

  lemma AnalysableWithin(rows: seq<TradeRecord>)
    requires Analysable(rows)
    ensures forall i :: 0 <= i < |rows| ==> ValidDate(rows[i].date)
    ensures NonZero(Values(rows))
  {
    assert forall i :: 0 <= i < |rows| ==> rows[i] in rows;
  }

  /** The metrics of rows already sorted by date. */
  function Summarize(rows: seq<TradeRecord>): (s: PerformanceSummary)
    requires Analysable(rows)
    ensures |s.dailyReturns| == |rows|
    ensures AtOrBefore(s.startDate, s.endDate)
  {
    AnalysableWithin(rows);
    var v := Values(rows);
    PerformanceSummary(
      MinDate(rows),
      MaxDate(rows),
      DailyReturns(v),
      CumulativeReturn(v[0], v[|v| - 1]),
      AnnualizationFactor(SpanDays(rows)),
      MaxDrawdown(v))
  }

  lemma PermutationAnalysable(rows: seq<TradeRecord>, other: seq<TradeRecord>)
    requires Analysable(rows) && multiset(other) == multiset(rows)
    ensures Analysable(other)
  {
    assert |other| == |multiset(other)| == |rows|;
    forall t | t in other ensures t in rows {
      assert t in multiset(other);
    }
  }

  /** Performance of the ledger rows inside the optional window `[start, end]`
      (both bounds needed to filter), analysed in date order. The reported
      first and last dates are the earliest and latest dates of the window. */
  function CalculatePortfolioPerformance(ledger: seq<TradeRecord>, start: Option<Date>, end: Option<Date>): (s: PerformanceSummary)
    requires Analysable(Window(ledger, start, end))
    ensures s.startDate == MinDate(Window(ledger, start, end))
    ensures s.endDate == MaxDate(Window(ledger, start, end))
    ensures |s.dailyReturns| == |Window(ledger, start, end)|
  {
    var w := Window(ledger, start, end);
    var sorted := SortByDate(w);
    PermutationAnalysable(w, sorted);
    SortedEnds(w, sorted);
    SortedEnds(sorted, sorted);
    Summarize(sorted)
  }

  /** For every date-sorted order of a window's rows, the summary starts at the
      first row's date and ends at the last row's, which are the window's
      earliest and latest dates. */
  lemma SortedSummaryDates(window: seq<TradeRecord>, sorted: seq<TradeRecord>)
    requires Analysable(window)
    requires SortedByDate(sorted) && multiset(sorted) == multiset(window)
    ensures Analysable(sorted)
    ensures Summarize(sorted).startDate == sorted[0].date == MinDate(window)
    ensures Summarize(sorted).endDate == sorted[|sorted| - 1].date == MaxDate(window)
  {
    PermutationAnalysable(window, sorted);
    SortedEnds(window, sorted);
    SortedEnds(sorted, sorted);
  }

  /** For every date-sorted order of a window's rows, the cumulative return is
      the one from the first row's value to the last row's, and the
      annualization factor depends only on the window's day span. Which of
      several rows sharing a date comes first is not fixed by the sort, so
      neither is the cumulative return when the first or last date is shared. */
  lemma SortedSummaryReturns(window: seq<TradeRecord>, sorted: seq<TradeRecord>)
    requires Analysable(window)
    requires SortedByDate(sorted) && multiset(sorted) == multiset(window)
    ensures Analysable(sorted)
    ensures Summarize(sorted).cumulativeReturn
            == CumulativeReturn(sorted[0].portfolioValue, sorted[|sorted| - 1].portfolioValue)
    ensures Summarize(sorted).annualizationFactor == AnnualizationFactor(SpanDays(window))
  {
    PermutationSpan(window, sorted);
    SummaryCumulative(sorted);
    SummaryFactor(sorted);
  }

  /** A date-sorted permutation spans the same days as the window. */
  lemma PermutationSpan(window: seq<TradeRecord>, sorted: seq<TradeRecord>)
    requires Analysable(window)
    requires SortedByDate(sorted) && multiset(sorted) == multiset(window)
    ensures Analysable(sorted)
    ensures SpanDays(sorted) == SpanDays(window)
  {
    PermutationAnalysable(window, sorted);
    AnalysableWithin(sorted);
    AnalysableWithin(window);
    SortedEnds(window, sorted);
    SortedEnds(sorted, sorted);
  }

  /** The reported cumulative return runs from the first row's value to the last row's. */
  lemma SummaryCumulative(rows: seq<TradeRecord>)
    requires Analysable(rows)
    ensures rows[0].portfolioValue != 0.0
    ensures Summarize(rows).cumulativeReturn
            == CumulativeReturn(rows[0].portfolioValue, rows[|rows| - 1].portfolioValue)
  {
    AnalysableWithin(rows);
  }

  /** The reported factor is the one for the rows' span. */
  lemma SummaryFactor(rows: seq<TradeRecord>)
    requires Analysable(rows)
    ensures forall i :: 0 <= i < |rows| ==> ValidDate(rows[i].date)
    ensures Summarize(rows).annualizationFactor == AnnualizationFactor(SpanDays(rows))
  {
    AnalysableWithin(rows);
  }

  /** The dates and the annualization factor do not depend on how rows sharing
      a date were ordered. */
  lemma TieOrderKeepsDates(window: seq<TradeRecord>, s1: seq<TradeRecord>, s2: seq<TradeRecord>)
    requires Analysable(window)
    requires SortedByDate(s1) && multiset(s1) == multiset(window)
    requires SortedByDate(s2) && multiset(s2) == multiset(window)
    ensures Analysable(s1) && Analysable(s2)
    ensures Summarize(s1).startDate == Summarize(s2).startDate
    ensures Summarize(s1).endDate == Summarize(s2).endDate
    ensures Summarize(s1).annualizationFactor == Summarize(s2).annualizationFactor
  {
    SortedSummaryDates(window, s1);
    SortedSummaryDates(window, s2);
    SortedSummaryReturns(window, s1);
    SortedSummaryReturns(window, s2);
  }

  /** A window whose rows all share one date is annualized by 252. */
  lemma SingleDateFactor(rows: seq<TradeRecord>)
    requires Analysable(rows)
    requires forall i :: 0 <= i < |rows| ==> rows[i].date == rows[0].date
    ensures Summarize(rows).annualizationFactor == TradingDays
  {
    AnalysableWithin(rows);
  }

  /** A single-row window reports a zero daily return, no cumulative return and
      the fallback factor 252. */
  lemma SingleRowReturns(rows: seq<TradeRecord>)
    requires Analysable(rows) && |rows| == 1
    ensures Summarize(rows).dailyReturns == [0.0]
    ensures Summarize(rows).cumulativeReturn == 0.0
    ensures Summarize(rows).annualizationFactor == TradingDays
  {
    AnalysableWithin(rows);
    var v := Values(rows);
    assert DailyReturns(v) == [0.0] by {
      assert DailyReturns(v)[0] == 0.0;
    }
    assert CumulativeReturn(v[0], v[0]) == 0.0 by {
      NoChange(v[0]);
    }
    SingleDateFactor(rows);
  }

  /** An unchanged value has cumulative return 0. */
  lemma NoChange(x: real)
    requires x != 0.0
    ensures CumulativeReturn(x, x) == 0.0
  {
  }

  /** A single-row window reports no drawdown. */
  lemma SingleRowDrawdown(rows: seq<TradeRecord>)
    requires Analysable(rows) && |rows| == 1
    ensures Summarize(rows).maxDrawdown == 0.0
  {
    AnalysableWithin(rows);
    var v := Values(rows);
    assert RunningMax(v)[0] == v[0] by {
      var j :| 0 <= j <= 0 && RunningMax(v)[0] == v[j];
    }
  }

  /** The reported maximum drawdown is never positive; with positive portfolio
      values it lies in (-1, 0], and is 0 exactly when the sorted values never
      fall. */
  lemma SummaryDrawdown(rows: seq<TradeRecord>)
    requires Analysable(rows)
    ensures Summarize(rows).maxDrawdown <= 0.0
    ensures Positive(Values(rows)) ==> -1.0 < Summarize(rows).maxDrawdown
    ensures Positive(Values(rows)) ==> (Summarize(rows).maxDrawdown == 0.0 <==> NonDecreasing(Values(rows)))
  {
    AnalysableWithin(rows);
    MaxDrawdownBounds(Values(rows));
  }
}
