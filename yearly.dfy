/** The dashboard's analysis driver: one performance run over the whole
    ledger, then one run per calendar year present in the ledger, each over
    the window from January 1st to December 31st of that year. */
module Yearly {
  import opened Calendar
  import opened Ledger
  import opened Performance

  predicate HasYear(ledger: seq<TradeRecord>, y: int) {
    exists t :: t in ledger && t.date.year == y
  }

  predicate StrictlyIncreasing(ys: seq<int>) {
    forall i, j :: 0 <= i < j < |ys| ==> ys[i] < ys[j]
  }

  /** Adds one year to a strictly increasing list of years. */
  function InsertYear(y: int, ys: seq<int>): (r: seq<int>)
    requires StrictlyIncreasing(ys)
    ensures StrictlyIncreasing(r)
    ensures forall x :: x in r <==> x == y || x in ys
  {
    if ys == [] then [y]
    else if y == ys[0] then ys
    else if y < ys[0] then
      TailAbove(ys);
      PrependIncreasing(y, ys);
      [y] + ys
    else
      TailAbove(ys);
      var rest := InsertYear(y, ys[1..]);
      PrependIncreasing(ys[0], rest);
      assert ys == [ys[0]] + ys[1..];
      [ys[0]] + rest
  }

  /** The tail of a strictly increasing list is strictly increasing and lies
      above its head. */
  lemma TailAbove(ys: seq<int>)
    requires |ys| > 0 && StrictlyIncreasing(ys)
    ensures StrictlyIncreasing(ys[1..])
    ensures forall x :: x in ys[1..] ==> ys[0] < x
  {
    var tail := ys[1..];
    forall i, j | 0 <= i < j < |tail| ensures tail[i] < tail[j] {
      assert tail[i] == ys[i + 1] && tail[j] == ys[j + 1];
    }
    forall x | x in tail ensures ys[0] < x {
      var k :| 0 <= k < |tail| && tail[k] == x;
      assert tail[k] == ys[k + 1];
    }
  }

  lemma PrependIncreasing(y: int, ys: seq<int>)
    requires StrictlyIncreasing(ys) && forall x :: x in ys ==> y < x
    ensures StrictlyIncreasing([y] + ys)
  {
    var r := [y] + ys;
    forall i, j | 0 <= i < j < |r| ensures r[i] < r[j] {
      if i > 0 {
        assert r[i] == ys[i - 1] && r[j] == ys[j - 1];
      } else {
        assert r[j] in ys;
      }
    }
  }

  /** The distinct years of the ledger's dates in ascending order. */
  function SortedYears(ledger: seq<TradeRecord>): (ys: seq<int>)
    ensures StrictlyIncreasing(ys)
    ensures forall y :: y in ys <==> HasYear(ledger, y)
  {
    if ledger == [] then []
    else
      var rest := SortedYears(ledger[1..]);
      assert forall t :: t in ledger <==> t == ledger[0] || t in ledger[1..];
      InsertYear(ledger[0].date.year, rest)
  }

  /** Without bounds the window is the whole ledger, in ledger order. */
  lemma {:induction false} WholeLedgerWindow(ledger: seq<TradeRecord>)
    ensures Window(ledger, None, None) == ledger
  {
    if ledger != [] {
      WholeLedgerWindow(ledger[1..]);
      assert ledger == [ledger[0]] + ledger[1..];
    }
  }

  /** The window `[y-01-01, y-12-31]` keeps exactly the rows dated in year y. */
  lemma YearWindowRows(ledger: seq<TradeRecord>, y: int)
    requires UsableRows(ledger)
    ensures forall t ::
              multiset(Window(ledger, Some(Jan1(y)), Some(Dec31(y))))[t] ==
              (if t.date.year == y then multiset(ledger)[t] else 0)
  {
    forall t ensures multiset(Window(ledger, Some(Jan1(y)), Some(Dec31(y))))[t] ==
      (if t.date.year == y then multiset(ledger)[t] else 0)
    {
      if t in ledger {
        YearWindowIsYear(t.date, y);
      }
    }
  }

  /** The window of a year present in the ledger can be analysed. */
  lemma YearWindowAnalysable(ledger: seq<TradeRecord>, y: int)
    requires UsableRows(ledger) && HasYear(ledger, y)
    ensures Analysable(Window(ledger, Some(Jan1(y)), Some(Dec31(y))))
    ensures forall t :: t in Window(ledger, Some(Jan1(y)), Some(Dec31(y))) ==> t.date.year == y
  {
    var w := Window(ledger, Some(Jan1(y)), Some(Dec31(y)));
    YearWindowRows(ledger, y);
    var t0 :| t0 in ledger && t0.date.year == y;
    assert multiset(w)[t0] > 0;
    forall t | t in w ensures t in ledger && t.date.year == y {
      assert multiset(w)[t] > 0;
    }
  }

  /** Every listed year occurs in the ledger. */
  predicate YearsOf(ledger: seq<TradeRecord>, years: seq<int>) {
    forall k :: 0 <= k < |years| ==> HasYear(ledger, years[k])
  }

  /** The analysis of one year's window. */
  function YearSummary(ledger: seq<TradeRecord>, y: int): (s: PerformanceSummary)
    requires UsableRows(ledger) && HasYear(ledger, y)
    ensures s.startDate.year == y && s.endDate.year == y
  {
    YearWindowAnalysable(ledger, y);
    YearWindowDates(ledger, y);
    CalculatePortfolioPerformance(ledger, Some(Jan1(y)), Some(Dec31(y)))
  }

  /** A run over a year's window starts and ends within that year. */
  lemma YearWindowDates(ledger: seq<TradeRecord>, y: int)
    requires UsableRows(ledger) && HasYear(ledger, y)
    ensures Analysable(Window(ledger, Some(Jan1(y)), Some(Dec31(y))))
    ensures var s := CalculatePortfolioPerformance(ledger, Some(Jan1(y)), Some(Dec31(y)));
      s.startDate.year == y && s.endDate.year == y
  {
    YearWindowAnalysable(ledger, y);
    var w := Window(ledger, Some(Jan1(y)), Some(Dec31(y)));
    var i :| 0 <= i < |w| && w[i].date == MinDate(w);
    var j :| 0 <= j < |w| && w[j].date == MaxDate(w);
    assert w[i] in w && w[j] in w;
  }

  /** The results have exactly the first `n` years as keys. */
  predicate KeyedBy(results: map<int, PerformanceSummary>, years: seq<int>, n: nat)
    requires n <= |years|
  {
    results.Keys == (set k | 0 <= k < n :: years[k])
  }

  /** Each of the first `n` years maps to the analysis of its window. */
  predicate Recorded(ledger: seq<TradeRecord>, years: seq<int>, n: nat, results: map<int, PerformanceSummary>)
    requires n <= |years| && UsableRows(ledger) && YearsOf(ledger, years)
  {
    forall k :: 0 <= k < n ==> years[k] in results && results[years[k]] == YearSummary(ledger, years[k])
  }

  lemma KeyStep(results: map<int, PerformanceSummary>, years: seq<int>, n: nat, s: PerformanceSummary)
    requires n < |years| && KeyedBy(results, years, n)
    ensures KeyedBy(results[years[n] := s], years, n + 1)
  {
    var before, after := (set k | 0 <= k < n :: years[k]), (set k | 0 <= k < n + 1 :: years[k]);
    assert after == before + {years[n]} by {
      forall x | x in after ensures x in before + {years[n]} {
        var k :| 0 <= k < n + 1 && years[k] == x;
        if k < n {
          assert x in before;
        }
      }
    }
  }

  /** The results map each of the first `n` years to its expected entry. */
  predicate Matches(results: map<int, PerformanceSummary>, years: seq<int>, n: nat, expected: seq<PerformanceSummary>)
    requires n <= |years| <= |expected|
  {
    forall k :: 0 <= k < n ==> years[k] in results && results[years[k]] == expected[k]
  }

  /** Storing year n's entry keeps the entries of the earlier, smaller years. */
  lemma RecordStep(results: map<int, PerformanceSummary>, years: seq<int>, n: nat, expected: seq<PerformanceSummary>)
    requires n < |years| <= |expected| && StrictlyIncreasing(years)
    requires Matches(results, years, n, expected)
    ensures Matches(results[years[n] := expected[n]], years, n + 1, expected)
  {
    var updated := results[years[n] := expected[n]];
    forall k | 0 <= k < n + 1 ensures years[k] in updated && updated[years[k]] == expected[k] {
      if k < n {
        assert years[k] < years[n];
      }
    }
  }

  /** Runs the whole-period analysis, then one analysis per year of the
      ledger in ascending order, collecting them by year. */
  method YearlyPerformance(ledger: seq<TradeRecord>)
    returns (total: PerformanceSummary, years: seq<int>, results: map<int, PerformanceSummary>)
    requires |ledger| > 0 && UsableRows(ledger)
    ensures Analysable(Window(ledger, None, None))
    ensures total == CalculatePortfolioPerformance(ledger, None, None)
    ensures years == SortedYears(ledger)
    ensures YearsOf(ledger, years)
    ensures KeyedBy(results, years, |years|)
    ensures Recorded(ledger, years, |years|, results)
  {
    WholeLedgerWindow(ledger);
    total := CalculatePortfolioPerformance(ledger, None, None);
    years := SortedYears(ledger);
    results := ResultsByYear(ledger, years);
  }

  /** The per-year loop: analyses each listed year's window in turn and stores
      the summary under its year. */
  method ResultsByYear(ledger: seq<TradeRecord>, years: seq<int>) returns (results: map<int, PerformanceSummary>)
    requires UsableRows(ledger) && StrictlyIncreasing(years) && YearsOf(ledger, years)
    ensures KeyedBy(results, years, |years|)
    ensures Recorded(ledger, years, |years|, results)
  {
    results := map[];
    ghost var expected := seq(|years|, k requires 0 <= k < |years| => YearSummary(ledger, years[k]));
    for i := 0 to |years|
      invariant KeyedBy(results, years, i)
      invariant Matches(results, years, i, expected)
    {
      var y := years[i];
      var s := YearSummary(ledger, y);
      assert s == expected[i];
      KeyStep(results, years, i, s);
      RecordStep(results, years, i, expected);
      results := results[y := s];
    }
    MatchedYears(ledger, years, results, expected);
  }

  lemma MatchedYears(ledger: seq<TradeRecord>, years: seq<int>, results: map<int, PerformanceSummary>, expected: seq<PerformanceSummary>)
    requires UsableRows(ledger) && YearsOf(ledger, years)
    requires expected == seq(|years|, k requires 0 <= k < |years| => YearSummary(ledger, years[k]))
    requires Matches(results, years, |years|, expected)
    ensures Recorded(ledger, years, |years|, results)
  {
    forall k | 0 <= k < |years| ensures years[k] in results && results[years[k]] == YearSummary(ledger, years[k]) {
      assert expected[k] == YearSummary(ledger, years[k]);
    }
  }
}
