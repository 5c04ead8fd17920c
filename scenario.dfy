/** The sample ledger the dashboard shows as its input format, worked
    through the performance run and the weights table. */
module Scenario {
  import opened Calendar
  import opened Ledger
  import opened Performance
  import opened Positions
  import opened Yearly

  function SampleLedger(): seq<TradeRecord> {
    [ TradeRecord(Date(2024, 1, 2), "AAPL", "Buy", 10, 150.0, 1500.0, 5000.0),
      TradeRecord(Date(2024, 1, 5), "TSLA", "Buy", 5, 700.0, 3500.0, 9000.0),
      TradeRecord(Date(2024, 1, 10), "AAPL", "Sell", 5, 160.0, 800.0, 10000.0),
      TradeRecord(Date(2024, 1, 15), "MSFT", "Buy", 8, 300.0, 2400.0, 12500.0),
      TradeRecord(Date(2024, 1, 20), "TSLA", "Sell", 2, 750.0, 1500.0, 14000.0) ]
  }

  lemma SampleSymbols()
    ensures DistinctSymbols(SampleLedger()) == ["AAPL", "TSLA", "MSFT"]
  {
    var l := SampleLedger();
    assert l[..1][..0] == [];
    assert DistinctSymbols(l[..1]) == ["AAPL"];
    assert l[..2][..1] == l[..1];
    assert DistinctSymbols(l[..2]) == ["AAPL", "TSLA"];
    assert l[..3][..2] == l[..2];
    assert DistinctSymbols(l[..3]) == ["AAPL", "TSLA"];
    assert l[..4][..3] == l[..3];
    assert DistinctSymbols(l[..4]) == ["AAPL", "TSLA", "MSFT"];
    assert l[..4] == l[..|l| - 1];
  }

  /** The sample's net quantity of any symbol, row by row. */
  lemma SampleNetUnrolled(symbol: string)
    ensures var l := SampleLedger();
      NetQuantity(l, symbol) ==
        (if symbol == "AAPL" then 10 - 5 else 0) + (if symbol == "TSLA" then 5 - 2 else 0) + (if symbol == "MSFT" then 8 else 0)
  {
    var l := SampleLedger();
    assert SignedQuantity(l[2]) == -5 && SignedQuantity(l[4]) == -2;
    assert l[..1][..0] == [];
    assert NetQuantity(l[..1], symbol) == if symbol == "AAPL" then 10 else 0;
    assert l[..2][..1] == l[..1];
    assert NetQuantity(l[..2], symbol) == (if symbol == "AAPL" then 10 else 0) + (if symbol == "TSLA" then 5 else 0);
    assert l[..3][..2] == l[..2];
    assert NetQuantity(l[..3], symbol) == (if symbol == "AAPL" then 5 else 0) + (if symbol == "TSLA" then 5 else 0);
    assert l[..4][..3] == l[..3];
    assert NetQuantity(l[..4], symbol) ==
      (if symbol == "AAPL" then 5 else 0) + (if symbol == "TSLA" then 5 else 0) + (if symbol == "MSFT" then 8 else 0);
    assert l[..4] == l[..|l| - 1];
  }

  lemma SampleLastPrices()
    ensures Appears(SampleLedger(), "AAPL") && LastPrice(SampleLedger(), "AAPL") == 160.0
    ensures Appears(SampleLedger(), "TSLA") && LastPrice(SampleLedger(), "TSLA") == 750.0
    ensures Appears(SampleLedger(), "MSFT") && LastPrice(SampleLedger(), "MSFT") == 300.0
  {
    var l := SampleLedger();
    assert l[2].symbol == "AAPL" && l[4].symbol == "TSLA" && l[3].symbol == "MSFT";
    assert l[4].symbol != "AAPL" && l[4].symbol != "MSFT" && l[3].symbol != "AAPL";
  }

  lemma SamplePositionOf()
    ensures PositionOf(SampleLedger(), "AAPL") == [SampleAapl]
    ensures PositionOf(SampleLedger(), "TSLA") == [SampleTsla]
    ensures PositionOf(SampleLedger(), "MSFT") == [SampleMsft]
  {
    var l := SampleLedger();
    SampleNetUnrolled("AAPL");
    SampleNetUnrolled("TSLA");
    SampleNetUnrolled("MSFT");
    SampleLastPrices();
    assert MarketValue(5, 160.0) == 800.0;
    assert MarketValue(3, 750.0) == 2250.0;
    assert MarketValue(8, 300.0) == 2400.0;
  }

  const SampleAapl := Position("AAPL", 5, 160.0, 800.0)
  const SampleTsla := Position("TSLA", 3, 750.0, 2250.0)
  const SampleMsft := Position("MSFT", 8, 300.0, 2400.0)

  /** Three listed symbols, each with one open position, give those three
      positions in listing order. */
  lemma ThreeOpen(ledger: seq<TradeRecord>, symbols: seq<string>, p0: Position, p1: Position, p2: Position)
    requires |symbols| == 3
    requires PositionOf(ledger, symbols[0]) == [p0]
    requires PositionOf(ledger, symbols[1]) == [p1]
    requires PositionOf(ledger, symbols[2]) == [p2]
    ensures PositionsOf(ledger, symbols[..3]) == [p0, p1, p2]
  {
    FirstOpen(ledger, symbols, p0);
    NextOpen(ledger, symbols, 1, [p0], p1);
    NextOpen(ledger, symbols, 2, [p0, p1], p2);
  }

  /** A ledger with three distinct symbols, each with one open position, has
      those three open positions in order of first appearance. */
  lemma OpenFromListing(ledger: seq<TradeRecord>, symbols: seq<string>, p0: Position, p1: Position, p2: Position)
    requires DistinctSymbols(ledger) == symbols && |symbols| == 3
    requires PositionOf(ledger, symbols[0]) == [p0]
    requires PositionOf(ledger, symbols[1]) == [p1]
    requires PositionOf(ledger, symbols[2]) == [p2]
    ensures OpenPositions(ledger) == [p0, p1, p2]
  {
    ThreeOpen(ledger, symbols, p0, p1, p2);
    AllCollected(ledger, symbols, [p0, p1, p2]);
  }

  lemma FirstOpen(ledger: seq<TradeRecord>, symbols: seq<string>, p: Position)
    requires |symbols| > 0 && PositionOf(ledger, symbols[0]) == [p]
    ensures PositionsOf(ledger, symbols[..1]) == [p]
  {
    assert symbols[..0] == [];
    PositionsOfExtend(ledger, symbols, 0);
  }

  lemma NextOpen(ledger: seq<TradeRecord>, symbols: seq<string>, i: nat, before: seq<Position>, p: Position)
    requires i < |symbols| && PositionsOf(ledger, symbols[..i]) == before
    requires PositionOf(ledger, symbols[i]) == [p]
    ensures PositionsOf(ledger, symbols[..i + 1]) == before + [p]
  {
    PositionsOfExtend(ledger, symbols, i);
  }

  lemma SamplePositions()
    ensures OpenPositions(SampleLedger()) == [SampleAapl, SampleTsla, SampleMsft]
  {
    SampleSymbols();
    SamplePositionOf();
    OpenFromListing(SampleLedger(), ["AAPL", "TSLA", "MSFT"], SampleAapl, SampleTsla, SampleMsft);
  }

  lemma SampleExposure()
    ensures TotalExposure([SampleAapl, SampleTsla, SampleMsft]) == 5450.0
  {
    var ps := [SampleAapl, SampleTsla, SampleMsft];
    assert ps[..1][..0] == [];
    assert TotalExposure(ps[..1]) == 800.0;
    assert ps[..2][..1] == ps[..1];
    assert TotalExposure(ps[..2]) == 3050.0;
    assert ps[..2] == ps[..|ps| - 1];
  }

  lemma SampleShares()
    ensures Weighted([SampleAapl, SampleTsla, SampleMsft], 5450.0) == [
      WeightedPosition("AAPL", 5, 160.0, 800.0, 16.0 / 109.0),
      WeightedPosition("TSLA", 3, 750.0, 2250.0, 45.0 / 109.0),
      WeightedPosition("MSFT", 8, 300.0, 2400.0, 48.0 / 109.0)]
  {
    assert ShareOf(800.0, 5450.0) == 16.0 / 109.0;
    assert ShareOf(2250.0, 5450.0) == 45.0 / 109.0;
    assert ShareOf(2400.0, 5450.0) == 48.0 / 109.0;
  }

  /** The sample's weights: AAPL 800, TSLA 2250 and MSFT 2400 out of 5450. */
  lemma SampleWeights()
    ensures ExposureDefined(SampleLedger())
    ensures StockWeights(SampleLedger()) == [
      WeightedPosition("AAPL", 5, 160.0, 800.0, 16.0 / 109.0),
      WeightedPosition("TSLA", 3, 750.0, 2250.0, 45.0 / 109.0),
      WeightedPosition("MSFT", 8, 300.0, 2400.0, 48.0 / 109.0)]
  {
    SamplePositions();
    SampleExposure();
    SampleShares();
  }

  lemma SampleUsable()
    ensures UsableRows(SampleLedger()) && Analysable(SampleLedger())
  {
  }

  /** A row dated before a sorted suffix's first row is prepended unchanged. */
  lemma SortStep(rows: seq<TradeRecord>)
    requires |rows| >= 2 && SortByDate(rows[1..]) == rows[1..]
    requires AtOrBefore(rows[0].date, rows[1].date)
    ensures SortByDate(rows) == rows
  {
    assert rows == [rows[0]] + rows[1..];
  }

  /** The sample is already in date order, so sorting leaves it as it is. */
  lemma SampleSorted()
    ensures SortByDate(SampleLedger()) == SampleLedger()
  {
    var l := SampleLedger();
    assert SortByDate(l[4..]) == l[4..] by {
      assert l[4..][1..] == [];
    }
    assert l[3..][1..] == l[4..];
    SortStep(l[3..]);
    assert l[2..][1..] == l[3..];
    SortStep(l[2..]);
    assert l[1..][1..] == l[2..];
    SortStep(l[1..]);
    SortStep(l);
  }

  /** The whole-period run summarises the sample rows in their own order. */
  lemma SampleRun(l: seq<TradeRecord>)
    requires l == SampleLedger()
    ensures Analysable(l) && Analysable(Window(l, None, None))
    ensures CalculatePortfolioPerformance(l, None, None) == Summarize(l)
  {
    assert Analysable(l) && SortByDate(l) == l by {
      SampleUsable();
      SampleSorted();
    }
    InOrderRun(l);
  }

  /** A ledger already in date order is summarised as it stands. */
  lemma InOrderRun(ledger: seq<TradeRecord>)
    requires Analysable(ledger) && SortByDate(ledger) == ledger
    ensures Analysable(Window(ledger, None, None))
    ensures CalculatePortfolioPerformance(ledger, None, None) == Summarize(ledger)
  {
    WholeLedgerWindow(ledger);
  }

  /** Rows dated 2024-01-02 first and 2024-01-20 last, with every date in
      between, span 18 days. */
  lemma EighteenDays(l: seq<TradeRecord>)
    requires |l| > 0 && l[0].date == Date(2024, 1, 2) && l[|l| - 1].date == Date(2024, 1, 20)
    requires forall i :: 0 <= i < |l| ==> ValidDate(l[i].date)
    requires forall i :: 0 <= i < |l| ==> AtOrBefore(Date(2024, 1, 2), l[i].date) && AtOrBefore(l[i].date, Date(2024, 1, 20))
    ensures SpanDays(l) == 18
  {
    var lo, hi := MinDate(l), MaxDate(l);
    assert lo == Date(2024, 1, 2) by {
      var i :| 0 <= i < |l| && l[i].date == lo;
      assert AtOrBefore(lo, l[0].date);
    }
    assert hi == Date(2024, 1, 20) by {
      var i :| 0 <= i < |l| && l[i].date == hi;
      assert AtOrBefore(l[|l| - 1].date, hi);
    }
    assert DayNumber(hi) - DayNumber(lo) == 18;
  }

  /** The sample's values rise from 5000 to 14000 without a fall. */
  lemma SampleValues(l: seq<TradeRecord>)
    requires l == SampleLedger()
    ensures Values(l) == [5000.0, 9000.0, 10000.0, 12500.0, 14000.0]
    ensures NonDecreasing(Values(l))
    ensures forall i :: 0 <= i < |l| ==> l[i].portfolioValue > 0.0
  {
  }

  /** The sample's summary covers 2024-01-02 to 2024-01-20. */
  lemma SamplePeriod(l: seq<TradeRecord>)
    requires l == SampleLedger()
    ensures Analysable(l)
    ensures Summarize(l).startDate == Date(2024, 1, 2) && Summarize(l).endDate == Date(2024, 1, 20)
  {
    SampleUsable();
    SampleSorted();
    SortedSummaryDates(l, l);
  }

  /** From 5000 to 14000: a cumulative return of 1.8. */
  lemma SampleCumulative(l: seq<TradeRecord>)
    requires l == SampleLedger()
    ensures Analysable(l)
    ensures Summarize(l).cumulativeReturn == 1.8
  {
    SampleUsable();
    SampleSorted();
    SortedSummaryReturns(l, l);
  }

  /** Over 18 days: an annualization factor of 252 / 18 = 14, the factor
      the sample's summary carries by `SortedSummaryReturns`. */
  lemma SampleFactor(l: seq<TradeRecord>)
    requires l == SampleLedger()
    ensures forall i :: 0 <= i < |l| ==> ValidDate(l[i].date)
    ensures AnnualizationFactor(SpanDays(l)) == 14.0
  {
    SampleSpan(l);
    assert AnnualizationFactor(18) == 14.0;
  }

  lemma SampleSpan(l: seq<TradeRecord>)
    requires l == SampleLedger()
    ensures forall i :: 0 <= i < |l| ==> ValidDate(l[i].date)
    ensures SpanDays(l) == 18
  {
    EighteenDays(l);
  }

  /** The sample's values never fall, so its maximum drawdown is 0. */
  lemma SampleNoDrawdown(l: seq<TradeRecord>)
    requires l == SampleLedger()
    ensures Analysable(l)
    ensures Summarize(l).maxDrawdown == 0.0
  {
    SampleUsable();
    SampleValues(l);
    SummaryDrawdown(l);
  }
}
