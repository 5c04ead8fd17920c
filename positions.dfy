/** The position aggregator: per symbol of the whole ledger, the net quantity
    held (purchases minus everything else), the price of the symbol's last
    ledger row, the resulting value, and each open position's share of the
    total absolute exposure. */
module Positions {
  import opened Ledger

  /** One open position before weighting. */
  datatype Position = Position(symbol: string, netQuantity: int, price: real, currentValue: real)

  /** One row of the weights table. */
  datatype WeightedPosition = WeightedPosition(
    symbol: string,
    netQuantity: int,
    price: real,
    currentValue: real,
    weight: real)

  predicate Appears(ledger: seq<TradeRecord>, symbol: string) {
    exists k :: 0 <= k < |ledger| && ledger[k].symbol == symbol
  }

  lemma AppearsInPrefix(ledger: seq<TradeRecord>, n: nat, symbol: string)
    requires n <= |ledger| && Appears(ledger[..n], symbol)
    ensures Appears(ledger, symbol)
  {
    var k :| 0 <= k < n && ledger[..n][k].symbol == symbol;
    assert ledger[k].symbol == symbol;
  }

  // ---------------------------------------------------------------------------
  // Symbols in order of first appearance

  /** Index of the symbol's first row. */
  function FirstIndex(ledger: seq<TradeRecord>, symbol: string): (k: nat)
    requires Appears(ledger, symbol)
    ensures k < |ledger| && ledger[k].symbol == symbol
    ensures forall j :: 0 <= j < k ==> ledger[j].symbol != symbol
  {
    if ledger[0].symbol == symbol then 0
    else
      assert Appears(ledger[1..], symbol) by {
        var k :| 0 <= k < |ledger| && ledger[k].symbol == symbol;
        assert ledger[1..][k - 1].symbol == symbol;
      }
      var k := FirstIndex(ledger[1..], symbol);
      assert forall j :: 1 <= j < k + 1 ==> ledger[j] == ledger[1..][j - 1];
      k + 1
  }

  /** A symbol's first row is the same in a ledger and in any prefix holding it. */
  lemma FirstIndexInPrefix(ledger: seq<TradeRecord>, n: nat, symbol: string)
    requires n <= |ledger| && Appears(ledger[..n], symbol)
    ensures Appears(ledger, symbol)
    ensures FirstIndex(ledger, symbol) == FirstIndex(ledger[..n], symbol)
  {
    AppearsInPrefix(ledger, n, symbol);
    var a, b := FirstIndex(ledger, symbol), FirstIndex(ledger[..n], symbol);
    assert ledger[b] == ledger[..n][b];
    assert a < n;
    assert ledger[..n][a] == ledger[a];
  }

  /** Symbols listed in the order in which they first occur in the ledger;
      in particular each at most once. */
  predicate InFirstAppearanceOrder(ledger: seq<TradeRecord>, symbols: seq<string>) {
    (forall i :: 0 <= i < |symbols| ==> Appears(ledger, symbols[i]))
    && forall i, j :: 0 <= i < j < |symbols| ==> FirstIndex(ledger, symbols[i]) < FirstIndex(ledger, symbols[j])
  }

  /** Adding the ledger's last row to the distinct symbols of the rows before it. */
  lemma DistinctStep(ledger: seq<TradeRecord>, earlier: seq<string>)
    requires |ledger| > 0
    requires forall s :: s in earlier <==> Appears(ledger[..|ledger| - 1], s)
    requires InFirstAppearanceOrder(ledger[..|ledger| - 1], earlier)
    ensures var next := if ledger[|ledger| - 1].symbol in earlier then earlier else earlier + [ledger[|ledger| - 1].symbol];
      && (forall s :: s in next <==> Appears(ledger, s))
      && InFirstAppearanceOrder(ledger, next)
  {
    var n := |ledger| - 1;
    var prefix := ledger[..n];
    var s := ledger[n].symbol;
    forall i | 0 <= i < |earlier|
      ensures Appears(ledger, earlier[i]) && FirstIndex(ledger, earlier[i]) == FirstIndex(prefix, earlier[i])
    {
      FirstIndexInPrefix(ledger, n, earlier[i]);
    }
    forall t ensures Appears(ledger, t) <==> Appears(prefix, t) || t == s {
      if Appears(ledger, t) && t != s {
        var k :| 0 <= k < |ledger| && ledger[k].symbol == t;
        assert prefix[k].symbol == t;
      }
      if Appears(prefix, t) {
        AppearsInPrefix(ledger, n, t);
      }
    }
    if s !in earlier {
      assert forall j :: 0 <= j < n ==> ledger[j] == prefix[j];
      assert FirstIndex(ledger, s) == n;
      var next := earlier + [s];
      assert forall i :: 0 <= i < |earlier| ==> next[i] == earlier[i];
    }
  }

  /** The distinct symbols of the ledger, in order of first appearance. */
  function DistinctSymbols(ledger: seq<TradeRecord>): (symbols: seq<string>)
    ensures forall s :: s in symbols <==> Appears(ledger, s)
    ensures InFirstAppearanceOrder(ledger, symbols)
  {
    if ledger == [] then []
    else
      var earlier := DistinctSymbols(ledger[..|ledger| - 1]);
      DistinctStep(ledger, earlier);
      var s := ledger[|ledger| - 1].symbol;
      if s in earlier then earlier else earlier + [s]
  }

  // ---------------------------------------------------------------------------
  // Net quantity and last price

  /** A row's quantity, positive for a "Buy" and negative for any other type. */
  function SignedQuantity(t: TradeRecord): (q: int)
    ensures t.kind == "Buy" ==> q == t.quantity
    ensures t.kind != "Buy" ==> q + t.quantity == 0
  {
    if t.kind == "Buy" then t.quantity else -t.quantity
  }

  /** Signed sum of the symbol's quantities. */
  function NetQuantity(ledger: seq<TradeRecord>, symbol: string): (net: int)
    ensures net != 0 ==> Appears(ledger, symbol)
  {
    if ledger == [] then 0
    else
      var n := |ledger| - 1;
      var earlier := NetQuantity(ledger[..n], symbol);
      assert earlier != 0 ==> Appears(ledger, symbol) by {
        if earlier != 0 {
          AppearsInPrefix(ledger, n, symbol);
        }
      }
      earlier + (if ledger[n].symbol == symbol then SignedQuantity(ledger[n]) else 0)
  }

  /** Total quantity of the symbol's "Buy" rows. */
  function Bought(ledger: seq<TradeRecord>, symbol: string): int {
    if ledger == [] then 0
    else
      var t := ledger[0];
      (if t.symbol == symbol && t.kind == "Buy" then t.quantity else 0) + Bought(ledger[1..], symbol)
  }

  /** Total quantity of the symbol's rows of any other type. */
  function Sold(ledger: seq<TradeRecord>, symbol: string): int {
    if ledger == [] then 0
    else
      var t := ledger[0];
      (if t.symbol == symbol && t.kind != "Buy" then t.quantity else 0) + Sold(ledger[1..], symbol)
  }

  lemma {:induction false} NetOfConcat(a: seq<TradeRecord>, b: seq<TradeRecord>, symbol: string)
    ensures NetQuantity(a + b, symbol) == NetQuantity(a, symbol) + NetQuantity(b, symbol)
    decreases |b|
  {
    if b != [] {
      var n := |b| - 1;
      assert (a + b)[..|a + b| - 1] == a + b[..n];
      NetOfConcat(a, b[..n], symbol);
    } else {
      assert a + b == a;
    }
  }

  /** The net quantity is what was bought minus what was sold. */
  lemma {:induction false} NetIsBoughtMinusSold(ledger: seq<TradeRecord>, symbol: string)
    ensures NetQuantity(ledger, symbol) == Bought(ledger, symbol) - Sold(ledger, symbol)
  {
    if ledger != [] {
      NetIsBoughtMinusSold(ledger[1..], symbol);
      assert ledger == [ledger[0]] + ledger[1..];
      NetOfConcat([ledger[0]], ledger[1..], symbol);
      assert [ledger[0]][..0] == [];
    }
  }

  /** Index of the symbol's last row in ledger order. */
  function LastIndex(ledger: seq<TradeRecord>, symbol: string): (k: nat)
    requires Appears(ledger, symbol)
    ensures k < |ledger| && ledger[k].symbol == symbol
    ensures forall j :: k < j < |ledger| ==> ledger[j].symbol != symbol
  {
    var n := |ledger| - 1;
    if ledger[n].symbol == symbol then n
    else
      assert Appears(ledger[..n], symbol) by {
        var k :| 0 <= k < |ledger| && ledger[k].symbol == symbol;
        assert ledger[..n][k].symbol == symbol;
      }
      var k := LastIndex(ledger[..n], symbol);
      assert forall j :: 0 <= j < n ==> ledger[j] == ledger[..n][j];
      k
  }

  /** Price of the symbol's last row in ledger order (not in date order). */
  function LastPrice(ledger: seq<TradeRecord>, symbol: string): (price: real)
    requires Appears(ledger, symbol)
    ensures exists k :: 0 <= k < |ledger| && ledger[k].symbol == symbol && ledger[k].price == price
                        && (forall j :: k < j < |ledger| ==> ledger[j].symbol != symbol)
  {
    ledger[LastIndex(ledger, symbol)].price
  }

  // ---------------------------------------------------------------------------
  // Open positions

  /** The value of a holding: net quantity times price. */
  function MarketValue(net: int, price: real): (v: real)
    ensures v == 0.0 <==> net == 0 || price == 0.0
    ensures price > 0.0 ==> (v > 0.0 <==> net > 0)
  {
    (net as real) * price
  }

  /** `p` is the open position of its symbol as the ledger defines it. */
  predicate Describes(ledger: seq<TradeRecord>, p: Position) {
    && p.netQuantity == NetQuantity(ledger, p.symbol)
    && p.netQuantity != 0
    && Appears(ledger, p.symbol)
    && p.price == LastPrice(ledger, p.symbol)
    && p.currentValue == MarketValue(p.netQuantity, p.price)
  }

  function SymbolsOf(ps: seq<Position>): (symbols: seq<string>)
    ensures |symbols| == |ps|
    ensures forall i :: 0 <= i < |ps| ==> symbols[i] == ps[i].symbol
  {
    seq(|ps|, i requires 0 <= i < |ps| => ps[i].symbol)
  }

  /** The position a symbol contributes: none when its net quantity is 0. */
  function PositionOf(ledger: seq<TradeRecord>, symbol: string): (ps: seq<Position>)
    ensures |ps| <= 1
    ensures forall i :: 0 <= i < |ps| ==> Describes(ledger, ps[i]) && ps[i].symbol == symbol
    ensures ps == [] <==> NetQuantity(ledger, symbol) == 0
  {
    var net := NetQuantity(ledger, symbol);
    if net == 0 then []
    else
      var price := LastPrice(ledger, symbol);
      [Position(symbol, net, price, MarketValue(net, price))]
  }

  ghost predicate PositionsOfSpec(ledger: seq<TradeRecord>, symbols: seq<string>, ps: seq<Position>) {
    && (forall i :: 0 <= i < |ps| ==> Describes(ledger, ps[i]))
    && (forall s :: s in SymbolsOf(ps) <==> s in symbols && NetQuantity(ledger, s) != 0)
    && (InFirstAppearanceOrder(ledger, symbols) ==> InFirstAppearanceOrder(ledger, SymbolsOf(ps)))
  }

  lemma SymbolsOfAppend(a: seq<Position>, b: seq<Position>)
    ensures SymbolsOf(a + b) == SymbolsOf(a) + SymbolsOf(b)
  {
  }

  /** Appending the position of a symbol first seen after all earlier ones
      keeps the positions in order of first appearance. */
  lemma OrderStep(ledger: seq<TradeRecord>, symbols: seq<string>, earlier: seq<Position>, own: seq<Position>)
    requires |symbols| > 0 && InFirstAppearanceOrder(ledger, symbols)
    requires forall t :: t in SymbolsOf(earlier) ==> t in symbols[..|symbols| - 1]
    requires InFirstAppearanceOrder(ledger, SymbolsOf(earlier))
    requires forall i :: 0 <= i < |own| ==> own[i].symbol == symbols[|symbols| - 1]
    requires |own| <= 1
    ensures InFirstAppearanceOrder(ledger, SymbolsOf(earlier + own))
  {
    SymbolsOfAppend(earlier, own);
    if own == [] {
      assert earlier + own == earlier;
    } else {
      var s, es := symbols[|symbols| - 1], SymbolsOf(earlier);
      assert SymbolsOf(own) == [s];
      assert Appears(ledger, s);
      forall i | 0 <= i < |es| ensures FirstIndex(ledger, es[i]) < FirstIndex(ledger, s) {
        assert es[i] in es;
        BeforeLast(ledger, symbols, es[i]);
      }
      AppendOrder(ledger, es, s);
    }
  }

  /** A symbol listed before the last one first appears before it. */
  lemma BeforeLast(ledger: seq<TradeRecord>, symbols: seq<string>, t: string)
    requires |symbols| > 0 && InFirstAppearanceOrder(ledger, symbols)
    requires t in symbols[..|symbols| - 1]
    ensures Appears(ledger, t) && FirstIndex(ledger, t) < FirstIndex(ledger, symbols[|symbols| - 1])
  {
    var n := |symbols| - 1;
    var k :| 0 <= k < n && symbols[..n][k] == t;
    assert symbols[k] == t;
  }

  /** Appending a symbol that first appears after all listed ones keeps the order. */
  lemma AppendOrder(ledger: seq<TradeRecord>, es: seq<string>, s: string)
    requires InFirstAppearanceOrder(ledger, es) && Appears(ledger, s)
    requires forall i :: 0 <= i < |es| ==> FirstIndex(ledger, es[i]) < FirstIndex(ledger, s)
    ensures InFirstAppearanceOrder(ledger, es + [s])
  {
    var all := es + [s];
    assert forall i :: 0 <= i < |es| ==> all[i] == es[i];
    assert all[|es|] == s;
  }

  lemma PositionsStep(ledger: seq<TradeRecord>, symbols: seq<string>, earlier: seq<Position>)
    requires |symbols| > 0
    requires PositionsOfSpec(ledger, symbols[..|symbols| - 1], earlier)
    ensures PositionsOfSpec(ledger, symbols, earlier + PositionOf(ledger, symbols[|symbols| - 1]))
  {
    var n := |symbols| - 1;
    var s := symbols[n];
    var own := PositionOf(ledger, s);
    SymbolsOfAppend(earlier, own);
    DescribesStep(ledger, earlier, own);
    assert SymbolsOf(own) == if own == [] then [] else [s];
    MembersStep(ledger, symbols, SymbolsOf(earlier), SymbolsOf(own));
    if InFirstAppearanceOrder(ledger, symbols) {
      assert InFirstAppearanceOrder(ledger, symbols[..n]) by {
        assert forall i :: 0 <= i < n ==> symbols[..n][i] == symbols[i];
      }
      OrderStep(ledger, symbols, earlier, own);
    }
  }

  lemma DescribesStep(ledger: seq<TradeRecord>, earlier: seq<Position>, own: seq<Position>)
    requires forall i :: 0 <= i < |earlier| ==> Describes(ledger, earlier[i])
    requires forall i :: 0 <= i < |own| ==> Describes(ledger, own[i])
    ensures forall i :: 0 <= i < |earlier + own| ==> Describes(ledger, (earlier + own)[i])
  {
    forall i | 0 <= i < |earlier + own| ensures Describes(ledger, (earlier + own)[i]) {
      if i < |earlier| {
        assert (earlier + own)[i] == earlier[i];
      } else {
        assert (earlier + own)[i] == own[i - |earlier|];
      }
    }
  }

  /** Listing one more symbol adds it to the held symbols exactly when its net is nonzero. */
  lemma MembersStep(ledger: seq<TradeRecord>, symbols: seq<string>, held: seq<string>, added: seq<string>)
    requires |symbols| > 0
    requires forall s :: s in held <==> s in symbols[..|symbols| - 1] && NetQuantity(ledger, s) != 0
    requires added == if NetQuantity(ledger, symbols[|symbols| - 1]) == 0 then [] else [symbols[|symbols| - 1]]
    ensures forall s :: s in held + added <==> s in symbols && NetQuantity(ledger, s) != 0
  {
    var n := |symbols| - 1;
    assert symbols == symbols[..n] + [symbols[n]];
  }

  /** The open positions of the given symbols, in their order: a symbol with
      net quantity 0 is skipped. */
  function PositionsOf(ledger: seq<TradeRecord>, symbols: seq<string>): (ps: seq<Position>)
    ensures PositionsOfSpec(ledger, symbols, ps)
  {
    if symbols == [] then []
    else
      var earlier := PositionsOf(ledger, symbols[..|symbols| - 1]);
      PositionsStep(ledger, symbols, earlier);
      earlier + PositionOf(ledger, symbols[|symbols| - 1])
  }

  lemma PositionsOfExtend(ledger: seq<TradeRecord>, symbols: seq<string>, i: nat)
    requires i < |symbols|
    ensures PositionsOf(ledger, symbols[..i + 1]) == PositionsOf(ledger, symbols[..i]) + PositionOf(ledger, symbols[i])
  {
    assert symbols[..i + 1][..i] == symbols[..i];
  }

  /** The ledger's open positions: every symbol with a nonzero net quantity,
      exactly once, in order of first appearance, with its net quantity, last
      price and value. */
  function OpenPositions(ledger: seq<TradeRecord>): (ps: seq<Position>)
    ensures forall i :: 0 <= i < |ps| ==> Describes(ledger, ps[i])
    ensures forall s :: s in SymbolsOf(ps) <==> Appears(ledger, s) && NetQuantity(ledger, s) != 0
    ensures InFirstAppearanceOrder(ledger, SymbolsOf(ps))
  {
    PositionsOf(ledger, DistinctSymbols(ledger))
  }

  /** A fully closed position is not reported. */
  lemma ClosedPositionOmitted(ledger: seq<TradeRecord>, symbol: string)
    requires Bought(ledger, symbol) == Sold(ledger, symbol)
    ensures symbol !in SymbolsOf(OpenPositions(ledger))
  {
    NetIsBoughtMinusSold(ledger, symbol);
  }

  // ---------------------------------------------------------------------------
  // Weights

  function Abs(x: real): real {
    if x < 0.0 then -x else x
  }

  /** Sum of the absolute position values. */
  function TotalExposure(ps: seq<Position>): (total: real)
    ensures total >= 0.0
  {
    if ps == [] then 0.0 else TotalExposure(ps[..|ps| - 1]) + Abs(ps[|ps| - 1].currentValue)
  }

  lemma {:induction false} ExposureBound(ps: seq<Position>, i: nat)
    requires i < |ps|
    ensures Abs(ps[i].currentValue) <= TotalExposure(ps)
  {
    var n := |ps| - 1;
    if i < n {
      ExposureBound(ps[..n], i);
    }
  }

  lemma ExposureBounds(ps: seq<Position>)
    ensures forall i :: 0 <= i < |ps| ==> Abs(ps[i].currentValue) <= TotalExposure(ps)
  {
    forall i | 0 <= i < |ps| {
      ExposureBound(ps, i);
    }
  }

  /** Each position's absolute value as a share of `total`. */
  function Weighted(ps: seq<Position>, total: real): (ws: seq<WeightedPosition>)
    requires total > 0.0
    ensures |ws| == |ps|
  {
    seq(|ps|, i requires 0 <= i < |ps| =>
      WeightedPosition(ps[i].symbol, ps[i].netQuantity, ps[i].price, ps[i].currentValue, ShareOf(Abs(ps[i].currentValue), total)))
  }

  /** `part` as a fraction of `total`. */
  function ShareOf(part: real, total: real): (w: real)
    requires total > 0.0
    ensures w * total == part
    ensures 0.0 <= part <= total ==> 0.0 <= w <= 1.0
  {
    part / total
  }

  function SumOfWeights(ws: seq<WeightedPosition>): real {
    if ws == [] then 0.0 else SumOfWeights(ws[..|ws| - 1]) + ws[|ws| - 1].weight
  }

  lemma AddShares(a: real, b: real, total: real)
    requires total > 0.0
    ensures a / total + b / total == (a + b) / total
  {
  }

  lemma Whole(total: real)
    requires total > 0.0
    ensures total / total == 1.0
  {
  }

  lemma {:induction false} SumOfWeighted(ps: seq<Position>, total: real)
    requires total > 0.0
    ensures SumOfWeights(Weighted(ps, total)) == TotalExposure(ps) / total
  {
    var ws := Weighted(ps, total);
    if ps != [] {
      var n := |ps| - 1;
      assert ws[..n] == Weighted(ps[..n], total);
      SumOfWeighted(ps[..n], total);
      AddShares(TotalExposure(ps[..n]), Abs(ps[n].currentValue), total);
    }
  }

  /** The ledger supplies a usable exposure: either no position is open, or
      the open positions are not all worth 0 (which would divide 0 by 0). */
  predicate ExposureDefined(ledger: seq<TradeRecord>) {
    OpenPositions(ledger) == [] || TotalExposure(OpenPositions(ledger)) > 0.0
  }

  /** The weights table of the ledger. */
  function StockWeights(ledger: seq<TradeRecord>): (ws: seq<WeightedPosition>)
    requires ExposureDefined(ledger)
    ensures |ws| == |OpenPositions(ledger)|
  {
    var ps := OpenPositions(ledger);
    if ps == [] then [] else Weighted(ps, TotalExposure(ps))
  }

  /** Each weighted row repeats its position and carries the position's
      share of `total`, which lies in [0, 1]. */
  lemma WeightedShares(ps: seq<Position>, total: real)
    requires total > 0.0 && forall i :: 0 <= i < |ps| ==> Abs(ps[i].currentValue) <= total
    ensures forall i :: 0 <= i < |ps| ==>
      var w := Weighted(ps, total)[i];
      && w == WeightedPosition(ps[i].symbol, ps[i].netQuantity, ps[i].price, ps[i].currentValue, w.weight)
      && w.weight == ShareOf(Abs(ps[i].currentValue), total)
      && 0.0 <= w.weight <= 1.0
  {
    forall i | 0 <= i < |ps| {
      WeightedRow(ps, total, i);
    }
  }

  lemma WeightedRow(ps: seq<Position>, total: real, i: nat)
    requires total > 0.0 && i < |ps| && Abs(ps[i].currentValue) <= total
    ensures Weighted(ps, total)[i] == WeightedPosition(ps[i].symbol, ps[i].netQuantity, ps[i].price, ps[i].currentValue, Weighted(ps, total)[i].weight)
    ensures Weighted(ps, total)[i].weight == ShareOf(Abs(ps[i].currentValue), total)
    ensures 0.0 <= Weighted(ps, total)[i].weight <= 1.0
  {
  }

  /** Every row of the weights table is an open position with its weight
      |value| / sum of |value|, and each weight lies in [0, 1]. */
  lemma WeightsNormalised(ledger: seq<TradeRecord>)
    requires ExposureDefined(ledger)
    ensures forall i :: 0 <= i < |StockWeights(ledger)| ==>
      var w, p := StockWeights(ledger)[i], OpenPositions(ledger)[i];
      && w == WeightedPosition(p.symbol, p.netQuantity, p.price, p.currentValue, w.weight)
      && w.weight == ShareOf(Abs(p.currentValue), TotalExposure(OpenPositions(ledger)))
      && 0.0 <= w.weight <= 1.0
  {
    var ps := OpenPositions(ledger);
    if ps != [] {
      var total := TotalExposure(ps);
      var ws := StockWeights(ledger);
      assert ws == Weighted(ps, total);
      ExposureBounds(ps);
      WeightedShares(ps, total);
      forall i | 0 <= i < |ws|
        ensures ws[i] == WeightedPosition(ps[i].symbol, ps[i].netQuantity, ps[i].price, ps[i].currentValue, ws[i].weight)
        ensures ws[i].weight == ShareOf(Abs(ps[i].currentValue), total)
        ensures 0.0 <= ws[i].weight <= 1.0
      {
        assert ws[i] == Weighted(ps, total)[i];
      }
    }
  }

  /** The weights sum to 1 unless no position is open. */
  lemma WeightsSumToOne(ledger: seq<TradeRecord>)
    requires ExposureDefined(ledger)
    ensures StockWeights(ledger) != [] ==> SumOfWeights(StockWeights(ledger)) == 1.0
  {
    var ps := OpenPositions(ledger);
    if ps != [] {
      var total := TotalExposure(ps);
      assert StockWeights(ledger) == Weighted(ps, total);
      SumOfWeighted(ps, total);
      Whole(total);
    }
  }

  /** One pass of the collecting loop: the position built for the i-th symbol
      extends the positions of the symbols before it. */
  lemma CollectStep(ledger: seq<TradeRecord>, symbols: seq<string>, i: nat, positions: seq<Position>, own: seq<Position>)
    requires i < |symbols| && positions == PositionsOf(ledger, symbols[..i])
    requires own == PositionOf(ledger, symbols[i])
    ensures positions + own == PositionsOf(ledger, symbols[..i + 1])
  {
    PositionsOfExtend(ledger, symbols, i);
  }

  /** Once every distinct symbol has been visited, the collected positions
      are the open positions. */
  lemma AllCollected(ledger: seq<TradeRecord>, symbols: seq<string>, positions: seq<Position>)
    requires symbols == DistinctSymbols(ledger) && positions == PositionsOf(ledger, symbols[..|symbols|])
    ensures positions == OpenPositions(ledger)
  {
    assert symbols[..|symbols|] == symbols;
  }

  /** Builds the weights table the way the dashboard does: one pass over the
      distinct symbols collecting open positions, then the weight column. */
  method CalculateStockWeights(ledger: seq<TradeRecord>) returns (table: seq<WeightedPosition>)
    requires ExposureDefined(ledger)
    ensures table == StockWeights(ledger)
  {
    var symbols := DistinctSymbols(ledger);
    var positions: seq<Position> := [];
    for i := 0 to |symbols|
      invariant positions == PositionsOf(ledger, symbols[..i])
    {
      var symbol := symbols[i];
      var net := NetQuantity(ledger, symbol);
      var own: seq<Position> := [];
      if net != 0 {
        var price := LastPrice(ledger, symbol);
        own := [Position(symbol, net, price, MarketValue(net, price))];
      }
      CollectStep(ledger, symbols, i, positions, own);
      positions := positions + own;
    }
    AllCollected(ledger, symbols, positions);
    if positions != [] {
      var total := TotalExposure(positions);
      table := Weighted(positions, total);
    } else {
      table := [];
    }
  }
}
