/** Fills and the price and fee arithmetic shared by every execution path. */
module Fills {

  type Symbol = string

  datatype Side = Buy | Sell

  datatype Fill = Fill(symbol: Symbol, side: Side, qty: real, price: real, fee: real)

  function Signed(side: Side, qty: real): real {
    if side == Buy then qty else -qty
  }

  function TradeValue(f: Fill): real {
    f.qty * f.price
  }

  /** What a fill does to a cash balance. */
  function CashFlow(f: Fill): real {
    (if f.side == Buy then -TradeValue(f) else TradeValue(f)) - f.fee
  }

  function Abs(x: real): real {
    if x < 0.0 then -x else x
  }

  /** The pessimistic market price: a buy pays the slippage, a sell gives it up. */
  function ComputeFillPrice(isBuy: bool, bestPrice: real, slippageBps: int): real {
    var slip := slippageBps as real / 10000.0;
    if isBuy then bestPrice + bestPrice * slip else bestPrice - bestPrice * slip
  }

  function ComputeFee(qty: real, fillPrice: real, feeBps: int): real {
    qty * fillPrice * (feeBps as real) / 10000.0
  }

  /** Both in basis points, of which ten thousand are the whole: the price moves by `slippageBps` of the quote, and
      the fee is `feeBps` of the value traded. */
  lemma BasisPoints(isBuy: bool, bestPrice: real, slippageBps: int, qty: real, feeBps: int)
    ensures ComputeFillPrice(isBuy, bestPrice, slippageBps) * 10000.0
         == bestPrice * (if isBuy then 10000.0 + slippageBps as real else 10000.0 - slippageBps as real)
    ensures ComputeFee(qty, bestPrice, feeBps) * 10000.0 == qty * bestPrice * (feeBps as real)
  {
    var slip := slippageBps as real / 10000.0;
    assert bestPrice * slip * 10000.0 == bestPrice * (slip * 10000.0);
  }

  /** Both prices deviate from the quote by the same slippage, against the trader. */
  lemma FillIsPessimistic(bestPrice: real, slippageBps: int)
    requires bestPrice >= 0.0 && slippageBps >= 0
    ensures ComputeFillPrice(false, bestPrice, slippageBps) <= bestPrice
    ensures bestPrice <= ComputeFillPrice(true, bestPrice, slippageBps)
    ensures ComputeFillPrice(true, bestPrice, slippageBps) - bestPrice
         == bestPrice - ComputeFillPrice(false, bestPrice, slippageBps)
         == bestPrice * (slippageBps as real / 10000.0)
  {
    assert bestPrice * (slippageBps as real / 10000.0) >= 0.0;
  }

  /** Buying and selling the same quantity at quotes that have not risen between never earns anything. */
  lemma RoundTripNeverGains(qty: real, ask: real, bid: real, slippageBps: int, feeBps: int)
    requires qty >= 0.0 && 0.0 <= bid <= ask && 0 <= slippageBps <= 10000 && feeBps >= 0
    ensures var buyPrice := ComputeFillPrice(true, ask, slippageBps);
            var sellPrice := ComputeFillPrice(false, bid, slippageBps);
            CashFlow(Fill("", Buy, qty, buyPrice, ComputeFee(qty, buyPrice, feeBps)))
            + CashFlow(Fill("", Sell, qty, sellPrice, ComputeFee(qty, sellPrice, feeBps))) <= 0.0
  {
    var buyPrice, sellPrice := ComputeFillPrice(true, ask, slippageBps), ComputeFillPrice(false, bid, slippageBps);
    FillIsPessimistic(ask, slippageBps);
    FillIsPessimistic(bid, slippageBps);
    SellPriceNotNegative(bid, slippageBps);
    FeeNotNegative(qty, buyPrice, feeBps);
    FeeNotNegative(qty, sellPrice, feeBps);
    ProductNotNegative(qty, buyPrice - sellPrice);
    assert qty * (buyPrice - sellPrice) == qty * buyPrice - qty * sellPrice;
  }

  lemma ProductNotNegative(x: real, y: real)
    requires x >= 0.0 && y >= 0.0
    ensures x * y >= 0.0
  {
  }

  lemma SellPriceNotNegative(bid: real, slippageBps: int)
    requires bid >= 0.0 && 0 <= slippageBps <= 10000
    ensures ComputeFillPrice(false, bid, slippageBps) >= 0.0
  {
    var slip := slippageBps as real / 10000.0;
    assert bid * (1.0 - slip) >= 0.0;
    assert bid * (1.0 - slip) == bid - bid * slip;
  }

  lemma FeeNotNegative(qty: real, price: real, feeBps: int)
    requires qty >= 0.0 && price >= 0.0 && feeBps >= 0
    ensures ComputeFee(qty, price, feeBps) >= 0.0
  {
    assert qty * price >= 0.0;
    assert qty * price * (feeBps as real) >= 0.0;
  }

  /** The running total held under a key that may be absent. */
  function AmountOf(m: map<Symbol, real>, s: Symbol): real {
    if s in m then m[s] else 0.0
  }

  // ----- sums over maps

  /** The sum of all values, taken in whatever order the keys are met. */
  ghost function Sum(m: map<Symbol, real>): real
    decreases |m|
  {
    if m == map[] then 0.0
    else
      var s :| s in m;
      m[s] + Sum(m - {s})
  }

  /** The order in which keys are met does not matter. */
  lemma {:induction false} SumWithout(m: map<Symbol, real>, s: Symbol)
    requires s in m
    ensures Sum(m) == m[s] + Sum(m - {s})
    decreases |m|
  {
    var t :| t in m && Sum(m) == m[t] + Sum(m - {t});
    if t != s {
      SumWithout(m - {t}, s);
      SumWithout(m - {s}, t);
      assert m - {t} - {s} == m - {s} - {t};
    }
  }

  lemma SumUpdate(m: map<Symbol, real>, s: Symbol, x: real)
    ensures Sum(m[s := x]) == Sum(m) - AmountOf(m, s) + x
  {
    var m' := m[s := x];
    SumWithout(m', s);
    assert m' - {s} == m - {s};
    if s in m {
      SumWithout(m, s);
    } else {
      assert m - {s} == m;
    }
  }

  lemma {:induction false} SumOfZeros(m: map<Symbol, real>)
    requires forall s | s in m :: m[s] == 0.0
    ensures Sum(m) == 0.0
    decreases |m|
  {
    if m != map[] {
      var s :| s in m;
      SumWithout(m, s);
      SumOfZeros(m - {s});
    }
  }
}
