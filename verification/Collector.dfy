/** The result collector's equity tracker. */
module Collector {
  import opened Fills

  datatype State = State(cash: real, positions: map<Symbol, real>, lastFillPrice: map<Symbol, real>)

  function Fresh(initialCapital: real): State {
    State(initialCapital, map[], map[])
  }

  function AddFill(s: State, f: Fill): State {
    State(s.cash + CashFlow(f),
          s.positions[f.symbol := AmountOf(s.positions, f.symbol) + Signed(f.side, f.qty)],
          s.lastFillPrice[f.symbol := f.price])
  }

  /** What an open position is worth at its last fill price. */
  function Worth(s: State, sym: Symbol): real {
    AmountOf(s.positions, sym) * AmountOf(s.lastFillPrice, sym)
  }

  ghost function Worths(s: State): map<Symbol, real> {
    map sym | sym in s.positions :: Worth(s, sym)
  }

  /** Cash plus all open positions at their last fill price. */
  ghost function Equity(s: State): real {
    s.cash + Sum(Worths(s))
  }

  class EquityTracker {
    var cash: real
    var positions: map<Symbol, real>
    var lastFillPrice: map<Symbol, real>

    ghost function Abs(): State
      reads this
    {
      State(cash, positions, lastFillPrice)
    }

    constructor (initialCapital: real)
      ensures Abs() == Fresh(initialCapital)
    {
      cash, positions, lastFillPrice := initialCapital, map[], map[];
    }

    /** The map may be met in any order: the equity is the same. */
    method ApplyFill(f: Fill) returns (equity: real)
      modifies this
      ensures Abs() == AddFill(old(Abs()), f)
      ensures equity == Equity(Abs())
    {
      lastFillPrice := lastFillPrice[f.symbol := f.price];
      var tradeValue := TradeValue(f);
      if f.side == Buy {
        cash := cash - tradeValue - f.fee;
        positions := positions[f.symbol := AmountOf(positions, f.symbol) + f.qty];
      } else {
        cash := cash + tradeValue - f.fee;
        positions := positions[f.symbol := AmountOf(positions, f.symbol) - f.qty];
      }
      equity := EquityNow();
    }

    method EquityNow() returns (equity: real)
      ensures equity == Equity(Abs())
    {
      equity := cash;
      var rest := positions.Keys;
      ghost var worths := Worths(Abs());
      ghost var left := worths;
      assert left.Keys == rest;
      while rest != {}
        invariant rest <= positions.Keys && left.Keys == rest
        invariant forall s | s in left :: left[s] == Worth(Abs(), s)
        invariant equity + Sum(left) == Equity(Abs())
        decreases rest
      {
        var sym :| sym in rest;
        SumWithout(left, sym);
        if positions[sym] != 0.0 && sym in lastFillPrice {
          equity := equity + positions[sym] * lastFillPrice[sym];
        }
        rest := rest - {sym};
        left := left - {sym};
      }
    }
  }
}
