/** The blotter, the risk checker and the collector keep three ledgers of the same fills.
    What each of them calls equity, and when the three agree. */
module Ledgers {
  import opened Fills
  import B = Blotter
  import R = RiskChecker
  import C = Collector

  // ----- folding fills

  function BlotterAfter(initial: real, fills: seq<Fill>): B.State
    requires Quantities(fills)
  {
    if fills == [] then B.State(initial, map[], [])
    else B.AddFill(BlotterAfter(initial, fills[..|fills| - 1]), fills[|fills| - 1], true)
  }

  function CheckerAfter(cfg: R.Config, fills: seq<Fill>): R.State {
    if fills == [] then R.Fresh(cfg) else R.AddFill(CheckerAfter(cfg, fills[..|fills| - 1]), fills[|fills| - 1])
  }

  function TrackerAfter(initial: real, fills: seq<Fill>): C.State {
    if fills == [] then C.Fresh(initial) else C.AddFill(TrackerAfter(initial, fills[..|fills| - 1]), fills[|fills| - 1])
  }

  /** The cash balance: every fill paid for in full. */
  function CashAfter(initial: real, fills: seq<Fill>): real {
    if fills == [] then initial else CashAfter(initial, fills[..|fills| - 1]) + CashFlow(fills[|fills| - 1])
  }

  function NetOf(s: Symbol, fills: seq<Fill>): real {
    if fills == [] then 0.0
    else
      var f := fills[|fills| - 1];
      NetOf(s, fills[..|fills| - 1]) + if f.symbol == s then Signed(f.side, f.qty) else 0.0
  }

  ghost predicate Quantities(fills: seq<Fill>) {
    forall i | 0 <= i < |fills| :: fills[i].qty >= 0.0
  }

  /** The fill closes more than is open. */
  predicate Overshoots(p: B.Position, f: Fill) {
    B.Closes(p, f.side) && f.qty > Abs(p.netQty)
  }

  /** No fill of the list closes more than was open when it came. */
  ghost predicate NeverOvershoots(initial: real, fills: seq<Fill>)
    ensures NeverOvershoots(initial, fills) ==> Quantities(fills)
  {
    fills == [] ||
    var init, f := fills[..|fills| - 1], fills[|fills| - 1];
    && NeverOvershoots(initial, init)
    && f.qty >= 0.0
    && !Overshoots(B.PositionOf(BlotterAfter(initial, init).positions, f.symbol), f)
  }

  /** One more fill, in all folds at once. */
  lemma FoldsSnoc(cfg: R.Config, fills: seq<Fill>, f: Fill)
    requires NeverOvershoots(cfg.initialCapital, fills) && f.qty >= 0.0
    requires !Overshoots(B.PositionOf(BlotterAfter(cfg.initialCapital, fills).positions, f.symbol), f)
    ensures NeverOvershoots(cfg.initialCapital, fills + [f])
    ensures BlotterAfter(cfg.initialCapital, fills + [f]) == B.AddFill(BlotterAfter(cfg.initialCapital, fills), f, true)
    ensures CheckerAfter(cfg, fills + [f]) == R.AddFill(CheckerAfter(cfg, fills), f)
  {
    assert (fills + [f])[..|fills|] == fills;
  }

  // ----- what the open positions cost

  function CostOf(p: B.Position): real {
    p.netQty * p.avgEntry
  }

  ghost function Costs(ps: map<Symbol, B.Position>): map<Symbol, real> {
    map s | s in ps :: CostOf(ps[s])
  }

  /** The sum over all symbols of net quantity times average entry. */
  ghost function OpenCost(ps: map<Symbol, B.Position>): real {
    Sum(Costs(ps))
  }

  lemma OpenCostUpdate(ps: map<Symbol, B.Position>, s: Symbol, p: B.Position)
    ensures OpenCost(ps[s := p]) == OpenCost(ps) - CostOf(B.PositionOf(ps, s)) + CostOf(p)
  {
    assert Costs(ps[s := p]) == Costs(ps)[s := CostOf(p)];
    SumUpdate(Costs(ps), s, CostOf(p));
  }

  /** For one position: realised profit less the cost released, against the cash the trade moved. */
  function Discrepancy(p: B.Position, f: Fill): real
    requires f.qty >= 0.0
  {
    var (p', pnl) := B.FillPosition(p, f.side, f.qty, f.price);
    pnl - (CashFlow(f) + f.fee) - (CostOf(p') - CostOf(p))
  }

  /** Extending, opening and closing at most what is open balance; the surplus of a closing fill is written
      off at the average entry. */
  lemma DiscrepancyIs(p: B.Position, f: Fill)
    requires f.qty >= 0.0
    ensures Discrepancy(p, f)
         == if Overshoots(p, f) then p.avgEntry * (p.netQty + Signed(f.side, f.qty)) else 0.0
  {
    if B.Closes(p, f.side) {
      ClosingDiscrepancy(p, f);
    } else if p.netQty != 0.0 {
      VwapCost(p, f);
    }
  }

  lemma ClosingDiscrepancy(p: B.Position, f: Fill)
    requires f.qty >= 0.0 && B.Closes(p, f.side)
    ensures Discrepancy(p, f)
         == if Overshoots(p, f) then p.avgEntry * (p.netQty + Signed(f.side, f.qty)) else 0.0
  {
    ClosingProfit(p, f);
    ClosingCost(p, f);
  }

  lemma Distribute(x: real, y: real, z: real)
    ensures (x + y) * z == x * z + y * z
    ensures z * (x + y) == x * z + y * z
  {
  }

  lemma ClosingCost(p: B.Position, f: Fill)
    requires f.qty >= 0.0 && B.Closes(p, f.side)
    ensures CostOf(B.FillPosition(p, f.side, f.qty, f.price).0)
         == CostOf(p) + p.avgEntry * Signed(f.side, f.qty)
            - if Overshoots(p, f) then p.avgEntry * (p.netQty + Signed(f.side, f.qty)) else 0.0
  {
    var q := Signed(f.side, f.qty);
    Distribute(p.netQty, q, p.avgEntry);
    var p' := B.FillPosition(p, f.side, f.qty, f.price).0;
    if p'.avgEntry == 0.0 && p.netQty + q == 0.0 {
      assert p.avgEntry * (p.netQty + q) == 0.0;
    }
  }

  lemma ClosingProfit(p: B.Position, f: Fill)
    requires f.qty >= 0.0 && B.Closes(p, f.side)
    ensures B.FillPosition(p, f.side, f.qty, f.price).1 == p.avgEntry * Signed(f.side, f.qty) + CashFlow(f) + f.fee
  {
    assert (f.price - p.avgEntry) * f.qty == f.price * f.qty - p.avgEntry * f.qty;
    assert p.avgEntry * -f.qty == -(p.avgEntry * f.qty);
  }

  /** Extending adds the price paid to the cost of the position. */
  lemma VwapCost(p: B.Position, f: Fill)
    requires f.qty >= 0.0 && p.netQty != 0.0 && !B.Closes(p, f.side)
    ensures CostOf(B.FillPosition(p, f.side, f.qty, f.price).0) == CostOf(p) - (CashFlow(f) + f.fee)
  {
    var open := Abs(p.netQty);
    VwapTotal(open, p.avgEntry, f.qty, f.price);
    var avg := B.Vwap(open, p.avgEntry, f.qty, f.price);
    assert B.FillPosition(p, f.side, f.qty, f.price).0 == B.Position(p.netQty + Signed(f.side, f.qty), avg);
    Negate(open + f.qty, avg);
    Negate(open, p.avgEntry);
  }

  lemma VwapTotal(open: real, avg: real, qty: real, price: real)
    requires open + qty != 0.0
    ensures (open + qty) * B.Vwap(open, avg, qty, price) == open * avg + qty * price
  {
    var total := open * avg + qty * price;
    assert (open + qty) * (total / (open + qty)) == total;
  }

  lemma Negate(x: real, y: real)
    ensures (-x) * y == -(x * y)
  {
  }

  /** Closing realises the difference to the average entry, which stays as long as something is left on the same side
      and is zero otherwise. */
  lemma ClosingIs(p: B.Position, f: Fill)
    requires if f.side == Sell then p.netQty > 0.0 else p.netQty < 0.0
    ensures var (p', pnl) := B.FillPosition(p, f.side, f.qty, f.price);
            && p'.netQty == p.netQty + (if f.side == Buy then f.qty else -f.qty)
            && pnl == (if f.side == Sell then f.price - p.avgEntry else p.avgEntry - f.price) * f.qty
            && p'.avgEntry == if (p.netQty > 0.0 <==> p'.netQty > 0.0) && p'.netQty != 0.0 then p.avgEntry else 0.0
  {
  }

  /** Opening realises nothing and enters at the price. */
  lemma OpeningIs(p: B.Position, f: Fill)
    requires p.netQty == 0.0
    ensures B.FillPosition(p, f.side, f.qty, f.price)
         == (B.Position(if f.side == Buy then f.qty else -f.qty, f.price), 0.0)
  {
  }

  /** A fill on the side that is open realises nothing, and enters at the average weighted by volume. */
  lemma ExtendingIs(p: B.Position, f: Fill)
    requires B.HasAverage(p, f.side, f.qty) && if f.side == Buy then p.netQty > 0.0 else p.netQty < 0.0
    ensures var (p', pnl) := B.FillPosition(p, f.side, f.qty, f.price);
            && pnl == 0.0 && p'.netQty == p.netQty + (if f.side == Buy then f.qty else -f.qty)
            && p'.avgEntry * (Abs(p.netQty) + f.qty) == Abs(p.netQty) * p.avgEntry + f.qty * f.price
  {
    VwapTotal(Abs(p.netQty), p.avgEntry, f.qty, f.price);
  }

  /** What an accepted fill persists: itself, what it realised, the position it led to, which is the one now held, and
      the new equity.  No other position changes. */
  lemma AcceptedIs(b: B.State, f: Fill)
    requires B.HasAverage(B.PositionOf(b.positions, f.symbol), f.side, f.qty)
    ensures var b' := B.AddFill(b, f, true);
            var (p', pnl) := B.FillPosition(B.PositionOf(b.positions, f.symbol), f.side, f.qty, f.price);
            && b'.equity == b.equity + pnl - f.fee
            && B.PositionOf(b'.positions, f.symbol) == p'
            && (forall s | s != f.symbol :: B.PositionOf(b'.positions, s) == B.PositionOf(b.positions, s))
            && |b'.rows| == |b.rows| + 1 && b'.rows[..|b.rows|] == b.rows
            && var row := b'.rows[|b.rows|];
               row.fill == f && row.realisedPnl == pnl && row.position == p' && row.equity == b'.equity
  {
  }

  // ----- the blotter's identity

  /** The blotter's equity is cash plus the cost of the open positions. */
  ghost predicate Balanced(b: B.State, cash: real) {
    b.equity == cash + OpenCost(b.positions)
  }

  /** Exactly when does a persisted fill keep the books balanced?  If and only if it does not close more than
      is open, or what it closes was carried at an average entry of zero. */
  lemma BalanceKeptIff(b: B.State, cash: real, f: Fill)
    requires f.qty >= 0.0 && Balanced(b, cash)
    ensures Balanced(B.AddFill(b, f, true), cash + CashFlow(f))
       <==> !Overshoots(B.PositionOf(b.positions, f.symbol), f) || B.PositionOf(b.positions, f.symbol).avgEntry == 0.0
  {
    var p := B.PositionOf(b.positions, f.symbol);
    BalanceMoves(b, cash, f);
    DiscrepancyIs(p, f);
    if Overshoots(p, f) {
      NonzeroProduct(p.avgEntry, p.netQty + Signed(f.side, f.qty));
    }
  }

  /** A persisted fill moves the balance by the discrepancy of its position. */
  lemma BalanceMoves(b: B.State, cash: real, f: Fill)
    requires f.qty >= 0.0
    ensures B.AddFill(b, f, true).equity - (cash + CashFlow(f)) - OpenCost(B.AddFill(b, f, true).positions)
         == b.equity - cash - OpenCost(b.positions) + Discrepancy(B.PositionOf(b.positions, f.symbol), f)
  {
    var p' := B.FillPosition(B.PositionOf(b.positions, f.symbol), f.side, f.qty, f.price).0;
    OpenCostUpdate(b.positions, f.symbol, p');
  }

  lemma NonzeroProduct(x: real, y: real)
    requires y != 0.0
    ensures x * y == 0.0 <==> x == 0.0
  {
    if x * y == 0.0 {
      assert x == (x * y) / y;
    }
  }

  /** Against a cash ledger, for arbitrary fills that never close more than is open, VWAP extension included:
      blotter equity = cash + cost of the open positions. */
  lemma {:induction false} BlotterIdentity(initial: real, fills: seq<Fill>)
    requires NeverOvershoots(initial, fills)
    ensures Balanced(BlotterAfter(initial, fills), CashAfter(initial, fills))
  {
    if fills == [] {
      SumOfZeros(Costs(map[]));
    } else {
      var init, f := fills[..|fills| - 1], fills[|fills| - 1];
      BlotterIdentity(initial, init);
      BalanceKeptIff(BlotterAfter(initial, init), CashAfter(initial, init), f);
    }
  }

  /** The sum of what the persisted rows realised, less their fees. */
  function Realised(rows: seq<B.Row>): real {
    if rows == [] then 0.0
    else Realised(rows[..|rows| - 1]) + rows[|rows| - 1].realisedPnl - rows[|rows| - 1].fill.fee
  }

  // ----- sessions with refused fills

  /** A fill handed to the blotter, and whether the store accepted it. */
  datatype Attempt = Attempt(fill: Fill, stored: bool)

  ghost predicate AttemptQuantities(attempts: seq<Attempt>) {
    forall i | 0 <= i < |attempts| :: attempts[i].fill.qty >= 0.0
  }

  function SessionAfter(initial: real, attempts: seq<Attempt>): B.State
    requires AttemptQuantities(attempts)
  {
    if attempts == [] then B.State(initial, map[], [])
    else
      var last := attempts[|attempts| - 1];
      B.AddFill(SessionAfter(initial, attempts[..|attempts| - 1]), last.fill, last.stored)
  }

  function Accepted(attempts: seq<Attempt>): seq<Fill> {
    if attempts == [] then []
    else
      var last := attempts[|attempts| - 1];
      Accepted(attempts[..|attempts| - 1]) + if last.stored then [last.fill] else []
  }

  function RowFills(rows: seq<B.Row>): seq<Fill> {
    if rows == [] then [] else RowFills(rows[..|rows| - 1]) + [rows[|rows| - 1].fill]
  }

  /** One attempt keeps the equity equation, and adds a row exactly if the store accepts. */
  lemma AttemptKeepsModel(b: B.State, initial: real, f: Fill, stored: bool)
    requires f.qty >= 0.0 && b.equity == initial + Realised(b.rows)
    ensures var b' := B.AddFill(b, f, stored);
            && b'.equity == initial + Realised(b'.rows)
            && RowFills(b'.rows) == RowFills(b.rows) + (if stored then [f] else [])
            && (stored ==> b'.rows != [] && b'.rows[|b'.rows| - 1].equity == b'.equity)
            && (!stored ==> b'.rows == b.rows && b'.equity == b.equity)
  {
    var b' := B.AddFill(b, f, stored);
    if stored {
      assert b'.rows[..|b'.rows| - 1] == b.rows;
    }
  }

  /** What an attempt does to the quantities. */
  lemma AttemptQuantity(b: B.State, f: Fill, stored: bool, s: Symbol)
    requires f.qty >= 0.0
    ensures B.PositionOf(B.AddFill(b, f, stored).positions, s).netQty
         == B.PositionOf(b.positions, s).netQty + if stored && s == f.symbol then Signed(f.side, f.qty) else 0.0
  {
  }

  /** The documented equity model, in every session, whatever fills the store refused on the way: initial equity plus
      the realised profit less fees of the persisted rows; the rows are the accepted fills, in order; the last
      equity row is the equity; and every net quantity is that of the accepted fills. */
  lemma {:induction false} EquityModelKept(initial: real, attempts: seq<Attempt>)
    requires AttemptQuantities(attempts)
    ensures var b := SessionAfter(initial, attempts);
            && b.equity == initial + Realised(b.rows)
            && RowFills(b.rows) == Accepted(attempts)
            && (b.rows != [] ==> b.rows[|b.rows| - 1].equity == b.equity)
            && (forall s :: B.PositionOf(b.positions, s).netQty == NetOf(s, Accepted(attempts)))
  {
    if attempts != [] {
      var init, last := attempts[..|attempts| - 1], attempts[|attempts| - 1];
      EquityModelKept(initial, init);
      var b := SessionAfter(initial, init);
      AttemptKeepsModel(b, initial, last.fill, last.stored);
      forall s
        ensures B.PositionOf(SessionAfter(initial, attempts).positions, s).netQty == NetOf(s, Accepted(attempts))
      {
        AttemptQuantity(b, last.fill, last.stored, s);
        AcceptedNet(s, init, last);
      }
    }
  }

  /** And after every accepted attempt of every session the last position row is the position then held. */
  lemma LastPositionHeld(initial: real, attempts: seq<Attempt>)
    requires AttemptQuantities(attempts) && attempts != [] && attempts[|attempts| - 1].stored
    ensures var b, f := SessionAfter(initial, attempts), attempts[|attempts| - 1].fill;
            b.rows != [] && b.rows[|b.rows| - 1].position == B.PositionOf(b.positions, f.symbol)
  {
    AcceptedIs(SessionAfter(initial, attempts[..|attempts| - 1]), attempts[|attempts| - 1].fill);
  }

  lemma AcceptedNet(s: Symbol, init: seq<Attempt>, last: Attempt)
    ensures NetOf(s, Accepted(init) + if last.stored then [last.fill] else [])
         == NetOf(s, Accepted(init))
            + if last.stored && s == last.fill.symbol then Signed(last.fill.side, last.fill.qty) else 0.0
  {
    var fills := Accepted(init);
    assert (fills + [last.fill])[..|fills|] == fills && fills + [] == fills;
  }

  // ----- failed persistence

  /** After a refused fill equity and quantity are as before.  The average entry stays where the fill moved it, and so
      the position is as before if and only if the fill would not have moved the average entry. */
  lemma RollbackIff(b: B.State, f: Fill)
    requires f.qty >= 0.0
    ensures var b' := B.AddFill(b, f, false);
            var p, p' := B.PositionOf(b.positions, f.symbol), B.PositionOf(b'.positions, f.symbol);
            && b'.equity == b.equity && b'.rows == b.rows && p'.netQty == p.netQty
            && p'.avgEntry == B.FillPosition(p, f.side, f.qty, f.price).0.avgEntry
            && (forall s | s != f.symbol :: B.PositionOf(b'.positions, s) == B.PositionOf(b.positions, s))
            && (p' == p <==> KeepsEntry(p, f))
  {
    var p := B.PositionOf(b.positions, f.symbol);
    if !B.Closes(p, f.side) && p.netQty != 0.0 {
      MovedVwap(Abs(p.netQty), p.avgEntry, f.qty, f.price);
    }
  }

  /** A fill leaves the average entry alone when it closes part of the position, or closes a position carried
      at zero, or adds nothing, or adds at the average entry. */
  predicate KeepsEntry(p: B.Position, f: Fill) {
    if B.Closes(p, f.side) then f.qty < Abs(p.netQty) || p.avgEntry == 0.0
    else f.price == p.avgEntry || (p.netQty != 0.0 && f.qty == 0.0)
  }

  lemma MovedVwap(open: real, avg: real, qty: real, price: real)
    requires open > 0.0 && qty >= 0.0
    ensures B.Vwap(open, avg, qty, price) == avg <==> price == avg || qty == 0.0
  {
    var v := B.Vwap(open, avg, qty, price);
    VwapTotal(open, avg, qty, price);
    Distribute(open, qty, avg);
    assert (open + qty) * (v - avg) == qty * (price - avg);
    NonzeroProduct(v - avg, open + qty);
    if qty != 0.0 {
      NonzeroProduct(price - avg, qty);
    }
  }

  /** Exactly when does a refused fill keep the books balanced?  If and only if the position is flat or the fill
      would not have moved its average entry. */
  lemma RefusedBalanceIff(b: B.State, cash: real, f: Fill)
    requires f.qty >= 0.0 && Balanced(b, cash)
    ensures Balanced(B.AddFill(b, f, false), cash) <==> HarmlessRefusal(b, f)
  {
    var p := B.PositionOf(b.positions, f.symbol);
    var p' := B.PositionOf(B.AddFill(b, f, false).positions, f.symbol);
    RollbackIff(b, f);
    RefusedState(b, f);
    RepositionedBalance(b, cash, f.symbol, p');
    SameCostIff(p, p');
  }

  lemma RefusedState(b: B.State, f: Fill)
    requires f.qty >= 0.0
    ensures B.AddFill(b, f, false)
         == b.(positions := b.positions[f.symbol := B.PositionOf(B.AddFill(b, f, false).positions, f.symbol)])
  {
  }

  lemma RepositionedBalance(b: B.State, cash: real, s: Symbol, p': B.Position)
    requires Balanced(b, cash)
    ensures Balanced(b.(positions := b.positions[s := p']), cash)
       <==> CostOf(B.PositionOf(b.positions, s)) == CostOf(p')
  {
    OpenCostUpdate(b.positions, s, p');
  }

  lemma SameCostIff(p: B.Position, p': B.Position)
    requires p.netQty == p'.netQty
    ensures CostOf(p) == CostOf(p') <==> p.netQty == 0.0 || p == p'
  {
    Distribute(p'.avgEntry - p.avgEntry, p.avgEntry, p.netQty);
    if p.netQty != 0.0 {
      NonzeroProduct(p'.avgEntry - p.avgEntry, p.netQty);
    }
  }

  predicate HarmlessRefusal(b: B.State, f: Fill) {
    var p := B.PositionOf(b.positions, f.symbol);
    p.netQty == 0.0 || KeepsEntry(p, f)
  }

  /** Every accepted fill closes at most what is open, and every refused one is harmless. */
  ghost predicate Accountable(initial: real, attempts: seq<Attempt>)
    ensures Accountable(initial, attempts) ==> AttemptQuantities(attempts)
  {
    attempts == [] ||
    var init, last := attempts[..|attempts| - 1], attempts[|attempts| - 1];
    && Accountable(initial, init)
    && last.fill.qty >= 0.0
    && var b := SessionAfter(initial, init);
       if last.stored then !Overshoots(B.PositionOf(b.positions, last.fill.symbol), last.fill)
       else HarmlessRefusal(b, last.fill)
  }

  /** The identity of the blotter carries over to sessions with refused fills: equity = cash of the accepted fills
      plus the cost of the open positions. */
  lemma {:induction false} SessionIdentity(initial: real, attempts: seq<Attempt>)
    requires Accountable(initial, attempts)
    ensures Balanced(SessionAfter(initial, attempts), CashAfter(initial, Accepted(attempts)))
  {
    if attempts == [] {
      SumOfZeros(Costs(map[]));
    } else {
      var init, last := attempts[..|attempts| - 1], attempts[|attempts| - 1];
      var b, cash := SessionAfter(initial, init), CashAfter(initial, Accepted(init));
      SessionIdentity(initial, init);
      if last.stored {
        BalanceKeptIff(b, cash, last.fill);
        assert (Accepted(init) + [last.fill])[..|Accepted(init)|] == Accepted(init);
      } else {
        RefusedBalanceIff(b, cash, last.fill);
        assert Accepted(attempts) == Accepted(init);
      }
    }
  }

  // ----- the three ledgers

  /** All three ledgers hold the same net position in every symbol, and the checker's equity and the tracker's
      cash are the cash balance. */
  lemma {:induction false} SameCashAndPositions(cfg: R.Config, fills: seq<Fill>, s: Symbol)
    requires Quantities(fills)
    ensures B.PositionOf(BlotterAfter(cfg.initialCapital, fills).positions, s).netQty == NetOf(s, fills)
    ensures AmountOf(CheckerAfter(cfg, fills).positions, s) == NetOf(s, fills)
    ensures AmountOf(TrackerAfter(cfg.initialCapital, fills).positions, s) == NetOf(s, fills)
    ensures CheckerAfter(cfg, fills).equity == CashAfter(cfg.initialCapital, fills)
    ensures TrackerAfter(cfg.initialCapital, fills).cash == CashAfter(cfg.initialCapital, fills)
  {
    if fills != [] {
      SameCashAndPositions(cfg, fills[..|fills| - 1], s);
    }
  }

  /** The price of the last fill of a symbol. */
  function LastPriceOf(s: Symbol, fills: seq<Fill>): real {
    if fills == [] then 0.0
    else if fills[|fills| - 1].symbol == s then fills[|fills| - 1].price
    else LastPriceOf(s, fills[..|fills| - 1])
  }

  /** The tracker values every position at the price of its symbol's last fill. */
  lemma {:induction false} TrackerMarks(initial: real, fills: seq<Fill>, s: Symbol)
    ensures var c := TrackerAfter(initial, fills);
            && AmountOf(c.positions, s) == NetOf(s, fills) && AmountOf(c.lastFillPrice, s) == LastPriceOf(s, fills)
            && (s in c.positions <==> exists i | 0 <= i < |fills| :: fills[i].symbol == s)
  {
    if fills != [] {
      var init := fills[..|fills| - 1];
      TrackerMarks(initial, init, s);
      if i :| 0 <= i < |fills| - 1 && fills[i].symbol == s {
        assert init[i].symbol == s;
      }
    }
  }

  ghost function TradedSymbols(fills: seq<Fill>): set<Symbol> {
    set i | 0 <= i < |fills| :: fills[i].symbol
  }

  function NetWorth(s: Symbol, fills: seq<Fill>): real {
    NetOf(s, fills) * LastPriceOf(s, fills)
  }

  /** Net quantity times last fill price, for every symbol traded. */
  ghost function NetWorths(fills: seq<Fill>): map<Symbol, real> {
    map s | s in TradedSymbols(fills) :: NetWorth(s, fills)
  }

  /** At all times the tracker's equity is the checker's plus the net quantities at their last fill prices. */
  lemma TrackerOverChecker(cfg: R.Config, fills: seq<Fill>)
    requires Quantities(fills)
    ensures C.Equity(TrackerAfter(cfg.initialCapital, fills)) == CheckerAfter(cfg, fills).equity + Sum(NetWorths(fills))
  {
    SameCashAndPositions(cfg, fills, "");
    TrackerWorths(cfg.initialCapital, fills);
  }

  lemma TrackerWorths(initial: real, fills: seq<Fill>)
    ensures C.Worths(TrackerAfter(initial, fills)) == NetWorths(fills)
  {
    var c := TrackerAfter(initial, fills);
    forall s
      ensures s in c.positions <==> s in TradedSymbols(fills)
      ensures C.Worth(c, s) == NetWorth(s, fills)
    {
      TrackerWorth(initial, fills, s);
    }
  }

  lemma TrackerWorth(initial: real, fills: seq<Fill>, s: Symbol)
    ensures s in TrackerAfter(initial, fills).positions <==> s in TradedSymbols(fills)
    ensures C.Worth(TrackerAfter(initial, fills), s) == NetWorth(s, fills)
  {
    TrackerMarks(initial, fills, s);
  }

  /** Fed the same fills, none of which closes more than is open, from the same capital, the three modules
      report the same equity in every state in which all positions are flat. */
  lemma EquitiesCoincideWhenFlat(cfg: R.Config, fills: seq<Fill>)
    requires NeverOvershoots(cfg.initialCapital, fills)
    requires forall s :: NetOf(s, fills) == 0.0
    ensures BlotterAfter(cfg.initialCapital, fills).equity
         == CheckerAfter(cfg, fills).equity
         == C.Equity(TrackerAfter(cfg.initialCapital, fills))
  {
    FlatCosts(cfg, fills);
    FlatWorths(fills);
    BlotterOverChecker(cfg, fills);
    TrackerOverChecker(cfg, fills);
  }

  lemma FlatCosts(cfg: R.Config, fills: seq<Fill>)
    requires Quantities(fills) && forall s :: NetOf(s, fills) == 0.0
    ensures OpenCost(BlotterAfter(cfg.initialCapital, fills).positions) == 0.0
  {
    var ps := BlotterAfter(cfg.initialCapital, fills).positions;
    forall s | s in ps
      ensures CostOf(ps[s]) == 0.0
    {
      SameCashAndPositions(cfg, fills, s);
      assert NetOf(s, fills) == 0.0;
    }
    SumOfZeros(Costs(ps));
  }

  lemma FlatWorths(fills: seq<Fill>)
    requires forall s :: NetOf(s, fills) == 0.0
    ensures Sum(NetWorths(fills)) == 0.0
  {
    SumOfZeros(NetWorths(fills));
  }

  /** And in every state the blotter's equity exceeds the checker's by the cost of the open positions: opening
      a long position lowers the equity that the drawdown rule watches by its full price. */
  lemma BlotterOverChecker(cfg: R.Config, fills: seq<Fill>)
    requires NeverOvershoots(cfg.initialCapital, fills)
    ensures var b := BlotterAfter(cfg.initialCapital, fills);
            b.equity == CheckerAfter(cfg, fills).equity + OpenCost(b.positions)
  {
    BlotterIdentity(cfg.initialCapital, fills);
    SameCashAndPositions(cfg, fills, "");
  }
}
