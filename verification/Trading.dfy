/** The two execution paths over the same book events: the backtest executor, which computes the imbalance
    itself, and the live handler, which is fed signals and prices from a cache. */
module Trading {
  import opened Fills
  import opened Levels
  import opened Options
  import R = RiskChecker
  import B = Blotter

  datatype Strategy = Strategy(
    tradeQty: real,
    buyThreshold: real,
    sellThreshold: real,
    slippageBps: int,
    takerFeeBps: int,
    risk: R.Config)

  datatype BookEvent = BookEvent(symbol: Symbol, eventTime: int, bids: seq<Level>, asks: seq<Level>)

  /** A filled order as published: identifiers aside, its fill and the event time it carries over. */
  datatype Order = Order(fill: Fill, eventTime: int)

  datatype Signal = Signal(symbol: Symbol, eventTime: int, name: string, value: real)

  // ----- signals

  function Counted(levels: seq<Level>, depth: int): nat {
    if depth > 0 && depth < |levels| then depth else |levels|
  }

  function QtySum(levels: seq<Level>): real {
    if levels == [] then 0.0 else QtySum(levels[..|levels| - 1]) + levels[|levels| - 1].qty
  }

  method SumQty(levels: seq<Level>, depth: int) returns (total: real)
    ensures total == QtySum(levels[..Counted(levels, depth)])
  {
    total := 0.0;
    var i := 0;
    while i < |levels|
      invariant 0 <= i <= Counted(levels, depth)
      invariant total == QtySum(levels[..i])
    {
      if depth > 0 && i >= depth {
        break;
      }
      assert levels[..i + 1][..i] == levels[..i];
      total := total + levels[i].qty;
      i := i + 1;
    }
  }

  function BookImbalance(bids: seq<Level>, asks: seq<Level>, depth: int): real {
    var bidQty := QtySum(bids[..Counted(bids, depth)]);
    var askQty := QtySum(asks[..Counted(asks, depth)]);
    if bidQty + askQty == 0.0 then 0.0 else (bidQty - askQty) / (bidQty + askQty)
  }

  ghost predicate NoNegativeQty(levels: seq<Level>) {
    forall i | 0 <= i < |levels| :: levels[i].qty >= 0.0
  }

  lemma {:induction false} QtySumNotNegative(levels: seq<Level>)
    requires NoNegativeQty(levels)
    ensures QtySum(levels) >= 0.0
  {
    if levels != [] {
      QtySumNotNegative(levels[..|levels| - 1]);
    }
  }

  /** What the imbalance says: it lies between -1 and 1, is positive exactly when more is bid than asked within
      the depth, changes sign with the sides, and depends on nothing beyond the depth. */
  lemma ImbalanceMeaning(bids: seq<Level>, asks: seq<Level>, depth: nat)
    requires NoNegativeQty(bids) && NoNegativeQty(asks) && depth > 0
    ensures -1.0 <= BookImbalance(bids, asks, depth) <= 1.0
    ensures BookImbalance(bids, asks, depth) > 0.0
       <==> QtySum(bids[..Counted(bids, depth)]) > QtySum(asks[..Counted(asks, depth)])
    ensures BookImbalance(asks, bids, depth) == -BookImbalance(bids, asks, depth)
    ensures BookImbalance(bids[..Counted(bids, depth)], asks[..Counted(asks, depth)], depth)
         == BookImbalance(bids, asks, depth)
  {
    var top, bottom := bids[..Counted(bids, depth)], asks[..Counted(asks, depth)];
    QtySumNotNegative(top);
    QtySumNotNegative(bottom);
    assert top[..|top|] == top && bottom[..|bottom|] == bottom;
    ShareOf(QtySum(top), QtySum(bottom));
  }

  lemma ShareOf(b: real, a: real)
    requires b >= 0.0 && a >= 0.0
    ensures b + a != 0.0 ==> -1.0 <= (b - a) / (b + a) <= 1.0
    ensures b + a != 0.0 ==> ((b - a) / (b + a) > 0.0 <==> b > a)
    ensures b + a != 0.0 ==> (a - b) / (a + b) == -((b - a) / (b + a))
  {
    if b + a != 0.0 {
      var x := (b - a) / (b + a);
      assert x * (b + a) == b - a;
      assert (1.0 - x) * (b + a) == 2.0 * a;
      assert (1.0 + x) * (b + a) == 2.0 * b;
    }
  }

  /** The imbalance is the surplus of bids over asks as a share of both together, and zero when there is neither. */
  lemma ImbalanceIs(bids: seq<Level>, asks: seq<Level>, depth: int)
    ensures var b, a := QtySum(bids[..Counted(bids, depth)]), QtySum(asks[..Counted(asks, depth)]);
            && (b + a != 0.0 ==> BookImbalance(bids, asks, depth) * (b + a) == b - a)
            && (b + a == 0.0 ==> BookImbalance(bids, asks, depth) == 0.0)
  {
    var b, a := QtySum(bids[..Counted(bids, depth)]), QtySum(asks[..Counted(asks, depth)]);
    if b + a != 0.0 {
      assert (b - a) / (b + a) * (b + a) == b - a;
    }
  }

  /** What is summed: quantities, each once. */
  lemma {:induction false} QtySumIs(xs: seq<Level>, ys: seq<Level>)
    ensures QtySum([]) == 0.0
    ensures forall l: Level :: QtySum([l]) == l.qty
    ensures QtySum(xs + ys) == QtySum(xs) + QtySum(ys)
  {
    forall l: Level
      ensures QtySum([l]) == l.qty
    {
      assert [l][..0] == [];
    }
    if ys == [] {
      assert xs + ys == xs;
    } else {
      var init, last := ys[..|ys| - 1], ys[|ys| - 1];
      QtySumIs(xs, init);
      assert (xs + ys)[..|xs + ys| - 1] == xs + init;
    }
  }

  /** How many levels count: `depth` if there are so many, and all if `depth` is not positive. */
  lemma CountedIs(levels: seq<Level>, depth: int)
    ensures depth <= 0 || |levels| <= depth ==> Counted(levels, depth) == |levels|
    ensures 0 < depth <= |levels| ==> Counted(levels, depth) == depth
  {
  }

  function SpreadBps(ev: BookEvent): real {
    if ev.bids == [] || ev.asks == [] then 0.0
    else
      var mid := (ev.bids[0].price + ev.asks[0].price) / 2.0;
      if mid == 0.0 then 0.0 else (ev.asks[0].price - ev.bids[0].price) / mid * 10000.0
  }

  function MidPrice(ev: BookEvent): real {
    if ev.bids == [] || ev.asks == [] then 0.0 else (ev.bids[0].price + ev.asks[0].price) / 2.0
  }

  /** The signals computed for one event, in the order they are published. */
  function AllSignals(ev: BookEvent, depth: int): seq<Signal> {
    [Signal(ev.symbol, ev.eventTime, "book_imbalance", BookImbalance(ev.bids, ev.asks, depth)),
     Signal(ev.symbol, ev.eventTime, "spread_bps", SpreadBps(ev)),
     Signal(ev.symbol, ev.eventTime, "mid_price", MidPrice(ev))]
  }

  /** The three signals of an event: the imbalance, the spread in basis points of the mid price, and the mid price. */
  lemma SignalsAre(ev: BookEvent, depth: int)
    ensures var sigs := AllSignals(ev, depth);
            && |sigs| == 3
            && (forall i | 0 <= i < 3 :: sigs[i].symbol == ev.symbol && sigs[i].eventTime == ev.eventTime)
            && sigs[0].name == "book_imbalance" && sigs[0].value == BookImbalance(ev.bids, ev.asks, depth)
            && sigs[1].name == "spread_bps" && sigs[2].name == "mid_price"
            && (ev.bids != [] && ev.asks != [] ==>
                  && sigs[2].value * 2.0 == ev.bids[0].price + ev.asks[0].price
                  && (sigs[2].value != 0.0 ==>
                        sigs[1].value * sigs[2].value == (ev.asks[0].price - ev.bids[0].price) * 10000.0))
  {
    if ev.bids != [] && ev.asks != [] && MidPrice(ev) != 0.0 {
      var gap, mid := ev.asks[0].price - ev.bids[0].price, MidPrice(ev);
      assert gap / mid * mid == gap;
      assert gap / mid * 10000.0 * mid == gap / mid * mid * 10000.0;
    }
  }

  // ----- the backtest executor

  function TradeDecision(cfg: Strategy, imbalance: real, qty: real): Option<Side> {
    if imbalance > cfg.buyThreshold && qty <= 0.0 then Some(Buy)
    else if imbalance < -cfg.sellThreshold && qty >= 0.0 then Some(Sell)
    else None
  }

  /** The best price on the side an order crosses, if that side is not empty. */
  function CrossedPrice(side: Side, bids: seq<Level>, asks: seq<Level>): Option<real> {
    if side == Buy then (if asks == [] then None else Some(asks[0].price))
    else if bids == [] then None else Some(bids[0].price)
  }

  function FillAt(cfg: Strategy, symbol: Symbol, side: Side, bestPrice: real): Fill {
    var price := ComputeFillPrice(side == Buy, bestPrice, cfg.slippageBps);
    Fill(symbol, side, cfg.tradeQty, price, ComputeFee(cfg.tradeQty, price, cfg.takerFeeBps))
  }

  lemma ShareAbove(b: real, a: real, x: real, threshold: real)
    requires b + a > 0.0 && x * (b + a) == b - a
    ensures x > threshold <==> b - a > threshold * (b + a)
    ensures x < -threshold <==> a - b > threshold * (b + a)
  {
    var t := b + a;
    assert (x - threshold) * t == b - a - threshold * t;
    assert (x + threshold) * t == b - a + threshold * t;
    SameSign(x - threshold, t);
    SameSign(-(x + threshold), t);
  }

  lemma SameSign(x: real, t: real)
    requires t > 0.0
    ensures x * t > 0.0 <==> x > 0.0
  {
  }

  /** The decision in quantities: of what rests within the depth, a buy needs a surplus of bids above the threshold's
      share and no long position, a sell a surplus of asks and no short position. */
  lemma DecisionIs(cfg: Strategy, bids: seq<Level>, asks: seq<Level>, depth: int, qty: real)
    requires QtySum(bids[..Counted(bids, depth)]) + QtySum(asks[..Counted(asks, depth)]) > 0.0
    ensures var b, a := QtySum(bids[..Counted(bids, depth)]), QtySum(asks[..Counted(asks, depth)]);
            var decision := TradeDecision(cfg, BookImbalance(bids, asks, depth), qty);
            var buys := b - a > cfg.buyThreshold * (b + a) && qty <= 0.0;
            && (decision == Some(Buy) <==> buys)
            && (decision == Some(Sell) <==> !buys && a - b > cfg.sellThreshold * (b + a) && qty >= 0.0)
  {
    var b, a := QtySum(bids[..Counted(bids, depth)]), QtySum(asks[..Counted(asks, depth)]);
    ImbalanceIs(bids, asks, depth);
    ShareAbove(b, a, BookImbalance(bids, asks, depth), cfg.buyThreshold);
    ShareAbove(b, a, BookImbalance(bids, asks, depth), cfg.sellThreshold);
  }

  /** A fill of the configured quantity at the quote, worsened by the slippage, with the taker's fee. */
  lemma FillIs(cfg: Strategy, symbol: Symbol, side: Side, bestPrice: real)
    ensures var f := FillAt(cfg, symbol, side, bestPrice);
            && f.symbol == symbol && f.side == side && f.qty == cfg.tradeQty
            && (side == Buy ==> f.price * 10000.0 == bestPrice * (10000.0 + cfg.slippageBps as real))
            && (side == Sell ==> f.price * 10000.0 == bestPrice * (10000.0 - cfg.slippageBps as real))
            && f.fee * 10000.0 == cfg.tradeQty * f.price * (cfg.takerFeeBps as real)
  {
    BasisPoints(side == Buy, bestPrice, cfg.slippageBps, cfg.tradeQty, cfg.takerFeeBps);
    BasisPoints(true, FillAt(cfg, symbol, side, bestPrice).price, 0, cfg.tradeQty, cfg.takerFeeBps);
  }

  /** One symbol's position, the shared checker and the orders published so far. */
  datatype Desk = Desk(qty: real, checker: R.State, orders: seq<Order>)

  function DeskAfter(cfg: Strategy, d: Desk, ev: BookEvent): Desk {
    var decision := TradeDecision(cfg, BookImbalance(ev.bids, ev.asks, 10), d.qty);
    if decision.None? then d
    else
      var side := decision.value;
      var (checker, verdict) := R.CheckTrade(cfg.risk, d.checker, ev.symbol, side, cfg.tradeQty, R.NoStore);
      var price := CrossedPrice(side, ev.bids, ev.asks);
      if verdict != R.Approved || price.None? then d.(checker := checker)
      else
        var fill := FillAt(cfg, ev.symbol, side, price.value);
        Desk(d.qty + Signed(side, fill.qty), R.AddFill(checker, fill), d.orders + [Order(fill, ev.eventTime)])
  }

  /** One book event at the desk: nothing happens without a decision; a decision is put to the checker; and only if it
      approves and the crossed side has a price is one order published, at that price and with the event's time, the
      position moved by its quantity, and the checker told of the fill. */
  lemma DeskIs(cfg: Strategy, d: Desk, ev: BookEvent)
    ensures var d', decision := DeskAfter(cfg, d, ev), TradeDecision(cfg, BookImbalance(ev.bids, ev.asks, 10), d.qty);
            match decision
            case None => d' == d
            case Some(side) =>
              var (checker, verdict) := R.CheckTrade(cfg.risk, d.checker, ev.symbol, side, cfg.tradeQty, R.NoStore);
              var crossed := if side == Buy then ev.asks else ev.bids;
              if verdict == R.Approved && crossed != [] then
                var f := FillAt(cfg, ev.symbol, side, crossed[0].price);
                && d'.orders == d.orders + [Order(f, ev.eventTime)]
                && d'.qty == d.qty + (if side == Buy then cfg.tradeQty else -cfg.tradeQty)
                && d'.checker == R.AddFill(checker, f)
              else d'.orders == d.orders && d'.qty == d.qty && d'.checker == checker
  {
  }

  class PositionState {
    var qty: real

    constructor ()
      ensures qty == 0.0
    {
      qty := 0.0;
    }
  }

  class Executor {
    const cfg: Strategy
    const risk: R.Checker

    var orders: seq<Order>

    constructor (cfg: Strategy, risk: R.Checker)
      ensures this.cfg == cfg && this.risk == risk && orders == []
    {
      this.cfg, this.risk := cfg, risk;
      orders := [];
    }

    /** Whether the order stream accepts an order makes no difference to the executor's state. */
    method HandleL2(pos: PositionState, ev: BookEvent)
      requires risk.cfg == cfg.risk
      modifies this, pos, risk
      ensures Desk(pos.qty, risk.Abs(), orders) == DeskAfter(cfg, old(Desk(pos.qty, risk.Abs(), orders)), ev)
    {
      var bidQty := SumQty(ev.bids, 10);
      var askQty := SumQty(ev.asks, 10);
      var imbalance := if bidQty + askQty == 0.0 then 0.0 else (bidQty - askQty) / (bidQty + askQty);
      var decision := TradeDecision(cfg, imbalance, pos.qty);
      if decision.None? {
        return;
      }
      var side := decision.value;
      var verdict := risk.CanTrade(ev.symbol, side, cfg.tradeQty, R.NoStore);
      if verdict != R.Approved {
        return;
      }
      var bestPrice := CrossedPrice(side, ev.bids, ev.asks);
      if bestPrice.None? {
        return;
      }
      var fill := FillAt(cfg, ev.symbol, side, bestPrice.value);
      if side == Buy {
        pos.qty := pos.qty + fill.qty;
      } else {
        pos.qty := pos.qty - fill.qty;
      }
      orders := orders + [Order(fill, ev.eventTime)];
      risk.RecordFill(fill);
    }
  }

  // ----- the live handler

  datatype Direction = Flat | Long | Short

  function DirectionOf(netQty: real): Direction {
    if netQty == 0.0 then Flat else if netQty > 0.0 then Long else Short
  }

  function Decide(cfg: Strategy, sig: Signal, pos: Direction): Option<Side> {
    if sig.name != "book_imbalance" then None
    else if sig.value > cfg.buyThreshold && (pos == Flat || pos == Short) then Some(Buy)
    else if sig.value < -cfg.sellThreshold && (pos == Flat || pos == Long) then Some(Sell)
    else None
  }

  datatype BestPrice = BestPrice(bid: real, ask: real)

  function FirstPrice(levels: seq<Level>): real {
    if levels == [] then 0.0 else levels[0].price
  }

  /** The cache keeps its old entry when either best price is missing or zero. */
  function CacheAfter(prices: map<Symbol, BestPrice>, ev: BookEvent): map<Symbol, BestPrice> {
    var bid, ask := FirstPrice(ev.bids), FirstPrice(ev.asks);
    if bid == 0.0 || ask == 0.0 then prices else prices[ev.symbol := BestPrice(bid, ask)]
  }

  /** The cache holds the best prices of the last event of a symbol that had both; other events leave it alone. */
  lemma CacheIs(prices: map<Symbol, BestPrice>, ev: BookEvent)
    ensures var after := CacheAfter(prices, ev);
            && (forall s | s != ev.symbol :: (s in after <==> s in prices) && (s in prices ==> after[s] == prices[s]))
            && if ev.bids != [] && ev.asks != [] && ev.bids[0].price != 0.0 && ev.asks[0].price != 0.0 then
                 ev.symbol in after && after[ev.symbol] == BestPrice(ev.bids[0].price, ev.asks[0].price)
               else after == prices
  {
  }

  datatype Live = Live(blotter: B.State, checker: R.State, prices: map<Symbol, BestPrice>, orders: seq<Order>)

  /** A fill that cannot be persisted is neither recorded by the checker nor published. */
  function ExecuteFill(cfg: Strategy, l: Live, sig: Signal, side: Side, stored: bool): Live
    requires cfg.tradeQty >= 0.0
  {
    if sig.symbol !in l.prices then l
    else
      var best := l.prices[sig.symbol];
      var fill := FillAt(cfg, sig.symbol, side, if side == Buy then best.ask else best.bid);
      var l' := l.(blotter := B.AddFill(l.blotter, fill, stored));
      if stored then
        l'.(checker := R.AddFill(l.checker, fill), orders := l.orders + [Order(fill, sig.eventTime)])
      else l'
  }

  function HandleSignal(cfg: Strategy, l: Live, sig: Signal, probe: R.Probe, stored: bool): Live
    requires cfg.tradeQty >= 0.0
  {
    var decision := Decide(cfg, sig, DirectionOf(B.PositionOf(l.blotter.positions, sig.symbol).netQty));
    if decision.None? then l
    else
      var (checker, verdict) := R.CheckTrade(cfg.risk, l.checker, sig.symbol, decision.value, cfg.tradeQty, probe);
      if verdict != R.Approved then l.(checker := checker)
      else ExecuteFill(cfg, l.(checker := checker), sig, decision.value, stored)
  }

  /** A fill that the store refuses is neither published nor known to the checker, and leaves the blotter's equity, rows
      and quantities as they were. */
  lemma RefusedFill(cfg: Strategy, l: Live, sig: Signal, side: Side)
    requires cfg.tradeQty >= 0.0
    ensures var l' := ExecuteFill(cfg, l, sig, side, false);
            && l'.orders == l.orders && l'.checker == l.checker && l'.prices == l.prices
            && l'.blotter.equity == l.blotter.equity && l'.blotter.rows == l.blotter.rows
            && forall s :: B.PositionOf(l'.blotter.positions, s).netQty == B.PositionOf(l.blotter.positions, s).netQty
  {
  }

  class LiveHandler {
    const cfg: Strategy
    const risk: R.Checker
    const blot: B.Blotter

    var prices: map<Symbol, BestPrice>
    var orders: seq<Order>

    ghost predicate Valid()
      reads this, blot
    {
      cfg.tradeQty >= 0.0 && risk.cfg == cfg.risk && blot.Valid()
    }

    ghost function Abs(): Live
      reads this, risk, blot, blot.Objects()
    {
      Live(blot.Abs(), risk.Abs(), prices, orders)
    }

    constructor (cfg: Strategy)
      requires cfg.tradeQty >= 0.0
      ensures Valid() && fresh(risk) && fresh(blot) && fresh(blot.Objects())
      ensures this.cfg == cfg && Abs() == Opened(cfg)
    {
      this.cfg := cfg;
      risk := new R.Checker(cfg.risk);
      blot := new B.Blotter(cfg.risk.initialCapital);
      prices, orders := map[], [];
    }

    method HandleMessage(ev: BookEvent)
      requires Valid()
      modifies this`prices
      ensures Valid() && Abs() == old(Abs()).(prices := CacheAfter(old(prices), ev))
    {
      var bid, ask := FirstPrice(ev.bids), FirstPrice(ev.asks);
      if bid == 0.0 || ask == 0.0 {
        return;
      }
      prices := prices[ev.symbol := BestPrice(bid, ask)];
    }

    /** Fails exactly when a fill was due and could not be persisted, so that the signal is delivered again. */
    method Handle(sig: Signal, probe: R.Probe, stored: bool) returns (ok: bool)
      requires Valid()
      modifies this, risk, blot, blot.Objects()
      ensures Valid() && fresh(blot.Objects() - old(blot.Objects()))
      ensures Abs() == HandleSignal(cfg, old(Abs()), sig, probe, stored)
      ensures ok <==> stored || HandleSignal(cfg, old(Abs()), sig, probe, true).orders == old(orders)
    {
      var netQty := blot.GetPosition(sig.symbol);
      var decision := Decide(cfg, sig, DirectionOf(netQty));
      if decision.None? {
        return true;
      }
      var side := decision.value;
      var verdict := risk.CanTrade(sig.symbol, side, cfg.tradeQty, probe);
      if verdict != R.Approved {
        return true;
      }
      ok := Execute(sig, side, stored);
    }

    method Execute(sig: Signal, side: Side, stored: bool) returns (ok: bool)
      requires Valid()
      modifies this, risk, blot, blot.Objects()
      ensures Valid() && fresh(blot.Objects() - old(blot.Objects()))
      ensures Abs() == ExecuteFill(cfg, old(Abs()), sig, side, stored)
      ensures ok <==> stored || sig.symbol !in prices
    {
      if sig.symbol !in prices {
        return true;
      }
      var best := prices[sig.symbol];
      var bestPrice := if side == Buy then best.ask else best.bid;
      var fill := FillAt(cfg, sig.symbol, side, bestPrice);
      ok := blot.RecordFill(fill, stored);
      if !ok {
        return;
      }
      RecordOrder(fill, sig.eventTime);
    }

    method RecordOrder(fill: Fill, eventTime: int)
      requires Valid()
      modifies this`orders, risk
      ensures Valid()
      ensures Abs() == old(Abs()).(checker := R.AddFill(old(risk.Abs()), fill),
                                   orders := old(orders) + [Order(fill, eventTime)])
    {
      risk.RecordFill(fill);
      orders := orders + [Order(fill, eventTime)];
    }
  }

  /** A fresh session. */
  function Opened(cfg: Strategy): Live {
    Live(B.State(cfg.risk.initialCapital, map[], []), R.Fresh(cfg.risk), map[], [])
  }
}
