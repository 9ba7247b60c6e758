/** Backtest and live execution, run over the same book events. */
module Bisimulation {
  import opened Fills
  import opened Levels
  import opened Options
  import opened Trading
  import R = RiskChecker
  import B = Blotter
  import C = Collector
  import L = Ledgers

  // ----- the two runs

  /** The backtest keeps one position per symbol loop, one shared checker and one order stream. */
  datatype Backtest = Backtest(positions: map<Symbol, real>, checker: R.State, orders: seq<Order>)

  function BacktestStep(cfg: Strategy, b: Backtest, ev: BookEvent): Backtest {
    var d := DeskAfter(cfg, Desk(AmountOf(b.positions, ev.symbol), b.checker, b.orders), ev);
    Backtest(b.positions[ev.symbol := d.qty], d.checker, d.orders)
  }

  /** The live path sees the event in the price cache and as three signals. */
  datatype Answers = Answers(probe: R.Probe, stored: bool)

  function LiveStep(cfg: Strategy, depth: int, l: Live, ev: BookEvent, a: Answers): Live
    requires cfg.tradeQty >= 0.0
  {
    var sigs := AllSignals(ev, depth);
    var l0 := l.(prices := CacheAfter(l.prices, ev));
    var l1 := HandleSignal(cfg, l0, sigs[0], a.probe, a.stored);
    var l2 := HandleSignal(cfg, l1, sigs[1], a.probe, a.stored);
    HandleSignal(cfg, l2, sigs[2], a.probe, a.stored)
  }

  function BacktestRun(cfg: Strategy, evs: seq<BookEvent>): Backtest {
    if evs == [] then Backtest(map[], R.Fresh(cfg.risk), [])
    else BacktestStep(cfg, BacktestRun(cfg, evs[..|evs| - 1]), evs[|evs| - 1])
  }

  function LiveRun(cfg: Strategy, depth: int, evs: seq<BookEvent>, answers: seq<Answers>): Live
    requires cfg.tradeQty >= 0.0 && |answers| == |evs|
  {
    if evs == [] then Opened(cfg)
    else
      var n := |evs| - 1;
      LiveStep(cfg, depth, LiveRun(cfg, depth, evs[..n], answers[..n]), evs[n], answers[n])
  }

  // ----- the relation

  /** Equal in everything but whether the halt store has been asked. */
  ghost predicate SameChecker(a: R.State, b: R.State) {
    a == b.(haltChecked := a.haltChecked)
  }

  ghost predicate Related(b: Backtest, l: Live) {
    && b.orders == l.orders
    && SameChecker(b.checker, l.checker)
    && (forall s :: AmountOf(b.positions, s) == B.PositionOf(l.blotter.positions, s).netQty)
  }

  /** A two-sided book with real best prices. */
  predicate TwoSided(ev: BookEvent) {
    ev.bids != [] && ev.asks != [] && ev.bids[0].price != 0.0 && ev.asks[0].price != 0.0
  }

  /** Signals other than the imbalance change nothing. */
  lemma OtherSignalsIgnored(cfg: Strategy, l: Live, sig: Signal, a: Answers)
    requires cfg.tradeQty >= 0.0 && sig.name != "book_imbalance"
    ensures HandleSignal(cfg, l, sig, a.probe, a.stored) == l
  {
  }

  lemma LiveStepIsImbalance(cfg: Strategy, depth: int, l: Live, ev: BookEvent, a: Answers)
    requires cfg.tradeQty >= 0.0
    ensures LiveStep(cfg, depth, l, ev, a)
         == HandleSignal(cfg, l.(prices := CacheAfter(l.prices, ev)), AllSignals(ev, depth)[0], a.probe, a.stored)
  {
    var sigs := AllSignals(ev, depth);
    assert sigs[1].name[0] == 's' && sigs[2].name[0] == 'm';
    var l1 := HandleSignal(cfg, l.(prices := CacheAfter(l.prices, ev)), sigs[0], a.probe, a.stored);
    OtherSignalsIgnored(cfg, l1, sigs[1], a);
    OtherSignalsIgnored(cfg, l1, sigs[2], a);
  }

  lemma SameDecision(cfg: Strategy, sig: Signal, qty: real)
    requires sig.name == "book_imbalance"
    ensures Decide(cfg, sig, DirectionOf(qty)) == TradeDecision(cfg, sig.value, qty)
  {
  }

  lemma SameVerdict(cfg: R.Config, a: R.State, b: R.State, symbol: Symbol, side: Side, qty: real, probe: R.Probe)
    requires SameChecker(a, b) && probe != R.Answered(true)
    ensures var (a', va) := R.CheckTrade(cfg, a, symbol, side, qty, R.NoStore);
            var (b', vb) := R.CheckTrade(cfg, b, symbol, side, qty, probe);
            va == vb && SameChecker(a', b')
  {
  }

  /** The two ways of keeping a position do the same to its quantity. */
  lemma SameQuantity(p: B.Position, f: Fill)
    requires f.qty >= 0.0
    ensures B.FillPosition(p, f.side, f.qty, f.price).0.netQty == p.netQty + Signed(f.side, f.qty)
  {
  }

  /** What recording a fill does to the quantities in a blotter. */
  lemma BlotterQuantity(b: B.State, f: Fill, s: Symbol)
    requires f.qty >= 0.0
    ensures B.PositionOf(B.AddFill(b, f, true).positions, s).netQty
         == B.PositionOf(b.positions, s).netQty + if s == f.symbol then Signed(f.side, f.qty) else 0.0
  {
    SameQuantity(B.PositionOf(b.positions, f.symbol), f);
  }

  /** Both paths record the same fill. */
  function Recorded(l: Live, f: Fill, time: int): Live
    requires f.qty >= 0.0
  {
    Live(B.AddFill(l.blotter, f, true), R.AddFill(l.checker, f), l.prices, l.orders + [Order(f, time)])
  }

  lemma RecordRelated(b: Backtest, l: Live, f: Fill, time: int)
    requires f.qty >= 0.0 && Related(b, l)
    ensures Related(Backtest(b.positions[f.symbol := AmountOf(b.positions, f.symbol) + Signed(f.side, f.qty)],
                             R.AddFill(b.checker, f), b.orders + [Order(f, time)]),
                    Recorded(l, f, time))
  {
    var l' := Recorded(l, f, time);
    var positions := b.positions[f.symbol := AmountOf(b.positions, f.symbol) + Signed(f.side, f.qty)];
    forall s
      ensures AmountOf(positions, s) == B.PositionOf(l'.blotter.positions, s).netQty
    {
      BlotterQuantity(l.blotter, f, s);
      assert AmountOf(b.positions, s) == B.PositionOf(l.blotter.positions, s).netQty;
    }
  }

  /** The price held for an order in the cache, if the symbol is there. */
  function HeldPrice(side: Side, prices: map<Symbol, BestPrice>, symbol: Symbol): Option<real> {
    if symbol !in prices then None else Some(if side == Buy then prices[symbol].ask else prices[symbol].bid)
  }

  /** Both paths on an approved order, given the price each of them finds. */
  function BacktestFill(cfg: Strategy, b: Backtest, ev: BookEvent, side: Side, price: Option<real>): Backtest {
    if price.None? then b
    else
      var f := FillAt(cfg, ev.symbol, side, price.value);
      Backtest(b.positions[f.symbol := AmountOf(b.positions, f.symbol) + Signed(f.side, f.qty)],
               R.AddFill(b.checker, f), b.orders + [Order(f, ev.eventTime)])
  }

  function LiveFill(cfg: Strategy, l: Live, ev: BookEvent, side: Side, price: Option<real>): Live
    requires cfg.tradeQty >= 0.0
  {
    if price.None? then l else Recorded(l, FillAt(cfg, ev.symbol, side, price.value), ev.eventTime)
  }

  lemma ExecuteIsFill(cfg: Strategy, l: Live, sig: Signal, side: Side, ev: BookEvent)
    requires cfg.tradeQty >= 0.0 && sig.symbol == ev.symbol && sig.eventTime == ev.eventTime
    ensures ExecuteFill(cfg, l, sig, side, true) == LiveFill(cfg, l, ev, side, HeldPrice(side, l.prices, sig.symbol))
  {
  }

  /** The slippage leaves nothing of the quote. */
  predicate WholePrice(cfg: Strategy, side: Side) {
    cfg.slippageBps == if side == Buy then -10000 else 10000
  }

  /** The same quote on both paths, or none; if the slippage is the whole price any two quotes will do. */
  predicate SameQuote(cfg: Strategy, side: Side, x: Option<real>, y: Option<real>) {
    x == y || (x.Some? && y.Some? && WholePrice(cfg, side))
  }

  lemma FillPriceTells(cfg: Strategy, side: Side, x: real, y: real)
    ensures ComputeFillPrice(side == Buy, x, cfg.slippageBps) == ComputeFillPrice(side == Buy, y, cfg.slippageBps)
       <==> x == y || WholePrice(cfg, side)
  {
    var slip := cfg.slippageBps as real / 10000.0;
    var factor := if side == Buy then 1.0 + slip else 1.0 - slip;
    assert factor == 0.0 <==> WholePrice(cfg, side);
    FactorOut(side == Buy, x, cfg.slippageBps, factor);
    FactorOut(side == Buy, y, cfg.slippageBps, factor);
    if factor != 0.0 {
      assert (x - y) * factor == x * factor - y * factor;
      L.NonzeroProduct(x - y, factor);
    }
  }

  lemma FactorOut(isBuy: bool, x: real, slippageBps: int, factor: real)
    requires factor == if isBuy then 1.0 + slippageBps as real / 10000.0 else 1.0 - slippageBps as real / 10000.0
    ensures ComputeFillPrice(isBuy, x, slippageBps) == x * factor
  {
  }

  /** An approved order: the paths publish the same if and only if they find the same price, or both find none. */
  lemma FillsAgreeIff(cfg: Strategy, b: Backtest, l: Live, ev: BookEvent, side: Side, x: Option<real>, y: Option<real>)
    requires cfg.tradeQty >= 0.0 && Related(b, l)
    ensures SameQuote(cfg, side, x, y) ==> Related(BacktestFill(cfg, b, ev, side, x), LiveFill(cfg, l, ev, side, y))
    ensures BacktestFill(cfg, b, ev, side, x).orders == LiveFill(cfg, l, ev, side, y).orders
       <==> SameQuote(cfg, side, x, y)
  {
    if x.Some? && y.Some? {
      FillPriceTells(cfg, side, x.value, y.value);
      var f, g := FillAt(cfg, ev.symbol, side, x.value), FillAt(cfg, ev.symbol, side, y.value);
      assert f == g <==> SameQuote(cfg, side, x, y);
      RecordRelated(b, l, f, ev.eventTime);
      LastEqual(b.orders, Order(f, ev.eventTime), Order(g, ev.eventTime));
    }
  }

  lemma LastEqual(orders: seq<Order>, x: Order, y: Order)
    ensures orders + [x] == orders + [y] <==> x == y
  {
    assert (orders + [x])[|orders|] == x && (orders + [y])[|orders|] == y;
  }

  // ----- one event

  /** The order the backtest would place for this event, if the risk checker lets it. */
  function DueOrder(cfg: Strategy, b: Backtest, ev: BookEvent): Option<Side> {
    var decision := TradeDecision(cfg, BookImbalance(ev.bids, ev.asks, 10), AmountOf(b.positions, ev.symbol));
    if decision.Some?
       && R.CheckTrade(cfg.risk, b.checker, ev.symbol, decision.value, cfg.tradeQty, R.NoStore).1 == R.Approved
    then decision else None
  }

  /** No order is due, or the best price on the side it crosses is the one that the cache, with these prices before the
      event, holds for it afterwards - or there is neither. */
  predicate PathsAgree(cfg: Strategy, b: Backtest, prices: map<Symbol, BestPrice>, ev: BookEvent) {
    var due := DueOrder(cfg, b, ev);
    due.Some? ==>
      SameQuote(cfg, due.value, CrossedPrice(due.value, ev.bids, ev.asks),
                HeldPrice(due.value, CacheAfter(prices, ev), ev.symbol))
  }

  /** When an order is due, in quantities and percentages: the surplus within depth ten passes the threshold's share,
      the position allows it, the checker is not halted, no enabled loss rule is broken, and the position limit, if
      any, is kept. */
  lemma DueOrderIs(cfg: Strategy, b: Backtest, ev: BookEvent, side: Side)
    requires QtySum(ev.bids[..Counted(ev.bids, 10)]) + QtySum(ev.asks[..Counted(ev.asks, 10)]) > 0.0
    ensures DueOrder(cfg, b, ev) == Some(side) <==>
            var bid, ask := QtySum(ev.bids[..Counted(ev.bids, 10)]), QtySum(ev.asks[..Counted(ev.asks, 10)]);
            var net, s := AmountOf(b.positions, ev.symbol), b.checker;
            var buys := bid - ask > cfg.buyThreshold * (bid + ask) && net <= 0.0;
            && (if side == Buy then buys else !buys && ask - bid > cfg.sellThreshold * (bid + ask) && net >= 0.0)
            && !s.halted
            && !R.LostMoreThan(cfg.risk.maxDrawdownPct, s.peakEquity, s.equity)
            && !R.LostMoreThan(cfg.risk.runLossLimitPct, cfg.risk.initialCapital, s.equity)
            && !R.TooLarge(cfg.risk, s, ev.symbol, side, cfg.tradeQty)
  {
    DecisionIs(cfg, ev.bids, ev.asks, 10, AmountOf(b.positions, ev.symbol));
    R.ApprovedIff(cfg.risk, b.checker, ev.symbol, side, cfg.tradeQty, R.NoStore);
  }

  lemma SameKeys(b: Backtest, s: Symbol)
    ensures forall t :: AmountOf(b.positions[s := AmountOf(b.positions, s)], t) == AmountOf(b.positions, t)
  {
  }

  /** Nothing is due: both paths publish nothing and stay related. */
  lemma NothingDue(cfg: Strategy, b: Backtest, l: Live, ev: BookEvent, a: Answers)
    requires cfg.tradeQty >= 0.0 && Related(b, l) && a.probe != R.Answered(true)
    requires DueOrder(cfg, b, ev).None?
    ensures var sig := AllSignals(ev, 10)[0];
            Related(BacktestStep(cfg, b, ev), HandleSignal(cfg, l, sig, a.probe, a.stored))
  {
    var sig, qty := AllSignals(ev, 10)[0], AmountOf(b.positions, ev.symbol);
    assert qty == B.PositionOf(l.blotter.positions, ev.symbol).netQty;
    SameDecision(cfg, sig, qty);
    SameKeys(b, ev.symbol);
    var decision := TradeDecision(cfg, sig.value, qty);
    if decision.Some? {
      SameVerdict(cfg.risk, b.checker, l.checker, ev.symbol, decision.value, cfg.tradeQty, a.probe);
    }
  }

  /** An order is due: both paths have it approved, and each fills it at the price it finds. */
  lemma OrderDue(cfg: Strategy, b: Backtest, l: Live, ev: BookEvent, a: Answers) returns (b': Backtest, l': Live)
    requires cfg.tradeQty >= 0.0 && Related(b, l) && a.stored && a.probe != R.Answered(true)
    requires DueOrder(cfg, b, ev).Some?
    ensures Related(b', l')
    ensures var side, sig := DueOrder(cfg, b, ev).value, AllSignals(ev, 10)[0];
            && BacktestStep(cfg, b, ev) == BacktestFill(cfg, b', ev, side, CrossedPrice(side, ev.bids, ev.asks))
            && HandleSignal(cfg, l, sig, a.probe, a.stored)
            == LiveFill(cfg, l', ev, side, HeldPrice(side, l.prices, ev.symbol))
  {
    var sig, qty := AllSignals(ev, 10)[0], AmountOf(b.positions, ev.symbol);
    assert qty == B.PositionOf(l.blotter.positions, ev.symbol).netQty;
    SameDecision(cfg, sig, qty);
    var side := DueOrder(cfg, b, ev).value;
    SameVerdict(cfg.risk, b.checker, l.checker, ev.symbol, side, cfg.tradeQty, a.probe);
    b' := Checked(b, ev.symbol, R.CheckTrade(cfg.risk, b.checker, ev.symbol, side, cfg.tradeQty, R.NoStore).0);
    l' := l.(checker := R.CheckTrade(cfg.risk, l.checker, ev.symbol, side, cfg.tradeQty, a.probe).0);
    SameKeys(b, ev.symbol);
    ExecuteIsFill(cfg, l', sig, side, ev);
    BacktestIsFill(cfg, b, ev, side);
  }

  /** The backtest once its checker has been asked; the position of the symbol gets an entry. */
  function Checked(b: Backtest, symbol: Symbol, checker: R.State): Backtest {
    b.(positions := b.positions[symbol := AmountOf(b.positions, symbol)], checker := checker)
  }

  lemma BacktestIsFill(cfg: Strategy, b: Backtest, ev: BookEvent, side: Side)
    requires DueOrder(cfg, b, ev) == Some(side)
    ensures var b' := Checked(b, ev.symbol,
                              R.CheckTrade(cfg.risk, b.checker, ev.symbol, side, cfg.tradeQty, R.NoStore).0);
            BacktestStep(cfg, b, ev) == BacktestFill(cfg, b', ev, side, CrossedPrice(side, ev.bids, ev.asks))
  {
    var x := AmountOf(b.positions, ev.symbol);
    SetTwice(b.positions, ev.symbol, x, x + Signed(side, cfg.tradeQty));
  }

  lemma SetTwice(m: map<Symbol, real>, s: Symbol, x: real, y: real)
    ensures m[s := x][s := y] == m[s := y]
  {
  }

  /** Exactly when do the paths agree on an event?  From related states, with a successful persist and no halt left
      over from an earlier session, they publish the same if and only if `PathsAgree`; and then they stay
      related. */
  lemma StepAgreesIff(cfg: Strategy, b: Backtest, l: Live, ev: BookEvent, a: Answers)
    requires cfg.tradeQty >= 0.0 && Related(b, l) && a.stored && a.probe != R.Answered(true)
    ensures BacktestStep(cfg, b, ev).orders == LiveStep(cfg, 10, l, ev, a).orders <==> PathsAgree(cfg, b, l.prices, ev)
    ensures PathsAgree(cfg, b, l.prices, ev) ==> Related(BacktestStep(cfg, b, ev), LiveStep(cfg, 10, l, ev, a))
  {
    LiveStepIsImbalance(cfg, 10, l, ev, a);
    var l0 := l.(prices := CacheAfter(l.prices, ev));
    var due := DueOrder(cfg, b, ev);
    if due.None? {
      NothingDue(cfg, b, l0, ev, a);
    } else {
      var b', l' := OrderDue(cfg, b, l0, ev, a);
      FillsAgreeIff(cfg, b', l', ev, due.value, CrossedPrice(due.value, ev.bids, ev.asks),
                    HeldPrice(due.value, l0.prices, ev.symbol));
    }
  }

  /** On a two-sided book the cache holds the very prices that the executor crosses. */
  lemma TwoSidedAgrees(cfg: Strategy, b: Backtest, prices: map<Symbol, BestPrice>, ev: BookEvent)
    requires TwoSided(ev)
    ensures PathsAgree(cfg, b, prices, ev)
  {
  }

  // ----- whole runs

  ghost predicate Undisturbed(answers: seq<Answers>) {
    forall i | 0 <= i < |answers| :: answers[i].stored && answers[i].probe != R.Answered(true)
  }

  /** The price cache after a sequence of events. */
  function CachedPrices(evs: seq<BookEvent>): map<Symbol, BestPrice> {
    if evs == [] then map[] else CacheAfter(CachedPrices(evs[..|evs| - 1]), evs[|evs| - 1])
  }

  lemma SignalKeepsPrices(cfg: Strategy, l: Live, sig: Signal, a: Answers)
    requires cfg.tradeQty >= 0.0
    ensures HandleSignal(cfg, l, sig, a.probe, a.stored).prices == l.prices
  {
  }

  /** The prices a live run trades at depend on the events only, whatever it has decided, filled or failed to store. */
  lemma {:induction false} LivePricesAreCached(cfg: Strategy, depth: int, evs: seq<BookEvent>, answers: seq<Answers>)
    requires cfg.tradeQty >= 0.0 && |answers| == |evs|
    ensures LiveRun(cfg, depth, evs, answers).prices == CachedPrices(evs)
  {
    if evs != [] {
      var n := |evs| - 1;
      var l := LiveRun(cfg, depth, evs[..n], answers[..n]);
      LivePricesAreCached(cfg, depth, evs[..n], answers[..n]);
      LiveStepIsImbalance(cfg, depth, l, evs[n], answers[n]);
      SignalKeepsPrices(cfg, l.(prices := CacheAfter(l.prices, evs[n])), AllSignals(evs[n], depth)[0], answers[n]);
    }
  }

  /** At every event of the run the paths agree; the backtest and the events alone decide. */
  ghost predicate AgreeThroughout(cfg: Strategy, evs: seq<BookEvent>) {
    evs == [] ||
    var n := |evs| - 1;
    && AgreeThroughout(cfg, evs[..n])
    && PathsAgree(cfg, BacktestRun(cfg, evs[..n]), CachedPrices(evs[..n]), evs[n])
  }

  /** After every event of the run the same orders have been published. */
  ghost predicate SameOrdersThroughout(cfg: Strategy, evs: seq<BookEvent>, answers: seq<Answers>)
    requires cfg.tradeQty >= 0.0 && |answers| == |evs|
  {
    evs == [] ||
    var n := |evs| - 1;
    && SameOrdersThroughout(cfg, evs[..n], answers[..n])
    && BacktestRun(cfg, evs).orders == LiveRun(cfg, 10, evs, answers).orders
  }

  /** The step theorem, at the end of a run. */
  lemma NextEventAgreesIff(cfg: Strategy, evs: seq<BookEvent>, answers: seq<Answers>)
    requires cfg.tradeQty >= 0.0 && |answers| == |evs| && evs != [] && Undisturbed(answers)
    requires var n := |evs| - 1; Related(BacktestRun(cfg, evs[..n]), LiveRun(cfg, 10, evs[..n], answers[..n]))
    ensures var n := |evs| - 1; var b, l := BacktestRun(cfg, evs), LiveRun(cfg, 10, evs, answers);
            var agree := PathsAgree(cfg, BacktestRun(cfg, evs[..n]), CachedPrices(evs[..n]), evs[n]);
            (b.orders == l.orders <==> agree) && (agree ==> Related(b, l))
  {
    var n := |evs| - 1;
    LivePricesAreCached(cfg, 10, evs[..n], answers[..n]);
    StepAgreesIff(cfg, BacktestRun(cfg, evs[..n]), LiveRun(cfg, 10, evs[..n], answers[..n]), evs[n], answers[n]);
  }

  /** Live and backtest bisimulate.  Over every sequence of book events, one-sided or not and in any mix of symbols,
      with depth ten, successful persists and no halt left over from an earlier session: both paths publish the
      same orders - side, price, quantity, fee and time - after every event if and only if at every event no
      order is due or the cached price is the one crossed; and then they keep equal positions and equal risk
      state. */
  lemma {:induction false} LiveMatchesBacktest(cfg: Strategy, evs: seq<BookEvent>, answers: seq<Answers>)
    requires cfg.tradeQty >= 0.0 && |answers| == |evs| && Undisturbed(answers)
    ensures SameOrdersThroughout(cfg, evs, answers) <==> AgreeThroughout(cfg, evs)
    ensures AgreeThroughout(cfg, evs) ==> Related(BacktestRun(cfg, evs), LiveRun(cfg, 10, evs, answers))
  {
    if evs != [] {
      var n := |evs| - 1;
      LiveMatchesBacktest(cfg, evs[..n], answers[..n]);
      if AgreeThroughout(cfg, evs[..n]) {
        NextEventAgreesIff(cfg, evs, answers);
      }
    }
  }

  /** In particular over two-sided events. */
  lemma {:induction false} TwoSidedMatches(cfg: Strategy, evs: seq<BookEvent>, answers: seq<Answers>)
    requires cfg.tradeQty >= 0.0 && |answers| == |evs| && Undisturbed(answers)
    requires forall i | 0 <= i < |evs| :: TwoSided(evs[i])
    ensures AgreeThroughout(cfg, evs)
    ensures Related(BacktestRun(cfg, evs), LiveRun(cfg, 10, evs, answers))
  {
    if evs != [] {
      var n := |evs| - 1;
      TwoSidedMatches(cfg, evs[..n], answers[..n]);
      TwoSidedAgrees(cfg, BacktestRun(cfg, evs[..n]), CachedPrices(evs[..n]), evs[n]);
    }
    LiveMatchesBacktest(cfg, evs, answers);
  }

  /** On a one-sided book the paths part: the executor finds no ask to cross and skips, the live handler still
      has the last ask in its cache and fills. */
  lemma OneSidedDiverges(cfg: Strategy) returns (evs: seq<BookEvent>, answers: seq<Answers>)
    requires cfg.tradeQty > 0.0 && 0.0 <= cfg.buyThreshold < 1.0 && 0.0 <= cfg.sellThreshold
    requires cfg.risk == R.Config(10000.0, map[], 0.0, 0.0)
    ensures |answers| == |evs| && forall i | 0 <= i < |evs| :: answers[i] == Answers(R.NoStore, true)
    ensures BacktestRun(cfg, evs).orders != LiveRun(cfg, 10, evs, answers).orders
  {
    var one, a := Level(1.0, 1.0), Answers(R.NoStore, true);
    var ev0, ev1 := BookEvent("BTCUSDT", 0, [one], [one]), BookEvent("BTCUSDT", 1, [one], []);
    evs, answers := [ev0, ev1], [a, a];
    assert evs[..1] == [ev0] && answers[..1] == [a] && [ev0][..0] == [];
    SingleLevel(one);
    assert DueOrder(cfg, BacktestRun(cfg, []), ev0).None?;
    TwoSidedMatches(cfg, [ev0], [a]);
    assert CachedPrices([ev0]) == map["BTCUSDT" := BestPrice(1.0, 1.0)];
    assert DueOrder(cfg, BacktestRun(cfg, [ev0]), ev1) == Some(Buy);
    NextEventAgreesIff(cfg, evs, answers);
  }

  lemma SingleLevel(l: Level)
    ensures QtySum([l][..Counted([l], 10)]) == l.qty
    ensures QtySum([][..Counted([], 10)]) == 0.0
  {
    assert [l][..1] == [l] && [l][..0] == [];
  }

  // ----- the ledgers of a live run

  function FillsOf(orders: seq<Order>): seq<Fill> {
    if orders == [] then [] else FillsOf(orders[..|orders| - 1]) + [orders[|orders| - 1].fill]
  }

  /** The blotter and the checker hold exactly the published fills, none of which closed more than was open,
      and every position is flat or one trade quantity long or short. */
  ghost predicate LedgersInStep(cfg: Strategy, l: Live) {
    var fills := FillsOf(l.orders);
    && L.NeverOvershoots(cfg.risk.initialCapital, fills)
    && l.blotter == L.BlotterAfter(cfg.risk.initialCapital, fills)
    && l.checker.positions == L.CheckerAfter(cfg.risk, fills).positions
    && l.checker.equity == L.CheckerAfter(cfg.risk, fills).equity
    && OneUnitEach(cfg.tradeQty, l.blotter)
  }

  ghost predicate OneUnitEach(q: real, b: B.State) {
    forall s :: OneUnit(q, B.PositionOf(b.positions, s).netQty)
  }

  predicate OneUnit(q: real, net: real) {
    net == -q || net == 0.0 || net == q
  }

  lemma {:induction false} FillsLength(orders: seq<Order>)
    ensures |FillsOf(orders)| == |orders|
  {
    if orders != [] {
      FillsLength(orders[..|orders| - 1]);
    }
  }

  /** The decision never trades in the direction of an open position. */
  predicate Against(net: real, side: Side) {
    if side == Buy then net <= 0.0 else net >= 0.0
  }

  lemma OneUnitKept(q: real, b: B.State, f: Fill)
    requires q > 0.0 && f.qty == q && OneUnitEach(q, b)
    requires Against(B.PositionOf(b.positions, f.symbol).netQty, f.side)
    ensures OneUnitEach(q, B.AddFill(b, f, true))
    ensures !L.Overshoots(B.PositionOf(b.positions, f.symbol), f)
  {
    assert OneUnit(q, B.PositionOf(b.positions, f.symbol).netQty);
    forall s
      ensures OneUnit(q, B.PositionOf(B.AddFill(b, f, true).positions, s).netQty)
    {
      BlotterQuantity(b, f, s);
      assert OneUnit(q, B.PositionOf(b.positions, s).netQty);
    }
  }

  lemma FillsOfSnoc(orders: seq<Order>, f: Fill, time: int)
    ensures FillsOf(orders + [Order(f, time)]) == FillsOf(orders) + [f]
  {
    assert (orders + [Order(f, time)])[..|orders|] == orders;
  }

  lemma RecordedInStep(cfg: Strategy, l: Live, f: Fill, time: int)
    requires cfg.tradeQty > 0.0 && f.qty == cfg.tradeQty && LedgersInStep(cfg, l)
    requires Against(B.PositionOf(l.blotter.positions, f.symbol).netQty, f.side)
    ensures LedgersInStep(cfg, Recorded(l, f, time))
  {
    OneUnitKept(cfg.tradeQty, l.blotter, f);
    FillsOfSnoc(l.orders, f, time);
    L.FoldsSnoc(cfg.risk, FillsOf(l.orders), f);
    SameLedger(l.checker, L.CheckerAfter(cfg.risk, FillsOf(l.orders)), f);
  }

  /** A fill depends on positions and equity only. */
  lemma SameLedger(a: R.State, b: R.State, f: Fill)
    requires a.positions == b.positions && a.equity == b.equity
    ensures R.AddFill(a, f).positions == R.AddFill(b, f).positions
    ensures R.AddFill(a, f).equity == R.AddFill(b, f).equity
  {
  }

  lemma ExecuteInStep(cfg: Strategy, l: Live, sig: Signal, side: Side)
    requires cfg.tradeQty > 0.0 && LedgersInStep(cfg, l)
    requires Against(B.PositionOf(l.blotter.positions, sig.symbol).netQty, side)
    ensures LedgersInStep(cfg, ExecuteFill(cfg, l, sig, side, true))
  {
    if sig.symbol in l.prices {
      var best := l.prices[sig.symbol];
      RecordedInStep(cfg, l, FillAt(cfg, sig.symbol, side, if side == Buy then best.ask else best.bid), sig.eventTime);
    }
  }

  lemma DecidesAgainst(cfg: Strategy, sig: Signal, net: real)
    ensures var decision := Decide(cfg, sig, DirectionOf(net)); decision.Some? ==> Against(net, decision.value)
  {
  }

  lemma CheckerSwapped(cfg: Strategy, l: Live, checker: R.State)
    requires LedgersInStep(cfg, l)
    requires checker.positions == l.checker.positions && checker.equity == l.checker.equity
    ensures LedgersInStep(cfg, l.(checker := checker))
  {
  }

  lemma SignalInStep(cfg: Strategy, l: Live, sig: Signal, probe: R.Probe)
    requires cfg.tradeQty > 0.0 && LedgersInStep(cfg, l)
    ensures LedgersInStep(cfg, HandleSignal(cfg, l, sig, probe, true))
  {
    var net := B.PositionOf(l.blotter.positions, sig.symbol).netQty;
    var decision := Decide(cfg, sig, DirectionOf(net));
    DecidesAgainst(cfg, sig, net);
    if decision.Some? {
      var (checker, verdict) := R.CheckTrade(cfg.risk, l.checker, sig.symbol, decision.value, cfg.tradeQty, probe);
      R.CheckLeaves(cfg.risk, l.checker, sig.symbol, decision.value, cfg.tradeQty, probe);
      CheckerSwapped(cfg, l, checker);
      if verdict == R.Approved {
        ExecuteInStep(cfg, l.(checker := checker), sig, decision.value);
      }
    }
  }

  lemma LiveStepInStep(cfg: Strategy, depth: int, l: Live, ev: BookEvent, a: Answers)
    requires cfg.tradeQty > 0.0 && a.stored && LedgersInStep(cfg, l)
    ensures LedgersInStep(cfg, LiveStep(cfg, depth, l, ev, a))
  {
    LiveStepIsImbalance(cfg, depth, l, ev, a);
    SignalInStep(cfg, l.(prices := CacheAfter(l.prices, ev)), AllSignals(ev, depth)[0], a.probe);
  }

  lemma {:induction false} LiveRunInStep(cfg: Strategy, depth: int, evs: seq<BookEvent>, answers: seq<Answers>)
    requires cfg.tradeQty > 0.0 && |answers| == |evs|
    requires forall i | 0 <= i < |evs| :: answers[i].stored
    ensures LedgersInStep(cfg, LiveRun(cfg, depth, evs, answers))
  {
    if evs != [] {
      var n := |evs| - 1;
      LiveRunInStep(cfg, depth, evs[..n], answers[..n]);
      LiveStepInStep(cfg, depth, LiveRun(cfg, depth, evs[..n], answers[..n]), evs[n], answers[n]);
    }
  }

  /** Ledger identity.  In every run of a fresh session with a positive trade quantity and successful persists,
      over any book events, one-sided or not: every net quantity is -q, 0 or q, blotter and checker hold the
      same positions, and blotter equity = checker equity + the sum of net quantity times average entry. */
  lemma LiveLedgerIdentity(cfg: Strategy, depth: int, evs: seq<BookEvent>, answers: seq<Answers>)
    requires cfg.tradeQty > 0.0 && |answers| == |evs|
    requires forall i | 0 <= i < |evs| :: answers[i].stored
    ensures var l := LiveRun(cfg, depth, evs, answers);
            && (forall s :: OneUnit(cfg.tradeQty, B.PositionOf(l.blotter.positions, s).netQty))
            && (forall s :: B.PositionOf(l.blotter.positions, s).netQty == AmountOf(l.checker.positions, s))
            && l.blotter.equity == l.checker.equity + L.OpenCost(l.blotter.positions)
  {
    var l := LiveRun(cfg, depth, evs, answers);
    LiveRunInStep(cfg, depth, evs, answers);
    L.BlotterOverChecker(cfg.risk, FillsOf(l.orders));
    forall s
      ensures B.PositionOf(l.blotter.positions, s).netQty == AmountOf(l.checker.positions, s)
    {
      L.SameCashAndPositions(cfg.risk, FillsOf(l.orders), s);
    }
  }

  /** End to end.  When the paths have agreed throughout and the live session is flat, its blotter, its risk checker,
      the backtest's risk checker and the collector that followed the backtest's orders all report the same
      equity. */
  lemma AllEquitiesCoincideWhenFlat(cfg: Strategy, evs: seq<BookEvent>, answers: seq<Answers>)
    requires cfg.tradeQty > 0.0 && |answers| == |evs|
    requires Undisturbed(answers) && AgreeThroughout(cfg, evs)
    requires forall s :: B.PositionOf(LiveRun(cfg, 10, evs, answers).blotter.positions, s).netQty == 0.0
    ensures var b, l := BacktestRun(cfg, evs), LiveRun(cfg, 10, evs, answers);
            l.blotter.equity == l.checker.equity == b.checker.equity
            == C.Equity(L.TrackerAfter(cfg.risk.initialCapital, FillsOf(b.orders)))
  {
    var l := LiveRun(cfg, 10, evs, answers);
    var fills := FillsOf(l.orders);
    LiveMatchesBacktest(cfg, evs, answers);
    LiveRunInStep(cfg, 10, evs, answers);
    forall s
      ensures L.NetOf(s, fills) == 0.0
    {
      L.SameCashAndPositions(cfg.risk, fills, s);
    }
    L.EquitiesCoincideWhenFlat(cfg.risk, fills);
  }
}
