/** Pre-trade risk checks and post-fill state. */
module RiskChecker {
  import opened Fills

  /** An absent position limit means unlimited; a percentage that is not positive disables its rule. */
  datatype Config = Config(
    initialCapital: real,
    maxPositionQty: map<Symbol, real>,
    maxDrawdownPct: real,
    runLossLimitPct: real)

  datatype HaltReason = NotHalted | DrawdownHalt | RunLossHalt | PersistedHalt

  datatype Verdict = Approved | Blocked(HaltReason) | OverLimit

  /** A risk event sent to the observability stream; halts carry no symbol. */
  datatype RiskEvent = HaltEvent(reason: HaltReason, equity: real) | LimitEvent(symbol: Symbol, equity: real)

  /** The answer of the halt store, when there is one, to the question asked on the first check. */
  datatype Probe = NoStore | ProbeFailed | Answered(halted: bool)

  datatype State = State(
    positions: map<Symbol, real>,
    equity: real,
    peakEquity: real,
    halted: bool,
    reason: HaltReason,
    haltChecked: bool,
    events: seq<RiskEvent>)

  function Fresh(cfg: Config): State {
    State(map[], cfg.initialCapital, cfg.initialCapital, false, NotHalted, false, [])
  }

  function Probed(s: State, probe: Probe): State {
    if s.halted || s.haltChecked || probe == NoStore then s
    else if probe == Answered(true) then s.(haltChecked := true, halted := true, reason := PersistedHalt)
    else s.(haltChecked := true)
  }

  predicate DrawdownHit(cfg: Config, s: State) {
    cfg.maxDrawdownPct > 0.0 && s.equity < s.peakEquity * (1.0 - cfg.maxDrawdownPct / 100.0)
  }

  predicate RunLossHit(cfg: Config, s: State) {
    cfg.runLossLimitPct > 0.0 && s.equity < cfg.initialCapital * (1.0 - cfg.runLossLimitPct / 100.0)
  }

  predicate LimitHit(cfg: Config, s: State, symbol: Symbol, side: Side, qty: real) {
    symbol in cfg.maxPositionQty
    && Abs(AmountOf(s.positions, symbol) + Signed(side, qty)) > cfg.maxPositionQty[symbol]
  }

  function Halt(s: State, reason: HaltReason): State {
    s.(halted := true, reason := reason, events := s.events + [HaltEvent(reason, s.equity)])
  }

  function CheckTrade(cfg: Config, s0: State, symbol: Symbol, side: Side, qty: real, probe: Probe): (State, Verdict) {
    var s := Probed(s0, probe);
    if s.halted then (s, Blocked(s.reason))
    else if DrawdownHit(cfg, s) then (Halt(s, DrawdownHalt), Blocked(DrawdownHalt))
    else if RunLossHit(cfg, s) then (Halt(s, RunLossHalt), Blocked(RunLossHalt))
    else if LimitHit(cfg, s, symbol, side, qty) then
      (s.(events := s.events + [LimitEvent(symbol, s.equity)]), OverLimit)
    else (s, Approved)
  }

  function AddFill(s: State, f: Fill): State {
    var equity := s.equity + CashFlow(f);
    s.(positions := s.positions[f.symbol := AmountOf(s.positions, f.symbol) + Signed(f.side, f.qty)],
       equity := equity,
       peakEquity := if equity > s.peakEquity then equity else s.peakEquity)
  }

  // ----- what a verdict means, in quantities and percentages

  lemma PercentOf(x: real, pct: real)
    ensures x * (1.0 - pct / 100.0) * 100.0 == x * 100.0 - pct * x
  {
    assert x * (1.0 - pct / 100.0) == x - x * (pct / 100.0);
    assert x * (pct / 100.0) * 100.0 == x * pct;
  }

  /** More than `pct` percent of `from` has been lost; a percentage that is not positive allows any loss. */
  predicate LostMoreThan(pct: real, from: real, equity: real) {
    pct > 0.0 && (from - equity) * 100.0 > pct * from
  }

  /** The order would take the position beyond its limit, on either side of zero. */
  predicate TooLarge(cfg: Config, s: State, symbol: Symbol, side: Side, qty: real) {
    symbol in cfg.maxPositionQty &&
    var after := AmountOf(s.positions, symbol) + if side == Buy then qty else -qty;
    !(-cfg.maxPositionQty[symbol] <= after <= cfg.maxPositionQty[symbol])
  }

  /** The question to the store is asked now, and answered with a halt. */
  predicate HaltFound(s: State, probe: Probe) {
    !s.halted && !s.haltChecked && probe == Answered(true)
  }

  lemma RulesAre(cfg: Config, s: State, symbol: Symbol, side: Side, qty: real)
    ensures DrawdownHit(cfg, s) <==> LostMoreThan(cfg.maxDrawdownPct, s.peakEquity, s.equity)
    ensures RunLossHit(cfg, s) <==> LostMoreThan(cfg.runLossLimitPct, cfg.initialCapital, s.equity)
    ensures LimitHit(cfg, s, symbol, side, qty) <==> TooLarge(cfg, s, symbol, side, qty)
  {
    PercentOf(s.peakEquity, cfg.maxDrawdownPct);
    PercentOf(cfg.initialCapital, cfg.runLossLimitPct);
  }

  /** An order is approved if and only if the checker is not halted and the store reports no halt, no enabled loss rule
      is broken, and the position stays within the symbol's limit, if it has one. */
  lemma ApprovedIff(cfg: Config, s: State, symbol: Symbol, side: Side, qty: real, probe: Probe)
    ensures CheckTrade(cfg, s, symbol, side, qty, probe).1 == Approved
       <==> && !s.halted && !HaltFound(s, probe)
            && !LostMoreThan(cfg.maxDrawdownPct, s.peakEquity, s.equity)
            && !LostMoreThan(cfg.runLossLimitPct, cfg.initialCapital, s.equity)
            && !TooLarge(cfg, s, symbol, side, qty)
  {
    RulesAre(cfg, Probed(s, probe), symbol, side, qty);
  }

  /** And otherwise the first of these that fails is the reason: it is what the verdict names, what a new halt
      records, and what the one event sent says. */
  lemma BlockedBecause(cfg: Config, s: State, symbol: Symbol, side: Side, qty: real, probe: Probe)
    ensures var (s', v) := CheckTrade(cfg, s, symbol, side, qty, probe);
            && (s.halted ==> v == Blocked(s.reason) && s' == s)
            && (HaltFound(s, probe) ==> v == Blocked(PersistedHalt) && s'.halted && s'.reason == PersistedHalt)
            && (!s.halted && !HaltFound(s, probe) ==> RuleDecides(cfg, s, symbol, side, qty, s', v))
  {
    RulesAre(cfg, Probed(s, probe), symbol, side, qty);
  }

  predicate RuleDecides(cfg: Config, s: State, symbol: Symbol, side: Side, qty: real, s': State, v: Verdict) {
    if LostMoreThan(cfg.maxDrawdownPct, s.peakEquity, s.equity) then
      && v == Blocked(DrawdownHalt) && s'.halted && s'.reason == DrawdownHalt
      && s'.events == s.events + [HaltEvent(DrawdownHalt, s.equity)]
    else if LostMoreThan(cfg.runLossLimitPct, cfg.initialCapital, s.equity) then
      && v == Blocked(RunLossHalt) && s'.halted && s'.reason == RunLossHalt
      && s'.events == s.events + [HaltEvent(RunLossHalt, s.equity)]
    else if TooLarge(cfg, s, symbol, side, qty) then
      v == OverLimit && !s'.halted && s'.events == s.events + [LimitEvent(symbol, s.equity)]
    else v == Approved && !s'.halted && s'.events == s.events
  }

  /** A check never moves the ledger, and the store is asked at most once. */
  lemma CheckLeaves(cfg: Config, s: State, symbol: Symbol, side: Side, qty: real, probe: Probe)
    ensures var s' := CheckTrade(cfg, s, symbol, side, qty, probe).0;
            && s'.positions == s.positions && s'.equity == s.equity && s'.peakEquity == s.peakEquity
            && (s'.haltChecked <==> s.haltChecked || (!s.halted && probe != NoStore))
    ensures s.haltChecked ==>
              CheckTrade(cfg, s, symbol, side, qty, probe) == CheckTrade(cfg, s, symbol, side, qty, NoStore)
  {
  }

  /** A fill is paid for in full: a buy costs its value and its fee, a sell earns its value less the fee. */
  lemma FillIs(s: State, f: Fill)
    ensures var s' := AddFill(s, f);
            && s'.equity == s.equity + (if f.side == Buy then -(f.qty * f.price) else f.qty * f.price) - f.fee
            && AmountOf(s'.positions, f.symbol)
            == AmountOf(s.positions, f.symbol) + (if f.side == Buy then f.qty else -f.qty)
            && (forall t | t != f.symbol :: AmountOf(s'.positions, t) == AmountOf(s.positions, t))
            && s'.peakEquity == (if s'.equity > s.peakEquity then s'.equity else s.peakEquity)
            && s'.halted == s.halted && s'.reason == s.reason && s'.events == s.events
  {
  }

  class Checker {
    const cfg: Config

    var positions: map<Symbol, real>
    var equity: real
    var peakEquity: real
    var halted: bool
    var haltReason: HaltReason
    var haltChecked: bool
    var events: seq<RiskEvent>

    ghost function Abs(): State
      reads this
    {
      State(positions, equity, peakEquity, halted, haltReason, haltChecked, events)
    }

    constructor (cfg: Config)
      ensures this.cfg == cfg && Abs() == Fresh(cfg)
    {
      this.cfg := cfg;
      positions := map[];
      equity, peakEquity := cfg.initialCapital, cfg.initialCapital;
      halted, haltReason, haltChecked := false, NotHalted, false;
      events := [];
    }

    method ProbePersistedHalt(probe: Probe)
      modifies this`halted, this`haltReason, this`haltChecked
      ensures Abs() == Probed(old(Abs()), probe)
    {
      if halted || haltChecked || probe == NoStore {
        return;
      }
      haltChecked := true;
      if probe == ProbeFailed {
        return;
      }
      if probe.halted {
        halted := true;
        haltReason := PersistedHalt;
      }
    }

    method CanTrade(symbol: Symbol, side: Side, qty: real, probe: Probe) returns (verdict: Verdict)
      modifies this`halted, this`haltReason, this`haltChecked, this`events
      ensures (Abs(), verdict) == CheckTrade(cfg, old(Abs()), symbol, side, qty, probe)
    {
      ProbePersistedHalt(probe);
      if halted {
        return Blocked(haltReason);
      }
      if cfg.maxDrawdownPct > 0.0 {
        var threshold := peakEquity * (1.0 - cfg.maxDrawdownPct / 100.0);
        if equity < threshold {
          halted, haltReason := true, DrawdownHalt;
          events := events + [HaltEvent(DrawdownHalt, equity)];
          return Blocked(DrawdownHalt);
        }
      }
      if cfg.runLossLimitPct > 0.0 {
        var threshold := cfg.initialCapital * (1.0 - cfg.runLossLimitPct / 100.0);
        if equity < threshold {
          halted, haltReason := true, RunLossHalt;
          events := events + [HaltEvent(RunLossHalt, equity)];
          return Blocked(RunLossHalt);
        }
      }
      if symbol in cfg.maxPositionQty {
        var proposedDelta := if side == Buy then qty else -qty;
        var newQty := AmountOf(positions, symbol) + proposedDelta;
        if Fills.Abs(newQty) > cfg.maxPositionQty[symbol] {
          events := events + [LimitEvent(symbol, equity)];
          return OverLimit;
        }
      }
      return Approved;
    }

    method RecordFill(f: Fill)
      modifies this`positions, this`equity, this`peakEquity
      ensures Abs() == AddFill(old(Abs()), f)
    {
      var prevPos := AmountOf(positions, f.symbol);
      var tradeValue := TradeValue(f);
      if f.side == Buy {
        positions := positions[f.symbol := prevPos + f.qty];
        equity := equity - tradeValue - f.fee;
      } else {
        positions := positions[f.symbol := prevPos - f.qty];
        equity := equity + tradeValue - f.fee;
      }
      if equity > peakEquity {
        peakEquity := equity;
      }
    }
  }
}
