/** One risk checker shared by concurrent trading loops.

    A loop asks `CanTrade`, and only later, in a second locked section, records the fill; other loops run in
    between.  The scheduler, the orders, the prices and the halt store are the environment's. */
module RiskConcurrency {
  import opened Fills
  import opened RiskChecker

  /** Between its two locked sections a loop holds an approved order. */
  datatype Loop = Idle | Holding(side: Side, qty: real)

  datatype System = System(checker: State, loops: seq<Loop>)

  /** Loop `i` asks; loop `i` fills what was approved; loop `i` drops it because no price can be computed. */
  datatype Action =
    | Ask(i: nat, side: Side, qty: real, probe: Probe)
    | Record(i: nat, price: real, fee: real)
    | Skip(i: nat)

  function Init(cfg: Config, symbols: seq<Symbol>): System {
    System(Fresh(cfg), seq(|symbols|, _ => Idle))
  }

  predicate Enabled(symbols: seq<Symbol>, s: System, a: Action) {
    && |s.loops| == |symbols|
    && a.i < |symbols|
    && (a.Ask? <==> s.loops[a.i].Idle?)
  }

  function FillOf(symbols: seq<Symbol>, s: System, a: Action): Fill
    requires Enabled(symbols, s, a) && a.Record?
  {
    Fill(symbols[a.i], s.loops[a.i].side, s.loops[a.i].qty, a.price, a.fee)
  }

  function Step(cfg: Config, symbols: seq<Symbol>, s: System, a: Action): System
    requires Enabled(symbols, s, a)
  {
    match a
    case Ask(i, side, qty, probe) =>
      var (checker, verdict) := CheckTrade(cfg, s.checker, symbols[i], side, qty, probe);
      System(checker, if verdict == Approved then s.loops[i := Holding(side, qty)] else s.loops)
    case Record(i, price, fee) =>
      System(AddFill(s.checker, FillOf(symbols, s, a)), s.loops[i := Idle])
    case Skip(i) =>
      System(s.checker, s.loops[i := Idle])
  }

  /** `ss` are the states of a schedule `acts` that starts in `ss[0]`. */
  ghost predicate Run(cfg: Config, symbols: seq<Symbol>, ss: seq<System>, acts: seq<Action>) {
    && |ss| == |acts| + 1
    && (forall k | 0 <= k < |acts| ::
          Enabled(symbols, ss[k], acts[k]) && ss[k + 1] == Step(cfg, symbols, ss[k], acts[k]))
  }

  lemma RunPrefix(cfg: Config, symbols: seq<Symbol>, ss: seq<System>, acts: seq<Action>)
    requires Run(cfg, symbols, ss, acts) && acts != []
    ensures Run(cfg, symbols, ss[..|acts|], acts[..|acts| - 1])
  {
  }

  // ----- position bound

  ghost predicate DistinctSymbols(symbols: seq<Symbol>) {
    forall i, j | 0 <= i < j < |symbols| :: symbols[i] != symbols[j]
  }

  /** No position exceeds its limit, whatever sign it has. */
  ghost predicate WithinLimits(cfg: Config, s: System) {
    forall sym | sym in cfg.maxPositionQty && cfg.maxPositionQty[sym] >= 0.0 ::
      Abs(AmountOf(s.checker.positions, sym)) <= cfg.maxPositionQty[sym]
  }

  /** Nor will it after any one of the approved orders. */
  ghost predicate ApprovedWithinLimits(cfg: Config, symbols: seq<Symbol>, s: System)
    requires |s.loops| == |symbols|
  {
    forall i | 0 <= i < |symbols| && s.loops[i].Holding? && symbols[i] in cfg.maxPositionQty ::
      Abs(AmountOf(s.checker.positions, symbols[i]) + Signed(s.loops[i].side, s.loops[i].qty))
        <= cfg.maxPositionQty[symbols[i]]
  }

  lemma StepWithinLimits(cfg: Config, symbols: seq<Symbol>, s: System, a: Action)
    requires DistinctSymbols(symbols) && Enabled(symbols, s, a)
    requires WithinLimits(cfg, s) && ApprovedWithinLimits(cfg, symbols, s)
    ensures var s' := Step(cfg, symbols, s, a);
            |s'.loops| == |symbols| && WithinLimits(cfg, s') && ApprovedWithinLimits(cfg, symbols, s')
  {
  }

  /** Although check and update are not atomic together, with one loop per symbol no schedule ever takes a
      position beyond its limit. */
  lemma {:induction false} PositionBound(cfg: Config, symbols: seq<Symbol>, ss: seq<System>, acts: seq<Action>)
    requires DistinctSymbols(symbols)
    requires Run(cfg, symbols, ss, acts) && ss[0] == Init(cfg, symbols)
    ensures var s := ss[|acts|];
            |s.loops| == |symbols| && WithinLimits(cfg, s) && ApprovedWithinLimits(cfg, symbols, s)
  {
    if acts != [] {
      RunPrefix(cfg, symbols, ss, acts);
      PositionBound(cfg, symbols, ss[..|acts|], acts[..|acts| - 1]);
      StepWithinLimits(cfg, symbols, ss[|acts| - 1], acts[|acts| - 1]);
    }
  }

  /** Two loops on one symbol can both be approved against the same position. */
  lemma SharedSymbolOverruns(symbols: seq<Symbol>, i: nat, j: nat)
    returns (cfg: Config, ss: seq<System>, acts: seq<Action>)
    requires i < j < |symbols| && symbols[i] == symbols[j]
    ensures Run(cfg, symbols, ss, acts) && ss[0] == Init(cfg, symbols)
    ensures !WithinLimits(cfg, ss[|acts|])
  {
    cfg := Config(0.0, map[symbols[i] := 1.0], 0.0, 0.0);
    acts := [Ask(i, Buy, 1.0, NoStore), Ask(j, Buy, 1.0, NoStore), Record(i, 0.0, 0.0), Record(j, 0.0, 0.0)];
    var s0 := Init(cfg, symbols);
    var s1 := Step(cfg, symbols, s0, acts[0]);
    assert s1.loops == s0.loops[i := Holding(Buy, 1.0)];
    var s2 := Step(cfg, symbols, s1, acts[1]);
    assert s2.loops == s1.loops[j := Holding(Buy, 1.0)];
    var s3 := Step(cfg, symbols, s2, acts[2]);
    var s4 := Step(cfg, symbols, s3, acts[3]);
    ss := [s0, s1, s2, s3, s4];
    assert AmountOf(s4.checker.positions, symbols[i]) == 2.0;
  }

  /** The bound holds for every configuration and schedule if and only if no two loops trade the same symbol. */
  lemma BoundIffDistinct(symbols: seq<Symbol>)
    ensures DistinctSymbols(symbols)
       <==> forall cfg, ss, acts | Run(cfg, symbols, ss, acts) && ss[0] == Init(cfg, symbols) ::
              WithinLimits(cfg, ss[|acts|])
  {
    if DistinctSymbols(symbols) {
      forall cfg, ss, acts | Run(cfg, symbols, ss, acts) && ss[0] == Init(cfg, symbols)
        ensures WithinLimits(cfg, ss[|acts|])
      {
        PositionBound(cfg, symbols, ss, acts);
      }
    } else {
      var i: nat, j: nat :| i < j < |symbols| && symbols[i] == symbols[j];
      var cfg, ss, acts := SharedSymbolOverruns(symbols, i, j);
    }
  }

  // ----- halts

  function Approvals(loops: seq<Loop>): nat {
    if loops == [] then 0 else Approvals(loops[..|loops| - 1]) + if loops[|loops| - 1].Holding? then 1 else 0
  }

  function FillsRecorded(acts: seq<Action>): nat {
    if acts == [] then 0 else FillsRecorded(acts[..|acts| - 1]) + if acts[|acts| - 1].Record? then 1 else 0
  }

  lemma {:induction false} ApprovalsAt(loops: seq<Loop>, i: nat, l: Loop)
    requires i < |loops|
    ensures Approvals(loops[i := l])
         == Approvals(loops) - (if loops[i].Holding? then 1 else 0) + (if l.Holding? then 1 else 0)
  {
    var n := |loops| - 1;
    if i < n {
      ApprovalsAt(loops[..n], i, l);
      assert loops[i := l][..n] == loops[..n][i := l];
    } else {
      assert loops[i := l][..n] == loops[..n];
    }
  }

  lemma {:induction false} ApprovalsBound(loops: seq<Loop>, i: nat)
    requires i < |loops|
    ensures Approvals(loops) <= |loops|
    ensures loops[i].Idle? ==> Approvals(loops) < |loops|
  {
    var n := |loops| - 1;
    if i < n {
      ApprovalsBound(loops[..n], i);
    } else if n > 0 {
      ApprovalsBound(loops[..n], 0);
    }
  }

  /** Once halted, a step approves nothing and a recorded fill uses up an approval given before. */
  lemma HaltedStep(cfg: Config, symbols: seq<Symbol>, s: System, a: Action)
    requires Enabled(symbols, s, a) && s.checker.halted
    ensures var s' := Step(cfg, symbols, s, a);
            && s'.checker.halted && |s'.loops| == |symbols|
            && s'.checker.reason == s.checker.reason
            && (a.Ask? ==> s'.loops == s.loops)
            && Approvals(s'.loops) + (if a.Record? then 1 else 0) <= Approvals(s.loops)
  {
    if !a.Ask? {
      ApprovalsAt(s.loops, a.i, Idle);
    }
  }

  /** A halt is final: in every schedule that starts halted nothing is approved any more, the reason stays,
      and the fills still recorded are at most the orders approved before. */
  lemma {:induction false} HaltIsFinal(cfg: Config, symbols: seq<Symbol>, ss: seq<System>, acts: seq<Action>)
    requires Run(cfg, symbols, ss, acts) && ss[0].checker.halted
    ensures ss[|acts|].checker.halted && ss[|acts|].checker.reason == ss[0].checker.reason
    ensures FillsRecorded(acts) + Approvals(ss[|acts|].loops) <= Approvals(ss[0].loops)
    ensures forall k | 0 <= k < |acts| && acts[k].Ask? :: ss[k + 1].loops == ss[k].loops
  {
    if acts != [] {
      RunPrefix(cfg, symbols, ss, acts);
      HaltIsFinal(cfg, symbols, ss[..|acts|], acts[..|acts| - 1]);
      HaltedStep(cfg, symbols, ss[|acts| - 1], acts[|acts| - 1]);
      assert forall k | 0 <= k < |acts| - 1 :: ss[..|acts|][k + 1] == ss[k + 1] && acts[..|acts| - 1][k] == acts[k];
    }
  }

  /** Bounded overrun.  From the check that fires the halt on, every schedule records at most one fill for
      each of the other loops. */
  lemma BoundedOverrun(cfg: Config, symbols: seq<Symbol>, ss: seq<System>, acts: seq<Action>)
    requires Run(cfg, symbols, ss, acts) && acts != [] && acts[0].Ask?
    requires !ss[0].checker.halted && ss[1].checker.halted
    ensures FillsRecorded(acts[1..]) <= |symbols| - 1
    ensures ss[|acts|].checker.halted
  {
    assert Enabled(symbols, ss[0], acts[0]) && ss[1] == Step(cfg, symbols, ss[0], acts[0]);
    assert Run(cfg, symbols, ss[1..], acts[1..]) by {
      forall k | 0 <= k < |acts[1..]|
        ensures Enabled(symbols, ss[1..][k], acts[1..][k])
             && ss[1..][k + 1] == Step(cfg, symbols, ss[1..][k], acts[1..][k])
      {
        assert acts[1..][k] == acts[k + 1] && ss[1..][k] == ss[k + 1];
      }
    }
    HaltIsFinal(cfg, symbols, ss[1..], acts[1..]);
    ApprovalsBound(ss[1].loops, acts[0].i);
  }

  /** A halt fires exactly when a check on a checker that is not yet halted finds a persisted halt or
      one of the two loss rules broken; recording a fill never halts. */
  lemma HaltFiresIff(cfg: Config, symbols: seq<Symbol>, s: System, a: Action)
    requires Enabled(symbols, s, a) && !s.checker.halted
    ensures Step(cfg, symbols, s, a).checker.halted
       <==> a.Ask? && (DrawdownHit(cfg, s.checker) || RunLossHit(cfg, s.checker)
                       || (!s.checker.haltChecked && a.probe == Answered(true)))
  {
  }

  // ----- drawdown

  /** The peak is the high-water mark of the equity: in every schedule it bounds the equity of every state so
      far and was reached in one of them. */
  lemma {:induction false} PeakIsHighWater(cfg: Config, symbols: seq<Symbol>, ss: seq<System>, acts: seq<Action>)
    requires Run(cfg, symbols, ss, acts) && ss[0] == Init(cfg, symbols)
    ensures forall k | 0 <= k < |ss| :: ss[k].checker.equity <= ss[|acts|].checker.peakEquity
    ensures exists k | 0 <= k < |ss| :: ss[k].checker.equity == ss[|acts|].checker.peakEquity
  {
    if acts == [] {
      assert ss[0].checker.equity == ss[0].checker.peakEquity;
    } else {
      var init := ss[..|acts|];
      RunPrefix(cfg, symbols, ss, acts);
      PeakIsHighWater(cfg, symbols, init, acts[..|acts| - 1]);
      var s, a := ss[|acts| - 1], acts[|acts| - 1];
      PeakStep(cfg, symbols, s, a);
      assert forall k | 0 <= k < |init| :: init[k] == ss[k];
      var k :| 0 <= k < |init| && init[k].checker.equity == s.checker.peakEquity;
      assert ss[k].checker.equity == ss[|acts|].checker.peakEquity
          || ss[|acts|].checker.equity == ss[|acts|].checker.peakEquity;
    }
  }

  lemma PeakStep(cfg: Config, symbols: seq<Symbol>, s: System, a: Action)
    requires Enabled(symbols, s, a) && s.checker.equity <= s.checker.peakEquity
    ensures var c, c' := s.checker, Step(cfg, symbols, s, a).checker;
            c'.peakEquity == if c'.equity > c.peakEquity then c'.equity else c.peakEquity
  {
  }

  /** What an approval guarantees in every schedule: the checker is not halted, and the equity is down from its
      high-water mark, and from the initial capital, by no more than the configured percentages. */
  lemma ApprovalMeans(cfg: Config, symbols: seq<Symbol>, s: System, a: Action)
    requires Enabled(symbols, s, a) && a.Ask? && Step(cfg, symbols, s, a).loops != s.loops
    ensures var c := Step(cfg, symbols, s, a).checker;
            && !c.halted
            && (cfg.maxDrawdownPct > 0.0 ==> (c.peakEquity - c.equity) * 100.0 <= cfg.maxDrawdownPct * c.peakEquity)
            && (cfg.runLossLimitPct > 0.0 ==>
                  (cfg.initialCapital - c.equity) * 100.0 <= cfg.runLossLimitPct * cfg.initialCapital)
  {
    PercentOf(s.checker.peakEquity, cfg.maxDrawdownPct);
    PercentOf(cfg.initialCapital, cfg.runLossLimitPct);
  }
}
