/** Round-trip and drawdown metrics of a finished run. */
module Metrics {
  import opened Fills
  import opened Options
  import L = Ledgers

  function Cost(f: Fill): real {
    f.qty * f.price + f.fee
  }

  function Revenue(f: Fill): real {
    f.qty * f.price - f.fee
  }

  // ----- the reference: the k-th matched sell of a symbol closes its k-th buy

  function Init<T>(s: seq<T>): seq<T>
    requires s != []
  {
    s[..|s| - 1]
  }

  function Last<T>(s: seq<T>): T
    requires s != []
  {
    s[|s| - 1]
  }

  /** What the buys of a symbol cost, in order. */
  function BuyCosts(s: Symbol, fs: seq<Fill>): seq<real> {
    if fs == [] then []
    else if Last(fs).symbol == s && Last(fs).side == Buy then BuyCosts(s, Init(fs)) + [Cost(Last(fs))]
    else BuyCosts(s, Init(fs))
  }

  /** How many sells of a symbol have found an earlier buy that no other sell had taken. */
  function Matched(s: Symbol, fs: seq<Fill>): (n: nat)
    ensures n <= |BuyCosts(s, fs)|
  {
    if fs == [] then 0
    else
      var n := Matched(s, Init(fs));
      if Last(fs).symbol == s && Last(fs).side == Sell && n < |BuyCosts(s, Init(fs))| then n + 1 else n
  }

  predicate SellMatches(fs: seq<Fill>)
    requires fs != []
  {
    Last(fs).side == Sell && Matched(Last(fs).symbol, Init(fs)) < |BuyCosts(Last(fs).symbol, Init(fs))|
  }

  /** The profit of every matched sell, in order. */
  function Profits(fs: seq<Fill>): seq<real> {
    if fs == [] then []
    else if SellMatches(fs) then
      var s := Last(fs).symbol;
      Profits(Init(fs)) + [Revenue(Last(fs)) - BuyCosts(s, Init(fs))[Matched(s, Init(fs))]]
    else Profits(Init(fs))
  }

  function Total(xs: seq<real>): real {
    if xs == [] then 0.0 else Total(Init(xs)) + Last(xs)
  }

  function Positive(xs: seq<real>): seq<real> {
    if xs == [] then [] else if Last(xs) > 0.0 then Positive(Init(xs)) + [Last(xs)] else Positive(Init(xs))
  }

  function NonPositive(xs: seq<real>): seq<real> {
    if xs == [] then [] else if Last(xs) > 0.0 then NonPositive(Init(xs)) else NonPositive(Init(xs)) + [Last(xs)]
  }

  function Average(xs: seq<real>): real {
    if xs == [] then 0.0 else Total(xs) / |xs| as real
  }

  // ----- the computation

  method TradeMetrics(trades: seq<Fill>) returns (hitRate: real, avgWin: real, avgLoss: real, tradeCount: nat)
    ensures var profits := Profits(trades);
            && tradeCount == |profits|
            && avgWin == Average(Positive(profits)) && avgLoss == Average(NonPositive(profits))
            && hitRate == if profits == [] then 0.0 else |Positive(profits)| as real / |profits| as real * 100.0
  {
    var wins, losses := PairTrades(trades);
    SplitLength(Profits(trades));
    var total := |wins| + |losses|;
    if total == 0 {
      return 0.0, 0.0, 0.0, 0;
    }
    tradeCount := total;
    hitRate := |wins| as real / total as real * 100.0;
    avgWin, avgLoss := 0.0, 0.0;
    if |wins| > 0 {
      var sum := SumDecimals(wins);
      avgWin := sum / |wins| as real;
    }
    if |losses| > 0 {
      var sum := SumDecimals(losses);
      avgLoss := sum / |losses| as real;
    }
  }

  /** The queue of a symbol; an absent key is an empty queue. */
  function QueueOf(open: map<Symbol, seq<real>>, s: Symbol): seq<real> {
    if s in open then open[s] else []
  }

  /** A first-in first-out queue per symbol realises the reference pairing. */
  method PairTrades(trades: seq<Fill>) returns (wins: seq<real>, losses: seq<real>)
    ensures wins == Positive(Profits(trades)) && losses == NonPositive(Profits(trades))
  {
    var open: map<Symbol, seq<real>> := map[];
    wins, losses := [], [];
    for i := 0 to |trades|
      invariant wins == Positive(Profits(trades[..i])) && losses == NonPositive(Profits(trades[..i]))
      invariant forall s :: QueueOf(open, s) == Unsold(s, trades[..i])
    {
      assert Init(trades[..i + 1]) == trades[..i];
      ghost var before := open;
      var pnl: Option<real>;
      open, pnl := PairOne(open, trades[i], trades[..i]);
      ProfitsStep(trades[..i + 1]);
      QueuesStep(before, open, trades[..i + 1]);
      if pnl.Some? {
        SplitSnoc(Profits(trades[..i]), pnl.value);
        if pnl.value > 0.0 {
          wins := wins + [pnl.value];
        } else {
          losses := losses + [pnl.value];
        }
      }
    }
    assert trades[..|trades|] == trades;
  }

  /** Queues a buy, or pairs a sell with the first queued buy of its symbol. */
  method PairOne(open: map<Symbol, seq<real>>, t: Fill, ghost done: seq<Fill>)
    returns (open': map<Symbol, seq<real>>, pnl: Option<real>)
    requires QueueOf(open, t.symbol) == Unsold(t.symbol, done)
    ensures QueueOf(open', t.symbol) == Unsold(t.symbol, done + [t])
    ensures forall s | s != t.symbol :: QueueOf(open', s) == QueueOf(open, s)
    ensures pnl == if t.side == Sell && Unsold(t.symbol, done) != [] then Some(Revenue(t) - Unsold(t.symbol, done)[0])
                   else None
  {
    assert Init(done + [t]) == done;
    UnsoldStep(done + [t]);
    open', pnl := open, None;
    match t.side {
      case Buy =>
        var cost := Cost(t);
        open' := open[t.symbol := QueueOf(open, t.symbol) + [cost]];
      case Sell =>
        var queue := QueueOf(open, t.symbol);
        if |queue| == 0 {
          return;
        }
        open' := open[t.symbol := queue[1..]];
        var revenue := Revenue(t);
        pnl := Some(revenue - queue[0]);
    }
  }

  lemma QueuesStep(before: map<Symbol, seq<real>>, after: map<Symbol, seq<real>>, fs: seq<Fill>)
    requires fs != []
    requires forall s :: QueueOf(before, s) == Unsold(s, Init(fs))
    requires QueueOf(after, Last(fs).symbol) == Unsold(Last(fs).symbol, fs)
    requires forall s | s != Last(fs).symbol :: QueueOf(after, s) == QueueOf(before, s)
    ensures forall s :: QueueOf(after, s) == Unsold(s, fs)
  {
    UnsoldStep(fs);
    forall s
      ensures QueueOf(after, s) == Unsold(s, fs)
    {
      assert QueueOf(before, s) == Unsold(s, Init(fs));
    }
  }

  /** The costs of the buys not yet matched. */
  function Unsold(s: Symbol, fs: seq<Fill>): seq<real> {
    BuyCosts(s, fs)[Matched(s, fs)..]
  }

  lemma UnsoldStep(fs: seq<Fill>)
    requires fs != []
    ensures forall s | s != Last(fs).symbol :: Unsold(s, fs) == Unsold(s, Init(fs))
    ensures var s := Last(fs).symbol;
            Unsold(s, fs) == if Last(fs).side == Buy then Unsold(s, Init(fs)) + [Cost(Last(fs))]
                             else if Unsold(s, Init(fs)) == [] then [] else Unsold(s, Init(fs))[1..]
  {
  }

  lemma FirstUnsold(s: Symbol, fs: seq<Fill>)
    ensures Unsold(s, fs) != [] <==> Matched(s, fs) < |BuyCosts(s, fs)|
    ensures Unsold(s, fs) != [] ==> Unsold(s, fs)[0] == BuyCosts(s, fs)[Matched(s, fs)]
  {
  }

  lemma SellMatchesIff(fs: seq<Fill>)
    requires fs != []
    ensures SellMatches(fs) <==> Last(fs).side == Sell && Unsold(Last(fs).symbol, Init(fs)) != []
  {
    FirstUnsold(Last(fs).symbol, Init(fs));
  }

  lemma ProfitsStep(fs: seq<Fill>)
    requires fs != []
    ensures var f := Last(fs); var queue := Unsold(f.symbol, Init(fs));
            Profits(fs) == if f.side == Sell && queue != [] then Profits(Init(fs)) + [Revenue(f) - queue[0]]
                           else Profits(Init(fs))
  {
    SellMatchesIff(fs);
    if SellMatches(fs) {
      FirstUnsold(Last(fs).symbol, Init(fs));
    }
  }

  lemma SplitSnoc(xs: seq<real>, x: real)
    ensures Positive(xs + [x]) == if x > 0.0 then Positive(xs) + [x] else Positive(xs)
    ensures NonPositive(xs + [x]) == if x > 0.0 then NonPositive(xs) else NonPositive(xs) + [x]
  {
    assert Init(xs + [x]) == xs;
  }

  lemma TotalSnoc(xs: seq<real>, x: real)
    ensures Total(xs + [x]) == Total(xs) + x
  {
    assert Init(xs + [x]) == xs;
  }

  method SumDecimals(ds: seq<real>) returns (sum: real)
    ensures sum == Total(ds)
  {
    sum := 0.0;
    for i := 0 to |ds|
      invariant sum == Total(ds[..i])
    {
      assert Init(ds[..i + 1]) == ds[..i];
      sum := sum + ds[i];
    }
    assert ds[..|ds|] == ds;
  }

  lemma {:induction false} SplitLength(xs: seq<real>)
    ensures |Positive(xs)| + |NonPositive(xs)| == |xs|
  {
    if xs != [] {
      SplitLength(Init(xs));
    }
  }

  lemma {:induction false} SplitTotal(xs: seq<real>)
    ensures Total(Positive(xs)) + Total(NonPositive(xs)) == Total(xs)
  {
    if xs != [] {
      SplitTotal(Init(xs));
      TotalSnoc(Positive(Init(xs)), Last(xs));
      TotalSnoc(NonPositive(Init(xs)), Last(xs));
    }
  }

  // ----- conservation

  /** Everything spent on buys that no sell has matched, over all symbols. */
  function QueuedCost(fs: seq<Fill>): real {
    if fs == [] then 0.0
    else
      var f := Last(fs);
      if f.side == Buy then QueuedCost(Init(fs)) + Cost(f)
      else if SellMatches(fs) then QueuedCost(Init(fs)) - Unsold(f.symbol, Init(fs))[0]
      else QueuedCost(Init(fs))
  }

  ghost function UnsoldTotals(symbols: set<Symbol>, fs: seq<Fill>): map<Symbol, real> {
    map s | s in symbols :: Total(Unsold(s, fs))
  }

  ghost function SymbolsOf(fs: seq<Fill>): set<Symbol> {
    set i | 0 <= i < |fs| :: fs[i].symbol
  }

  /** What sells without a matching buy brought in. */
  function UnmatchedRevenue(fs: seq<Fill>): real {
    if fs == [] then 0.0
    else UnmatchedRevenue(Init(fs)) + if Last(fs).side == Sell && !SellMatches(fs) then Revenue(Last(fs)) else 0.0
  }

  function Sells(s: Symbol, fs: seq<Fill>): nat {
    if fs == [] then 0 else Sells(s, Init(fs)) + if Last(fs).symbol == s && Last(fs).side == Sell then 1 else 0
  }

  function AllSells(fs: seq<Fill>): nat {
    if fs == [] then 0 else AllSells(Init(fs)) + if Last(fs).side == Sell then 1 else 0
  }

  /** At no time has a symbol been sold more often than bought. */
  ghost predicate NeverOversold(fs: seq<Fill>) {
    forall n, s | 0 <= n <= |fs| :: Sells(s, fs[..n]) <= |BuyCosts(s, fs[..n])|
  }

  lemma {:induction false} TotalTail(xs: seq<real>)
    requires xs != []
    ensures Total(xs[1..]) == Total(xs) - xs[0]
  {
    if |xs| > 1 {
      TotalTail(Init(xs));
      assert Init(xs)[1..] == Init(xs[1..]);
    }
  }

  /** Profits are conserved: whatever the trades, all wins and losses together are the cash earned, plus what
      the buys still queued cost, less what unmatched sells brought in. */
  lemma {:induction false} ProfitConservation(initial: real, fs: seq<Fill>)
    ensures Total(Positive(Profits(fs))) + Total(NonPositive(Profits(fs)))
         == L.CashAfter(initial, fs) - initial + QueuedCost(fs) - UnmatchedRevenue(fs)
  {
    SplitTotal(Profits(fs));
    if fs != [] {
      ProfitConservation(initial, Init(fs));
      SplitTotal(Profits(Init(fs)));
      ProfitsStep(fs);
      if SellMatches(fs) {
        TotalSnoc(Profits(Init(fs)), Revenue(Last(fs)) - Unsold(Last(fs).symbol, Init(fs))[0]);
      }
    }
  }

  lemma UnsoldTotalsStep(symbols: set<Symbol>, fs: seq<Fill>)
    requires fs != [] && Last(fs).symbol in symbols
    ensures UnsoldTotals(symbols, fs)
         == UnsoldTotals(symbols, Init(fs))[Last(fs).symbol := Total(Unsold(Last(fs).symbol, fs))]
  {
    UnsoldStep(fs);
  }

  /** The total of the queue that the last trade changes moves with `QueuedCost`. */
  lemma QueuedStep(fs: seq<Fill>)
    requires fs != []
    ensures var s := Last(fs).symbol;
            QueuedCost(fs) - QueuedCost(Init(fs)) == Total(Unsold(s, fs)) - Total(Unsold(s, Init(fs)))
  {
    var f := Last(fs);
    var queue := Unsold(f.symbol, Init(fs));
    UnsoldStep(fs);
    FirstUnsold(f.symbol, Init(fs));
    if f.side == Buy {
      TotalSnoc(queue, Cost(f));
    } else if queue != [] {
      TotalTail(queue);
    }
  }

  /** `QueuedCost` is the sum over all symbols of what is left in their queues. */
  lemma {:induction false} QueuedCostIs(symbols: set<Symbol>, fs: seq<Fill>)
    requires SymbolsOf(fs) <= symbols
    ensures QueuedCost(fs) == Sum(UnsoldTotals(symbols, fs))
  {
    if fs == [] {
      SumOfZeros(UnsoldTotals(symbols, fs));
    } else {
      var s := Last(fs).symbol;
      SymbolsOfInit(fs);
      QueuedCostIs(symbols, Init(fs));
      UnsoldTotalsStep(symbols, fs);
      SumUpdate(UnsoldTotals(symbols, Init(fs)), s, Total(Unsold(s, fs)));
      QueuedStep(fs);
    }
  }

  lemma SymbolsOfInit(fs: seq<Fill>)
    requires fs != []
    ensures SymbolsOf(Init(fs)) <= SymbolsOf(fs) && Last(fs).symbol in SymbolsOf(fs)
  {
    assert fs[|fs| - 1].symbol in SymbolsOf(fs);
    forall s | s in SymbolsOf(Init(fs))
      ensures s in SymbolsOf(fs)
    {
      var i :| 0 <= i < |Init(fs)| && Init(fs)[i].symbol == s;
      assert fs[i].symbol == s;
    }
  }

  /** Every sell is matched, so that wins and losses count all sells, if and only if no symbol was ever sold
      more often than bought. */
  lemma {:induction false} AllMatchedIff(fs: seq<Fill>)
    ensures |Positive(Profits(fs))| + |NonPositive(Profits(fs))| == AllSells(fs) <==> NeverOversold(fs)
    ensures |Positive(Profits(fs))| + |NonPositive(Profits(fs))| <= AllSells(fs)
    ensures NeverOversold(fs) ==> UnmatchedRevenue(fs) == 0.0 && forall s :: Matched(s, fs) == Sells(s, fs)
  {
    SplitLength(Profits(fs));
    if fs == [] {
      forall n, s | 0 <= n <= |fs|
        ensures Sells(s, fs[..n]) <= |BuyCosts(s, fs[..n])|
      {
        assert fs[..n] == [];
      }
    } else {
      AllMatchedIff(Init(fs));
      SplitLength(Profits(Init(fs)));
      NeverOversoldStep(fs);
      MatchedStep(fs);
    }
  }

  lemma NeverOversoldStep(fs: seq<Fill>)
    requires fs != []
    ensures NeverOversold(fs)
       <==> NeverOversold(Init(fs)) && Sells(Last(fs).symbol, fs) <= |BuyCosts(Last(fs).symbol, fs)|
  {
    assert fs[..|fs|] == fs;
    forall n, s | 0 <= n < |fs|
      ensures Sells(s, Init(fs)[..n]) == Sells(s, fs[..n]) && BuyCosts(s, Init(fs)[..n]) == BuyCosts(s, fs[..n])
    {
      InitTake(fs, n);
    }
    if NeverOversold(Init(fs)) && Sells(Last(fs).symbol, fs) <= |BuyCosts(Last(fs).symbol, fs)| {
      forall n, s | 0 <= n <= |fs|
        ensures Sells(s, fs[..n]) <= |BuyCosts(s, fs[..n])|
      {
        NotOversoldAt(fs, n, s);
      }
    }
  }

  lemma InitTake<T>(fs: seq<T>, n: nat)
    requires n < |fs|
    ensures Init(fs)[..n] == fs[..n]
  {
  }

  lemma NotOversoldAt(fs: seq<Fill>, n: nat, s: Symbol)
    requires fs != [] && n <= |fs| && NeverOversold(Init(fs))
    requires Sells(Last(fs).symbol, fs) <= |BuyCosts(Last(fs).symbol, fs)|
    ensures Sells(s, fs[..n]) <= |BuyCosts(s, fs[..n])|
  {
    var m := if n < |fs| then n else n - 1;
    InitTake(fs, m);
    assert Sells(s, Init(fs)[..m]) <= |BuyCosts(s, Init(fs)[..m])|;
    if n == |fs| {
      assert fs[..n] == fs && fs[..m] == Init(fs);
    }
  }

  /** As long as every earlier sell was matched, the next one is matched unless it oversells. */
  lemma MatchedStep(fs: seq<Fill>)
    requires fs != []
    requires NeverOversold(Init(fs)) ==> forall s :: Matched(s, Init(fs)) == Sells(s, Init(fs))
    ensures NeverOversold(Init(fs)) && Last(fs).side == Sell ==>
              (SellMatches(fs) <==> Sells(Last(fs).symbol, fs) <= |BuyCosts(Last(fs).symbol, fs)|)
    ensures NeverOversold(fs) ==> forall s :: Matched(s, fs) == Sells(s, fs)
    ensures NeverOversold(Init(fs)) && Last(fs).side == Buy ==>
              Sells(Last(fs).symbol, fs) <= |BuyCosts(Last(fs).symbol, fs)|
  {
    NeverOversoldStep(fs);
    if NeverOversold(Init(fs)) {
      assert Init(fs)[..|Init(fs)|] == Init(fs);
      assert forall s :: Sells(s, Init(fs)) <= |BuyCosts(s, Init(fs))|;
    }
  }

  /** The conservation law as documented for the ledger of the collector: when no symbol is ever sold more often
      than bought, wins plus losses are the collector's cash, less the initial capital, plus the cost of
      the buys still queued. */
  lemma ProfitsMatchCash(initial: real, fs: seq<Fill>)
    requires NeverOversold(fs)
    ensures Total(Positive(Profits(fs))) + Total(NonPositive(Profits(fs)))
         == L.TrackerAfter(initial, fs).cash - initial + Sum(UnsoldTotals(SymbolsOf(fs), fs))
    ensures |Positive(Profits(fs))| + |NonPositive(Profits(fs))| == AllSells(fs)
  {
    ProfitConservation(initial, fs);
    QueuedCostIs(SymbolsOf(fs), fs);
    AllMatchedIff(fs);
    TrackerCash(initial, fs);
  }

  lemma {:induction false} TrackerCash(initial: real, fs: seq<Fill>)
    ensures L.TrackerAfter(initial, fs).cash == L.CashAfter(initial, fs)
  {
    if fs != [] {
      TrackerCash(initial, Init(fs));
    }
  }

  // ----- drawdown

  /** The loss from a peak value to a later one, in percent of the peak. */
  function DropPct(peak: real, later: real): real
    requires peak > 0.0
  {
    (peak - later) / peak * 100.0
  }

  /** No drop is larger than `dd`. */
  ghost predicate Bounded(es: seq<real>, dd: real) {
    forall i, j | 0 <= i <= j < |es| && es[i] > 0.0 :: DropPct(es[i], es[j]) <= dd
  }

  /** `dd` is the largest drop between any point above zero and any later point; zero if no point is above zero. */
  ghost predicate IsMaxDrawdown(es: seq<real>, dd: real) {
    && Bounded(es, dd)
    && ((exists i, j :: 0 <= i <= j < |es| && es[i] > 0.0 && DropPct(es[i], es[j]) == dd)
        || (dd == 0.0 && NonePositive(es)))
  }

  ghost predicate NonePositive(es: seq<real>) {
    forall i | 0 <= i < |es| :: es[i] <= 0.0
  }

  /** The largest value so far. */
  function Peak(es: seq<real>): real
    requires es != []
  {
    if |es| == 1 || Last(es) > Peak(Init(es)) then Last(es) else Peak(Init(es))
  }

  /** The largest drop from the running peak. */
  function RunningDrawdown(es: seq<real>): real {
    if es == [] then 0.0
    else
      var before, peak := RunningDrawdown(Init(es)), Peak(es);
      if peak > 0.0 && DropPct(peak, Last(es)) > before then DropPct(peak, Last(es)) else before
  }

  /** Series that are too short or start at zero report zero. */
  function ReportedDrawdown(es: seq<real>): real {
    if |es| < 2 || es[0] == 0.0 then 0.0 else RunningDrawdown(es)
  }

  /** A single pass. */
  method MaxDrawdown(es: seq<real>) returns (maxDD: real)
    ensures maxDD == ReportedDrawdown(es)
  {
    maxDD := 0.0;
    if |es| < 2 {
      return;
    }
    if es[0] == 0.0 {
      return;
    }
    var peak := es[0];
    for k := 0 to |es|
      invariant maxDD == RunningDrawdown(es[..k])
      invariant peak == if k == 0 then es[0] else Peak(es[..k])
    {
      assert Init(es[..k + 1]) == es[..k];
      if es[k] > peak {
        peak := es[k];
      }
      if peak > 0.0 {
        var dd := DropPct(peak, es[k]);
        if dd > maxDD {
          maxDD := dd;
        }
      }
    }
    assert es[..|es|] == es;
  }

  lemma QuotientIs(a: real, b: real, q: real)
    requires b != 0.0 && q * b == a
    ensures a / b == q
  {
    L.NonzeroProduct(a / b - q, b);
    assert (a / b - q) * b == a / b * b - q * b;
  }

  lemma DropIs(peak: real, later: real)
    requires peak > 0.0
    ensures DropPct(peak, later) == (1.0 - later / peak) * 100.0
  {
    var y := later / peak;
    assert (1.0 - y) * peak == peak - y * peak;
    QuotientIs(peak - later, peak, 1.0 - y);
  }

  lemma SmallerShare(e: real, peak: real, later: real)
    requires 0.0 < e <= peak && later >= 0.0
    ensures later / peak <= later / e
  {
    var x, y := later / e, later / peak;
    assert (x - y) * e == y * (peak - e);
    assert y * (peak - e) >= 0.0;
    SignOf(x - y, e);
  }

  lemma SignOf(a: real, e: real)
    requires e > 0.0
    ensures a * e >= 0.0 <==> a >= 0.0
    ensures a * e > 0.0 <==> a > 0.0
  {
  }

  /** Later points are compared with the running peak only: no other point gives a larger drop. */
  lemma PeakDropsMost(e: real, peak: real, later: real)
    requires 0.0 < e <= peak && later >= 0.0
    ensures DropPct(e, later) <= DropPct(peak, later)
  {
    DropIs(e, later);
    DropIs(peak, later);
    SmallerShare(e, peak, later);
  }

  lemma {:induction false} PeakIsLargest(es: seq<real>) returns (at: nat)
    requires es != []
    ensures at < |es| && es[at] == Peak(es)
    ensures forall i | 0 <= i < |es| :: es[i] <= Peak(es)
  {
    at := |es| - 1;
    if |es| > 1 {
      var before := PeakIsLargest(Init(es));
      assert forall i | 0 <= i < |es| - 1 :: es[i] == Init(es)[i];
      if !(Last(es) > Peak(Init(es))) {
        at := before;
      }
    }
  }

  lemma DropSign(peak: real, later: real)
    requires peak > 0.0
    ensures DropPct(peak, later) <= 0.0 <==> peak <= later
    ensures DropPct(peak, peak) == 0.0
  {
    DropIs(peak, later);
    DropIs(peak, peak);
    QuotientIs(peak, peak, 1.0);
    var y := later / peak;
    assert (y - 1.0) * peak == later - peak;
    SignOf(y - 1.0, peak);
  }

  /** Below zero it is the other way round: the smaller the earlier value, the larger the drop in percent. */
  lemma SmallerDropsMore(e: real, peak: real, later: real)
    requires 0.0 < e <= peak && later < 0.0
    ensures DropPct(peak, later) <= DropPct(e, later)
    ensures e < peak ==> DropPct(peak, later) < DropPct(e, later)
  {
    DropIs(e, later);
    DropIs(peak, later);
    var x, y := later / e, later / peak;
    assert y * peak == later && x * e == later;
    NegativeFactor(y, peak);
    assert (y - x) * e == y * (e - peak);
    NegativeProduct(y, e - peak);
    SignOf(y - x, e);
  }

  lemma NegativeFactor(y: real, p: real)
    requires p > 0.0 && y * p < 0.0
    ensures y < 0.0
  {
  }

  lemma NegativeProduct(y: real, z: real)
    requires y < 0.0 && z <= 0.0
    ensures y * z >= 0.0
    ensures z < 0.0 ==> y * z > 0.0
  {
  }

  /** Point by point: the running peak gives the largest drop to a point if and only if that point is not below
      zero, or every earlier positive value is the peak itself. */
  lemma PeakDropsMostIff(es: seq<real>, j: nat)
    requires j < |es| && Peak(es[..j + 1]) > 0.0
    ensures var peak := Peak(es[..j + 1]);
            (forall i | 0 <= i <= j && es[i] > 0.0 :: DropPct(es[i], es[j]) <= DropPct(peak, es[j])) <==>
            (es[j] >= 0.0 || forall i | 0 <= i <= j && es[i] > 0.0 :: es[i] == peak)
  {
    var peak := Peak(es[..j + 1]);
    var at := PeakIsLargest(es[..j + 1]);
    forall i | 0 <= i <= j && es[i] > 0.0
      ensures es[i] <= peak
      ensures es[j] >= 0.0 ==> DropPct(es[i], es[j]) <= DropPct(peak, es[j])
      ensures es[j] < 0.0 ==> (DropPct(es[i], es[j]) <= DropPct(peak, es[j]) <==> es[i] == peak)
    {
      assert es[..j + 1][i] == es[i];
      if es[j] >= 0.0 {
        PeakDropsMost(es[i], peak, es[j]);
      } else {
        SmallerDropsMore(es[i], peak, es[j]);
      }
    }
  }

  lemma {:induction false} NoLargerDrop(es: seq<real>, i: nat, j: nat)
    requires i <= j < |es| && es[i] > 0.0 && es[j] >= 0.0
    ensures DropPct(es[i], es[j]) <= RunningDrawdown(es)
  {
    var at := PeakIsLargest(es);
    if j == |es| - 1 {
      PeakDropsMost(es[i], es[at], es[j]);
    } else {
      NoLargerDrop(Init(es), i, j);
    }
  }

  lemma {:induction false} NoPositiveNoDrop(es: seq<real>)
    requires NonePositive(es)
    ensures RunningDrawdown(es) == 0.0
  {
    if es != [] {
      var at := PeakIsLargest(es);
      assert forall i | 0 <= i < |Init(es)| :: Init(es)[i] == es[i];
      NoPositiveNoDrop(Init(es));
    }
  }

  /** The running drawdown is the drop from the running peak to some point. */
  lemma {:induction false} DropAttained(es: seq<real>) returns (m: nat)
    requires !NonePositive(es)
    ensures m < |es| && Peak(es[..m + 1]) > 0.0
    ensures RunningDrawdown(es) == DropPct(Peak(es[..m + 1]), es[m])
  {
    var at := PeakIsLargest(es);
    var init, n := Init(es), |es| - 1;
    assert es[..n + 1] == es;
    assert forall i | 0 <= i < n :: init[i] == es[i];
    if NonePositive(init) {
      NoPositiveNoDrop(init);
      m := n;
      DropSign(es[n], es[n]);
    } else {
      m := DropAttained(init);
      InitTake(es, m + 1);
      if DropPct(es[at], es[n]) > RunningDrawdown(init) {
        m := n;
      }
    }
  }

  /** It is at least the drop from the running peak to any point. */
  lemma {:induction false} PeakDropFound(es: seq<real>, k: nat)
    requires k < |es| && Peak(es[..k + 1]) > 0.0
    ensures DropPct(Peak(es[..k + 1]), es[k]) <= RunningDrawdown(es)
  {
    if k == |es| - 1 {
      assert es[..k + 1] == es;
    } else {
      InitTake(es, k + 1);
      PeakDropFound(Init(es), k);
    }
  }

  /** The smallest value above zero, if there is one. */
  function LeastPositive(es: seq<real>): Option<real> {
    if es == [] then None
    else
      var least := LeastPositive(Init(es));
      if Last(es) > 0.0 && (least.None? || Last(es) < least.value) then Some(Last(es)) else least
  }

  lemma {:induction false} LeastPositiveIs(es: seq<real>)
    ensures LeastPositive(es).None? <==> NonePositive(es)
    ensures LeastPositive(es).Some? ==>
              && LeastPositive(es).value > 0.0 && LeastPositive(es).value in es
              && forall i | 0 <= i < |es| && es[i] > 0.0 :: LeastPositive(es).value <= es[i]
  {
    if es != [] {
      LeastPositiveIs(Init(es));
      assert es == Init(es) + [Last(es)];
      assert forall i | 0 <= i < |es| - 1 :: Init(es)[i] == es[i];
    }
  }

  /** A point below zero that comes after a value above zero. */
  predicate Under(es: seq<real>, j: nat)
    requires j < |es|
  {
    es[j] < 0.0 && LeastPositive(es[..j]).Some?
  }

  /** How deep it is: the drop from the smallest positive value before it. */
  function Deep(es: seq<real>, j: nat): real
    requires j < |es| && Under(es, j)
  {
    LeastPositiveIs(es[..j]);
    DropPct(LeastPositive(es[..j]).value, es[j])
  }

  /** All values above zero before `k` are the same. */
  ghost predicate OneLevelBefore(es: seq<real>, k: nat)
    requires k < |es|
  {
    forall h, i | 0 <= h < i < k && es[h] > 0.0 && es[i] > 0.0 :: es[h] == es[i]
  }

  /** A series on which the single pass finds the largest drop.  One that starts at zero is not looked at: then no
      positive value may be followed by a smaller one.  Otherwise nothing may fall below zero after having been above;
      or, among the points that do, one of the deepest is preceded by a single positive value. */
  ghost predicate DrawdownSeen(es: seq<real>) {
    if |es| >= 2 && es[0] == 0.0 then
      forall i, j | 0 <= i <= j < |es| && es[i] > 0.0 :: es[i] <= es[j]
    else
      || (forall j | 0 <= j < |es| :: !Under(es, j))
      || (exists k | 0 <= k < |es| && Under(es, k) :: DeepestFromOneLevel(es, k))
  }

  ghost predicate DeepestFromOneLevel(es: seq<real>, k: nat)
    requires k < |es| && Under(es, k)
  {
    OneLevelBefore(es, k) && forall j | 0 <= j < |es| && Under(es, j) :: Deep(es, j) <= Deep(es, k)
  }

  /** No earlier positive value gives a larger drop to the point than the smallest one does. */
  lemma DeepIs(es: seq<real>, j: nat)
    requires j < |es| && Under(es, j)
    ensures exists i | 0 <= i < j :: es[i] > 0.0 && DropPct(es[i], es[j]) == Deep(es, j)
    ensures forall i | 0 <= i <= j && es[i] > 0.0 :: DropPct(es[i], es[j]) <= Deep(es, j)
    ensures forall i | 0 <= i <= j && es[i] > 0.0 && DropPct(es[i], es[j]) == Deep(es, j) ::
              es[i] == LeastPositive(es[..j]).value
  {
    var least := LeastPositive(es[..j]).value;
    LeastPositiveIs(es[..j]);
    var k :| 0 <= k < j && es[..j][k] == least;
    assert es[k] == least;
    forall i | 0 <= i <= j && es[i] > 0.0
      ensures DropPct(es[i], es[j]) <= DropPct(least, es[j])
      ensures es[i] != least ==> DropPct(es[i], es[j]) < DropPct(least, es[j])
    {
      assert es[..j][i] == es[i];
      SmallerDropsMore(least, es[i], es[j]);
    }
  }

  /** A point below zero that some positive value precedes is `Under`, and no other is. */
  lemma UnderIs(es: seq<real>, j: nat)
    requires j < |es| && es[j] < 0.0
    ensures Under(es, j) <==> exists i | 0 <= i <= j :: es[i] > 0.0
  {
    LeastPositiveIs(es[..j]);
    if i :| 0 <= i <= j && es[i] > 0.0 {
      assert es[..j][i] == es[i];
    }
    if Under(es, j) {
      var i :| 0 <= i < j && es[..j][i] == LeastPositive(es[..j]).value;
      assert es[i] > 0.0;
    }
  }

  ghost predicate UnderBounded(es: seq<real>, dd: real) {
    forall j | 0 <= j < |es| && Under(es, j) :: Deep(es, j) <= dd
  }

  /** Drops to points that are not below zero are always found, so the others decide. */
  lemma UnderDecides(es: seq<real>)
    ensures IsMaxDrawdown(es, RunningDrawdown(es)) <==> UnderBounded(es, RunningDrawdown(es))
  {
    AttainedSomewhere(es);
    if Bounded(es, RunningDrawdown(es)) {
      BoundedUnder(es, RunningDrawdown(es));
    }
    if UnderBounded(es, RunningDrawdown(es)) {
      UnderBounds(es);
    }
  }

  lemma AttainedSomewhere(es: seq<real>)
    ensures IsMaxDrawdown(es, RunningDrawdown(es)) <==> Bounded(es, RunningDrawdown(es))
  {
    if NonePositive(es) {
      NoPositiveNoDrop(es);
    } else {
      var m := DropAttained(es);
      var at := PeakIsLargest(es[..m + 1]);
      assert es[at] == es[..m + 1][at];
    }
  }

  lemma BoundedUnder(es: seq<real>, dd: real)
    requires Bounded(es, dd)
    ensures UnderBounded(es, dd)
  {
    forall j | 0 <= j < |es| && Under(es, j)
      ensures Deep(es, j) <= dd
    {
      DeepIs(es, j);
      var i :| 0 <= i < j && es[i] > 0.0 && DropPct(es[i], es[j]) == Deep(es, j);
    }
  }

  lemma UnderBounds(es: seq<real>)
    requires UnderBounded(es, RunningDrawdown(es))
    ensures Bounded(es, RunningDrawdown(es))
  {
    forall i, j | 0 <= i <= j < |es| && es[i] > 0.0
      ensures DropPct(es[i], es[j]) <= RunningDrawdown(es)
    {
      if es[j] >= 0.0 {
        NoLargerDrop(es, i, j);
      } else {
        UnderIs(es, j);
        DeepIs(es, j);
      }
    }
  }

  /** More than everything can only be lost below zero. */
  lemma OverHundred(peak: real, later: real)
    requires peak > 0.0
    ensures DropPct(peak, later) > 100.0 <==> later < 0.0
  {
    DropIs(peak, later);
    var y := later / peak;
    assert y * peak == later;
    SignOf(y, peak);
  }

  /** If every drop below zero is found, the point at which the running drawdown was attained is one of the deepest, and
      only one positive value precedes it. */
  lemma FoundFromOneLevel(es: seq<real>, j: nat) returns (m: nat)
    requires j < |es| && Under(es, j)
    requires UnderBounded(es, RunningDrawdown(es))
    ensures m < |es| && Under(es, m) && DeepestFromOneLevel(es, m)
  {
    DeepIs(es, j);
    var i :| 0 <= i < j && es[i] > 0.0 && DropPct(es[i], es[j]) == Deep(es, j);
    OverHundred(es[i], es[j]);
    m := DropAttained(es);
    var at := PeakIsLargest(es[..m + 1]);
    assert es[at] == es[..m + 1][at];
    OverHundred(es[at], es[m]);
    UnderIs(es, m);
    DeepIs(es, m);
    var least := LeastPositive(es[..m]).value;
    LeastPositiveIs(es[..m]);
    forall h | 0 <= h < m && es[h] > 0.0
      ensures es[h] == least
    {
      assert es[..m][h] == es[h] && es[..m + 1][h] == es[h];
    }
  }

  /** A deepest point after a single positive value is found by the running peak. */
  lemma OneLevelFound(es: seq<real>, k: nat)
    requires k < |es| && Under(es, k) && OneLevelBefore(es, k)
    ensures Deep(es, k) <= RunningDrawdown(es)
  {
    DeepIs(es, k);
    var i :| 0 <= i < k && es[i] > 0.0 && DropPct(es[i], es[k]) == Deep(es, k);
    var at := PeakIsLargest(es[..k + 1]);
    assert es[..k + 1][at] == es[at] && es[..k + 1][i] == es[i];
    PeakDropFound(es, k);
  }

  /** Exactly when is the reported drawdown the true one?  For every series whatsoever: if and only if
      `DrawdownSeen`, which speaks of the values alone. */
  lemma ReportedIsMaxIff(es: seq<real>)
    ensures IsMaxDrawdown(es, ReportedDrawdown(es)) <==> DrawdownSeen(es)
  {
    if |es| >= 2 && es[0] == 0.0 {
      forall i, j | 0 <= i <= j < |es| && es[i] > 0.0
        ensures DropPct(es[i], es[j]) <= 0.0 <==> es[i] <= es[j]
        ensures DropPct(es[i], es[i]) == 0.0
      {
        DropSign(es[i], es[j]);
      }
    } else {
      if |es| < 2 {
        ShortSeries(es);
      }
      RunningIsMaxIff(es);
    }
  }

  lemma ShortSeries(es: seq<real>)
    requires |es| < 2
    ensures RunningDrawdown(es) == 0.0
  {
    if |es| == 1 && es[0] > 0.0 {
      DropSign(es[0], es[0]);
      assert Init(es) == [];
    }
  }

  lemma RunningIsMaxIff(es: seq<real>)
    ensures IsMaxDrawdown(es, RunningDrawdown(es))
       <==> (|| (forall j | 0 <= j < |es| :: !Under(es, j))
             || (exists k | 0 <= k < |es| && Under(es, k) :: DeepestFromOneLevel(es, k)))
  {
    UnderDecides(es);
    if k :| 0 <= k < |es| && Under(es, k) && DeepestFromOneLevel(es, k) {
      OneLevelFound(es, k);
    }
    if UnderBounded(es, RunningDrawdown(es)) {
      if j :| 0 <= j < |es| && Under(es, j) {
        var m := FoundFromOneLevel(es, j);
      }
    }
  }

  /** In particular, for every series of non-negative values that starts above zero the single pass finds the true
      maximum. */
  lemma SinglePassIsMax(es: seq<real>)
    requires es != [] && es[0] > 0.0 && forall k | 0 <= k < |es| :: es[k] >= 0.0
    ensures IsMaxDrawdown(es, ReportedDrawdown(es))
  {
    assert forall j | 0 <= j < |es| :: !Under(es, j);
    ReportedIsMaxIff(es);
  }

  /** With an equity below zero the single pass understates the drawdown. */
  lemma NegativeEquityUnderstated()
    ensures var es := [2.0, 1.0, -1.0];
            RunningDrawdown(es) == 150.0 && DropPct(es[1], es[2]) == 200.0 && !IsMaxDrawdown(es, 150.0)
  {
    var es := [2.0, 1.0, -1.0];
    assert Init(es) == [2.0, 1.0] && Init([2.0, 1.0]) == [2.0] && Init([2.0]) == [];
    assert RunningDrawdown([2.0]) == 0.0 && RunningDrawdown([2.0, 1.0]) == 50.0;
    assert DropPct(es[1], es[2]) == 200.0;
  }
}
