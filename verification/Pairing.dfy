/** Which buy closes with which sell in the round-trip metrics, and what the averages are averages of. */
module Pairing {
  import opened Fills
  import opened Metrics

  /** The indices of a buy and of the sell that closes it. */
  datatype Pair = Pair(buy: nat, sell: nat)

  predicate IsBuy(fs: seq<Fill>, s: Symbol, i: nat) {
    i < |fs| && fs[i].symbol == s && fs[i].side == Buy
  }

  /** Where the buys of a symbol are. */
  function Buys(s: Symbol, fs: seq<Fill>): seq<nat> {
    if fs == [] then []
    else if Last(fs).symbol == s && Last(fs).side == Buy then Buys(s, Init(fs)) + [|fs| - 1]
    else Buys(s, Init(fs))
  }

  function Pairs(fs: seq<Fill>): seq<Pair> {
    if fs == [] then []
    else if SellMatches(fs) then
      BuysAre(Last(fs).symbol, Init(fs));
      Pairs(Init(fs)) + [Pair(Buys(Last(fs).symbol, Init(fs))[Matched(Last(fs).symbol, Init(fs))], |fs| - 1)]
    else Pairs(Init(fs))
  }

  /** How many pairs are of a symbol. */
  function PairsOf(s: Symbol, fs: seq<Fill>, ps: seq<Pair>): (n: nat) {
    if ps == [] then 0
    else
      PairsOf(s, fs, Init(ps)) + if Last(ps).sell < |fs| && fs[Last(ps).sell].symbol == s then 1 else 0
  }

  /** All buys of the symbol, in order, and what each of them cost. */
  lemma {:induction false} BuysAre(s: Symbol, fs: seq<Fill>)
    ensures |Buys(s, fs)| == |BuyCosts(s, fs)|
    ensures forall k | 0 <= k < |Buys(s, fs)| ::
              IsBuy(fs, s, Buys(s, fs)[k]) && BuyCosts(s, fs)[k] == Cost(fs[Buys(s, fs)[k]])
    ensures forall k, l | 0 <= k < l < |Buys(s, fs)| :: Buys(s, fs)[k] < Buys(s, fs)[l]
    ensures forall i: nat | IsBuy(fs, s, i) :: i in Buys(s, fs)
  {
    if fs != [] {
      BuysAre(s, Init(fs));
      forall i: nat | IsBuy(fs, s, i)
        ensures i in Buys(s, fs)
      {
        if i < |fs| - 1 {
          assert IsBuy(Init(fs), s, i);
        }
      }
    }
  }

  lemma {:induction false} PairsOfInit(s: Symbol, fs: seq<Fill>, ps: seq<Pair>)
    requires fs != [] && forall m | 0 <= m < |ps| :: ps[m].sell < |fs| - 1
    ensures PairsOf(s, fs, ps) == PairsOf(s, Init(fs), ps)
  {
    if ps != [] {
      PairsOfInit(s, fs, Init(ps));
      assert Last(ps) == ps[|ps| - 1];
    }
  }

  lemma {:induction false} SellsIncrease(fs: seq<Fill>)
    ensures forall m | 0 <= m < |Pairs(fs)| :: Pairs(fs)[m].sell < |fs|
    ensures forall m, n | 0 <= m < n < |Pairs(fs)| :: Pairs(fs)[m].sell < Pairs(fs)[n].sell
  {
    if fs != [] {
      SellsIncrease(Init(fs));
    }
  }

  /** The pairs of a symbol are its matched sells. */
  lemma {:induction false} PairsOfIs(s: Symbol, fs: seq<Fill>)
    ensures PairsOf(s, fs, Pairs(fs)) == Matched(s, fs)
  {
    if fs != [] {
      PairsOfIs(s, Init(fs));
      SellsIncrease(Init(fs));
      PairsOfInit(s, fs, Pairs(Init(fs)));
      if SellMatches(fs) {
        assert Init(Pairs(fs)) == Pairs(Init(fs));
      }
    }
  }

  /** A pair is a buy, a later sell of the same symbol, and what the sell brought in beyond what the buy cost. */
  predicate IsPair(fs: seq<Fill>, p: Pair, profit: real) {
    && p.buy < p.sell < |fs|
    && IsBuy(fs, fs[p.sell].symbol, p.buy) && fs[p.sell].side == Sell
    && profit == Revenue(fs[p.sell]) - Cost(fs[p.buy])
  }

  /** First in, first out: the k-th pair of a symbol takes the k-th of its buys. */
  predicate InTurn(fs: seq<Fill>, ps: seq<Pair>, m: nat)
    requires m < |ps|
  {
    ps[m].sell < |fs| &&
    var s := fs[ps[m].sell].symbol;
    var k := PairsOf(s, fs, ps[..m]);
    k < |Buys(s, fs)| && ps[m].buy == Buys(s, fs)[k]
  }

  lemma NewPair(fs: seq<Fill>)
    requires fs != [] && SellMatches(fs)
    ensures |Profits(fs)| == |Profits(Init(fs))| + 1 && |Pairs(fs)| == |Pairs(Init(fs))| + 1
    ensures IsPair(fs, Last(Pairs(fs)), Last(Profits(fs)))
  {
    var s, init := Last(fs).symbol, Init(fs);
    BuysAre(s, init);
    var i := Buys(s, init)[Matched(s, init)];
    assert IsBuy(init, s, i) && init[i] == fs[i];
  }

  lemma NewTurn(fs: seq<Fill>, before: seq<Pair>)
    requires fs != [] && SellMatches(fs) && before == Pairs(Init(fs))
    ensures InTurn(fs, Pairs(fs), |before|)
  {
    var s, init := Last(fs).symbol, Init(fs);
    BuysAre(s, init);
    PairsOfIs(s, init);
    SellsIncrease(init);
    PairsOfInit(s, fs, before);
    assert Pairs(fs)[..|before|] == before;
  }

  lemma OldPair(fs: seq<Fill>, p: Pair, profit: real)
    requires fs != [] && IsPair(Init(fs), p, profit)
    ensures IsPair(fs, p, profit)
  {
  }

  lemma OldTurn(fs: seq<Fill>, ps: seq<Pair>, m: nat)
    requires fs != [] && m < |ps| && forall n | 0 <= n <= m :: ps[n].sell < |fs| - 1
    requires InTurn(Init(fs), ps, m)
    ensures InTurn(fs, ps, m)
  {
    PairsOfInit(fs[ps[m].sell].symbol, fs, ps[..m]);
  }

  lemma SameTurn(fs: seq<Fill>, ps: seq<Pair>, more: seq<Pair>, m: nat)
    requires m < |ps| && InTurn(fs, ps, m)
    ensures InTurn(fs, ps + more, m)
  {
    assert (ps + more)[..m] == ps[..m];
  }

  /** The profits are those of pairs of a buy and a later sell of one symbol, in the order of the sells; and within a
      symbol the k-th sell that is paired closes the k-th buy. */
  lemma FirstInFirstOut(fs: seq<Fill>)
    ensures |Pairs(fs)| == |Profits(fs)|
    ensures forall m | 0 <= m < |Pairs(fs)| :: IsPair(fs, Pairs(fs)[m], Profits(fs)[m]) && InTurn(fs, Pairs(fs), m)
    ensures forall m, n | 0 <= m < n < |Pairs(fs)| :: Pairs(fs)[m].sell < Pairs(fs)[n].sell
  {
    PairsAre(fs);
    TurnsAre(fs);
    SellsIncrease(fs);
  }

  lemma {:induction false} PairsAre(fs: seq<Fill>)
    ensures |Pairs(fs)| == |Profits(fs)|
    ensures forall m | 0 <= m < |Pairs(fs)| :: IsPair(fs, Pairs(fs)[m], Profits(fs)[m])
  {
    if fs != [] {
      var init := Init(fs);
      PairsAre(init);
      if SellMatches(fs) {
        NewPair(fs);
      }
      forall m | 0 <= m < |Pairs(init)|
        ensures IsPair(fs, Pairs(fs)[m], Profits(fs)[m])
      {
        OldPair(fs, Pairs(init)[m], Profits(init)[m]);
      }
    }
  }

  lemma {:induction false} TurnsAre(fs: seq<Fill>)
    ensures forall m | 0 <= m < |Pairs(fs)| :: InTurn(fs, Pairs(fs), m)
  {
    if fs != [] {
      var before := Pairs(Init(fs));
      TurnsAre(Init(fs));
      SellsIncrease(Init(fs));
      if SellMatches(fs) {
        NewTurn(fs, before);
      }
      forall m | 0 <= m < |before|
        ensures InTurn(fs, Pairs(fs), m)
      {
        OldTurn(fs, before, m);
        SameTurn(fs, before, Pairs(fs)[|before|..], m);
        assert Pairs(fs) == before + Pairs(fs)[|before|..];
      }
    }
  }

  /** A trade closes a buy if and only if it is a sell, and its symbol has been bought more often before than it has
      been paired. */
  lemma PairedIff(fs: seq<Fill>)
    requires fs != []
    ensures |Pairs(fs)| == |Pairs(Init(fs))| + 1 <==>
            && Last(fs).side == Sell
            && PairsOf(Last(fs).symbol, Init(fs), Pairs(Init(fs))) < |Buys(Last(fs).symbol, Init(fs))|
    ensures |Pairs(fs)| == |Pairs(Init(fs))| || |Pairs(fs)| == |Pairs(Init(fs))| + 1
  {
    PairsOfIs(Last(fs).symbol, Init(fs));
    BuysAre(Last(fs).symbol, Init(fs));
  }

  // ----- wins, losses and their averages

  /** Wins and losses are the profits, those above zero in the one and all others in the other. */
  lemma {:induction false} WinsAndLosses(xs: seq<real>)
    ensures multiset(Positive(xs)) + multiset(NonPositive(xs)) == multiset(xs)
  {
    if xs != [] {
      WinsAndLosses(Init(xs));
      assert xs == Init(xs) + [Last(xs)];
    }
  }

  lemma {:induction false} SignsAre(xs: seq<real>)
    ensures forall i | 0 <= i < |Positive(xs)| :: Positive(xs)[i] > 0.0
    ensures forall i | 0 <= i < |NonPositive(xs)| :: NonPositive(xs)[i] <= 0.0
  {
    if xs != [] {
      SignsAre(Init(xs));
    }
  }

  /** The average of something is its total over its number; that of nothing is zero. */
  lemma AverageIs(xs: seq<real>)
    ensures Average(xs) * |xs| as real == Total(xs)
    ensures xs == [] ==> Average(xs) == 0.0
  {
    if xs != [] {
      var n := |xs| as real;
      assert n != 0.0;
      assert Total(xs) / n * n == Total(xs);
    }
  }

  /** Wins and losses, each number times its average, together are all profits. */
  lemma AveragesAddUp(profits: seq<real>, wins: seq<real>, losses: seq<real>)
    requires wins == Positive(profits) && losses == NonPositive(profits)
    ensures Average(wins) * |wins| as real + Average(losses) * |losses| as real == Total(profits)
  {
    AverageIs(wins);
    AverageIs(losses);
    SplitTotal(profits);
  }
}
