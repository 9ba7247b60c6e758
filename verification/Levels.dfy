/** Price levels and one side of an order book.

    A side is a finite map from price to quantity in which a zero quantity means "no level".
    `SortedLevels` is the reference definition of a side listed best price first; the map
    updates are those of the book's Apply and LoadSnapshot. */
module Levels {

  type Price = real
  type Qty = real

  datatype Level = Level(price: Price, qty: Qty)

  datatype BookSide = Bid | Ask

  /** The quantity resting at a price; an absent level rests zero. */
  function QtyAt(m: map<Price, Qty>, p: Price): Qty {
    if p in m then m[p] else 0.0
  }

  ghost predicate NoZero(m: map<Price, Qty>) {
    forall p | p in m :: m[p] != 0.0
  }

  ghost predicate Listed(ls: seq<Level>, p: Price) {
    exists i | 0 <= i < |ls| :: ls[i].price == p
  }

  /** Every listed quantity is the one that `truth` holds at that price. */
  ghost predicate ListsTruth(ls: seq<Level>, truth: map<Price, Qty>) {
    forall i | 0 <= i < |ls| :: ls[i].qty == QtyAt(truth, ls[i].price)
  }

  /** A zero quantity deletes the level, any other replaces it. */
  function ApplyLevel(m: map<Price, Qty>, lvl: Level): map<Price, Qty> {
    if lvl.qty == 0.0 then m - {lvl.price} else m[lvl.price := lvl.qty]
  }

  function ApplyLevels(m: map<Price, Qty>, ls: seq<Level>): map<Price, Qty> {
    if ls == [] then m else ApplyLevel(ApplyLevels(m, ls[..|ls| - 1]), ls[|ls| - 1])
  }

  /** A snapshot level of quantity zero is skipped. */
  function LoadLevel(m: map<Price, Qty>, lvl: Level): map<Price, Qty> {
    if lvl.qty == 0.0 then m else m[lvl.price := lvl.qty]
  }

  function LoadLevels(ls: seq<Level>): map<Price, Qty> {
    if ls == [] then map[] else LoadLevel(LoadLevels(ls[..|ls| - 1]), ls[|ls| - 1])
  }

  lemma ListedSplit(ls: seq<Level>, p: Price)
    requires ls != []
    ensures Listed(ls, p) <==> Listed(ls[..|ls| - 1], p) || ls[|ls| - 1].price == p
  {
    var init := ls[..|ls| - 1];
    if Listed(ls, p) {
      var i :| 0 <= i < |ls| && ls[i].price == p;
      if i < |ls| - 1 {
        assert init[i].price == p;
      }
    }
    if Listed(init, p) {
      var i :| 0 <= i < |init| && init[i].price == p;
      assert ls[i].price == p;
    }
  }

  /** Applying true absolute quantities makes every listed price true and leaves the others alone. */
  lemma {:induction false} ApplyTruth(m: map<Price, Qty>, ls: seq<Level>, truth: map<Price, Qty>, p: Price)
    requires ListsTruth(ls, truth)
    ensures QtyAt(ApplyLevels(m, ls), p) == if Listed(ls, p) then QtyAt(truth, p) else QtyAt(m, p)
  {
    if ls != [] {
      ApplyTruth(m, ls[..|ls| - 1], truth, p);
      ListedSplit(ls, p);
    }
  }

  lemma {:induction false} ApplyNoZero(m: map<Price, Qty>, ls: seq<Level>)
    requires NoZero(m)
    ensures NoZero(ApplyLevels(m, ls))
  {
    if ls != [] {
      ApplyNoZero(m, ls[..|ls| - 1]);
    }
  }

  /** A price held after an update was listed in it or was held before. */
  lemma {:induction false} ApplyKeys(m: map<Price, Qty>, ls: seq<Level>, p: Price)
    requires p in ApplyLevels(m, ls)
    ensures Listed(ls, p) || p in m
  {
    if ls != [] {
      ListedSplit(ls, p);
      if ls[|ls| - 1].price != p {
        ApplyKeys(m, ls[..|ls| - 1], p);
      }
    }
  }

  lemma {:induction false} LoadTruth(ls: seq<Level>, truth: map<Price, Qty>, p: Price)
    requires ListsTruth(ls, truth)
    ensures NoZero(LoadLevels(ls))
    ensures p in LoadLevels(ls) ==> Listed(ls, p)
    ensures QtyAt(LoadLevels(ls), p) == if Listed(ls, p) then QtyAt(truth, p) else 0.0
  {
    if ls != [] {
      LoadTruth(ls[..|ls| - 1], truth, p);
      ListedSplit(ls, p);
    }
  }

  lemma {:induction false} ApplyUnlisted(m: map<Price, Qty>, ls: seq<Level>, p: Price)
    requires !Listed(ls, p)
    ensures QtyAt(ApplyLevels(m, ls), p) == QtyAt(m, p)
  {
    if ls != [] {
      ListedSplit(ls, p);
      ApplyUnlisted(m, ls[..|ls| - 1], p);
    }
  }

  lemma {:induction false} LoadKeys(ls: seq<Level>, p: Price)
    requires p in LoadLevels(ls)
    ensures Listed(ls, p)
  {
    if ls != [] {
      ListedSplit(ls, p);
      if ls[|ls| - 1].price != p {
        LoadKeys(ls[..|ls| - 1], p);
      }
    }
  }

  lemma {:induction false} LoadNoZero(ls: seq<Level>)
    ensures NoZero(LoadLevels(ls))
  {
    if ls != [] {
      LoadNoZero(ls[..|ls| - 1]);
    }
  }

  /** Two sides without zero levels are equal when they rest the same quantity everywhere. */
  lemma SidesEqual(a: map<Price, Qty>, b: map<Price, Qty>)
    requires NoZero(a) && NoZero(b)
    requires forall p :: QtyAt(a, p) == QtyAt(b, p)
    ensures a == b
  {
    forall p
      ensures p in a <==> p in b
      ensures p in a && p in b ==> a[p] == b[p]
    {
      assert QtyAt(a, p) == QtyAt(b, p);
    }
  }

  // ----- best-first order

  /** `p` is strictly better than `q`: a higher bid or a lower ask. */
  predicate Better(s: BookSide, p: Price, q: Price) {
    match s
    case Bid => p > q
    case Ask => p < q
  }

  ghost predicate Ordered(s: BookSide, ls: seq<Level>) {
    forall i, j | 0 <= i < j < |ls| :: Better(s, ls[i].price, ls[j].price)
  }

  ghost predicate Represents(ls: seq<Level>, m: map<Price, Qty>) {
    forall lvl :: lvl in ls <==> lvl.price in m && m[lvl.price] == lvl.qty
  }

  lemma EmptyKeys(keys: set<Price>)
    ensures (forall p :: p !in keys) ==> keys == {}
  {
    if forall p :: p !in keys {
      assert keys == {};
    }
  }

  ghost function BestKey(s: BookSide, keys: set<Price>): (best: Price)
    requires keys != {}
    ensures best in keys
    ensures forall q | q in keys && q != best :: Better(s, best, q)
  {
    EmptyKeys(keys);
    var p :| p in keys;
    if keys == {p} then p
    else
      var r := BestKey(s, keys - {p});
      assert forall q | q in keys :: q == p || q in keys - {p};
      if Better(s, p, r) then p else r
  }

  /** The reference listing of a side: the best level, then the rest. */
  ghost function SortedLevels(s: BookSide, m: map<Price, Qty>): seq<Level>
    decreases |m|
  {
    if m == map[] then []
    else
      var best := BestKey(s, m.Keys);
      WithoutKey(m, best);
      [Level(best, m[best])] + SortedLevels(s, m - {best})
  }

  lemma WithoutKey(m: map<Price, Qty>, p: Price)
    requires p in m
    ensures |m - {p}| == |m| - 1
    ensures m.Keys == (m - {p}).Keys + {p}
  {
    assert m.Keys == (m - {p}).Keys + {p};
    assert |m| == |m.Keys| && |m - {p}| == |(m - {p}).Keys|;
  }

  lemma OrderedCons(s: BookSide, m: map<Price, Qty>, best: Price, tail: seq<Level>)
    requires best in m && forall q | q in m && q != best :: Better(s, best, q)
    requires Ordered(s, tail) && Represents(tail, m - {best})
    ensures Ordered(s, [Level(best, m[best])] + tail)
  {
    forall i | 0 <= i < |tail|
      ensures Better(s, best, tail[i].price)
    {
      assert tail[i] in tail;
    }
  }

  lemma RepresentsCons(m: map<Price, Qty>, best: Price, tail: seq<Level>)
    requires best in m && Represents(tail, m - {best})
    ensures Represents([Level(best, m[best])] + tail, m)
  {
    forall lvl
      ensures lvl in [Level(best, m[best])] + tail <==> lvl.price in m && m[lvl.price] == lvl.qty
    {
      assert lvl in [Level(best, m[best])] + tail <==> lvl == Level(best, m[best]) || lvl in tail;
    }
  }

  /** It lists every level of the side once, strictly best first. */
  lemma {:induction false} SortedFacts(s: BookSide, m: map<Price, Qty>)
    ensures |SortedLevels(s, m)| == |m|
    ensures Ordered(s, SortedLevels(s, m))
    ensures Represents(SortedLevels(s, m), m)
    decreases |m|
  {
    if m != map[] {
      var best := BestKey(s, m.Keys);
      WithoutKey(m, best);
      SortedFacts(s, m - {best});
      OrderedCons(s, m, best, SortedLevels(s, m - {best}));
      RepresentsCons(m, best, SortedLevels(s, m - {best}));
    }
  }

  /** The first `depth` levels, or all of them when `depth` is not positive. */
  ghost function TopLevels(s: BookSide, m: map<Price, Qty>, depth: int): seq<Level> {
    var ls := SortedLevels(s, m);
    if depth > 0 && |ls| > depth then ls[..depth] else ls
  }

  lemma TopFacts(s: BookSide, m: map<Price, Qty>, depth: int)
    ensures var ls := TopLevels(s, m, depth);
            && |ls| == (if 0 < depth < |m| then depth else |m|)
            && ls <= SortedLevels(s, m)
            && Ordered(s, ls)
  {
    SortedFacts(s, m);
  }

  lemma TopIsTake(s: BookSide, m: map<Price, Qty>, d: nat)
    requires 0 < d <= |m| == |SortedLevels(s, m)|
    ensures TopLevels(s, m, d) == SortedLevels(s, m)[..d]
  {
    SortedFacts(s, m);
    assert |m| == d ==> SortedLevels(s, m)[..d] == SortedLevels(s, m);
  }

  lemma {:induction false} OrderedUnique(s: BookSide, a: seq<Level>, b: seq<Level>)
    requires Ordered(s, a) && Ordered(s, b)
    requires forall lvl :: lvl in a <==> lvl in b
    ensures a == b
  {
    assert b != [] ==> b[0] in b;
    if a != [] {
      assert a[0] in b;
      assert b[0] in a;
      assert a[0] == b[0];
      forall lvl
        ensures lvl in a[1..] <==> lvl in b[1..]
      {
        assert lvl in a <==> lvl == a[0] || lvl in a[1..];
        assert lvl in b <==> lvl == b[0] || lvl in b[1..];
      }
      OrderedUnique(s, a[1..], b[1..]);
      assert a == [a[0]] + a[1..] && b == [b[0]] + b[1..];
    }
  }

  /** `C` holds every price better than one it holds. */
  ghost predicate BestClosed(s: BookSide, C: iset<Price>) {
    forall p, q | q in C && Better(s, p, q) :: p in C
  }

  /** `m` is part of `t`, and inside `C` it is all of `t`. */
  ghost predicate PartOf(m: map<Price, Qty>, t: map<Price, Qty>, C: iset<Price>) {
    && (forall p | p in m :: p in t && t[p] == m[p])
    && (forall p | p in t && p in C :: p in m)
  }

  ghost function HeldIn(m: map<Price, Qty>, C: iset<Price>): set<Price> {
    set p | p in m && p in C
  }

  /** The `d` best levels, taken one at a time. */
  ghost function BestLevels(s: BookSide, m: map<Price, Qty>, d: nat): seq<Level>
    decreases d
  {
    if d == 0 || m == map[] then []
    else
      var best := BestKey(s, m.Keys);
      [Level(best, m[best])] + BestLevels(s, m - {best}, d - 1)
  }

  lemma {:induction false} BestIsTake(s: BookSide, m: map<Price, Qty>, d: nat)
    requires d <= |SortedLevels(s, m)|
    ensures SortedLevels(s, m)[..d] == BestLevels(s, m, d)
    decreases d
  {
    if d > 0 {
      var best := BestKey(s, m.Keys);
      BestIsTake(s, m - {best}, d - 1);
      TakeHead(Level(best, m[best]), SortedLevels(s, m - {best}), d);
    }
  }

  lemma TakeHead(head: Level, tail: seq<Level>, d: nat)
    requires 0 < d <= |tail| + 1
    ensures ([head] + tail)[..d] == [head] + tail[..d - 1]
  {
  }

  lemma {:induction false} BestLevelsAgree(s: BookSide, m: map<Price, Qty>, t: map<Price, Qty>, C: iset<Price>, d: nat)
    requires PartOf(m, t, C)
    requires BestClosed(s, C)
    requires d <= |HeldIn(m, C)|
    ensures BestLevels(s, m, d) == BestLevels(s, t, d)
    decreases d
  {
    if d > 0 {
      BestAgree(s, m, t, C);
      var best := BestKey(s, m.Keys);
      HeldWithout(m, C, best);
      PartWithout(m, t, C, best);
      BestLevelsAgree(s, m - {best}, t - {best}, C, d - 1);
    }
  }

  lemma PartWithout(m: map<Price, Qty>, t: map<Price, Qty>, C: iset<Price>, p: Price)
    requires PartOf(m, t, C)
    ensures PartOf(m - {p}, t - {p}, C)
  {
  }

  /** When `m` is part of `t`, agrees with `t` inside a best-closed set `C` and still holds `d` levels
      in `C`, the `d` best levels of both are the same. */
  lemma TopAgree(s: BookSide, m: map<Price, Qty>, t: map<Price, Qty>, C: iset<Price>, d: nat)
    requires PartOf(m, t, C)
    requires BestClosed(s, C)
    requires d <= |HeldIn(m, C)|
    ensures d <= |m| == |SortedLevels(s, m)| && d <= |t| == |SortedLevels(s, t)|
    ensures SortedLevels(s, m)[..d] == SortedLevels(s, t)[..d]
  {
    HeldFits(m, t, C);
    SortedFacts(s, m);
    SortedFacts(s, t);
    BestLevelsAgree(s, m, t, C, d);
    BestIsTake(s, m, d);
    BestIsTake(s, t, d);
  }

  lemma HeldFits(m: map<Price, Qty>, t: map<Price, Qty>, C: iset<Price>)
    requires PartOf(m, t, C)
    ensures |HeldIn(m, C)| <= |m| <= |t|
  {
    CardinalitySubset(HeldIn(m, C), m.Keys);
    forall p | p in m.Keys
      ensures p in t.Keys
    {
      assert p in m;
    }
    CardinalitySubset(m.Keys, t.Keys);
  }

  lemma HeldWithout(m: map<Price, Qty>, C: iset<Price>, p: Price)
    requires p in m && p in C
    ensures |HeldIn(m, C)| == |HeldIn(m - {p}, C)| + 1
  {
    assert HeldIn(m, C) == HeldIn(m - {p}, C) + {p};
  }

  lemma BestAgree(s: BookSide, m: map<Price, Qty>, t: map<Price, Qty>, C: iset<Price>)
    requires PartOf(m, t, C)
    requires BestClosed(s, C)
    requires HeldIn(m, C) != {}
    ensures m != map[] && t != map[]
    ensures BestKey(s, m.Keys) == BestKey(s, t.Keys)
    ensures BestKey(s, m.Keys) in m && BestKey(s, m.Keys) in C
    ensures m[BestKey(s, m.Keys)] == t[BestKey(s, m.Keys)]
  {
    EmptyKeys(HeldIn(m, C));
    var w :| w in HeldIn(m, C);
    var bm := BestKey(s, m.Keys);
    assert bm in m && bm in C;
    assert bm in t.Keys;
    var bt := BestKey(s, t.Keys);
    assert bt in t && bt in C;
    assert bt in m.Keys;
  }

  lemma CardinalitySubset(a: set<Price>, b: set<Price>)
    requires a <= b
    ensures |a| <= |b|
  {
    assert b == a + (b - a);
  }

  ghost function PricesOf(ls: seq<Level>): set<Price> {
    set i | 0 <= i < |ls| :: ls[i].price
  }

  lemma {:induction false} OrderedCount(s: BookSide, ls: seq<Level>)
    requires Ordered(s, ls)
    ensures |PricesOf(ls)| == |ls|
  {
    if ls != [] {
      var init, last := ls[..|ls| - 1], ls[|ls| - 1];
      OrderedCount(s, init);
      assert PricesOf(ls) == PricesOf(init) + {last.price} by {
        assert forall i | 0 <= i < |init| :: ls[i] == init[i];
      }
      assert last.price !in PricesOf(init);
    }
  }

  // ----- what a listing of the best D levels determines

  /** The prices on which a listing cut at `depth` speaks: all of them when it was not cut,
      otherwise those not worse than its last level. */
  ghost predicate Covers(s: BookSide, ls: seq<Level>, depth: int, p: Price) {
    depth <= 0 || |ls| < depth || !Better(s, ls[|ls| - 1].price, p)
  }

  ghost function Coverage(s: BookSide, ls: seq<Level>, depth: int): iset<Price> {
    iset p | Covers(s, ls, depth, p)
  }

  lemma CoverageClosed(s: BookSide, ls: seq<Level>, depth: int)
    ensures BestClosed(s, Coverage(s, ls, depth))
  {
  }

  /** The top levels of `truth` are true, and list exactly the covered prices that `truth` holds. */
  lemma TopListed(s: BookSide, truth: map<Price, Qty>, depth: int, p: Price)
    ensures var ls := TopLevels(s, truth, depth);
            && ListsTruth(ls, truth)
            && (Listed(ls, p) <==> p in truth && Covers(s, ls, depth, p))
  {
    SortedFacts(s, truth);
    var ls, all := TopLevels(s, truth, depth), SortedLevels(s, truth);
    assert forall i | 0 <= i < |ls| :: ls[i] == all[i] && all[i] in all;
    ListedIsCovered(s, truth, depth, p);
    if p in truth && Covers(s, ls, depth, p) {
      CoveredIsListed(s, truth, depth, p);
    }
  }

  lemma ListedIsCovered(s: BookSide, truth: map<Price, Qty>, depth: int, p: Price)
    ensures var ls := TopLevels(s, truth, depth); Listed(ls, p) ==> p in truth && Covers(s, ls, depth, p)
  {
    SortedFacts(s, truth);
    var ls, all := TopLevels(s, truth, depth), SortedLevels(s, truth);
    if Listed(ls, p) {
      var i :| 0 <= i < |ls| && ls[i].price == p;
      assert ls[i] == all[i] && all[i] in all && ls[|ls| - 1] == all[|ls| - 1];
    }
  }

  lemma CoveredIsListed(s: BookSide, truth: map<Price, Qty>, depth: int, p: Price)
    requires p in truth && Covers(s, TopLevels(s, truth, depth), depth, p)
    ensures Listed(TopLevels(s, truth, depth), p)
  {
    SortedFacts(s, truth);
    var ls, all := TopLevels(s, truth, depth), SortedLevels(s, truth);
    assert Level(p, truth[p]) in all;
    var j :| 0 <= j < |all| && all[j] == Level(p, truth[p]);
    assert j < |ls| by {
      assert ls == all || ls[|ls| - 1] == all[|ls| - 1];
    }
    assert ls[j] == all[j];
  }

  /** Loading the top levels of `truth` gives back `truth` on every covered price, and only covered prices. */
  lemma LoadTopLevels(s: BookSide, truth: map<Price, Qty>, depth: int, p: Price)
    ensures var ls := TopLevels(s, truth, depth);
            && ListsTruth(ls, truth)
            && (Covers(s, ls, depth, p) ==> QtyAt(LoadLevels(ls), p) == QtyAt(truth, p))
            && (p in LoadLevels(ls) ==> Covers(s, ls, depth, p))
  {
    TopListed(s, truth, depth, p);
    LoadTruth(TopLevels(s, truth, depth), truth, p);
  }
}
