/** What a snapshot cut at its depth limit leaves open, and what a book built from it can still promise.

    A cut snapshot is silent about prices worse than its last level.  The exchange may have a level there that no
    diff will ever mention, so a listing of the book is certain only as far as covered levels reach. */
module Truncation {
  import opened Levels
  import opened Feed
  import OrderBook

  // ----- a price of which nothing is known

  /** Strictly worse than `last`, and better than every worse price that a diff lists. */
  ghost predicate JustBeyond(s: BookSide, last: Price, ds: seq<Diff>, q: Price) {
    Better(s, last, q) && forall p | Better(s, last, p) && Touched(ds, s, p) :: Better(s, q, p)
  }

  /** Between `last` and `start`, and better than every worse price in the list. */
  lemma {:induction false} BeyondLevels(s: BookSide, last: Price, ls: seq<Level>, start: Price) returns (q: Price)
    requires Better(s, last, start)
    ensures Better(s, last, q) && !Better(s, start, q)
    ensures forall p | Better(s, last, p) && Listed(ls, p) :: Better(s, q, p)
  {
    if ls == [] {
      q := start;
    } else {
      q := BeyondLevels(s, last, ls[..|ls| - 1], start);
      var p := ls[|ls| - 1].price;
      if Better(s, last, p) && !Better(s, q, p) {
        q := (last + p) / 2.0;
      }
      forall p | Better(s, last, p) && Listed(ls, p)
        ensures Better(s, q, p)
      {
        ListedSplit(ls, p);
      }
    }
  }

  lemma {:induction false} BeyondDiffs(s: BookSide, last: Price, ds: seq<Diff>, start: Price) returns (q: Price)
    requires Better(s, last, start)
    ensures JustBeyond(s, last, ds, q) && !Better(s, start, q)
  {
    if ds == [] {
      q := start;
    } else {
      var init := BeyondDiffs(s, last, ds[..|ds| - 1], start);
      q := BeyondLevels(s, last, DiffSide(ds[|ds| - 1], s), init);
      forall p | Better(s, last, p) && Touched(ds, s, p)
        ensures Better(s, q, p)
      {
        TouchedSplit(ds, s, p);
      }
    }
  }

  /** There always is such a price; below a positive bid there is a positive one. */
  lemma SomePriceBeyond(s: BookSide, last: Price, ds: seq<Diff>) returns (q: Price)
    ensures JustBeyond(s, last, ds, q)
    ensures last > 0.0 ==> q > 0.0
  {
    var start := if s == Ask then last + 1.0 else if last > 0.0 then last / 2.0 else last - 1.0;
    q := BeyondDiffs(s, last, ds, start);
  }

  // ----- the history in which one unit rests there

  ghost function WithLevel(E: Timeline, s: BookSide, q: Price): Timeline {
    k => WithSide(E(k), s, E(k).Side(s)[q := 1.0])
  }

  lemma WithLevelAt(E: Timeline, s: BookSide, q: Price, k: int, t: BookSide, p: Price)
    ensures At(WithLevel(E, s, q), k, t, p) == if t == s && p == q then 1.0 else At(E, k, t, p)
    ensures ProperDepth(E(k)) ==> ProperDepth(WithLevel(E, s, q)(k))
    ensures WithLevel(E, s, q)(k).Side(s) == E(k).Side(s)[q := 1.0]
    ensures t != s ==> WithLevel(E, s, q)(k).Side(t) == E(k).Side(t)
  {
    assert WithLevel(E, s, q)(k) == WithSide(E(k), s, E(k).Side(s)[q := 1.0]);
  }

  lemma WithLevelTruthful(E: Timeline, s: BookSide, q: Price, d: Diff)
    requires TruthfulDiff(E, d) && !Listed(DiffSide(d, s), q)
    ensures TruthfulDiff(WithLevel(E, s, q), d)
  {
    var E' := WithLevel(E, s, q);
    forall t: BookSide
      ensures ListsTruth(DiffSide(d, t), E'(d.final).Side(t))
    {
      assert ListsTruth(DiffSide(d, t), E(d.final).Side(t));
      forall i | 0 <= i < |DiffSide(d, t)|
        ensures DiffSide(d, t)[i].qty == QtyAt(E'(d.final).Side(t), DiffSide(d, t)[i].price)
      {
        WithLevelAt(E, s, q, d.final, t, DiffSide(d, t)[i].price);
      }
    }
    forall t: BookSide, p, k | d.first - 1 <= k <= d.final && !Listed(DiffSide(d, t), p)
      ensures At(E', k, t, p) == At(E', d.first - 1, t, p)
    {
      WithLevelAt(E, s, q, k, t, p);
      WithLevelAt(E, s, q, d.first - 1, t, p);
      assert At(E, k, t, p) == At(E, d.first - 1, t, p);
    }
  }

  /** A level behind the `depth` best ones does not show in them, whatever its quantity. */
  lemma BehindTop(s: BookSide, m: map<Price, Qty>, depth: nat, q: Price, x: Qty)
    requires 0 < depth == |TopLevels(s, m, depth)|
    requires Better(s, TopLevels(s, m, depth)[depth - 1].price, q)
    ensures TopLevels(s, m[q := x], depth) == TopLevels(s, m, depth)
  {
    var ls := TopLevels(s, m, depth);
    var C := Coverage(s, ls, depth);
    var rest := m - {q};
    TopHeld(s, m, depth, q);
    CoverageClosed(s, ls, depth);
    assert q !in C;
    TopAgree(s, rest, m, C, depth);
    TopAgree(s, rest, m[q := x], C, depth);
    TopIsTake(s, m, depth);
    TopIsTake(s, m[q := x], depth);
  }

  lemma TopHeld(s: BookSide, m: map<Price, Qty>, depth: nat, q: Price)
    requires 0 < depth == |TopLevels(s, m, depth)|
    requires Better(s, TopLevels(s, m, depth)[depth - 1].price, q)
    ensures depth <= |HeldIn(m - {q}, Coverage(s, TopLevels(s, m, depth), depth))|
  {
    var ls := TopLevels(s, m, depth);
    var held := HeldIn(m - {q}, Coverage(s, ls, depth));
    TopFacts(s, m, depth);
    OrderedCount(s, ls);
    forall i | 0 <= i < |ls|
      ensures ls[i].price in held
    {
      assert Listed(ls, ls[i].price);
      TopListed(s, m, depth, ls[i].price);
    }
    CardinalitySubset(PricesOf(ls), held);
  }

  lemma WithLevelExplains(E: Timeline, snap: Snapshot, depth: int, ds: seq<Diff>, s: BookSide, q: Price)
    requires Explains(E, snap, depth, ds) && !Uncut(snap, s, depth)
    requires JustBeyond(s, SnapSide(snap, s)[|SnapSide(snap, s)| - 1].price, ds, q)
    ensures Explains(WithLevel(E, s, q), snap, depth, ds)
  {
    var E', id := WithLevel(E, s, q), snap.lastUpdateId;
    forall k
      ensures ProperDepth(E'(k))
    {
      WithLevelAt(E, s, q, k, s, q);
      assert ProperDepth(E(k));
    }
    forall j | 0 <= j < |ds|
      ensures TruthfulDiff(E', ds[j])
    {
      assert !Touched(ds, s, q);
      WithLevelTruthful(E, s, q, ds[j]);
    }
    forall t: BookSide
      ensures SnapSide(snap, t) == TopLevels(t, E'(id).Side(t), depth)
    {
      assert SnapSide(snap, t) == TopLevels(t, E(id).Side(t), depth);
      WithLevelAt(E, s, q, id, t, q);
      if t == s {
        TopFacts(s, E(id).Side(s), depth);
        BehindTop(s, E(id).Side(s), depth, q, 1.0);
      }
    }
  }

  // ----- how deep a listing can be trusted

  /** A listing in which `q` is missing although it is there is cut, and lists better prices only. */
  lemma MissedBeyond(s: BookSide, t: map<Price, Qty>, d: int, q: Price)
    requires q in t && !Listed(TopLevels(s, t, d), q)
    ensures 0 < d == |TopLevels(s, t, d)|
    ensures forall lvl | lvl in TopLevels(s, t, d) :: Better(s, lvl.price, q)
  {
    WholeListed(s, t, d, q);
    TopFacts(s, t, d);
    OrderBook.SnapshotIsBest(s, t, d);
  }

  lemma WholeListed(s: BookSide, t: map<Price, Qty>, d: int, q: Price)
    requires q in t
    ensures d <= 0 || |t| <= d ==> Listed(TopLevels(s, t, d), q)
  {
    SortedFacts(s, t);
    assert Level(q, t[q]) in SortedLevels(s, t);
  }

  /** More levels are listed than are held within `C`: one of them is not held there. */
  lemma ListedOutside(s: BookSide, m: map<Price, Qty>, C: iset<Price>, ls: seq<Level>) returns (p: Price)
    requires Ordered(s, ls) && |ls| > |HeldIn(m, C)|
    ensures Listed(ls, p) && p !in HeldIn(m, C)
  {
    OrderedCount(s, ls);
    if PricesOf(ls) <= HeldIn(m, C) {
      CardinalitySubset(PricesOf(ls), HeldIn(m, C));
      assert false;
    }
    p :| p in PricesOf(ls) && p !in HeldIn(m, C);
  }

  /** A listing of `t` that goes deeper than the levels `m` holds within `C` has a price that `m` does not hold. */
  lemma SomeMissing(s: BookSide, m: map<Price, Qty>, t: map<Price, Qty>, C: iset<Price>, d: int, q: Price)
    returns (p: Price)
    requires q in t && q !in m && !(0 < d <= |HeldIn(m, C)|)
    requires forall x | x in m && x !in C :: Better(s, q, x)
    ensures Listed(TopLevels(s, t, d), p) && p !in m
  {
    var ls := TopLevels(s, t, d);
    if Listed(ls, q) {
      p := q;
    } else {
      MissedBeyond(s, t, d, q);
      TopFacts(s, t, d);
      p := ListedOutside(s, m, C, ls);
      var i :| 0 <= i < |ls| && ls[i].price == p;
      assert ls[i] in ls;
    }
  }

  /** With a level just beyond the coverage, a listing that goes deeper than the covered levels is wrong. */
  lemma DeeperIsWrong(E: Timeline, book: Depth, k: int, snap: Snapshot, depth: int, ds: seq<Diff>, s: BookSide, d: int,
                      q: Price)
    requires ExactOnWindow(E, book, k, snap, depth, ds)
    requires !Uncut(snap, s, depth) && !(0 < d <= CoveredLevels(book, snap, depth, s))
    requires JustBeyond(s, SnapSide(snap, s)[|SnapSide(snap, s)| - 1].price, ds, q) && q in E(k).Side(s)
    ensures TopLevels(s, book.Side(s), d) != TopLevels(s, E(k).Side(s), d)
  {
    var m := book.Side(s);
    assert !InWindow(snap, depth, ds, s, q);
    forall x | x in m && x !in Coverage(s, SnapSide(snap, s), depth)
      ensures Better(s, q, x)
    {
      assert InWindow(snap, depth, ds, s, x);
    }
    var p := SomeMissing(s, m, E(k).Side(s), Coverage(s, SnapSide(snap, s), depth), d, q);
    TopListed(s, m, d, p);
  }

  /** Exactly how deep can a side be published?  Once gapless diffs have caught up with the snapshot, the `d` best
      levels of the book are those of every history that explains the inputs if and only if the snapshot was not
      cut on that side or the book still holds `d` of the levels it covered; `d` is not positive when the whole
      side is listed.  The other histories are those of `WithLevel`: they rest one unit just beyond the cut at all ids
      and so cross the book whenever the other side has been past the cut; nothing in the inputs excludes them. */
  lemma TopTrustIff(E: Timeline, snap: Snapshot, depth: int, ds: seq<Diff>, s: BookSide, d: int)
    requires Explains(E, snap, depth, ds)
    requires Gapless(snap.lastUpdateId, ds) && snap.lastUpdateId <= FinalId(snap.lastUpdateId, ds)
    ensures var book, k := ApplyAll(LoadDepth(snap), ds), FinalId(snap.lastUpdateId, ds);
            (Uncut(snap, s, depth) || 0 < d <= CoveredLevels(book, snap, depth, s)) <==>
            forall E': Timeline | Explains(E', snap, depth, ds) ::
              TopLevels(s, book.Side(s), d) == TopLevels(s, E'(k).Side(s), d)
  {
    var book, k := ApplyAll(LoadDepth(snap), ds), FinalId(snap.lastUpdateId, ds);
    LoadProper(snap);
    ApplyAllProper(LoadDepth(snap), ds);
    if Uncut(snap, s, depth) || 0 < d <= CoveredLevels(book, snap, depth, s) {
      forall E': Timeline | Explains(E', snap, depth, ds)
        ensures TopLevels(s, book.Side(s), d) == TopLevels(s, E'(k).Side(s), d)
      {
        WindowExact(E', snap, depth, ds);
        if Uncut(snap, s, depth) {
          SideExact(E', book, k, snap, depth, ds, s);
        } else {
          TopExact(E', book, k, snap, depth, ds, s, d);
        }
      }
    } else {
      var q := SomePriceBeyond(s, SnapSide(snap, s)[|SnapSide(snap, s)| - 1].price, ds);
      var E' := WithLevel(E, s, q);
      WithLevelExplains(E, snap, depth, ds, s, q);
      WithLevelAt(E, s, q, k, s, q);
      WindowExact(E', snap, depth, ds);
      DeeperIsWrong(E', book, k, snap, depth, ds, s, d, q);
    }
  }

  // ----- what a checkpoint of such a book is good for

  /** The prices at which a checkpoint `c` of the book is certain: those it covers and the book's window contains. */
  ghost predicate Known(snap: Snapshot, depth: int, ds: seq<Diff>, c: Snapshot, s: BookSide, p: Price) {
    InWindow(snap, depth, ds, s, p) && Covers(s, SnapSide(c, s), depth, p)
  }

  /** However few covered levels are left, the checkpoint is right wherever it is certain and lists nothing else. */
  lemma CheckpointKnown(E: Timeline, book: Depth, k: int, snap: Snapshot, depth: int, ds: seq<Diff>, s: BookSide,
                        p: Price)
    requires ExactOnWindow(E, book, k, snap, depth, ds)
    ensures var c := OrderBook.SnapshotOf(book, k, depth);
            && (Known(snap, depth, ds, c, s, p) ==> QtyAt(LoadDepth(c).Side(s), p) == At(E, k, s, p))
            && (p in LoadDepth(c).Side(s) ==> Known(snap, depth, ds, c, s, p))
  {
    var c := OrderBook.SnapshotOf(book, k, depth);
    LoadTopLevels(s, book.Side(s), depth, p);
    LoadTruth(SnapSide(c, s), book.Side(s), p);
    if p in LoadDepth(c).Side(s) {
      TopListed(s, book.Side(s), depth, p);
    }
  }

  /** Replaying gapless true diffs from such a checkpoint is right there and wherever the diffs say something. */
  lemma ReplayKnown(E: Timeline, book: Depth, k: int, snap: Snapshot, depth: int, ds: seq<Diff>, rs: seq<Diff>)
    requires ExactOnWindow(E, book, k, snap, depth, ds)
    requires TruthfulDiffs(E, rs) && Gapless(k, rs) && k <= FinalId(k, rs)
    ensures var c := OrderBook.SnapshotOf(book, k, depth); var replayed := ApplyAll(LoadDepth(c), rs);
            && (forall s: BookSide, p | Known(snap, depth, ds, c, s, p) || Touched(rs, s, p) ::
                  QtyAt(replayed.Side(s), p) == At(E, FinalId(k, rs), s, p))
            && (forall s: BookSide, p | p in replayed.Side(s) ::
                  Known(snap, depth, ds, c, s, p) || Touched(rs, s, p))
  {
    var c := OrderBook.SnapshotOf(book, k, depth);
    var replayed := ApplyAll(LoadDepth(c), rs);
    forall s: BookSide, p | Known(snap, depth, ds, c, s, p) || Touched(rs, s, p)
      ensures QtyAt(replayed.Side(s), p) == At(E, FinalId(k, rs), s, p)
    {
      CheckpointKnown(E, book, k, snap, depth, ds, s, p);
      RunMakesTrue(E, k, LoadDepth(c), rs, s, p);
    }
    forall s: BookSide, p | p in replayed.Side(s)
      ensures Known(snap, depth, ds, c, s, p) || Touched(rs, s, p)
    {
      HeldOrTouched(LoadDepth(c), rs, s, p);
      CheckpointKnown(E, book, k, snap, depth, ds, s, p);
    }
  }
}
