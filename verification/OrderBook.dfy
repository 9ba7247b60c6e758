/** The in-memory order book. */
module OrderBook {
  import opened Levels
  import opened Feed

  /** The snapshot that a book with contents `b` and id `id` produces. */
  ghost function SnapshotOf(b: Depth, id: int, depth: int): Snapshot {
    Snapshot(id, TopLevels(Bid, b.bids, depth), TopLevels(Ask, b.asks, depth))
  }

  class Book {
    var bids: map<Price, Qty>
    var asks: map<Price, Qty>
    var lastUpdateId: int

    ghost function Contents(): Depth
      reads this
    {
      Depth(bids, asks)
    }

    /** The book never stores a zero quantity. */
    ghost predicate Valid()
      reads this
    {
      ProperDepth(Contents())
    }

    constructor ()
      ensures Valid() && Contents() == EMPTY && lastUpdateId == 0
    {
      bids, asks, lastUpdateId := map[], map[], 0;
    }

    method Apply(diff: Diff)
      requires Valid()
      modifies this
      ensures Valid()
      ensures Contents() == ApplyDiff(old(Contents()), diff)
      ensures lastUpdateId == diff.final
    {
      for i := 0 to |diff.bids|
        invariant bids == ApplyLevels(old(bids), diff.bids[..i])
        invariant asks == old(asks)
      {
        assert diff.bids[..i + 1][..i] == diff.bids[..i];
        bids := ApplyLevel(bids, diff.bids[i]);
      }
      assert diff.bids[..|diff.bids|] == diff.bids;
      for i := 0 to |diff.asks|
        invariant bids == ApplyLevels(old(bids), diff.bids)
        invariant asks == ApplyLevels(old(asks), diff.asks[..i])
      {
        assert diff.asks[..i + 1][..i] == diff.asks[..i];
        asks := ApplyLevel(asks, diff.asks[i]);
      }
      assert diff.asks[..|diff.asks|] == diff.asks;
      lastUpdateId := diff.final;
      ApplyNoZero(old(bids), diff.bids);
      ApplyNoZero(old(asks), diff.asks);
    }

    method Snapshot(depth: int) returns (snap: Snapshot)
      ensures snap == SnapshotOf(Contents(), lastUpdateId, depth)
    {
      var bidLevels := TakeLevels(bids, Bid, depth);
      var askLevels := TakeLevels(asks, Ask, depth);
      snap := Feed.Snapshot(lastUpdateId, bidLevels, askLevels);
    }

    method Reset()
      modifies this
      ensures Valid() && Contents() == EMPTY && lastUpdateId == 0
    {
      bids, asks := map[], map[];
      lastUpdateId := 0;
    }

    method LoadSnapshot(snap: Snapshot)
      modifies this
      ensures Valid()
      ensures Contents() == LoadDepth(snap)
      ensures lastUpdateId == snap.lastUpdateId
    {
      bids, asks := map[], map[];
      for i := 0 to |snap.bids|
        invariant bids == LoadLevels(snap.bids[..i])
        invariant asks == map[]
      {
        assert snap.bids[..i + 1][..i] == snap.bids[..i];
        if snap.bids[i].qty != 0.0 {
          bids := bids[snap.bids[i].price := snap.bids[i].qty];
        }
      }
      assert snap.bids[..|snap.bids|] == snap.bids;
      for i := 0 to |snap.asks|
        invariant bids == LoadLevels(snap.bids)
        invariant asks == LoadLevels(snap.asks[..i])
      {
        assert snap.asks[..i + 1][..i] == snap.asks[..i];
        if snap.asks[i].qty != 0.0 {
          asks := asks[snap.asks[i].price := snap.asks[i].qty];
        }
      }
      assert snap.asks[..|snap.asks|] == snap.asks;
      lastUpdateId := snap.lastUpdateId;
      LoadProper(snap);
    }
  }

  /** Lists a side in whatever order the map yields it, sorts the list best first and cuts it at `depth`. */
  method TakeLevels(side: map<Price, Qty>, s: BookSide, depth: int) returns (levels: seq<Level>)
    ensures levels == TopLevels(s, side, depth)
  {
    levels := [];
    var keys := side.Keys;
    while keys != {}
      invariant keys <= side.Keys
      invariant forall lvl :: lvl in levels <==> lvl.price in side && lvl.price !in keys && side[lvl.price] == lvl.qty
      invariant Distinct(levels)
      decreases keys
    {
      EmptyKeys(keys);
      var price :| price in keys;
      levels := levels + [Level(price, side[price])];
      keys := keys - {price};
    }
    levels := SortLevels(s, levels);
    SortedFacts(s, side);
    OrderedUnique(s, levels, SortedLevels(s, side));
    if depth > 0 && |levels| > depth {
      levels := levels[..depth];
    }
  }

  ghost predicate Distinct(levels: seq<Level>) {
    forall i, j | 0 <= i < j < |levels| :: levels[i].price != levels[j].price
  }

  /** Stands in for the library sort: the best-first arrangement of levels with distinct prices. */
  method SortLevels(s: BookSide, levels: seq<Level>) returns (sorted: seq<Level>)
    requires Distinct(levels)
    ensures Ordered(s, sorted)
    ensures forall lvl :: lvl in sorted <==> lvl in levels
  {
    sorted := [];
    for i := 0 to |levels|
      invariant Ordered(s, sorted)
      invariant forall lvl :: lvl in sorted <==> lvl in levels[..i]
    {
      var lvl := levels[i];
      var j := 0;
      while j < |sorted| && Better(s, sorted[j].price, lvl.price)
        invariant 0 <= j <= |sorted|
        invariant forall k | 0 <= k < j :: Better(s, sorted[k].price, lvl.price)
      {
        j := j + 1;
      }
      InsertOrdered(s, sorted, j, lvl, levels, i);
      sorted := sorted[..j] + [lvl] + sorted[j..];
      assert levels[..i + 1] == levels[..i] + [lvl];
    }
    assert levels[..|levels|] == levels;
  }

  lemma InsertOrdered(s: BookSide, sorted: seq<Level>, j: nat, lvl: Level, levels: seq<Level>, i: nat)
    requires Distinct(levels) && i < |levels| && lvl == levels[i]
    requires Ordered(s, sorted) && (forall x | x in sorted :: x in levels[..i])
    requires j <= |sorted| && forall k | 0 <= k < j :: Better(s, sorted[k].price, lvl.price)
    requires j < |sorted| ==> !Better(s, sorted[j].price, lvl.price)
    ensures Ordered(s, sorted[..j] + [lvl] + sorted[j..])
    ensures forall x :: x in sorted[..j] + [lvl] + sorted[j..] <==> x in sorted || x == lvl
  {
    if j < |sorted| {
      assert sorted[j] in sorted;
      var k :| 0 <= k < i && levels[..i][k] == sorted[j];
      assert levels[k].price != levels[i].price;
      assert Better(s, lvl.price, sorted[j].price);
    }
    assert sorted == sorted[..j] + sorted[j..];
  }

  // ----- round trips

  /** Loading a full snapshot of a book restores both sides. */
  lemma SnapshotRoundTrip(b: Depth, id: int)
    requires ProperDepth(b)
    ensures LoadDepth(SnapshotOf(b, id, 0)) == b
  {
    SideRoundTrip(Bid, b.bids);
    SideRoundTrip(Ask, b.asks);
  }

  lemma SideRoundTrip(s: BookSide, m: map<Price, Qty>)
    requires NoZero(m)
    ensures LoadLevels(TopLevels(s, m, 0)) == m
  {
    var ls := TopLevels(s, m, 0);
    LoadNoZero(ls);
    forall p
      ensures QtyAt(LoadLevels(ls), p) == QtyAt(m, p)
    {
      LoadTopLevels(s, m, 0, p);
    }
    SidesEqual(LoadLevels(ls), m);
  }

  /** Loading a snapshot cut at `depth` restores every price not worse than the last level, holds nothing
      else, and holds the best `depth` levels of the original, so snapshotting again changes nothing. */
  lemma TruncatedRoundTrip(b: Depth, id: int, depth: nat, s: BookSide)
    requires ProperDepth(b) && depth > 0
    ensures var snap := SnapshotOf(b, id, depth);
            && (forall p | Covers(s, SnapSide(snap, s), depth, p) ::
                  QtyAt(LoadDepth(snap).Side(s), p) == QtyAt(b.Side(s), p))
            && (forall p | p in LoadDepth(snap).Side(s) :: Covers(s, SnapSide(snap, s), depth, p))
            && SnapSide(SnapshotOf(LoadDepth(snap), id, depth), s) == SnapSide(snap, s)
  {
    var snap := SnapshotOf(b, id, depth);
    var ls := SnapSide(snap, s);
    var m := LoadDepth(snap).Side(s);
    forall p
      ensures Covers(s, ls, depth, p) ==> QtyAt(m, p) == QtyAt(b.Side(s), p)
      ensures p in m ==> Covers(s, ls, depth, p)
    {
      LoadTopLevels(s, b.Side(s), depth, p);
    }
    LoadListed(s, b.Side(s), depth);
    SortedFacts(s, m);
    TopFacts(s, b.Side(s), depth);
    OrderedUnique(s, SortedLevels(s, m), ls);
  }

  lemma LoadListed(s: BookSide, m: map<Price, Qty>, depth: int)
    requires NoZero(m)
    ensures Represents(TopLevels(s, m, depth), LoadLevels(TopLevels(s, m, depth)))
    ensures Ordered(s, TopLevels(s, m, depth))
  {
    SortedFacts(s, m);
    TopFacts(s, m, depth);
    var ls := TopLevels(s, m, depth);
    var all := SortedLevels(s, m);
    LoadNoZero(ls);
    forall lvl
      ensures lvl in ls <==> lvl.price in LoadLevels(ls) && LoadLevels(ls)[lvl.price] == lvl.qty
    {
      LoadTopLevels(s, m, depth, lvl.price);
      LoadTruth(ls, m, lvl.price);
      if lvl in ls {
        var i :| 0 <= i < |ls| && ls[i] == lvl;
        assert ls[i] == all[i];
        assert all[i] in all;
        assert Listed(ls, lvl.price);
        assert lvl.qty != 0.0;
      } else if lvl.price in LoadLevels(ls) {
        var i :| 0 <= i < |ls| && ls[i].price == lvl.price;
        assert ls[i].qty == QtyAt(m, lvl.price);
        assert ls[i] in ls;
      }
    }
  }

  /** What a snapshot lists: strictly best first, levels of the side with their quantities, as many as the depth
      and the side allow, and none that is left out is better than one that is listed. */
  lemma SnapshotIsBest(s: BookSide, m: map<Price, Qty>, d: nat)
    requires d > 0
    ensures var ls := TopLevels(s, m, d);
            && Ordered(s, ls)
            && |ls| == (if |m| < d then |m| else d)
            && (forall lvl | lvl in ls :: lvl.price in m && m[lvl.price] == lvl.qty)
            && (forall p, lvl | p in m && lvl in ls && !Listed(ls, p) :: Better(s, lvl.price, p))
  {
    SortedFacts(s, m);
    TopFacts(s, m, d);
    var ls, all := TopLevels(s, m, d), SortedLevels(s, m);
    assert ls == all[..|ls|];
    forall p, lvl | p in m && lvl in ls && !Listed(ls, p)
      ensures Better(s, lvl.price, p)
    {
      assert Level(p, m[p]) in all;
      var i :| 0 <= i < |ls| && ls[i] == lvl;
      var j :| 0 <= j < |all| && all[j] == Level(p, m[p]);
      assert forall k | 0 <= k < |ls| :: all[k] == ls[k] && all[k].price != p;
      assert i < |ls| <= j;
    }
  }

  /** A shallower snapshot is a prefix of a deeper one. */
  lemma SnapshotPrefix(s: BookSide, m: map<Price, Qty>, d: nat, d': int)
    requires 0 < d && (d <= d' || d' <= 0)
    ensures TopLevels(s, m, d) <= TopLevels(s, m, d')
  {
    SortedFacts(s, m);
    TopFacts(s, m, d);
    TopFacts(s, m, d');
    var all := SortedLevels(s, m);
    var x, y := TopLevels(s, m, d), TopLevels(s, m, d');
    assert x == all[..|x|] && y == all[..|y|];
  }
}
