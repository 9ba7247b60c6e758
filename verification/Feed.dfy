/** Depth diffs, snapshots and the exchange timeline they report on.

    Diffs carry absolute quantities, so re-applying one is harmless only as long as every price it
    rewinds is written again by a later one.  The theorems here say exactly when a snapshot followed
    by a list of diffs reproduces the exchange: `WindowExact` on what the snapshot covered,
    `CompleteExact` on the whole book, `GaplessIff` that a gapless list is also necessary. */
module Feed {
  import opened Levels

  datatype Diff = Diff(eventTime: int, first: int, final: int, bids: seq<Level>, asks: seq<Level>)

  datatype Snapshot = Snapshot(lastUpdateId: int, bids: seq<Level>, asks: seq<Level>)

  /** Both sides of a book. */
  datatype Depth = Depth(bids: map<Price, Qty>, asks: map<Price, Qty>) {
    function Side(s: BookSide): map<Price, Qty> {
      if s == Bid then bids else asks
    }
  }

  const EMPTY: Depth := Depth(map[], map[])

  function DiffSide(d: Diff, s: BookSide): seq<Level> {
    if s == Bid then d.bids else d.asks
  }

  function SnapSide(snap: Snapshot, s: BookSide): seq<Level> {
    if s == Bid then snap.bids else snap.asks
  }

  function ApplyDiff(b: Depth, d: Diff): Depth {
    Depth(ApplyLevels(b.bids, d.bids), ApplyLevels(b.asks, d.asks))
  }

  function ApplyAll(b: Depth, ds: seq<Diff>): Depth {
    if ds == [] then b else ApplyDiff(ApplyAll(b, ds[..|ds| - 1]), ds[|ds| - 1])
  }

  function LoadDepth(snap: Snapshot): Depth {
    Depth(LoadLevels(snap.bids), LoadLevels(snap.asks))
  }

  /** The id the book carries after a snapshot at `id` and then `ds`. */
  function FinalId(id: int, ds: seq<Diff>): int {
    if ds == [] then id else ds[|ds| - 1].final
  }

  /** The id the book carries before the diff at position `i`. */
  function IdBefore(id: int, ds: seq<Diff>, i: nat): int
    requires i <= |ds|
  {
    if i == 0 then id else ds[i - 1].final
  }

  // ----- the exchange

  /** The exchange's own book after each update id. */
  type Timeline = int -> Depth

  ghost function At(E: Timeline, k: int, s: BookSide, p: Price): Qty {
    QtyAt(E(k).Side(s), p)
  }

  ghost predicate ProperDepth(b: Depth) {
    NoZero(b.bids) && NoZero(b.asks)
  }

  ghost predicate Proper(E: Timeline) {
    forall k :: ProperDepth(E(k))
  }

  /** A diff covering ids first..final lists the exchange's quantity at `final` for the prices that
      moved, and nothing moved at any other price. */
  ghost predicate TruthfulDiff(E: Timeline, d: Diff) {
    && d.first <= d.final
    && (forall s: BookSide :: ListsTruth(DiffSide(d, s), E(d.final).Side(s)))
    && (forall s: BookSide, p, k | d.first - 1 <= k <= d.final && !Listed(DiffSide(d, s), p) ::
          At(E, k, s, p) == At(E, d.first - 1, s, p))
  }

  ghost predicate TruthfulDiffs(E: Timeline, ds: seq<Diff>) {
    forall i | 0 <= i < |ds| :: TruthfulDiff(E, ds[i])
  }

  /** A snapshot requested with a depth limit lists the best `depth` levels of each side. */
  ghost predicate TruthfulSnapshot(E: Timeline, snap: Snapshot, depth: int) {
    && 0 <= snap.lastUpdateId
    && (forall s: BookSide :: SnapSide(snap, s) == TopLevels(s, E(snap.lastUpdateId).Side(s), depth))
  }

  /** No id between the snapshot and the last diff is skipped, and final ids never go back. */
  predicate Gapless(id: int, ds: seq<Diff>) {
    && (forall i | 0 <= i < |ds| :: ds[i].first <= IdBefore(id, ds, i) + 1)
    && (forall i | 0 < i < |ds| :: ds[i - 1].final <= ds[i].final)
  }

  /** Each diff starts right after the one before it. */
  ghost predicate Contiguous(ds: seq<Diff>) {
    && (forall i | 0 <= i < |ds| :: ds[i].first <= ds[i].final)
    && (forall i | 0 < i < |ds| :: ds[i].first == ds[i - 1].final + 1)
  }

  /** A feed whose ids only move forward; gaps and overlaps are allowed. */
  ghost predicate InOrder(ds: seq<Diff>) {
    && (forall i | 0 <= i < |ds| :: ds[i].first <= ds[i].final)
    && (forall i, j | 0 <= i < j < |ds| :: ds[i].first <= ds[j].first && ds[i].final <= ds[j].final)
  }

  ghost predicate Touched(ds: seq<Diff>, s: BookSide, p: Price) {
    exists i | 0 <= i < |ds| :: Listed(DiffSide(ds[i], s), p)
  }

  /** The prices on which the book must agree with the exchange: those the snapshot covered
      and those a diff has listed since. */
  ghost predicate InWindow(snap: Snapshot, depth: int, ds: seq<Diff>, s: BookSide, p: Price) {
    Covers(s, SnapSide(snap, s), depth, p) || Touched(ds, s, p)
  }

  /** The book agrees with the exchange on the window, and holds no level outside it. */
  ghost predicate ExactOnWindow(E: Timeline, book: Depth, k: int, snap: Snapshot, depth: int, ds: seq<Diff>) {
    && (forall s: BookSide, p | InWindow(snap, depth, ds, s, p) :: QtyAt(book.Side(s), p) == At(E, k, s, p))
    && (forall s: BookSide, p | p in book.Side(s) :: InWindow(snap, depth, ds, s, p))
  }

  // ----- lists of diffs

  lemma TouchedSplit(ds: seq<Diff>, s: BookSide, p: Price)
    requires ds != []
    ensures Touched(ds, s, p) <==> Touched(ds[..|ds| - 1], s, p) || Listed(DiffSide(ds[|ds| - 1], s), p)
  {
    var init := ds[..|ds| - 1];
    if Touched(ds, s, p) {
      var i :| 0 <= i < |ds| && Listed(DiffSide(ds[i], s), p);
      if i < |ds| - 1 {
        assert init[i] == ds[i];
      }
    }
    if Touched(init, s, p) {
      var i :| 0 <= i < |init| && Listed(DiffSide(init[i], s), p);
      assert init[i] == ds[i];
    }
  }

  lemma GaplessPrefix(id: int, ds: seq<Diff>, n: nat)
    requires Gapless(id, ds) && n <= |ds|
    ensures Gapless(id, ds[..n])
  {
    forall i | 0 <= i < n
      ensures ds[..n][i].first <= IdBefore(id, ds[..n], i) + 1
    {
      assert ds[i].first <= IdBefore(id, ds, i) + 1;
    }
  }

  lemma ApplyAllProper(b: Depth, ds: seq<Diff>)
    requires ProperDepth(b)
    ensures ProperDepth(ApplyAll(b, ds))
  {
    if ds != [] {
      var init, d := ds[..|ds| - 1], ds[|ds| - 1];
      ApplyAllProper(b, init);
      ApplyNoZero(ApplyAll(b, init).bids, d.bids);
      ApplyNoZero(ApplyAll(b, init).asks, d.asks);
    }
  }

  lemma ApplyAllSnoc(b: Depth, ds: seq<Diff>, d: Diff)
    ensures ApplyAll(b, ds + [d]) == ApplyDiff(ApplyAll(b, ds), d)
  {
    assert (ds + [d])[..|ds|] == ds;
  }

  lemma {:induction false} ApplyAllConcat(b: Depth, ds: seq<Diff>, es: seq<Diff>)
    ensures ApplyAll(b, ds + es) == ApplyAll(ApplyAll(b, ds), es)
  {
    if es == [] {
      assert ds + es == ds;
    } else {
      var init, e := es[..|es| - 1], es[|es| - 1];
      ApplyAllConcat(b, ds, init);
      assert ds + es == ds + init + [e];
      ApplyAllSnoc(b, ds + init, e);
    }
  }

  lemma ApplyDiffSide(b: Depth, d: Diff, s: BookSide)
    ensures ApplyDiff(b, d).Side(s) == ApplyLevels(b.Side(s), DiffSide(d, s))
  {
  }

  lemma ContiguousGapless(id: int, ds: seq<Diff>)
    requires Contiguous(ds)
    ensures Gapless(id, ds) <==> (ds != [] ==> ds[0].first <= id + 1)
  {
    if ds != [] && Gapless(id, ds) {
      assert ds[0].first <= IdBefore(id, ds, 0) + 1;
    }
  }

  lemma ContiguousInOrder(ds: seq<Diff>)
    requires Contiguous(ds)
    ensures InOrder(ds)
  {
    forall i, j | 0 <= i < j < |ds|
      ensures ds[i].first <= ds[j].first && ds[i].final <= ds[j].final
    {
      ContiguousGrows(ds, i, j);
    }
  }

  lemma ContiguousGrows(ds: seq<Diff>, i: nat, j: nat)
    requires Contiguous(ds) && i < j < |ds|
    ensures ds[i].final < ds[j].first
  {
    if i + 1 < j {
      ContiguousGrows(ds, i, j - 1);
    }
  }

  lemma ContiguousSlice(ds: seq<Diff>, j: nat, n: nat, run: seq<Diff>)
    requires Contiguous(ds) && j <= n <= |ds| && run == ds[j..n]
    ensures Contiguous(run)
  {
    assert forall i | 0 <= i < |run| :: run[i] == ds[j + i];
  }

  lemma FinalsAscend(ds: seq<Diff>, i: nat, j: nat)
    requires Contiguous(ds) && i <= j < |ds|
    ensures ds[i].first <= ds[j].final && ds[i].final <= ds[j].final
  {
    if i < j {
      ContiguousGrows(ds, i, j);
    }
  }

  // ----- convergence

  lemma TruthfulPrefix(E: Timeline, ds: seq<Diff>, n: nat)
    requires TruthfulDiffs(E, ds) && n <= |ds|
    ensures TruthfulDiffs(E, ds[..n])
    ensures n < |ds| ==> TruthfulDiff(E, ds[n])
  {
  }

  /** The last diff of a gapless run picks up no later than where the others stopped. */
  lemma LastPicksUp(id: int, ds: seq<Diff>)
    requires |ds| > 1 && Gapless(id, ds)
    ensures ds[|ds| - 1].first - 1 <= FinalId(id, ds[..|ds| - 1]) <= ds[|ds| - 1].final
    ensures ds[..|ds| - 1][0] == ds[0]
  {
    var n := |ds| - 1;
    assert ds[n].first <= IdBefore(id, ds, n) + 1 && ds[n - 1].final <= ds[n].final;
  }

  /** Nothing moves at a price that a true diff does not list. */
  lemma Unmoved(E: Timeline, d: Diff, s: BookSide, p: Price, k: int)
    requires TruthfulDiff(E, d) && !Listed(DiffSide(d, s), p)
    requires d.first - 1 <= k <= d.final
    ensures At(E, k, s, p) == At(E, d.final, s, p)
  {
    assert At(E, k, s, p) == At(E, d.first - 1, s, p) == At(E, d.final, s, p);
  }

  /** A price that a gapless run of true diffs never lists does not move on the exchange during that run. */
  lemma {:induction false} RunStill(E: Timeline, id: int, ds: seq<Diff>, s: BookSide, p: Price, k: int)
    requires ds != [] && Gapless(id, ds) && TruthfulDiffs(E, ds)
    requires !Touched(ds, s, p)
    requires ds[0].first - 1 <= k <= FinalId(id, ds)
    ensures At(E, k, s, p) == At(E, FinalId(id, ds), s, p)
  {
    var init, d := ds[..|ds| - 1], ds[|ds| - 1];
    TouchedSplit(ds, s, p);
    if init == [] {
      assert TruthfulDiff(E, d);
      Unmoved(E, d, s, p, k);
    } else {
      GaplessPrefix(id, ds, |ds| - 1);
      TruthfulPrefix(E, ds, |ds| - 1);
      LastPicksUp(id, ds);
      Unmoved(E, d, s, p, FinalId(id, init));
      if k <= FinalId(id, init) {
        RunStill(E, id, init, s, p, k);
      } else {
        Unmoved(E, d, s, p, k);
      }
    }
  }

  /** What a gapless run of true diffs does to one price, whatever the book held before: a listed price
      is at the exchange's value for the last id, even if earlier diffs rewound it; a price never listed
      keeps its value. */
  lemma {:induction false} RunTracks(E: Timeline, id: int, b: Depth, ds: seq<Diff>, s: BookSide, p: Price)
    requires ds != [] && Gapless(id, ds) && TruthfulDiffs(E, ds)
    ensures QtyAt(ApplyAll(b, ds).Side(s), p)
         == if Touched(ds, s, p) then At(E, FinalId(id, ds), s, p) else QtyAt(b.Side(s), p)
  {
    var init, d := ds[..|ds| - 1], ds[|ds| - 1];
    TouchedSplit(ds, s, p);
    if init == [] {
      assert TruthfulDiff(E, d);
    } else {
      GaplessPrefix(id, ds, |ds| - 1);
      TruthfulPrefix(E, ds, |ds| - 1);
      LastPicksUp(id, ds);
      RunTracks(E, id, b, init, s, p);
      if !Listed(DiffSide(d, s), p) {
        Unmoved(E, d, s, p, FinalId(id, init));
      }
    }
    DiffTracks(E, ApplyAll(b, init), d, s, p);
  }

  lemma DiffTracks(E: Timeline, b: Depth, d: Diff, s: BookSide, p: Price)
    requires TruthfulDiff(E, d)
    ensures QtyAt(ApplyDiff(b, d).Side(s), p)
         == if Listed(DiffSide(d, s), p) then At(E, d.final, s, p) else QtyAt(b.Side(s), p)
  {
    ApplyDiffSide(b, d, s);
    ApplyTruth(b.Side(s), DiffSide(d, s), E(d.final).Side(s), p);
  }

  /** A price held after a run of diffs was held before or is listed by one of them. */
  lemma {:induction false} HeldOrTouched(b: Depth, ds: seq<Diff>, s: BookSide, p: Price)
    requires p in ApplyAll(b, ds).Side(s)
    ensures p in b.Side(s) || Touched(ds, s, p)
  {
    if ds != [] {
      var init, d := ds[..|ds| - 1], ds[|ds| - 1];
      var before := ApplyAll(b, init);
      ApplyDiffSide(before, d, s);
      ApplyKeys(before.Side(s), DiffSide(d, s), p);
      TouchedSplit(ds, s, p);
      if !Listed(DiffSide(d, s), p) {
        HeldOrTouched(b, init, s, p);
      }
    }
  }

  /** Everything held after a load and a run of diffs was covered or listed. */
  lemma HeldInWindow(E: Timeline, snap: Snapshot, depth: int, ds: seq<Diff>, s: BookSide, p: Price)
    requires Proper(E) && TruthfulSnapshot(E, snap, depth)
    requires p in ApplyAll(LoadDepth(snap), ds).Side(s)
    ensures InWindow(snap, depth, ds, s, p)
  {
    HeldOrTouched(LoadDepth(snap), ds, s, p);
    LoadTopLevels(s, E(snap.lastUpdateId).Side(s), depth, p);
  }

  /** Gapless true diffs that catch up with id `id` make a price true that was true at `id` or that they list. */
  lemma RunMakesTrue(E: Timeline, id: int, b: Depth, ds: seq<Diff>, s: BookSide, p: Price)
    requires TruthfulDiffs(E, ds) && Gapless(id, ds) && id <= FinalId(id, ds)
    requires QtyAt(b.Side(s), p) == At(E, id, s, p) || Touched(ds, s, p)
    ensures QtyAt(ApplyAll(b, ds).Side(s), p) == At(E, FinalId(id, ds), s, p)
  {
    if ds != [] {
      RunTracks(E, id, b, ds, s, p);
      if !Touched(ds, s, p) {
        assert ds[0].first <= IdBefore(id, ds, 0) + 1;
        RunStill(E, id, ds, s, p, id);
      }
    }
  }

  lemma WindowExactAt(E: Timeline, snap: Snapshot, depth: int, ds: seq<Diff>, s: BookSide, p: Price)
    requires Proper(E) && TruthfulSnapshot(E, snap, depth) && TruthfulDiffs(E, ds)
    requires Gapless(snap.lastUpdateId, ds)
    requires snap.lastUpdateId <= FinalId(snap.lastUpdateId, ds)
    requires InWindow(snap, depth, ds, s, p)
    ensures QtyAt(ApplyAll(LoadDepth(snap), ds).Side(s), p) == At(E, FinalId(snap.lastUpdateId, ds), s, p)
  {
    LoadTopLevels(s, E(snap.lastUpdateId).Side(s), depth, p);
    RunMakesTrue(E, snap.lastUpdateId, LoadDepth(snap), ds, s, p);
  }

  /** A snapshot followed by gapless true diffs, the first of which may end long before the snapshot and
      so rewind prices, agrees with the exchange on the whole window as soon as the diffs have caught up. */
  lemma WindowExact(E: Timeline, snap: Snapshot, depth: int, ds: seq<Diff>)
    requires Proper(E) && TruthfulSnapshot(E, snap, depth) && TruthfulDiffs(E, ds)
    requires Gapless(snap.lastUpdateId, ds)
    requires snap.lastUpdateId <= FinalId(snap.lastUpdateId, ds)
    ensures ExactOnWindow(E, ApplyAll(LoadDepth(snap), ds), FinalId(snap.lastUpdateId, ds), snap, depth, ds)
  {
    var id := snap.lastUpdateId;
    var book := ApplyAll(LoadDepth(snap), ds);
    forall s: BookSide, p | InWindow(snap, depth, ds, s, p)
      ensures QtyAt(book.Side(s), p) == At(E, FinalId(id, ds), s, p)
    {
      WindowExactAt(E, snap, depth, ds, s, p);
    }
    forall s: BookSide, p | p in book.Side(s)
      ensures InWindow(snap, depth, ds, s, p)
    {
      HeldInWindow(E, snap, depth, ds, s, p);
    }
  }

  lemma LoadProper(snap: Snapshot)
    ensures ProperDepth(LoadDepth(snap))
  {
    LoadNoZero(snap.bids);
    LoadNoZero(snap.asks);
  }

  /** No level is a phantom: whatever the book holds, the exchange holds with the same quantity. */
  lemma NoPhantoms(E: Timeline, book: Depth, k: int, snap: Snapshot, depth: int, ds: seq<Diff>)
    requires ProperDepth(book)
    requires ExactOnWindow(E, book, k, snap, depth, ds)
    ensures forall s: BookSide, p | p in book.Side(s) :: p in E(k).Side(s) && E(k).Side(s)[p] == book.Side(s)[p]
  {
    forall s: BookSide, p | p in book.Side(s)
      ensures p in E(k).Side(s) && E(k).Side(s)[p] == book.Side(s)[p]
    {
      assert QtyAt(book.Side(s), p) == At(E, k, s, p);
      assert book.Side(s)[p] != 0.0;
    }
  }

  /** A side on which the snapshot was not cut by its depth limit. */
  ghost predicate Uncut(snap: Snapshot, s: BookSide, depth: int) {
    depth <= 0 || |SnapSide(snap, s)| < depth
  }

  /** A side that was not cut is the exchange's side. */
  lemma SideExact(E: Timeline, book: Depth, k: int, snap: Snapshot, depth: int, ds: seq<Diff>, s: BookSide)
    requires ProperDepth(book) && ProperDepth(E(k))
    requires ExactOnWindow(E, book, k, snap, depth, ds)
    requires Uncut(snap, s, depth)
    ensures book.Side(s) == E(k).Side(s)
  {
    forall p
      ensures QtyAt(book.Side(s), p) == QtyAt(E(k).Side(s), p)
    {
      assert InWindow(snap, depth, ds, s, p);
      assert QtyAt(book.Side(s), p) == At(E, k, s, p);
    }
    SidesEqual(book.Side(s), E(k).Side(s));
  }

  /** Without truncation the book is the exchange's book. */
  lemma CompleteExact(E: Timeline, book: Depth, k: int, snap: Snapshot, depth: int, ds: seq<Diff>)
    requires ProperDepth(book) && ProperDepth(E(k))
    requires ExactOnWindow(E, book, k, snap, depth, ds)
    requires Uncut(snap, Bid, depth) && Uncut(snap, Ask, depth)
    ensures book == E(k)
  {
    SideExact(E, book, k, snap, depth, ds, Bid);
    SideExact(E, book, k, snap, depth, ds, Ask);
  }

  /** How many of the levels the book still holds lie where the snapshot could see. */
  ghost function CoveredLevels(book: Depth, snap: Snapshot, depth: int, s: BookSide): nat {
    |HeldIn(book.Side(s), Coverage(s, SnapSide(snap, s), depth))|
  }

  lemma WindowPartOf(E: Timeline, book: Depth, k: int, snap: Snapshot, depth: int, ds: seq<Diff>, s: BookSide)
    requires ProperDepth(book) && ProperDepth(E(k))
    requires ExactOnWindow(E, book, k, snap, depth, ds)
    ensures PartOf(book.Side(s), E(k).Side(s), Coverage(s, SnapSide(snap, s), depth))
  {
    NoPhantoms(E, book, k, snap, depth, ds);
    var C := Coverage(s, SnapSide(snap, s), depth);
    forall p | p in E(k).Side(s) && p in C
      ensures p in book.Side(s)
    {
      assert InWindow(snap, depth, ds, s, p);
      assert QtyAt(book.Side(s), p) == At(E, k, s, p);
      assert E(k).Side(s)[p] != 0.0;
    }
  }

  /** With truncation the `d` best levels are still the exchange's, as long as `d` covered levels remain. */
  lemma TopExact(E: Timeline, book: Depth, k: int, snap: Snapshot, depth: int, ds: seq<Diff>, s: BookSide, d: nat)
    requires ProperDepth(book) && ProperDepth(E(k))
    requires ExactOnWindow(E, book, k, snap, depth, ds)
    requires 0 < d <= CoveredLevels(book, snap, depth, s)
    ensures TopLevels(s, book.Side(s), d) == TopLevels(s, E(k).Side(s), d)
  {
    var m, t := book.Side(s), E(k).Side(s);
    var C := Coverage(s, SnapSide(snap, s), depth);
    WindowPartOf(E, book, k, snap, depth, ds, s);
    CoverageClosed(s, SnapSide(snap, s), depth);
    TopAgree(s, m, t, C, d);
    TopIsTake(s, m, d);
    TopIsTake(s, t, d);
  }

  // ----- gaps

  /** `E` is a possible history of the exchange, given the snapshot and the diffs. */
  ghost predicate Explains(E: Timeline, snap: Snapshot, depth: int, ds: seq<Diff>) {
    Proper(E) && TruthfulSnapshot(E, snap, depth) && TruthfulDiffs(E, ds)
  }

  /** A price above every bid that the snapshot or a diff mentions. */
  ghost predicate AboveAll(snap: Snapshot, ds: seq<Diff>, p: Price) {
    && (forall q | p <= q :: !Listed(snap.bids, q))
    && (forall q | p <= q :: !Touched(ds, Bid, q))
  }

  lemma {:induction false} AboveLevels(ls: seq<Level>) returns (top: Price)
    ensures forall i | 0 <= i < |ls| :: ls[i].price < top
  {
    if ls == [] {
      top := 0.0;
    } else {
      top := AboveLevels(ls[..|ls| - 1]);
      top := if top <= ls[|ls| - 1].price then ls[|ls| - 1].price + 1.0 else top;
    }
  }

  lemma {:induction false} AboveDiffs(ds: seq<Diff>) returns (top: Price)
    ensures forall i, p | 0 <= i < |ds| && top <= p :: !Listed(ds[i].bids, p)
  {
    if ds == [] {
      top := 0.0;
    } else {
      var init := AboveDiffs(ds[..|ds| - 1]);
      var last := AboveLevels(ds[|ds| - 1].bids);
      top := if init <= last then last else init;
    }
  }

  lemma SomePriceAboveAll(snap: Snapshot, ds: seq<Diff>) returns (p: Price)
    ensures AboveAll(snap, ds, p)
  {
    var x := AboveLevels(snap.bids);
    var y := AboveDiffs(ds);
    p := if x <= y then y else x;
  }

  lemma AboveNotHeld(snap: Snapshot, ds: seq<Diff>, p: Price)
    requires AboveAll(snap, ds, p)
    ensures forall q | q in ApplyAll(LoadDepth(snap), ds).bids :: q < p
  {
    forall q | q in ApplyAll(LoadDepth(snap), ds).bids
      ensures q < p
    {
      HeldOrTouched(LoadDepth(snap), ds, Bid, q);
      if q in LoadDepth(snap).bids {
        LoadKeys(snap.bids, q);
      }
    }
  }

  /** The history in which, in addition, somebody bids one unit at `p` after the ids picked out by `there`. */
  ghost function WithBid(E: Timeline, there: int -> bool, p: Price): Timeline {
    k => if there(k) then Depth(E(k).bids[p := 1.0], E(k).asks) else E(k)
  }

  /** The diff sees the additional bid all along or not at all. */
  ghost predicate Unchanging(there: int -> bool, d: Diff) {
    forall k | d.first - 1 <= k <= d.final :: there(k) == there(d.final)
  }

  /** A bid that comes and goes outside the ids of a diff, at a price it does not list, is invisible to it. */
  lemma WithBidTruthful(E: Timeline, there: int -> bool, p: Price, d: Diff)
    requires TruthfulDiff(E, d) && !Listed(d.bids, p) && Unchanging(there, d)
    ensures TruthfulDiff(WithBid(E, there, p), d)
  {
    var E' := WithBid(E, there, p);
    forall s: BookSide
      ensures ListsTruth(DiffSide(d, s), E'(d.final).Side(s))
    {
      assert ListsTruth(DiffSide(d, s), E(d.final).Side(s));
    }
    forall s: BookSide, q, k | d.first - 1 <= k <= d.final && !Listed(DiffSide(d, s), q)
      ensures At(E', k, s, q) == At(E', d.first - 1, s, q)
    {
      assert At(E, k, s, q) == At(E, d.first - 1, s, q);
      assert there(k) == there(d.final) == there(d.first - 1);
    }
  }

  /** The diffs before position `i` end by the id where the gap opens, and those from `i` on start after it. */
  lemma GapSeparates(id: int, ds: seq<Diff>, i: nat)
    requires i < |ds| && InOrder(ds) && id <= ds[0].final
    requires ds[i].first > IdBefore(id, ds, i) + 1
    ensures id <= IdBefore(id, ds, i) < FinalId(id, ds)
    ensures forall j | 0 <= j < i :: ds[j].final <= IdBefore(id, ds, i)
    ensures forall j | i <= j < |ds| :: IdBefore(id, ds, i) < ds[j].first - 1
  {
    var from := IdBefore(id, ds, i);
    assert i > 0 ==> from == ds[i - 1].final;
    forall j | 0 <= j < i
      ensures ds[j].final <= from
    {
      assert j == i - 1 || ds[j].final <= ds[i - 1].final;
    }
    forall j | i <= j < |ds|
      ensures from < ds[j].first - 1
    {
      assert j == i || ds[i].first <= ds[j].first;
    }
  }

  lemma WithBidExplains(E: Timeline, snap: Snapshot, depth: int, ds: seq<Diff>, there: int -> bool, p: Price)
    requires Explains(E, snap, depth, ds) && AboveAll(snap, ds, p)
    requires !there(snap.lastUpdateId) && forall j | 0 <= j < |ds| :: Unchanging(there, ds[j])
    ensures Explains(WithBid(E, there, p), snap, depth, ds)
  {
    var E' := WithBid(E, there, p);
    forall k
      ensures ProperDepth(E'(k))
    {
      assert ProperDepth(E(k));
    }
    forall j | 0 <= j < |ds|
      ensures TruthfulDiff(E', ds[j])
    {
      assert !Touched(ds, Bid, p) && DiffSide(ds[j], Bid) == ds[j].bids;
      WithBidTruthful(E, there, p, ds[j]);
    }
    assert E'(snap.lastUpdateId) == E(snap.lastUpdateId);
  }

  lemma AboveInWindow(snap: Snapshot, depth: int, ds: seq<Diff>, p: Price)
    requires AboveAll(snap, ds, p)
    ensures InWindow(snap, depth, ds, Bid, p)
  {
    assert snap.bids != [] ==> Listed(snap.bids, snap.bids[|snap.bids| - 1].price);
  }

  /** A bid that the diffs cannot see and that rests at the end makes the book wrong. */
  lemma HiddenBid(E: Timeline, snap: Snapshot, depth: int, ds: seq<Diff>, there: int -> bool)
    returns (E': Timeline, p: Price)
    requires Explains(E, snap, depth, ds)
    requires !there(snap.lastUpdateId) && there(FinalId(snap.lastUpdateId, ds))
    requires forall j | 0 <= j < |ds| :: Unchanging(there, ds[j])
    ensures Explains(E', snap, depth, ds)
    ensures AboveAll(snap, ds, p) && At(E', FinalId(snap.lastUpdateId, ds), Bid, p) == 1.0
    ensures !ExactOnWindow(E', ApplyAll(LoadDepth(snap), ds), FinalId(snap.lastUpdateId, ds), snap, depth, ds)
  {
    p := SomePriceAboveAll(snap, ds);
    E' := WithBid(E, there, p);
    WithBidExplains(E, snap, depth, ds, there, p);
    AboveNotHeld(snap, ds, p);
    AboveInWindow(snap, depth, ds, p);
    assert At(E', FinalId(snap.lastUpdateId, ds), Bid, p) == 1.0;
  }

  /** A gap can hide a bid above everything that was ever mentioned.  Nothing in the inputs excludes that history,
      although such a bid may stand above an ask; `GapHidesResize` is a witness that crosses no book. */
  lemma GapHidesBid(E: Timeline, snap: Snapshot, depth: int, ds: seq<Diff>, i: nat) returns (E': Timeline, p: Price)
    requires Explains(E, snap, depth, ds)
    requires i < |ds| && InOrder(ds) && snap.lastUpdateId <= ds[0].final
    requires ds[i].first > IdBefore(snap.lastUpdateId, ds, i) + 1
    ensures Explains(E', snap, depth, ds)
    ensures AboveAll(snap, ds, p) && At(E', FinalId(snap.lastUpdateId, ds), Bid, p) == 1.0
    ensures !ExactOnWindow(E', ApplyAll(LoadDepth(snap), ds), FinalId(snap.lastUpdateId, ds), snap, depth, ds)
  {
    var from := IdBefore(snap.lastUpdateId, ds, i);
    GapSeparates(snap.lastUpdateId, ds, i);
    E', p := HiddenBid(E, snap, depth, ds, k => k > from);
  }

  /** Diffs that have not caught up with the snapshot leave the book uncertain as well: they may have rewound it, and
      a bid that was gone again by the id of the snapshot is seen by neither. */
  lemma SnapshotAheadHidesBid(E: Timeline, snap: Snapshot, depth: int, ds: seq<Diff>) returns (E': Timeline, p: Price)
    requires Explains(E, snap, depth, ds)
    requires ds != [] && InOrder(ds) && FinalId(snap.lastUpdateId, ds) < snap.lastUpdateId
    ensures Explains(E', snap, depth, ds)
    ensures AboveAll(snap, ds, p) && At(E', FinalId(snap.lastUpdateId, ds), Bid, p) == 1.0
    ensures !ExactOnWindow(E', ApplyAll(LoadDepth(snap), ds), FinalId(snap.lastUpdateId, ds), snap, depth, ds)
  {
    var upTo := FinalId(snap.lastUpdateId, ds);
    assert forall j | 0 <= j < |ds| :: ds[j].final <= ds[|ds| - 1].final;
    E', p := HiddenBid(E, snap, depth, ds, k => k <= upTo);
  }

  /** The history in which the quantity resting at `p`, if any, is twice as large after id `from`. */
  ghost function Resized(E: Timeline, from: int, s: BookSide, p: Price): Timeline {
    k => if k > from && p in E(k).Side(s) then WithSide(E(k), s, E(k).Side(s)[p := 2.0 * E(k).Side(s)[p]]) else E(k)
  }

  function WithSide(b: Depth, s: BookSide, m: map<Price, Qty>): Depth {
    if s == Bid then Depth(m, b.asks) else Depth(b.bids, m)
  }

  lemma ResizedAt(E: Timeline, from: int, s: BookSide, p: Price, k: int, t: BookSide, q: Price)
    ensures At(Resized(E, from, s, p), k, t, q)
         == if k > from && t == s && q == p then 2.0 * At(E, k, t, q) else At(E, k, t, q)
    ensures Resized(E, from, s, p)(k).Side(t).Keys == E(k).Side(t).Keys
    ensures ProperDepth(E(k)) ==> ProperDepth(Resized(E, from, s, p)(k))
  {
  }

  /** A resize inside a gap is invisible to the diffs before it, and to those after it unless they list the price. */
  lemma ResizedTruthful(E: Timeline, from: int, s: BookSide, p: Price, d: Diff)
    requires TruthfulDiff(E, d)
    requires d.final <= from || (from < d.first - 1 && !Listed(DiffSide(d, s), p))
    ensures TruthfulDiff(Resized(E, from, s, p), d)
  {
    var E' := Resized(E, from, s, p);
    forall t: BookSide
      ensures ListsTruth(DiffSide(d, t), E'(d.final).Side(t))
    {
      assert ListsTruth(DiffSide(d, t), E(d.final).Side(t));
      forall i | 0 <= i < |DiffSide(d, t)|
        ensures DiffSide(d, t)[i].qty == QtyAt(E'(d.final).Side(t), DiffSide(d, t)[i].price)
      {
        ResizedAt(E, from, s, p, d.final, t, DiffSide(d, t)[i].price);
      }
    }
    forall t: BookSide, q, k | d.first - 1 <= k <= d.final && !Listed(DiffSide(d, t), q)
      ensures At(E', k, t, q) == At(E', d.first - 1, t, q)
    {
      ResizedAt(E, from, s, p, k, t, q);
      ResizedAt(E, from, s, p, d.first - 1, t, q);
      assert At(E, k, t, q) == At(E, d.first - 1, t, q);
    }
  }

  lemma ResizedExplains(E: Timeline, snap: Snapshot, depth: int, ds: seq<Diff>, from: int, i: nat, s: BookSide,
                        p: Price)
    requires Explains(E, snap, depth, ds)
    requires snap.lastUpdateId <= from && i <= |ds| && !Touched(ds[i..], s, p)
    requires forall j | 0 <= j < i :: ds[j].final <= from
    requires forall j | i <= j < |ds| :: from < ds[j].first - 1
    ensures Explains(Resized(E, from, s, p), snap, depth, ds)
  {
    var E' := Resized(E, from, s, p);
    forall k
      ensures ProperDepth(E'(k))
    {
      ResizedAt(E, from, s, p, k, s, p);
      assert ProperDepth(E(k));
    }
    forall j | 0 <= j < |ds|
      ensures TruthfulDiff(E', ds[j])
    {
      assert j >= i ==> ds[i..][j - i] == ds[j];
      ResizedTruthful(E, from, s, p, ds[j]);
    }
    assert E'(snap.lastUpdateId) == E(snap.lastUpdateId);
  }

  /** Another witness.  If the book ends up with a level that no diff from the gap on lists, there is a history
      that explains the inputs, has levels at the same prices as `E` at every moment - so that it crosses no book
      that `E` does not - and with which the book disagrees. */
  lemma GapHidesResize(E: Timeline, snap: Snapshot, depth: int, ds: seq<Diff>, i: nat, s: BookSide, p: Price)
    returns (E': Timeline)
    requires Explains(E, snap, depth, ds)
    requires i < |ds| && InOrder(ds) && snap.lastUpdateId <= ds[0].final
    requires ds[i].first > IdBefore(snap.lastUpdateId, ds, i) + 1
    requires p in ApplyAll(LoadDepth(snap), ds).Side(s) && !Touched(ds[i..], s, p)
    ensures Explains(E', snap, depth, ds)
    ensures forall k, t: BookSide :: E'(k).Side(t).Keys == E(k).Side(t).Keys
    ensures !ExactOnWindow(E', ApplyAll(LoadDepth(snap), ds), FinalId(snap.lastUpdateId, ds), snap, depth, ds)
  {
    var id, book := snap.lastUpdateId, ApplyAll(LoadDepth(snap), ds);
    if !ExactOnWindow(E, book, FinalId(id, ds), snap, depth, ds) {
      return E;
    }
    var from := IdBefore(id, ds, i);
    GapSeparates(id, ds, i);
    E' := Resized(E, from, s, p);
    ResizedExplains(E, snap, depth, ds, from, i, s, p);
    forall k, t: BookSide
      ensures E'(k).Side(t).Keys == E(k).Side(t).Keys
    {
      ResizedAt(E, from, s, p, k, t, p);
    }
    HeldInWindow(E, snap, depth, ds, s, p);
    ResizedAt(E, from, s, p, FinalId(id, ds), s, p);
    LoadProper(snap);
    ApplyAllProper(LoadDepth(snap), ds);
    assert QtyAt(book.Side(s), p) == At(E, FinalId(id, ds), s, p) != 0.0;
  }

  /** An ordered list that is not gapless skips an id somewhere. */
  lemma SomeGap(id: int, ds: seq<Diff>) returns (i: nat)
    requires InOrder(ds) && !Gapless(id, ds)
    ensures i < |ds| && ds[i].first > IdBefore(id, ds, i) + 1
  {
    assert forall j | 0 < j < |ds| :: ds[j - 1].final <= ds[j].final;
    i :| 0 <= i < |ds| && ds[i].first > IdBefore(id, ds, i) + 1;
  }

  /** Exactly when can the book be trusted?  For an ordered feed whose first diff reaches the snapshot, the
      book agrees with every history that explains the inputs if and only if no id was skipped. */
  lemma GaplessIff(E: Timeline, snap: Snapshot, depth: int, ds: seq<Diff>)
    requires Explains(E, snap, depth, ds)
    requires InOrder(ds) && (ds != [] ==> snap.lastUpdateId <= ds[0].final)
    ensures Gapless(snap.lastUpdateId, ds)
       <==> forall E': Timeline | Explains(E', snap, depth, ds) ::
              ExactOnWindow(E', ApplyAll(LoadDepth(snap), ds), FinalId(snap.lastUpdateId, ds), snap, depth, ds)
  {
    var id := snap.lastUpdateId;
    if Gapless(id, ds) {
      forall E': Timeline | Explains(E', snap, depth, ds)
        ensures ExactOnWindow(E', ApplyAll(LoadDepth(snap), ds), FinalId(id, ds), snap, depth, ds)
      {
        assert ds == [] || ds[|ds| - 1] == ds[0] || ds[0].final <= ds[|ds| - 1].final;
        WindowExact(E', snap, depth, ds);
      }
    } else {
      var i := SomeGap(id, ds);
      var E', p := GapHidesBid(E, snap, depth, ds, i);
    }
  }
}
