/** Diffs applied to a snapshot that is newer than some of them.

    Such diffs rewind prices, and a gap among them may lie wholly before the snapshot.  Then the snapshot has seen what
    the gap hides, and only rewound prices are in danger.  `OrderedTrustIff` says for all ordered diffs, wherever the
    snapshot stands among them, exactly when the book can be trusted. */
module Rewinding {
  import opened Levels
  import opened Feed
  import Truncation

  /** The diff at position `i` skips an id; the first one if it starts beyond the snapshot. */
  predicate SkipsAt(id: int, ds: seq<Diff>, i: nat)
    requires i < |ds|
  {
    ds[i].first > IdBefore(id, ds, i) + 1
  }

  /** Listed before position `i` and never again. */
  ghost predicate Rewound(ds: seq<Diff>, i: nat, s: BookSide, p: Price)
    requires i <= |ds|
  {
    Touched(ds[..i], s, p) && !Touched(ds[i..], s, p)
  }

  /** Every price rewound before `i` has been rewound to the quantity that the snapshot, which covers it, gives. */
  ghost predicate RewindsHarmless(snap: Snapshot, depth: int, ds: seq<Diff>, i: nat)
    requires i <= |ds|
  {
    forall s: BookSide, p | Rewound(ds, i, s, p) ::
      && Covers(s, SnapSide(snap, s), depth, p)
      && QtyAt(ApplyAll(LoadDepth(snap), ds).Side(s), p) == QtyAt(LoadDepth(snap).Side(s), p)
  }

  /** The diffs have caught up with the snapshot, every skipped id is one that the snapshot has seen, and what was
      rewound before it does no harm. */
  ghost predicate Trusted(snap: Snapshot, depth: int, ds: seq<Diff>) {
    && snap.lastUpdateId <= FinalId(snap.lastUpdateId, ds)
    && forall i | 0 <= i < |ds| && SkipsAt(snap.lastUpdateId, ds, i) ::
         ds[i].first <= snap.lastUpdateId + 1 && RewindsHarmless(snap, depth, ds, i)
  }

  // ----- what a list of diffs leaves alone

  lemma {:induction false} UntouchedKept(b: Depth, ds: seq<Diff>, s: BookSide, p: Price)
    requires !Touched(ds, s, p)
    ensures QtyAt(ApplyAll(b, ds).Side(s), p) == QtyAt(b.Side(s), p)
  {
    if ds != [] {
      var init, d := ds[..|ds| - 1], ds[|ds| - 1];
      TouchedSplit(ds, s, p);
      UntouchedKept(b, init, s, p);
      ApplyDiffSide(ApplyAll(b, init), d, s);
      ApplyUnlisted(ApplyAll(b, init).Side(s), DiffSide(d, s), p);
    }
  }

  lemma TouchedParts(ds: seq<Diff>, i: nat, s: BookSide, p: Price)
    requires i <= |ds|
    ensures Touched(ds, s, p) <==> Touched(ds[..i], s, p) || Touched(ds[i..], s, p)
  {
    if Touched(ds, s, p) {
      var j :| 0 <= j < |ds| && Listed(DiffSide(ds[j], s), p);
      if j < i {
        assert ds[..i][j] == ds[j];
      } else {
        assert ds[i..][j - i] == ds[j];
      }
    }
    if Touched(ds[..i], s, p) {
      var j :| 0 <= j < i && Listed(DiffSide(ds[..i][j], s), p);
      assert ds[j] == ds[..i][j];
    }
    if Touched(ds[i..], s, p) {
      var j :| 0 <= j < |ds| - i && Listed(DiffSide(ds[i..][j], s), p);
      assert ds[i + j] == ds[i..][j];
    }
  }

  /** What was rewound before an earlier skip and not listed since was also rewound before a later one. */
  lemma RewoundLater(ds: seq<Diff>, i: nat, j: nat, s: BookSide, p: Price)
    requires i <= j <= |ds| && Rewound(ds, i, s, p)
    ensures Rewound(ds, j, s, p)
  {
    var k :| 0 <= k < i && Listed(DiffSide(ds[..i][k], s), p);
    assert ds[..j][k] == ds[..i][k];
    TouchedParts(ds[i..], j - i, s, p);
    assert ds[i..][j - i..] == ds[j..];
  }

  // ----- the part after the last skipped id

  /** The last position at which an id is skipped. */
  lemma {:induction false} LastSkip(id: int, ds: seq<Diff>, n: nat) returns (i: nat)
    requires n <= |ds| && exists j | 0 <= j < n :: SkipsAt(id, ds, j)
    ensures i < n && SkipsAt(id, ds, i) && forall j | i < j < n :: !SkipsAt(id, ds, j)
  {
    if SkipsAt(id, ds, n - 1) {
      i := n - 1;
    } else {
      i := LastSkip(id, ds, n - 1);
    }
  }

  /** From there on the diffs are gapless, counted from the snapshot that has seen the skipped ids. */
  lemma GaplessAfter(id: int, ds: seq<Diff>, i: nat, run: seq<Diff>)
    requires i < |ds| && InOrder(ds) && run == ds[i..] && ds[i].first <= id + 1
    requires forall j | i < j < |ds| :: !SkipsAt(id, ds, j)
    ensures Gapless(id, run) && FinalId(id, run) == FinalId(id, ds) && run != []
  {
    forall j | 0 <= j < |run|
      ensures run[j].first <= IdBefore(id, run, j) + 1
      ensures j > 0 ==> run[j - 1].final <= run[j].final
    {
      assert run[j] == ds[i + j];
      if j > 0 {
        assert !SkipsAt(id, ds, i + j) && run[j - 1] == ds[i + j - 1];
      }
    }
  }

  lemma TruthfulFrom(E: Timeline, ds: seq<Diff>, i: nat, run: seq<Diff>)
    requires TruthfulDiffs(E, ds) && i <= |ds| && run == ds[i..]
    ensures TruthfulDiffs(E, run)
  {
    assert forall j | 0 <= j < |run| :: run[j] == ds[i + j];
  }

  // ----- trusted books are right

  lemma TrustedExact(E: Timeline, snap: Snapshot, depth: int, ds: seq<Diff>)
    requires Explains(E, snap, depth, ds) && InOrder(ds) && Trusted(snap, depth, ds)
    ensures ExactOnWindow(E, ApplyAll(LoadDepth(snap), ds), FinalId(snap.lastUpdateId, ds), snap, depth, ds)
  {
    var id := snap.lastUpdateId;
    if exists j | 0 <= j < |ds| :: SkipsAt(id, ds, j) {
      var i := LastSkip(id, ds, |ds|);
      SeenSkipExact(E, snap, depth, ds, i);
    } else {
      NoSkipGapless(id, ds);
      WindowExact(E, snap, depth, ds);
    }
  }

  lemma NoSkipGapless(id: int, ds: seq<Diff>)
    requires InOrder(ds) && forall j | 0 <= j < |ds| :: !SkipsAt(id, ds, j)
    ensures Gapless(id, ds)
  {
    forall j | 0 <= j < |ds|
      ensures ds[j].first <= IdBefore(id, ds, j) + 1
    {
      assert !SkipsAt(id, ds, j);
    }
  }

  lemma SeenSkipExact(E: Timeline, snap: Snapshot, depth: int, ds: seq<Diff>, i: nat)
    requires Explains(E, snap, depth, ds) && InOrder(ds) && Trusted(snap, depth, ds)
    requires i < |ds| && SkipsAt(snap.lastUpdateId, ds, i)
    requires forall j | i < j < |ds| :: !SkipsAt(snap.lastUpdateId, ds, j)
    ensures ExactOnWindow(E, ApplyAll(LoadDepth(snap), ds), FinalId(snap.lastUpdateId, ds), snap, depth, ds)
  {
    var book := ApplyAll(LoadDepth(snap), ds);
    forall s: BookSide, p | InWindow(snap, depth, ds, s, p)
      ensures QtyAt(book.Side(s), p) == At(E, FinalId(snap.lastUpdateId, ds), s, p)
    {
      SeenSkipExactAt(E, snap, depth, ds, i, ds[i..], s, p);
    }
    forall s: BookSide, p | p in book.Side(s)
      ensures InWindow(snap, depth, ds, s, p)
    {
      HeldInWindow(E, snap, depth, ds, s, p);
    }
  }

  lemma BookInParts(b: Depth, ds: seq<Diff>, i: nat, run: seq<Diff>)
    requires i <= |ds| && run == ds[i..]
    ensures ApplyAll(b, ds) == ApplyAll(ApplyAll(b, ds[..i]), run)
  {
    assert ds == ds[..i] + run;
    ApplyAllConcat(b, ds[..i], run);
  }

  /** At the last skip a price of the window is as it was at the snapshot, or will be listed again. */
  lemma TrueAtSkip(E: Timeline, snap: Snapshot, depth: int, ds: seq<Diff>, i: nat, run: seq<Diff>,
                   s: BookSide, p: Price)
    requires Explains(E, snap, depth, ds) && i <= |ds| && run == ds[i..]
    requires RewindsHarmless(snap, depth, ds, i) && InWindow(snap, depth, ds, s, p)
    ensures QtyAt(ApplyAll(LoadDepth(snap), ds[..i]).Side(s), p) == At(E, snap.lastUpdateId, s, p) || Touched(run, s, p)
  {
    TouchedParts(ds, i, s, p);
    LoadTopLevels(s, E(snap.lastUpdateId).Side(s), depth, p);
    if !Touched(run, s, p) {
      BookInParts(LoadDepth(snap), ds, i, run);
      UntouchedKept(ApplyAll(LoadDepth(snap), ds[..i]), run, s, p);
      if Touched(ds[..i], s, p) {
        assert Rewound(ds, i, s, p);
      } else {
        UntouchedKept(LoadDepth(snap), ds[..i], s, p);
      }
    }
  }

  lemma SeenSkipExactAt(E: Timeline, snap: Snapshot, depth: int, ds: seq<Diff>, i: nat, run: seq<Diff>,
                        s: BookSide, p: Price)
    requires Explains(E, snap, depth, ds) && InOrder(ds) && snap.lastUpdateId <= FinalId(snap.lastUpdateId, ds)
    requires i < |ds| && run == ds[i..] && ds[i].first <= snap.lastUpdateId + 1
    requires RewindsHarmless(snap, depth, ds, i)
    requires forall j | i < j < |ds| :: !SkipsAt(snap.lastUpdateId, ds, j)
    requires InWindow(snap, depth, ds, s, p)
    ensures QtyAt(ApplyAll(LoadDepth(snap), ds).Side(s), p) == At(E, FinalId(snap.lastUpdateId, ds), s, p)
  {
    TrueAtSkip(E, snap, depth, ds, i, run, s, p);
    BookInParts(LoadDepth(snap), ds, i, run);
    GaplessAfter(snap.lastUpdateId, ds, i, run);
    TruthfulFrom(E, ds, i, run);
    RunMakesTrue(E, snap.lastUpdateId, ApplyAll(LoadDepth(snap), ds[..i]), run, s, p);
  }

  // ----- books that cannot be trusted

  /** An id that the snapshot has not seen was skipped: a bid can have come there. */
  lemma UnseenSkip(E: Timeline, snap: Snapshot, depth: int, ds: seq<Diff>, i: nat) returns (E': Timeline)
    requires Explains(E, snap, depth, ds) && InOrder(ds)
    requires i < |ds| && SkipsAt(snap.lastUpdateId, ds, i) && ds[i].first > snap.lastUpdateId + 1
    ensures Explains(E', snap, depth, ds)
    ensures !ExactOnWindow(E', ApplyAll(LoadDepth(snap), ds), FinalId(snap.lastUpdateId, ds), snap, depth, ds)
  {
    var id, before := snap.lastUpdateId, IdBefore(snap.lastUpdateId, ds, i);
    var from := if before < id then id else before;
    forall j | 0 <= j < |ds|
      ensures ds[j].final <= from || from < ds[j].first - 1
    {
      assert j < i ==> ds[j].final <= ds[i - 1].final || j == i - 1;
      assert j > i ==> ds[i].first <= ds[j].first;
    }
    assert ds[i].final <= ds[|ds| - 1].final || i == |ds| - 1;
    var p;
    E', p := HiddenBid(E, snap, depth, ds, k => k > from);
  }

  /** The history in which another quantity rests at `p` after id `from`. */
  ghost function Repriced(E: Timeline, from: int, s: BookSide, p: Price, x: Qty): Timeline {
    k => if k > from then WithSide(E(k), s, E(k).Side(s)[p := x]) else E(k)
  }

  lemma RepricedAt(E: Timeline, from: int, s: BookSide, p: Price, x: Qty, k: int, t: BookSide, q: Price)
    ensures At(Repriced(E, from, s, p, x), k, t, q) == if k > from && t == s && q == p then x else At(E, k, t, q)
    ensures x != 0.0 && ProperDepth(E(k)) ==> ProperDepth(Repriced(E, from, s, p, x)(k))
    ensures k > from && t == s ==> Repriced(E, from, s, p, x)(k).Side(t) == E(k).Side(t)[p := x]
    ensures k <= from || t != s ==> Repriced(E, from, s, p, x)(k).Side(t) == E(k).Side(t)
  {
    assert Repriced(E, from, s, p, x)(k) == if k > from then WithSide(E(k), s, E(k).Side(s)[p := x]) else E(k);
  }

  lemma RepricedTruthful(E: Timeline, from: int, s: BookSide, p: Price, x: Qty, d: Diff)
    requires TruthfulDiff(E, d)
    requires d.final <= from || (from < d.first - 1 && !Listed(DiffSide(d, s), p))
    ensures TruthfulDiff(Repriced(E, from, s, p, x), d)
  {
    var E' := Repriced(E, from, s, p, x);
    forall t: BookSide
      ensures ListsTruth(DiffSide(d, t), E'(d.final).Side(t))
    {
      assert ListsTruth(DiffSide(d, t), E(d.final).Side(t));
      forall i | 0 <= i < |DiffSide(d, t)|
        ensures DiffSide(d, t)[i].qty == QtyAt(E'(d.final).Side(t), DiffSide(d, t)[i].price)
      {
        RepricedAt(E, from, s, p, x, d.final, t, DiffSide(d, t)[i].price);
      }
    }
    forall t: BookSide, q, k | d.first - 1 <= k <= d.final && !Listed(DiffSide(d, t), q)
      ensures At(E', k, t, q) == At(E', d.first - 1, t, q)
    {
      RepricedAt(E, from, s, p, x, k, t, q);
      RepricedAt(E, from, s, p, x, d.first - 1, t, q);
      assert At(E, k, t, q) == At(E, d.first - 1, t, q);
    }
  }

  /** A price that the snapshot does not cover and that no diff lists any more can have moved in a gap. */
  lemma RepricedExplains(E: Timeline, snap: Snapshot, depth: int, ds: seq<Diff>, i: nat, s: BookSide, p: Price, x: Qty)
    requires Explains(E, snap, depth, ds) && InOrder(ds) && x != 0.0
    requires 0 < i < |ds| && SkipsAt(snap.lastUpdateId, ds, i)
    requires !Touched(ds[i..], s, p) && !Covers(s, SnapSide(snap, s), depth, p)
    ensures Explains(Repriced(E, ds[i - 1].final, s, p, x), snap, depth, ds)
  {
    var from, id := ds[i - 1].final, snap.lastUpdateId;
    var E' := Repriced(E, from, s, p, x);
    forall k
      ensures ProperDepth(E'(k))
    {
      RepricedAt(E, from, s, p, x, k, s, p);
      assert ProperDepth(E(k));
    }
    forall j | 0 <= j < |ds|
      ensures TruthfulDiff(E', ds[j])
    {
      assert j >= i ==> ds[i..][j - i] == ds[j];
      assert j < i ==> ds[j].final <= from || j == i - 1;
      assert j > i ==> ds[i].first <= ds[j].first;
      RepricedTruthful(E, from, s, p, x, ds[j]);
    }
    forall t: BookSide
      ensures SnapSide(snap, t) == TopLevels(t, E'(id).Side(t), depth)
    {
      assert SnapSide(snap, t) == TopLevels(t, E(id).Side(t), depth);
      RepricedAt(E, from, s, p, x, id, t, p);
      if t == s {
        TopFacts(s, E(id).Side(s), depth);
        Truncation.BehindTop(s, E(id).Side(s), depth, p, x);
      }
    }
  }

  /** Every skipped id was seen by the snapshot, but a price was rewound that should not have been. */
  lemma HarmfulRewind(E: Timeline, snap: Snapshot, depth: int, ds: seq<Diff>, i: nat, s: BookSide, p: Price)
    returns (E': Timeline)
    requires Explains(E, snap, depth, ds) && InOrder(ds) && snap.lastUpdateId <= FinalId(snap.lastUpdateId, ds)
    requires i < |ds| && SkipsAt(snap.lastUpdateId, ds, i) && ds[i].first <= snap.lastUpdateId + 1
    requires forall j | i < j < |ds| :: !SkipsAt(snap.lastUpdateId, ds, j)
    requires Rewound(ds, i, s, p)
    requires Covers(s, SnapSide(snap, s), depth, p) ==>
               QtyAt(ApplyAll(LoadDepth(snap), ds).Side(s), p) != QtyAt(LoadDepth(snap).Side(s), p)
    ensures Explains(E', snap, depth, ds)
    ensures !ExactOnWindow(E', ApplyAll(LoadDepth(snap), ds), FinalId(snap.lastUpdateId, ds), snap, depth, ds)
  {
    var id, book := snap.lastUpdateId, ApplyAll(LoadDepth(snap), ds);
    var last := FinalId(id, ds);
    TouchedParts(ds, i, s, p);
    if Covers(s, SnapSide(snap, s), depth, p) {
      E' := E;
      StillSinceSnapshot(E, snap, ds, i, ds[i..], s, p);
      LoadTopLevels(s, E(id).Side(s), depth, p);
      assert InWindow(snap, depth, ds, s, p);
    } else {
      var x := if QtyAt(book.Side(s), p) == 1.0 then 2.0 else 1.0;
      E' := Repriced(E, ds[i - 1].final, s, p, x);
      RepricedExplains(E, snap, depth, ds, i, s, p, x);
      RepricedAt(E, ds[i - 1].final, s, p, x, last, s, p);
      assert ds[i].final <= last by {
        assert i == |ds| - 1 || ds[i].final <= ds[|ds| - 1].final;
      }
      assert InWindow(snap, depth, ds, s, p);
    }
  }

  /** A price not listed after the last skip has not moved since the snapshot. */
  lemma StillSinceSnapshot(E: Timeline, snap: Snapshot, ds: seq<Diff>, i: nat, run: seq<Diff>, s: BookSide, p: Price)
    requires TruthfulDiffs(E, ds) && InOrder(ds) && snap.lastUpdateId <= FinalId(snap.lastUpdateId, ds)
    requires i < |ds| && run == ds[i..] && ds[i].first <= snap.lastUpdateId + 1 && !Touched(run, s, p)
    requires forall j | i < j < |ds| :: !SkipsAt(snap.lastUpdateId, ds, j)
    ensures At(E, snap.lastUpdateId, s, p) == At(E, FinalId(snap.lastUpdateId, ds), s, p)
  {
    GaplessAfter(snap.lastUpdateId, ds, i, run);
    TruthfulFrom(E, ds, i, run);
    RunStill(E, snap.lastUpdateId, run, s, p, snap.lastUpdateId);
  }

  lemma HarmfulSkip(E: Timeline, snap: Snapshot, depth: int, ds: seq<Diff>, i: nat) returns (E': Timeline)
    requires Explains(E, snap, depth, ds) && InOrder(ds) && snap.lastUpdateId <= FinalId(snap.lastUpdateId, ds)
    requires forall j | 0 <= j < |ds| && SkipsAt(snap.lastUpdateId, ds, j) :: ds[j].first <= snap.lastUpdateId + 1
    requires i < |ds| && SkipsAt(snap.lastUpdateId, ds, i) && !RewindsHarmless(snap, depth, ds, i)
    ensures Explains(E', snap, depth, ds)
    ensures !ExactOnWindow(E', ApplyAll(LoadDepth(snap), ds), FinalId(snap.lastUpdateId, ds), snap, depth, ds)
  {
    var s: BookSide, p :| Rewound(ds, i, s, p) && (Covers(s, SnapSide(snap, s), depth, p) ==>
      QtyAt(ApplyAll(LoadDepth(snap), ds).Side(s), p) != QtyAt(LoadDepth(snap).Side(s), p));
    var j := LastSkip(snap.lastUpdateId, ds, |ds|);
    RewoundLater(ds, i, j, s, p);
    E' := HarmfulRewind(E, snap, depth, ds, j, s, p);
  }

  lemma UntrustedWrong(E: Timeline, snap: Snapshot, depth: int, ds: seq<Diff>) returns (E': Timeline)
    requires Explains(E, snap, depth, ds) && InOrder(ds) && ds != [] && !Trusted(snap, depth, ds)
    ensures Explains(E', snap, depth, ds)
    ensures !ExactOnWindow(E', ApplyAll(LoadDepth(snap), ds), FinalId(snap.lastUpdateId, ds), snap, depth, ds)
  {
    var id := snap.lastUpdateId;
    if FinalId(id, ds) < id {
      var p;
      E', p := SnapshotAheadHidesBid(E, snap, depth, ds);
    } else if i :| 0 <= i < |ds| && SkipsAt(id, ds, i) && ds[i].first > id + 1 {
      E' := UnseenSkip(E, snap, depth, ds, i);
    } else {
      var i :| 0 <= i < |ds| && SkipsAt(id, ds, i) && !RewindsHarmless(snap, depth, ds, i);
      E' := HarmfulSkip(E, snap, depth, ds, i);
    }
  }

  /** Exactly when can a book be trusted, wherever the snapshot stands among the diffs?  For all ordered diffs, the book
      is right under every history that explains snapshot and diffs if and only if the diffs have caught up with the
      snapshot, every skipped id is one the snapshot has seen, and no price was rewound before such a skip, and left
      there, to anything but what the snapshot gives. */
  lemma OrderedTrustIff(E: Timeline, snap: Snapshot, depth: int, ds: seq<Diff>)
    requires Explains(E, snap, depth, ds) && InOrder(ds) && ds != []
    ensures Trusted(snap, depth, ds)
       <==> forall E': Timeline | Explains(E', snap, depth, ds) ::
              ExactOnWindow(E', ApplyAll(LoadDepth(snap), ds), FinalId(snap.lastUpdateId, ds), snap, depth, ds)
  {
    if Trusted(snap, depth, ds) {
      forall E': Timeline | Explains(E', snap, depth, ds)
        ensures ExactOnWindow(E', ApplyAll(LoadDepth(snap), ds), FinalId(snap.lastUpdateId, ds), snap, depth, ds)
      {
        TrustedExact(E', snap, depth, ds);
      }
    } else {
      var E' := UntrustedWrong(E, snap, depth, ds);
    }
  }
}
