/** Every book that live ingest publishes, those published in the middle of a bootstrap replay included. */
module Publication {
  import opened Levels
  import opened Feed
  import OrderBook
  import opened Options
  import opened Subsequences
  import opened SyncProtocol
  import SyncSafety
  import Truncation

  /** The state that a step hands to the alignment, if it comes to one. */
  function Aligning(s: State, a: Action): (r: Option<State>)
    ensures r.Some? ==> r.value.snapshot.Some?
  {
    match a
    case Deliver(d, _) =>
      if s.phase == Bootstrapping && s.snapshot.Some? then Some(s.(buffer := s.buffer + [d])) else None
    case Fetched(result, _, _) =>
      if s.fetches > 0 && result.Some? && !s.stale then
        Some(s.(pending := false, fetches := s.fetches - 1, snapshot := result))
      else None
  }

  /** The buffered diffs that an alignment replays, none if there is no alignment point. */
  function ToReplay(s: State): seq<Diff>
    requires s.snapshot.Some?
  {
    var id := s.snapshot.value.lastUpdateId;
    var buf := Discard(s.buffer, id);
    var idx := AlignmentIndex(buf, id);
    if idx == -1 then [] else buf[idx..]
  }

  /** During the step the handler publishes the book made of the snapshot `base` and then `since`: one for each
      replayed diff until one is refused, and one for a diff applied while synced. */
  ghost predicate Publishes(cfg: Config, s: State, a: Action, base: Snapshot, since: seq<Diff>)
    requires Enabled(s, a)
  {
    if Aligning(s, a).Some? then
      var s1 := Aligning(s, a).value;
      && base == s1.snapshot.value
      && since != [] && since <= ToReplay(s1)
      && (a.env.applyFailsAt.Some? ==> |since| <= a.env.applyFailsAt.value)
    else
      var s' := Step(cfg, s, a);
      && a.Deliver? && s.phase == Synced == s'.phase
      && base == s'.epoch.base && since == s'.epoch.since
  }

  /** The book of a state that a step leaves synced is the last one the step published. */
  lemma LastPublished(cfg: Config, ss: seq<State>, acts: seq<Action>, a: Action, s': State)
    requires ValidConfig(cfg) && Run(cfg, ss, acts) && Enabled(ss[|acts|], a) && s' == Step(cfg, ss[|acts|], a)
    requires s'.phase == Synced
    ensures Publishes(cfg, ss[|acts|], a, s'.epoch.base, s'.epoch.since)
    ensures s'.book == ApplyAll(LoadDepth(s'.epoch.base), s'.epoch.since)
  {
    var s := ss[|acts|];
    FetchDiscipline(cfg, ss, acts);
    Extended(cfg, ss, acts, a);
    SyncSafety.TrackedInvariant(cfg, ss + [s'], acts + [a]);
    if Aligning(s, a).Some? {
      AlignedPublishes(cfg, s, a, s');
    }
  }

  lemma AlignedPublishes(cfg: Config, s: State, a: Action, s': State)
    requires Disciplined(cfg, s) && Enabled(s, a) && s' == Step(cfg, s, a) && s'.phase == Synced
    requires Aligning(s, a).Some?
    ensures Publishes(cfg, s, a, s'.epoch.base, s'.epoch.since)
  {
    var s1 := Aligning(s, a).value;
    assert s' == TryAlign(cfg, s1, a.env);
    assert s'.epoch.since == ToReplay(s1);
  }

  lemma Extended(cfg: Config, ss: seq<State>, acts: seq<Action>, a: Action)
    requires Run(cfg, ss, acts) && Enabled(ss[|acts|], a)
    ensures Run(cfg, ss + [Step(cfg, ss[|acts|], a)], acts + [a])
  {
  }

  // ----- what made a published book

  /** An honest run that goes on with the step `a`. */
  ghost predicate HonestStep(E: Timeline, cfg: Config, ss: seq<State>, acts: seq<Action>, a: Action) {
    && ValidConfig(cfg) && Run(cfg, ss, acts) && Enabled(ss[|acts|], a)
    && SyncSafety.HonestRun(E, cfg, acts + [a])
  }

  lemma HonestBefore(E: Timeline, cfg: Config, ss: seq<State>, acts: seq<Action>, a: Action)
    requires HonestStep(E, cfg, ss, acts, a)
    ensures SyncSafety.HonestRun(E, cfg, acts) && SyncSafety.HonestAction(E, cfg.depthLimit, a)
    ensures Delivered(acts + [a]) == if a.Deliver? then Delivered(acts) + [a.diff] else Delivered(acts)
  {
    assert (acts + [a])[..|acts|] == acts && (acts + [a])[|acts|] == a;
    forall i | 0 <= i < |acts|
      ensures SyncSafety.HonestAction(E, cfg.depthLimit, acts[i])
    {
      assert (acts + [a])[i] == acts[i];
    }
    assert Delivered(acts) == Delivered(acts + [a])[..|Delivered(acts)|];
  }

  /** What the alignment of a step may replay was delivered, in this order. */
  lemma BufferDelivered(cfg: Config, ss: seq<State>, acts: seq<Action>, a: Action)
    requires ValidConfig(cfg) && Run(cfg, ss, acts) && Aligning(ss[|acts|], a).Some?
    ensures Subseq(ToReplay(Aligning(ss[|acts|], a).value),
                   if a.Deliver? then Delivered(acts) + [a.diff] else Delivered(acts))
  {
    var s, s1 := ss[|acts|], Aligning(ss[|acts|], a).value;
    var delivered := if a.Deliver? then Delivered(acts) + [a.diff] else Delivered(acts);
    SyncSafety.AppliedOnceInOrder(cfg, ss, acts);
    SubseqEnd(s.applied + s.buffer, s.buffer, Delivered(acts));
    if a.Deliver? {
      SubseqSnoc(s.buffer, Delivered(acts), a.diff);
    }
    ReplayOfBuffer(s1);
    SubseqTrans(ToReplay(s1), s1.buffer, delivered);
  }

  lemma ReplayOfBuffer(s: State)
    requires s.snapshot.Some?
    ensures Subseq(ToReplay(s), s.buffer)
    ensures ToReplay(s) != [] ==> Aligns(ToReplay(s)[0], s.snapshot.value.lastUpdateId)
  {
    var id := s.snapshot.value.lastUpdateId;
    var buf := Discard(s.buffer, id);
    var idx := AlignmentIndex(buf, id);
    SyncSafety.DiscardSubseq(s.buffer, id);
    SyncSafety.AlignmentFirst(buf, id, 0);
    if idx == -1 {
      assert s.buffer[0..0] == [];
      SubseqSlice(s.buffer, 0, 0);
    } else {
      SubseqEnd(buf, buf[idx..], s.buffer);
    }
  }

  /** The snapshot and the diffs behind a published book are truthful, ordered, and start at an alignment point. */
  ghost predicate Sound(E: Timeline, cfg: Config, base: Snapshot, since: seq<Diff>) {
    && Explains(E, base, cfg.depthLimit, since) && InOrder(since)
    && since != [] && Aligns(since[0], base.lastUpdateId)
  }

  lemma ReplayTruthful(E: Timeline, cfg: Config, ss: seq<State>, acts: seq<Action>, a: Action, all: seq<Diff>)
    requires HonestStep(E, cfg, ss, acts, a) && Aligning(ss[|acts|], a).Some?
    requires all == ToReplay(Aligning(ss[|acts|], a).value)
    ensures InOrder(all) && TruthfulDiffs(E, all)
  {
    HonestBefore(E, cfg, ss, acts, a);
    BufferDelivered(cfg, ss, acts, a);
    SyncSafety.DeliveredTruthful(E, cfg, acts + [a]);
    SyncSafety.SubseqInOrder(all, Delivered(acts + [a]));
    SyncSafety.SubseqTruthful(E, all, Delivered(acts + [a]));
  }

  lemma AligningTruthful(E: Timeline, cfg: Config, ss: seq<State>, acts: seq<Action>, a: Action)
    requires HonestStep(E, cfg, ss, acts, a) && Aligning(ss[|acts|], a).Some?
    ensures Proper(E) && TruthfulSnapshot(E, Aligning(ss[|acts|], a).value.snapshot.value, cfg.depthLimit)
  {
    HonestBefore(E, cfg, ss, acts, a);
    SyncSafety.EpochInvariant(E, cfg, ss, acts);
  }

  lemma ReplayedSound(E: Timeline, cfg: Config, ss: seq<State>, acts: seq<Action>, a: Action,
                      base: Snapshot, since: seq<Diff>)
    requires HonestStep(E, cfg, ss, acts, a) && Aligning(ss[|acts|], a).Some?
    requires Publishes(cfg, ss[|acts|], a, base, since)
    ensures Sound(E, cfg, base, since)
  {
    var all := ToReplay(Aligning(ss[|acts|], a).value);
    ReplayTruthful(E, cfg, ss, acts, a, all);
    AligningTruthful(E, cfg, ss, acts, a);
    ReplayOfBuffer(Aligning(ss[|acts|], a).value);
    assert since == all[..|since|];
    SyncSafety.InOrderPrefix(all, |since|);
    TruthfulPrefix(E, all, |since|);
  }

  lemma PublicationSound(E: Timeline, cfg: Config, ss: seq<State>, acts: seq<Action>, a: Action,
                         base: Snapshot, since: seq<Diff>)
    requires HonestStep(E, cfg, ss, acts, a) && Publishes(cfg, ss[|acts|], a, base, since)
    ensures Sound(E, cfg, base, since)
  {
    if Aligning(ss[|acts|], a).Some? {
      ReplayedSound(E, cfg, ss, acts, a, base, since);
    } else {
      var s' := Step(cfg, ss[|acts|], a);
      Extended(cfg, ss, acts, a);
      SyncSafety.EpochExplained(E, cfg, ss + [s'], acts + [a]);
    }
  }

  // ----- which published books can be trusted

  /** A published book, whichever step of an honest run publishes it, in the middle of a bootstrap replay, before one
      that is abandoned, or while synced: it is right under every history that explains the snapshot and diffs
      behind it if and only if these skip no id. */
  lemma PublicationTrustIff(E: Timeline, cfg: Config, ss: seq<State>, acts: seq<Action>, a: Action,
                            base: Snapshot, since: seq<Diff>)
    requires HonestStep(E, cfg, ss, acts, a) && Publishes(cfg, ss[|acts|], a, base, since)
    ensures Gapless(base.lastUpdateId, since)
       <==> forall E': Timeline | Explains(E', base, cfg.depthLimit, since) ::
              ExactOnWindow(E', ApplyAll(LoadDepth(base), since), FinalId(base.lastUpdateId, since), base,
                            cfg.depthLimit, since)
  {
    PublicationSound(E, cfg, ss, acts, a, base, since);
    GaplessIff(E, base, cfg.depthLimit, since);
  }

  /** And then what is published of a side, `d` levels deep, is what every such history would show if and only if the
      side was loaded whole or the book still holds `d` of the levels loaded. */
  lemma PublicationDepthIff(E: Timeline, cfg: Config, ss: seq<State>, acts: seq<Action>, a: Action,
                            base: Snapshot, since: seq<Diff>, side: BookSide, d: int)
    requires HonestStep(E, cfg, ss, acts, a) && Publishes(cfg, ss[|acts|], a, base, since)
    requires Gapless(base.lastUpdateId, since)
    ensures var book, k := ApplyAll(LoadDepth(base), since), FinalId(base.lastUpdateId, since);
            (Uncut(base, side, cfg.depthLimit) || 0 < d <= CoveredLevels(book, base, cfg.depthLimit, side)) <==>
            forall E': Timeline | Explains(E', base, cfg.depthLimit, since) ::
              SnapSide(OrderBook.SnapshotOf(book, k, d), side) == TopLevels(side, E'(k).Side(side), d)
  {
    PublicationSound(E, cfg, ss, acts, a, base, since);
    Ends(base.lastUpdateId, since);
    Truncation.TopTrustIff(E, base, cfg.depthLimit, since, side, d);
  }

  lemma Ends(id: int, since: seq<Diff>)
    requires InOrder(since) && since != [] && Aligns(since[0], id)
    ensures id <= FinalId(id, since)
  {
    assert |since| == 1 || since[0].final <= since[|since| - 1].final;
  }

  /** Under the exchange itself: without a skipped id the published book agrees with it on the window, holds no phantom,
      and is its book if the snapshot was not cut. */
  lemma PublicationExact(E: Timeline, cfg: Config, ss: seq<State>, acts: seq<Action>, a: Action,
                         base: Snapshot, since: seq<Diff>)
    requires HonestStep(E, cfg, ss, acts, a) && Publishes(cfg, ss[|acts|], a, base, since)
    requires Gapless(base.lastUpdateId, since)
    ensures var book, k := ApplyAll(LoadDepth(base), since), FinalId(base.lastUpdateId, since);
            && ExactOnWindow(E, book, k, base, cfg.depthLimit, since)
            && (forall side: BookSide, p | p in book.Side(side) ::
                  p in E(k).Side(side) && E(k).Side(side)[p] == book.Side(side)[p])
            && (Uncut(base, Bid, cfg.depthLimit) && Uncut(base, Ask, cfg.depthLimit) ==> book == E(k))
  {
    var book, k := ApplyAll(LoadDepth(base), since), FinalId(base.lastUpdateId, since);
    PublicationSound(E, cfg, ss, acts, a, base, since);
    Ends(base.lastUpdateId, since);
    WindowExact(E, base, cfg.depthLimit, since);
    LoadProper(base);
    ApplyAllProper(LoadDepth(base), since);
    NoPhantoms(E, book, k, base, cfg.depthLimit, since);
    if Uncut(base, Bid, cfg.depthLimit) && Uncut(base, Ask, cfg.depthLimit) {
      CompleteExact(E, book, k, base, cfg.depthLimit, since);
    }
  }
}
