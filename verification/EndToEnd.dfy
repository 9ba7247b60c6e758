/** From the live feed through the persisted checkpoint to the replayed book. */
module EndToEnd {
  import opened Levels
  import opened Feed
  import opened SyncProtocol
  import opened SyncSafety
  import opened Subsequences
  import Replay
  import Truncation

  /** The checkpoint written by the last step of a run. */
  ghost function LastCheckpoint(ss: seq<State>): Snapshot
    requires ss != [] && ss[|ss| - 1].checkpoints != []
  {
    ss[|ss| - 1].checkpoints[|ss[|ss| - 1].checkpoints| - 1]
  }

  // ----- against the exchange

  /** Take any run of the handler on an honest exchange whose last step wrote a checkpoint, in an epoch without a
      logged gap, however few of the loaded levels are left.  A replay that starts from that checkpoint, with any
      gap-free true diffs that overlap it - however many end before it and rewind prices - has, as soon as they
      have caught up with it, the exchange's quantity wherever the checkpoint was certain or a diff says
      something, and holds no other level.  If each side was loaded whole or still deep enough, that is the
      checkpoint's whole window. */
  lemma CheckpointReplays(E: Timeline, cfg: Config, ss: seq<State>, acts: seq<Action>,
                          diffs: seq<Diff>, env: Replay.ReplayEnv, n: nat)
    requires ValidConfig(cfg) && Run(cfg, ss, acts) && HonestRun(E, cfg, acts) && acts != []
    requires ss[|acts|].checkpoints != ss[|acts| - 1].checkpoints && !ss[|acts|].epoch.warned
    requires 0 < n <= |diffs| && TruthfulDiffs(E, diffs[..n]) && Replay.GapFreeSince(diffs, 0, n)
    requires diffs[0].first <= ss[|acts|].bookId + 1 && ss[|acts|].bookId <= diffs[n - 1].final
    ensures ss[|acts|].checkpoints != []
    ensures var s, c, replayed := ss[|acts|], LastCheckpoint(ss), Replay.BookAfter(LastCheckpoint(ss), diffs, env, n);
            && (forall side: BookSide, p | Certain(cfg, s, c, side, p) || Touched(diffs[..n], side, p) ::
                  QtyAt(replayed.Side(side), p) == At(E, diffs[n - 1].final, side, p))
            && (forall side: BookSide, p | p in replayed.Side(side) ::
                  Certain(cfg, s, c, side, p) || Touched(diffs[..n], side, p))
            && (DeepEnough(cfg, s) ==>
                  ExactOnWindow(E, replayed, diffs[n - 1].final, c, cfg.depthLimit, diffs[..n]))
  {
    var s := ss[|acts|];
    CheckpointWritten(cfg, ss, acts);
    SyncSafe(E, cfg, ss, acts);
    var c := CheckpointOf(cfg, s);
    SeedIsStart(c, diffs, env, n);
    assert diffs[0..n] == diffs[..n];
    Replay.SeededRun(c, diffs, env, n);
    Replay.GapFreeContiguous(E, diffs, 0, n);
    ContiguousGapless(s.bookId, diffs[..n]);
    Truncation.ReplayKnown(E, s.book, s.last, s.epoch.base, cfg.depthLimit, s.epoch.since, diffs[..n]);
    if DeepEnough(cfg, s) {
      EpochExplained(E, cfg, ss, acts);
      CheckpointTrustIff(E, cfg, ss, acts);
      Replay.ReplayExact(E, cfg.depthLimit, c, diffs, env, n);
    }
  }

  lemma {:induction false} SeedIsStart(c: Snapshot, diffs: seq<Diff>, env: Replay.ReplayEnv, n: nat)
    requires n <= |diffs| && Replay.GapFreeSince(diffs, 0, n)
    ensures Replay.Seed(c, diffs, env, n) == (c, 0)
  {
    if n > 0 {
      SeedIsStart(c, diffs, env, n - 1);
    }
  }

  // ----- against what live ingest saw

  /** No diff runs backwards or lists a price twice with different quantities. */
  ghost predicate WellMade(d: Diff) {
    d.first <= d.final && forall side: BookSide :: Replay.Unambiguous(DiffSide(d, side))
  }

  /** Replay converges to what live ingest saw, on any feed.  Take any run of the handler that wrote a checkpoint at
      step `k` and has been synced since.  A replay that starts from that checkpoint, with the epoch's applied diffs
      from position `j` on - from the last diff that came out of the buffer or any later one up to the checkpoint,
      or from any earlier one if those in the buffer were contiguous as well - ends with the live book on the
      checkpoint's window, and with the live book itself if the checkpoint was not cut. */
  lemma ReplayReproducesRun(cfg: Config, ss: seq<State>, acts: seq<Action>, k: nat, j: nat, env: Replay.ReplayEnv)
    requires ValidConfig(cfg) && Run(cfg, ss, acts)
    requires 0 < k <= |acts| && ss[k].checkpoints != ss[k - 1].checkpoints && 0 <= ss[k].last
    requires forall i | k <= i <= |acts| :: ss[i].phase == Synced
    requires forall i | 0 <= i < |ss[|acts|].epoch.since| :: WellMade(ss[|acts|].epoch.since[i])
    requires j <= |ss[k].epoch.since| && j < |ss[|acts|].epoch.since|
    requires ss[|acts|].epoch.replayed <= j + 1 || Contiguous(ss[|acts|].epoch.since)
    ensures ss[k].checkpoints != []
    ensures var c, diffs := LastCheckpoint(ss[..k + 1]), ss[|acts|].epoch.since[j..];
            Replay.Reproduces(Replay.BookAfter(c, diffs, env, |diffs|), ss[|acts|].book, c, cfg.depthLimit, diffs)
  {
    var s, at := ss[|acts|], |ss[k].epoch.since|;
    EpochAt(cfg, ss, acts, k, s, at);
    EngineReplays(cfg, s, at, j, LastCheckpoint(ss[..k + 1]), s.epoch.since[j..], env);
  }

  /** The engine meets no gap in an epoch's diffs, and so never reseeds. */
  lemma EngineReplays(cfg: Config, s: State, at: nat, j: nat, c: Snapshot, diffs: seq<Diff>, env: Replay.ReplayEnv)
    requires EpochTracked(s) && j <= at <= |s.epoch.since| && s.epoch.replayed <= at && j < |s.epoch.since|
    requires forall i | 0 <= i < |s.epoch.since| :: WellMade(s.epoch.since[i])
    requires s.epoch.replayed <= j + 1 || Contiguous(s.epoch.since)
    requires 0 <= s.epoch.since[at - 1].final
    requires c == Replay.CheckpointAfter(s.epoch.base, s.epoch.since, cfg.depthLimit, at) && diffs == s.epoch.since[j..]
    ensures Replay.Reproduces(Replay.BookAfter(c, diffs, env, |diffs|), s.book, c, cfg.depthLimit, diffs)
  {
    EpochGapFree(s, j);
    FromStart(c, diffs, env);
    EpochReplays(cfg, s, at, j, c, diffs, Replay.BookAfter(c, diffs, env, |diffs|));
  }

  /** Replaying an epoch's diffs from one of its checkpoints gives its book. */
  lemma EpochReplays(cfg: Config, s: State, at: nat, j: nat, c: Snapshot, diffs: seq<Diff>, replayed: Depth)
    requires EpochTracked(s) && j <= at <= |s.epoch.since| && s.epoch.replayed <= at && j < |s.epoch.since|
    requires forall i | 0 <= i < |s.epoch.since| :: WellMade(s.epoch.since[i])
    requires s.epoch.replayed <= j + 1 || Contiguous(s.epoch.since)
    requires 0 <= s.epoch.since[at - 1].final
    requires c == Replay.CheckpointAfter(s.epoch.base, s.epoch.since, cfg.depthLimit, at)
    requires diffs == s.epoch.since[j..] && replayed == ApplyAll(LoadDepth(c), diffs)
    ensures Replay.Reproduces(replayed, s.book, c, cfg.depthLimit, diffs)
  {
    var base, since, n := s.epoch.base, s.epoch.since, |s.epoch.since|;
    EpochWellFormed(s, if j < at then j else at - 1);
    WholeSlices(since, j);
    Replay.ReplayReproducesLive(base, since, cfg.depthLimit, j, at, n);
  }

  lemma FromStart(c: Snapshot, diffs: seq<Diff>, env: Replay.ReplayEnv)
    requires Replay.GapFreeSince(diffs, 0, |diffs|)
    ensures Replay.BookAfter(c, diffs, env, |diffs|) == ApplyAll(LoadDepth(c), diffs)
  {
    SeedIsStart(c, diffs, env, |diffs|);
    WholeSlices(diffs, 0);
  }

  /** The state that wrote a checkpoint. */
  lemma WrittenAt(cfg: Config, ss: seq<State>, acts: seq<Action>, k: nat, first: State)
    requires ValidConfig(cfg) && Run(cfg, ss, acts)
    requires 0 < k <= |acts| && ss[k].checkpoints != ss[k - 1].checkpoints && first == ss[k]
    ensures first.phase == Synced && EpochTracked(first)
    ensures ss[..k + 1][k].checkpoints != [] && LastCheckpoint(ss[..k + 1]) == CheckpointOf(cfg, first)
  {
    assert Run(cfg, ss[..k + 1], acts[..k]);
    TrackedInvariant(cfg, ss[..k + 1], acts[..k]);
    CheckpointWritten(cfg, ss[..k + 1], acts[..k]);
  }

  /** Its checkpoint, in terms of a later state of the epoch. */
  lemma CheckpointIs(cfg: Config, first: State, s: State, at: nat)
    requires EpochTracked(first) && EpochTracked(s) && SameEpoch(first.epoch, s.epoch) && at == |first.epoch.since|
    ensures 0 < at <= |s.epoch.since| && s.epoch.since[at - 1].final == first.last
    ensures CheckpointOf(cfg, first) == Replay.CheckpointAfter(s.epoch.base, s.epoch.since, cfg.depthLimit, at)
  {
    assert s.epoch.since[..at] == first.epoch.since;
  }

  lemma EpochAt(cfg: Config, ss: seq<State>, acts: seq<Action>, k: nat, s: State, at: nat)
    requires ValidConfig(cfg) && Run(cfg, ss, acts) && s == ss[|acts|]
    requires 0 < k <= |acts| && ss[k].checkpoints != ss[k - 1].checkpoints && at == |ss[k].epoch.since|
    requires forall i | k <= i <= |acts| :: ss[i].phase == Synced
    ensures EpochTracked(s) && s.epoch.replayed <= at <= |s.epoch.since| && s.epoch.since[at - 1].final == ss[k].last
    ensures ss[..k + 1][k].checkpoints != []
    ensures LastCheckpoint(ss[..k + 1]) == Replay.CheckpointAfter(s.epoch.base, s.epoch.since, cfg.depthLimit, at)
  {
    TrackedInvariant(cfg, ss, acts);
    SyncedStretch(cfg, ss, acts, k);
    WrittenAt(cfg, ss, acts, k, ss[k]);
    CheckpointIs(cfg, ss[k], s, at);
  }

  lemma EpochWellFormed(s: State, m: nat)
    requires EpochTracked(s) && m < |s.epoch.since|
    requires forall i | 0 <= i < |s.epoch.since| :: WellMade(s.epoch.since[i])
    requires s.epoch.replayed <= m + 1 || Contiguous(s.epoch.since)
    ensures Replay.WellFormed(s.epoch.since[m..|s.epoch.since|])
  {
    var run := s.epoch.since[m..|s.epoch.since|];
    forall i | 0 <= i < |run|
      ensures WellMade(run[i])
      ensures i > 0 ==> run[i].first == run[i - 1].final + 1
    {
      assert run[i] == s.epoch.since[m + i];
      assert i > 0 ==> run[i - 1] == s.epoch.since[m + i - 1];
    }
  }

  lemma EpochGapFree(s: State, j: nat)
    requires EpochTracked(s) && j < |s.epoch.since|
    requires s.epoch.replayed <= j + 1 || Contiguous(s.epoch.since)
    ensures Replay.GapFreeSince(s.epoch.since[j..], 0, |s.epoch.since| - j)
  {
    forall i | 0 < i < |s.epoch.since| - j
      ensures !Replay.GapBefore(s.epoch.since[j..], i)
    {
      assert s.epoch.since[j..][i] == s.epoch.since[j + i] && s.epoch.since[j..][i - 1] == s.epoch.since[j + i - 1];
    }
  }

  // ----- across resyncs

  lemma AlignAppends(cfg: Config, s: State, env: Env, s': State)
    requires s' == TryAlign(cfg, s, env)
    ensures s.applied <= s'.applied
  {
  }

  lemma StepAppends(cfg: Config, s: State, a: Action, s': State)
    requires Enabled(s, a) && s' == Step(cfg, s, a)
    ensures s.applied <= s'.applied
  {
    match a
    case Deliver(d, env) =>
      if s.phase == Bootstrapping && s.snapshot.Some? {
        AlignAppends(cfg, s.(buffer := s.buffer + [d]), env, s');
      }
    case Fetched(result, shuttingDown, env) =>
      if result.Some? && !s.stale {
        AlignAppends(cfg, s.(pending := false, fetches := s.fetches - 1, snapshot := result), env, s');
      }
  }

  lemma RunAppends(cfg: Config, ss: seq<State>, acts: seq<Action>, i: nat)
    requires Run(cfg, ss, acts) && i < |acts|
    ensures ss[i].applied <= ss[i + 1].applied
  {
    StepAppends(cfg, ss[i], acts[i], ss[i + 1]);
  }

  lemma AppliedGrows(cfg: Config, ss: seq<State>, acts: seq<Action>, k: nat)
    requires Run(cfg, ss, acts) && k <= |acts|
    ensures ss[k].applied <= ss[|acts|].applied
  {
    var applied := seq(|ss|, i requires 0 <= i < |ss| => ss[i].applied);
    forall i | 0 <= i < |acts|
      ensures applied[i] <= applied[i + 1]
    {
      RunAppends(cfg, ss, acts, i);
    }
    ChainGrows(applied, k, |acts|);
  }

  lemma {:induction false} DeliveredGrows(acts: seq<Action>, k: nat)
    requires k <= |acts|
    ensures Delivered(acts[..k]) <= Delivered(acts)
  {
    if k == |acts| {
      assert acts[..k] == acts;
    } else {
      DeliveredGrows(acts[..|acts| - 1], k);
      assert acts[..|acts| - 1][..k] == acts[..k];
    }
  }

  lemma HonestPrefix(E: Timeline, cfg: Config, ss: seq<State>, acts: seq<Action>, k: nat)
    requires Run(cfg, ss, acts) && HonestRun(E, cfg, acts) && k <= |acts|
    ensures Run(cfg, ss[..k + 1], acts[..k]) && HonestRun(E, cfg, acts[..k])
  {
    DeliveredGrows(acts, k);
    var n := |Delivered(acts[..k])|;
    assert Delivered(acts[..k]) == Delivered(acts)[..n];
    InOrderPrefix(Delivered(acts), n);
  }

  /** The diffs applied after step `k`, in whatever epochs. */
  function AppliedSince(ss: seq<State>, k: nat): seq<Diff>
    requires k < |ss| && |ss[k].applied| <= |ss[|ss| - 1].applied|
  {
    ss[|ss| - 1].applied[|ss[k].applied|..]
  }

  lemma AppliedHonest(E: Timeline, cfg: Config, ss: seq<State>, acts: seq<Action>)
    requires ValidConfig(cfg) && Run(cfg, ss, acts) && HonestRun(E, cfg, acts)
    ensures InOrder(ss[|acts|].applied) && TruthfulDiffs(E, ss[|acts|].applied)
  {
    AppliedOnceInOrder(cfg, ss, acts);
    DeliveredTruthful(E, cfg, acts);
    SubseqInOrder(ss[|acts|].applied, Delivered(acts));
    SubseqTruthful(E, ss[|acts|].applied, Delivered(acts));
  }

  lemma TailHonest(E: Timeline, all: seq<Diff>, m: nat, tail: seq<Diff>)
    requires InOrder(all) && TruthfulDiffs(E, all) && m <= |all| && tail == all[m..]
    ensures InOrder(tail) && TruthfulDiffs(E, tail)
    ensures 0 < m < |all| ==> all[m - 1].final <= tail[0].final
  {
    assert forall i | 0 <= i < |tail| :: tail[i] == all[m + i];
  }

  /** A trustworthy checkpoint written at step `k` and the diffs applied after it are truthful, and the first of these
      does not end before the checkpoint. */
  lemma SinceCheckpoint(E: Timeline, cfg: Config, ss: seq<State>, acts: seq<Action>, k: nat, c: Snapshot, ds: seq<Diff>)
    requires ValidConfig(cfg) && Run(cfg, ss, acts) && HonestRun(E, cfg, acts)
    requires 0 < k <= |acts| && ss[k].checkpoints != ss[k - 1].checkpoints
    requires !ss[k].epoch.warned && DeepEnough(cfg, ss[k]) && c == CheckpointOf(cfg, ss[k])
    requires ss[k].applied <= ss[|acts|].applied && ds == ss[|acts|].applied[|ss[k].applied|..]
    ensures Explains(E, c, cfg.depthLimit, ds) && InOrder(ds) && (ds != [] ==> c.lastUpdateId <= ds[0].final)
  {
    HonestPrefix(E, cfg, ss, acts, k);
    CheckpointTruthful(E, cfg, ss[..k + 1], acts[..k]);
    WrittenAt(cfg, ss, acts, k, ss[k]);
    AppliedHonest(E, cfg, ss, acts);
    var m := |ss[k].applied|;
    TailHonest(E, ss[|acts|].applied, m, ds);
    LastApplied(ss[k]);
    assert ss[|acts|].applied[m - 1] == ss[k].applied[m - 1];
  }

  lemma LastApplied(s: State)
    requires EpochTracked(s)
    ensures s.applied != [] && s.applied[|s.applied| - 1].final == s.bookId
  {
  }

  lemma {:induction false} SeedKept(c: Snapshot, diffs: seq<Diff>, env: Replay.ReplayEnv, n: nat)
    requires n <= |diffs| && forall i | 0 <= i < n :: !Replay.ReseedsBefore(diffs, env, i)
    ensures Replay.Seed(c, diffs, env, n) == (c, 0)
  {
    if n > 0 {
      SeedKept(c, diffs, env, n - 1);
    }
  }

  /** Replay across resyncs of the live handler.  The snapshot that ends a resync is never persisted as a checkpoint,
      so a replay that meets the ids lost in a resync may have nothing to reseed from.  Take a checkpoint written in an
      epoch without a logged gap and deep enough, and everything applied since, through whatever resyncs: after any
      number of these diffs the replay that started from the checkpoint and was not reseeded is right under every
      history that explains checkpoint and diffs if and only if the diffs skip no id. */
  lemma ReplayAcrossResyncsIff(E: Timeline, cfg: Config, ss: seq<State>, acts: seq<Action>, k: nat,
                               env: Replay.ReplayEnv, n: nat)
    requires ValidConfig(cfg) && Run(cfg, ss, acts) && HonestRun(E, cfg, acts)
    requires 0 < k <= |acts| && ss[k].checkpoints != ss[k - 1].checkpoints
    requires !ss[k].epoch.warned && DeepEnough(cfg, ss[k])
    requires |ss[k].applied| < |ss[|acts|].applied|
    requires 0 < n <= |AppliedSince(ss, k)|
    requires forall i | 0 <= i < n :: !Replay.ReseedsBefore(AppliedSince(ss, k), env, i)
    ensures var c, diffs, depth := CheckpointOf(cfg, ss[k]), AppliedSince(ss, k), cfg.depthLimit;
            (Gapless(c.lastUpdateId, diffs[..n]) <==>
              forall E': Timeline | Explains(E', c, depth, diffs[..n]) ::
                ExactOnWindow(E', Replay.BookAfter(c, diffs, env, n), diffs[n - 1].final, c, depth, diffs[..n]))
  {
    var c, diffs := CheckpointOf(cfg, ss[k]), AppliedSince(ss, k);
    AppliedGrows(cfg, ss, acts, k);
    SinceCheckpoint(E, cfg, ss, acts, k, c, diffs);
    UnseededTrustIff(E, cfg.depthLimit, c, diffs, env, n);
  }

  lemma UnseededTrustIff(E: Timeline, depth: int, c: Snapshot, diffs: seq<Diff>, env: Replay.ReplayEnv, n: nat)
    requires 0 < n <= |diffs| && forall i | 0 <= i < n :: !Replay.ReseedsBefore(diffs, env, i)
    requires Explains(E, c, depth, diffs) && InOrder(diffs) && c.lastUpdateId <= diffs[0].final
    ensures Gapless(c.lastUpdateId, diffs[..n])
       <==> forall E': Timeline | Explains(E', c, depth, diffs[..n]) ::
              ExactOnWindow(E', Replay.BookAfter(c, diffs, env, n), diffs[n - 1].final, c, depth, diffs[..n])
  {
    SeedKept(c, diffs, env, n);
    WholeSlices(diffs, n);
    InOrderPrefix(diffs, n);
    TruthfulPrefix(E, diffs, n);
    Replay.PassedGapTrustIff(E, depth, c, diffs, env, n);
  }
}
