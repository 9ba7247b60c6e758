/** What every run of the synchronisation protocol guarantees about the book. */
module SyncSafety {
  import opened Levels
  import opened Feed
  import OrderBook
  import opened Subsequences
  import opened Options
  import opened SyncProtocol
  import Truncation

  // ----- at most once, in order

  lemma {:induction false} DiscardSubseq(buf: seq<Diff>, id: int)
    ensures Subseq(Discard(buf, id), buf)
  {
    if buf == [] {
      SubseqSelf(buf);
    } else {
      DiscardSubseq(buf[..|buf| - 1], id);
      SubseqSnoc(Discard(buf[..|buf| - 1], id), buf[..|buf| - 1], buf[|buf| - 1]);
      assert buf[..|buf| - 1] + [buf[|buf| - 1]] == buf;
    }
  }

  lemma ReplaySubseq(s: State, snap: Snapshot, ds: seq<Diff>, env: Env, buf: seq<Diff>)
    requires Subseq(ds, buf)
    ensures var s' := Replay(s, snap, ds, env); Subseq(s'.applied + s'.buffer, s.applied + buf)
  {
    var s' := Replay(s, snap, ds, env);
    var n := if env.applyFailsAt.Some? && env.applyFailsAt.value < |ds| then env.applyFailsAt.value else |ds|;
    WholeSlices(ds, n);
    SubseqSlice(ds, 0, n);
    SubseqTrans(ds[..n], ds, buf);
    SubseqTail(s.applied, ds[..n], buf);
    assert s'.applied + s'.buffer == s.applied + ds[..n];
  }

  lemma TryAlignSubseq(cfg: Config, s: State, env: Env)
    ensures var s' := TryAlign(cfg, s, env); Subseq(s'.applied + s'.buffer, s.applied + s.buffer)
  {
    if s.snapshot.None? {
      SubseqSelf(s.applied + s.buffer);
    } else {
      var id := s.snapshot.value.lastUpdateId;
      var buf := Discard(s.buffer, id);
      var idx := AlignmentIndex(buf, id);
      DiscardSubseq(s.buffer, id);
      if idx != -1 {
        SubseqEnd(buf, buf[idx..], s.buffer);
        ReplaySubseq(s, s.snapshot.value, buf[idx..], env, s.buffer);
      } else {
        SubseqTail(s.applied, buf, s.buffer);
        DroppedBuffer(s.applied, s.buffer);
      }
    }
  }

  lemma DroppedBuffer(applied: seq<Diff>, buf: seq<Diff>)
    ensures Subseq(applied + [], applied + buf)
  {
    assert buf[0..0] == [];
    SubseqSlice(buf, 0, 0);
    SubseqTail(applied, [], buf);
  }

  lemma DeliverSubseq(cfg: Config, s: State, d: Diff, env: Env, delivered: seq<Diff>, s': State)
    requires Disciplined(cfg, s) && s' == HandleDiff(cfg, s, d, env)
    requires Subseq(s.applied + s.buffer, delivered)
    ensures Subseq(s'.applied + s'.buffer, delivered + [d])
  {
    SubseqSnoc(s.applied + s.buffer, delivered, d);
    assert s.applied + s.buffer + [d] == s.applied + (s.buffer + [d]);
    if s.phase == Bootstrapping {
      BufferedSubseq(cfg, s.(buffer := s.buffer + [d]), env, delivered + [d], s');
    } else {
      assert s.buffer == [] && s.buffer + [d] == [d];
      assert s.applied + [d] + [] == s.applied + [d];
    }
  }

  /** A buffered delivery is aligned, kept, or dropped with the buffer. */
  lemma BufferedSubseq(cfg: Config, s: State, env: Env, delivered: seq<Diff>, s': State)
    requires Subseq(s.applied + s.buffer, delivered)
    requires s' == TryAlign(cfg, s, env) || (s'.applied == s.applied && (s'.buffer == s.buffer || s'.buffer == []))
    ensures Subseq(s'.applied + s'.buffer, delivered)
  {
    TryAlignSubseq(cfg, s, env);
    DroppedBuffer(s.applied, s.buffer);
    SubseqSelf(s.applied + s.buffer);
    SubseqTrans(s'.applied + s'.buffer, s.applied + s.buffer, delivered);
  }

  lemma FetchSubseq(cfg: Config, s: State, result: Option<Snapshot>, shuttingDown: bool, env: Env,
                    delivered: seq<Diff>, s': State)
    requires s.fetches > 0 && s' == CompleteFetch(cfg, s, result, shuttingDown, env)
    requires Subseq(s.applied + s.buffer, delivered)
    ensures Subseq(s'.applied + s'.buffer, delivered)
  {
    BufferedSubseq(cfg, s.(pending := false, fetches := s.fetches - 1, snapshot := result), env, delivered, s');
  }

  lemma StepSubseq(cfg: Config, s: State, a: Action, delivered: seq<Diff>, s': State)
    requires Disciplined(cfg, s) && Enabled(s, a) && s' == Step(cfg, s, a)
    requires Subseq(s.applied + s.buffer, delivered)
    ensures Subseq(s'.applied + s'.buffer, if a.Deliver? then delivered + [a.diff] else delivered)
  {
    match a
    case Deliver(d, env) => DeliverSubseq(cfg, s, d, env, delivered, s');
    case Fetched(result, shuttingDown, env) => FetchSubseq(cfg, s, result, shuttingDown, env, delivered, s');
  }

  /** Over a whole run the diffs applied so far, followed by those still buffered, are a subsequence of the
      deliveries: nothing is applied twice or out of order, whatever resyncs, overflows and refused diffs occur. */
  lemma {:induction false} AppliedOnceInOrder(cfg: Config, ss: seq<State>, acts: seq<Action>)
    requires ValidConfig(cfg) && Run(cfg, ss, acts)
    ensures Subseq(ss[|acts|].applied + ss[|acts|].buffer, Delivered(acts))
    ensures Subseq(ss[|acts|].applied, Delivered(acts))
  {
    var s := ss[|acts|];
    if acts == [] {
      SubseqSelf<Diff>([]);
      assert s.applied + s.buffer == [];
    } else {
      RunPrefix(cfg, ss, acts);
      AppliedOnceInOrder(cfg, ss[..|acts|], acts[..|acts| - 1]);
      FetchDiscipline(cfg, ss[..|acts|], acts[..|acts| - 1]);
      StepSubseq(cfg, ss[|acts| - 1], acts[|acts| - 1], Delivered(acts[..|acts| - 1]), s);
    }
    DroppedBuffer(s.applied, s.buffer);
    assert s.applied + [] == s.applied;
    SubseqTrans(s.applied, s.applied + s.buffer, Delivered(acts));
  }

  ghost predicate FinalsIncrease(ds: seq<Diff>) {
    forall i, j | 0 <= i < j < |ds| :: ds[i].final < ds[j].final
  }

  /** Hence on a feed with increasing ids the applied final ids increase strictly, across epochs as well. */
  lemma AppliedIdsIncrease(cfg: Config, ss: seq<State>, acts: seq<Action>)
    requires ValidConfig(cfg) && Run(cfg, ss, acts)
    requires FinalsIncrease(Delivered(acts))
    ensures FinalsIncrease(ss[|acts|].applied)
  {
    AppliedOnceInOrder(cfg, ss, acts);
    var ds, applied := Delivered(acts), ss[|acts|].applied;
    var f: seq<nat> :| Embeds(f, applied, ds);
    forall i, j | 0 <= i < j < |applied|
      ensures applied[i].final < applied[j].final
    {
      assert f[i] < f[j] && ds[f[i]] == applied[i] && ds[f[j]] == applied[j];
    }
  }

  // ----- the epoch invariant

  lemma {:induction false} AlignmentFirst(buf: seq<Diff>, id: int, i: nat)
    requires i <= |buf|
    ensures var idx := AlignmentFrom(buf, id, i);
            && (idx != -1 ==> Aligns(buf[idx], id))
            && (forall j | i <= j < (if idx == -1 then |buf| else idx) :: !Aligns(buf[j], id))
    decreases |buf| - i
  {
    if i < |buf| {
      AlignmentFirst(buf, id, i + 1);
    }
  }

  lemma InOrderPrefix(ds: seq<Diff>, n: nat)
    requires InOrder(ds) && n <= |ds|
    ensures InOrder(ds[..n])
  {
  }

  /** On an ordered list that starts at an alignment point, the logged warning is exactly a gap. */
  lemma {:induction false} WarnsIffGap(id: int, ds: seq<Diff>)
    requires 0 <= id && InOrder(ds) && (ds != [] ==> Aligns(ds[0], id))
    ensures Warns(id, ds) <==> !Gapless(id, ds)
  {
    if ds != [] {
      var init, d := ds[..|ds| - 1], ds[|ds| - 1];
      SplitLast(ds);
      InOrderPrefix(ds, |ds| - 1);
      WarnsIffGap(id, init);
      WarnsStep(id, init, d);
    }
  }

  lemma WarnsStep(id: int, init: seq<Diff>, d: Diff)
    requires 0 <= id && InOrder(init + [d]) && Aligns((init + [d])[0], id)
    requires Warns(id, init) <==> !Gapless(id, init)
    ensures Warns(id, init + [d]) <==> !Gapless(id, init + [d])
  {
    WarnsSnoc(id, init, d);
    GaplessSnoc(id, init, d);
    SkipAfter(id, init, d);
  }

  /** One more diff skips an id exactly if the log line is due, and never goes back. */
  lemma SkipAfter(id: int, init: seq<Diff>, d: Diff)
    requires 0 <= id && InOrder(init + [d]) && Aligns((init + [d])[0], id)
    ensures init != [] ==> id < FinalId(id, init) <= d.final
    ensures d.first <= FinalId(id, init) + 1 <==> !(FinalId(id, init) != 0 && d.first > FinalId(id, init) + 1)
  {
    if init == [] {
      assert (init + [d])[0] == d;
    } else {
      PastSnapshot(id, init, d);
    }
  }

  lemma PastSnapshot(id: int, init: seq<Diff>, d: Diff)
    requires init != [] && InOrder(init + [d]) && Aligns((init + [d])[0], id)
    ensures id < FinalId(id, init) <= d.final
  {
    var ds := init + [d];
    assert ds[0] == init[0] && ds[|init| - 1] == init[|init| - 1] && ds[|init|] == d;
    assert |init| == 1 || ds[0].final <= ds[|init| - 1].final;
  }

  lemma GaplessSnoc(id: int, ds: seq<Diff>, d: Diff)
    ensures Gapless(id, ds + [d])
       <==> Gapless(id, ds) && d.first <= FinalId(id, ds) + 1 && (ds != [] ==> FinalId(id, ds) <= d.final)
  {
    if Gapless(id, ds + [d]) {
      GaplessShorter(id, ds, d);
    }
    if Gapless(id, ds) && d.first <= FinalId(id, ds) + 1 && (ds != [] ==> FinalId(id, ds) <= d.final) {
      GaplessLonger(id, ds, d);
    }
  }

  lemma GaplessShorter(id: int, ds: seq<Diff>, d: Diff)
    requires Gapless(id, ds + [d])
    ensures Gapless(id, ds) && d.first <= FinalId(id, ds) + 1 && (ds != [] ==> FinalId(id, ds) <= d.final)
  {
    var es, n := ds + [d], |ds|;
    assert es[..n] == ds;
    GaplessPrefix(id, es, n);
    assert es[n].first <= IdBefore(id, es, n) + 1;
    assert n > 0 ==> es[n - 1].final <= es[n].final;
  }

  lemma GaplessLonger(id: int, ds: seq<Diff>, d: Diff)
    requires Gapless(id, ds) && d.first <= FinalId(id, ds) + 1 && (ds != [] ==> FinalId(id, ds) <= d.final)
    ensures Gapless(id, ds + [d])
  {
    var es := ds + [d];
    forall i | 0 <= i < |es|
      ensures es[i].first <= IdBefore(id, es, i) + 1
      ensures i > 0 ==> es[i - 1].final <= es[i].final
    {
      assert i < |ds| ==> ds[i].first <= IdBefore(id, ds, i) + 1;
      assert 0 < i < |ds| ==> ds[i - 1].final <= ds[i].final;
    }
  }

  /** The last diffs applied are those of the epoch, they produce the book and its id, and those received while
      synced are contiguous. */
  ghost predicate EpochTracked(s: State) {
    && 0 < s.epoch.replayed <= |s.epoch.since|
    && EndsWith(s.applied, s.epoch.since)
    && s.book == ApplyAll(LoadDepth(s.epoch.base), s.epoch.since)
    && s.last == s.bookId == s.epoch.since[|s.epoch.since| - 1].final
    && (forall i | s.epoch.replayed <= i < |s.epoch.since| :: s.epoch.since[i].first == s.epoch.since[i - 1].final + 1)
  }

  lemma ReplayTracked(s: State, snap: Snapshot, ds: seq<Diff>, env: Env)
    requires ds != []
    ensures var s' := Replay(s, snap, ds, env); s'.phase == Synced ==> EpochTracked(s')
  {
  }

  lemma AlignedTracked(cfg: Config, s: State, env: Env, s': State)
    requires s.phase == Bootstrapping && s' == TryAlign(cfg, s, env) && s'.phase == Synced
    ensures EpochTracked(s')
  {
    var buf := Discard(s.buffer, s.snapshot.value.lastUpdateId);
    var idx := AlignmentIndex(buf, s.snapshot.value.lastUpdateId);
    ReplayTracked(s, s.snapshot.value, buf[idx..], env);
  }

  lemma AdvancedTracked(s: State, d: Diff)
    requires EpochTracked(s) && d.first == s.last + 1
    ensures EpochTracked(Advanced(s, d))
  {
    EndsWithSnoc(s.applied, s.epoch.since, d);
    ApplyAllSnoc(LoadDepth(s.epoch.base), s.epoch.since, d);
  }

  lemma CheckpointedTracked(cfg: Config, s: State, env: Env)
    requires EpochTracked(s)
    ensures EpochTracked(Checkpointed(cfg, s, env))
  {
  }

  lemma SyncedTracked(cfg: Config, s: State, d: Diff, env: Env, s': State)
    requires s.phase == Synced && EpochTracked(s) && s' == HandleSynced(cfg, s, d, env) && s'.phase == Synced
    ensures EpochTracked(s')
  {
    AdvancedTracked(s, d);
    CheckpointedTracked(cfg, Advanced(s, d), env);
  }

  lemma DeliverTracked(cfg: Config, s: State, d: Diff, env: Env, s': State)
    requires Disciplined(cfg, s) && s' == HandleDiff(cfg, s, d, env) && s'.phase == Synced
    requires s.phase == Synced ==> EpochTracked(s)
    ensures EpochTracked(s')
  {
    if s.phase == Synced {
      SyncedTracked(cfg, s, d, env, s');
    } else {
      AlignedTracked(cfg, s.(buffer := s.buffer + [d]), env, s');
    }
  }

  lemma FetchTracked(cfg: Config, s: State, result: Option<Snapshot>, shuttingDown: bool, env: Env, s': State)
    requires Disciplined(cfg, s) && s.fetches > 0
    requires s' == CompleteFetch(cfg, s, result, shuttingDown, env) && s'.phase == Synced
    ensures EpochTracked(s')
  {
    AlignedTracked(cfg, s.(pending := false, fetches := s.fetches - 1, snapshot := result), env, s');
  }

  lemma StepTracked(cfg: Config, s: State, a: Action, s': State)
    requires Disciplined(cfg, s) && Enabled(s, a) && s' == Step(cfg, s, a) && s'.phase == Synced
    requires s.phase == Synced ==> EpochTracked(s)
    ensures EpochTracked(s')
  {
    match a
    case Deliver(d, env) => DeliverTracked(cfg, s, d, env, s');
    case Fetched(result, shuttingDown, env) => FetchTracked(cfg, s, result, shuttingDown, env, s');
  }

  /** In every run, whatever the feed. */
  lemma {:induction false} TrackedInvariant(cfg: Config, ss: seq<State>, acts: seq<Action>)
    requires ValidConfig(cfg) && Run(cfg, ss, acts)
    ensures ss[|acts|].phase == Synced ==> EpochTracked(ss[|acts|])
  {
    if acts != [] {
      RunPrefix(cfg, ss, acts);
      TrackedInvariant(cfg, ss[..|acts|], acts[..|acts| - 1]);
      FetchDiscipline(cfg, ss[..|acts|], acts[..|acts| - 1]);
      if ss[|acts|].phase == Synced {
        StepTracked(cfg, ss[|acts| - 1], acts[|acts| - 1], ss[|acts|]);
      }
    }
  }

  /** In every run, on whatever feed, the diffs applied from entering the synced phase until the next resync are
      contiguous. */
  lemma SyncedContiguous(cfg: Config, ss: seq<State>, acts: seq<Action>)
    requires ValidConfig(cfg) && Run(cfg, ss, acts)
    requires ss[|acts|].phase == Synced
    ensures var s := ss[|acts|]; var n := |s.applied| - (|s.epoch.since| - s.epoch.replayed);
            0 < n <= |s.applied| && forall i | n <= i < |s.applied| :: s.applied[i].first == s.applied[i - 1].final + 1
  {
    TrackedInvariant(cfg, ss, acts);
    var s := ss[|acts|];
    var since := s.epoch.since;
    var k := |s.applied| - |since|;
    forall i | k + s.epoch.replayed <= i < |s.applied|
      ensures s.applied[i].first == s.applied[i - 1].final + 1
    {
      assert since[i - k] == s.applied[i] && since[i - 1 - k] == s.applied[i - 1];
    }
  }

  /** `later` continues the epoch of `earlier`. */
  ghost predicate SameEpoch(earlier: Epoch, later: Epoch) {
    earlier.base == later.base && earlier.replayed == later.replayed && earlier.since <= later.since
  }

  lemma SyncedStep(cfg: Config, s: State, a: Action)
    requires Disciplined(cfg, s) && Enabled(s, a)
    requires s.phase == Synced == Step(cfg, s, a).phase
    ensures SameEpoch(s.epoch, Step(cfg, s, a).epoch)
  {
  }

  /** A handler that stays synced stays in its epoch. */
  lemma {:induction false} SyncedStretch(cfg: Config, ss: seq<State>, acts: seq<Action>, k: nat)
    requires ValidConfig(cfg) && Run(cfg, ss, acts)
    requires k <= |acts| && forall i | k <= i <= |acts| :: ss[i].phase == Synced
    ensures SameEpoch(ss[k].epoch, ss[|acts|].epoch)
  {
    if k < |acts| {
      RunPrefix(cfg, ss, acts);
      assert ss[|acts| - 1].phase == ss[|acts|].phase == Synced;
      SyncedStretch(cfg, ss[..|acts|], acts[..|acts| - 1], k);
      FetchDiscipline(cfg, ss[..|acts|], acts[..|acts| - 1]);
      SyncedStep(cfg, ss[|acts| - 1], acts[|acts| - 1]);
    }
  }

  // ----- what holds on an honest feed

  /** The epoch's diffs reach past the snapshot it started from, and it is warned about exactly when they have a gap. */
  ghost predicate SoundEpoch(e: Epoch) {
    && e.since != [] && 0 <= e.base.lastUpdateId && Aligns(e.since[0], e.base.lastUpdateId)
    && (e.warned <==> !Gapless(e.base.lastUpdateId, e.since))
  }

  ghost predicate EpochHolds(s: State) {
    SoundEpoch(s.epoch) && EpochTracked(s)
  }

  ghost predicate HonestSnapshots(E: Timeline, depth: int, s: State) {
    && (s.snapshot.Some? ==> TruthfulSnapshot(E, s.snapshot.value, depth))
    && (s.phase == Synced ==> TruthfulSnapshot(E, s.epoch.base, depth))
  }

  ghost predicate HonestAction(E: Timeline, depth: int, a: Action) {
    match a
    case Deliver(d, _) => TruthfulDiff(E, d)
    case Fetched(result, _, _) => result.Some? ==> TruthfulSnapshot(E, result.value, depth)
  }

  /** The environment reports the exchange `E` truthfully and delivers diffs in order, with or without gaps. */
  ghost predicate HonestRun(E: Timeline, cfg: Config, acts: seq<Action>) {
    && Proper(E)
    && (forall i | 0 <= i < |acts| :: HonestAction(E, cfg.depthLimit, acts[i]))
    && InOrder(Delivered(acts))
  }

  lemma SubseqInOrder(a: seq<Diff>, b: seq<Diff>)
    requires Subseq(a, b) && InOrder(b)
    ensures InOrder(a)
  {
    var f: seq<nat> :| Embeds(f, a, b);
  }

  lemma SubseqTruthful(E: Timeline, a: seq<Diff>, b: seq<Diff>)
    requires Subseq(a, b) && TruthfulDiffs(E, b)
    ensures TruthfulDiffs(E, a)
  {
    var f: seq<nat> :| Embeds(f, a, b);
  }

  lemma {:induction false} DeliveredTruthful(E: Timeline, cfg: Config, acts: seq<Action>)
    requires forall i | 0 <= i < |acts| :: HonestAction(E, cfg.depthLimit, acts[i])
    ensures TruthfulDiffs(E, Delivered(acts))
  {
    if acts != [] {
      DeliveredTruthful(E, cfg, acts[..|acts| - 1]);
      assert HonestAction(E, cfg.depthLimit, acts[|acts| - 1]);
    }
  }

  lemma ReplayEpoch(s: State, snap: Snapshot, ds: seq<Diff>, env: Env)
    requires 0 <= snap.lastUpdateId && InOrder(ds)
    requires ds != [] && Aligns(ds[0], snap.lastUpdateId)
    ensures var s' := Replay(s, snap, ds, env);
            s'.phase == Synced ==> SoundEpoch(s'.epoch) && s'.epoch.base == snap
  {
    WarnsIffGap(snap.lastUpdateId, ds);
  }

  /** The diffs that a successful alignment replays. */
  lemma AlignedDiffs(buffer: seq<Diff>, id: int)
    requires InOrder(buffer)
    ensures var buf := Discard(buffer, id);
            var idx := AlignmentIndex(buf, id);
            idx != -1 ==> InOrder(buf[idx..]) && Aligns(buf[idx..][0], id)
  {
    var buf := Discard(buffer, id);
    var idx := AlignmentIndex(buf, id);
    if idx != -1 {
      DiscardSubseq(buffer, id);
      AlignmentFirst(buf, id, 0);
      SubseqEnd(buf, buf[idx..], buffer);
      SubseqInOrder(buf[idx..], buffer);
    }
  }

  lemma TryAlignEpoch(cfg: Config, s: State, env: Env)
    requires s.phase == Bootstrapping && InOrder(s.buffer)
    requires s.snapshot.Some? ==> 0 <= s.snapshot.value.lastUpdateId
    ensures var s' := TryAlign(cfg, s, env);
            && (s'.phase == Synced ==> SoundEpoch(s'.epoch) && s.snapshot == Some(s'.epoch.base))
            && (s'.snapshot.Some? ==> s'.snapshot == s.snapshot)
  {
    if s.snapshot.Some? {
      var snap := s.snapshot.value;
      var buf := Discard(s.buffer, snap.lastUpdateId);
      var idx := AlignmentIndex(buf, snap.lastUpdateId);
      AlignedDiffs(s.buffer, snap.lastUpdateId);
      if idx != -1 {
        ReplayEpoch(s, snap, buf[idx..], env);
      }
    }
  }

  lemma SoundSnoc(e: Epoch, d: Diff)
    requires SoundEpoch(e)
    requires d.first == FinalId(e.base.lastUpdateId, e.since) + 1 && d.first <= d.final
    ensures SoundEpoch(e.(since := e.since + [d]))
  {
    GaplessSnoc(e.base.lastUpdateId, e.since, d);
    assert (e.since + [d])[0] == e.since[0];
  }

  lemma SyncedEpoch(cfg: Config, s: State, d: Diff, env: Env)
    requires s.phase == Synced && EpochHolds(s) && d.first <= d.final
    ensures var s' := HandleSynced(cfg, s, d, env);
            s'.phase == Synced ==> SoundEpoch(s'.epoch) && s'.epoch.base == s.epoch.base
  {
    if d.first == s.last + 1 {
      SoundSnoc(s.epoch, d);
    }
  }

  lemma DeliverEpoch(E: Timeline, cfg: Config, s: State, d: Diff, env: Env)
    requires Disciplined(cfg, s) && TruthfulDiff(E, d) && HonestSnapshots(E, cfg.depthLimit, s)
    requires s.phase == Synced ==> EpochHolds(s)
    requires InOrder(s.buffer + [d])
    ensures var s' := HandleDiff(cfg, s, d, env);
            (s'.phase == Synced ==> SoundEpoch(s'.epoch)) && HonestSnapshots(E, cfg.depthLimit, s')
  {
    if s.phase == Synced {
      SyncedEpoch(cfg, s, d, env);
    } else if s.phase == Bootstrapping {
      TryAlignEpoch(cfg, s.(buffer := s.buffer + [d]), env);
    }
  }

  lemma FetchEpoch(E: Timeline, cfg: Config, s: State, result: Option<Snapshot>, shuttingDown: bool, env: Env)
    requires Disciplined(cfg, s) && s.fetches > 0 && HonestSnapshots(E, cfg.depthLimit, s)
    requires result.Some? ==> TruthfulSnapshot(E, result.value, cfg.depthLimit)
    requires InOrder(s.buffer)
    ensures var s' := CompleteFetch(cfg, s, result, shuttingDown, env);
            (s'.phase == Synced ==> SoundEpoch(s'.epoch)) && HonestSnapshots(E, cfg.depthLimit, s')
  {
    TryAlignEpoch(cfg, s.(pending := false, fetches := s.fetches - 1, snapshot := result), env);
  }

  lemma StepEpoch(E: Timeline, cfg: Config, s: State, a: Action)
    requires Disciplined(cfg, s) && Enabled(s, a)
    requires HonestAction(E, cfg.depthLimit, a) && HonestSnapshots(E, cfg.depthLimit, s)
    requires s.phase == Synced ==> EpochHolds(s)
    requires InOrder(if a.Deliver? then s.buffer + [a.diff] else s.buffer)
    ensures var s' := Step(cfg, s, a);
            (s'.phase == Synced ==> SoundEpoch(s'.epoch)) && HonestSnapshots(E, cfg.depthLimit, s')
  {
    match a
    case Deliver(d, env) => DeliverEpoch(E, cfg, s, d, env);
    case Fetched(result, shuttingDown, env) => FetchEpoch(E, cfg, s, result, shuttingDown, env);
  }

  lemma BufferWithDelivery(cfg: Config, s: State, a: Action, delivered: seq<Diff>)
    requires Subseq(s.applied + s.buffer, delivered)
    requires InOrder(if a.Deliver? then delivered + [a.diff] else delivered)
    ensures InOrder(if a.Deliver? then s.buffer + [a.diff] else s.buffer)
  {
    SubseqEnd(s.applied + s.buffer, s.buffer, delivered);
    if a.Deliver? {
      SubseqSnoc(s.buffer, delivered, a.diff);
      SubseqInOrder(s.buffer + [a.diff], delivered + [a.diff]);
    } else {
      SubseqInOrder(s.buffer, delivered);
    }
  }

  lemma {:induction false} EpochInvariant(E: Timeline, cfg: Config, ss: seq<State>, acts: seq<Action>)
    requires ValidConfig(cfg) && Run(cfg, ss, acts) && HonestRun(E, cfg, acts)
    ensures HonestSnapshots(E, cfg.depthLimit, ss[|acts|])
    ensures ss[|acts|].phase == Synced ==> EpochHolds(ss[|acts|])
  {
    TrackedInvariant(cfg, ss, acts);
    if acts != [] {
      var init, a := acts[..|acts| - 1], acts[|acts| - 1];
      RunPrefix(cfg, ss, acts);
      assert a.Deliver? ==> Delivered(acts)[..|Delivered(init)|] == Delivered(init);
      assert InOrder(Delivered(init));
      EpochInvariant(E, cfg, ss[..|acts|], init);
      FetchDiscipline(cfg, ss[..|acts|], init);
      AppliedOnceInOrder(cfg, ss[..|acts|], init);
      BufferWithDelivery(cfg, ss[|acts| - 1], a, Delivered(init));
      StepEpoch(E, cfg, ss[|acts| - 1], a);
    }
  }

  /** An exchange on which somebody bids at id 3, and two diffs between which ids 3 and 4 were lost. */
  ghost function BidAtThree(): Timeline {
    k => if k < 3 then EMPTY else Depth(map[100.0 := 1.0], map[])
  }

  /** Two diffs with a gap between them, and then a snapshot older than both. */
  function LossySchedule(): seq<Action> {
    var env := Env(None, false, false);
    [Deliver(Diff(0, 1, 2, [], []), env), Deliver(Diff(1, 5, 6, [], []), env),
     Fetched(Some(Snapshot(1, [], [])), false, env)]
  }

  lemma LossyDelivered()
    ensures Delivered(LossySchedule()) == [Diff(0, 1, 2, [], []), Diff(1, 5, 6, [], [])]
  {
    var acts := LossySchedule();
    assert acts[..2][..1][..0] == [] && acts[..2][..1] == [acts[0]] && acts[..2] == [acts[0], acts[1]];
    assert Delivered(acts[..2][..1]) == [acts[0].diff];
  }

  lemma LossyHonest(cfg: Config)
    ensures HonestRun(BidAtThree(), cfg, LossySchedule())
  {
    LossyDelivered();
    assert forall s: BookSide :: TopLevels(s, EMPTY.Side(s), cfg.depthLimit) == [];
  }

  /** The warning does occur, and the book is then wrong: the schedule is honest, and ends synced, warned and
      without the exchange's bid. */
  lemma WarnedBookIsWrong(cfg: Config) returns (ss: seq<State>)
    requires ValidConfig(cfg) && cfg.maxBufferSize > 1
    ensures Run(cfg, ss, LossySchedule()) && HonestRun(BidAtThree(), cfg, LossySchedule())
    ensures var s := ss[|LossySchedule()|];
            s.phase == Synced && s.epoch.warned && s.book != BidAtThree()(s.last)
  {
    var acts := LossySchedule();
    var s1 := HandleDiff(cfg, INIT, acts[0].diff, acts[0].env);
    var s2 := HandleDiff(cfg, s1, acts[1].diff, acts[1].env);
    ss := [INIT, s1, s2, CompleteFetch(cfg, s2, acts[2].result, false, acts[2].env)];
    assert s2.buffer == [acts[0].diff, acts[1].diff] && s2.fetches == 1 && !s2.stale;
    LostBid(cfg, s2, acts[0].diff, acts[1].diff, acts[2].env);
    LossyHonest(cfg);
    forall i | 0 <= i < |acts|
      ensures Enabled(ss[i], acts[i]) && ss[i + 1] == Step(cfg, ss[i], acts[i])
    {
      assert i == 0 || i == 1 || i == 2;
    }
    assert 100.0 in BidAtThree()(6).bids;
  }

  lemma LostBid(cfg: Config, s: State, d1: Diff, d2: Diff, env: Env)
    requires d1 == Diff(0, 1, 2, [], []) && d2 == Diff(1, 5, 6, [], [])
    requires s.buffer == [d1, d2] && !s.stale && s.fetches > 0 && env.applyFailsAt == None
    ensures var s' := CompleteFetch(cfg, s, Some(Snapshot(1, [], [])), false, env);
            s'.phase == Synced && s'.epoch.warned && s'.book == EMPTY && s'.last == 6
  {
    var buf := s.buffer;
    assert buf[..1] == [d1] && buf[..1][..0] == [] && buf[0..] == buf;
    assert Discard(buf[..1], 1) == [d1] && Discard(buf, 1) == [d1, d2];
    assert AlignmentIndex(buf, 1) == 0;
    ReplaySnoc(Snapshot(1, [], []), [d1], d2);
    ReplaySnoc(Snapshot(1, [], []), [], d1);
    assert [d1] + [d2] == buf && [] + [d1] == [d1];
    assert ApplyAll(EMPTY, [d1]) == ApplyDiff(EMPTY, d1);
  }

  // ----- main theorems

  /** The history `E'` explains the snapshot and the diffs that made the current book. */
  ghost predicate ExplainsBook(E': Timeline, cfg: Config, s: State) {
    Explains(E', s.epoch.base, cfg.depthLimit, s.epoch.since)
  }

  ghost predicate BookExact(E': Timeline, cfg: Config, s: State) {
    ExactOnWindow(E', s.book, s.last, s.epoch.base, cfg.depthLimit, s.epoch.since)
  }

  /** The epoch's diffs were delivered, in this order. */
  lemma SinceDelivered(cfg: Config, ss: seq<State>, acts: seq<Action>)
    requires ValidConfig(cfg) && Run(cfg, ss, acts) && ss[|acts|].phase == Synced
    ensures Subseq(ss[|acts|].epoch.since, Delivered(acts))
  {
    TrackedInvariant(cfg, ss, acts);
    AppliedOnceInOrder(cfg, ss, acts);
    SubseqEnd(ss[|acts|].applied, ss[|acts|].epoch.since, Delivered(acts));
  }

  lemma EpochExplained(E: Timeline, cfg: Config, ss: seq<State>, acts: seq<Action>)
    requires ValidConfig(cfg) && Run(cfg, ss, acts) && HonestRun(E, cfg, acts)
    requires ss[|acts|].phase == Synced
    ensures EpochHolds(ss[|acts|]) && ExplainsBook(E, cfg, ss[|acts|]) && InOrder(ss[|acts|].epoch.since)
  {
    EpochInvariant(E, cfg, ss, acts);
    SinceDelivered(cfg, ss, acts);
    DeliveredTruthful(E, cfg, acts);
    SubseqTruthful(E, ss[|acts|].epoch.since, Delivered(acts));
    SubseqInOrder(ss[|acts|].epoch.since, Delivered(acts));
  }

  /** Sync safety.  In every interleaving of truthful diffs and truthful depth-limited snapshots, including
      stale, failed and repeated fetches, refused diffs and any gaps while synced: whenever the handler is
      synced and its bootstrap logged no sequence gap, the book carries the id it claims, agrees with the
      exchange at that id on the whole window, and is the exchange's book if the snapshot was not cut. */
  lemma SyncSafe(E: Timeline, cfg: Config, ss: seq<State>, acts: seq<Action>)
    requires ValidConfig(cfg) && Run(cfg, ss, acts) && HonestRun(E, cfg, acts)
    requires ss[|acts|].phase == Synced && !ss[|acts|].epoch.warned
    ensures var s := ss[|acts|];
            && s.bookId == s.last && ProperDepth(s.book)
            && BookExact(E, cfg, s)
            && ((Uncut(s.epoch.base, Bid, cfg.depthLimit) && Uncut(s.epoch.base, Ask, cfg.depthLimit))
                ==> s.book == E(s.last))
  {
    var s := ss[|acts|];
    var base, since := s.epoch.base, s.epoch.since;
    EpochExplained(E, cfg, ss, acts);
    assert since[0].final <= since[|since| - 1].final;
    WindowExact(E, base, cfg.depthLimit, since);
    LoadProper(base);
    ApplyAllProper(LoadDepth(base), since);
    if Uncut(base, Bid, cfg.depthLimit) && Uncut(base, Ask, cfg.depthLimit) {
      CompleteExact(E, s.book, s.last, base, cfg.depthLimit, since);
    }
  }

  /** With a truncated snapshot: no level of the book is a phantom, and what `Snapshot(d)` publishes of a side
      is what the exchange would publish, as long as `d` covered levels remain on it. */
  lemma PublishedExact(E: Timeline, cfg: Config, ss: seq<State>, acts: seq<Action>, side: BookSide, d: nat)
    requires ValidConfig(cfg) && Run(cfg, ss, acts) && HonestRun(E, cfg, acts)
    requires ss[|acts|].phase == Synced && !ss[|acts|].epoch.warned
    ensures var s := ss[|acts|];
            && (forall p | p in s.book.Side(side) :: QtyAt(s.book.Side(side), p) == At(E, s.last, side, p))
            && (0 < d <= CoveredLevels(s.book, s.epoch.base, cfg.depthLimit, side)
                ==> ListsExchange(E, s, side, d))
  {
    var s := ss[|acts|];
    SyncSafe(E, cfg, ss, acts);
    NoPhantoms(E, s.book, s.last, s.epoch.base, cfg.depthLimit, s.epoch.since);
    if 0 < d <= CoveredLevels(s.book, s.epoch.base, cfg.depthLimit, side) {
      TopExact(E, s.book, s.last, s.epoch.base, cfg.depthLimit, s.epoch.since, side, d);
    }
  }

  /** Exactly how deep may a side be published?  As long as no gap was logged, the levels that `Snapshot(d)` lists are
      those of every history that explains the snapshot and diffs if and only if the side was loaded whole or
      the book still holds `d` of the levels that were loaded; `d` is not positive for the whole side. */
  lemma PublishedTrustIff(E: Timeline, cfg: Config, ss: seq<State>, acts: seq<Action>, side: BookSide, d: int)
    requires ValidConfig(cfg) && Run(cfg, ss, acts) && HonestRun(E, cfg, acts)
    requires ss[|acts|].phase == Synced && !ss[|acts|].epoch.warned
    ensures DeepFor(cfg, ss[|acts|], side, d)
       <==> forall E': Timeline | ExplainsBook(E', cfg, ss[|acts|]) :: ListsExchange(E', ss[|acts|], side, d)
  {
    var s := ss[|acts|];
    EpochExplained(E, cfg, ss, acts);
    TopTrust(E, cfg, s, side, d);
  }

  /** The side was loaded whole, or at least `d` of the levels loaded are still there. */
  ghost predicate DeepFor(cfg: Config, s: State, side: BookSide, d: int) {
    || Uncut(s.epoch.base, side, cfg.depthLimit)
    || 0 < d <= CoveredLevels(s.book, s.epoch.base, cfg.depthLimit, side)
  }

  /** What the book publishes of a side is what the exchange would publish. */
  ghost predicate ListsExchange(E: Timeline, s: State, side: BookSide, d: int) {
    SnapSide(OrderBook.SnapshotOf(s.book, s.bookId, d), side) == TopLevels(side, E(s.last).Side(side), d)
  }

  lemma TopTrust(E: Timeline, cfg: Config, s: State, side: BookSide, d: int)
    requires EpochHolds(s) && !s.epoch.warned && InOrder(s.epoch.since) && ExplainsBook(E, cfg, s)
    ensures DeepFor(cfg, s, side, d)
       <==> forall E': Timeline | ExplainsBook(E', cfg, s) :: ListsExchange(E', s, side, d)
  {
    var base, since := s.epoch.base, s.epoch.since;
    assert since[0].final <= since[|since| - 1].final;
    Truncation.TopTrustIff(E, base, cfg.depthLimit, since, side, d);
    assert forall E': Timeline :: ExplainsBook(E', cfg, s) <==> Explains(E', base, cfg.depthLimit, since);
    forall E': Timeline
      ensures ListsExchange(E', s, side, d)
         <==> TopLevels(side, s.book.Side(side), d) == TopLevels(side, E'(s.last).Side(side), d)
    {
    }
  }

  /** The bootstrap goes on to the synced phase after a gap in the buffer and only logs a warning.  That
      warning is exactly the test for a trustworthy book: a synced book is right under every history that
      explains the snapshot and diffs it was made from if and only if no gap was logged. */
  lemma TrustIffNotWarned(E: Timeline, cfg: Config, ss: seq<State>, acts: seq<Action>)
    requires ValidConfig(cfg) && Run(cfg, ss, acts) && HonestRun(E, cfg, acts)
    requires ss[|acts|].phase == Synced
    ensures !ss[|acts|].epoch.warned
       <==> forall E': Timeline | ExplainsBook(E', cfg, ss[|acts|]) :: BookExact(E', cfg, ss[|acts|])
  {
    EpochExplained(E, cfg, ss, acts);
    TrustedEpoch(E, cfg, ss[|acts|]);
  }

  lemma TrustedEpoch(E: Timeline, cfg: Config, s: State)
    requires EpochHolds(s) && InOrder(s.epoch.since)
    requires ExplainsBook(E, cfg, s)
    ensures !s.epoch.warned <==> forall E': Timeline | ExplainsBook(E', cfg, s) :: BookExact(E', cfg, s)
  {
    var base, since := s.epoch.base, s.epoch.since;
    GaplessIff(E, base, cfg.depthLimit, since);
    assert forall E': Timeline :: ExplainsBook(E', cfg, s) <==> Explains(E', base, cfg.depthLimit, since);
    var book, id := ApplyAll(LoadDepth(base), since), FinalId(base.lastUpdateId, since);
    assert forall E': Timeline :: BookExact(E', cfg, s) <==> ExactOnWindow(E', book, id, base, cfg.depthLimit, since);
  }

  // ----- checkpoints

  /** Each side was loaded whole or still holds as many covered levels as a checkpoint lists. */
  ghost predicate DeepEnough(cfg: Config, s: State) {
    forall side: BookSide :: DeepFor(cfg, s, side, cfg.depthLimit)
  }

  /** A checkpoint is written only from a synced book, at the book's id. */
  lemma CheckpointWritten(cfg: Config, ss: seq<State>, acts: seq<Action>)
    requires ValidConfig(cfg) && Run(cfg, ss, acts) && acts != []
    requires ss[|acts|].checkpoints != ss[|acts| - 1].checkpoints
    ensures ss[|acts|].phase == Synced
    ensures ss[|acts|].checkpoints == ss[|acts| - 1].checkpoints + [CheckpointOf(cfg, ss[|acts|])]
  {
    RunPrefix(cfg, ss, acts);
    FetchDiscipline(cfg, ss[..|acts|], acts[..|acts| - 1]);
    CheckpointStep(cfg, ss[|acts| - 1], acts[|acts| - 1]);
  }

  /** The prices at which a checkpoint `c` of this state's book is certain. */
  ghost predicate Certain(cfg: Config, s: State, c: Snapshot, side: BookSide, p: Price) {
    Truncation.Known(s.epoch.base, cfg.depthLimit, s.epoch.since, c, side, p)
  }

  /** What a checkpoint is worth.  If the epoch logged no gap, every level it lists is a level of the exchange with
      the same quantity, and on the prices that both the book's window and the checkpoint cover it says what
      the exchange says, however few of the loaded levels are left; if each side was loaded whole or is still
      deep enough, it is a truthful snapshot of the exchange. */
  lemma CheckpointTruthful(E: Timeline, cfg: Config, ss: seq<State>, acts: seq<Action>)
    requires ValidConfig(cfg) && Run(cfg, ss, acts) && HonestRun(E, cfg, acts) && acts != []
    requires ss[|acts|].checkpoints != ss[|acts| - 1].checkpoints
    ensures var s, c := ss[|acts|], CheckpointOf(cfg, ss[|acts|]);
            && s.phase == Synced
            && s.checkpoints == ss[|acts| - 1].checkpoints + [c]
            && (!s.epoch.warned ==> forall side: BookSide, p | p in LoadDepth(c).Side(side) ::
                  p in E(s.last).Side(side) && LoadDepth(c).Side(side)[p] == E(s.last).Side(side)[p])
            && (!s.epoch.warned ==> forall side: BookSide, p | Certain(cfg, s, c, side, p) ::
                  QtyAt(LoadDepth(c).Side(side), p) == At(E, s.last, side, p))
            && (!s.epoch.warned && DeepEnough(cfg, s) ==> TruthfulSnapshot(E, c, cfg.depthLimit))
  {
    var s := ss[|acts|];
    CheckpointWritten(cfg, ss, acts);
    if !s.epoch.warned {
      SyncSafe(E, cfg, ss, acts);
      CheckpointCertain(E, cfg, s);
      EpochExplained(E, cfg, ss, acts);
      CheckpointTrustIff(E, cfg, ss, acts);
    }
  }

  lemma CheckpointCertain(E: Timeline, cfg: Config, s: State)
    requires BookExact(E, cfg, s) && s.bookId == s.last
    ensures var c := CheckpointOf(cfg, s);
            && (forall side: BookSide, p | p in LoadDepth(c).Side(side) ::
                  p in E(s.last).Side(side) && LoadDepth(c).Side(side)[p] == E(s.last).Side(side)[p])
            && (forall side: BookSide, p | Certain(cfg, s, c, side, p) ::
                  QtyAt(LoadDepth(c).Side(side), p) == At(E, s.last, side, p))
  {
    var c := CheckpointOf(cfg, s);
    LoadProper(c);
    forall side: BookSide, p
      ensures Certain(cfg, s, c, side, p) ==> QtyAt(LoadDepth(c).Side(side), p) == At(E, s.last, side, p)
      ensures p in LoadDepth(c).Side(side) ==>
                p in E(s.last).Side(side) && LoadDepth(c).Side(side)[p] == E(s.last).Side(side)[p]
    {
      Truncation.CheckpointKnown(E, s.book, s.last, s.epoch.base, cfg.depthLimit, s.epoch.since, side, p);
    }
  }

  /** When is a checkpoint a truthful snapshot of the exchange?  Under every history that explains the snapshot and
      diffs behind it if and only if the epoch logged no gap and each side was loaded whole or still holds as
      many covered levels as the checkpoint lists. */
  lemma CheckpointTrustIff(E: Timeline, cfg: Config, ss: seq<State>, acts: seq<Action>)
    requires ValidConfig(cfg) && Run(cfg, ss, acts) && HonestRun(E, cfg, acts)
    requires ss[|acts|].phase == Synced
    ensures var s := ss[|acts|];
            (!s.epoch.warned && DeepEnough(cfg, s) <==>
              forall E': Timeline | ExplainsBook(E', cfg, s) ::
                TruthfulSnapshot(E', CheckpointOf(cfg, s), cfg.depthLimit))
  {
    var s := ss[|acts|];
    EpochExplained(E, cfg, ss, acts);
    FinalBeyondBase(s);
    if s.epoch.warned {
      var E' := WarnedCheckpoint(E, cfg, s);
    } else {
      TopTrust(E, cfg, s, Bid, cfg.depthLimit);
      TopTrust(E, cfg, s, Ask, cfg.depthLimit);
      forall E': Timeline
        ensures TruthfulSnapshot(E', CheckpointOf(cfg, s), cfg.depthLimit)
           <==> ListsExchange(E', s, Bid, cfg.depthLimit) && ListsExchange(E', s, Ask, cfg.depthLimit)
      {
        TruthfulIsListed(E', cfg, s);
      }
    }
  }

  lemma TruthfulIsListed(E: Timeline, cfg: Config, s: State)
    requires 0 <= s.last == s.bookId
    ensures TruthfulSnapshot(E, CheckpointOf(cfg, s), cfg.depthLimit)
       <==> ListsExchange(E, s, Bid, cfg.depthLimit) && ListsExchange(E, s, Ask, cfg.depthLimit)
  {
    forall side: BookSide
      ensures ListsExchange(E, s, side, cfg.depthLimit)
         <==> SnapSide(CheckpointOf(cfg, s), side) == TopLevels(side, E(s.last).Side(side), cfg.depthLimit)
    {
    }
  }

  /** After a gap the best bid itself may be unknown. */
  lemma WarnedCheckpoint(E: Timeline, cfg: Config, s: State) returns (E': Timeline)
    requires EpochHolds(s) && s.epoch.warned && InOrder(s.epoch.since) && ExplainsBook(E, cfg, s)
    ensures ExplainsBook(E', cfg, s) && !TruthfulSnapshot(E', CheckpointOf(cfg, s), cfg.depthLimit)
  {
    var base, since := s.epoch.base, s.epoch.since;
    var i := SomeGap(base.lastUpdateId, since);
    var p;
    E', p := GapHidesBid(E, base, cfg.depthLimit, since, i);
    AboveNotHeld(base, since, p);
    BestIsAbove(s.book.bids, E'(s.last).bids, p, cfg.depthLimit);
  }

  lemma BestIsAbove(m: map<Price, Qty>, t: map<Price, Qty>, p: Price, d: int)
    requires p in t && forall q | q in m :: q < p
    ensures TopLevels(Bid, m, d) != TopLevels(Bid, t, d)
  {
    SortedFacts(Bid, t);
    TopFacts(Bid, t, d);
    var all := SortedLevels(Bid, t);
    assert Level(p, t[p]) in all;
    assert all[0].price >= p;
    assert TopLevels(Bid, t, d)[0] == all[0];
    TopListed(Bid, m, d, all[0].price);
    assert Listed(TopLevels(Bid, t, d), all[0].price);
  }

  lemma FinalBeyondBase(s: State)
    requires EpochHolds(s) && InOrder(s.epoch.since)
    ensures 0 <= s.last
  {
    var since := s.epoch.since;
    assert since[|since| - 1] == since[0] || since[0].final <= since[|since| - 1].final;
  }

  lemma CheckpointStep(cfg: Config, s: State, a: Action)
    requires Disciplined(cfg, s) && Enabled(s, a)
    requires Step(cfg, s, a).checkpoints != s.checkpoints
    ensures var s' := Step(cfg, s, a);
            s'.phase == Synced && s'.checkpoints == s.checkpoints + [CheckpointOf(cfg, s')]
  {
    match a
    case Deliver(d, env) =>
      AlignWritesNone(cfg, s.(buffer := s.buffer + [d]), env);
      if s.phase == Synced {
        SyncedCheckpoint(cfg, s, d, env);
      }
    case Fetched(result, shuttingDown, env) =>
      AlignWritesNone(cfg, s.(pending := false, fetches := s.fetches - 1, snapshot := result), env);
  }

  lemma AlignWritesNone(cfg: Config, s: State, env: Env)
    ensures TryAlign(cfg, s, env).checkpoints == s.checkpoints
  {
  }

  lemma SyncedCheckpoint(cfg: Config, s: State, d: Diff, env: Env)
    requires s.phase == Synced
    ensures var s' := HandleSynced(cfg, s, d, env);
            s'.checkpoints == s.checkpoints
            || (s'.phase == Synced && s'.checkpoints == s.checkpoints + [CheckpointOf(cfg, s')])
  {
  }
}
