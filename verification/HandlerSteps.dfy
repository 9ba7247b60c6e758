/** What each locked section of the handler does, in terms of the delivered diff, the fetched snapshot and the answers
    of the book and the repository. */
module HandlerSteps {
  import opened Feed
  import OrderBook
  import opened Options
  import opened Subsequences
  import opened SyncProtocol
  import SyncSafety
  import opened BootstrapProgress

  // ----- discarding and aligning

  /** `f` picks `kept` out of `buf`, and picks exactly what ends after `id`. */
  ghost predicate Picks(f: seq<nat>, kept: seq<Diff>, buf: seq<Diff>, id: int) {
    Embeds(f, kept, buf) && forall i | 0 <= i < |buf| :: buf[i].final > id <==> i in f
  }

  lemma PicksSnoc(f: seq<nat>, kept: seq<Diff>, buf: seq<Diff>, id: int, d: Diff)
    requires Picks(f, kept, buf, id)
    ensures d.final > id ==> Picks(f + [|buf|], kept + [d], buf + [d], id)
    ensures d.final <= id ==> Picks(f, kept, buf + [d], id)
  {
    assert forall i | i in f :: i < |buf|;
  }

  /** What discarding keeps, in order, is exactly what ends after the snapshot. */
  lemma {:induction false} DiscardIs(buf: seq<Diff>, id: int) returns (f: seq<nat>)
    ensures Picks(f, Discard(buf, id), buf, id)
  {
    if buf == [] {
      f := [];
    } else {
      var init, last := buf[..|buf| - 1], buf[|buf| - 1];
      var g := DiscardIs(init, id);
      f := if last.final > id then g + [|init|] else g;
      SplitLast(buf);
      DiscardSnoc(init, last, id);
      PicksSnoc(g, Discard(init, id), init, id, last);
    }
  }

  /** The diff reaches the snapshot and goes past it. */
  predicate Meets(d: Diff, id: int) {
    d.first - 1 <= id < d.final
  }

  /** The alignment index is the first position that meets the snapshot, and -1 only if there is none. */
  lemma AlignmentIs(buf: seq<Diff>, id: int)
    ensures var idx := AlignmentIndex(buf, id);
            && (idx != -1 ==> Meets(buf[idx], id) && forall j | 0 <= j < idx :: !Meets(buf[j], id))
            && (idx == -1 ==> forall j | 0 <= j < |buf| :: !Meets(buf[j], id))
  {
    SyncSafety.AlignmentFirst(buf, id, 0);
  }

  /** Bootstrapping with nothing buffered or fetched and one fetch under way. */
  ghost predicate StartedOver(s: State) {
    && s.phase == Bootstrapping && s.buffer == [] && s.snapshot.None? && s.pending && !s.stale && s.fetches == 1
  }

  /** A replay of `ds` over the snapshot that the book took to the end. */
  ghost predicate CaughtUp(s: State, s': State, snap: Snapshot, ds: seq<Diff>) {
    && s'.phase == Synced && s'.buffer == [] && s'.snapshot.None? && !s'.pending && s'.fetches == 0
    && ds != [] && s'.book == ApplyAll(LoadDepth(snap), ds) && s'.last == s'.bookId == ds[|ds| - 1].final
    && s'.applied == s.applied + ds && s'.sinceCheckpoint == 0 && s'.checkpoints == s.checkpoints
    && s'.epoch.base == snap && s'.epoch.since == ds && s'.epoch.replayed == |ds|
  }

  /** One refused after the first `n` of `ds`. */
  ghost predicate GaveUp(s: State, s': State, ds: seq<Diff>, n: nat) {
    && StartedOver(s') && n < |ds| && s'.applied == s.applied + ds[..n]
    && s'.book == EMPTY && s'.bookId == 0 && s'.checkpoints == s.checkpoints
  }

  /** With a snapshot at hand: if some diff of the buffer that ends after the snapshot also reaches it, everything
      from the first such diff on is replayed, and the handler is synced unless the book refuses one; if there is none
      it goes on waiting with what ends after the snapshot, unless that is too much. */
  lemma AlignmentOutcome(cfg: Config, s: State, env: Env, kept: seq<Diff>, s': State)
    requires s.phase == Bootstrapping && s.snapshot.Some? && !s.pending && !s.stale && s.fetches == 0
    requires kept == Discard(s.buffer, s.snapshot.value.lastUpdateId) && s' == TryAlign(cfg, s, env)
    ensures forall i | 0 <= i < |kept| && Meets(kept[i], s.snapshot.value.lastUpdateId)
                       && (forall j | 0 <= j < i :: !Meets(kept[j], s.snapshot.value.lastUpdateId)) ::
              if env.applyFailsAt.Some? && env.applyFailsAt.value < |kept| - i
              then GaveUp(s, s', kept[i..], env.applyFailsAt.value)
              else CaughtUp(s, s', s.snapshot.value, kept[i..])
    ensures (forall j | 0 <= j < |kept| :: !Meets(kept[j], s.snapshot.value.lastUpdateId)) ==>
              if |kept| > cfg.maxBufferSize
              then StartedOver(s') && s'.applied == s.applied && s'.book == s.book
              else s' == s.(buffer := kept)
  {
    var id := s.snapshot.value.lastUpdateId;
    var idx := AlignmentIndex(kept, id);
    AlignmentIs(kept, id);
    if idx != -1 {
      ReplayOutcome(s, s.snapshot.value, kept[idx..], env, s');
      forall i | 0 <= i < |kept| && Meets(kept[i], id) && (forall j | 0 <= j < i :: !Meets(kept[j], id))
        ensures i == idx
      {
      }
    }
  }

  lemma ReplayOutcome(s: State, snap: Snapshot, ds: seq<Diff>, env: Env, s': State)
    requires s.phase == Bootstrapping && !s.pending && !s.stale && s.fetches == 0
    requires ds != [] && s' == Replay(s, snap, ds, env)
    ensures if env.applyFailsAt.Some? && env.applyFailsAt.value < |ds| then GaveUp(s, s', ds, env.applyFailsAt.value)
            else CaughtUp(s, s', snap, ds)
  {
  }

  // ----- a delivered diff

  /** The first diff starts the bootstrap and is kept. */
  lemma FirstDelivery(cfg: Config, s: State, d: Diff, env: Env, s': State)
    requires Disciplined(cfg, s) && s.phase == Disconnected && s' == HandleDiff(cfg, s, d, env)
    ensures s' == s.(phase := Bootstrapping, buffer := [d], pending := true, fetches := 1)
  {
    assert s.buffer + [d] == [d];
  }

  /** While the snapshot is on its way diffs are kept as long as they fit; when one does not, all are dropped, and the
      fetch under way is marked, or a new one started if there is none. */
  lemma WaitingDelivery(cfg: Config, s: State, d: Diff, env: Env, s': State)
    requires Disciplined(cfg, s) && s.phase == Bootstrapping && s.snapshot.None? && s' == HandleDiff(cfg, s, d, env)
    ensures |s.buffer| < cfg.maxBufferSize ==> s' == s.(buffer := s.buffer + [d])
    ensures |s.buffer| == cfg.maxBufferSize && s.pending ==> s' == s.(buffer := [], stale := true)
    ensures |s.buffer| == cfg.maxBufferSize && !s.pending ==> s' == s.(buffer := [], pending := true, fetches := 1)
  {
  }

  /** With a snapshot at hand the diff is kept and the alignment tried again; `AlignmentOutcome` says with what
      result. */
  lemma AligningDelivery(cfg: Config, s: State, d: Diff, env: Env)
    requires s.phase == Bootstrapping && s.snapshot.Some?
    ensures HandleDiff(cfg, s, d, env) == TryAlign(cfg, s.(buffer := s.buffer + [d]), env)
  {
  }

  /** A checkpoint is due after a diff applied while synced. */
  predicate CheckpointDue(cfg: Config, s: State, env: Env) {
    s.sinceCheckpoint + 1 >= cfg.checkpointDiffThreshold || env.intervalElapsed
  }

  /** The diff was applied to the synced book, and a checkpoint of the result written if one was due. */
  ghost predicate TookIt(cfg: Config, s: State, d: Diff, env: Env, s': State) {
    && s'.phase == Synced && s'.buffer == [] && s'.snapshot.None? && !s'.pending && s'.fetches == 0
    && s'.book == ApplyDiff(s.book, d) && s'.last == s'.bookId == d.final && s'.applied == s.applied + [d]
    && s'.epoch == s.epoch.(since := s.epoch.since + [d])
    && s'.checkpoints
       == s.checkpoints
          + (if CheckpointDue(cfg, s, env) then [OrderBook.SnapshotOf(s'.book, d.final, cfg.depthLimit)] else [])
    && s'.sinceCheckpoint == if CheckpointDue(cfg, s, env) && env.checkpointWritten then 0 else s.sinceCheckpoint + 1
  }

  /** The book was thrown away and a new bootstrap begun with the diff. */
  ghost predicate Resynced(s: State, d: Diff, s': State) {
    && s'.phase == Bootstrapping && s'.buffer == [d] && s'.snapshot.None? && s'.pending && !s'.stale && s'.fetches == 1
    && s'.book == EMPTY && s'.bookId == 0 && s'.last == 0 && s'.sinceCheckpoint == 0
    && s'.applied == s.applied && s'.checkpoints == s.checkpoints
  }

  /** A synced handler takes a diff if and only if it is the next in sequence and the book does not refuse it, however
      many ids the diff spans; otherwise it starts over with that diff. */
  lemma SyncedDelivery(cfg: Config, s: State, d: Diff, env: Env, s': State)
    requires Disciplined(cfg, s) && s.phase == Synced && s' == Step(cfg, s, Deliver(d, env))
    ensures s'.phase == Synced <==> d.first == s.last + 1 && !Refuses(env)
    ensures if d.first == s.last + 1 && !Refuses(env) then TookIt(cfg, s, d, env, s') else Resynced(s, d, s')
  {
    if d.first == s.last + 1 && !Refuses(env) {
      TakesNext(cfg, s, d, env, s');
    }
  }

  lemma TakesNext(cfg: Config, s: State, d: Diff, env: Env, s': State)
    requires Disciplined(cfg, s) && s.phase == Synced && d.first == s.last + 1 && !Refuses(env)
    requires s' == HandleSynced(cfg, s, d, env)
    ensures TookIt(cfg, s, d, env, s')
  {
    assert s' == Checkpointed(cfg, Advanced(s, d), env);
  }

  /** On contiguous deliveries that the book takes the handler stays synced through all of them, applies each once, and
      holds exactly the book that they make of the one it had. */
  lemma {:induction false} StaysSynced(cfg: Config, s: State, ds: seq<Diff>, envs: seq<Env>, n: nat)
    requires ValidConfig(cfg) && Disciplined(cfg, s) && s.phase == Synced
    requires Follows(s.last, ds) && n <= |ds| == |envs| && forall i | 0 <= i < |envs| :: !Refuses(envs[i])
    ensures var s' := AfterDeliveries(cfg, s, ds[..n], envs[..n]);
            && Disciplined(cfg, s') && s'.phase == Synced && s'.last == IdBefore(s.last, ds, n)
            && s'.applied == s.applied + ds[..n] && s'.book == ApplyAll(s.book, ds[..n])
            && s'.epoch.base == s.epoch.base && s'.epoch.since == s.epoch.since + ds[..n]
    decreases n
  {
    if n > 0 {
      var before := AfterDeliveries(cfg, s, ds[..n - 1], envs[..n - 1]);
      StaysSynced(cfg, s, ds, envs, n - 1);
      LastDelivery(cfg, s, ds, envs, n - 1);
      NextFollows(s.last, ds, n - 1);
      StepDisciplined(cfg, before, Deliver(ds[n - 1], envs[n - 1]));
      SyncedDelivery(cfg, before, ds[n - 1], envs[n - 1], AfterDeliveries(cfg, s, ds[..n], envs[..n]));
      OneMore(s.applied, ds, n);
      OneMore(s.epoch.since, ds, n);
      TakeSnoc(ds, n);
      ApplyAllSnoc(s.book, ds[..n - 1], ds[n - 1]);
    }
  }

  lemma TakeSnoc(ds: seq<Diff>, n: nat)
    requires 0 < n <= |ds|
    ensures ds[..n] == ds[..n - 1] + [ds[n - 1]]
  {
  }

  lemma OneMore(head: seq<Diff>, ds: seq<Diff>, n: nat)
    requires 0 < n <= |ds|
    ensures head + ds[..n] == head + ds[..n - 1] + [ds[n - 1]]
  {
  }

  // ----- a completed fetch

  /** A failed fetch changes nothing; it is repeated at once unless the handler is shutting down. */
  lemma FetchFails(cfg: Config, s: State, shuttingDown: bool, env: Env)
    requires Disciplined(cfg, s) && s.fetches > 0
    ensures CompleteFetch(cfg, s, None, shuttingDown, env)
         == if shuttingDown then s.(pending := false, fetches := 0) else s
  {
  }

  /** The snapshot of a marked fetch is thrown away and fetched again. */
  lemma FetchIsStale(cfg: Config, s: State, snap: Snapshot, shuttingDown: bool, env: Env)
    requires Disciplined(cfg, s) && s.fetches > 0 && s.stale
    ensures CompleteFetch(cfg, s, Some(snap), shuttingDown, env) == s.(stale := false)
  {
  }

  /** Any other snapshot is kept and the alignment tried; `AlignmentOutcome` says with what result. */
  lemma FetchSucceeds(cfg: Config, s: State, snap: Snapshot, shuttingDown: bool, env: Env)
    requires Disciplined(cfg, s) && s.fetches > 0 && !s.stale
    ensures CompleteFetch(cfg, s, Some(snap), shuttingDown, env)
         == TryAlign(cfg, s.(snapshot := Some(snap), pending := false, fetches := 0), env)
  {
  }

  /** The defaults of the limits. */
  lemma DefaultLimits(cfg: Config)
    ensures WithDefaults(cfg).depthLimit == if cfg.depthLimit > 0 then cfg.depthLimit else 50
    ensures WithDefaults(cfg).checkpointDiffThreshold
         == if cfg.checkpointDiffThreshold > 0 then cfg.checkpointDiffThreshold else 500
    ensures WithDefaults(cfg).maxBufferSize == if cfg.maxBufferSize > 0 then cfg.maxBufferSize else 1000
  {
  }
}
