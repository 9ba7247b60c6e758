/** The per-symbol handler: fields updated step by step inside each locked section.

    Every method is proved equal to the corresponding step of `SyncProtocol`, whose runs are the subject of
    the theorems in `SyncSafety` and `BootstrapProgress`. */
module SymbolHandler {
  import opened Feed
  import opened Options
  import opened SyncProtocol
  import OrderBook

  class Handler {
    const cfg: Config
    const book: OrderBook.Book

    // The number of snapshot fetches in flight.
    var bootstrapG: nat

    var state: Phase
    // The buffered diffs are buf[..bufLen]; the storage beyond is spare.
    var buf: array<Diff>
    var bufLen: nat
    var snapshot: Option<Snapshot>
    var snapshotPending: bool
    var snapshotStale: bool

    var lastFinalUpdateId: int
    var diffsSinceCheckpoint: nat

    // What has been sent to the repository and logged.
    ghost var applied: seq<Diff>
    ghost var checkpoints: seq<Snapshot>
    ghost var epoch: Epoch

    ghost predicate Valid()
      reads this, book
    {
      ValidConfig(cfg) && book.Valid() && bufLen <= buf.Length
    }

    ghost function Abs(): State
      requires bufLen <= buf.Length
      reads this, book, buf
    {
      State(state, buf[..bufLen], snapshot, snapshotPending, snapshotStale, lastFinalUpdateId, diffsSinceCheckpoint,
            book.Contents(), book.lastUpdateId, bootstrapG, applied, checkpoints, epoch)
    }

    constructor (cfg: Config)
      ensures Valid() && fresh(book) && fresh(buf)
      ensures Abs() == INIT
      ensures this.cfg == WithDefaults(cfg)
    {
      this.cfg := WithDefaults(cfg);
      book := new OrderBook.Book();
      bootstrapG := 0;
      state := Disconnected;
      buf, bufLen := new Diff[0], 0;
      snapshot, snapshotPending, snapshotStale := None, false, false;
      lastFinalUpdateId, diffsSinceCheckpoint := 0, 0;
      applied, checkpoints, epoch := [], [], NO_EPOCH;
    }

    method HandleDiff(event: Diff, env: Env)
      requires Valid()
      modifies this, book, buf
      ensures Valid() && (buf == old(buf) || fresh(buf))
      ensures Abs() == SyncProtocol.HandleDiff(cfg, old(Abs()), event, env)
    {
      match state
      case Disconnected =>
        state := Bootstrapping;
        KickoffSnapshot();
        BufferDiff(event);
      case Bootstrapping =>
        BufferDiff(event);
        if snapshot.Some? {
          TryAlign(env);
        } else if bufLen > cfg.maxBufferSize {
          Overflow();
        }
      case Synced =>
        HandleSynced(event, env);
      case Resyncing =>
        BufferDiff(event);
    }

    /** The buffer overflows before a snapshot has come: one that is still on its way will be useless. */
    method Overflow()
      requires Valid()
      modifies this`bufLen, this`snapshot, this`snapshotStale, this`snapshotPending, this`bootstrapG
      ensures Valid()
      ensures var s := old(Abs()).(buffer := [], snapshot := None);
              Abs() == if s.pending then s.(stale := true) else Kickoff(s)
    {
      bufLen := 0;
      snapshot := None;
      if snapshotPending {
        snapshotStale := true;
      } else {
        KickoffSnapshot();
      }
    }

    method BufferDiff(event: Diff)
      requires Valid()
      modifies this`buf, this`bufLen, buf
      ensures Valid() && (buf == old(buf) || fresh(buf))
      ensures Abs() == old(Abs()).(buffer := old(Abs()).buffer + [event])
    {
      ghost var before := buf[..bufLen];
      if bufLen == buf.Length {
        var old_ := buf;
        buf := new Diff[2 * bufLen + 1](i requires 0 <= i reads old_ => if i < old_.Length then old_[i] else event);
        assert buf[..bufLen] == before;
      }
      buf[bufLen] := event;
      bufLen := bufLen + 1;
      assert buf[..bufLen] == before + [event];
    }

    method KickoffSnapshot()
      requires Valid()
      modifies this`snapshotPending, this`bootstrapG
      ensures Valid()
      ensures Abs() == Kickoff(old(Abs()))
    {
      if snapshotPending {
        return;
      }
      snapshotPending := true;
      bootstrapG := bootstrapG + 1;
    }

    /** The locked section that ends a fetch. */
    method CompleteFetch(result: Option<Snapshot>, shuttingDown: bool, env: Env)
      requires Valid() && bootstrapG > 0
      modifies this, book, buf
      ensures Valid() && (buf == old(buf) || fresh(buf))
      ensures Abs() == SyncProtocol.CompleteFetch(cfg, old(Abs()), result, shuttingDown, env)
    {
      bootstrapG := bootstrapG - 1;
      snapshotPending := false;
      if result.None? {
        HandleSnapshotError(shuttingDown);
        return;
      }
      if snapshotStale {
        snapshotStale := false;
        if state == Bootstrapping {
          KickoffSnapshot();
        }
        return;
      }
      snapshot := result;
      TryAlign(env);
    }

    method HandleSnapshotError(shuttingDown: bool)
      requires Valid()
      modifies this`snapshotPending, this`bootstrapG
      ensures Valid()
      ensures Abs() == if shuttingDown || state != Bootstrapping then old(Abs()) else Kickoff(old(Abs()))
    {
      if shuttingDown {
        return;
      }
      if state == Bootstrapping {
        KickoffSnapshot();
      }
    }

    method TryAlign(env: Env)
      requires Valid()
      modifies this, book, buf
      ensures Valid() && (buf == old(buf) || fresh(buf))
      ensures Abs() == SyncProtocol.TryAlign(cfg, old(Abs()), env)
    {
      if snapshot.None? {
        return;
      }
      var snap := snapshot.value;
      DiscardBuffered(snap.lastUpdateId);
      var alignIdx := FindAlignmentIndex(buf, bufLen, snap.lastUpdateId);
      if alignIdx == -1 {
        if bufLen > cfg.maxBufferSize {
          Restart();
        }
        return;
      }
      ReplayAlignedBuffer(alignIdx, snap, env);
    }

    method DiscardBuffered(id: int)
      requires Valid()
      modifies this`bufLen, buf
      ensures Valid()
      ensures Abs() == old(Abs()).(buffer := Discard(old(Abs()).buffer, id))
    {
      bufLen := DiscardPreSnapshot(buf, bufLen, id);
    }

    /** The snapshot is too old for the buffer: both are dropped and a new snapshot is fetched. */
    method Restart()
      requires Valid()
      modifies this`bufLen, this`snapshot, this`snapshotPending, this`bootstrapG
      ensures Valid()
      ensures Abs() == Kickoff(old(Abs()).(buffer := [], snapshot := None))
    {
      bufLen := 0;
      snapshot := None;
      KickoffSnapshot();
    }

    method ReplayAlignedBuffer(alignIdx: nat, snap: Snapshot, env: Env)
      requires Valid() && alignIdx < bufLen
      modifies this, book
      ensures Valid() && (buf == old(buf) || fresh(buf))
      ensures Abs() == Replay(old(Abs()), snap, old(buf[alignIdx..bufLen]), env)
    {
      LoadForReplay(snap);
      var refused, replayed, warned := ApplyBuffered(buf[alignIdx..bufLen], env, snap);
      if refused {
        AbandonReplay();
      } else {
        FinishReplay(snap, replayed, warned);
      }
    }

    method LoadForReplay(snap: Snapshot)
      requires Valid()
      modifies book, this`lastFinalUpdateId
      ensures Valid()
      ensures book.Contents() == LoadDepth(snap)
      ensures book.lastUpdateId == lastFinalUpdateId == snap.lastUpdateId
    {
      book.Reset();
      book.LoadSnapshot(snap);
      lastFinalUpdateId := snap.lastUpdateId;
    }

    /** Applies the buffered diffs until one is refused, and says whether a sequence gap was logged. */
    method ApplyBuffered(events: seq<Diff>, env: Env, ghost snap: Snapshot)
      returns (refused: bool, ghost done: seq<Diff>, ghost warned: bool)
      requires Valid() && book.Contents() == LoadDepth(snap)
      requires book.lastUpdateId == lastFinalUpdateId == snap.lastUpdateId
      modifies book, this`lastFinalUpdateId, this`applied
      ensures Valid()
      ensures refused <==> env.applyFailsAt.Some? && env.applyFailsAt.value < |events|
      ensures done == if refused then events[..env.applyFailsAt.value] else events
      ensures warned == Warns(snap.lastUpdateId, done)
      ensures book.Contents() == ApplyAll(LoadDepth(snap), done)
      ensures book.lastUpdateId == lastFinalUpdateId == FinalId(snap.lastUpdateId, done)
      ensures applied == old(applied) + done
    {
      refused, done, warned := false, [], false;
      for i := 0 to |events|
        invariant Valid()
        invariant done == events[..i]
        invariant env.applyFailsAt.Some? ==> i <= env.applyFailsAt.value
        invariant warned == Warns(snap.lastUpdateId, done)
        invariant book.Contents() == ApplyAll(LoadDepth(snap), done)
        invariant book.lastUpdateId == lastFinalUpdateId == FinalId(snap.lastUpdateId, done)
        invariant applied == old(applied) + done
      {
        var ev := events[i];
        if env.applyFailsAt == Some(i) {
          refused := true;
          return;
        }
        ReplaySnoc(snap, done, ev);
        if lastFinalUpdateId != 0 && ev.first > lastFinalUpdateId + 1 {
          warned := true;
        }
        ApplyNext(ev);
        done := done + [ev];
      }
    }

    method ApplyNext(event: Diff)
      requires Valid()
      modifies book, this`lastFinalUpdateId, this`applied
      ensures Valid()
      ensures book.Contents() == ApplyDiff(old(book.Contents()), event)
      ensures book.lastUpdateId == lastFinalUpdateId == event.final
      ensures applied == old(applied) + [event]
    {
      book.Apply(event);
      lastFinalUpdateId := event.final;
      applied := applied + [event];
    }

    method AbandonReplay()
      requires Valid()
      modifies this, book
      ensures Valid() && fresh(buf)
      ensures Abs() == Kickoff(old(Abs()).(buffer := [], snapshot := None, phase := Bootstrapping,
                                           book := EMPTY, bookId := 0))
    {
      EmptyBuffer();
      snapshot := None;
      state := Resyncing;
      book.Reset();
      BackToBootstrapping();
    }

    method FinishReplay(snap: Snapshot, ghost replayed: seq<Diff>, ghost warned: bool)
      requires Valid()
      modifies this
      ensures Valid() && fresh(buf)
      ensures Abs() == old(Abs()).(buffer := [], snapshot := None, sinceCheckpoint := 0, phase := Synced,
                                   epoch := Epoch(snap, replayed, |replayed|, warned))
    {
      EmptyBuffer();
      snapshot := None;
      diffsSinceCheckpoint := 0;
      state := Synced;
      epoch := Epoch(snap, replayed, |replayed|, warned);
    }

    method HandleSynced(event: Diff, env: Env)
      requires Valid()
      modifies this, book
      ensures Valid() && (buf == old(buf) || fresh(buf))
      ensures Abs() == SyncProtocol.HandleSynced(cfg, old(Abs()), event, env)
    {
      if event.first != lastFinalUpdateId + 1 {
        EnterResync(event);
        return;
      }
      if env.applyFailsAt == Some(0) {
        EnterResync(event);
        return;
      }
      AdvanceSynced(event);
      WriteCheckpointIfDue(env);
    }

    method AdvanceSynced(event: Diff)
      requires Valid()
      modifies book, this`lastFinalUpdateId, this`applied, this`epoch, this`diffsSinceCheckpoint
      ensures Valid()
      ensures Abs() == Advanced(old(Abs()), event)
    {
      ApplyNext(event);
      epoch := epoch.(since := epoch.since + [event]);
      diffsSinceCheckpoint := diffsSinceCheckpoint + 1;
    }

    method WriteCheckpointIfDue(env: Env)
      requires Valid()
      modifies this`checkpoints, this`diffsSinceCheckpoint
      ensures Valid()
      ensures Abs() == Checkpointed(cfg, old(Abs()), env)
    {
      if diffsSinceCheckpoint >= cfg.checkpointDiffThreshold || env.intervalElapsed {
        var snap := book.Snapshot(cfg.depthLimit);
        checkpoints := checkpoints + [snap];
        if env.checkpointWritten {
          diffsSinceCheckpoint := 0;
        }
      }
    }

    method EnterResync(pending: Diff)
      requires Valid()
      modifies this, book
      ensures Valid() && fresh(buf)
      ensures Abs() == SyncProtocol.EnterResync(old(Abs()), pending)
    {
      state := Resyncing;
      ResetBook();
      RestartBuffer(pending);
      BackToBootstrapping();
    }

    method ResetBook()
      requires Valid()
      modifies book, this`lastFinalUpdateId, this`diffsSinceCheckpoint
      ensures Valid()
      ensures Abs() == old(Abs()).(book := EMPTY, bookId := 0, last := 0, sinceCheckpoint := 0)
    {
      book.Reset();
      lastFinalUpdateId := 0;
      diffsSinceCheckpoint := 0;
    }

    method RestartBuffer(pending: Diff)
      requires Valid()
      modifies this`buf, this`bufLen
      ensures Valid() && fresh(buf)
      ensures Abs() == old(Abs()).(buffer := [pending])
    {
      buf, bufLen := new Diff[1](_ => pending), 1;
      assert buf[..bufLen] == [pending];
    }

    method BackToBootstrapping()
      requires Valid()
      modifies this`snapshot, this`state, this`snapshotPending, this`bootstrapG
      ensures Valid()
      ensures Abs() == Kickoff(old(Abs()).(snapshot := None, phase := Bootstrapping))
    {
      snapshot := None;
      state := Bootstrapping;
      KickoffSnapshot();
    }

    method EmptyBuffer()
      requires Valid()
      modifies this`buf, this`bufLen
      ensures Valid() && fresh(buf)
      ensures Abs() == old(Abs()).(buffer := [])
    {
      buf, bufLen := new Diff[0], 0;
    }
  }

  /** Compacts buf[..n] in place, keeping the diffs that end after `id`; the kept diffs share the storage that
      is still being read, and no unread diff is overwritten. */
  method DiscardPreSnapshot(buf: array<Diff>, n: nat, id: int) returns (kept: nat)
    requires n <= buf.Length
    modifies buf
    ensures kept <= n
    ensures buf[..kept] == Discard(old(buf[..n]), id)
  {
    ghost var before := buf[..n];
    kept := 0;
    for i := 0 to n
      invariant kept <= i
      invariant buf[..kept] == Discard(before[..i], id)
      invariant forall j | i <= j < n :: buf[j] == before[j]
    {
      var ev := buf[i];
      assert before[..i + 1][..i] == before[..i];
      if ev.final > id {
        buf[kept] := ev;
        kept := kept + 1;
      }
    }
    assert before[..n] == before;
  }

  method FindAlignmentIndex(buf: array<Diff>, n: nat, id: int) returns (idx: int)
    requires n <= buf.Length
    ensures idx == AlignmentIndex(buf[..n], id)
  {
    var i := 0;
    while i < n
      invariant 0 <= i <= n
      invariant AlignmentIndex(buf[..n], id) == AlignmentFrom(buf[..n], id, i)
    {
      if buf[i].first <= id + 1 && buf[i].final >= id + 1 {
        return i;
      }
      i := i + 1;
    }
    return -1;
  }

  /** A handler driven by a schedule goes through the run of that schedule. */
  method Play(cfg: Config, acts: seq<Action>, ghost ss: seq<State>) returns (h: Handler)
    requires Run(WithDefaults(cfg), ss, acts)
    ensures h.Valid() && h.cfg == WithDefaults(cfg)
    ensures h.Abs() == ss[|acts|]
  {
    h := new Handler(cfg);
    for i := 0 to |acts|
      invariant h.Valid() && h.cfg == WithDefaults(cfg)
      invariant fresh(h) && fresh(h.book) && fresh(h.buf)
      invariant h.Abs() == ss[i]
    {
      assert Enabled(ss[i], acts[i]) && ss[i + 1] == Step(h.cfg, ss[i], acts[i]);
      match acts[i]
      case Deliver(d, env) => h.HandleDiff(d, env);
      case Fetched(result, shuttingDown, env) => h.CompleteFetch(result, shuttingDown, env);
    }
  }
}
