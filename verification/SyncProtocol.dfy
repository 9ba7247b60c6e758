/** The order-book synchronisation protocol of one symbol, as a transition system.

    Every locked section of the handler is one atomic step: the delivery of a diff, or the completion of a
    snapshot fetch.  The environment picks the interleaving and the outcome of every call that can fail. */
module SyncProtocol {
  import opened Options
  import opened Feed
  import OrderBook

  datatype Phase = Disconnected | Bootstrapping | Synced | Resyncing

  datatype Config = Config(depthLimit: int, checkpointDiffThreshold: int, maxBufferSize: int)

  /** Unset limits get the defaults. */
  function WithDefaults(cfg: Config): (r: Config)
    ensures ValidConfig(r)
    ensures ValidConfig(cfg) ==> r == cfg
  {
    Config(if cfg.depthLimit <= 0 then 50 else cfg.depthLimit,
           if cfg.checkpointDiffThreshold <= 0 then 500 else cfg.checkpointDiffThreshold,
           if cfg.maxBufferSize <= 0 then 1000 else cfg.maxBufferSize)
  }

  predicate ValidConfig(cfg: Config) {
    cfg.depthLimit > 0 && cfg.checkpointDiffThreshold > 0 && cfg.maxBufferSize > 0
  }

  /** The snapshot that opened the current epoch, the diffs applied to it since, how many of them came
      out of the buffer, and whether a sequence gap was logged while those were replayed. */
  datatype Epoch = Epoch(base: Snapshot, since: seq<Diff>, replayed: nat, warned: bool)

  datatype State = State(
    phase: Phase,
    buffer: seq<Diff>,
    snapshot: Option<Snapshot>,
    pending: bool,
    stale: bool,
    last: int,
    sinceCheckpoint: nat,
    book: Depth,
    bookId: int,
    fetches: nat,
    applied: seq<Diff>,
    checkpoints: seq<Snapshot>,
    epoch: Epoch)

  const NO_EPOCH := Epoch(Snapshot(0, [], []), [], 0, false)

  const INIT := State(Disconnected, [], None, false, false, 0, 0, EMPTY, 0, 0, [], [], NO_EPOCH)

  /** What the environment decides during one step: the position at which the book refuses a diff, if any,
      whether the checkpoint interval has elapsed, and whether the checkpoint can be written. */
  datatype Env = Env(applyFailsAt: Option<nat>, intervalElapsed: bool, checkpointWritten: bool)

  datatype Action =
    | Deliver(diff: Diff, env: Env)
    | Fetched(result: Option<Snapshot>, shuttingDown: bool, env: Env)

  // ----- the locked sections

  function Kickoff(s: State): State {
    if s.pending then s else s.(pending := true, fetches := s.fetches + 1)
  }

  function Discard(buf: seq<Diff>, id: int): (kept: seq<Diff>)
    ensures |kept| <= |buf|
  {
    if buf == [] then []
    else
      var kept := Discard(buf[..|buf| - 1], id);
      if buf[|buf| - 1].final > id then kept + [buf[|buf| - 1]] else kept
  }

  predicate Aligns(d: Diff, id: int) {
    d.first <= id + 1 && d.final >= id + 1
  }

  /** The first position from `i` on that satisfies the alignment condition, or -1. */
  function AlignmentFrom(buf: seq<Diff>, id: int, i: nat): (idx: int)
    requires i <= |buf|
    ensures idx == -1 || i <= idx < |buf|
    decreases |buf| - i
  {
    if i == |buf| then -1 else if Aligns(buf[i], id) then i else AlignmentFrom(buf, id, i + 1)
  }

  function AlignmentIndex(buf: seq<Diff>, id: int): (idx: int)
    ensures -1 <= idx < |buf|
  {
    AlignmentFrom(buf, id, 0)
  }

  /** Whether the replay of `ds` after id `id` logs a sequence gap. */
  predicate Warns(id: int, ds: seq<Diff>) {
    ds != [] &&
    (|| Warns(id, ds[..|ds| - 1])
     || (FinalId(id, ds[..|ds| - 1]) != 0 && ds[|ds| - 1].first > FinalId(id, ds[..|ds| - 1]) + 1))
  }

  /** The state after loading the snapshot and applying `done`, in the middle of a replay. */
  function Replayed(s: State, snap: Snapshot, done: seq<Diff>): State {
    s.(last := FinalId(snap.lastUpdateId, done), applied := s.applied + done,
       book := ApplyAll(LoadDepth(snap), done), bookId := FinalId(snap.lastUpdateId, done))
  }

  lemma WarnsSnoc(id: int, done: seq<Diff>, d: Diff)
    ensures Warns(id, done + [d])
       <==> Warns(id, done) || (FinalId(id, done) != 0 && d.first > FinalId(id, done) + 1)
  {
    assert (done + [d])[..|done|] == done;
  }

  /** One more replayed diff. */
  lemma ReplaySnoc(snap: Snapshot, done: seq<Diff>, d: Diff)
    ensures ApplyAll(LoadDepth(snap), done + [d]) == ApplyDiff(ApplyAll(LoadDepth(snap), done), d)
    ensures Warns(snap.lastUpdateId, done + [d])
       <==> Warns(snap.lastUpdateId, done)
            || (FinalId(snap.lastUpdateId, done) != 0 && d.first > FinalId(snap.lastUpdateId, done) + 1)
  {
    ApplyAllSnoc(LoadDepth(snap), done, d);
    WarnsSnoc(snap.lastUpdateId, done, d);
  }

  /** Loads the snapshot and applies `ds`; a refused diff abandons the attempt. */
  function Replay(s: State, snap: Snapshot, ds: seq<Diff>, env: Env): State {
    if env.applyFailsAt.Some? && env.applyFailsAt.value < |ds| then
      var s' := Replayed(s, snap, ds[..env.applyFailsAt.value]);
      Kickoff(s'.(buffer := [], snapshot := None, phase := Bootstrapping, book := EMPTY, bookId := 0))
    else
      Replayed(s, snap, ds).(buffer := [], snapshot := None, sinceCheckpoint := 0, phase := Synced,
                             epoch := Epoch(snap, ds, |ds|, Warns(snap.lastUpdateId, ds)))
  }

  function TryAlign(cfg: Config, s: State, env: Env): State {
    if s.snapshot.None? then s
    else
      var snap := s.snapshot.value;
      var buf := Discard(s.buffer, snap.lastUpdateId);
      var idx := AlignmentIndex(buf, snap.lastUpdateId);
      if idx != -1 then Replay(s, snap, buf[idx..], env)
      else if |buf| > cfg.maxBufferSize then Kickoff(s.(buffer := [], snapshot := None))
      else s.(buffer := buf)
  }

  function EnterResync(s: State, d: Diff): State {
    Kickoff(s.(phase := Bootstrapping, book := EMPTY, bookId := 0, last := 0, sinceCheckpoint := 0,
               buffer := [d], snapshot := None))
  }

  ghost function CheckpointOf(cfg: Config, s: State): Snapshot {
    OrderBook.SnapshotOf(s.book, s.bookId, cfg.depthLimit)
  }

  ghost function Checkpointed(cfg: Config, s: State, env: Env): State {
    if s.sinceCheckpoint >= cfg.checkpointDiffThreshold || env.intervalElapsed then
      s.(checkpoints := s.checkpoints + [CheckpointOf(cfg, s)],
         sinceCheckpoint := if env.checkpointWritten then 0 else s.sinceCheckpoint)
    else s
  }

  /** The next diff in sequence has been applied. */
  function Advanced(s: State, d: Diff): State {
    s.(book := ApplyDiff(s.book, d), bookId := d.final, last := d.final, applied := s.applied + [d],
       sinceCheckpoint := s.sinceCheckpoint + 1, epoch := s.epoch.(since := s.epoch.since + [d]))
  }

  ghost function HandleSynced(cfg: Config, s: State, d: Diff, env: Env): State {
    if d.first != s.last + 1 || env.applyFailsAt == Some(0) then EnterResync(s, d)
    else Checkpointed(cfg, Advanced(s, d), env)
  }

  ghost function HandleDiff(cfg: Config, s: State, d: Diff, env: Env): State {
    match s.phase
    case Disconnected =>
      var s' := Kickoff(s.(phase := Bootstrapping));
      s'.(buffer := s'.buffer + [d])
    case Bootstrapping =>
      var s' := s.(buffer := s.buffer + [d]);
      if s'.snapshot.Some? then TryAlign(cfg, s', env)
      else if |s'.buffer| > cfg.maxBufferSize then
        if s'.pending then s'.(buffer := [], stale := true) else Kickoff(s'.(buffer := []))
      else s'
    case Synced => HandleSynced(cfg, s, d, env)
    case Resyncing => s.(buffer := s.buffer + [d])
  }

  /** A failed fetch is retried unless the handler is shutting down; a stale one is discarded and retried. */
  function CompleteFetch(cfg: Config, s: State, result: Option<Snapshot>, shuttingDown: bool, env: Env): State
    requires s.fetches > 0
  {
    var s' := s.(pending := false, fetches := s.fetches - 1);
    if result.None? then
      if shuttingDown || s'.phase != Bootstrapping then s' else Kickoff(s')
    else if s'.stale then
      if s'.phase == Bootstrapping then Kickoff(s'.(stale := false)) else s'.(stale := false)
    else TryAlign(cfg, s'.(snapshot := result), env)
  }

  // ----- runs

  predicate Enabled(s: State, a: Action) {
    a.Fetched? ==> s.fetches > 0
  }

  ghost function Step(cfg: Config, s: State, a: Action): State
    requires Enabled(s, a)
  {
    match a
    case Deliver(d, env) => HandleDiff(cfg, s, d, env)
    case Fetched(result, shuttingDown, env) => CompleteFetch(cfg, s, result, shuttingDown, env)
  }

  /** `ss` is a run of the handler under the schedule `acts`. */
  ghost predicate Run(cfg: Config, ss: seq<State>, acts: seq<Action>) {
    && |ss| == |acts| + 1
    && ss[0] == INIT
    && (forall i | 0 <= i < |acts| :: Enabled(ss[i], acts[i]) && ss[i + 1] == Step(cfg, ss[i], acts[i]))
  }

  function Delivered(acts: seq<Action>): seq<Diff> {
    if acts == [] then []
    else
      var init := Delivered(acts[..|acts| - 1]);
      if acts[|acts| - 1].Deliver? then init + [acts[|acts| - 1].diff] else init
  }

  lemma RunPrefix(cfg: Config, ss: seq<State>, acts: seq<Action>)
    requires Run(cfg, ss, acts) && acts != []
    ensures Run(cfg, ss[..|acts|], acts[..|acts| - 1])
  {
  }

  // ----- fetch discipline

  ghost predicate Disciplined(cfg: Config, s: State) {
    && s.phase != Resyncing
    && s.fetches == (if s.pending then 1 else 0)
    && (s.pending || s.stale || s.snapshot.Some? ==> s.phase == Bootstrapping)
    && (s.pending || s.stale ==> s.snapshot.None?)
    && (s.phase != Bootstrapping ==> s.buffer == [])
    && |s.buffer| <= cfg.maxBufferSize
  }

  lemma TryAlignDisciplined(cfg: Config, s: State, env: Env)
    requires ValidConfig(cfg) && s.phase == Bootstrapping
    requires !s.pending && !s.stale && s.fetches == 0
    requires s.snapshot.None? ==> |s.buffer| <= cfg.maxBufferSize
    ensures Disciplined(cfg, TryAlign(cfg, s, env))
  {
  }

  lemma StepDisciplined(cfg: Config, s: State, a: Action)
    requires ValidConfig(cfg) && Disciplined(cfg, s) && Enabled(s, a)
    ensures Disciplined(cfg, Step(cfg, s, a))
  {
    match a
    case Deliver(d, env) =>
      if s.phase == Bootstrapping && s.snapshot.Some? {
        TryAlignDisciplined(cfg, s.(buffer := s.buffer + [d]), env);
      }
    case Fetched(result, shuttingDown, env) =>
      if result.Some? && !s.stale {
        TryAlignDisciplined(cfg, s.(pending := false, fetches := s.fetches - 1, snapshot := result), env);
      }
  }

  /** In every reachable state at most one fetch is in flight, and only while bootstrapping without a
      snapshot; a synced handler has no fetch, no snapshot and no buffer; the buffer is bounded; and
      the resyncing phase is never left behind by a locked section. */
  lemma {:induction false} FetchDiscipline(cfg: Config, ss: seq<State>, acts: seq<Action>)
    requires ValidConfig(cfg) && Run(cfg, ss, acts)
    ensures Disciplined(cfg, ss[|acts|])
  {
    if acts != [] {
      RunPrefix(cfg, ss, acts);
      FetchDiscipline(cfg, ss[..|acts|], acts[..|acts| - 1]);
      StepDisciplined(cfg, ss[|acts| - 1], acts[|acts| - 1]);
    }
  }

  /** A fetch can only complete on a bootstrapping handler that holds no snapshot, so no late fetch ever
      reaches a synced book. */
  lemma NoLateFetch(cfg: Config, ss: seq<State>, acts: seq<Action>, a: Action)
    requires ValidConfig(cfg) && Run(cfg, ss, acts)
    requires a.Fetched? && Enabled(ss[|acts|], a)
    ensures ss[|acts|].phase == Bootstrapping && ss[|acts|].snapshot.None?
  {
    FetchDiscipline(cfg, ss, acts);
  }

  /** A fetch that was in flight when the buffer overflowed can no longer align.  The overflow marks it, the
      mark survives failed fetches, and the next snapshot to arrive is thrown away and fetched again. */
  lemma OverflowDiscardsFetch(cfg: Config, s: State, a: Action)
    requires ValidConfig(cfg) && Disciplined(cfg, s) && Enabled(s, a)
    ensures var s' := Step(cfg, s, a);
            && (a.Deliver? && s.pending && |s.buffer| == cfg.maxBufferSize ==> s'.stale && s'.buffer == [])
            && (s.stale ==> s'.snapshot.None? && s'.phase == Bootstrapping)
            && (s.stale && a.Fetched? && a.result.Some? ==> !s'.stale && s'.pending)
            && (s.stale && !(a.Fetched? && a.result.Some?) ==> s'.stale)
            && (!s.stale && s'.stale ==> a.Deliver? && s.pending && |s.buffer| == cfg.maxBufferSize)
  {
    match a
    case Deliver(d, env) =>
      AlignKeepsStale(cfg, s.(buffer := s.buffer + [d]), env);
    case Fetched(result, shuttingDown, env) =>
      AlignKeepsStale(cfg, s.(pending := false, fetches := s.fetches - 1, snapshot := result), env);
  }

  lemma AlignKeepsStale(cfg: Config, s: State, env: Env)
    ensures TryAlign(cfg, s, env).stale == s.stale
  {
  }

  /** As long as no fetch fails during shutdown, a bootstrapping handler is never stranded: it holds a
      snapshot or a fetch is on its way. */
  lemma {:induction false} NeverStranded(cfg: Config, ss: seq<State>, acts: seq<Action>)
    requires ValidConfig(cfg) && Run(cfg, ss, acts)
    requires forall i | 0 <= i < |acts| :: acts[i].Fetched? && acts[i].result.None? ==> !acts[i].shuttingDown
    ensures ss[|acts|].phase == Bootstrapping ==> ss[|acts|].pending || ss[|acts|].snapshot.Some?
  {
    if acts != [] {
      RunPrefix(cfg, ss, acts);
      NeverStranded(cfg, ss[..|acts|], acts[..|acts| - 1]);
      FetchDiscipline(cfg, ss[..|acts|], acts[..|acts| - 1]);
    }
  }
}
