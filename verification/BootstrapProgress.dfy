/** On a feed without gaps the bootstrap cannot wait for ever. */
module BootstrapProgress {
  import opened Feed
  import opened Options
  import opened Subsequences
  import opened SyncProtocol
  import SyncSafety

  /** Each diff starts right after the id before it; the first one right after `from`. */
  ghost predicate Follows(from: int, ds: seq<Diff>) {
    Contiguous(ds) && (ds != [] ==> ds[0].first == from + 1)
  }

  /** The buffer is the contiguous end of a feed whose last delivered id is `at`. */
  ghost predicate BufferedUpTo(s: State, at: int) {
    Contiguous(s.buffer) && (s.buffer != [] ==> s.buffer[|s.buffer| - 1].final == at)
  }

  /** Waiting for an alignment point: the buffer is empty because the snapshot is ahead of the feed, or every
      buffered diff starts beyond the snapshot because the snapshot is too old. */
  ghost predicate Waiting(cfg: Config, s: State, at: int) {
    && s.phase == Bootstrapping && s.snapshot.Some? && !s.pending
    && |s.buffer| <= cfg.maxBufferSize
    && BufferedUpTo(s, at)
    && (at <= s.snapshot.value.lastUpdateId ==> s.buffer == [])
    && (forall i | 0 <= i < |s.buffer| :: s.buffer[i].first > s.snapshot.value.lastUpdateId + 1)
  }

  /** How many further diffs the handler can still wait for. */
  ghost function Patience(cfg: Config, s: State, at: int): int
    requires s.snapshot.Some?
  {
    var id := s.snapshot.value.lastUpdateId;
    if at <= id then id + 1 - at else cfg.maxBufferSize + 1 - |s.buffer|
  }

  /** Synced, or waiting for a new snapshot. */
  ghost predicate Moved(s: State) {
    s.phase == Synced || (s.phase == Bootstrapping && s.pending)
  }

  lemma DiscardSnoc(init: seq<Diff>, last: Diff, id: int)
    ensures Discard(init + [last], id) == if last.final > id then Discard(init, id) + [last] else Discard(init, id)
  {
    assert (init + [last])[..|init|] == init;
  }

  /** Exactly the first `n` diffs end by `id`. */
  ghost predicate EndBy(buf: seq<Diff>, id: int, n: nat) {
    && n <= |buf|
    && (forall i | 0 <= i < n :: buf[i].final <= id)
    && (forall i | n <= i < |buf| :: buf[i].final > id)
  }

  lemma EndBySnoc(buf: seq<Diff>, init: seq<Diff>, last: Diff, id: int, n: nat)
    requires buf == init + [last] && last.final > id && EndBy(init, id, n)
    ensures EndBy(buf, id, n)
  {
  }

  lemma KeptSnoc(buf: seq<Diff>, init: seq<Diff>, last: Diff, id: int, n: nat)
    requires buf == init + [last] && last.final > id && n <= |init| && Discard(init, id) == init[n..]
    ensures Discard(buf, id) == buf[n..]
  {
    DiscardSnoc(init, last, id);
    assert buf[n..] == init[n..] + [last];
  }

  /** On a contiguous buffer, discarding drops a prefix. */
  lemma {:induction false} DiscardPrefix(buf: seq<Diff>, id: int) returns (n: nat)
    requires Contiguous(buf)
    ensures EndBy(buf, id, n) && Discard(buf, id) == buf[n..]
  {
    if buf == [] {
      n := 0;
    } else if buf[|buf| - 1].final <= id {
      AllDiscarded(buf, id);
      n := |buf|;
    } else {
      n := DiscardPrefix(buf[..|buf| - 1], id);
      SplitLast(buf);
      EndBySnoc(buf, buf[..|buf| - 1], buf[|buf| - 1], id, n);
      KeptSnoc(buf, buf[..|buf| - 1], buf[|buf| - 1], id, n);
    }
  }

  /** When the last diff of a contiguous buffer does not get past `id`, none does. */
  lemma {:induction false} AllDiscarded(buf: seq<Diff>, id: int)
    requires Contiguous(buf) && (buf != [] ==> buf[|buf| - 1].final <= id)
    ensures Discard(buf, id) == []
    ensures forall i | 0 <= i < |buf| :: buf[i].final <= id
  {
    if |buf| > 1 {
      assert buf[|buf| - 1].first == buf[|buf| - 2].final + 1;
    }
    if buf != [] {
      AllDiscarded(buf[..|buf| - 1], id);
    }
  }

  /** After discarding, a contiguous buffer aligns at its first diff or not at all; and when it does not,
      it is empty or lies wholly beyond the snapshot. */
  lemma AlignmentIsZeroOrNone(buf: seq<Diff>, id: int)
    requires Contiguous(buf)
    ensures var kept := Discard(buf, id); var idx := AlignmentIndex(kept, id);
            && (idx == 0 || idx == -1)
            && (idx == -1 ==> forall i | 0 <= i < |kept| :: kept[i].first > id + 1)
  {
    var n := DiscardPrefix(buf, id);
    var kept := buf[n..];
    SyncSafety.AlignmentFirst(kept, id, 0);
    forall i | 0 < i < |kept|
      ensures kept[i].first > id + 1
    {
      ContiguousGrows(buf, n, n + i);
      assert kept[0].final > id;
    }
  }

  lemma TryAlignWaits(cfg: Config, s: State, env: Env, at: int)
    requires s.phase == Bootstrapping && s.snapshot.Some? && !s.pending
    requires BufferedUpTo(s, at)
    ensures var s' := TryAlign(cfg, s, env);
            Moved(s') || (Waiting(cfg, s', at) && s'.snapshot == s.snapshot && |s'.buffer| <= |s.buffer|)
  {
    var id := s.snapshot.value.lastUpdateId;
    var kept := Discard(s.buffer, id);
    AlignmentIsZeroOrNone(s.buffer, id);
    KeptFollows(s, at);
    if AlignmentIndex(kept, id) == 0 {
      assert kept[0..] == kept;
      ReplayMoves(s, s.snapshot.value, kept, env);
    }
  }

  lemma ReplayMoves(s: State, snap: Snapshot, ds: seq<Diff>, env: Env)
    ensures Moved(Replay(s, snap, ds, env))
  {
  }

  /** What is kept of the buffer is still the end of the feed, and nothing is kept while the snapshot is ahead. */
  lemma KeptFollows(s: State, at: int)
    requires s.snapshot.Some? && BufferedUpTo(s, at)
    ensures var id := s.snapshot.value.lastUpdateId; var kept := Discard(s.buffer, id);
            BufferedUpTo(s.(buffer := kept), at) && (at <= id ==> kept == [])
  {
    var n := DiscardPrefix(s.buffer, s.snapshot.value.lastUpdateId);
    var kept := s.buffer[n..];
    assert forall i | 0 <= i < |kept| :: kept[i] == s.buffer[n + i];
  }

  /** A fetched snapshot leaves the handler synced, waiting, or with a new fetch on its way. */
  lemma FetchedWaits(cfg: Config, s: State, snap: Snapshot, env: Env, at: int)
    requires ValidConfig(cfg) && Disciplined(cfg, s) && s.fetches > 0 && BufferedUpTo(s, at)
    ensures var s' := CompleteFetch(cfg, s, Some(snap), false, env);
            Moved(s') || Waiting(cfg, s', at)
  {
    if !s.stale {
      TryAlignWaits(cfg, s.(pending := false, fetches := s.fetches - 1, snapshot := Some(snap)), env, at);
    }
  }

  /** While waiting, one more contiguous diff ends the wait or uses up patience. */
  lemma DeliveryProgress(cfg: Config, s: State, d: Diff, env: Env, at: int)
    requires ValidConfig(cfg) && Waiting(cfg, s, at)
    requires d.first == at + 1 && d.first <= d.final
    ensures Patience(cfg, s, at) > 0
    ensures var s' := HandleDiff(cfg, s, d, env);
            Moved(s') || (Waiting(cfg, s', d.final) && Patience(cfg, s', d.final) < Patience(cfg, s, at))
  {
    if at <= s.snapshot.value.lastUpdateId {
      AheadProgress(cfg, s, d, env, at);
    } else {
      BehindProgress(cfg, s, d, env, at);
    }
  }

  /** The snapshot is ahead: the diff is discarded or reaches the snapshot. */
  lemma AheadProgress(cfg: Config, s: State, d: Diff, env: Env, at: int)
    requires ValidConfig(cfg) && Waiting(cfg, s, at)
    requires d.first == at + 1 && d.first <= d.final && at <= s.snapshot.value.lastUpdateId
    ensures var s' := HandleDiff(cfg, s, d, env);
            Moved(s') || (Waiting(cfg, s', d.final) && Patience(cfg, s', d.final) < Patience(cfg, s, at))
  {
    var s1 := s.(buffer := s.buffer + [d]);
    BufferedSnoc(s, d, at);
    TryAlignWaits(cfg, s1, env, d.final);
    AlignmentIsZeroOrNone(s1.buffer, s.snapshot.value.lastUpdateId);
  }

  /** The snapshot is too old: the buffer grows until it overflows. */
  lemma BehindProgress(cfg: Config, s: State, d: Diff, env: Env, at: int)
    requires ValidConfig(cfg) && Waiting(cfg, s, at)
    requires d.first == at + 1 && d.first <= d.final && at > s.snapshot.value.lastUpdateId
    ensures var s' := HandleDiff(cfg, s, d, env);
            Moved(s') || (Waiting(cfg, s', d.final) && Patience(cfg, s', d.final) < Patience(cfg, s, at))
  {
    var s1 := s.(buffer := s.buffer + [d]);
    BufferedSnoc(s, d, at);
    TryAlignWaits(cfg, s1, env, d.final);
    BeyondGrows(cfg, s1, env);
  }

  lemma BufferedSnoc(s: State, d: Diff, at: int)
    requires BufferedUpTo(s, at) && d.first == at + 1 && d.first <= d.final
    ensures BufferedUpTo(s.(buffer := s.buffer + [d]), d.final)
  {
  }

  /** A buffer wholly beyond the snapshot is kept whole and has no alignment point. */
  lemma AllBeyond(buf: seq<Diff>, id: int)
    requires Contiguous(buf) && forall i | 0 <= i < |buf| :: buf[i].first > id + 1
    ensures Discard(buf, id) == buf && AlignmentIndex(buf, id) == -1
  {
    var n := DiscardPrefix(buf, id);
    assert buf != [] ==> buf[0].first <= buf[0].final;
    assert n == 0;
    SyncSafety.AlignmentFirst(buf, id, 0);
  }

  /** With a buffer beyond the snapshot an alignment does nothing until the buffer overflows. */
  lemma AlignBeyond(cfg: Config, s: State, env: Env)
    requires s.snapshot.Some? && Contiguous(s.buffer)
    requires forall i | 0 <= i < |s.buffer| :: s.buffer[i].first > s.snapshot.value.lastUpdateId + 1
    ensures TryAlign(cfg, s, env)
         == if |s.buffer| > cfg.maxBufferSize then Kickoff(s.(buffer := [], snapshot := None)) else s
  {
    AllBeyond(s.buffer, s.snapshot.value.lastUpdateId);
  }

  /** Nothing is discarded from a buffer that lies beyond the snapshot. */
  lemma BeyondGrows(cfg: Config, s: State, env: Env)
    requires s.snapshot.Some? && Contiguous(s.buffer)
    requires forall k | 0 <= k < |s.buffer| :: s.buffer[k].first > s.snapshot.value.lastUpdateId + 1
    ensures var s' := TryAlign(cfg, s, env); s'.snapshot.Some? ==> s'.buffer == s.buffer
  {
    AlignBeyond(cfg, s, env);
  }

  /** The state after delivering `ds` one by one. */
  ghost function AfterDeliveries(cfg: Config, s: State, ds: seq<Diff>, envs: seq<Env>): State
    requires |envs| == |ds|
    decreases |ds|
  {
    if ds == [] then s else AfterDeliveries(cfg, HandleDiff(cfg, s, ds[0], envs[0]), ds[1..], envs[1..])
  }

  lemma FirstDelivery(cfg: Config, s: State, ds: seq<Diff>, envs: seq<Env>, n: nat)
    requires 0 < n <= |ds| == |envs|
    ensures AfterDeliveries(cfg, s, ds[..n], envs[..n])
         == AfterDeliveries(cfg, HandleDiff(cfg, s, ds[0], envs[0]), ds[1..][..n - 1], envs[1..][..n - 1])
  {
    assert ds[..n][1..] == ds[1..][..n - 1] && envs[..n][1..] == envs[1..][..n - 1];
  }

  lemma FollowsRest(at: int, ds: seq<Diff>)
    requires Follows(at, ds) && ds != []
    ensures Follows(ds[0].final, ds[1..])
  {
    ContiguousSlice(ds, 1, |ds|, ds[1..]);
  }

  /** Bootstrap progress.  A handler that holds a snapshot and keeps receiving contiguous diffs becomes synced
      or asks for a new snapshot within `Patience` further diffs, whatever the book accepts or refuses. */
  lemma {:induction false} BoundedWait(cfg: Config, s: State, at: int, ds: seq<Diff>, envs: seq<Env>) returns (n: nat)
    requires ValidConfig(cfg) && Waiting(cfg, s, at)
    requires Follows(at, ds) && |envs| == |ds| && |ds| >= Patience(cfg, s, at)
    ensures 0 < n <= |ds| && n <= Patience(cfg, s, at)
    ensures Moved(AfterDeliveries(cfg, s, ds[..n], envs[..n]))
    decreases |ds|
  {
    assert Patience(cfg, s, at) > 0;
    DeliveryProgress(cfg, s, ds[0], envs[0], at);
    var s' := HandleDiff(cfg, s, ds[0], envs[0]);
    if Moved(s') {
      n := 1;
    } else {
      FollowsRest(at, ds);
      var m := BoundedWait(cfg, s', ds[0].final, ds[1..], envs[1..]);
      n := m + 1;
    }
    FirstDelivery(cfg, s, ds, envs, n);
  }

  // ----- which end a wait has

  predicate Refuses(env: Env) {
    env.applyFailsAt == Some(0)
  }

  lemma OneBuffered(d: Diff, id: int)
    requires d.first <= id + 1
    ensures Discard([d], id) == if d.final > id then [d] else []
    ensures AlignmentIndex(Discard([d], id), id) == if d.final > id then 0 else -1
    ensures [d][0..] == [d]
  {
    assert [d][..0] == [];
  }

  /** The snapshot is ahead of the feed: the diff that reaches past it makes the handler synced, unless the book refuses
      it and a new fetch starts; every other diff is discarded and the wait goes on. */
  lemma AheadDelivery(cfg: Config, s: State, d: Diff, env: Env, at: int, s': State)
    requires ValidConfig(cfg) && Waiting(cfg, s, at) && at <= s.snapshot.value.lastUpdateId
    requires d.first == at + 1 && d.first <= d.final && s' == HandleDiff(cfg, s, d, env)
    ensures s'.phase == Synced <==> d.final > s.snapshot.value.lastUpdateId && !Refuses(env)
    ensures s'.phase == Bootstrapping && s'.pending && s'.snapshot.None?
       <==> d.final > s.snapshot.value.lastUpdateId && Refuses(env)
    ensures d.final <= s.snapshot.value.lastUpdateId ==> Waiting(cfg, s', d.final) && s'.snapshot == s.snapshot
  {
    var id, s1 := s.snapshot.value.lastUpdateId, s.(buffer := [d]);
    assert s.buffer + [d] == [d];
    assert s' == TryAlign(cfg, s1, env);
    OneBuffered(d, id);
    if d.final > id {
      assert s' == Replay(s1, s.snapshot.value, [d], env);
    }
  }

  /** The snapshot is too old for the feed: nothing is discarded, the handler never becomes synced, and a new fetch
      starts exactly when the buffer is full. */
  lemma BehindDelivery(cfg: Config, s: State, d: Diff, env: Env, at: int, s': State)
    requires ValidConfig(cfg) && Waiting(cfg, s, at) && at > s.snapshot.value.lastUpdateId
    requires d.first == at + 1 && d.first <= d.final && s' == HandleDiff(cfg, s, d, env)
    ensures s'.phase == Bootstrapping && (s'.pending <==> |s.buffer| == cfg.maxBufferSize)
    ensures s'.pending ==> s'.snapshot.None? && s'.buffer == []
    ensures !s'.pending ==> Waiting(cfg, s', d.final) && s'.snapshot == s.snapshot && s'.buffer == s.buffer + [d]
  {
    var s1 := s.(buffer := s.buffer + [d]);
    BufferedSnoc(s, d, at);
    AlignBeyond(cfg, s1, env);
  }

  lemma {:induction false} LastDelivery(cfg: Config, s: State, ds: seq<Diff>, envs: seq<Env>, n: nat)
    requires n < |ds| == |envs|
    ensures AfterDeliveries(cfg, s, ds[..n + 1], envs[..n + 1])
         == HandleDiff(cfg, AfterDeliveries(cfg, s, ds[..n], envs[..n]), ds[n], envs[n])
    decreases n
  {
    FirstDelivery(cfg, s, ds, envs, n + 1);
    if n > 0 {
      FirstDelivery(cfg, s, ds, envs, n);
      LastDelivery(cfg, HandleDiff(cfg, s, ds[0], envs[0]), ds[1..], envs[1..], n - 1);
    } else {
      assert ds[1..][..0] == [] && envs[1..][..0] == [] && ds[..0] == [] && envs[..0] == [];
    }
  }

  /** The id delivered before position `n` of a feed. */
  lemma NextFollows(at: int, ds: seq<Diff>, n: nat)
    requires Follows(at, ds) && n < |ds|
    ensures ds[n].first == IdBefore(at, ds, n) + 1 && ds[n].first <= ds[n].final
  {
  }

  /** As long as the feed stays behind the snapshot the handler keeps waiting for it. */
  lemma {:induction false} AheadKeepsWaiting(cfg: Config, s: State, at: int, ds: seq<Diff>, envs: seq<Env>, n: nat)
    requires ValidConfig(cfg) && Waiting(cfg, s, at) && at <= s.snapshot.value.lastUpdateId
    requires Follows(at, ds) && n <= |ds| == |envs|
    requires forall i | 0 <= i < n :: ds[i].final <= s.snapshot.value.lastUpdateId
    ensures var s' := AfterDeliveries(cfg, s, ds[..n], envs[..n]);
            Waiting(cfg, s', IdBefore(at, ds, n)) && s'.snapshot == s.snapshot
    decreases n
  {
    if n > 0 {
      AheadKeepsWaiting(cfg, s, at, ds, envs, n - 1);
      LastDelivery(cfg, s, ds, envs, n - 1);
      NextFollows(at, ds, n - 1);
      AheadDelivery(cfg, AfterDeliveries(cfg, s, ds[..n - 1], envs[..n - 1]), ds[n - 1], envs[n - 1],
                    IdBefore(at, ds, n - 1), AfterDeliveries(cfg, s, ds[..n], envs[..n]));
    }
  }

  /** How a wait for the feed ends: with the first diff that reaches past the snapshot.  Then the handler is synced if
      the book takes that diff, and fetches a new snapshot if it does not. */
  lemma AheadWaitEnds(cfg: Config, s: State, at: int, ds: seq<Diff>, envs: seq<Env>, n: nat)
    requires ValidConfig(cfg) && Waiting(cfg, s, at) && at <= s.snapshot.value.lastUpdateId
    requires Follows(at, ds) && n < |ds| == |envs|
    requires forall i | 0 <= i < n :: ds[i].final <= s.snapshot.value.lastUpdateId
    requires ds[n].final > s.snapshot.value.lastUpdateId
    ensures var s' := AfterDeliveries(cfg, s, ds[..n + 1], envs[..n + 1]);
            && (s'.phase == Synced <==> !Refuses(envs[n]))
            && (s'.phase == Bootstrapping && s'.pending && s'.snapshot.None? <==> Refuses(envs[n]))
  {
    AheadKeepsWaiting(cfg, s, at, ds, envs, n);
    LastDelivery(cfg, s, ds, envs, n);
    NextFollows(at, ds, n);
    AheadDelivery(cfg, AfterDeliveries(cfg, s, ds[..n], envs[..n]), ds[n], envs[n], IdBefore(at, ds, n),
                  AfterDeliveries(cfg, s, ds[..n + 1], envs[..n + 1]));
  }

  /** How a wait with too old a snapshot goes: never synced, every diff is buffered until the buffer is full, and the
      next one empties it and starts a new fetch. */
  lemma {:induction false} BehindWaitEnds(cfg: Config, s: State, at: int, ds: seq<Diff>, envs: seq<Env>, n: nat)
    requires ValidConfig(cfg) && Waiting(cfg, s, at) && at > s.snapshot.value.lastUpdateId
    requires Follows(at, ds) && n <= |ds| == |envs| && |s.buffer| + n <= cfg.maxBufferSize + 1
    ensures var s' := AfterDeliveries(cfg, s, ds[..n], envs[..n]);
            && s'.phase == Bootstrapping
            && (|s.buffer| + n <= cfg.maxBufferSize ==>
                  Waiting(cfg, s', IdBefore(at, ds, n)) && s'.snapshot == s.snapshot && s'.buffer == s.buffer + ds[..n])
            && (|s.buffer| + n == cfg.maxBufferSize + 1 ==> s'.pending && s'.snapshot.None? && s'.buffer == [])
    decreases n
  {
    if n > 0 {
      var before := AfterDeliveries(cfg, s, ds[..n - 1], envs[..n - 1]);
      BehindWaitEnds(cfg, s, at, ds, envs, n - 1);
      LastDelivery(cfg, s, ds, envs, n - 1);
      NextFollows(at, ds, n - 1);
      BehindStays(s, at, ds, n - 1);
      BehindDelivery(cfg, before, ds[n - 1], envs[n - 1], IdBefore(at, ds, n - 1),
                     AfterDeliveries(cfg, s, ds[..n], envs[..n]));
      BufferedOneMore(s.buffer, ds, n);
    }
  }

  lemma BufferedOneMore(buf: seq<Diff>, ds: seq<Diff>, n: nat)
    requires 0 < n <= |ds|
    ensures buf + ds[..n] == buf + ds[..n - 1] + [ds[n - 1]]
  {
  }

  /** A feed that has passed the snapshot does not come back. */
  lemma BehindStays(s: State, at: int, ds: seq<Diff>, n: nat)
    requires s.snapshot.Some? && at > s.snapshot.value.lastUpdateId && Follows(at, ds) && n <= |ds|
    ensures IdBefore(at, ds, n) > s.snapshot.value.lastUpdateId
  {
    if n > 0 {
      FinalsAscend(ds, 0, n - 1);
    }
  }

  /** The id of the last delivery. */
  ghost function DeliveredId(from: int, acts: seq<Action>): int {
    FinalId(from, Delivered(acts))
  }

  /** Along every run on a contiguous feed the buffer is the contiguous end of what was delivered, so the
      bound above applies as soon as a snapshot has been fetched. */
  lemma {:induction false} BufferFollowsFeed(cfg: Config, ss: seq<State>, acts: seq<Action>, from: int)
    requires ValidConfig(cfg) && Run(cfg, ss, acts)
    requires Follows(from, Delivered(acts))
    ensures BufferedUpTo(ss[|acts|], DeliveredId(from, acts))
    ensures ss[|acts|].phase == Bootstrapping && ss[|acts|].snapshot.Some? ==>
              Waiting(cfg, ss[|acts|], DeliveredId(from, acts))
  {
    if acts != [] {
      var init, a := acts[..|acts| - 1], acts[|acts| - 1];
      RunPrefix(cfg, ss, acts);
      FetchDiscipline(cfg, ss[..|acts|], init);
      FollowsPrefix(from, Delivered(init), Delivered(acts));
      BufferFollowsFeed(cfg, ss[..|acts|], init, from);
      if a.Deliver? {
        DeliveredSnoc(from, acts);
      }
      StepFollowsFeed(cfg, ss[|acts| - 1], a, DeliveredId(from, init));
    }
  }

  lemma DeliveredSnoc(from: int, acts: seq<Action>)
    requires acts != [] && acts[|acts| - 1].Deliver?
    requires Follows(from, Delivered(acts))
    ensures var d := acts[|acts| - 1].diff;
            d.first == DeliveredId(from, acts[..|acts| - 1]) + 1 && d.first <= d.final
  {
    var ds := Delivered(acts);
    assert ds[..|ds| - 1] == Delivered(acts[..|acts| - 1]);
  }

  lemma StepFollowsFeed(cfg: Config, s: State, a: Action, at: int)
    requires ValidConfig(cfg) && Disciplined(cfg, s) && Enabled(s, a) && BufferedUpTo(s, at)
    requires s.phase == Bootstrapping && s.snapshot.Some? ==> Waiting(cfg, s, at)
    requires a.Deliver? ==> a.diff.first == at + 1 && a.diff.first <= a.diff.final
    ensures var s' := Step(cfg, s, a); var at' := if a.Deliver? then a.diff.final else at;
            BufferedUpTo(s', at') && (s'.phase == Bootstrapping && s'.snapshot.Some? ==> Waiting(cfg, s', at'))
  {
    if a.Deliver? {
      StepFollows(cfg, s, a.diff, a.env, at);
    } else if a.result.Some? {
      FetchedFollows(cfg, s, a.result.value, a.env, at);
    }
  }

  lemma FollowsPrefix(from: int, ds: seq<Diff>, es: seq<Diff>)
    requires ds <= es && Follows(from, es)
    ensures Follows(from, ds)
  {
    ContiguousSlice(es, 0, |ds|, ds);
    assert ds != [] ==> ds[0] == es[0];
  }

  lemma StepFollows(cfg: Config, s: State, d: Diff, env: Env, at: int)
    requires ValidConfig(cfg) && Disciplined(cfg, s) && BufferedUpTo(s, at)
    requires s.phase == Bootstrapping && s.snapshot.Some? ==> Waiting(cfg, s, at)
    requires d.first == at + 1 && d.first <= d.final
    ensures var s' := HandleDiff(cfg, s, d, env);
            BufferedUpTo(s', d.final) && (s'.phase == Bootstrapping && s'.snapshot.Some? ==> Waiting(cfg, s', d.final))
  {
    if s.phase == Bootstrapping && s.snapshot.Some? {
      BufferedSnoc(s, d, at);
      StepDisciplined(cfg, s, Deliver(d, env));
      TryAlignWaits(cfg, s.(buffer := s.buffer + [d]), env, d.final);
      MovedFollows(cfg, HandleDiff(cfg, s, d, env), d.final);
    } else {
      NotAligning(cfg, s, d, env);
      BufferedAnew(s, HandleDiff(cfg, s, d, env), d, at);
    }
  }

  lemma BufferedAnew(s: State, s': State, d: Diff, at: int)
    requires BufferedUpTo(s, at) && d.first == at + 1 && d.first <= d.final
    requires s'.buffer == [] || s'.buffer == s.buffer + [d] || s'.buffer == [d]
    ensures BufferedUpTo(s', d.final)
  {
    BufferedSnoc(s, d, at);
  }

  /** Without a snapshot a delivered diff is buffered, starts the buffer anew, or leaves it empty. */
  lemma NotAligning(cfg: Config, s: State, d: Diff, env: Env)
    requires Disciplined(cfg, s) && !(s.phase == Bootstrapping && s.snapshot.Some?)
    ensures var s' := HandleDiff(cfg, s, d, env);
            s'.snapshot.None? && (s'.buffer == [] || s'.buffer == s.buffer + [d] || s'.buffer == [d])
  {
  }

  lemma MovedFollows(cfg: Config, s: State, at: int)
    requires ValidConfig(cfg) && Disciplined(cfg, s)
    requires (s.phase == Synced || s.pending) ==> s.buffer == []
    requires Moved(s) || Waiting(cfg, s, at)
    ensures BufferedUpTo(s, at) && (s.phase == Bootstrapping && s.snapshot.Some? ==> Waiting(cfg, s, at))
  {
  }

  lemma FetchedFollows(cfg: Config, s: State, snap: Snapshot, env: Env, at: int)
    requires ValidConfig(cfg) && Disciplined(cfg, s) && s.fetches > 0 && BufferedUpTo(s, at)
    ensures var s' := CompleteFetch(cfg, s, Some(snap), false, env);
            BufferedUpTo(s', at) && (s'.phase == Bootstrapping && s'.snapshot.Some? ==> Waiting(cfg, s', at))
  {
    FetchedWaits(cfg, s, snap, env, at);
    StepDisciplined(cfg, s, Fetched(Some(snap), false, env));
  }
}
