/** Replay of a persisted feed from a checkpoint, with a reseed at every gap for which a checkpoint exists. */
module Replay {
  import opened Levels
  import opened Feed
  import OrderBook
  import Rewinding
  import opened Options

  datatype L2Event = L2Event(eventTime: int, book: Snapshot)

  /** A recorded gap: the event times on either side of it. */
  datatype Gap = Gap(from: int, to: int)

  /** The pair of event times handed to the speed controller; no previous time right after a (re)seed. */
  datatype Pace = Pace(prev: Option<int>, next: int)

  datatype Outcome = Completed | NoCheckpoint | QueryFailed | WaitFailed | PublishFailed | Cancelled

  /** What the environment answers while diff `i` is processed. */
  datatype ReplayEnv = ReplayEnv(
    gapCheckpoint: nat -> Option<Snapshot>,
    waitFails: nat -> bool,
    publishFails: nat -> bool,
    cancelled: nat -> bool)

  // ----- what a replay should do

  predicate GapBefore(diffs: seq<Diff>, i: nat)
    requires i < |diffs|
  {
    i > 0 && diffs[i].first != diffs[i - 1].final + 1
  }

  predicate ReseedsBefore(diffs: seq<Diff>, env: ReplayEnv, i: nat)
    requires i < |diffs|
  {
    GapBefore(diffs, i) && env.gapCheckpoint(i).Some?
  }

  /** The snapshot last loaded before the first `n` diffs were done, and the position of the first diff applied to
      it. */
  function Seed(checkpoint: Snapshot, diffs: seq<Diff>, env: ReplayEnv, n: nat): (seed: (Snapshot, nat))
    requires n <= |diffs|
    ensures seed.1 <= n && (n > 0 ==> seed.1 < n)
  {
    if n == 0 then (checkpoint, 0)
    else if ReseedsBefore(diffs, env, n - 1) then (env.gapCheckpoint(n - 1).value, n - 1)
    else
      var seed := Seed(checkpoint, diffs, env, n - 1);
      assert n - 1 == 0 || seed.1 < n - 1;
      seed
  }

  /** The book after the first `n` diffs: the seed and every diff since. */
  function BookAfter(checkpoint: Snapshot, diffs: seq<Diff>, env: ReplayEnv, n: nat): Depth
    requires n <= |diffs|
  {
    var seed := Seed(checkpoint, diffs, env, n);
    ApplyAll(LoadDepth(seed.0), diffs[seed.1..n])
  }

  function GapsWithin(diffs: seq<Diff>, n: nat): seq<Gap>
    requires n <= |diffs|
  {
    if n == 0 then []
    else if GapBefore(diffs, n - 1) then
      GapsWithin(diffs, n - 1) + [Gap(diffs[n - 2].eventTime, diffs[n - 1].eventTime)]
    else GapsWithin(diffs, n - 1)
  }

  function PaceBefore(diffs: seq<Diff>, env: ReplayEnv, i: nat): Pace
    requires i < |diffs|
  {
    Pace(if i == 0 || ReseedsBefore(diffs, env, i) then None else Some(diffs[i - 1].eventTime), diffs[i].eventTime)
  }

  /** The first `n` paces. */
  function Paces(diffs: seq<Diff>, env: ReplayEnv, n: nat): (ps: seq<Pace>)
    requires n <= |diffs|
    ensures |ps| == n
  {
    if n == 0 then [] else Paces(diffs, env, n - 1) + [PaceBefore(diffs, env, n - 1)]
  }

  /** The first `n` events: one per diff, in order, each with that diff's event time, id and book. */
  ghost function Events(checkpoint: Snapshot, diffs: seq<Diff>, env: ReplayEnv, depth: int, n: nat): (es: seq<L2Event>)
    requires n <= |diffs|
    ensures |es| == n
  {
    if n == 0 then []
    else Events(checkpoint, diffs, env, depth, n - 1) + [EventFor(checkpoint, diffs, env, depth, n - 1)]
  }

  ghost function EventFor(checkpoint: Snapshot, diffs: seq<Diff>, env: ReplayEnv, depth: int, i: nat): L2Event
    requires i < |diffs|
  {
    L2Event(diffs[i].eventTime,
            OrderBook.SnapshotOf(BookAfter(checkpoint, diffs, env, i + 1), diffs[i].final, depth))
  }

  /** How many diffs have been looked at when the replay stops: one that is interrupted while waiting or
      publishing has been counted and applied, but not published. */
  function Met(published: nat, outcome: Outcome): nat {
    if outcome == WaitFailed || outcome == PublishFailed then published + 1 else published
  }

  /** Diff `i` gives no reason to stop. */
  predicate Passes(env: ReplayEnv, i: nat) {
    !env.waitFails(i) && !env.publishFails(i) && !env.cancelled(i)
  }

  predicate RunsThrough(env: ReplayEnv, n: nat) {
    n == 0 || (RunsThrough(env, n - 1) && Passes(env, n - 1))
  }

  lemma {:induction false} RunsThroughIs(env: ReplayEnv, n: nat)
    ensures RunsThrough(env, n) <==> forall i: nat | i < n :: Passes(env, i)
  {
    if n > 0 {
      RunsThroughIs(env, n - 1);
    }
  }

  /** The reason a replay stopped, which is the first one there was; a clean completion has published every diff. */
  ghost predicate Stopped(ds: seq<Diff>, env: ReplayEnv, published: nat, outcome: Outcome) {
    match outcome
    case Completed => published == |ds| && RunsThrough(env, published)
    case WaitFailed => published < |ds| && RunsThrough(env, published) && env.waitFails(published)
    case PublishFailed =>
      published < |ds| && RunsThrough(env, published) && !env.waitFails(published) && env.publishFails(published)
    case Cancelled =>
      && 0 < published <= |ds| && RunsThrough(env, published - 1)
      && !env.waitFails(published - 1) && !env.publishFails(published - 1) && env.cancelled(published - 1)
    case _ => false
  }

  lemma StopsHere(ds: seq<Diff>, env: ReplayEnv, i: nat)
    requires i < |ds| && RunsThrough(env, i)
    ensures env.waitFails(i) ==> Stopped(ds, env, i, WaitFailed)
    ensures !env.waitFails(i) && env.publishFails(i) ==> Stopped(ds, env, i, PublishFailed)
    ensures !env.waitFails(i) && !env.publishFails(i) && env.cancelled(i) ==> Stopped(ds, env, i + 1, Cancelled)
    ensures Passes(env, i) ==> RunsThrough(env, i + 1)
  {
  }

  /** The first diff that gives a reason to stop, or the end. */
  ghost predicate FirstStop(env: ReplayEnv, length: nat, i: nat) {
    i <= length && RunsThrough(env, i) && (i < length ==> !Passes(env, i))
  }

  lemma OneFirstStop(env: ReplayEnv, length: nat, i: nat, j: nat)
    requires FirstStop(env, length, i) && FirstStop(env, length, j)
    ensures i == j
  {
    RunsThroughIs(env, i);
    RunsThroughIs(env, j);
  }

  /** So what the environment answers decides when a replay stops and why. */
  lemma StoppedOnce(ds: seq<Diff>, env: ReplayEnv, m: nat, a: Outcome, n: nat, b: Outcome)
    requires Stopped(ds, env, m, a) && Stopped(ds, env, n, b)
    ensures m == n && a == b
  {
    var i, j := if a == Cancelled then m - 1 else m, if b == Cancelled then n - 1 else n;
    OneFirstStop(env, |ds|, i, j);
  }

  // ----- the engine

  class Engine {
    const depth: int
    const book: OrderBook.Book

    // What has been sent to the stream, to the control stream, to the repository and to the speed controller.
    var out: seq<L2Event>
    var controls: seq<Gap>
    var gapRecords: seq<Gap>
    var paces: seq<Pace>

    constructor (depth: int)
      ensures fresh(book) && book.Valid() && this.depth == depth
      ensures out == [] && controls == [] && gapRecords == [] && paces == []
    {
      this.depth := depth;
      book := new OrderBook.Book();
      out, controls, gapRecords, paces := [], [], [], [];
    }

    /** The first `n` diffs have been published, each with its own event time, id and book, in order. */
    ghost predicate Published(c: Snapshot, ds: seq<Diff>, env: ReplayEnv, n: nat)
      reads this
    {
      n <= |ds| && out == Events(c, ds, env, depth, n)
    }

    /** Every id discontinuity among the first `n` diffs was announced and recorded once, and every diff was
        paced against the right predecessor. */
    ghost predicate Accounted(ds: seq<Diff>, env: ReplayEnv, n: nat)
      reads this
    {
      n <= |ds| && GapsRecorded(ds, n) && Paced(ds, env, n)
    }

    ghost predicate GapsRecorded(ds: seq<Diff>, n: nat)
      requires n <= |ds|
      reads this
    {
      gapRecords == controls == GapsWithin(ds, n)
    }

    ghost predicate Paced(ds: seq<Diff>, env: ReplayEnv, n: nat)
      requires n <= |ds|
      reads this
    {
      paces == Paces(ds, env, n)
    }

    /** Loads the starting checkpoint and replays; says how many events and gaps there were and why it stopped. */
    method Run(checkpoint: Option<Snapshot>, diffs: Option<seq<Diff>>, env: ReplayEnv)
      returns (published: nat, gaps: nat, outcome: Outcome)
      requires out == [] && controls == [] && gapRecords == [] && paces == [] && book.Valid()
      modifies this, book
      ensures outcome == NoCheckpoint <==> checkpoint.None?
      ensures outcome == QueryFailed <==> checkpoint.Some? && diffs.None?
      ensures checkpoint.None? || diffs.None? ==> published == gaps == |out| == |gapRecords| == 0
      ensures checkpoint.Some? && diffs.Some? ==>
                && Published(checkpoint.value, diffs.value, env, published)
                && Accounted(diffs.value, env, Met(published, outcome)) && gaps == |gapRecords|
                && Stopped(diffs.value, env, published, outcome)
    {
      if checkpoint.None? {
        return 0, 0, NoCheckpoint;
      }
      book.Reset();
      book.LoadSnapshot(checkpoint.value);
      if diffs.None? {
        return 0, 0, QueryFailed;
      }
      assert diffs.value[0..0] == [];
      published, gaps, outcome := ReplayLoop(diffs.value, env, checkpoint.value);
    }

    method ReplayLoop(ds: seq<Diff>, env: ReplayEnv, ghost c: Snapshot)
      returns (published: nat, gaps: nat, outcome: Outcome)
      requires out == [] && controls == [] && gapRecords == [] && paces == []
      requires book.Valid() && book.Contents() == BookAfter(c, ds, env, 0)
      modifies this, book
      ensures Published(c, ds, env, published)
      ensures Accounted(ds, env, Met(published, outcome)) && gaps == |gapRecords|
      ensures outcome != NoCheckpoint && outcome != QueryFailed && Stopped(ds, env, published, outcome)
    {
      published, gaps := 0, 0;
      var prevEventTime := None;
      for i := 0 to |ds|
        invariant book.Valid() && book.Contents() == BookAfter(c, ds, env, i)
        invariant published == i && Published(c, ds, env, i)
        invariant Accounted(ds, env, i) && gaps == |gapRecords|
        invariant prevEventTime == if i == 0 then None else Some(ds[i - 1].eventTime)
        invariant RunsThrough(env, i)
      {
        StopsHere(ds, env, i);
        var gapFound, err;
        gapFound, prevEventTime, err := ReplayOne(i, ds, env, c, prevEventTime);
        if gapFound {
          gaps := gaps + 1;
        }
        if err.Some? {
          return published, gaps, err.value;
        }
        published := published + 1;
        if env.cancelled(i) {
          return published, gaps, Cancelled;
        }
      }
      return published, gaps, Completed;
    }

    /** One iteration: handle a gap before diff `i`, then apply and publish it. */
    method ReplayOne(i: nat, ds: seq<Diff>, env: ReplayEnv, ghost c: Snapshot, prevEventTime: Option<int>)
      returns (gapFound: bool, time: Option<int>, err: Option<Outcome>)
      requires i < |ds| && book.Valid() && book.Contents() == BookAfter(c, ds, env, i)
      requires Published(c, ds, env, i) && Accounted(ds, env, i)
      requires prevEventTime == if i == 0 then None else Some(ds[i - 1].eventTime)
      modifies this, book
      ensures book.Valid() && book.Contents() == BookAfter(c, ds, env, i + 1)
      ensures Accounted(ds, env, i + 1) && |gapRecords| == |old(gapRecords)| + if gapFound then 1 else 0
      ensures err == if env.waitFails(i) then Some(WaitFailed)
                     else if env.publishFails(i) then Some(PublishFailed) else None
      ensures Published(c, ds, env, if err.None? then i + 1 else i)
      ensures err.None? ==> time == Some(ds[i].eventTime)
    {
      var prev;
      gapFound, prev := MaybeHandleGap(i, ds, env, c, prevEventTime);
      time, err := ApplyAndPublish(i, ds, env, c, prev);
    }

    /** Compares the ids on either side of diff `i`; the pacing clock restarts exactly after a reseed. */
    method MaybeHandleGap(i: nat, ds: seq<Diff>, env: ReplayEnv, ghost c: Snapshot, prevEventTime: Option<int>)
      returns (gapFound: bool, time: Option<int>)
      requires i < |ds| && book.Valid() && book.Contents() == BookAfter(c, ds, env, i)
      requires GapsRecorded(ds, i)
      modifies this`controls, this`gapRecords, book
      ensures book.Valid()
      ensures ApplyDiff(book.Contents(), ds[i]) == BookAfter(c, ds, env, i + 1)
      ensures gapFound == GapBefore(ds, i)
      ensures time == if ReseedsBefore(ds, env, i) then None else prevEventTime
      ensures GapsRecorded(ds, i + 1) && |gapRecords| == |old(gapRecords)| + if gapFound then 1 else 0
    {
      BookStep(c, ds, env, i);
      if i == 0 || ds[i].first == ds[i - 1].final + 1 {
        return false, prevEventTime;
      }
      var reseeded := HandleGap(ds[i - 1].eventTime, ds[i].eventTime, env.gapCheckpoint(i));
      if reseeded {
        return true, None;
      }
      return true, prevEventTime;
    }

    /** Announces and records the gap, then reseeds from the nearest checkpoint if there is one. */
    method HandleGap(gapFrom: int, gapTo: int, newCheckpoint: Option<Snapshot>) returns (reseeded: bool)
      requires book.Valid()
      modifies this`controls, this`gapRecords, book
      ensures book.Valid()
      ensures controls == old(controls) + [Gap(gapFrom, gapTo)]
      ensures gapRecords == old(gapRecords) + [Gap(gapFrom, gapTo)]
      ensures reseeded == newCheckpoint.Some?
      ensures book.Contents() == if reseeded then LoadDepth(newCheckpoint.value) else old(book.Contents())
    {
      controls := controls + [Gap(gapFrom, gapTo)];
      gapRecords := gapRecords + [Gap(gapFrom, gapTo)];
      if newCheckpoint.None? {
        return false;
      }
      book.Reset();
      book.LoadSnapshot(newCheckpoint.value);
      return true;
    }

    /** Applies diff `i`, waits for its turn and publishes the book. */
    method ApplyAndPublish(i: nat, ds: seq<Diff>, env: ReplayEnv, ghost c: Snapshot, prevEventTime: Option<int>)
      returns (time: Option<int>, err: Option<Outcome>)
      requires i < |ds| && book.Valid() && ApplyDiff(book.Contents(), ds[i]) == BookAfter(c, ds, env, i + 1)
      requires Published(c, ds, env, i) && Paced(ds, env, i)
      requires prevEventTime == PaceBefore(ds, env, i).prev
      modifies this`out, this`paces, book
      ensures book.Valid() && book.Contents() == BookAfter(c, ds, env, i + 1)
      ensures Paced(ds, env, i + 1) && Published(c, ds, env, if err.None? then i + 1 else i)
      ensures err == if env.waitFails(i) then Some(WaitFailed)
                     else if env.publishFails(i) then Some(PublishFailed) else None
      ensures err.None? ==> time == Some(ds[i].eventTime)
    {
      var diff := ds[i];
      ApplyPaced(i, ds, env, prevEventTime);
      if env.waitFails(i) {
        return prevEventTime, Some(WaitFailed);
      }
      err := PublishBook(i, ds, env, c);
      time := Some(diff.eventTime);
    }

    method PublishBook(i: nat, ds: seq<Diff>, env: ReplayEnv, ghost c: Snapshot) returns (err: Option<Outcome>)
      requires i < |ds| && Published(c, ds, env, i)
      requires book.Contents() == BookAfter(c, ds, env, i + 1) && book.lastUpdateId == ds[i].final
      modifies this`out
      ensures err == if env.publishFails(i) then Some(PublishFailed) else None
      ensures Published(c, ds, env, if err.None? then i + 1 else i)
    {
      var snap := book.Snapshot(depth);
      if env.publishFails(i) {
        return Some(PublishFailed);
      }
      Publish(i, ds, env, c, L2Event(ds[i].eventTime, snap));
      return None;
    }

    method ApplyPaced(i: nat, ds: seq<Diff>, env: ReplayEnv, prevEventTime: Option<int>)
      requires i < |ds| && book.Valid() && Paced(ds, env, i)
      requires prevEventTime == PaceBefore(ds, env, i).prev
      modifies this`paces, book
      ensures book.Valid() && book.Contents() == ApplyDiff(old(book.Contents()), ds[i])
      ensures book.lastUpdateId == ds[i].final && Paced(ds, env, i + 1)
    {
      book.Apply(ds[i]);
      paces := paces + [Pace(prevEventTime, ds[i].eventTime)];
    }

    method Publish(i: nat, ds: seq<Diff>, env: ReplayEnv, ghost c: Snapshot, event: L2Event)
      requires i < |ds| && Published(c, ds, env, i) && event == EventFor(c, ds, env, depth, i)
      modifies this`out
      ensures Published(c, ds, env, i + 1)
    {
      out := out + [event];
    }
  }

  lemma BookStep(c: Snapshot, ds: seq<Diff>, env: ReplayEnv, i: nat)
    requires i < |ds|
    ensures BookAfter(c, ds, env, i + 1)
         == ApplyDiff(if ReseedsBefore(ds, env, i) then LoadDepth(env.gapCheckpoint(i).value)
                      else BookAfter(c, ds, env, i), ds[i])
  {
    var seed := Seed(c, ds, env, i + 1);
    var run := ds[seed.1..i + 1];
    assert run[..|run| - 1] == ds[seed.1..i] && run[|run| - 1] == ds[i];
    if ReseedsBefore(ds, env, i) {
      assert seed == (env.gapCheckpoint(i).value, i);
      assert run == [ds[i]] && run[..0] == [];
      assert ApplyAll(LoadDepth(seed.0), run[..0]) == LoadDepth(seed.0);
    } else {
      assert seed == Seed(c, ds, env, i);
    }
  }

  // ----- accounting

  lemma LastEvent(c: Snapshot, ds: seq<Diff>, env: ReplayEnv, depth: int, n: nat)
    requires 0 < n <= |ds|
    ensures forall i | 0 <= i < n - 1 :: Events(c, ds, env, depth, n)[i] == Events(c, ds, env, depth, n - 1)[i]
    ensures Events(c, ds, env, depth, n)[n - 1] == EventFor(c, ds, env, depth, n - 1)
  {
  }

  /** A gap before diff `i` for which a checkpoint was found. */
  predicate FoundAt(ds: seq<Diff>, env: ReplayEnv, i: nat)
    requires i < |ds|
  {
    i > 0 && ds[i].first != ds[i - 1].final + 1 && env.gapCheckpoint(i).Some?
  }

  /** The last of them among the first `n` diffs. */
  predicate LastFound(ds: seq<Diff>, env: ReplayEnv, n: nat, i: nat)
    requires i < n <= |ds|
  {
    FoundAt(ds, env, i) && forall j | i < j < n :: !FoundAt(ds, env, j)
  }

  lemma {:induction false} SeedAtGap(c: Snapshot, ds: seq<Diff>, env: ReplayEnv, n: nat, i: nat)
    requires i < n <= |ds| && LastFound(ds, env, n, i)
    ensures Seed(c, ds, env, n) == (env.gapCheckpoint(i).value, i)
  {
    if i < n - 1 {
      assert !FoundAt(ds, env, n - 1);
      SeedAtGap(c, ds, env, n - 1, i);
    }
  }

  lemma {:induction false} SeedAtStart(c: Snapshot, ds: seq<Diff>, env: ReplayEnv, n: nat)
    requires n <= |ds| && forall j | 0 <= j < n :: !FoundAt(ds, env, j)
    ensures Seed(c, ds, env, n) == (c, 0)
  {
    if n > 0 {
      assert !FoundAt(ds, env, n - 1);
      SeedAtStart(c, ds, env, n - 1);
    }
  }

  /** Which snapshot the book stands on: the checkpoint found for the last gap that had one, whatever its id, counted
      from the diff after that gap; the starting checkpoint if no gap had one. */
  lemma SeedIs(c: Snapshot, ds: seq<Diff>, env: ReplayEnv, n: nat)
    requires n <= |ds|
    ensures forall i | 0 <= i < n && LastFound(ds, env, n, i) :: Seed(c, ds, env, n) == (env.gapCheckpoint(i).value, i)
    ensures (forall i | 0 <= i < n :: !FoundAt(ds, env, i)) ==> Seed(c, ds, env, n) == (c, 0)
  {
    forall i | 0 <= i < n && LastFound(ds, env, n, i)
      ensures Seed(c, ds, env, n) == (env.gapCheckpoint(i).value, i)
    {
      SeedAtGap(c, ds, env, n, i);
    }
    if forall i | 0 <= i < n :: !FoundAt(ds, env, i) {
      SeedAtStart(c, ds, env, n);
    }
  }

  /** Entry by entry: what was published for diff `i`: its event time, its final id, and the best levels of the book
      made of the seed and every diff since, this one included. */
  lemma PublishedAt(c: Snapshot, ds: seq<Diff>, env: ReplayEnv, depth: int, n: nat, i: nat)
    requires i < n <= |ds|
    ensures var event, seed := Events(c, ds, env, depth, n)[i], Seed(c, ds, env, i + 1);
            var book := ApplyAll(LoadDepth(seed.0), ds[seed.1..i + 1]);
            && event.eventTime == ds[i].eventTime && event.book.lastUpdateId == ds[i].final
            && event.book.bids == TopLevels(Bid, book.bids, depth)
            && event.book.asks == TopLevels(Ask, book.asks, depth)
  {
    EventAt(c, ds, env, depth, n, i);
  }

  lemma {:induction false} EventAt(c: Snapshot, ds: seq<Diff>, env: ReplayEnv, depth: int, n: nat, i: nat)
    requires i < n <= |ds|
    ensures Events(c, ds, env, depth, n)[i] == EventFor(c, ds, env, depth, i)
  {
    LastEvent(c, ds, env, depth, n);
    if i < n - 1 {
      EventAt(c, ds, env, depth, n - 1, i);
    }
  }

  /** Diff `i` is paced towards its own event time: from that of the diff before it, or from none if it is the first or
      the first after a reseed. */
  lemma {:induction false} PacedAt(ds: seq<Diff>, env: ReplayEnv, n: nat, i: nat)
    requires i < n <= |ds|
    ensures Paces(ds, env, n)[i].next == ds[i].eventTime
    ensures Paces(ds, env, n)[i].prev.None? <==> i == 0 || FoundAt(ds, env, i)
    ensures Paces(ds, env, n)[i].prev.Some? ==> Paces(ds, env, n)[i].prev.value == ds[i - 1].eventTime
  {
    if i < n - 1 {
      PacedAt(ds, env, n - 1, i);
    }
  }

  ghost function GapPositions(ds: seq<Diff>, n: nat): set<nat>
    requires n <= |ds|
  {
    set i: nat | 0 < i < n && ds[i].first != ds[i - 1].final + 1
  }

  lemma GapPositionsStep(ds: seq<Diff>, n: nat)
    requires n < |ds|
    ensures GapPositions(ds, n + 1) == if GapBefore(ds, n) then GapPositions(ds, n) + {n} else GapPositions(ds, n)
  {
  }

  /** The number of recorded gaps is the number of adjacent id discontinuities. */
  lemma {:induction false} GapCount(ds: seq<Diff>, n: nat)
    requires n <= |ds|
    ensures |GapsWithin(ds, n)| == |GapPositions(ds, n)|
  {
    if n > 0 {
      GapCount(ds, n - 1);
      GapPositionsStep(ds, n - 1);
    } else {
      assert GapPositions(ds, n) == {};
    }
  }

  /** Record by record: the `k`-th one names the event times on either side of the `k`-th id discontinuity. */
  ghost predicate Records(f: seq<nat>, gaps: seq<Gap>, ds: seq<Diff>, n: nat)
    requires n <= |ds|
  {
    && |f| == |gaps| && (forall k | 0 <= k < |f| :: 0 < f[k] < n)
    && (forall j, k | 0 <= j < k < |f| :: f[j] < f[k])
    && (forall k | 0 <= k < |f| :: gaps[k] == Gap(ds[f[k] - 1].eventTime, ds[f[k]].eventTime))
    && (forall i | 0 < i < n :: ds[i].first != ds[i - 1].final + 1 <==> i in f)
  }

  lemma {:induction false} GapsAre(ds: seq<Diff>, n: nat) returns (f: seq<nat>)
    requires n <= |ds|
    ensures Records(f, GapsWithin(ds, n), ds, n)
  {
    if n == 0 {
      f := [];
    } else {
      var g := GapsAre(ds, n - 1);
      RecordsSnoc(g, GapsWithin(ds, n - 1), ds, n - 1, n);
      f := if GapBefore(ds, n - 1) then g + [n - 1] else g;
    }
  }

  lemma RecordsSnoc(f: seq<nat>, gaps: seq<Gap>, ds: seq<Diff>, n: nat, m: nat)
    requires n < |ds| && Records(f, gaps, ds, n) && m == n + 1
    ensures GapBefore(ds, n) ==> Records(f + [n], gaps + [Gap(ds[n - 1].eventTime, ds[n].eventTime)], ds, m)
    ensures !GapBefore(ds, n) ==> Records(f, gaps, ds, m)
  {
    assert forall i | i in f :: i < n;
  }

  // ----- exactness

  /** No id was skipped or repeated since the diff at position `k`. */
  ghost predicate GapFreeSince(diffs: seq<Diff>, k: nat, n: nat)
    requires n <= |diffs|
  {
    forall i | k < i < n :: !GapBefore(diffs, i)
  }

  /** Replay accounting and convergence.  Let `snap` be the checkpoint loaded last, at the start or after a gap,
      whatever gaps were passed over before.  If its id reaches the first diff applied to it and no gap has come
      since, then from the first diff that reaches that id on, however many diffs before it rewound the book, the
      book agrees with the exchange on the window of that checkpoint. */
  lemma ReplayExact(E: Timeline, depth: int, checkpoint: Snapshot, diffs: seq<Diff>, env: ReplayEnv, n: nat)
    requires 0 < n <= |diffs|
    requires var seed := Seed(checkpoint, diffs, env, n);
             && GapFreeSince(diffs, seed.1, n)
             && Explains(E, seed.0, depth, diffs[seed.1..n])
             && diffs[seed.1].first <= seed.0.lastUpdateId + 1
             && seed.0.lastUpdateId <= diffs[n - 1].final
    ensures var seed := Seed(checkpoint, diffs, env, n);
            ExactOnWindow(E, BookAfter(checkpoint, diffs, env, n), diffs[n - 1].final, seed.0, depth, diffs[seed.1..n])
  {
    var (snap, k) := Seed(checkpoint, diffs, env, n);
    SeededRun(checkpoint, diffs, env, n);
    GapFreeContiguous(E, diffs, k, n);
    ContiguousExact(E, depth, snap, diffs[k..n]);
  }

  lemma GapFreeContiguous(E: Timeline, diffs: seq<Diff>, k: nat, n: nat)
    requires k <= n <= |diffs| && GapFreeSince(diffs, k, n) && TruthfulDiffs(E, diffs[k..n])
    ensures Contiguous(diffs[k..n])
  {
    var run := diffs[k..n];
    forall i | 0 < i < |run|
      ensures run[i].first == run[i - 1].final + 1
    {
      assert !GapBefore(diffs, k + i);
    }
    assert forall i | 0 <= i < |run| :: TruthfulDiff(E, run[i]);
  }

  /** The diffs applied since the last seed. */
  lemma SeededRun(checkpoint: Snapshot, diffs: seq<Diff>, env: ReplayEnv, n: nat)
    requires 0 < n <= |diffs|
    ensures var (snap, k) := Seed(checkpoint, diffs, env, n); var run := diffs[k..n];
            && run != [] && run[0] == diffs[k] && run[|run| - 1] == diffs[n - 1]
            && (forall i | 0 <= i < |run| :: run[i] == diffs[k + i])
            && BookAfter(checkpoint, diffs, env, n) == ApplyAll(LoadDepth(snap), run)
  {
  }

  lemma ContiguousExact(E: Timeline, depth: int, snap: Snapshot, run: seq<Diff>)
    requires run != [] && Contiguous(run) && Explains(E, snap, depth, run)
    requires run[0].first <= snap.lastUpdateId + 1 && snap.lastUpdateId <= run[|run| - 1].final
    ensures ExactOnWindow(E, ApplyAll(LoadDepth(snap), run), run[|run| - 1].final, snap, depth, run)
  {
    ContiguousGapless(snap.lastUpdateId, run);
    WindowExact(E, snap, depth, run);
  }

  /** The reseed never compares the checkpoint's id with the gap, and every diff is published.  Two comparisons are
      missing, and they are exactly what is missing: the book after the gap-free diffs since a seed is right under
      every history that explains checkpoint and diffs if and only if the checkpoint is not older than the first of
      them and the last of them has caught up with it. */
  lemma ReseedTrustIff(E: Timeline, depth: int, checkpoint: Snapshot, diffs: seq<Diff>, env: ReplayEnv, n: nat)
    requires 0 < n <= |diffs|
    requires var seed := Seed(checkpoint, diffs, env, n);
             GapFreeSince(diffs, seed.1, n) && Explains(E, seed.0, depth, diffs[seed.1..n])
    ensures var (snap, k) := Seed(checkpoint, diffs, env, n);
            (diffs[k].first <= snap.lastUpdateId + 1 && snap.lastUpdateId <= diffs[n - 1].final <==>
              forall E': Timeline | Explains(E', snap, depth, diffs[k..n]) ::
                ExactOnWindow(E', BookAfter(checkpoint, diffs, env, n), diffs[n - 1].final, snap, depth, diffs[k..n]))
  {
    var (snap, k) := Seed(checkpoint, diffs, env, n);
    SeededRun(checkpoint, diffs, env, n);
    GapFreeContiguous(E, diffs, k, n);
    ContiguousTrustIff(E, depth, snap, diffs[k..n]);
  }

  lemma ContiguousTrustIff(E: Timeline, depth: int, snap: Snapshot, run: seq<Diff>)
    requires run != [] && Contiguous(run) && Explains(E, snap, depth, run)
    ensures run[0].first <= snap.lastUpdateId + 1 && snap.lastUpdateId <= run[|run| - 1].final
       <==> forall E': Timeline | Explains(E', snap, depth, run) ::
              ExactOnWindow(E', ApplyAll(LoadDepth(snap), run), run[|run| - 1].final, snap, depth, run)
  {
    ContiguousInOrder(run);
    if run[|run| - 1].final < snap.lastUpdateId {
      var E', p := SnapshotAheadHidesBid(E, snap, depth, run);
    } else if run[0].first <= snap.lastUpdateId + 1 {
      forall E': Timeline | Explains(E', snap, depth, run)
        ensures ExactOnWindow(E', ApplyAll(LoadDepth(snap), run), run[|run| - 1].final, snap, depth, run)
      {
        ContiguousExact(E', depth, snap, run);
      }
    } else {
      ContiguousGapless(snap.lastUpdateId, run);
      RunTrustIff(E, depth, snap, run);
    }
  }

  /** The general case: a seed anywhere among the diffs applied to it, gaps passed over or not.  For ordered diffs the
      book is right under every explaining history if and only if they have caught up with the seed, every id
      they skip is one the seed has seen, and no price was rewound before such a gap and left wrong. */
  lemma ReplayTrustIff(E: Timeline, depth: int, checkpoint: Snapshot, diffs: seq<Diff>, env: ReplayEnv, n: nat)
    requires 0 < n <= |diffs|
    requires var seed := Seed(checkpoint, diffs, env, n);
             Explains(E, seed.0, depth, diffs[seed.1..n]) && InOrder(diffs[seed.1..n])
    ensures var (snap, k) := Seed(checkpoint, diffs, env, n);
            (Rewinding.Trusted(snap, depth, diffs[k..n]) <==>
              forall E': Timeline | Explains(E', snap, depth, diffs[k..n]) ::
                ExactOnWindow(E', BookAfter(checkpoint, diffs, env, n), diffs[n - 1].final, snap, depth, diffs[k..n]))
  {
    var (snap, k) := Seed(checkpoint, diffs, env, n);
    SeededRun(checkpoint, diffs, env, n);
    OrderedRunTrustIff(E, depth, snap, diffs[k..n]);
  }

  lemma OrderedRunTrustIff(E: Timeline, depth: int, snap: Snapshot, run: seq<Diff>)
    requires run != [] && InOrder(run) && Explains(E, snap, depth, run)
    ensures Rewinding.Trusted(snap, depth, run)
       <==> forall E': Timeline | Explains(E', snap, depth, run) ::
              ExactOnWindow(E', ApplyAll(LoadDepth(snap), run), run[|run| - 1].final, snap, depth, run)
  {
    Rewinding.OrderedTrustIff(E, snap, depth, run);
  }

  /** Gaps for which no checkpoint was found are passed over.  For ordered diffs whose first reaches the seed, the
      book is right under every explaining history if and only if no id was skipped since the seed: a gap that
      is passed over costs the book its trust until the next reseed. */
  lemma PassedGapTrustIff(E: Timeline, depth: int, checkpoint: Snapshot, diffs: seq<Diff>, env: ReplayEnv, n: nat)
    requires 0 < n <= |diffs|
    requires var seed := Seed(checkpoint, diffs, env, n);
             && Explains(E, seed.0, depth, diffs[seed.1..n])
             && InOrder(diffs[seed.1..n]) && seed.0.lastUpdateId <= diffs[seed.1].final
    ensures var (snap, k) := Seed(checkpoint, diffs, env, n);
            (Gapless(snap.lastUpdateId, diffs[k..n]) <==>
              forall E': Timeline | Explains(E', snap, depth, diffs[k..n]) ::
                ExactOnWindow(E', BookAfter(checkpoint, diffs, env, n), diffs[n - 1].final, snap, depth, diffs[k..n]))
  {
    var (snap, k) := Seed(checkpoint, diffs, env, n);
    SeededRun(checkpoint, diffs, env, n);
    RunTrustIff(E, depth, snap, diffs[k..n]);
  }

  lemma RunTrustIff(E: Timeline, depth: int, snap: Snapshot, run: seq<Diff>)
    requires run != [] && InOrder(run) && snap.lastUpdateId <= run[0].final
    requires Explains(E, snap, depth, run)
    ensures Gapless(snap.lastUpdateId, run)
       <==> forall E': Timeline | Explains(E', snap, depth, run) ::
              ExactOnWindow(E', ApplyAll(LoadDepth(snap), run), run[|run| - 1].final, snap, depth, run)
  {
    GaplessIff(E, snap, depth, run);
  }

  // ----- replaying what live ingest wrote

  /** The live book as a history of its own: what the handler's book was at each id. */
  ghost function LiveAt(base: Snapshot, since: seq<Diff>, k: int): Depth {
    if since == [] || since[|since| - 1].final <= k then ApplyAll(LoadDepth(base), since)
    else LiveAt(base, since[..|since| - 1], k)
  }

  ghost function LiveHistory(base: Snapshot, since: seq<Diff>): Timeline {
    k => LiveAt(base, since, k)
  }

  /** The live book at the final id of its `n`-th diff, and at every id up to the next one. */
  lemma {:induction false} LiveAtDiff(base: Snapshot, since: seq<Diff>, n: nat, k: int)
    requires Contiguous(since) && n <= |since|
    requires n > 0 ==> since[n - 1].final <= k
    requires n < |since| ==> k < since[n].final
    ensures LiveAt(base, since, k) == ApplyAll(LoadDepth(base), since[..n])
  {
    if n == |since| {
      assert since[..n] == since;
    } else {
      var init := since[..|since| - 1];
      if n < |since| - 1 {
        ContiguousGrows(since, n, |since| - 1);
      }
      LiveAtDiff(base, init, n, k);
      assert init[..n] == since[..n];
    }
  }

  /** No price is listed twice with different quantities; a diff that is truthful about anything satisfies this. */
  ghost predicate Unambiguous(ls: seq<Level>) {
    forall i, j | 0 <= i < j < |ls| && ls[i].price == ls[j].price :: ls[i].qty == ls[j].qty
  }

  ghost predicate WellFormed(ds: seq<Diff>) {
    Contiguous(ds) && forall i, s: BookSide | 0 <= i < |ds| :: Unambiguous(DiffSide(ds[i], s))
  }

  lemma {:induction false} ApplyMakesTrue(m: map<Price, Qty>, ls: seq<Level>, i: nat)
    requires Unambiguous(ls) && i < |ls|
    ensures QtyAt(ApplyLevels(m, ls), ls[i].price) == ls[i].qty
  {
    var init, last := ls[..|ls| - 1], ls[|ls| - 1];
    if ls[i].price != last.price {
      ApplyMakesTrue(m, init, i);
    }
  }

  /** The diffs that live ingest applied report truthfully on the live book. */
  lemma LiveDiffTruthful(base: Snapshot, since: seq<Diff>, n: nat)
    requires WellFormed(since) && n < |since|
    ensures TruthfulDiff(LiveHistory(base, since), since[n])
  {
    var E, d := LiveHistory(base, since), since[n];
    var b := ApplyAll(LoadDepth(base), since[..n]);
    LiveAround(base, since, n);
    forall s: BookSide
      ensures ListsTruth(DiffSide(d, s), E(d.final).Side(s))
    {
      forall i | 0 <= i < |DiffSide(d, s)|
        ensures DiffSide(d, s)[i].qty == QtyAt(E(d.final).Side(s), DiffSide(d, s)[i].price)
      {
        assert Unambiguous(DiffSide(d, s));
        ApplyMakesTrue(b.Side(s), DiffSide(d, s), i);
      }
    }
    forall s: BookSide, p, k | d.first - 1 <= k <= d.final && !Listed(DiffSide(d, s), p)
      ensures At(E, k, s, p) == At(E, d.first - 1, s, p)
    {
      ApplyUnlisted(b.Side(s), DiffSide(d, s), p);
    }
  }

  /** The live book stays put until the final id of a diff and then takes the diff's step. */
  lemma LiveAround(base: Snapshot, since: seq<Diff>, n: nat)
    requires WellFormed(since) && n < |since|
    ensures var E, d, b := LiveHistory(base, since), since[n], ApplyAll(LoadDepth(base), since[..n]);
            && (forall k | d.first - 1 <= k < d.final :: E(k) == b)
            && (forall s: BookSide :: E(d.final).Side(s) == ApplyLevels(b.Side(s), DiffSide(d, s)))
  {
    var E, d, b := LiveHistory(base, since), since[n], ApplyAll(LoadDepth(base), since[..n]);
    forall k | d.first - 1 <= k < d.final
      ensures E(k) == b
    {
      LiveAtDiff(base, since, n, k);
    }
    assert since[..n + 1][..n] == since[..n];
    LiveAtDiff(base, since, n + 1, d.final);
    assert E(d.final) == ApplyDiff(b, d);
  }

  lemma {:induction false} LiveProper(base: Snapshot, since: seq<Diff>, k: int)
    ensures ProperDepth(LiveAt(base, since, k))
  {
    if since == [] || since[|since| - 1].final <= k {
      LoadProper(base);
      ApplyAllProper(LoadDepth(base), since);
    } else {
      LiveProper(base, since[..|since| - 1], k);
    }
  }

  ghost function LiveAfter(base: Snapshot, since: seq<Diff>, n: nat): Depth
    requires n <= |since|
  {
    ApplyAll(LoadDepth(base), since[..n])
  }

  /** The checkpoint written after `k` diffs of an epoch. */
  ghost function CheckpointAfter(base: Snapshot, since: seq<Diff>, depth: int, k: nat): Snapshot
    requires 0 < k <= |since|
  {
    OrderBook.SnapshotOf(LiveAfter(base, since, k), since[k - 1].final, depth)
  }

  /** The window theorem with the live book in the place of the exchange. */
  lemma ReplayOnLive(base: Snapshot, since: seq<Diff>, depth: int, j: nat, k: nat, n: nat)
    requires WellFormed(since)
    requires j <= k <= n <= |since| && 0 < k && j < n && 0 <= since[k - 1].final
    ensures var checkpoint := CheckpointAfter(base, since, depth, k);
            ExactOnWindow(LiveHistory(base, since), ApplyAll(LoadDepth(checkpoint), since[j..n]), since[n - 1].final,
                          checkpoint, depth, since[j..n])
  {
    var checkpoint := CheckpointAfter(base, since, depth, k);
    LiveCheckpointTruthful(base, since, depth, k);
    LiveExplains(base, since, j, n);
    OverlapGapless(since, j, k, n, since[j..n]);
    OverlapCatchesUp(since, j, k, n, since[j..n]);
    WindowExact(LiveHistory(base, since), checkpoint, depth, since[j..n]);
  }

  lemma LiveCheckpointTruthful(base: Snapshot, since: seq<Diff>, depth: int, k: nat)
    requires WellFormed(since) && 0 < k <= |since| && 0 <= since[k - 1].final
    ensures TruthfulSnapshot(LiveHistory(base, since), CheckpointAfter(base, since, depth, k), depth)
  {
    LiveAtFinal(base, since, k);
  }

  lemma LiveExplains(base: Snapshot, since: seq<Diff>, j: nat, n: nat)
    requires WellFormed(since) && j <= n <= |since|
    ensures Proper(LiveHistory(base, since)) && TruthfulDiffs(LiveHistory(base, since), since[j..n])
  {
    forall x
      ensures ProperDepth(LiveHistory(base, since)(x))
    {
      LiveProper(base, since, x);
    }
    forall i | 0 <= i < n - j
      ensures TruthfulDiff(LiveHistory(base, since), since[j..n][i])
    {
      LiveDiffTruthful(base, since, j + i);
    }
  }

  /** The replayed book agrees with the live one on the checkpoint's window, and is the live one if nothing was cut. */
  ghost predicate Reproduces(replayed: Depth, live: Depth, checkpoint: Snapshot, depth: int, run: seq<Diff>) {
    && (forall s: BookSide, p | InWindow(checkpoint, depth, run, s, p) ::
          QtyAt(replayed.Side(s), p) == QtyAt(live.Side(s), p))
    && (Uncut(checkpoint, Bid, depth) && Uncut(checkpoint, Ask, depth) ==> replayed == live)
  }

  lemma ContiguousReproducesLive(base: Snapshot, since: seq<Diff>, depth: int, j: nat, k: nat, n: nat,
                                 checkpoint: Snapshot, live: Depth, run: seq<Diff>)
    requires WellFormed(since)
    requires j <= k <= n <= |since| && 0 < k && j < n && 0 <= since[k - 1].final
    requires checkpoint == CheckpointAfter(base, since, depth, k) && live == LiveAfter(base, since, n)
    requires run == since[j..n]
    ensures Reproduces(ApplyAll(LoadDepth(checkpoint), run), live, checkpoint, depth, run)
  {
    var E, id := LiveHistory(base, since), since[n - 1].final;
    var replayed := ApplyAll(LoadDepth(checkpoint), run);
    ReplayOnLive(base, since, depth, j, k, n);
    LiveAtFinal(base, since, n);
    LoadProper(checkpoint);
    ApplyAllProper(LoadDepth(checkpoint), run);
    LiveProper(base, since, id);
    if Uncut(checkpoint, Bid, depth) && Uncut(checkpoint, Ask, depth) {
      CompleteExact(E, replayed, id, checkpoint, depth, run);
    }
    forall s: BookSide, p | InWindow(checkpoint, depth, run, s, p)
      ensures QtyAt(replayed.Side(s), p) == QtyAt(live.Side(s), p)
    {
      assert QtyAt(replayed.Side(s), p) == At(E, id, s, p);
    }
  }

  /** The live book after `m` diffs, as a snapshot from which to count the rest. */
  lemma LiveFrom(base: Snapshot, since: seq<Diff>, m: nat) returns (base': Snapshot)
    requires m <= |since|
    ensures LoadDepth(base') == LiveAfter(base, since, m)
  {
    var b := LiveAfter(base, since, m);
    base' := OrderBook.SnapshotOf(b, 0, 0);
    LoadProper(base);
    ApplyAllProper(LoadDepth(base), since[..m]);
    OrderBook.SnapshotRoundTrip(b, 0);
  }

  lemma LiveRest(base: Snapshot, base': Snapshot, since: seq<Diff>, m: nat, i: nat, n: nat)
    requires m <= i <= n <= |since| && LoadDepth(base') == LiveAfter(base, since, m)
    ensures LiveAfter(base', since[m..n], i - m) == LiveAfter(base, since, i)
  {
    assert since[m..n][..i - m] == since[m..i];
    assert since[..i] == since[..m] + since[m..i];
    ApplyAllConcat(LoadDepth(base), since[..m], since[m..i]);
  }

  /** Counting the diffs of an epoch from the `m`-th on changes neither its checkpoints nor its book. */
  lemma CountedFrom(base: Snapshot, base': Snapshot, since: seq<Diff>, depth: int, m: nat, j: nat, k: nat, n: nat)
    requires m <= j <= n && m < k <= n <= |since| && LoadDepth(base') == LiveAfter(base, since, m)
    ensures CheckpointAfter(base', since[m..n], depth, k - m) == CheckpointAfter(base, since, depth, k)
    ensures LiveAfter(base', since[m..n], n - m) == LiveAfter(base, since, n)
    ensures since[m..n][j - m..n - m] == since[j..n] && since[m..n][k - m - 1] == since[k - 1]
  {
    LiveRest(base, base', since, m, k, n);
    LiveRest(base, base', since, m, n, n);
  }

  /** Replay converges to what live ingest saw.  Take a checkpoint of the live book after `k` diffs of an epoch, and
      replay from it the persisted diffs `j` up to `n`, with any overlap `j <= k`.  If those diffs, and the last
      one before the checkpoint, are contiguous, the result agrees with the live book after `n` diffs on the
      checkpoint's window, and is that book if nothing was cut. */
  lemma ReplayReproducesLive(base: Snapshot, since: seq<Diff>, depth: int, j: nat, k: nat, n: nat)
    requires j <= k <= n <= |since| && 0 < k && j < n && 0 <= since[k - 1].final
    requires WellFormed(since[if j < k then j else k - 1..n])
    ensures var checkpoint := CheckpointAfter(base, since, depth, k);
            Reproduces(ApplyAll(LoadDepth(checkpoint), since[j..n]), LiveAfter(base, since, n), checkpoint, depth,
                       since[j..n])
  {
    var m := if j < k then j else k - 1;
    ReproducesFrom(base, since, depth, m, j, k, n, since[m..n]);
  }

  lemma ReproducesFrom(base: Snapshot, since: seq<Diff>, depth: int, m: nat, j: nat, k: nat, n: nat, rest: seq<Diff>)
    requires m <= j <= k <= n <= |since| && m < k && j < n && 0 <= since[k - 1].final
    requires rest == since[m..n] && WellFormed(rest)
    ensures var checkpoint := CheckpointAfter(base, since, depth, k);
            Reproduces(ApplyAll(LoadDepth(checkpoint), since[j..n]), LiveAfter(base, since, n), checkpoint, depth,
                       since[j..n])
  {
    var base' := LiveFrom(base, since, m);
    CountedFrom(base, base', since, depth, m, j, k, n);
    ContiguousReproducesLive(base', rest, depth, j - m, k - m, n - m,
                             CheckpointAfter(base, since, depth, k), LiveAfter(base, since, n), since[j..n]);
  }

  lemma LiveAtFinal(base: Snapshot, since: seq<Diff>, n: nat)
    requires WellFormed(since) && 0 < n <= |since|
    ensures LiveHistory(base, since)(since[n - 1].final) == ApplyAll(LoadDepth(base), since[..n])
  {
    LiveAtDiff(base, since, n, since[n - 1].final);
  }

  lemma OverlapGapless(since: seq<Diff>, j: nat, k: nat, n: nat, run: seq<Diff>)
    requires Contiguous(since) && j <= k <= n <= |since| && 0 < k && j < n && run == since[j..n]
    ensures Gapless(since[k - 1].final, run)
  {
    OverlapStart(since, j, k);
    ContiguousSlice(since, j, n, run);
    ContiguousGapless(since[k - 1].final, run);
  }

  lemma OverlapCatchesUp(since: seq<Diff>, j: nat, k: nat, n: nat, run: seq<Diff>)
    requires Contiguous(since) && j <= k <= n <= |since| && 0 < k && j < n && run == since[j..n]
    ensures since[k - 1].final <= since[n - 1].final == FinalId(since[k - 1].final, run)
  {
    FinalsAscend(since, k - 1, n - 1);
  }

  lemma OverlapStart(since: seq<Diff>, j: nat, k: nat)
    requires Contiguous(since) && j <= k && 0 < k && j < |since|
    requires k <= |since|
    ensures since[j].first <= since[k - 1].final + 1
  {
    if j < k {
      FinalsAscend(since, j, k - 1);
    } else {
      assert since[k].first == since[k - 1].final + 1;
    }
  }
}
