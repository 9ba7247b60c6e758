/** Reading an append-only stream without losing or repeating an entry: a blocking reader that is cancelled at
    some point, followed by a non-blocking drain that starts right after the last entry consumed. */
module Streams {

  /** Stream ids grow from one entry to the next; 0 stands for the start "0-0". */
  datatype Entry = Entry(id: int, payload: int)

  ghost predicate Ascending(s: seq<Entry>) {
    && (forall i | 0 <= i < |s| :: s[i].id > 0)
    && (forall i, j | 0 <= i < j < |s| :: s[i].id < s[j].id)
  }

  /** The entries after an id. */
  function After(s: seq<Entry>, id: int): seq<Entry> {
    if s == [] then []
    else
      var init := After(s[..|s| - 1], id);
      if s[|s| - 1].id > id then init + [s[|s| - 1]] else init
  }

  function LastId(handled: seq<Entry>): int {
    if handled == [] then 0 else handled[|handled| - 1].id
  }

  /** Reading after the last handled id continues exactly where handling stopped. */
  lemma {:induction false} AfterPrefix(s: seq<Entry>, k: nat)
    requires Ascending(s) && k <= |s|
    ensures After(s, LastId(s[..k])) == s[k..]
  {
    if k == |s| {
      assert s[..k] == s;
      AfterNone(s, LastId(s));
    } else {
      var init := s[..|s| - 1];
      assert init[..k] == s[..k];
      AfterPrefix(init, k);
      assert s[k..] == init[k..] + [s[|s| - 1]];
      assert k > 0 ==> s[k - 1].id < s[|s| - 1].id;
    }
  }

  /** What a faithful read returns continues what has been handled. */
  lemma ReadContinues(s: seq<Entry>, handled: seq<Entry>, entries: seq<Entry>)
    requires Ascending(s) && handled <= s && entries <= After(s, LastId(handled))
    ensures handled + entries <= s
    ensures After(s, LastId(handled)) == [] ==> handled == s
  {
    AfterPrefix(s, |handled|);
    assert handled == s[..|handled|];
  }

  lemma {:induction false} AfterNone(s: seq<Entry>, id: int)
    requires forall i | 0 <= i < |s| :: s[i].id <= id
    ensures After(s, id) == []
  {
    if s != [] {
      AfterNone(s[..|s| - 1], id);
    }
  }

  // ----- one loop, as a transition system

  datatype LoopPhase = Reading | Draining | Stopped

  /** A read-then-drain loop: the entries fetched and not yet handled, and those handled. */
  datatype Loop = Loop(phase: LoopPhase, batch: seq<Entry>, handled: seq<Entry>)

  const STARTED := Loop(Reading, [], [])

  datatype LoopAction = Read(n: nat) | Cancel | Drain(n: nat) | Break | Handle

  predicate LoopEnabled(l: Loop, stream: seq<Entry>, cancelled: bool, act: LoopAction) {
    match act
    case Read(n) => l.phase == Reading && l.batch == [] && 0 < n <= |After(stream, LastId(l.handled))|
    case Cancel => l.phase == Reading && l.batch == [] && cancelled
    case Drain(n) =>
      var rest := After(stream, LastId(l.handled));
      l.phase == Draining && l.batch == [] && n <= |rest| && (n == 0 ==> rest == [])
    case Break => l.phase == Draining && l.batch == []
    case Handle => l.batch != []
  }

  function LoopStep(l: Loop, stream: seq<Entry>, act: LoopAction): Loop
    requires LoopEnabled(l, stream, true, act)
  {
    match act
    case Read(n) => l.(batch := After(stream, LastId(l.handled))[..n])
    case Cancel => l.(phase := Draining)
    case Drain(n) =>
      if n == 0 then l.(phase := Stopped) else l.(batch := After(stream, LastId(l.handled))[..n])
    case Break => l.(phase := Stopped)
    case Handle => l.(batch := l.batch[1..], handled := l.handled + [l.batch[0]])
  }

  /** One step of a loop: its state before, the stream as it was then, and what it did. */
  datatype Moment = Moment(loop: Loop, stream: seq<Entry>, act: LoopAction)

  /** The steps lead from a loop that has just been started to `end`. */
  ghost predicate Leads(steps: seq<Moment>, end: Loop) {
    if steps == [] then end == STARTED
    else
      var m := steps[|steps| - 1];
      && Leads(steps[..|steps| - 1], m.loop)
      && LoopEnabled(m.loop, m.stream, true, m.act) && end == LoopStep(m.loop, m.stream, m.act)
  }

  lemma LeadsSnoc(steps: seq<Moment>, m: Moment)
    requires Leads(steps, m.loop) && LoopEnabled(m.loop, m.stream, true, m.act)
    ensures Leads(steps + [m], LoopStep(m.loop, m.stream, m.act))
  {
    assert (steps + [m])[..|steps|] == steps;
  }

  /** Nothing is ever taken off the stream. */
  ghost predicate Growing(steps: seq<Moment>, stream: seq<Entry>) {
    && (forall j, k | 0 <= j < k < |steps| :: steps[j].stream <= steps[k].stream)
    && (forall k | 0 <= k < |steps| :: steps[k].stream <= stream)
  }

  /** The later steps all saw this stream. */
  ghost predicate ContinuesOn(before: seq<Moment>, after: seq<Moment>, stream: seq<Entry>) {
    before <= after && forall k | |before| <= k < |after| :: after[k].stream == stream
  }

  lemma StillGrowing(before: seq<Moment>, after: seq<Moment>, stream: seq<Entry>)
    requires Growing(before, stream) && ContinuesOn(before, after, stream)
    ensures Growing(after, stream)
  {
    assert forall k | 0 <= k < |before| :: after[k] == before[k];
  }

  lemma GrownStream(steps: seq<Moment>, stream: seq<Entry>, stream': seq<Entry>)
    requires Growing(steps, stream) && stream <= stream'
    ensures Growing(steps, stream')
  {
  }

  lemma ContinuesTrans(a: seq<Moment>, b: seq<Moment>, c: seq<Moment>, stream: seq<Entry>)
    requires ContinuesOn(a, b, stream) && ContinuesOn(b, c, stream)
    ensures ContinuesOn(a, c, stream)
  {
    assert forall k | 0 <= k < |b| :: c[k] == b[k];
  }

  // ----- the loops themselves

  /** The answer to a blocking read; a failure is retried unless the context has been cancelled. */
  datatype Poll = Batch(entries: seq<Entry>) | Timeout(cancelled: bool) | Failed(cancelled: bool)

  /** What the server answers to the i-th read after `id`: some of the next entries of the stream as it is then. */
  type XRead = (nat, int) -> Poll

  ghost predicate Honest(xread: XRead, streams: nat -> seq<Entry>) {
    && (forall i :: Ascending(streams(i)))
    && (forall i, j | i <= j :: streams(i) <= streams(j))
    && (forall i, id | xread(i, id).Batch? :: xread(i, id).entries <= After(streams(i), id))
  }

  lemma ReadHonest(xread: XRead, streams: nat -> seq<Entry>, i: nat, id: int, poll: Poll)
    requires Honest(xread, streams) && poll == xread(i, id)
    ensures Ascending(streams(i))
    ensures poll.Batch? ==> poll.entries <= After(streams(i), id)
  {
  }

  lemma StreamsGrow(xread: XRead, streams: nat -> seq<Entry>, i: nat, j: nat, handled: seq<Entry>, steps: seq<Moment>)
    requires Honest(xread, streams) && i <= j && handled <= streams(i) && Growing(steps, streams(i))
    ensures handled <= streams(j) && Growing(steps, streams(j))
  {
    GrownStream(steps, streams(i), streams(j));
  }

  /** What the first `n` reads return, each asking for what comes after the entries of those before it. */
  function ReadBy(xread: XRead, n: nat): seq<Entry> {
    if n == 0 then []
    else
      var before := ReadBy(xread, n - 1);
      var poll := xread(n - 1, LastId(before));
      if poll.Batch? then before + poll.entries else before
  }

  predicate Cancelled(poll: Poll) {
    !poll.Batch? && poll.cancelled
  }

  /** None of the first `n` answers finds the context cancelled. */
  ghost predicate NotYet(xread: XRead, n: nat) {
    forall k | 0 <= k < n :: !Cancelled(xread(k, LastId(ReadBy(xread, k))))
  }

  /** The first answer that does is that to read `n`, and `handled` has been read by then. */
  ghost predicate StopsAt(xread: XRead, n: nat, handled: seq<Entry>) {
    handled == ReadBy(xread, n) && NotYet(xread, n) && Cancelled(xread(n, LastId(handled)))
  }

  lemma ReadOn(xread: XRead, n: nat, poll: Poll)
    requires NotYet(xread, n) && poll == xread(n, LastId(ReadBy(xread, n))) && !Cancelled(poll)
    ensures NotYet(xread, n + 1)
    ensures ReadBy(xread, n + 1) == ReadBy(xread, n) + if poll.Batch? then poll.entries else []
  {
  }

  /** The answer to a non-blocking range read, or None if it fails. */
  datatype Range = Entries(entries: seq<Entry>) | Broken

  /** Some of the entries after `id`, and none only if there are none. */
  ghost predicate FaithfulRange(answer: Range, s: seq<Entry>, id: int) {
    answer.Entries? ==> answer.entries <= After(s, id) && (answer.entries == [] ==> After(s, id) == [])
  }

  ghost predicate HonestRange(xrange: (nat, int) -> Range, s: seq<Entry>) {
    forall i, id :: FaithfulRange(xrange(i, id), s, id)
  }

  class Consumer {
    // Every entry handed to the message handler, in order.
    var handled: seq<Entry>
    // What the loop has done so far, in the terms of the transition system.
    ghost var steps: seq<Moment>

    constructor ()
      ensures handled == [] && steps == []
    {
      handled, steps := [], [];
    }

    /** The loop has come to this phase, with this batch still to be handled. */
    ghost predicate CameTo(phase: LoopPhase, batch: seq<Entry>)
      reads this
    {
      Leads(steps, Loop(phase, batch, handled))
    }

    ghost method Note(phase: LoopPhase, stream: seq<Entry>, act: LoopAction)
      requires CameTo(phase, []) && LoopEnabled(Loop(phase, [], handled), stream, true, act)
      modifies this`steps
      ensures Leads(steps, LoopStep(Loop(phase, [], handled), stream, act))
      ensures ContinuesOn(old(steps), steps, stream) && steps[|steps| - 1].act == act
    {
      var m := Moment(Loop(phase, [], handled), stream, act);
      LeadsSnoc(steps, m);
      steps := steps + [m];
    }

    method HandleOne(entry: Entry, ghost batch: seq<Entry>, ghost phase: LoopPhase, ghost stream: seq<Entry>)
      requires CameTo(phase, batch) && batch != [] && batch[0] == entry
      modifies this
      ensures handled == old(handled) + [entry]
      ensures CameTo(phase, batch[1..]) && ContinuesOn(old(steps), steps, stream)
    {
      ghost var m := Moment(Loop(phase, batch, handled), stream, Handle);
      LeadsSnoc(steps, m);
      steps := steps + [m];
      handled := handled + [entry];
    }

    method ProcessBatch(batch: seq<Entry>, lastId: int, ghost phase: LoopPhase, ghost stream: seq<Entry>)
      returns (last: int)
      requires lastId == LastId(handled) && CameTo(phase, batch)
      modifies this
      ensures handled == old(handled) + batch
      ensures last == LastId(handled)
      ensures CameTo(phase, []) && ContinuesOn(old(steps), steps, stream)
    {
      last := lastId;
      for i := 0 to |batch|
        invariant handled == old(handled) + batch[..i]
        invariant last == LastId(handled)
        invariant CameTo(phase, batch[i..]) && ContinuesOn(old(steps), steps, stream)
      {
        ghost var before := steps;
        HandleOne(batch[i], batch[i..], phase, stream);
        ContinuesTrans(old(steps), before, steps, stream);
        assert batch[i..][1..] == batch[i + 1..];
        last := batch[i].id;
      }
    }

    /** Reads until cancelled, which happens at the latest on call `calls`, while producers append at any time. It
        stops at the first answer that finds the context cancelled, and has handled all that was read until then; that
        is a prefix of the stream, entry by entry, and the loop went through steps of the transition system, on the
        stream as it grew. */
    method RunReader(xread: XRead, calls: nat, ghost streams: nat -> seq<Entry>)
      returns (lastId: int, ghost polls: nat)
      requires handled == [] && steps == [] && Honest(xread, streams)
      requires forall id :: xread(calls, id) == Failed(true)
      modifies this
      ensures polls <= calls && StopsAt(xread, polls, handled)
      ensures handled <= streams(calls)
      ensures lastId == LastId(handled)
      ensures CameTo(Draining, []) && Growing(steps, streams(calls))
    {
      lastId, polls := 0, 0;
      var i, stop := 0, false;
      while true
        invariant 0 <= i <= calls
        invariant handled == ReadBy(xread, i) && NotYet(xread, i)
        invariant handled <= streams(i) && lastId == LastId(handled)
        invariant CameTo(Reading, []) && Growing(steps, streams(i))
        decreases calls - i
      {
        var poll := xread(i, lastId);
        ReadHonest(xread, streams, i, lastId, poll);
        lastId, stop := PollOnce(poll, lastId, streams(i));
        if stop {
          StreamsGrow(xread, streams, i, calls, handled, steps);
          polls := i;
          return;
        }
        ReadOn(xread, i, poll);
        StreamsGrow(xread, streams, i, i + 1, handled, steps);
        i := i + 1;
      }
    }

    /** The answer to one blocking read: a batch is handled, and a cancelled context ends the reading. */
    method PollOnce(poll: Poll, lastId: int, ghost stream: seq<Entry>) returns (last: int, stop: bool)
      requires Ascending(stream) && handled <= stream && lastId == LastId(handled)
      requires poll.Batch? ==> poll.entries <= After(stream, LastId(handled))
      requires CameTo(Reading, []) && Growing(steps, stream)
      modifies this
      ensures stop <==> Cancelled(poll)
      ensures handled == old(handled) + if poll.Batch? then poll.entries else []
      ensures handled <= stream && last == LastId(handled)
      ensures CameTo(if stop then Draining else Reading, []) && Growing(steps, stream)
    {
      last, stop := lastId, Cancelled(poll);
      if poll.Batch? {
        last := HandleRead(poll.entries, lastId, stream);
      } else if stop {
        NoteCancel(stream);
      }
    }

    ghost method NoteCancel(stream: seq<Entry>)
      requires CameTo(Reading, []) && Growing(steps, stream)
      modifies this`steps
      ensures CameTo(Draining, []) && Growing(steps, stream)
    {
      Note(Reading, stream, Cancel);
      StillGrowing(old(steps), steps, stream);
    }

    /** A batch that a blocking read returned. */
    method HandleRead(entries: seq<Entry>, lastId: int, ghost stream: seq<Entry>) returns (last: int)
      requires Ascending(stream) && handled <= stream && entries <= After(stream, LastId(handled))
      requires lastId == LastId(handled) && CameTo(Reading, []) && Growing(steps, stream)
      modifies this
      ensures handled == old(handled) + entries && handled <= stream && last == LastId(handled)
      ensures CameTo(Reading, []) && Growing(steps, stream)
    {
      ReadContinues(stream, handled, entries);
      if entries == [] {
        return lastId;
      }
      Note(Reading, stream, Read(|entries|));
      ghost var noted := steps;
      last := ProcessBatch(entries, lastId, Reading, stream);
      ContinuesTrans(old(steps), noted, steps, stream);
      StillGrowing(old(steps), steps, stream);
    }

    /** A batch that a range read returned. */
    method HandleRange(entries: seq<Entry>, lastId: int, ghost s: seq<Entry>, ghost start: seq<Moment>)
      returns (last: int)
      requires entries != [] && entries <= After(s, LastId(handled))
      requires lastId == LastId(handled) && CameTo(Draining, []) && ContinuesOn(start, steps, s)
      modifies this
      ensures handled == old(handled) + entries && last == LastId(handled)
      ensures CameTo(Draining, []) && ContinuesOn(start, steps, s)
    {
      Note(Draining, s, LoopAction.Drain(|entries|));
      ghost var noted := steps;
      last := ProcessBatch(entries, lastId, Draining, s);
      ContinuesTrans(old(steps), noted, steps, s);
      ContinuesTrans(start, old(steps), steps, s);
    }

    /** The drain ends: with a failed read or with nothing left. */
    ghost method NoteEnd(s: seq<Entry>, act: LoopAction, start: seq<Moment>)
      requires CameTo(Draining, []) && ContinuesOn(start, steps, s)
      requires act == Break || (act == LoopAction.Drain(0) && After(s, LastId(handled)) == [])
      modifies this`steps
      ensures CameTo(Stopped, []) && ContinuesOn(start, steps, s) && steps != [] && steps[|steps| - 1].act == act
    {
      Note(Draining, s, act);
      ContinuesTrans(start, old(steps), steps, s);
    }

    /** One range read of the drain.  Each answer that is not the end takes the loop further into the stream. */
    method DrainOnce(answer: Range, lastId: int, ghost s: seq<Entry>, ghost start: seq<Moment>)
      returns (last: int, ended: bool)
      requires Ascending(s) && handled <= s && FaithfulRange(answer, s, LastId(handled))
      requires lastId == LastId(handled) && CameTo(Draining, []) && ContinuesOn(start, steps, s)
      modifies this
      ensures handled <= s && last == LastId(handled) && ContinuesOn(start, steps, s)
      ensures !ended ==> CameTo(Draining, []) && |handled| > |old(handled)|
      ensures ended ==> CameTo(Stopped, []) && (answer.Broken? || handled == s)
      ensures ended ==> steps != [] && (answer.Broken? <==> steps[|steps| - 1].act.Break?)
      ensures answer.Broken? ==> ended
    {
      if answer.Broken? {
        NoteEnd(s, Break, start);
        return lastId, true;
      }
      ReadContinues(s, handled, answer.entries);
      if answer.entries == [] {
        NoteEnd(s, LoopAction.Drain(0), start);
        return lastId, true;
      }
      last := HandleRange(answer.entries, lastId, s, start);
      ended := false;
    }

    /** Drains a stream that nobody appends to any more.  Unless a read fails, every entry has been handled
        exactly once and in order; the loop went through steps of the transition system on that stream. */
    method Drain(xrange: (nat, int) -> Range, ghost s: seq<Entry>, from: int) returns (broken: bool)
      requires Ascending(s) && HonestRange(xrange, s)
      requires handled <= s && from == LastId(handled) && CameTo(Draining, [])
      modifies this
      ensures handled <= s
      ensures !broken ==> handled == s
      ensures broken ==> exists i, id :: xrange(i, id).Broken?
      ensures CameTo(Stopped, []) && ContinuesOn(old(steps), steps, s)
      ensures steps != [] && (broken <==> steps[|steps| - 1].act.Break?)
    {
      var lastId := from;
      var i := 0;
      while true
        invariant handled <= s && lastId == LastId(handled)
        invariant CameTo(Draining, []) && ContinuesOn(old(steps), steps, s)
        decreases |s| - |handled|
      {
        var answer, ended := xrange(i, lastId), false;
        assert FaithfulRange(answer, s, lastId);
        lastId, ended := DrainOnce(answer, lastId, s, old(steps));
        if ended {
          return answer.Broken?;
        }
        i := i + 1;
      }
    }
  }
}
