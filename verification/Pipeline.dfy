/** The shutdown order of a backtest run: replay first, then the executor's loops, then the collector.

    Replay engines publish to one stream per symbol; one executor loop per symbol handles the stream's entries
    and may publish orders; the collector handles the orders.  All of them run concurrently. */
module Pipeline {
  import opened Options
  import opened Streams

  datatype Stage = Replaying | StoppingExecutor | StoppingCollector | Finished

  datatype Pipe = Pipe(stage: Stage, l2: seq<seq<Entry>>, orders: seq<Entry>, executors: seq<Loop>, collector: Loop,
                       broken: bool)

  datatype Action =
    | Publish(i: nat, entry: Entry)
    | ReplayDone
    | Execute(i: nat, act: LoopAction, order: Option<Entry>)
    | ExecutorDone
    | Collect(act: LoopAction)
    | CollectorDone

  function Start(symbols: nat): Pipe {
    Pipe(Replaying, seq(symbols, _ => []), [], seq(symbols, _ => STARTED), STARTED, false)
  }

  // ----- the pipeline

  predicate Appends(stream: seq<Entry>, e: Entry) {
    e.id > 0 && e.id > LastId(stream)
  }

  predicate Enabled(p: Pipe, a: Action) {
    match a
    case Publish(i, e) => p.stage == Replaying && i < |p.l2| && Appends(p.l2[i], e)
    case ReplayDone => p.stage == Replaying
    case Execute(i, act, order) =>
      && i < |p.l2| && i < |p.executors|
      && LoopEnabled(p.executors[i], p.l2[i], p.stage != Replaying, act)
      && (order.Some? ==> act.Handle? && Appends(p.orders, order.value))
    case ExecutorDone =>
      p.stage == StoppingExecutor && forall i | 0 <= i < |p.executors| :: p.executors[i].phase == Stopped
    case Collect(act) => LoopEnabled(p.collector, p.orders, p.stage == StoppingCollector, act)
    case CollectorDone => p.stage == StoppingCollector && p.collector.phase == Stopped
  }

  function Step(p: Pipe, a: Action): Pipe
    requires Enabled(p, a)
  {
    match a
    case Publish(i, e) => p.(l2 := p.l2[i := p.l2[i] + [e]])
    case ReplayDone => p.(stage := StoppingExecutor)
    case Execute(i, act, order) =>
      p.(executors := p.executors[i := LoopStep(p.executors[i], p.l2[i], act)],
         orders := if order.Some? then p.orders + [order.value] else p.orders,
         broken := p.broken || act.Break?)
    case ExecutorDone => p.(stage := StoppingCollector)
    case Collect(act) =>
      p.(collector := LoopStep(p.collector, p.orders, act), broken := p.broken || act.Break?)
    case CollectorDone => p.(stage := Finished)
  }

  ghost predicate Run(ps: seq<Pipe>, acts: seq<Action>, symbols: nat) {
    && |ps| == |acts| + 1
    && ps[0] == Start(symbols)
    && (forall k | 0 <= k < |acts| :: Enabled(ps[k], acts[k]) && ps[k + 1] == Step(ps[k], acts[k]))
  }

  // ----- invariant

  /** What a loop has handled and fetched is an initial part of its stream, and once it has stopped nothing is
      left over, unless a drain read failed. */
  ghost predicate LoopSound(l: Loop, stream: seq<Entry>, broken: bool) {
    && l.handled + l.batch <= stream
    && (l.phase == Stopped ==> l.batch == [] && (l.handled == stream || broken))
  }

  ghost predicate Sound(p: Pipe) {
    && |p.executors| == |p.l2|
    && Ascending(p.orders) && (forall i | 0 <= i < |p.l2| :: Ascending(p.l2[i]))
    && (forall i | 0 <= i < |p.l2| :: LoopSound(p.executors[i], p.l2[i], p.broken))
    && LoopSound(p.collector, p.orders, p.broken)
    && (p.stage == Replaying ==> forall i | 0 <= i < |p.l2| :: p.executors[i].phase == Reading)
    && (p.stage == StoppingCollector || p.stage == Finished ==>
          forall i | 0 <= i < |p.l2| :: p.executors[i].phase == Stopped)
    && (p.stage == Replaying || p.stage == StoppingExecutor ==> p.collector.phase == Reading)
    && (p.stage == Finished ==> p.collector.phase == Stopped)
  }

  lemma LoopStepSound(l: Loop, stream: seq<Entry>, act: LoopAction, broken: bool)
    requires Ascending(stream) && LoopSound(l, stream, broken) && LoopEnabled(l, stream, true, act)
    ensures LoopSound(LoopStep(l, stream, act), stream, broken || act.Break?)
  {
    var k := |l.handled|;
    assert l.handled == stream[..k];
    AfterPrefix(stream, k);
    if act.Handle? {
      assert l.handled + [l.batch[0]] + l.batch[1..] == l.handled + l.batch;
    }
  }

  lemma AppendSound(l: Loop, stream: seq<Entry>, e: Entry, broken: bool)
    requires Ascending(stream) && Appends(stream, e) && LoopSound(l, stream, broken) && l.phase != Stopped
    ensures Ascending(stream + [e]) && LoopSound(l, stream + [e], broken)
  {
  }

  lemma PublishSound(p: Pipe, i: nat, e: Entry)
    requires Sound(p) && Enabled(p, Publish(i, e))
    ensures Sound(Step(p, Publish(i, e)))
  {
    AppendSound(p.executors[i], p.l2[i], e, p.broken);
  }

  lemma ExecuteSound(p: Pipe, i: nat, act: LoopAction, order: Option<Entry>)
    requires Sound(p) && Enabled(p, Execute(i, act, order))
    ensures Sound(Step(p, Execute(i, act, order)))
  {
    LoopStepSound(p.executors[i], p.l2[i], act, p.broken);
    if order.Some? {
      assert p.executors[i].phase != Stopped;
      AppendSound(p.collector, p.orders, order.value, p.broken);
    }
  }

  lemma StepSound(p: Pipe, a: Action)
    requires Sound(p) && Enabled(p, a)
    ensures Sound(Step(p, a))
  {
    match a
    case Publish(i, e) => PublishSound(p, i, e);
    case Execute(i, act, order) => ExecuteSound(p, i, act, order);
    case Collect(act) => LoopStepSound(p.collector, p.orders, act, p.broken);
    case _ =>
  }

  lemma {:induction false} RunSound(ps: seq<Pipe>, acts: seq<Action>, symbols: nat)
    requires Run(ps, acts, symbols)
    ensures Sound(ps[|acts|])
  {
    if acts != [] {
      RunSound(ps[..|acts|], acts[..|acts| - 1], symbols);
      StepSound(ps[|acts| - 1], acts[|acts| - 1]);
    }
  }

  /** At any time, in any interleaving, what each loop has handled is an initial part of its stream: nothing is
      skipped, repeated or reordered at the hand-over from reading to draining. */
  lemma HandledInOrder(ps: seq<Pipe>, acts: seq<Action>, symbols: nat)
    requires Run(ps, acts, symbols)
    ensures var p := ps[|acts|];
            && |p.executors| == |p.l2|
            && (forall i | 0 <= i < |p.l2| :: p.executors[i].handled <= p.l2[i])
            && p.collector.handled <= p.orders
  {
    RunSound(ps, acts, symbols);
    var p := ps[|acts|];
    forall i | 0 <= i < |p.l2|
      ensures p.executors[i].handled <= p.l2[i]
    {
      assert LoopSound(p.executors[i], p.l2[i], p.broken);
    }
  }

  /** Loss-free shutdown.  Whatever the interleaving and whenever the run was cancelled, when it has finished and
      no drain read has failed, every published book event and every published order has been handled exactly
      once and in order. */
  lemma NothingLost(ps: seq<Pipe>, acts: seq<Action>, symbols: nat)
    requires Run(ps, acts, symbols)
    requires ps[|acts|].stage == Finished && !ps[|acts|].broken
    ensures var p := ps[|acts|];
            && |p.executors| == |p.l2|
            && (forall i | 0 <= i < |p.l2| :: p.executors[i].handled == p.l2[i])
            && p.collector.handled == p.orders
  {
    RunSound(ps, acts, symbols);
    var p := ps[|acts|];
    forall i | 0 <= i < |p.l2|
      ensures p.executors[i].handled == p.l2[i]
    {
      assert LoopSound(p.executors[i], p.l2[i], p.broken);
    }
  }
}
