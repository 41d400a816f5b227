/** The sharded runtime: one producer thread routes commands to per-shard rings, one worker drains
    each. Every schedule of their accesses ends in what applying the routed commands in order gives. */
module Runtimes {
  import opened Types
  import opened Books
  import W = Workers
  import opened EngineSpec

  /** Whether the producer thread waits in drain, about to load the counter of shard `at`, or has come
      back from it and pushed nothing since. */
  datatype Drain = NoDrain | Draining(at: nat) | Drained

  /** The shards, what has been published to them in all, by symbol, the symbol whose command the
      producer is pushing, the stop flag that all workers look at, and drain. */
  datatype Runtime<E, T> = Runtime(
    shards: seq<W.Shard<E, T>>, routed: seq<(nat, T)>, busy: Option<nat>, stop: bool, drain: Drain)

  /** Whose access comes next: the producer's, pushing or draining; a worker's; or stop is requested. */
  datatype Turn<T> = Enqueue(sym: nat, v: T) | Poll | Work(i: nat) | StopAll

  /** The producer's next access: for the command it is pushing, or for a new one. */
  function Push<E, T>(f: (E, T) -> E, route: nat -> nat, rt: Runtime<E, T>, sym: nat, v: T): Runtime<E, T>
    requires route(sym) < |rt.shards| && rt.shards[route(sym)].ring.buf != []
  {
    var i := route(sym);
    var s := rt.shards[i];
    var s' := W.Step(f, s, W.Feed(v));
    Runtime(
      rt.shards[i := s'],
      if !s.stop && s.ring.p.Sealing? then rt.routed + [(sym, s.ring.p.v)] else rt.routed,
      if s'.ring.p.Resting? then None else Some(sym),
      rt.stop, NoDrain)
  }

  /** One load of drain: on to the next shard once this one's count is what was pushed, back to the caller
      after the last one. The producer's own cursor counts what it has pushed. */
  function Wait<E, T>(rt: Runtime<E, T>): Runtime<E, T> {
    match rt.drain
    case Draining(i) =>
      if i >= |rt.shards| then rt.(drain := Drained)
      else if rt.shards[i].processed == rt.shards[i].ring.head then rt.(drain := Draining(i + 1))
      else rt
    case _ => rt.(drain := Draining(0))
  }

  ghost predicate Shape<E, T>(route: nat -> nat, rt: Runtime<E, T>) {
    && (forall sym :: route(sym) < |rt.shards|)
    && (forall i | 0 <= i < |rt.shards| :: rt.shards[i].ring.buf != [])
  }

  ghost function Next<E, T>(f: (E, T) -> E, route: nat -> nat, rt: Runtime<E, T>, t: Turn<T>): Runtime<E, T>
    requires Shape(route, rt)
  {
    match t
    case Enqueue(sym, v) =>
      if rt.drain.Draining? then rt else Push(f, route, rt, if rt.busy.Some? then rt.busy.value else sym, v)
    case Poll => if rt.busy.Some? then rt else Wait(rt)
    case Work(i) => if i < |rt.shards| then rt.(shards := rt.shards[i := W.WorkerStep(f, rt.shards[i])]) else rt
    case StopAll =>
      if rt.busy.Some? then rt else
      rt.(shards := seq(|rt.shards|, i requires 0 <= i < |rt.shards| => rt.shards[i].(stop := true)), stop := true)
  }

  /** The commands routed to shard i, in the order they were published. */
  function RoutedTo<T>(route: nat -> nat, routed: seq<(nat, T)>, i: nat): seq<T>
    decreases |routed|
  {
    if routed == [] then [] else
    var k := |routed| - 1;
    RoutedTo(route, routed[..k], i) + if route(routed[k].0) == i then [routed[k].1] else []
  }

  /** drain has seen the count of shard i, and nothing has been pushed since. */
  predicate Passed<E, T>(rt: Runtime<E, T>, i: nat) {
    rt.drain.Drained? || (rt.drain.Draining? && i < rt.drain.at)
  }

  ghost predicate ShardSound<E, T>(f: (E, T) -> E, route: nat -> nat, init: seq<E>, rt: Runtime<E, T>, i: nat)
    requires i < |rt.shards| && |init| == |rt.shards|
  {
    var s := rt.shards[i];
    && W.Sound(f, init[i], s) && s.ring.pushed == RoutedTo(route, rt.routed, i)
    && s.stop == rt.stop
    && (s.ring.p.Resting? <==> !(rt.busy.Some? && i == route(rt.busy.value)))
    && (Passed(rt, i) ==> s.processed == |s.ring.pushed|)
  }

  ghost predicate Sound<E, T>(f: (E, T) -> E, route: nat -> nat, init: seq<E>, rt: Runtime<E, T>) {
    && |init| == |rt.shards| && (forall sym :: route(sym) < |rt.shards|)
         && (rt.busy.Some? ==> !rt.stop && rt.drain.NoDrain?)
    && (forall i: nat {:trigger ShardSound(f, route, init, rt, i)} | i < |rt.shards| ::
         ShardSound(f, route, init, rt, i))
  }

  lemma SoundShape<E, T>(f: (E, T) -> E, route: nat -> nat, init: seq<E>, rt: Runtime<E, T>)
    requires Sound(f, route, init, rt)
    ensures Shape(route, rt)
  {
    forall i | 0 <= i < |rt.shards| ensures rt.shards[i].ring.buf != [] {
      assert ShardSound(f, route, init, rt, i);
    }
  }

  lemma RoutedStep<T>(route: nat -> nat, routed: seq<(nat, T)>, sym: nat, v: T, i: nat)
    ensures RoutedTo(route, routed + [(sym, v)], i) == RoutedTo(route, routed, i) + if route(sym) == i then [v] else []
  {
    assert (routed + [(sym, v)])[..|routed|] == routed;
  }

  lemma PushSound<E, T>(f: (E, T) -> E, route: nat -> nat, init: seq<E>, rt: Runtime<E, T>, sym: nat, v: T)
    requires Sound(f, route, init, rt) && Shape(route, rt) && (rt.busy.Some? ==> sym == rt.busy.value)
    ensures Sound(f, route, init, Push(f, route, rt, sym, v))
  {
    var i := route(sym);
    var rt' := Push(f, route, rt, sym, v);
    assert ShardSound(f, route, init, rt, i);
    W.StepSound(f, init[i], rt.shards[i], W.Feed(v));
    forall j: nat | j < |rt'.shards| ensures ShardSound(f, route, init, rt', j) {
      assert ShardSound(f, route, init, rt, j);
      if rt.shards[i].ring.p.Sealing? {
        RoutedStep(route, rt.routed, sym, rt.shards[i].ring.p.v, j);
      }
    }
  }

  lemma WorkSound<E, T>(f: (E, T) -> E, route: nat -> nat, init: seq<E>, rt: Runtime<E, T>, i: nat)
    requires Sound(f, route, init, rt) && Shape(route, rt)
    ensures Sound(f, route, init, Next(f, route, rt, Work(i)))
  {
    var rt' := Next(f, route, rt, Work(i));
    forall j: nat | j < |rt'.shards| ensures ShardSound(f, route, init, rt', j) {
      assert ShardSound(f, route, init, rt, j);
      if i == j {
        W.WorkerSound(f, init[i], rt.shards[i]);
        W.WorkerFrame(f, rt.shards[i]);
        W.CountBounded(f, init[i], rt.shards[i]);
      }
    }
  }

  /** A shard that drain has passed stays settled while it looks at the others. */
  lemma WaitSound<E, T>(f: (E, T) -> E, route: nat -> nat, init: seq<E>, rt: Runtime<E, T>)
    requires Sound(f, route, init, rt) && rt.busy.None?
    ensures Sound(f, route, init, Wait(rt))
  {
    var rt' := Wait(rt);
    forall j: nat | j < |rt'.shards| ensures ShardSound(f, route, init, rt', j) {
      assert ShardSound(f, route, init, rt, j);
    }
  }

  lemma StopSound<E, T>(f: (E, T) -> E, route: nat -> nat, init: seq<E>, rt: Runtime<E, T>)
    requires Sound(f, route, init, rt) && Shape(route, rt)
    ensures Sound(f, route, init, Next(f, route, rt, StopAll))
  {
    var rt' := Next(f, route, rt, StopAll);
    forall j: nat | j < |rt'.shards| ensures ShardSound(f, route, init, rt', j) {
      assert ShardSound(f, route, init, rt, j);
    }
  }

  lemma NextSound<E, T>(f: (E, T) -> E, route: nat -> nat, init: seq<E>, rt: Runtime<E, T>, t: Turn<T>)
    requires Sound(f, route, init, rt)
    ensures Shape(route, rt) && Sound(f, route, init, Next(f, route, rt, t))
  {
    SoundShape(f, route, init, rt);
    match t
    case Enqueue(sym, v) =>
      if !rt.drain.Draining? {
        PushSound(f, route, init, rt, if rt.busy.Some? then rt.busy.value else sym, v);
      }
    case Poll =>
      if rt.busy.None? {
        WaitSound(f, route, init, rt);
      }
    case Work(i) => WorkSound(f, route, init, rt, i);
    case StopAll => StopSound(f, route, init, rt);
  }

  ghost function Play<E,
      T>(f: (E, T) -> E, route: nat -> nat, init: seq<E>, rt: Runtime<E, T>, ts: seq<Turn<T>>): (r: Runtime<E, T>)
    requires Sound(f, route, init, rt)
    ensures Sound(f, route, init, r) && |r.shards| == |init|
    decreases |ts|
  {
    if ts == [] then rt else
    NextSound(f, route, init, rt, ts[0]);
    Play(f, route, init, Next(f, route, rt, ts[0]), ts[1..])
  }

  /** The runtime before anything is pushed. */
  function Fresh<E, T>(capacity: nat, any: T, init: seq<E>): Runtime<E, T> {
    Runtime(seq(|init|, i requires 0 <= i < |init| => W.Fresh(capacity, any, init[i])), [], None, false, NoDrain)
  }

  lemma FreshSound<E, T>(f: (E, T) -> E, route: nat -> nat, capacity: nat, any: T, init: seq<E>)
    requires capacity > 0 && forall sym :: route(sym) < |init|
    ensures Sound(f, route, init, Fresh(capacity, any, init))
  {
    var rt := Fresh(capacity, any, init);
    forall i: nat | i < |rt.shards| ensures ShardSound(f, route, init, rt, i) {
      W.FreshSound(f, capacity, any, init[i]);
    }
  }

  // ----- quiescence, for every schedule

  /** stop has joined every worker. */
  predicate StopReturns<E, T>(rt: Runtime<E, T>) {
    forall i | 0 <= i < |rt.shards| :: rt.shards[i].w.Finished?
  }

  /** Under every schedule, when drain has returned, or stop, each shard's engine has applied exactly the
      commands routed to it, once each, in push order. */
  lemma Quiesced<E, T>(f: (E, T) -> E, route: nat -> nat, init: seq<E>, rt: Runtime<E, T>, ts: seq<Turn<T>>, i: nat)
    requires Sound(f, route, init, rt) && i < |init|
    ensures var r := Play(f, route, init, rt, ts);
            r.drain.Drained? || StopReturns(r) ==>
                r.shards[i].engine == W.Fold(f, init[i], RoutedTo(route, r.routed, i))
  {
    var r := Play(f, route, init, rt, ts);
    assert ShardSound(f, route, init, r, i);
    if r.drain.Drained? {
      W.Drained(f, init[i], r.shards[i]);
    } else if StopReturns(r) {
      W.Stopped(f, init[i], r.shards[i]);
    }
  }

  // ----- with the matching engine

  /** A command that meets the input contract takes its step. */
  ghost function ApplyCommand(st: State, c: Command): State {
    if Wf(st.b) && CommandOk(st, c) then EngineSpec.Step(st, c) else st
  }

  lemma {:induction false} RunSnoc(st: State, cs: seq<Command>, c: Command)
    requires Wf(st.b) && RunOk(st, cs + [c])
    ensures RunOk(st, cs) && CommandOk(Run(st, cs), c) && Run(st, cs + [c]) == EngineSpec.Step(Run(st, cs), c)
    decreases |cs|
  {
    forall d | d in cs ensures CommandOk(st, d) {
      assert d in cs + [c];
    }
    assert c in cs + [c];
    if cs == [] {
      assert [c][1..] == [];
      assert (cs + [c])[1..] == [];
      assert Run(st, cs + [c]) == Run(EngineSpec.Step(st, c), []) by {
        assert (cs + [c])[0] == c;
        RunTail(st, EngineSpec.Step(st, c), cs + [c]);
      }
    } else {
      assert (cs + [c])[1..] == cs[1..] + [c] && (cs + [c])[0] == cs[0];
      var st' := EngineSpec.Step(st, cs[0]);
      RunTail(st, st', cs + [c]);
      RunTail(st, st', cs);
      RunSnoc(st', cs[1..], c);
    }
  }

  /** Folding commands over an engine is running them. */
  lemma {:induction false} FoldIsRun(st: State, cs: seq<Command>)
    requires Wf(st.b) && RunOk(st, cs)
    ensures W.Fold(ApplyCommand, st, cs) == Run(st, cs)
    decreases |cs|
  {
    if cs != [] {
      var k := |cs| - 1;
      assert cs == cs[..k] + [cs[k]];
      RunSnoc(st, cs[..k], cs[k]);
      FoldIsRun(st, cs[..k]);
    }
  }

  /** A shard's engine after drain or stop is the single-threaded engine run on its own commands. */
  lemma ShardIsEngine(route: nat -> nat, init: seq<State>, rt: Runtime<State, Command>, ts: seq<Turn<Command>>, i: nat)
    requires Sound(ApplyCommand, route, init, rt) && i < |init| && Wf(init[i].b)
    ensures var r := Play(ApplyCommand, route, init, rt, ts);
            var cs := RoutedTo(route, r.routed, i);
            (r.drain.Drained? || StopReturns(r)) && RunOk(init[i], cs) ==> r.shards[i].engine == Run(init[i], cs)
  {
    var r := Play(ApplyCommand, route, init, rt, ts);
    Quiesced(ApplyCommand, route, init, rt, ts, i);
    if RunOk(init[i], RoutedTo(route, r.routed, i)) {
      FoldIsRun(init[i], RoutedTo(route, r.routed, i));
    }
  }
}
