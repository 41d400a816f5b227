/** The sharded runtime and the merger as one machine: what a shard's engine publishes while its worker
    applies a command goes through the shard's publisher, ring and merger to the sink. */
module Pipelines {
  import opened Types
  import opened Books
  import opened EngineSpec
  import opened Stream
  import opened Stamps
  import G = Rings
  import W = Workers
  import R = Runtimes
  import X = Egresses

  /** The runtime, the merger over the shards' rings, and per shard the events that its worker has yet to
      get back from publishing. */
  datatype Line = Line(rt: R.Runtime<State, Command>, m: X.Merger<Event>, due: seq<seq<Event>>)

  /** An access of the runtime's threads, one of the merger's, or stop is requested of the merger. */
  datatype Turn = Drive(t: R.Turn<Command>) | Merge | StopMerger

  /** An engine's events since the first n. */
  function Since(st: State, n: nat): seq<Event> {
    if n <= |st.events| then st.events[n..] else []
  }

  /** The worker of shard i goes on with the ring only once all its engine has published is dealt with. */
  ghost function WorkStep(route: nat -> nat, l: Line, i: nat): Line
    requires R.Shape(route, l.rt) && X.Shape(l.m) && i < |l.rt.shards| == |l.m.egress| == |l.due|
  {
    if l.due[i] == [] then
      var rt := R.Next(R.ApplyCommand, route, l.rt, R.Work(i));
      l.(rt := rt, due := l.due[i := Since(rt.shards[i].engine, |l.rt.shards[i].engine.events|)])
    else
      var m := X.Next(l.m, X.Publish(i, l.due[i][0]), 0);
      l.(m := m, due := if m.egress[i].ring.p.Resting? then l.due[i := l.due[i][1..]] else l.due)
  }

  ghost predicate Shape(route: nat -> nat, l: Line) {
    R.Shape(route, l.rt) && X.Shape(l.m) && |l.rt.shards| == |l.m.egress| == |l.due|
  }

  /** The merger is asked to stop when the workers are gone. */
  ghost function Next(route: nat -> nat, l: Line, t: Turn, batch: nat): Line
    requires Shape(route, l)
  {
    match t
    case Drive(u) =>
      if u.Work? then (if u.i < |l.due| then WorkStep(route, l, u.i) else l)
      else l.(rt := R.Next(R.ApplyCommand, route, l.rt, u))
    case Merge => l.(m := X.Next(l.m, X.Merge, batch))
    case StopMerger => if R.StopReturns(l.rt) then l.(m := X.Next(l.m, X.StopMerger, batch)) else l
  }

  // ----- what every step keeps

  /** The events that have been through the publisher, kept or dropped. */
  function Offered(fate: seq<(Event, bool)>): (r: seq<Event>)
    ensures |r| == |fate| && forall k | 0 <= k < |fate| :: r[k] == fate[k].0
  {
    seq(|fate|, k requires 0 <= k < |fate| => fate[k].0)
  }

  /** The event that the publisher is pushing, before its fate is settled. */
  predicate Pushing(p: G.Producer<Event>, e: Event) {
    match p
    case Resting => true
    case Moving => true
    case Checking(v) => v == e
    case Loading(v) => v == e
    case Writing(v) => v == e
    case Sealing(v) => v == e
  }

  /** Between publisher p and the events due, all that the engine has published is accounted for. */
  predicate Tallied(fate: seq<(Event, bool)>, p: G.Producer<Event>, due: seq<Event>, published: seq<Event>) {
    if due == [] then p.Resting? && Offered(fate) == published
    else Pushing(p, due[0]) && Offered(fate) + (if p.Moving? then due[1..] else due) == published
  }

  /** With events due, the worker is in the midst of a claim. */
  predicate Amidst(s: W.Shard<State, Command>, due: seq<Event>) {
    due != [] ==> s.ring.c.Reading? && s.ring.c.read > 0
  }

  ghost predicate Joined(init: seq<State>, l: Line, i: nat)
    requires i < |init| == |l.rt.shards| == |l.m.egress| == |l.due|
  {
    var s, e := l.rt.shards[i], l.m.egress[i];
    && init[i].events <= s.engine.events
    && Tallied(e.fate, e.ring.p, l.due[i], Since(s.engine, |init[i].events|))
    && Amidst(s, l.due[i])
    && (l.m.stop ==> s.w.Finished?)
  }

  ghost predicate Sound(route: nat -> nat, init: seq<State>, l: Line, batch: nat) {
    && R.Sound(R.ApplyCommand, route, init, l.rt) && X.Sound(l.m, batch)
    && |init| == |l.rt.shards| == |l.m.egress| == |l.due|
    && forall i: nat {:trigger Joined(init, l, i)} | i < |init| :: Joined(init, l, i)
  }

  lemma SoundShape(route: nat -> nat, init: seq<State>, l: Line, batch: nat)
    requires Sound(route, init, l, batch)
    ensures Shape(route, l)
  {
    R.SoundShape(R.ApplyCommand, route, init, l.rt);
    X.SoundShape(l.m, batch);
  }

  /** Applying a command only adds to what an engine has published. */
  lemma ApplyGrows(st: State, c: Command)
    ensures st.events <= R.ApplyCommand(st, c).events
  {
    if Wf(st.b) && CommandOk(st, c) {
      StepStreams(st, c);
    }
  }

  lemma WorkApplies(s: W.Shard<State, Command>, s': W.Shard<State, Command>)
    requires s.ring.buf != [] && s' == W.WorkerStep(R.ApplyCommand, s)
    ensures s.engine.events <= s'.engine.events
    ensures Since(s'.engine, |s.engine.events|) == [] || (s'.ring.c.Reading? && s'.ring.c.read > 0)
    ensures s.w.Finished? ==> s' == s
  {
    var v := W.WorkerApplies(R.ApplyCommand, s);
    if v.Some? {
      ApplyGrows(s.engine, v.value);
    }
  }

  /** A publisher's access for the first of the events due. */
  lemma PublishTells(e: X.Egress<Event>, due: seq<Event>, published: seq<Event>)
    requires e.ring.buf != [] && due != [] && Tallied(e.fate, e.ring.p, due, published)
    ensures var e' := X.PublishStep(e, due[0]);
            Tallied(e'.fate, e'.ring.p, if e'.ring.p.Resting? then due[1..] else due, published)
  {
    var e' := X.PublishStep(e, due[0]);
    assert due == [due[0]] + due[1..];
    if e'.fate != e.fate {
      assert Offered(e'.fate) == Offered(e.fate) + [due[0]];
      assert Offered(e'.fate) + due[1..] == Offered(e.fate) + due;
    }
    if due[1..] == [] {
      assert Offered(e'.fate) + due[1..] == Offered(e'.fate);
    }
  }

  lemma WorkTells(init: seq<Event>, fate: seq<(Event, bool)>, p: G.Producer<Event>, st: State, st': State)
    requires init <= st.events <= st'.events && Tallied(fate, p, [], Since(st, |init|))
    ensures Tallied(fate, p, Since(st', |st.events|), Since(st', |init|))
  {
    var out := Since(st', |st.events|);
    assert st'.events == st.events + out;
    assert Since(st', |init|) == Since(st, |init|) + out;
  }

  // ----- the steps

  /** What the rest of the machine sees of a shard. */
  predicate SameWorker(s: W.Shard<State, Command>, s': W.Shard<State, Command>) {
    s'.engine == s.engine && s'.ring.c == s.ring.c && s'.w == s.w
  }

  predicate SamePublisher(e: X.Egress<Event>, e': X.Egress<Event>) {
    e'.fate == e.fate && e'.ring.p == e.ring.p
  }

  lemma JoinedStill(init: seq<State>, l: Line, l': Line, i: nat)
    requires i < |init| == |l.rt.shards| == |l.m.egress| == |l.due| && Joined(init, l, i)
    requires |l'.rt.shards| == |l'.m.egress| == |l'.due| == |init| && l'.due[i] == l.due[i]
    requires SameWorker(l.rt.shards[i], l'.rt.shards[i]) && SamePublisher(l.m.egress[i], l'.m.egress[i])
    requires l'.m.stop ==> l.m.stop || l.rt.shards[i].w.Finished?
    ensures Joined(init, l', i)
  {
  }

  /** The producer's and the controller's accesses are none of the workers' business. */
  lemma DriveFrame<E, T>(f: (E, T) -> E, route: nat -> nat, rt: R.Runtime<E, T>, u: R.Turn<T>, i: nat)
    requires R.Shape(route, rt) && i < |rt.shards| && !u.Work?
    ensures var rt' := R.Next(f, route, rt, u);
            && |rt'.shards| == |rt.shards|
            && rt'.shards[i].engine == rt.shards[i].engine && rt'.shards[i].ring.c == rt.shards[i].ring.c
            && rt'.shards[i].w == rt.shards[i].w
  {
  }

  lemma MergeFrame(m: X.Merger<Event>, batch: nat, i: nat)
    requires X.Shape(m) && i < |m.egress|
    ensures var m' := X.Next(m, X.Merge, batch);
            |m'.egress| == |m.egress| && SamePublisher(m.egress[i], m'.egress[i]) && m'.stop == m.stop
  {
  }

  lemma WorkSound(route: nat -> nat, init: seq<State>, l: Line, i: nat, batch: nat)
    requires Sound(route, init, l, batch) && Shape(route, l) && i < |init| && l.due[i] == []
    ensures Sound(route, init, WorkStep(route, l, i), batch)
  {
    var l' := WorkStep(route, l, i);
    R.NextSound(R.ApplyCommand, route, init, l.rt, R.Work(i));
    forall j: nat | j < |init| ensures Joined(init, l', j) {
      assert Joined(init, l, j);
      if j == i {
        WorkApplies(l.rt.shards[i], l'.rt.shards[i]);
        WorkTells(init[i].events, l.m.egress[i].fate, l.m.egress[i].ring.p, l.rt.shards[i].engine,
                  l'.rt.shards[i].engine);
      } else {
        JoinedStill(init, l, l', j);
      }
    }
  }

  /** With events due, the merger has not been asked to stop. */
  lemma NotStopped(route: nat -> nat, init: seq<State>, l: Line, i: nat, batch: nat)
    requires Sound(route, init, l, batch) && i < |init| && l.due[i] != []
    ensures !l.m.stop
  {
    assert Joined(init, l, i);
    assert R.ShardSound(R.ApplyCommand, route, init, l.rt, i);
  }

  lemma PublishSound(route: nat -> nat, init: seq<State>, l: Line, i: nat, batch: nat)
    requires Sound(route, init, l, batch) && Shape(route, l) && i < |init| && l.due[i] != []
    ensures Sound(route, init, WorkStep(route, l, i), batch)
  {
    var l' := WorkStep(route, l, i);
    NotStopped(route, init, l, i, batch);
    X.PublishSound(l.m, i, l.due[i][0], batch);
    forall j: nat | j < |init| ensures Joined(init, l', j) {
      assert Joined(init, l, j);
      if j == i {
        PublishTells(l.m.egress[i], l.due[i], Since(l.rt.shards[i].engine, |init[i].events|));
      } else {
        JoinedStill(init, l, l', j);
      }
    }
  }

  lemma DriveSound(route: nat -> nat, init: seq<State>, l: Line, u: R.Turn<Command>, batch: nat)
    requires Sound(route, init, l, batch) && Shape(route, l) && !u.Work?
    ensures Sound(route, init, l.(rt := R.Next(R.ApplyCommand, route, l.rt, u)), batch)
  {
    var l' := l.(rt := R.Next(R.ApplyCommand, route, l.rt, u));
    R.NextSound(R.ApplyCommand, route, init, l.rt, u);
    forall j: nat | j < |init| ensures Joined(init, l', j) {
      assert Joined(init, l, j);
      DriveFrame(R.ApplyCommand, route, l.rt, u, j);
      JoinedStill(init, l, l', j);
    }
  }

  lemma MergeSound(route: nat -> nat, init: seq<State>, l: Line, batch: nat)
    requires Sound(route, init, l, batch) && Shape(route, l)
    ensures Sound(route, init, l.(m := X.Next(l.m, X.Merge, batch)), batch)
  {
    var l' := l.(m := X.Next(l.m, X.Merge, batch));
    X.NextSound(l.m, X.Merge, batch);
    forall j: nat | j < |init| ensures |l'.m.egress| == |init| && Joined(init, l', j) {
      assert Joined(init, l, j);
      MergeFrame(l.m, batch, j);
      JoinedStill(init, l, l', j);
    }
    if init == [] {
      assert l.m.egress == [];
    }
  }

  lemma StopSound(route: nat -> nat, init: seq<State>, l: Line, batch: nat)
    requires Sound(route, init, l, batch) && Shape(route, l) && R.StopReturns(l.rt)
    ensures Sound(route, init, l.(m := X.Next(l.m, X.StopMerger, batch)), batch)
  {
    var l' := l.(m := X.Next(l.m, X.StopMerger, batch));
    X.NextSound(l.m, X.StopMerger, batch);
    forall j: nat | j < |init| ensures Joined(init, l', j) {
      assert Joined(init, l, j);
      JoinedStill(init, l, l', j);
    }
  }

  lemma NextSound(route: nat -> nat, init: seq<State>, l: Line, t: Turn, batch: nat)
    requires Sound(route, init, l, batch)
    ensures Shape(route, l) && Sound(route, init, Next(route, l, t, batch), batch)
  {
    SoundShape(route, init, l, batch);
    match t
    case Drive(u) =>
      if !u.Work? {
        DriveSound(route, init, l, u, batch);
      } else if u.i < |init| {
        if l.due[u.i] == [] {
          WorkSound(route, init, l, u.i, batch);
        } else {
          PublishSound(route, init, l, u.i, batch);
        }
      }
    case Merge => MergeSound(route, init, l, batch);
    case StopMerger =>
      if R.StopReturns(l.rt) {
        StopSound(route, init, l, batch);
      }
  }

  ghost function Play(route: nat -> nat, init: seq<State>, l: Line, ts: seq<Turn>, batch: nat): (r: Line)
    requires Sound(route, init, l, batch)
    ensures Sound(route, init, r, batch)
    decreases |ts|
  {
    if ts == [] then l else
    NextSound(route, init, l, ts[0], batch);
    Play(route, init, Next(route, l, ts[0], batch), ts[1..], batch)
  }

  // ----- from the engines to the sink, for every schedule

  /** The machine before anything is pushed. */
  function Fresh(ingress: nat, anyCommand: Command, egress: nat, anyEvent: Event, init: seq<State>): Line {
    Line(R.Fresh(ingress, anyCommand, init), X.Fresh(|init|, egress, anyEvent), seq(|init|, _ => []))
  }

  lemma FreshSound(route: nat -> nat, ingress: nat, anyCommand: Command, egress: nat, anyEvent: Event,
                   init: seq<State>, batch: nat)
    requires ingress > 0 && egress > 0 && batch > 0 && forall sym :: route(sym) < |init|
    ensures Sound(route, init, Fresh(ingress, anyCommand, egress, anyEvent, init), batch)
  {
    var l := Fresh(ingress, anyCommand, egress, anyEvent, init);
    R.FreshSound(R.ApplyCommand, route, ingress, anyCommand, init);
    X.FreshSound(|init|, egress, anyEvent, batch);
    forall i: nat | i < |init| ensures Joined(init, l, i) {
      assert Offered([]) == [];
    }
  }

  /** A shard that is settled has nothing due. */
  lemma NothingDue(route: nat -> nat, init: seq<State>, l: Line, batch: nat, i: nat)
    requires Sound(route, init, l, batch) && i < |init| && (l.rt.drain.Drained? || R.StopReturns(l.rt))
    ensures l.due[i] == []
  {
    assert Joined(init, l, i);
    assert R.ShardSound(R.ApplyCommand, route, init, l.rt, i);
  }

  lemma {:induction false} KeptAll(fate: seq<(Event, bool)>)
    ensures |X.Kept(fate)| <= |fate| && (|X.Kept(fate)| == |fate| ==> X.Kept(fate) == Offered(fate))
    decreases |fate|
  {
    if fate != [] {
      var k := |fate| - 1;
      KeptAll(fate[..k]);
      assert Offered(fate) == Offered(fate[..k]) + [fate[k].0];
    }
  }

  /** Under every schedule, when drain has returned, or stop, the shard's publisher has been through exactly
      what the single-threaded engine publishes when it runs the commands routed to the shard. */
  lemma PublishedIsRun(route: nat -> nat, init: seq<State>, l: Line, ts: seq<Turn>, batch: nat, i: nat)
    requires Sound(route, init, l, batch) && i < |init| && Wf(init[i].b)
    ensures var r := Play(route, init, l, ts, batch);
            var cs := R.RoutedTo(route, r.rt.routed, i);
            (r.rt.drain.Drained? || R.StopReturns(r.rt)) && RunOk(init[i], cs) ==>
              Offered(r.m.egress[i].fate) == Since(Run(init[i], cs), |init[i].events|)
  {
    var r := Play(route, init, l, ts, batch);
    if (r.rt.drain.Drained? || R.StopReturns(r.rt)) && RunOk(init[i], R.RoutedTo(route, r.rt.routed, i)) {
      NothingDue(route, init, r, batch, i);
      assert Joined(init, r, i);
      R.ShardIsEngine(route, init, r.rt, [], i);
    }
  }

  /** When the merger is gone, the sink has received of each shard what its publisher kept of those events,
      in order; where nothing was dropped, every one of them. */
  lemma SinkIsRun(route: nat -> nat, init: seq<State>, l: Line, ts: seq<Turn>, batch: nat, i: nat)
    requires Sound(route, init, l, batch) && i < |init| && Wf(init[i].b)
    ensures var r := Play(route, init, l, ts, batch);
            var cs, e := R.RoutedTo(route, r.rt.routed, i), r.m.egress[i];
            r.m.phase.Done? && RunOk(init[i], cs) ==>
              && Offered(e.fate) == Since(Run(init[i], cs), |init[i].events|)
              && X.SinkOf(r.m.sink, i) == X.Kept(e.fate)
              && (e.dropped == 0 ==> X.SinkOf(r.m.sink, i) == Since(Run(init[i], cs), |init[i].events|))
  {
    var r := Play(route, init, l, ts, batch);
    if r.m.phase.Done? {
      forall j | 0 <= j < |r.rt.shards| ensures r.rt.shards[j].w.Finished? {
        assert Joined(init, r, j);
      }
      PublishedIsRun(route, init, l, ts, batch, i);
      X.MergerComplete(r.m, [], batch, i);
      assert X.EgressSound(r.m, i, batch);
      KeptAll(r.m.egress[i].fate);
    }
  }

  lemma {:induction false} KeptOffered(fate: seq<(Event, bool)>, x: nat) returns (k: nat)
    requires x < |X.Kept(fate)|
    ensures k < |fate| && X.Kept(fate)[x] == Offered(fate)[k]
    decreases |fate|
  {
    var n := |fate| - 1;
    if x < |X.Kept(fate[..n])| {
      k := KeptOffered(fate[..n], x);
    } else {
      k := n;
    }
  }

  /** At every moment, what the sink has received of a shard, that shard's engine has published. */
  lemma SinkFrom(route: nat -> nat, init: seq<State>, l: Line, batch: nat, i: nat, x: nat) returns (k: nat)
    requires Sound(route, init, l, batch) && i < |init| && init[i].events == [] && x < |X.SinkOf(l.m.sink, i)|
    ensures k < |l.rt.shards[i].engine.events| && X.SinkOf(l.m.sink, i)[x] == l.rt.shards[i].engine.events[k]
  {
    assert X.EgressSound(l.m, i, batch) && Joined(init, l, i);
    var fate := l.m.egress[i].fate;
    assert X.SinkOf(l.m.sink, i)[x] == X.Kept(fate)[x];
    k := KeptOffered(fate, x);
    OfferedFirst(fate, l.m.egress[i].ring.p, l.due[i], l.rt.shards[i].engine.events, k);
  }

  lemma OfferedFirst(fate: seq<(Event, bool)>, p: G.Producer<Event>, due: seq<Event>, published: seq<Event>, k: nat)
    requires Tallied(fate, p, due, published) && k < |fate|
    ensures k < |published| && Offered(fate)[k] == published[k]
  {
  }

  /** The engine of a shard numbers its events without a gap from its base on. */
  lemma {:induction false} FoldNumbers(st: State, cs: seq<Command>)
    requires Wf(st.b) && Streaming(st)
    ensures var r := W.Fold(R.ApplyCommand, st, cs); Wf(r.b) && Streaming(r) && r.cfg == st.cfg
    decreases |cs|
  {
    if cs != [] {
      var k := |cs| - 1;
      FoldNumbers(st, cs[..k]);
      var mid := W.Fold(R.ApplyCommand, st, cs[..k]);
      if CommandOk(mid, cs[k]) {
        StepStreams(mid, cs[k]);
      }
    }
  }

  lemma ShardNumbers(route: nat -> nat, init: seq<State>, l: Line, batch: nat, i: nat,
                     logShards: nat, ticks: nat, maxOrders: nat, cfg: Config)
    requires Sound(route, init, l, batch) && i < |init| && logShards <= BITS
    requires init[i] == Shard(i, logShards, ticks, maxOrders, cfg)
    ensures var e := l.rt.shards[i].engine; Numbered(e.events, SeqBase(i, logShards), e.seqNo)
  {
    assert R.ShardSound(R.ApplyCommand, route, init, l.rt, i);
    InitialStreams(ticks, maxOrders, init[i].cfg);
    FoldNumbers(init[i], l.rt.shards[i].ring.taken);
  }

  /** At every moment, no two shards' events stand in the sink under one number, while neither shard has
      used up its range. */
  lemma SinkStampsUnique(route: nat -> nat, init: seq<State>, l: Line, ts: seq<Turn>, batch: nat,
                         i: nat, x: nat, j: nat, y: nat, logShards: nat, ticks: nat, maxOrders: nat, cfg: Config)
    requires Sound(route, init, l, batch) && i < j < |init| <= Pow2(logShards) && logShards <= BITS
    requires init[i] == Shard(i, logShards, ticks, maxOrders, cfg)
    requires init[j] == Shard(j, logShards, ticks, maxOrders, cfg)
    requires var r := Play(route, init, l, ts, batch);
             && r.rt.shards[i].engine.seqNo < SeqBase(i, logShards) + Width(logShards)
             && r.rt.shards[j].engine.seqNo < SeqBase(j, logShards) + Width(logShards)
             && x < |X.SinkOf(r.m.sink, i)| && y < |X.SinkOf(r.m.sink, j)|
    ensures var sink := Play(route, init, l, ts, batch).m.sink;
            Number(X.SinkOf(sink, i)[x]) < Number(X.SinkOf(sink, j)[y])
  {
    var r := Play(route, init, l, ts, batch);
    var d, e := r.rt.shards[i].engine, r.rt.shards[j].engine;
    var a := SinkFrom(route, init, r, batch, i, x);
    var b := SinkFrom(route, init, r, batch, j, y);
    ShardNumbers(route, init, r, batch, i, logShards, ticks, maxOrders, cfg);
    ShardNumbers(route, init, r, batch, j, logShards, ticks, maxOrders, cfg);
    NumberedAscends(d.events, SeqBase(i, logShards), d.seqNo, a, a);
    NumberedAscends(e.events, SeqBase(j, logShards), e.seqNo, b, b);
    RangesApart(i, j, logShards);
  }
}
