/** The machine of runtime and merger gets to its end: told to stop, every worker finishes, publishing
    included, and the merger then delivers all there is. */
module LineProgress {
  import opened Types
  import opened EngineSpec
  import G = Rings
  import W = Workers
  import R = Runtimes
  import X = Egresses
  import opened Progress
  import MergerProgress
  import opened Pipelines

  // ----- workers that publish

  /** Accesses until the publisher is done with the events due. */
  function PublishLeft(due: seq<Event>, p: G.Producer<Event>): nat {
    if due == [] then 0 else 6 * (|due| - 1) + if p.Resting? then 6 else PushLeft(p)
  }

  /** Applying commands only adds events. */
  lemma {:induction false} FoldGrows(st: State, cs: seq<Command>, k: nat)
    requires k <= |cs|
    ensures W.Fold(R.ApplyCommand, st, cs[..k]).events <= W.Fold(R.ApplyCommand, st, cs).events
    decreases |cs|
  {
    if k == |cs| {
      assert cs[..k] == cs;
    } else {
      var n := |cs| - 1;
      assert cs[..n][..k] == cs[..k];
      FoldGrows(st, cs[..n], k);
      ApplyGrows(W.Fold(R.ApplyCommand, st, cs[..n]), cs[n]);
    }
  }

  /** The events that the shard's engine has yet to publish. */
  ghost function ToCome(init: State, s: W.Shard<State, Command>): nat {
    var all := |W.Fold(R.ApplyCommand, init, s.ring.pushed).events|;
    if |s.engine.events| <= all then all - |s.engine.events| else 0
  }

  lemma ToComeIs(init: State, s: W.Shard<State, Command>)
    requires W.Sound(R.ApplyCommand, init, s)
    ensures |s.engine.events| + ToCome(init, s) == |W.Fold(R.ApplyCommand, init, s.ring.pushed).events|
  {
    FoldGrows(init, s.ring.pushed, |s.ring.taken|);
    assert s.ring.taken == s.ring.pushed[..|s.ring.taken|];
  }

  /** Accesses until worker i is gone: its own, and six for each event. */
  ghost function WorkLeft(init: seq<State>, l: Line, i: nat): nat
    requires i < |init| == |l.rt.shards| == |l.m.egress| == |l.due|
  {
    StopLeft(l.rt.shards[i]) + 6 * ToCome(init[i], l.rt.shards[i]) + PublishLeft(l.due[i], l.m.egress[i].ring.p)
  }

  lemma ApplyGoesOn(init: State, s: W.Shard<State, Command>, s': W.Shard<State, Command>)
    requires W.Sound(R.ApplyCommand, init, s) && s.stop && !s.w.Finished? && s' == W.WorkerStep(R.ApplyCommand, s)
    ensures StopLeft(s') < StopLeft(s)
    ensures |Since(s'.engine, |s.engine.events|)| + ToCome(init, s') == ToCome(init, s)
  {
    StopGoesOn(R.ApplyCommand, init, s);
    W.WorkerSound(R.ApplyCommand, init, s);
    W.WorkerFrame(R.ApplyCommand, s);
    WorkApplies(s, s');
    ToComeIs(init, s);
    ToComeIs(init, s');
  }

  lemma PublishGoesOn(e: X.Egress<Event>, due: seq<Event>)
    requires e.ring.buf != [] && due != []
    ensures var p' := X.PublishStep(e, due[0]).ring.p;
            PublishLeft(if p'.Resting? then due[1..] else due, p') < PublishLeft(due, e.ring.p)
  {
  }

  lemma WorkGoesOn(route: nat -> nat, init: seq<State>, l: Line, i: nat, batch: nat)
    requires Sound(route, init, l, batch) && Shape(route, l) && i < |init| && l.rt.stop
    requires !l.rt.shards[i].w.Finished? && l.due[i] == []
    ensures |WorkStep(route, l, i).rt.shards| == |init|
    ensures WorkLeft(init, WorkStep(route, l, i), i) < WorkLeft(init, l, i)
  {
    assert R.ShardSound(R.ApplyCommand, route, init, l.rt, i) && Joined(init, l, i);
    ApplyGoesOn(init[i], l.rt.shards[i], WorkStep(route, l, i).rt.shards[i]);
  }

  lemma HandOverGoesOn(route: nat -> nat, init: seq<State>, l: Line, i: nat, batch: nat)
    requires Sound(route, init, l, batch) && Shape(route, l) && i < |init| && l.due[i] != []
    ensures |WorkStep(route, l, i).m.egress| == |init|
    ensures WorkLeft(init, WorkStep(route, l, i), i) < WorkLeft(init, l, i)
  {
    NotStopped(route, init, l, i, batch);
    PublishGoesOn(l.m.egress[i], l.due[i]);
  }

  /** Turns other than its own leave a stopped worker and its publisher where they are. */
  lemma OtherTurns(route: nat -> nat, init: seq<State>, l: Line, t: Turn, i: nat, batch: nat)
    requires Sound(route, init, l, batch) && Shape(route, l) && i < |init| && l.rt.stop && t != Drive(R.Work(i))
    ensures var l' := Next(route, l, t, batch);
            && |l'.rt.shards| == |l'.m.egress| == |l'.due| == |init| && l'.rt.stop
            && WorkLeft(init, l', i) == WorkLeft(init, l, i)
  {
    match t
    case Drive(u) =>
      StoppedFrame(R.ApplyCommand, route, init, l.rt, u, i);
    case Merge => MergeFrame(l.m, batch, i);
    case StopMerger =>
  }

  lemma OwnTurn(route: nat -> nat, init: seq<State>, l: Line, i: nat, batch: nat)
    requires Sound(route, init, l, batch) && Shape(route, l) && i < |init| && l.rt.stop
    ensures var l' := Next(route, l, Drive(R.Work(i)), batch);
            && |l'.rt.shards| == |l'.m.egress| == |l'.due| == |init| && l'.rt.stop
            && (WorkLeft(init, l, i) > 0 ==> WorkLeft(init, l', i) < WorkLeft(init, l, i))
            && (WorkLeft(init, l, i) == 0 ==> WorkLeft(init, l', i) == 0)
  {
    assert R.ShardSound(R.ApplyCommand, route, init, l.rt, i) && Joined(init, l, i);
    StoppedFrame(R.ApplyCommand, route, init, l.rt, R.Work(i), i);
    if l.due[i] != [] {
      HandOverGoesOn(route, init, l, i, batch);
    } else if !l.rt.shards[i].w.Finished? {
      WorkGoesOn(route, init, l, i, batch);
    } else {
      W.Stopped(R.ApplyCommand, init[i], l.rt.shards[i]);
    }
  }

  /** How many accesses the schedule gives the worker of shard i. */
  function Shifts(ts: seq<Turn>, i: nat): nat {
    if ts == [] then 0 else (if ts[0] == Drive(R.Work(i)) then 1 else 0) + Shifts(ts[1..], i)
  }

  /** Once stop is requested, so many accesses see the worker gone and all its events through the publisher. */
  lemma {:induction false} LineStops(route: nat -> nat, init: seq<State>, l: Line, ts: seq<Turn>, i: nat, batch: nat)
    requires Sound(route, init, l, batch) && i < |init| && l.rt.stop && Shifts(ts, i) >= WorkLeft(init, l, i)
    ensures var r := Play(route, init, l, ts, batch); r.rt.shards[i].w.Finished? && r.due[i] == []
    decreases |ts|
  {
    if ts == [] {
      assert R.ShardSound(R.ApplyCommand, route, init, l.rt, i);
    } else {
      NextSound(route, init, l, ts[0], batch);
      if ts[0] == Drive(R.Work(i)) {
        OwnTurn(route, init, l, i, batch);
      } else {
        OtherTurns(route, init, l, ts[0], i, batch);
      }
      LineStops(route, init, Next(route, l, ts[0], batch), ts[1..], i, batch);
    }
  }

  // ----- then the merger

  lemma StopTaken(route: nat -> nat, init: seq<State>, l: Line, batch: nat)
    requires Sound(route, init, l, batch) && Shape(route, l) && R.StopReturns(l.rt)
    ensures Next(route, l, StopMerger, batch).m == l.m.(stop := true)
  {
    forall i | 0 <= i < |l.m.egress| ensures l.m.egress[i].ring.p.Resting? {
      NothingDue(route, init, l, batch, i);
      assert Joined(init, l, i);
    }
  }

  /** Once it is asked to stop, only its own accesses move the merger. */
  lemma MergerTurns(route: nat -> nat, init: seq<State>, l: Line, t: Turn, batch: nat)
    requires Sound(route, init, l, batch) && Shape(route, l) && l.m.stop
    ensures Next(route, l, t, batch).m == if t.Merge? then X.MergeStep(l.m, batch) else l.m
    ensures X.MergeStep(l.m, batch).stop
  {
    if t.Drive? && t.t.Work? && t.t.i < |l.due| && l.due[t.t.i] != [] {
      NotStopped(route, init, l, t.t.i, batch);
    }
  }

  function Merges(ts: seq<Turn>): nat {
    if ts == [] then 0 else (if ts[0].Merge? then 1 else 0) + Merges(ts[1..])
  }

  lemma {:induction false} LineMerges(route: nat -> nat, init: seq<State>, l: Line, ts: seq<Turn>, batch: nat)
    requires Sound(route, init, l, batch) && l.m.stop && Merges(ts) >= MergerProgress.Left(l.m)
    ensures Play(route, init, l, ts, batch).m.phase.Done?
    decreases |ts|
  {
    MergerProgress.LeftBounds(l.m, batch);
    if ts != [] {
      NextSound(route, init, l, ts[0], batch);
      MergerTurns(route, init, l, ts[0], batch);
      if !l.m.phase.Done? {
        MergerProgress.MergeGoesOn(l.m, batch);
      }
      LineMerges(route, init, Next(route, l, ts[0], batch), ts[1..], batch);
    }
  }

  /** Stopped in order, the whole machine comes to rest: the workers within their accesses, then the merger
      within its own; and the sink has then received all that was kept of every engine's events. */
  lemma LineEnds(route: nat -> nat, init: seq<State>, l: Line, ts: seq<Turn>, more: seq<Turn>, batch: nat)
    returns (mid: Line)
    requires Sound(route, init, l, batch) && l.rt.stop
    requires forall i: nat | i < |init| :: Shifts(ts, i) >= WorkLeft(init, l, i)
    requires var m := Play(route, init, l, ts, batch).m;
             Merges(more) >= (2 * |m.egress| + 8) * MergerProgress.Backlog(m.egress) + 6 * |m.egress| + 4
    ensures Shape(route, Play(route, init, l, ts, batch))
    ensures mid == Next(route, Play(route, init, l, ts, batch), StopMerger, batch)
    ensures Sound(route, init, mid, batch) && Play(route, init, mid, more, batch).m.phase.Done?
  {
    var r := Play(route, init, l, ts, batch);
    forall i: nat | i < |init| ensures r.rt.shards[i].w.Finished? {
      LineStops(route, init, l, ts, i, batch);
    }
    SoundShape(route, init, r, batch);
    NextSound(route, init, r, StopMerger, batch);
    StopTaken(route, init, r, batch);
    mid := Next(route, r, StopMerger, batch);
    MergerProgress.LeftBounds(mid.m, batch);
    LineMerges(route, init, mid, more, batch);
  }
}
