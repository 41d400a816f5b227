/** Whatever is asked of a thread gets done: pushes end, a worker told to stop finishes, drain returns and
    the merger comes to an end, each within a number of its own accesses counted from what is queued. */
module Progress {
  import opened Rings
  import W = Workers
  import R = Runtimes

  // ----- pushes

  /** The accesses that a push has left. */
  function PushLeft<T>(p: Producer<T>): nat {
    match p
    case Resting => 0
    case Checking(_) => 5
    case Loading(_) => 4
    case Writing(_) => 3
    case Sealing(_) => 2
    case Moving => 1
  }

  lemma PushGoesOn<T>(r: Ring<T>, v: T)
    requires r.buf != [] && !r.p.Resting?
    ensures PushLeft(ProducerStep(r, v).p) < PushLeft(r.p)
  {
  }

  function Produces<T>(steps: seq<Step<T>>): nat {
    if steps == [] then 0 else (if steps[0].Produce? then 1 else 0) + Produces(steps[1..])
  }

  /** However the consumer moves, a push ends within five accesses of the producer. */
  lemma {:induction false} PushEnds<T>(r: Ring<T>, steps: seq<Step<T>>) returns (k: nat)
    requires Inv(r) && Produces(steps) >= PushLeft(r.p)
    ensures k <= |steps| && Play(r, steps[..k]).p.Resting?
    decreases |steps|
  {
    if r.p.Resting? {
      k := 0;
    } else {
      var r' := Next(r, steps[0]);
      NextKeeps(r, steps[0]);
      if steps[0].Produce? {
        PushGoesOn(r, steps[0].v);
      }
      k := PushEnds(r', steps[1..]);
      k := k + 1;
      assert steps[..k][0] == steps[0] && steps[..k][1..] == steps[1..][..k - 1];
    }
  }

  // ----- claims

  /** What is published and not released. */
  function Queued<T>(r: Ring<T>): nat {
    if r.tail <= |r.pushed| then |r.pushed| - r.tail else 0
  }

  /** Accesses to an empty claim, if nothing more is published: six for each value queued are enough to
      claim, read and release it, and to have its claim counted. */
  function ClaimLeft<T>(r: Ring<T>): nat {
    match r.c
    case Waiting => 6 * Queued(r) + 2
    case Scanning(n, _) => 6 * Queued(r) + 1 - (if n <= Queued(r) then n else 0)
    case Reading(n, i) => 6 * Queued(r) - (if n + i <= 2 * Queued(r) then n + i else 0)
  }

  /** An access goes on with the claim; or it ends a claim of n, with room for one access more; or it ends
      an empty one, and then the queue is empty. */
  lemma ClaimGoesOn<T>(r: Ring<T>)
    requires Inv(r) && (r.c.Scanning? ==> r.c.max == W.BATCH)
    ensures var r' := ConsumerStep(r, W.BATCH);
            && (!W.Ends(r) ==> ClaimLeft(r') < ClaimLeft(r))
            && (W.Ends(r) && W.Returned(r.c) > 0 ==> ClaimLeft(r') + 1 < ClaimLeft(r))
            && (W.Ends(r) && W.Returned(r.c) == 0 ==> Queued(r) == 0 == Queued(r') && r'.c.Waiting?)
  {
    if r.c.Scanning? {
      SeenIsPublished(r, r.tail + r.c.n);
    }
  }

  // ----- a worker told to stop

  /** Accesses until the worker is gone. */
  function StopLeft<E, T>(s: W.Shard<E, T>): nat {
    match s.w
    case Polling => ClaimLeft(s.ring) + 4
    case Storing(_) => 6 * Queued(s.ring) + 7
    case Looking => 6 * Queued(s.ring) + 4
    case Finishing(_) => ClaimLeft(s.ring) + 1
    case LastStore(_) => 1
    case Finished => 0
  }

  lemma StopGoesOn<E, T>(f: (E, T) -> E, init: E, s: W.Shard<E, T>)
    requires W.Sound(f, init, s) && s.stop && !s.w.Finished?
    ensures StopLeft(W.WorkerStep(f, s)) < StopLeft(s)
  {
    if s.w.Polling? || s.w.Finishing? {
      ClaimGoesOn(s.ring);
    }
  }

  lemma StopLeftFew<E, T>(f: (E, T) -> E, init: E, s: W.Shard<E, T>)
    requires W.Sound(f, init, s)
    ensures StopLeft(s) <= 6 * Queued(s.ring) + 7
  {
  }

  function Works<E, T>(f: (E, T) -> E, s: W.Shard<E, T>, k: nat): (r: W.Shard<E, T>)
    requires s.ring.buf != []
    ensures r.ring.buf != []
    decreases k
  {
    if k == 0 then s else
    assert |W.WorkerStep(f, s).ring.buf| == |s.ring.buf|;
    Works(f, W.WorkerStep(f, s), k - 1)
  }

  /** Once stop is requested, so many accesses see the worker gone, and all that was pushed applied. */
  lemma {:induction false} WorkerStops<E, T>(f: (E, T) -> E, init: E, s: W.Shard<E, T>, k: nat)
    requires W.Sound(f, init, s) && s.stop && k >= StopLeft(s)
    ensures var r := Works(f, s, k);
            r.w.Finished? && r.engine == W.Fold(f, init, s.ring.pushed) && r.processed == |s.ring.pushed|
    decreases k
  {
    if k == 0 {
      W.Stopped(f, init, s);
    } else {
      if !s.w.Finished? {
        StopGoesOn(f, init, s);
      }
      W.WorkerSound(f, init, s);
      W.WorkerFrame(f, s);
      WorkerStops(f, init, W.WorkerStep(f, s), k - 1);
    }
  }

  // ----- stop

  /** How many accesses the schedule gives the worker of shard i. */
  function Given<T>(ts: seq<R.Turn<T>>, i: nat): nat {
    if ts == [] then 0 else (if ts[0] == R.Work(i) then 1 else 0) + Given(ts[1..], i)
  }

  /** Once stop is requested, only its worker touches a shard. */
  lemma StoppedFrame<E, T>(f: (E, T) -> E, route: nat -> nat, init: seq<E>, rt: R.Runtime<E, T>, t: R.Turn<T>, i: nat)
    requires R.Sound(f, route, init, rt) && R.Shape(route, rt) && rt.stop && i < |init|
    ensures var rt' := R.Next(f, route, rt, t);
            && rt'.stop && |rt'.shards| == |init|
            && rt'.shards[i] == if t == R.Work(i) then W.WorkerStep(f, rt.shards[i]) else rt.shards[i]
  {
    assert R.ShardSound(f, route, init, rt, i);
    if t.Enqueue? {
      assert R.ShardSound(f, route, init, rt, route(t.sym));
    }
  }

  lemma {:induction false} ShardStops<E, T>(f: (E, T) -> E, route: nat -> nat, init: seq<E>, rt: R.Runtime<E, T>,
                                            ts: seq<R.Turn<T>>, i: nat)
    requires R.Sound(f, route, init, rt) && rt.stop && i < |init| && |rt.shards| == |init|
    requires Given(ts, i) >= StopLeft(rt.shards[i])
    ensures R.Play(f, route, init, rt, ts).shards[i].w.Finished?
    decreases |ts|
  {
    assert R.ShardSound(f, route, init, rt, i);
    if ts != [] {
      R.NextSound(f, route, init, rt, ts[0]);
      StoppedFrame(f, route, init, rt, ts[0], i);
      if !rt.shards[i].w.Finished? {
        StopGoesOn(f, init[i], rt.shards[i]);
      }
      ShardStops(f, route, init, R.Next(f, route, rt, ts[0]), ts[1..], i);
    }
  }

  /** stop returns: once it is requested, every schedule that gives each worker six accesses for each of its
      queued commands, and seven more, sees all of them gone. */
  lemma StopEnds<E, T>(f: (E, T) -> E, route: nat -> nat, init: seq<E>, rt: R.Runtime<E, T>, ts: seq<R.Turn<T>>)
    requires R.Sound(f, route, init, rt) && rt.stop && |rt.shards| == |init|
    requires forall i | 0 <= i < |init| :: Given(ts, i) >= 6 * Queued(rt.shards[i].ring) + 7
    ensures R.StopReturns(R.Play(f, route, init, rt, ts))
  {
    forall i | 0 <= i < |init| ensures R.Play(f, route, init, rt, ts).shards[i].w.Finished? {
      assert R.ShardSound(f, route, init, rt, i);
      StopLeftFew(f, init[i], rt.shards[i]);
      ShardStops(f, route, init, rt, ts, i);
    }
  }

  // ----- drain

  /** Accesses until the worker's count is what was pushed, if nothing more is. */
  function SettleLeft<E, T>(s: W.Shard<E, T>): nat {
    if s.processed == |s.ring.pushed| then 0 else
    match s.w
    case Polling => ClaimLeft(s.ring) + 1
    case Storing(_) => 6 * Queued(s.ring) + 4
    case Looking => 6 * Queued(s.ring) + 4
    case Finishing(_) => ClaimLeft(s.ring) + 1
    case LastStore(_) => 1
    case Finished => 0
  }

  lemma SettleGoesOn<E, T>(f: (E, T) -> E, init: E, s: W.Shard<E, T>)
    requires W.Sound(f, init, s)
    ensures var s' := W.WorkerStep(f, s);
            if SettleLeft(s) == 0 then SettleLeft(s') == 0 else SettleLeft(s') < SettleLeft(s)
    ensures SettleLeft(s) == 0 <==> s.processed == |s.ring.pushed|
    ensures SettleLeft(s) <= 6 * Queued(s.ring) + 4
  {
    W.CountBounded(f, init, s);
    W.WorkerFrame(f, s);
    if s.w.Polling? || s.w.Finishing? {
      ClaimGoesOn(s.ring);
    }
  }

  function Polls<T>(ts: seq<R.Turn<T>>): nat {
    if ts == [] then 0 else (if ts[0].Poll? then 1 else 0) + Polls(ts[1..])
  }

  /** While the producer waits in drain, only its worker moves a shard on, and nothing is pushed. */
  lemma DrainFrame<E, T>(f: (E, T) -> E, route: nat -> nat, init: seq<E>, rt: R.Runtime<E, T>, t: R.Turn<T>, i: nat)
    requires R.Sound(f, route, init, rt) && R.Shape(route, rt) && rt.drain.Draining? && i < |init|
    ensures var rt' := R.Next(f, route, rt, t);
            && |rt'.shards| == |init| && (t.Poll? || rt'.drain == rt.drain)
            && var s, s' := rt.shards[i], rt'.shards[i];
               if t == R.Work(i) then s' == W.WorkerStep(f, s) else s' == s.(stop := s'.stop)
  {
    assert R.ShardSound(f, route, init, rt, i);
  }

  lemma SettleFrame<E, T>(s: W.Shard<E, T>, stop: bool)
    ensures SettleLeft(s.(stop := stop)) == SettleLeft(s)
  {
  }

  /** Every shard's count is what was pushed to it, or the schedule still gives its worker enough accesses. */
  ghost predicate Settling<E, T>(rt: R.Runtime<E, T>, ts: seq<R.Turn<T>>) {
    forall i: nat | i < |rt.shards| :: Given(ts, i) >= SettleLeft(rt.shards[i])
  }

  lemma SettlingOn<E, T>(f: (E, T) -> E, route: nat -> nat, init: seq<E>, rt: R.Runtime<E, T>, ts: seq<R.Turn<T>>)
    requires R.Sound(f, route, init, rt) && R.Shape(route, rt) && rt.drain.Draining? && ts != [] && Settling(rt, ts)
    ensures Settling(R.Next(f, route, rt, ts[0]), ts[1..])
  {
    var rt' := R.Next(f, route, rt, ts[0]);
    forall i: nat | i < |rt'.shards| ensures Given(ts[1..], i) >= SettleLeft(rt'.shards[i]) {
      assert |rt'.shards| == |init| by {
        DrainFrame(f, route, init, rt, ts[0], 0);
      }
      DrainFrame(f, route, init, rt, ts[0], i);
      assert R.ShardSound(f, route, init, rt, i);
      SettleGoesOn(f, init[i], rt.shards[i]);
      SettleFrame(rt.shards[i], rt'.shards[i].stop);
    }
  }

  /** The loads that drain has left. */
  function LoadsLeft<E, T>(rt: R.Runtime<E, T>): nat
    requires rt.drain.Draining?
  {
    if rt.drain.at <= |rt.shards| then |rt.shards| - rt.drain.at + 1 else 1
  }

  lemma LoadGoesOn<E, T>(rt: R.Runtime<E, T>)
    requires rt.drain.Draining? && forall i: nat | i < |rt.shards| :: SettleLeft(rt.shards[i]) == 0
    requires forall i: nat | i < |rt.shards| :: rt.shards[i].ring.head == rt.shards[i].processed
    ensures var rt' := R.Wait(rt); rt'.drain.Drained? || (rt'.drain.Draining? && LoadsLeft(rt') < LoadsLeft(rt))
  {
  }

  lemma DrainStep<E, T>(f: (E, T) -> E, route: nat -> nat, init: seq<E>, rt: R.Runtime<E, T>, t: R.Turn<T>)
    requires R.Sound(f, route, init, rt) && R.Shape(route, rt) && rt.drain.Draining?
    ensures var rt' := R.Next(f, route, rt, t); rt'.drain.Draining? || rt'.drain.Drained?
    ensures !t.Poll? ==> R.Next(f, route, rt, t).drain == rt.drain
    ensures |R.Next(f, route, rt, t).shards| == |rt.shards|
  {
  }

  lemma AllSettled<E, T>(f: (E, T) -> E, route: nat -> nat, init: seq<E>, rt: R.Runtime<E, T>)
    requires R.Sound(f, route, init, rt) && rt.drain.Draining? && Settling(rt, [])
    ensures forall i: nat | i < |rt.shards| ::
              SettleLeft(rt.shards[i]) == 0 && rt.shards[i].ring.head == rt.shards[i].processed
  {
    forall i: nat | i < |rt.shards|
        ensures SettleLeft(rt.shards[i]) == 0 && rt.shards[i].ring.head == rt.shards[i].processed {
      assert R.ShardSound(f, route, init, rt, i);
      assert Given<T>([], i) == 0;
      SettleGoesOn(f, init[i], rt.shards[i]);
    }
  }

  lemma SettledOn<E, T>(f: (E, T) -> E, route: nat -> nat, init: seq<E>, rt: R.Runtime<E, T>, t: R.Turn<T>)
    requires R.Sound(f, route, init, rt) && R.Shape(route, rt) && rt.drain.Draining? && Settling(rt, [])
    ensures Settling(R.Next(f, route, rt, t), [])
  {
    assert Settling(rt, [t]) by {
      forall i: nat | i < |rt.shards| ensures Given([t], i) >= SettleLeft(rt.shards[i]) {
        assert Given<T>([], i) == 0;
      }
    }
    SettlingOn(f, route, init, rt, [t]);
    assert [t][1..] == [];
  }

  lemma PlayOn<E, T>(f: (E, T) -> E, route: nat -> nat, init: seq<E>, rt: R.Runtime<E, T>, ts: seq<R.Turn<T>>, k: nat)
    requires R.Sound(f, route, init, rt) && 0 < k <= |ts|
    ensures R.Shape(route, rt) && R.Sound(f, route, init, R.Next(f, route, rt, ts[0]))
    ensures R.Play(f, route, init, rt, ts[..k]) ==
            R.Play(f, route, init, R.Next(f, route, rt, ts[0]), ts[1..][..k - 1])
  {
    R.NextSound(f, route, init, rt, ts[0]);
    assert ts[..k][0] == ts[0] && ts[..k][1..] == ts[1..][..k - 1];
  }

  /** With all shards settled, a load for each of them and one more bring drain to its end. */
  lemma {:induction false} DrainLoads<E, T>(f: (E, T) -> E, route: nat -> nat, init: seq<E>, rt: R.Runtime<E, T>,
                                            ts: seq<R.Turn<T>>) returns (k: nat)
    requires R.Sound(f, route, init, rt) && rt.drain.Draining? && Settling(rt, []) && Polls(ts) >= LoadsLeft(rt)
    ensures k <= |ts| && R.Play(f, route, init, rt, ts[..k]).drain.Drained?
    decreases |ts|
  {
    PlayOn(f, route, init, rt, ts, 1);
    var rt' := R.Next(f, route, rt, ts[0]);
    DrainStep(f, route, init, rt, ts[0]);
    SettledOn(f, route, init, rt, ts[0]);
    if ts[0].Poll? {
      AllSettled(f, route, init, rt);
      LoadGoesOn(rt);
    }
    if rt'.drain.Drained? {
      k := 1;
      assert ts[1..][..0] == [];
    } else {
      k := DrainLoads(f, route, init, rt', ts[1..]);
      k := k + 1;
      PlayOn(f, route, init, rt, ts, k);
    }
  }

  lemma {:induction false} DrainSettles<E, T>(f: (E, T) -> E, route: nat -> nat, init: seq<E>, rt: R.Runtime<E, T>,
                                              ts: seq<R.Turn<T>>, more: seq<R.Turn<T>>) returns (k: nat)
    requires R.Sound(f, route, init, rt) && rt.drain.Draining? && Settling(rt, ts) && Polls(more) > |rt.shards|
    ensures k <= |ts + more| && R.Play(f, route, init, rt, (ts + more)[..k]).drain.Drained?
    decreases |ts|
  {
    if ts == [] {
      assert ts + more == more;
      k := DrainLoads(f, route, init, rt, more);
    } else {
      var all := ts + more;
      PlayOn(f, route, init, rt, all, 1);
      var rt' := R.Next(f, route, rt, ts[0]);
      DrainStep(f, route, init, rt, ts[0]);
      SettlingOn(f, route, init, rt, ts);
      assert all[1..] == ts[1..] + more;
      if rt'.drain.Drained? {
        k := 1;
        assert all[1..][..0] == [];
      } else {
        k := DrainSettles(f, route, init, rt', ts[1..], more);
        k := k + 1;
        PlayOn(f, route, init, rt, all, k);
      }
    }
  }

  /** drain returns: in every schedule that gives each worker six accesses for each of its queued commands and
      four more, and then drain itself a load for each shard and one more. */
  lemma DrainEnds<E, T>(f: (E, T) -> E, route: nat -> nat, init: seq<E>, rt: R.Runtime<E, T>,
                        ts: seq<R.Turn<T>>, more: seq<R.Turn<T>>) returns (k: nat)
    requires R.Sound(f, route, init, rt) && rt.drain.Draining? && |rt.shards| == |init|
    requires forall i | 0 <= i < |init| :: Given(ts, i) >= 6 * Queued(rt.shards[i].ring) + 4
    requires Polls(more) > |init|
    ensures k <= |ts + more| && R.Play(f, route, init, rt, (ts + more)[..k]).drain.Drained?
  {
    forall i: nat | i < |rt.shards| ensures Given(ts, i) >= SettleLeft(rt.shards[i]) {
      assert R.ShardSound(f, route, init, rt, i);
      SettleGoesOn(f, init[i], rt.shards[i]);
    }
    k := DrainSettles(f, route, init, rt, ts, more);
  }
}
