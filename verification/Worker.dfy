/** A shard: a ring of commands, the worker that drains it into an engine, and the producer and
    controller that wait for the worker. The engine is any state E that commands T act on by f. */
module Workers {
  import opened Types
  import opened Rings

  const BATCH: nat := 64

  /** Where the worker stands: claiming; about to publish a count of n; about to look at the stop flag;
      draining for the last time with m applied; about to publish those; gone. */
  datatype Worker = Polling | Storing(n: nat) | Looking | Finishing(m: nat) | LastStore(m: nat) | Finished

  datatype Shard<E, T> = Shard(ring: Ring<T>, engine: E, processed: nat, stop: bool, w: Worker)

  datatype Move<T> = Feed(v: T) | Work | RequestStop

  function Fold<E, T>(f: (E, T) -> E, e: E, cs: seq<T>): E
    decreases |cs|
  {
    if cs == [] then e else f(Fold(f, e, cs[..|cs| - 1]), cs[|cs| - 1])
  }

  /** The worker's next access to the ring; a command that it reads it applies. */
  function Claim<E, T>(f: (E, T) -> E, s: Shard<E, T>): Shard<E, T>
    requires s.ring.buf != []
  {
    var r := ConsumerStep(s.ring, BATCH);
    if s.ring.c.Reading? && s.ring.c.read < s.ring.c.n then
      s.(ring := r, engine := f(s.engine, s.ring.At(s.ring.tail + s.ring.c.read).value))
    else s.(ring := r)
  }

  /** What a claim returns when its step `s.ring.c -> waiting` ends it. */
  function Returned(c: Consumer): nat {
    if c.Reading? then c.n else 0
  }

  predicate Ends<T>(r: Ring<T>)
    requires r.buf != []
  {
    !r.c.Waiting? && ConsumerStep(r, BATCH).c.Waiting?
  }

  function WorkerStep<E, T>(f: (E, T) -> E, s: Shard<E, T>): Shard<E, T>
    requires s.ring.buf != []
  {
    match s.w
    case Polling =>
      var s' := Claim(f, s);
      if !Ends(s.ring) then s'
      else if Returned(s.ring.c) > 0 then s'.(w := Storing(Returned(s.ring.c)))
      else s'.(w := Looking)
    case Storing(n) => s.(processed := s.processed + n, w := Polling)
    case Looking => s.(w := if s.stop then Finishing(0) else Polling)
    case Finishing(m) =>
      var s' := Claim(f, s);
      if !Ends(s.ring) then s'
      else if Returned(s.ring.c) > 0 then s'.(w := Finishing(m + Returned(s.ring.c)))
      else s'.(w := if m > 0 then LastStore(m) else Finished)
    case LastStore(m) => s.(processed := s.processed + m, w := Finished)
    case Finished => s
  }

  /** The producer has ceased before stop is requested. */
  function Step<E, T>(f: (E, T) -> E, s: Shard<E, T>, m: Move<T>): Shard<E, T>
    requires s.ring.buf != []
  {
    match m
    case Feed(v) => if s.stop then s else s.(ring := ProducerStep(s.ring, v))
    case Work => WorkerStep(f, s)
    case RequestStop => if s.ring.p.Resting? then s.(stop := true) else s
  }

  // ----- what every step keeps

  ghost predicate Sound<E, T>(f: (E, T) -> E, init: E, s: Shard<E, T>) {
    && Inv(s.ring)
    && s.engine == Fold(f, init, s.ring.taken)
    && (s.stop ==> s.ring.p.Resting?)
    && (s.w.Polling? || s.w.Finishing? || s.ring.c.Waiting?)
    && (match s.w
        case Polling => s.processed == s.ring.tail
        case Storing(n) => s.processed + n == s.ring.tail
        case Looking => s.processed == s.ring.tail
        case Finishing(m) => s.processed + m == s.ring.tail && s.stop
        case LastStore(m) => s.processed + m == s.ring.tail == |s.ring.pushed| && s.stop
        case Finished => s.processed == s.ring.tail == |s.ring.pushed| && s.stop)
    && (s.ring.c.Scanning? ==> s.ring.c.max == BATCH)
  }

  lemma FoldStep<E, T>(f: (E, T) -> E, e: E, cs: seq<T>, c: T)
    ensures Fold(f, e, cs + [c]) == f(Fold(f, e, cs), c)
  {
    assert (cs + [c])[..|cs|] == cs;
  }

  lemma ClaimSound<E, T>(f: (E, T) -> E, init: E, s: Shard<E, T>)
    requires Inv(s.ring) && s.engine == Fold(f, init, s.ring.taken)
    ensures var s' := Claim(f, s); Inv(s'.ring) && s'.engine == Fold(f, init, s'.ring.taken)
  {
    ConsumerKeeps(s.ring, BATCH);
    if s.ring.c.Reading? && s.ring.c.read < s.ring.c.n {
      FoldStep(f, init, s.ring.taken, s.ring.At(s.ring.tail + s.ring.c.read).value);
    }
  }

  /** A claim that comes back empty-handed has seen everything that was pushed. */
  lemma EmptyClaim<T>(r: Ring<T>)
    requires Inv(r) && Ends(r) && Returned(r.c) == 0 && (r.c.Scanning? ==> r.c.max == BATCH)
    ensures r.tail == |r.pushed| && ConsumerStep(r, BATCH).tail == r.tail
  {
    SeenIsPublished(r, r.tail);
  }

  lemma WorkerSound<E, T>(f: (E, T) -> E, init: E, s: Shard<E, T>)
    requires Sound(f, init, s)
    ensures Sound(f, init, WorkerStep(f, s))
  {
    if s.w.Polling? || s.w.Finishing? {
      ClaimSound(f, init, s);
      if Ends(s.ring) && Returned(s.ring.c) == 0 {
        EmptyClaim(s.ring);
      }
    }
  }

  lemma WorkerFrame<E, T>(f: (E, T) -> E, s: Shard<E, T>)
    requires s.ring.buf != []
    ensures var s' := WorkerStep(f, s); s'.ring.pushed == s.ring.pushed && s'.ring.p == s.ring.p && s'.stop == s.stop
  {
  }

  /** A worker's access leaves the engine alone, or applies a command it has just read. */
  lemma WorkerApplies<E, T>(f: (E, T) -> E, s: Shard<E, T>) returns (v: Option<T>)
    requires s.ring.buf != []
    ensures var s' := WorkerStep(f, s);
            && (v.None? ==> s'.engine == s.engine)
            && (v.Some? ==> s'.engine == f(s.engine, v.value) && s'.ring.c.Reading? && s'.ring.c.read > 0)
            && (s.w.Finished? ==> s' == s)
  {
    if (s.w.Polling? || s.w.Finishing?) && s.ring.c.Reading? && s.ring.c.read < s.ring.c.n {
      v := Some(s.ring.At(s.ring.tail + s.ring.c.read).value);
    } else {
      v := None;
    }
  }

  lemma StepSound<E, T>(f: (E, T) -> E, init: E, s: Shard<E, T>, m: Move<T>)
    requires Sound(f, init, s)
    ensures Sound(f, init, Step(f, s, m))
  {
    match m
    case Feed(v) => ProducerKeeps(s.ring, v);
    case Work => WorkerSound(f, init, s);
    case RequestStop =>
  }

  /** A worker's count never falls and never passes what was pushed. */
  lemma CountBounded<E, T>(f: (E, T) -> E, init: E, s: Shard<E, T>)
    requires Sound(f, init, s)
    ensures s.processed <= |s.ring.pushed|
    ensures s.processed <= WorkerStep(f, s).processed <= |s.ring.pushed|
  {
    WorkerSound(f, init, s);
    WorkerFrame(f, s);
  }

  function Fresh<E, T>(capacity: nat, any: T, init: E): Shard<E, T> {
    Shard(Start(capacity, any), init, 0, false, Polling)
  }

  lemma FreshSound<E, T>(f: (E, T) -> E, capacity: nat, any: T, init: E)
    requires capacity > 0
    ensures Sound(f, init, Fresh(capacity, any, init))
  {
    assert Start(capacity, any).buf[0].seqNo == 0;
  }

  // ----- quiescence

  /** When drain sees as many processed as were pushed, the engine has applied exactly those, in order. */
  lemma Drained<E, T>(f: (E, T) -> E, init: E, s: Shard<E, T>)
    requires Sound(f, init, s) && s.ring.p.Resting? && s.processed == s.ring.head
    ensures s.engine == Fold(f, init, s.ring.pushed)
  {
    assert s.ring.taken == s.ring.pushed;
  }

  /** When the worker is gone, it has applied everything that was pushed, once each and in order. */
  lemma Stopped<E, T>(f: (E, T) -> E, init: E, s: Shard<E, T>)
    requires Sound(f, init, s) && s.w.Finished?
    ensures s.engine == Fold(f, init, s.ring.pushed) && s.processed == |s.ring.pushed|
  {
    assert s.ring.taken == s.ring.pushed;
  }
}
