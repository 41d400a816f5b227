/** The single-producer single-consumer ring, one atomic access at a time. A step lets one of the two
    sides make its next access; a schedule is any sequence of steps. */
module Rings {

  datatype Slot<T> = Slot(value: T, seqNo: nat)

  /** Where the producer stands in a push of v: comparing with its cached tail, reloading it, writing
      the payload, publishing the slot, advancing its cursor. */
  datatype Producer<T> = Resting | Checking(v: T) | Loading(v: T) | Writing(v: T) | Sealing(v: T) | Moving

  /** Where the consumer stands in a claim of up to max: having seen n published slots, or having read
      `read` of n claimed ones. */
  datatype Consumer = Waiting | Scanning(n: nat, max: nat) | Reading(n: nat, read: nat)

  /** The ring, both sides, and what has been published and read so far. */
  datatype Ring<T> = Ring(
    buf: seq<Slot<T>>, head: nat, tail: nat, cache: nat,
    p: Producer<T>, c: Consumer,
    pushed: seq<T>, taken: seq<T>)
  {
    function Capacity(): nat {
      |buf|
    }

    function At(pos: nat): Slot<T>
      requires buf != []
    {
      buf[pos % |buf|]
    }
  }

  /** The side that moves next; what it pushes, or how much it claims, counts when it starts anew. */
  datatype Step<T> = Produce(v: T) | Consume(max: nat)

  function ProducerStep<T>(r: Ring<T>, v: T): Ring<T>
    requires r.buf != []
  {
    match r.p
    case Resting => r.(p := Checking(v))
    case Checking(x) => if r.head - r.cache >= r.Capacity() then r.(p := Loading(x)) else r.(p := Writing(x))
    case Loading(x) =>
      if r.head - r.tail >= r.Capacity() then r.(cache := r.tail, p := Resting)
      else r.(cache := r.tail, p := Writing(x))
    case Writing(x) => r.(buf := r.buf[r.head % |r.buf| := r.At(r.head).(value := x)], p := Sealing(x))
    case Sealing(x) =>
      r.(buf := r.buf[r.head % |r.buf| := r.At(r.head).(seqNo := r.head + 1)], p := Moving, pushed := r.pushed + [x])
    case Moving => r.(head := r.head + 1, p := Resting)
  }

  function ConsumerStep<T>(r: Ring<T>, max: nat): Ring<T>
    requires r.buf != []
  {
    match r.c
    case Waiting => r.(c := Scanning(0, max))
    case Scanning(n, m) =>
      if n < m && r.At(r.tail + n).seqNo == r.tail + n + 1 then r.(c := Scanning(n + 1, m))
      else if n == 0 then r.(c := Waiting)
      else r.(c := Reading(n, 0))
    case Reading(n, i) =>
      if i < n then r.(c := Reading(n, i + 1), taken := r.taken + [r.At(r.tail + i).value])
      else r.(tail := r.tail + n, c := Waiting)
  }

  function Next<T>(r: Ring<T>, s: Step<T>): Ring<T>
    requires r.buf != []
  {
    match s
    case Produce(v) => ProducerStep(r, v)
    case Consume(max) => ConsumerStep(r, max)
  }

  function Start<T>(capacity: nat, any: T): Ring<T> {
    Ring(seq(capacity, _ => Slot(any, 0)), 0, 0, 0, Resting, Waiting, [], [])
  }

  function Play<T>(r: Ring<T>, steps: seq<Step<T>>): (r': Ring<T>)
    requires r.buf != []
    ensures |r'.buf| == |r.buf|
    decreases |steps|
  {
    if steps == [] then r else
    var r1 := Next(r, steps[0]);
    assert |r1.buf| == |r.buf|;
    Play(r1, steps[1..])
  }

  // ----- what every step keeps

  /** The producer has published one position more than its cursor says just before it moves. */
  ghost predicate Cursors<T>(r: Ring<T>) {
    && |r.pushed| == (if r.p.Moving? then r.head + 1 else r.head)
    && r.cache <= r.tail <= |r.pushed| <= r.tail + r.Capacity()
    && (r.p.Writing? || r.p.Sealing? ==> r.head < r.tail + r.Capacity())
  }

  ghost predicate Claims<T>(r: Ring<T>) {
    match r.c
    case Waiting => r.tail <= |r.pushed| && r.taken == r.pushed[..r.tail]
    case Scanning(n, max) => r.tail + n <= |r.pushed| && n <= max && r.taken == r.pushed[..r.tail]
    case Reading(n, i) => 0 < n && i <= n && r.tail + n <= |r.pushed| && r.taken == r.pushed[..r.tail + i]
  }

  ghost predicate SealedAt<T>(r: Ring<T>, pos: nat)
    requires r.buf != []
  {
    r.At(pos).seqNo == pos + 1
  }

  ghost predicate HeldAt<T>(r: Ring<T>, pos: nat)
    requires r.buf != [] && pos < |r.pushed|
  {
    r.At(pos).value == r.pushed[pos]
  }

  /** Each slot carries the number of the last position published in it, none before the first; what
      has been published and not released is still there. */
  ghost predicate Slots<T>(r: Ring<T>) {
    r.buf != [] &&
    var n := |r.pushed|;
    && (forall pos: nat {:trigger SealedAt(r, pos)} | pos < n <= pos + |r.buf| :: SealedAt(r, pos))
    && (forall j: nat | n <= j < |r.buf| :: r.buf[j].seqNo == 0)
    && (forall pos: nat {:trigger HeldAt(r, pos)} | r.tail <= pos < n :: HeldAt(r, pos))
    && (r.p.Sealing? ==> r.At(r.head).value == r.p.v)
  }

  ghost predicate Inv<T>(r: Ring<T>) {
    r.buf != [] && Cursors(r) && Claims(r) && Slots(r)
  }

  /** Positions less than a lap apart lie in different slots. */
  lemma Apart(a: nat, b: nat, n: nat)
    requires a < b < a + n
    ensures a % n != b % n
  {
    var x, y := a / n, b / n;
    assert a == x * n + a % n && b == y * n + b % n;
    if x == y {
      assert a % n < b % n;
    } else {
      Multiple(x, y, n);
    }
  }

  lemma Multiple(x: nat, y: nat, n: nat)
    ensures y > x ==> y * n >= x * n + n
    ensures y < x ==> x * n >= y * n + n
  {
    if y > x {
      assert (y - x - 1) * n >= 0;
      assert y * n == x * n + n + (y - x - 1) * n;
    } else if y < x {
      assert (x - y - 1) * n >= 0;
      assert x * n == y * n + n + (x - y - 1) * n;
    }
  }

  lemma Below(a: nat, n: nat)
    requires a < n
    ensures a % n == a
  {
  }

  lemma WriteKeeps<T>(r: Ring<T>)
    requires Inv(r) && r.p.Writing?
    ensures Slots(ProducerStep(r, r.p.v))
  {
    var r', n, cap := ProducerStep(r, r.p.v), |r.pushed|, |r.buf|;
    forall pos: nat | pos < n <= pos + cap ensures SealedAt(r', pos) {
      assert SealedAt(r, pos);
    }
    forall pos: nat | r.tail <= pos < n ensures HeldAt(r', pos) {
      assert HeldAt(r, pos);
      Apart(pos, r.head, cap);
    }
  }

  lemma SealKeeps<T>(r: Ring<T>)
    requires Inv(r) && r.p.Sealing?
    ensures Slots(ProducerStep(r, r.p.v))
  {
    var r', n, cap := ProducerStep(r, r.p.v), |r.pushed|, |r.buf|;
    forall pos: nat | pos < n + 1 <= pos + cap ensures SealedAt(r', pos) {
      if pos < n {
        assert SealedAt(r, pos);
        Apart(pos, n, cap);
      }
    }
    forall j: nat | n + 1 <= j < cap ensures r'.buf[j].seqNo == 0 {
      Below(n, cap);
    }
    forall pos: nat | r.tail <= pos < n + 1 ensures HeldAt(r', pos) {
      if pos < n {
        assert HeldAt(r, pos);
        Apart(pos, n, cap);
      }
    }
  }

  lemma ProducerKeeps<T>(r: Ring<T>, v: T)
    requires Inv(r)
    ensures Inv(ProducerStep(r, v))
  {
    var r' := ProducerStep(r, v);
    if r.p.Writing? {
      WriteKeeps(r);
    } else if r.p.Sealing? {
      SealKeeps(r);
    } else {
      forall pos: nat | pos < |r.pushed| <= pos + |r.buf| ensures SealedAt(r', pos) {
        assert SealedAt(r, pos);
      }
      forall pos: nat | r.tail <= pos < |r.pushed| ensures HeldAt(r', pos) {
        assert HeldAt(r, pos);
      }
    }
  }

  /** A slot carries the number of the position expected in it exactly when that position has been
      published: a number from an earlier lap never matches. */
  lemma SeenIsPublished<T>(r: Ring<T>, pos: nat)
    requires Inv(r) && r.tail <= pos <= |r.pushed|
    ensures r.At(pos).seqNo == pos + 1 <==> pos < |r.pushed|
  {
    var n, cap := |r.pushed|, |r.buf|;
    if pos < n {
      assert SealedAt(r, pos);
    } else if n >= cap {
      assert SealedAt(r, n - cap);
      SameSlot(n - cap, cap);
    } else {
      Below(n, cap);
    }
  }

  lemma SameSlot(a: nat, n: nat)
    requires n > 0
    ensures (a + n) % n == a % n
  {
    assert a + n == n * (a / n + 1) + a % n;
    Quotient(a / n + 1, a % n, n);
  }

  lemma Quotient(q: nat, m: nat, n: nat)
    requires m < n
    ensures (n * q + m) % n == m
  {
    var x := n * q + m;
    assert x == n * (x / n) + x % n;
    Multiple(q, x / n, n);
  }

  lemma ConsumerClaims<T>(r: Ring<T>, max: nat)
    requires Inv(r)
    ensures Claims(ConsumerStep(r, max))
  {
    match r.c {
      case Waiting =>
      case Scanning(n, m) => SeenIsPublished(r, r.tail + n);
      case Reading(n, i) =>
        if i < n {
          assert HeldAt(r, r.tail + i);
          assert r.pushed[..r.tail + i + 1] == r.pushed[..r.tail + i] + [r.pushed[r.tail + i]];
        }
    }
  }

  lemma ConsumerKeeps<T>(r: Ring<T>, max: nat)
    requires Inv(r)
    ensures Inv(ConsumerStep(r, max))
  {
    var r' := ConsumerStep(r, max);
    ConsumerClaims(r, max);
    forall pos: nat | pos < |r.pushed| <= pos + |r.buf| ensures SealedAt(r', pos) {
      assert SealedAt(r, pos);
    }
    forall pos: nat | r'.tail <= pos < |r.pushed| ensures HeldAt(r', pos) {
      assert HeldAt(r, pos);
    }
  }

  lemma NextKeeps<T>(r: Ring<T>, s: Step<T>)
    requires Inv(r)
    ensures Inv(Next(r, s))
  {
    match s
    case Produce(v) => ProducerKeeps(r, v);
    case Consume(max) => ConsumerKeeps(r, max);
  }

  lemma {:induction false} PlayKeeps<T>(r: Ring<T>, steps: seq<Step<T>>)
    requires Inv(r)
    ensures Inv(Play(r, steps))
    decreases |steps|
  {
    if steps != [] {
      NextKeeps(r, steps[0]);
      PlayKeeps(Next(r, steps[0]), steps[1..]);
    }
  }

  // ----- what the ring is for

  /** Under every schedule: what has been read is a prefix of what was pushed, at most a ringful is
      outstanding, and every claimed slot still holds what was pushed there. */
  lemma RingSafe<T>(capacity: nat, any: T, steps: seq<Step<T>>)
    requires capacity > 0
    ensures var r := Play(Start(capacity, any), steps);
            && r.taken <= r.pushed && r.tail <= |r.pushed| <= r.tail + capacity
            && (r.c.Reading? ==> r.tail + r.c.n <= |r.pushed| &&
                                 forall pos: nat | r.tail <= pos < r.tail + r.c.n :: HeldAt(r, pos))
  {
    PlayKeeps(Start(capacity, any), steps);
  }

  /** The queue the ring stands for. */
  function Queue<T>(r: Ring<T>): seq<T>
    requires r.tail <= |r.pushed|
  {
    r.pushed[r.tail..]
  }

  /** Each access is a queue operation or none: publishing appends, releasing a claim removes exactly
      the values the claim read, and everything else leaves the queue alone. */
  lemma RingRefinesQueue<T>(r: Ring<T>, s: Step<T>)
    requires Inv(r)
    ensures var r' := Next(r, s);
            r'.tail <= |r'.pushed| &&
            if s.Produce? && r.p.Sealing? then Queue(r') == Queue(r) + [r.p.v]
            else if s.Consume? && r.c.Reading? && r.c.read == r.c.n then
              Queue(r') == Queue(r)[r.c.n..] && r.taken[r.tail..] == Queue(r)[..r.c.n]
            else Queue(r') == Queue(r)
  {
    NextKeeps(r, s);
  }

  /** A push gives up exactly when, at its look at the consumer's cursor, the queue is full. */
  lemma PushFails<T>(r: Ring<T>, v: T)
    requires Inv(r) && r.p.Loading?
    ensures ProducerStep(r, v).p.Resting? <==> |Queue(r)| == r.Capacity()
  {
  }

  /** A claim comes back empty-handed exactly when, at its look at the next slot, the queue is empty. */
  lemma ClaimFails<T>(r: Ring<T>, max: nat)
    requires Inv(r) && r.c.Scanning? && r.c.n == 0 && r.c.max > 0
    ensures ConsumerStep(r, max).c.Waiting? <==> Queue(r) == []
  {
    SeenIsPublished(r, r.tail);
  }
}
