/** Fairness of the merger: under every schedule, an event with k ahead of it in its ring is forwarded
    within k / batch + 1 rounds over the shards. */
module Fairness {
  import Types
  import Rings
  import opened Egresses

  // ----- rounds

  /** This turn ends a round: every shard has been polled, and the merger starts over. */
  predicate Wraps<T>(m: Merger<T>, t: Turn<T>) {
    t.Merge? && (m.phase.Running? || m.phase.Last?) && m.at >= |m.egress|
  }

  /** How many rounds a schedule completes. */
  ghost function Rounds<T>(m: Merger<T>, ts: seq<Turn<T>>, batch: nat): nat
    requires Sound(m, batch)
    decreases |ts|
  {
    if ts == [] then 0 else
    NextSound(m, ts[0], batch);
    (if Wraps(m, ts[0]) then 1 else 0) + Rounds(Next(m, ts[0], batch), ts[1..], batch)
  }

  // ----- a claim

  /** A claim of up to `batch` that began at cursor t with p published: it will take, or has taken, all
      of those or a full batch. */
  ghost predicate ClaimSince<T>(r: Rings.Ring<T>, t: nat, p: nat, batch: nat) {
    p <= |r.pushed| &&
    match r.c
    case Scanning(n, max) => r.tail == t && max == batch
    case Reading(n, _) => r.tail == t && t + n >= Types.Min(p, t + batch)
    case Waiting => r.tail >= Types.Min(p, t + batch)
  }

  /** Whatever the two sides do in the meantime. */
  lemma ClaimGoesOn<T>(r: Rings.Ring<T>, s: Rings.Step<T>, t: nat, p: nat, batch: nat)
    requires Rings.Inv(r) && ClaimSince(r, t, p, batch) && batch > 0 && !r.c.Waiting?
    ensures ClaimSince(Rings.Next(r, s), t, p, batch)
  {
    if r.c.Scanning? {
      Rings.SeenIsPublished(r, r.tail + r.c.n);
    }
  }

  // ----- a round

  /** Shard i in a round that found its ring at cursor t with at least p published: not polled yet, being
      polled, or polled of all of those or a full batch. */
  ghost predicate RoundSince<T>(m: Merger<T>, i: nat, t: nat, p: nat, batch: nat)
    requires i < |m.egress|
  {
    var r := m.egress[i].ring;
    && p <= |r.pushed|
    && (m.at < i ==> r.tail == t)
    && (m.at == i ==> if r.c.Waiting? then r.tail == t else ClaimSince(r, t, p, batch))
    && (m.at > i ==> r.tail >= Types.Min(p, t + batch))
  }

  /** A ring goes on from r to r': the cursor does not fall, and what is published stays published. */
  ghost predicate Onward<T>(r: Rings.Ring<T>, r': Rings.Ring<T>) {
    r.tail <= r'.tail && r.pushed <= r'.pushed
  }

  lemma RingOnward<T>(r: Rings.Ring<T>, s: Rings.Step<T>)
    requires Rings.Inv(r)
    ensures Onward(r, Rings.Next(r, s))
  {
  }

  lemma PublishIs<T>(e: Egress<T>, v: T)
    requires e.ring.buf != []
    ensures var r' := PublishStep(e, v).ring;
            && r' == Rings.Next(e.ring, Rings.Produce(v))
            && r'.tail == e.ring.tail && r'.c == e.ring.c
  {
  }

  lemma PublishRound<T>(m: Merger<T>, j: nat, v: T, i: nat, t: nat, p: nat, batch: nat)
    requires Sound(m, batch) && Shape(m) && i < |m.egress| && j < |m.egress| && RoundSince(m, i, t, p, batch)
    ensures RoundSince(m.(egress := m.egress[j := PublishStep(m.egress[j], v)]), i, t, p, batch)
  {
    if i == j {
      assert EgressSound(m, i, batch);
      PublishIs(m.egress[i], v);
      var r := m.egress[i].ring;
      RingOnward(r, Rings.Produce(v));
      if m.at == i && !r.c.Waiting? {
        ClaimGoesOn(r, Rings.Produce(v), t, p, batch);
      }
    }
  }

  lemma PollRound<T>(m: Merger<T>, i: nat, t: nat, p: nat, batch: nat)
    requires Sound(m, batch) && Shape(m) && i < |m.egress| && m.at < |m.egress| && RoundSince(m, i, t, p, batch)
    ensures |Poll(m, batch).egress| == |m.egress| && RoundSince(Poll(m, batch), i, t, p, batch)
  {
    assert EgressSound(m, i, batch);
    var r := m.egress[i].ring;
    if m.at == i {
      assert Poll(m, batch).egress[i].ring == Rings.Next(r, Rings.Consume(batch));
      RingOnward(r, Rings.Consume(batch));
      if !r.c.Waiting? {
        ClaimGoesOn(r, Rings.Consume(batch), t, p, batch);
      }
    } else {
      PollFrame(m, batch, i);
    }
  }

  /** Every turn that does not end the round keeps to it. */
  lemma RoundGoesOn<T>(m: Merger<T>, u: Turn<T>, i: nat, t: nat, p: nat, batch: nat)
    requires Sound(m, batch) && i < |m.egress| && RoundSince(m, i, t, p, batch) && !Wraps(m, u)
    ensures Shape(m) && |Next(m, u, batch).egress| == |m.egress| && RoundSince(Next(m, u, batch), i, t, p, batch)
  {
    SoundShape(m, batch);
    match u
    case Publish(j, v) =>
      if !m.stop && j < |m.egress| {
        PublishRound(m, j, v, i, t, p, batch);
      }
    case Merge =>
      if m.phase.Running? || m.phase.Last? {
        PollRound(m, i, t, p, batch);
      }
    case StopMerger =>
  }

  /** A turn that ends the round has all of p or a full batch taken, and the next round begins. */
  lemma RoundEnds<T>(m: Merger<T>, u: Turn<T>, i: nat, t: nat, p: nat, batch: nat)
    requires Sound(m, batch) && i < |m.egress| && RoundSince(m, i, t, p, batch) && Wraps(m, u)
    ensures var r := m.egress[i].ring;
            && r.tail >= Types.Min(p, t + batch) && Shape(m)
            && |Next(m, u, batch).egress| == |m.egress| && Next(m, u, batch).egress[i].ring == r
            && RoundSince(Next(m, u, batch), i, r.tail, |r.pushed|, batch)
  {
    SoundShape(m, batch);
    assert EgressSound(m, i, batch);
  }

  // ----- cursors never fall

  lemma NextOnward<T>(m: Merger<T>, u: Turn<T>, i: nat, batch: nat)
    requires Sound(m, batch) && i < |m.egress|
    ensures Shape(m) && |Next(m, u, batch).egress| == |m.egress|
    ensures Onward(m.egress[i].ring, Next(m, u, batch).egress[i].ring)
  {
    SoundShape(m, batch);
    assert EgressSound(m, i, batch);
    var r := m.egress[i].ring;
    match u
    case Publish(j, v) =>
      if j == i {
        PublishIs(m.egress[i], v);
        RingOnward(r, Rings.Produce(v));
      }
    case Merge =>
      if (m.phase.Running? || m.phase.Last?) && m.at < |m.egress| {
        if m.at == i {
          assert Poll(m, batch).egress[i].ring == Rings.Next(r, Rings.Consume(batch));
          RingOnward(r, Rings.Consume(batch));
        } else {
          PollFrame(m, batch, i);
        }
      }
    case StopMerger =>
  }

  lemma {:induction false} PlayOnward<T>(m: Merger<T>, ts: seq<Turn<T>>, i: nat, batch: nat)
    requires Sound(m, batch) && i < |m.egress|
    ensures Onward(m.egress[i].ring, Play(m, ts, batch).egress[i].ring)
    decreases |ts|
  {
    if ts != [] {
      NextSound(m, ts[0], batch);
      NextOnward(m, ts[0], i, batch);
      PlayOnward(Next(m, ts[0], batch), ts[1..], i, batch);
    }
  }

  // ----- fairness

  /** From a round that found the ring at t with position pos published, n rounds take it past pos when
      n batches from t would. */
  lemma {:induction false} RoundsReach<T>(m: Merger<T>, ts: seq<Turn<T>>, i: nat, pos: nat, batch: nat, t: nat,
      p: nat, n: nat)
    requires Sound(m, batch) && i < |m.egress| && RoundSince(m, i, t, p, batch) && pos < p && pos < t + n * batch
    requires Rounds(m, ts, batch) >= n
    ensures Play(m, ts, batch).egress[i].ring.tail > pos
    decreases |ts|
  {
    if m.egress[i].ring.tail > pos {
      PlayOnward(m, ts, i, batch);
    } else {
      assert n > 0;
      NextSound(m, ts[0], batch);
      var m' := Next(m, ts[0], batch);
      if Wraps(m, ts[0]) {
        RoundEnds(m, ts[0], i, t, p, batch);
        var t' := m.egress[i].ring.tail;
        assert t' >= t + batch && n * batch == batch + (n - 1) * batch;
        RoundsReach(m', ts[1..], i, pos, batch, t', |m.egress[i].ring.pushed|, n - 1);
      } else {
        RoundGoesOn(m, ts[0], i, t, p, batch);
        RoundsReach(m', ts[1..], i, pos, batch, t, p, n);
      }
    }
  }

  /** Past the cursor means forwarded, in place. */
  lemma PastIsForwarded<T>(m: Merger<T>, ts: seq<Turn<T>>, i: nat, pos: nat, batch: nat)
    requires Sound(m, batch) && i < |m.egress| && pos < |m.egress[i].ring.pushed|
    requires Play(m, ts, batch).egress[i].ring.tail > pos
    ensures var got := SinkOf(Play(m, ts, batch).sink, i); pos < |got| && got[pos] == m.egress[i].ring.pushed[pos]
  {
    PlayOnward(m, ts, i, batch);
    assert EgressSound(Play(m, ts, batch), i, batch);
  }

  lemma Enough(k: nat, batch: nat)
    requires batch > 0
    ensures k < (k / batch + 1) * batch
  {
    assert k == (k / batch) * batch + k % batch;
  }

  /** Under every schedule: a published event of a shard that this round has yet to poll, with k ahead of
      it in its ring, is forwarded by the time k / batch + 1 rounds have been completed. */
  lemma ForwardedFairly<T>(m: Merger<T>, ts: seq<Turn<T>>, i: nat, pos: nat, batch: nat)
    requires Sound(m, batch) && i < |m.egress| && m.at <= i && m.egress[i].ring.c.Waiting?
    requires m.egress[i].ring.tail <= pos < |m.egress[i].ring.pushed|
    requires Rounds(m, ts, batch) >= (pos - m.egress[i].ring.tail) / batch + 1
    ensures var got := SinkOf(Play(m, ts, batch).sink, i); pos < |got| && got[pos] == m.egress[i].ring.pushed[pos]
  {
    var r := m.egress[i].ring;
    var k := pos - r.tail;
    Enough(k, batch);
    RoundsReach(m, ts, i, pos, batch, r.tail, |r.pushed|, k / batch + 1);
    PastIsForwarded(m, ts, i, pos, batch);
  }

  lemma {:induction false} RoundsReachLater<T>(m: Merger<T>, ts: seq<Turn<T>>, i: nat, pos: nat, batch: nat, n: nat)
    requires Sound(m, batch) && i < |m.egress| && pos < |m.egress[i].ring.pushed|
             && pos < m.egress[i].ring.tail + n * batch
    requires Rounds(m, ts, batch) >= n + 1
    ensures Play(m, ts, batch).egress[i].ring.tail > pos
    decreases |ts|
  {
    NextSound(m, ts[0], batch);
    var m' := Next(m, ts[0], batch);
    NextOnward(m, ts[0], i, batch);
    if Wraps(m, ts[0]) {
      assert EgressSound(m, i, batch);
      RoundsReach(m', ts[1..], i, pos, batch, m'.egress[i].ring.tail, |m'.egress[i].ring.pushed|, n);
    } else {
      RoundsReachLater(m', ts[1..], i, pos, batch, n);
    }
  }

  /** From the middle of a round that may have passed the shard already, it takes one round more. */
  lemma ForwardedAnyway<T>(m: Merger<T>, ts: seq<Turn<T>>, i: nat, pos: nat, batch: nat)
    requires Sound(m, batch) && i < |m.egress| && m.egress[i].ring.tail <= pos < |m.egress[i].ring.pushed|
    requires Rounds(m, ts, batch) >= (pos - m.egress[i].ring.tail) / batch + 2
    ensures var got := SinkOf(Play(m, ts, batch).sink, i); pos < |got| && got[pos] == m.egress[i].ring.pushed[pos]
  {
    var k := pos - m.egress[i].ring.tail;
    Enough(k, batch);
    RoundsReachLater(m, ts, i, pos, batch, k / batch + 1);
    PastIsForwarded(m, ts, i, pos, batch);
  }
}
