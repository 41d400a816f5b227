/** The way out: each shard publishes into its own ring and counts what it has to drop; a merger takes
    the rings in turn and forwards one numbered stream. */
module Egresses {
  import opened Rings
  import opened Workers

  /** A shard's publisher: its ring, what became of every event so far, and the loss counter. */
  datatype Egress<T> = Egress(ring: Ring<T>, fate: seq<(T, bool)>, dropped: nat)

  /** The publisher's next access, for the event under way or for v. */
  function PublishStep<T>(e: Egress<T>, v: T): Egress<T>
    requires e.ring.buf != []
  {
    var r := ProducerStep(e.ring, v);
    match e.ring.p
    case Sealing(x) => Egress(r, e.fate + [(x, true)], e.dropped)
    case Loading(x) => if r.p.Resting? then Egress(r, e.fate + [(x, false)], e.dropped + 1) else e.(ring := r)
    case _ => e.(ring := r)
  }

  /** The events that went into the ring. */
  function Kept<T>(fate: seq<(T, bool)>): seq<T>
    decreases |fate|
  {
    if fate == [] then [] else
    var k := |fate| - 1;
    Kept(fate[..k]) + if fate[k].1 then [fate[k].0] else []
  }

  lemma {:induction false} KeptStep<T>(fate: seq<(T, bool)>, x: T, ok: bool)
    ensures Kept(fate + [(x, ok)]) == Kept(fate) + if ok then [x] else []
  {
    assert (fate + [(x, ok)])[..|fate|] == fate;
  }

  /** What the merger is doing: rounds, looking at the stop flag, last rounds, nothing any more. */
  datatype Phase = Running | Glancing | Last | Done

  /** The rings, the ring under way in this round and whether the round has forwarded anything, the
      next number, the published tally, what the sink has received (shard, event, number), and the
      stop flag. */
  datatype Merger<T> = Merger(
    egress: seq<Egress<T>>, at: nat, any: bool, phase: Phase,
    seqNo: nat, merged: nat, sink: seq<(nat, T, nat)>, stop: bool)

  /** The ring under way is about to hand over an event. */
  predicate Handing<T>(r: Ring<T>) {
    r.c.Reading? && r.c.read < r.c.n
  }

  /** One access to the ring under way; an event that is read is forwarded. */
  function Poll<T>(m: Merger<T>, batch: nat): Merger<T>
    requires m.at < |m.egress| && m.egress[m.at].ring.buf != []
  {
    var r := m.egress[m.at].ring;
    var r' := ConsumerStep(r, batch);
    var m' := m.(egress := m.egress[m.at := m.egress[m.at].(ring := r')]);
    if Handing(r) then
      m'.(sink := m.sink + [(m.at, r.At(r.tail + r.c.read).value, m.seqNo)], seqNo := m.seqNo + 1)
    else if !r.c.Waiting? && r'.c.Waiting? then
      m'.(at := m.at + 1, any := m.any || Returned(r.c) > 0)
    else m'
  }

  function MergeStep<T>(m: Merger<T>, batch: nat): Merger<T>
    requires m.at < |m.egress| ==> m.egress[m.at].ring.buf != []
  {
    if m.phase.Done? then m
    else if m.phase.Glancing? then m.(phase := if m.stop then Last else Running)
    else if m.at < |m.egress| then Poll(m, batch)
    else if m.any then m.(merged := m.seqNo, at := 0, any := false)
    else m.(at := 0, phase := if m.phase.Running? then Glancing else Done)
  }

  /** A shard publishes, the merger moves on, or stop is requested; the shards have ceased by then. */
  datatype Turn<T> = Publish(i: nat, v: T) | Merge | StopMerger

  ghost predicate Shape<T>(m: Merger<T>) {
    forall i | 0 <= i < |m.egress| :: m.egress[i].ring.buf != []
  }

  ghost function Next<T>(m: Merger<T>, t: Turn<T>, batch: nat): Merger<T>
    requires Shape(m)
  {
    match t
    case Publish(i, v) =>
      if m.stop || i >= |m.egress| then m else m.(egress := m.egress[i := PublishStep(m.egress[i], v)])
    case Merge => MergeStep(m, batch)
    case StopMerger =>
      if forall i | 0 <= i < |m.egress| :: m.egress[i].ring.p.Resting? then m.(stop := true) else m
  }

  // ----- what every step keeps

  /** What the sink received from shard i, in order. */
  function SinkOf<T>(sink: seq<(nat, T, nat)>, i: nat): seq<T>
    decreases |sink|
  {
    if sink == [] then [] else
    var k := |sink| - 1;
    SinkOf(sink[..k], i) + if sink[k].0 == i then [sink[k].1] else []
  }

  lemma SinkStep<T>(sink: seq<(nat, T, nat)>, x: (nat, T, nat), i: nat)
    ensures SinkOf(sink + [x], i) == SinkOf(sink, i) + if x.0 == i then [x.1] else []
  {
    assert (sink + [x])[..|sink|] == sink;
  }

  /** The ring holds what was kept; the counter, how much was not. */
  ghost predicate Accounted<T>(e: Egress<T>) {
    Inv(e.ring) && e.ring.pushed == Kept(e.fate) && e.dropped + |Kept(e.fate)| == |e.fate|
  }

  lemma PublishAccounted<T>(e: Egress<T>, v: T)
    requires Accounted(e)
    ensures var e' := PublishStep(e, v);
            Accounted(e') && e'.ring.taken == e.ring.taken && e'.ring.c == e.ring.c && e'.ring.tail == e.ring.tail
  {
    ProducerKeeps(e.ring, v);
    if e.ring.p.Sealing? {
      KeptStep(e.fate, e.ring.p.v, true);
    } else if e.ring.p.Loading? {
      KeptStep(e.fate, e.ring.p.v, false);
    }
  }

  ghost predicate EgressSound<T>(m: Merger<T>, i: nat, batch: nat)
    requires i < |m.egress|
  {
    var e := m.egress[i];
    && Accounted(e)
    && e.ring.taken == SinkOf(m.sink, i)
    && (e.ring.c.Waiting? || ((m.phase.Running? || m.phase.Last?) && m.at == i))
    && (e.ring.c.Scanning? ==> e.ring.c.max == batch)
    && (m.stop ==> e.ring.p.Resting?)
    && (m.phase.Done? || (m.phase.Last? && !m.any && i < m.at) ==> e.ring.tail == |e.ring.pushed|)
  }

  ghost predicate Busy<T>(m: Merger<T>) {
    m.at < |m.egress| && m.egress[m.at].ring.c.Reading?
  }

  ghost predicate Sound<T>(m: Merger<T>, batch: nat) {
    && batch > 0 && m.at <= |m.egress|
    && (forall i: nat {:trigger EgressSound(m, i, batch)} | i < |m.egress| :: EgressSound(m, i, batch))
    && (m.phase.Last? || m.phase.Done? ==> m.stop)
    && (m.phase.Glancing? || m.phase.Done? ==> m.at == 0 && !m.any)
    && m.seqNo == |m.sink| && (forall k | 0 <= k < |m.sink| :: m.sink[k].2 == k)
    && m.merged <= m.seqNo && (!m.any && !Busy(m) ==> m.merged == m.seqNo)
  }

  lemma SoundShape<T>(m: Merger<T>, batch: nat)
    requires Sound(m, batch)
    ensures Shape(m)
  {
    forall i | 0 <= i < |m.egress| ensures m.egress[i].ring.buf != [] {
      assert EgressSound(m, i, batch);
    }
  }

  lemma PublishSound<T>(m: Merger<T>, i: nat, v: T, batch: nat)
    requires Sound(m, batch) && i < |m.egress| && !m.stop && Shape(m)
    ensures Sound(m.(egress := m.egress[i := PublishStep(m.egress[i], v)]), batch)
  {
    var m' := m.(egress := m.egress[i := PublishStep(m.egress[i], v)]);
    assert EgressSound(m, i, batch);
    PublishAccounted(m.egress[i], v);
    forall j: nat | j < |m'.egress| ensures EgressSound(m', j, batch) {
      assert EgressSound(m, j, batch);
    }
  }

  /** A poll that comes back empty-handed has seen its ring empty. */
  lemma PollEmpty<T>(r: Ring<T>, batch: nat)
    requires Inv(r) && !r.c.Waiting? && ConsumerStep(r, batch).c.Waiting? && Returned(r.c) == 0
    requires batch > 0 && (r.c.Scanning? ==> r.c.max == batch)
    ensures ConsumerStep(r, batch).tail == |r.pushed|
  {
    SeenIsPublished(r, r.tail);
  }

  /** A shard that the merger is not at keeps its ring while others are polled. */
  lemma OtherSound<T>(m: Merger<T>, m': Merger<T>, batch: nat, j: nat)
    requires j < |m.egress| == |m'.egress| && EgressSound(m, j, batch) && m'.egress[j] == m.egress[j]
    requires m'.phase == m.phase && m'.stop == m.stop && j != m.at && (m'.at == m.at || m'.at == m.at + 1)
    requires (m.phase.Running? || m.phase.Last?) && (m.any ==> m'.any) && SinkOf(m'.sink, j) == SinkOf(m.sink, j)
    ensures EgressSound(m', j, batch)
  {
  }

  lemma PollSink<T>(m: Merger<T>, batch: nat, j: nat)
    requires m.at < |m.egress| && m.egress[m.at].ring.buf != []
    ensures var r := m.egress[m.at].ring;
            SinkOf(Poll(m, batch).sink, j) ==
            SinkOf(m.sink, j) + if Handing(r) && m.at == j then [r.At(r.tail + r.c.read).value] else []
  {
    var r := m.egress[m.at].ring;
    if Handing(r) {
      SinkStep(m.sink, (m.at, r.At(r.tail + r.c.read).value, m.seqNo), j);
    }
  }

  lemma PollFrame<T>(m: Merger<T>, batch: nat, j: nat)
    requires m.at < |m.egress| && m.egress[m.at].ring.buf != [] && j < |m.egress| && j != m.at
    ensures var m' := Poll(m, batch);
            && |m'.egress| == |m.egress| && m'.egress[j] == m.egress[j] && m'.phase == m.phase && m'.stop == m.stop
            && (m'.at == m.at || m'.at == m.at + 1) && (m.any ==> m'.any) && SinkOf(m'.sink, j) == SinkOf(m.sink, j)
  {
    PollSink(m, batch, j);
  }

  lemma PollOthers<T>(m: Merger<T>, batch: nat, j: nat)
    requires m.at < |m.egress| && m.egress[m.at].ring.buf != [] && (m.phase.Running? || m.phase.Last?)
    requires j < |m.egress| && j != m.at && EgressSound(m, j, batch)
    ensures |Poll(m, batch).egress| == |m.egress| && EgressSound(Poll(m, batch), j, batch)
  {
    PollFrame(m, batch, j);
    OtherSound(m, Poll(m, batch), batch, j);
  }

  lemma StepTaken<T>(r: Ring<T>, batch: nat)
    requires r.buf != []
    ensures ConsumerStep(r, batch).taken == r.taken + if Handing(r) then [r.At(r.tail + r.c.read).value] else []
  {
  }

  lemma PollReads<T>(m: Merger<T>, batch: nat)
    requires m.at < |m.egress| && m.egress[m.at].ring.buf != [] && m.egress[m.at].ring.taken == SinkOf(m.sink, m.at)
    ensures |Poll(m, batch).egress| == |m.egress|
    ensures Poll(m, batch).egress[m.at].ring.taken == SinkOf(Poll(m, batch).sink, m.at)
  {
    PollSink(m, batch, m.at);
    StepTaken(m.egress[m.at].ring, batch);
    assert Poll(m, batch).egress[m.at].ring == ConsumerStep(m.egress[m.at].ring, batch);
  }

  lemma PollShard<T>(m: Merger<T>, batch: nat)
    requires Sound(m, batch) && Shape(m) && (m.phase.Running? || m.phase.Last?) && m.at < |m.egress|
    ensures |Poll(m, batch).egress| == |m.egress| && EgressSound(Poll(m, batch), m.at, batch)
  {
    assert EgressSound(m, m.at, batch);
    var r := m.egress[m.at].ring;
    ConsumerKeeps(r, batch);
    PollReads(m, batch);
    if !r.c.Waiting? && ConsumerStep(r, batch).c.Waiting? && Returned(r.c) == 0 {
      PollEmpty(r, batch);
    }
  }

  lemma PollNumbers<T>(m: Merger<T>, batch: nat)
    requires Sound(m, batch) && Shape(m) && (m.phase.Running? || m.phase.Last?) && m.at < |m.egress|
    ensures var m' := Poll(m, batch);
            && m'.at <= |m'.egress| == |m.egress| && m'.phase == m.phase && m'.stop == m.stop
            && m'.seqNo == |m'.sink| && (forall k | 0 <= k < |m'.sink| :: m'.sink[k].2 == k) && m'.merged <= m'.seqNo
  {
  }

  /** Without anything forwarded in this round, the tally is up to date. */
  lemma PollTally<T>(m: Merger<T>, batch: nat)
    requires Sound(m, batch) && Shape(m) && (m.phase.Running? || m.phase.Last?) && m.at < |m.egress|
    ensures var m' := Poll(m, batch); !m'.any && !Busy(m') ==> m'.merged == m'.seqNo
  {
    assert EgressSound(m, m.at, batch);
    if m.at + 1 < |m.egress| {
      assert EgressSound(m, m.at + 1, batch);
    }
  }

  lemma PollSound<T>(m: Merger<T>, batch: nat)
    requires Sound(m, batch) && Shape(m) && (m.phase.Running? || m.phase.Last?) && m.at < |m.egress|
    ensures Sound(Poll(m, batch), batch)
  {
    var m' := Poll(m, batch);
    PollNumbers(m, batch);
    PollTally(m, batch);
    forall j: nat | j < |m'.egress| ensures EgressSound(m', j, batch) {
      if j != m.at {
        assert EgressSound(m, j, batch);
        PollOthers(m, batch, j);
      } else {
        PollShard(m, batch);
      }
    }
  }

  lemma MergeSound<T>(m: Merger<T>, batch: nat)
    requires Sound(m, batch) && Shape(m)
    ensures Sound(MergeStep(m, batch), batch)
  {
    if (m.phase.Running? || m.phase.Last?) && m.at < |m.egress| {
      PollSound(m, batch);
    } else {
      var m' := MergeStep(m, batch);
      forall j: nat | j < |m'.egress| ensures EgressSound(m', j, batch) {
        assert EgressSound(m, j, batch);
      }
    }
  }

  lemma NextSound<T>(m: Merger<T>, t: Turn<T>, batch: nat)
    requires Sound(m, batch)
    ensures Shape(m) && Sound(Next(m, t, batch), batch)
  {
    SoundShape(m, batch);
    match t
    case Publish(i, v) =>
      if !m.stop && i < |m.egress| {
        PublishSound(m, i, v, batch);
      }
    case Merge => MergeSound(m, batch);
    case StopMerger =>
      var m' := Next(m, t, batch);
      forall j: nat | j < |m'.egress| ensures EgressSound(m', j, batch) {
        assert EgressSound(m, j, batch);
      }
  }

  // ----- the merged stream, for every schedule

  ghost function Play<T>(m: Merger<T>, ts: seq<Turn<T>>, batch: nat): (r: Merger<T>)
    requires Sound(m, batch)
    ensures Sound(r, batch) && |r.egress| == |m.egress|
    decreases |ts|
  {
    if ts == [] then m else
    NextSound(m, ts[0], batch);
    Play(Next(m, ts[0], batch), ts[1..], batch)
  }

  function Fresh<T>(shards: nat, capacity: nat, any: T): Merger<T> {
    Merger(seq(shards, _ => Egress(Start(capacity, any), [], 0)), 0, false, Running, 0, 0, [], false)
  }

  lemma FreshSound<T>(shards: nat, capacity: nat, any: T, batch: nat)
    requires capacity > 0 && batch > 0
    ensures Sound(Fresh(shards, capacity, any), batch)
  {
    var m := Fresh(shards, capacity, any);
    forall i: nat | i < |m.egress| ensures EgressSound(m, i, batch) {
      assert Start(capacity, any).buf[0].seqNo == 0;
    }
  }

  /** What has been published and not read yet. */
  function Unread<T>(r: Ring<T>): seq<T>
    requires |r.taken| <= |r.pushed|
  {
    r.pushed[|r.taken|..]
  }

  /** At every moment: the numbers of the merged stream have no gap, each shard's events stand in it in
      the order they went into the ring, and every event of a shard has been delivered, is queued, or
      was counted as dropped. */
  lemma MergedStream<T>(m: Merger<T>, ts: seq<Turn<T>>, batch: nat, i: nat)
    requires Sound(m, batch) && i < |m.egress|
    ensures var r := Play(m, ts, batch);
            var e := r.egress[i];
            && (forall k | 0 <= k < |r.sink| :: r.sink[k].2 == k)
            && |e.ring.taken| <= |e.ring.pushed| <= |e.ring.taken| + |e.ring.buf|
            && Kept(e.fate) == SinkOf(r.sink, i) + Unread(e.ring)
            && |e.fate| == |SinkOf(r.sink, i)| + |Unread(e.ring)| + e.dropped
  {
    var r := Play(m, ts, batch);
    assert EgressSound(r, i, batch);
    var g := r.egress[i].ring;
    assert g.pushed == g.taken + g.pushed[|g.taken|..];
  }

  /** When the merger is gone, everything that went into the rings has been delivered and tallied. */
  lemma MergerComplete<T>(m: Merger<T>, ts: seq<Turn<T>>, batch: nat, i: nat)
    requires Sound(m, batch) && i < |m.egress|
    ensures var r := Play(m, ts, batch);
            r.phase.Done? ==> SinkOf(r.sink, i) == Kept(r.egress[i].fate) && r.merged == |r.sink|
  {
    var r := Play(m, ts, batch);
    assert EgressSound(r, i, batch);
    if r.phase.Done? {
      assert EgressSound(r, 0, batch);
      assert r.egress[i].ring.taken == r.egress[i].ring.pushed;
    }
  }
}
