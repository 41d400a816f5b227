/** Once the shards have ceased and stop is requested, the merger comes to its end within a number of its
    own accesses counted from what is queued. */
module MergerProgress {
  import G = Rings
  import Workers
  import opened Egresses
  import opened Progress

  /** Accesses of an empty round over n rings, and one to start over. */
  function Round(n: nat): nat {
    2 * n + 1
  }

  /** What an event is worth: enough accesses to hand it over, and a round more. */
  function Worth(n: nat): nat {
    2 * n + 8
  }

  /** All that is queued. */
  function Backlog<T>(es: seq<Egress<T>>): nat {
    if es == [] then 0 else Queued(es[0].ring) + Backlog(es[1..])
  }

  lemma {:induction false} BacklogUpdate<T>(es: seq<Egress<T>>, i: nat, e: Egress<T>)
    requires i < |es|
    ensures Backlog(es[i := e]) + Queued(es[i].ring) == Backlog(es) + Queued(e.ring)
  {
    if i == 0 {
      assert es[i := e][1..] == es[1..];
    } else {
      assert es[i := e][1..] == es[1..][i - 1 := e];
      BacklogUpdate(es[1..], i - 1, e);
    }
  }

  /** How much of the claim under way is done. */
  function ClaimDone(c: G.Consumer): nat {
    match c
    case Waiting => 0
    case Scanning(n, _) => n + 1
    case Reading(n, i) => n + i + 2
  }

  /** What is left of the round, leaving out what the queued events are worth. */
  function RoundLeft<T>(m: Merger<T>): nat {
    if m.at <= |m.egress| then 2 * (|m.egress| - m.at) + 1 else 1
  }

  function Done<T>(m: Merger<T>): nat {
    if m.at < |m.egress| then ClaimDone(m.egress[m.at].ring.c) else 0
  }

  /** Accesses until the merger is done, as an integer. */
  function Left<T>(m: Merger<T>): int {
    var n := |m.egress|;
    var worth := Worth(n) * Backlog(m.egress);
    match m.phase
    case Done => 0
    case Glancing => worth + Round(n) + 1
    case Running => worth + RoundLeft(m) - Done(m) + (if m.any then Round(n) else 0) + Round(n) + 1
    case Last => worth + RoundLeft(m) - Done(m) + (if m.any then Round(n) else 0)
  }

  /** A claim of the merger goes on, or ends. */
  lemma ClaimGoes<T>(r: G.Ring<T>, batch: nat)
    requires G.Inv(r) && batch > 0 && (r.c.Scanning? ==> r.c.max == batch)
    ensures var r' := G.ConsumerStep(r, batch);
            if !r.c.Waiting? && r'.c.Waiting? then
              && (Workers.Returned(r.c) == 0 ==> Queued(r) == 0 == Queued(r') && ClaimDone(r.c) == 1)
              && (Workers.Returned(r.c) > 0 ==>
                    && Queued(r') + Workers.Returned(r.c) == Queued(r)
                    && ClaimDone(r.c) == 2 * Workers.Returned(r.c) + 2)
            else Queued(r') == Queued(r) && ClaimDone(r'.c) == ClaimDone(r.c) + 1
    ensures ClaimDone(r.c) <= 2 * Queued(r) + 2
  {
    if r.c.Scanning? {
      G.SeenIsPublished(r, r.tail + r.c.n);
    }
  }

  lemma PollContinues<T>(m: Merger<T>, batch: nat, r: G.Ring<T>, r': G.Ring<T>)
    requires m.at < |m.egress| && r == m.egress[m.at].ring && r.buf != [] && r' == G.ConsumerStep(r, batch)
    requires (m.phase.Running? || m.phase.Last?) && !(!r.c.Waiting? && r'.c.Waiting?)
    requires Queued(r') == Queued(r) && ClaimDone(r'.c) == ClaimDone(r.c) + 1
    ensures Left(Poll(m, batch)) < Left(m)
  {
    BacklogUpdate(m.egress, m.at, m.egress[m.at].(ring := r'));
  }

  lemma PollEnds<T>(m: Merger<T>, batch: nat, r: G.Ring<T>, r': G.Ring<T>)
    requires m.at < |m.egress| && r == m.egress[m.at].ring && r.buf != [] && r' == G.ConsumerStep(r, batch)
    requires (m.phase.Running? || m.phase.Last?) && !r.c.Waiting? && r'.c.Waiting? && !Handing(r)
    requires Queued(r') + Workers.Returned(r.c) == Queued(r)
    requires ClaimDone(r.c) == if Workers.Returned(r.c) > 0 then 2 * Workers.Returned(r.c) + 2 else 1
    requires m.at + 1 < |m.egress| ==> m.egress[m.at + 1].ring.c.Waiting?
    ensures Left(Poll(m, batch)) < Left(m)
  {
    BacklogUpdate(m.egress, m.at, m.egress[m.at].(ring := r'));
    Spent(|m.egress|, Backlog(m.egress), Backlog(Poll(m, batch).egress), Workers.Returned(r.c));
  }

  lemma PollGoesOn<T>(m: Merger<T>, batch: nat)
    requires Sound(m, batch) && Shape(m) && (m.phase.Running? || m.phase.Last?) && m.at < |m.egress|
    ensures Left(Poll(m, batch)) < Left(m)
  {
    assert EgressSound(m, m.at, batch);
    var r := m.egress[m.at].ring;
    var r' := G.ConsumerStep(r, batch);
    ClaimGoes(r, batch);
    if !r.c.Waiting? && r'.c.Waiting? {
      if m.at + 1 < |m.egress| {
        assert EgressSound(m, m.at + 1, batch);
      }
      PollEnds(m, batch, r, r');
    } else {
      PollContinues(m, batch, r, r');
    }
  }

  /** k events less are worth it. */
  lemma Spent(n: nat, b: nat, b': nat, k: nat)
    requires b == b' + k
    ensures Worth(n) * b == Worth(n) * b' + Worth(n) * k
    ensures k > 0 ==> Worth(n) * k >= 2 * k + Round(n) + 5
  {
    if k > 0 {
      assert Worth(n) * k == 2 * k + (2 * n + 6) * k;
      assert (2 * n + 6) * k >= 2 * n + 6 by {
        assert (2 * n + 6) * (k - 1) >= 0;
      }
    }
  }

  /** Every access brings the end nearer. */
  lemma MergeGoesOn<T>(m: Merger<T>, batch: nat)
    requires Sound(m, batch) && Shape(m) && m.stop && !m.phase.Done?
    ensures Left(MergeStep(m, batch)) < Left(m)
  {
    if (m.phase.Running? || m.phase.Last?) && m.at < |m.egress| {
      PollGoesOn(m, batch);
    } else if m.egress != [] {
      assert EgressSound(m, 0, batch);
    }
  }

  lemma {:induction false} BacklogHolds<T>(es: seq<Egress<T>>, i: nat)
    requires i < |es|
    ensures Backlog(es) >= Queued(es[i].ring)
  {
    if i > 0 {
      BacklogHolds(es[1..], i - 1);
    }
  }

  lemma WorthMore(n: nat, b: nat, q: nat)
    requires b >= q
    ensures Worth(n) * b >= 2 * q
  {
    assert Worth(n) * b == 2 * b + (2 * n + 6) * b;
  }

  /** There is something left to do until the merger is done, and no more than this. */
  lemma LeftBounds<T>(m: Merger<T>, batch: nat)
    requires Sound(m, batch)
    ensures !m.phase.Done? ==> Left(m) > 0
    ensures Left(m) <= Worth(|m.egress|) * Backlog(m.egress) + 3 * Round(|m.egress|) + 1
  {
    WorthMore(|m.egress|, Backlog(m.egress), 0);
    if m.at < |m.egress| {
      assert EgressSound(m, m.at, batch);
      ClaimGoes(m.egress[m.at].ring, batch);
      BacklogHolds(m.egress, m.at);
      WorthMore(|m.egress|, Backlog(m.egress), Queued(m.egress[m.at].ring));
    }
  }

  /** How many accesses the schedule gives the merger. */
  function Merges<T>(ts: seq<Turn<T>>): nat {
    if ts == [] then 0 else (if ts[0].Merge? then 1 else 0) + Merges(ts[1..])
  }

  lemma StoppedTurn<T>(m: Merger<T>, t: Turn<T>, batch: nat)
    requires Shape(m) && m.stop
    ensures Next(m, t, batch) == if t.Merge? then MergeStep(m, batch) else m
    ensures MergeStep(m, batch).stop
  {
  }

  lemma {:induction false} MergesEnd<T>(m: Merger<T>, ts: seq<Turn<T>>, batch: nat)
    requires Sound(m, batch) && m.stop && Merges(ts) >= Left(m)
    ensures Play(m, ts, batch).phase.Done?
    decreases |ts|
  {
    LeftBounds(m, batch);
    if ts != [] {
      NextSound(m, ts[0], batch);
      StoppedTurn(m, ts[0], batch);
      if !m.phase.Done? {
        MergeGoesOn(m, batch);
      }
      MergesEnd(Next(m, ts[0], batch), ts[1..], batch);
    }
  }

  /** Once stop is requested, so many accesses see the merger done, and every event that went into a ring
      delivered and tallied. */
  lemma MergerEnds<T>(m: Merger<T>, ts: seq<Turn<T>>, batch: nat, i: nat)
    requires Sound(m, batch) && m.stop && i < |m.egress|
    requires Merges(ts) >= (2 * |m.egress| + 8) * Backlog(m.egress) + 6 * |m.egress| + 4
    ensures var r := Play(m, ts, batch);
            r.phase.Done? && SinkOf(r.sink, i) == Kept(r.egress[i].fate) && r.merged == |r.sink|
  {
    LeftBounds(m, batch);
    MergesEnd(m, ts, batch);
    MergerComplete(m, ts, batch, i);
  }
}
