/** Price-time priority. A side of the book read as one queue, best price first and first come first
    within a price, and matching as a walk down that queue. */
module PriceTime {
  import opened Types
  import opened Ladders
  import opened Books
  import opened EngineSpec
  import opened Slices

  // ----- the queue of a side

  function Orders(f: seq<Node>): (r: seq<Order>)
    ensures |r| == |f| && forall i | 0 <= i < |f| :: r[i] == f[i].o
  {
    if f == [] then [] else [f[0].o] + Orders(f[1..])
  }

  /** All orders of side s, best price first, in arrival order within a price. */
  function Queue(s: Side, l: Ladder): seq<Order>
    decreases Count(l)
  {
    var b := Best(s, l);
    if b.None? then [] else
    CountUpdate(l, b.value, []);
    Orders(l[b.value]) + Queue(s, l[b.value := []])
  }

  lemma QueueLevel(s: Side, l: Ladder, b: nat, g: seq<Node>)
    requires Best(s, l) == Some(b) && g != []
    ensures Queue(s, l[b := g]) == Orders(g) + Queue(s, l[b := []])
  {
    var l' := l[b := g];
    forall px | 0 <= px < |l'| && l'[px] != [] ensures !Better(s, px, b) {
      assert l[px] != [];
    }
    BestUnique(s, l', b);
    assert l'[b := []] == l[b := []];
  }

  lemma QueueHead(s: Side, l: Ladder)
    requires Best(s, l).Some?
    ensures Queue(s, l) != [] && Queue(s, l)[0] == l[Best(s, l).value][0].o
  {
    CountUpdate(l, Best(s, l).value, []);
  }

  /** Taking the front order of the best level takes it off the queue. */
  lemma QueueDrop(s: Side, l: Ladder, b: nat)
    requires Best(s, l) == Some(b)
    ensures Queue(s, l) != [] && Queue(s, l[b := RemoveAt(l[b], 0)]) == Queue(s, l)[1..]
  {
    var f, g := l[b], RemoveAt(l[b], 0);
    QueueLevel(s, l, b, f);
    assert l[b := f] == l;
    assert Orders(f)[1..] == Orders(g);
    if g != [] {
      QueueLevel(s, l, b, g);
    }
  }

  /** Rewriting the front order of the best level rewrites the head of the queue. */
  lemma QueueRewrite(s: Side, l: Ladder, b: nat, o: Order)
    requires Best(s, l) == Some(b)
    ensures Queue(s, l) != [] && Queue(s, l[b := l[b][0 := Node(l[b][0].slot, o)]]) == Queue(s, l)[0 := o]
  {
    var f := l[b];
    QueueLevel(s, l, b, f);
    assert l[b := f] == l;
    var g := f[0 := Node(f[0].slot, o)];
    QueueLevel(s, l, b, g);
    assert Orders(g) == Orders(f)[0 := o];
  }

  // ----- what does not depend on storage

  /** A ladder without its slots. */
  function Plain(l: Ladder): (p: seq<seq<Order>>)
    ensures |p| == |l| && forall px | 0 <= px < |l| :: p[px] == Orders(l[px])
  {
    seq(|l|, px requires 0 <= px < |l| => Orders(l[px]))
  }

  lemma PlainUpdate(l: Ladder, px: nat, f: seq<Node>)
    requires px < |l|
    ensures Plain(l[px := f]) == Plain(l)[px := Orders(f)]
  {
  }

  lemma {:induction false} OrdersQty(f: seq<Node>, g: seq<Node>)
    requires Orders(f) == Orders(g)
    ensures FifoQty(f) == FifoQty(g) && (f == [] <==> g == [])
  {
    assert |f| == |Orders(f)| && |g| == |Orders(g)|;
    if f != [] {
      assert Orders(f[1..]) == Orders(f)[1..] && Orders(g[1..]) == Orders(g)[1..];
      OrdersQty(f[1..], g[1..]);
    }
  }

  lemma BestPlain(s: Side, a: Ladder, b: Ladder)
    requires Plain(a) == Plain(b)
    ensures Best(s, a) == Best(s, b)
    ensures Best(s, a).Some? ==> FifoQty(a[Best(s, a).value]) == FifoQty(b[Best(s, a).value])
  {
    assert |a| == |Plain(a)| && |b| == |Plain(b)|;
    forall px | 0 <= px < |a| ensures a[px] == [] <==> b[px] == [] {
      OrdersQty(a[px], b[px]);
    }
    if Best(s, a).Some? {
      BestUnique(s, b, Best(s, a).value);
      OrdersQty(a[Best(s, a).value], b[Best(s, a).value]);
    }
  }

  // ----- the order of the queue

  predicate Sorted(s: Side, q: seq<Order>) {
    forall i, j | 0 <= i < j < |q| :: !Better(s, q[j].px, q[i].px)
  }

  function At(q: seq<Order>, px: nat): seq<Order> {
    if q == [] then [] else (if q[0].px == px then [q[0]] else []) + At(q[1..], px)
  }

  lemma {:induction false} AtAppend(p: seq<Order>, q: seq<Order>, px: nat)
    ensures At(p + q, px) == At(p, px) + At(q, px)
  {
    if p == [] {
      assert p + q == q;
    } else {
      assert (p + q)[1..] == p[1..] + q;
      AtAppend(p[1..], q, px);
      Regroup(if p[0].px == px then [p[0]] else [], At(p[1..], px), At(q, px));
    }
  }

  lemma {:induction false} AtSame(q: seq<Order>, px: nat, b: nat)
    requires forall o | o in q :: o.px == b
    ensures At(q, px) == if px == b then q else []
  {
    if q != [] {
      AtSame(q[1..], px, b);
      assert q == [q[0]] + q[1..];
    }
  }

  lemma LevelPlaced(s: Side, l: Ladder, b: nat)
    requires Placed(s, l) && b < |l|
    ensures forall o | o in Orders(l[b]) :: o.px == b
  {
    forall o | o in Orders(l[b]) ensures o.px == b {
      var i :| 0 <= i < |Orders(l[b])| && Orders(l[b])[i] == o;
      assert PlacedAt(s, l, b, i);
    }
  }

  /** Every order of the queue stands at a populated level. */
  lemma {:induction false} QueuePrices(s: Side, l: Ladder)
    requires Placed(s, l)
    ensures forall o | o in Queue(s, l) :: o.px < |l| && l[o.px] != []
    decreases Count(l)
  {
    var best := Best(s, l);
    if best.Some? {
      var b := best.value;
      CountUpdate(l, b, []);
      PlacedLevel(s, l, b, []);
      LevelPlaced(s, l, b);
      QueuePrices(s, l[b := []]);
      forall o | o in Queue(s, l[b := []]) ensures o.px < |l| && l[o.px] != [] {
        assert l[b := []][o.px] != [];
      }
    }
  }

  /** The queue never serves a worse price first. */
  lemma {:induction false} QueueSorted(s: Side, l: Ladder)
    requires Placed(s, l)
    ensures Sorted(s, Queue(s, l))
    decreases Count(l)
  {
    var best := Best(s, l);
    if best.Some? {
      var b := best.value;
      CountUpdate(l, b, []);
      PlacedLevel(s, l, b, []);
      LevelPlaced(s, l, b);
      QueueSorted(s, l[b := []]);
      QueuePrices(s, l[b := []]);
      SortedAppend(s, Orders(l[b]), Queue(s, l[b := []]), b);
    }
  }

  lemma SortedAppend(s: Side, p: seq<Order>, q: seq<Order>, b: nat)
    requires (forall o | o in p :: o.px == b) && Sorted(s, q) && forall o | o in q :: !Better(s, o.px, b)
    ensures Sorted(s, p + q)
  {
    var r := p + q;
    forall i, j | 0 <= i < j < |r| ensures !Better(s, r[j].px, r[i].px) {
      assert r[i] in p || (i >= |p| && r[i] == q[i - |p|]);
      assert r[j] in p || (j >= |p| && r[j] == q[j - |p|] && r[j] in q);
    }
  }

  /** The queue serves every level in arrival order. */
  lemma {:induction false} QueueFifo(s: Side, l: Ladder, px: nat)
    requires Placed(s, l) && px < |l|
    ensures At(Queue(s, l), px) == Orders(l[px])
    decreases Count(l)
  {
    var best := Best(s, l);
    if best.Some? {
      var b := best.value;
      CountUpdate(l, b, []);
      PlacedLevel(s, l, b, []);
      LevelPlaced(s, l, b);
      QueueFifo(s, l[b := []], px);
      AtAppend(Orders(l[b]), Queue(s, l[b := []]), px);
      AtSame(Orders(l[b]), px, b);
    }
  }

  // ----- matching down the queue

  /** What a walk down the queue leaves of it, what it publishes and what the aggressor has left. */
  datatype Outcome = Outcome(left: seq<Order>, out: seq<Event>, seqNo: nat, rem: nat, aborted: bool)

  function Take(cfg: Config, m: Submit, q: seq<Order>, rem: nat, n: nat): Outcome
    decreases |q|
  {
    if rem == 0 || q == [] || !Crosses(m.s, m.px, q[0].px) then Outcome(q, [], n, rem, false) else
    var t := Meet(cfg, m, q[0], q[0].px, rem, n + 1);
    if t.aborted then Outcome(q, [], n, 0, true) else
    var n' := Stamped(n, t.out);
    if t.q < q[0].remaining then
      Outcome(q[0 := q[0].(remaining := q[0].remaining - t.q)], t.out, n', t.rem, false)
    else
      var r := Take(cfg, m, q[1..], t.rem, n');
      r.(out := t.out + r.out)
  }

  /** What a meeting that takes x from the head leaves of a queue. */
  function Left(q: seq<Order>, x: nat): seq<Order>
    requires q != [] && x <= q[0].remaining
  {
    if x < q[0].remaining then q[0 := q[0].(remaining := q[0].remaining - x)] else q[1..]
  }

  /** Reducing the front maker of the best level does so to the head of the queue. */
  lemma ReduceQueue(b: Book, s: Side, px: nat, x: nat)
    requires Wf(b) && Reducible(b, s, px, x) && Best(s, b.Of(s)) == Some(px)
    ensures var q := Queue(s, b.Of(s));
            q != [] && q[0] == b.Of(s)[px][0].o && q[0].px == px && q[0].remaining > 0
            && Queue(s, ReduceFront(b, s, px, x).Of(s)) == Left(q, x)
  {
    var l: Ladder := b.Of(s);
    var o := l[px][0].o;
    assert PlacedAt(s, l, px, 0);
    QueueHead(s, l);
    var l' := ReduceFront(b, s, px, x).Of(s);
    if x < o.remaining {
      assert l' == l[px := l[px][0 := Node(l[px][0].slot, o.(remaining := o.remaining - x))]];
      QueueRewrite(s, l, px, o.(remaining := o.remaining - x));
    } else {
      assert l' == l[px := RemoveAt(l[px], 0)];
      QueueDrop(s, l, px);
    }
  }

  /** A walk that takes the head goes on with what the meeting left. */
  lemma TakeHead(cfg: Config, m: Submit, q: seq<Order>, rem: nat, n: nat, t: Meeting)
    requires rem > 0 && q != [] && Crosses(m.s, m.px, q[0].px) && q[0].remaining > 0
    requires t == Meet(cfg, m, q[0], q[0].px, rem, n + 1)
    ensures t.aborted ==> Take(cfg, m, q, rem, n) == Outcome(q, [], n, 0, true) && t.rem == 0
    ensures !t.aborted ==>
              var w := Take(cfg, m, Left(q, t.q), t.rem, Stamped(n, t.out));
              Take(cfg, m, q, rem, n) == w.(out := t.out + w.out)
  {
  }

  /** A turn of the match loop is a step of the walk. */
  lemma MatchFrontTakes(st: State, m: Submit, rem: nat) returns (out: seq<Event>)
    requires Wf(st.b) && rem > 0 && NextPrice(st, m).Some?
    ensures var s, px := Opposite(m.s), NextPrice(st, m).value;
            var r, t := MatchFront(st, m, px, rem), Take(st.cfg, m, Queue(s, st.b.Of(s)), rem, st.seqNo);
            if r.aborted then r == Progress(st, 0, true) && t == Outcome(Queue(s, st.b.Of(s)), [], st.seqNo, 0, true)
            else
              && r.st.events == st.events + out
              && var w := Take(st.cfg, m, Queue(s, r.st.b.Of(s)), r.rem, r.st.seqNo); t == w.(out := out + w.out)
  {
    var s, px := Opposite(m.s), NextPrice(st, m).value;
    var t := MatchFrontIs(st, m, px, rem);
    out := t.out;
    ReduceQueue(st.b, s, px, t.q);
    TakeHead(st.cfg, m, Queue(s, st.b.Of(s)), rem, st.seqNo, t);
  }

  lemma NextIsHead(st: State, m: Submit)
    requires Wf(st.b)
    ensures var q := Queue(Opposite(m.s), st.b.Of(Opposite(m.s)));
            NextPrice(st, m).None? <==> q == [] || !Crosses(m.s, m.px, q[0].px)
  {
    var s := Opposite(m.s);
    var best := Best(s, st.b.Of(s));
    if best.Some? {
      QueueHead(s, st.b.Of(s));
      assert PlacedAt(s, st.b.Of(s), best.value, 0);
    }
  }

  /** r, reached from st by matching, is what t says of the queue of side s. */
  predicate Follows(s: Side, st: State, r: Progress, t: Outcome) {
    && Queue(s, r.st.b.Of(s)) == t.left && r.st.events == st.events + t.out && r.st.seqNo == t.seqNo
    && r.rem == t.rem && r.aborted == t.aborted
  }

  lemma FollowsOn(s: Side, st: State, mid: State, out: seq<Event>, r: Progress, t: Outcome)
    requires Follows(s, mid, r, t) && mid.events == st.events + out
    ensures Follows(s, st, r, t.(out := out + t.out))
  {
  }

  predicate MatchFollows(st: State, m: Submit, rem: nat)
    requires Wf(st.b)
  {
    var s := Opposite(m.s);
    Follows(s, st, Match(st, m, rem), Take(st.cfg, m, Queue(s, st.b.Of(s)), rem, st.seqNo))
  }

  lemma MatchStepFollows(st: State, m: Submit, rem: nat)
    requires Wf(st.b) && rem > 0 && NextPrice(st, m).Some?
    requires var r := MatchFront(st, m, NextPrice(st, m).value, rem); r.aborted || MatchFollows(r.st, m, r.rem)
    ensures MatchFollows(st, m, rem)
  {
    var s := Opposite(m.s);
    var r := MatchFront(st, m, NextPrice(st, m).value, rem);
    var out := MatchFrontTakes(st, m, rem);
    if r.aborted {
      assert Match(st, m, rem) == r;
    } else {
      assert Match(st, m, rem) == Match(r.st, m, r.rem);
      FollowsOn(s, st, r.st, out, Match(r.st, m, r.rem), Take(st.cfg, m, Queue(s, r.st.b.Of(s)), r.rem, r.st.seqNo));
    }
  }

  /** Matching is the walk down the opposite queue. */
  lemma {:induction false} MatchTakes(st: State, m: Submit, rem: nat)
    requires Wf(st.b)
    ensures MatchFollows(st, m, rem)
    decreases rem, Count(st.b.Of(Opposite(m.s)))
  {
    NextIsHead(st, m);
    if rem > 0 && NextPrice(st, m).Some? {
      var px := NextPrice(st, m).value;
      MatchFrontShrinks(st, m, px, rem);
      var r := MatchFront(st, m, px, rem);
      if !r.aborted {
        MatchTakes(r.st, m, r.rem);
      }
      MatchStepFollows(st, m, rem);
    }
  }
}
