/** What a walk down the queue consumes and publishes, and the fill-or-kill precheck. */
module FillOrKill {
  import opened Types
  import opened Ladders
  import opened Books
  import opened EngineSpec
  import opened PriceTime

  // ----- quantity

  /** The quantity an event takes from the aggressor and from a maker alike. */
  function ExecutedBy(e: Event): nat {
    match e
    case Fill(_, _, _, q, _) => q
    case SelfTrade(_, _, _, _, q, _) => q
    case _ => 0
  }

  function Executed(out: seq<Event>): nat {
    if out == [] then 0 else ExecutedBy(out[0]) + Executed(out[1..])
  }

  lemma {:induction false} ExecutedAppend(a: seq<Event>, b: seq<Event>)
    ensures Executed(a + b) == Executed(a) + Executed(b)
  {
    if a == [] {
      assert a + b == b;
    } else {
      assert (a + b)[1..] == a[1..] + b;
      ExecutedAppend(a[1..], b);
    }
  }

  /** The aggressor does not trade with this maker: they share an account. */
  predicate Own(m: Submit, o: Order) {
    m.account != 0 && o.account == m.account
  }

  /** What the cancel-oldest policy takes off the queue without a trade. */
  function Dropped(cfg: Config, m: Submit, q: seq<Order>): nat {
    if q == [] then 0 else
    (if cfg.selfCross.CancelOldest? && Own(m, q[0]) then q[0].remaining else 0) + Dropped(cfg, m, q[1..])
  }

  predicate Positive(q: seq<Order>) {
    forall o | o in q :: o.remaining > 0
  }

  lemma MeetExecutes(cfg: Config, m: Submit, o: Order, rem: nat, n: nat)
    requires o.remaining > 0
    ensures var t := Meet(cfg, m, o, o.px, rem, n);
            && Executed(t.out) <= rem && (!t.aborted ==> Executed(t.out) + t.rem == rem)
            && (!t.aborted ==> t.q == Executed(t.out) + Dropped(cfg, m, [o]))
            && (!t.aborted && t.q < o.remaining ==> t.rem == 0 && Executed(t.out) == t.q)
  {
    var t := Meet(cfg, m, o, o.px, rem, n);
    assert |t.out| == 2 ==> t.out[1..] == [t.out[1]];
    assert Executed([]) == 0;
  }

  /** What the aggressor loses has been published as executed. */
  lemma {:induction false} TakeExecutes(cfg: Config, m: Submit, q: seq<Order>, rem: nat, n: nat)
    requires Positive(q)
    ensures var t := Take(cfg, m, q, rem, n);
            && (!t.aborted ==> Executed(t.out) + t.rem == rem)
            && (t.aborted ==> Executed(t.out) < rem && t.rem == 0)
    decreases |q|
  {
    if rem > 0 && q != [] && Crosses(m.s, m.px, q[0].px) {
      var t := Meet(cfg, m, q[0], q[0].px, rem, n + 1);
      assert q[0] in q;
      MeetExecutes(cfg, m, q[0], rem, n + 1);
      if !t.aborted && t.q == q[0].remaining {
        var n' := Stamped(n, t.out);
        TakeExecutes(cfg, m, q[1..], t.rem, n');
        ExecutedAppend(t.out, Take(cfg, m, q[1..], t.rem, n').out);
      }
    }
  }

  lemma TakeShrinks(cfg: Config, m: Submit, q: seq<Order>, rem: nat, n: nat)
    ensures |Take(cfg, m, q, rem, n).left| <= |q|
    decreases |q|
  {
  }

  predicate Debited(cfg: Config, m: Submit, q: seq<Order>, t: Outcome)
    requires |t.left| <= |q|
  {
    Quantities(q) == Quantities(t.left) + Executed(t.out) + Dropped(cfg, m, q[..|q| - |t.left|])
  }

  lemma DebitedOn(cfg: Config, m: Submit, q: seq<Order>, out: seq<Event>, r: Outcome)
    requires q != [] && |r.left| < |q| && Debited(cfg, m, q[1..], r)
    requires q[0].remaining == Executed(out) + Dropped(cfg, m, [q[0]])
    ensures Debited(cfg, m, q, r.(out := out + r.out))
  {
    ExecutedAppend(out, r.out);
    var k := |q| - |r.left|;
    assert q[..k][1..] == q[1..][..k - 1];
    assert q[..k][0] == q[0];
  }

  /** What the makers lose has been published as executed too, but for the aggressor's own orders
      that cancel-oldest drops. */
  lemma {:induction false} TakeDebits(cfg: Config, m: Submit, q: seq<Order>, rem: nat, n: nat)
    requires Positive(q)
    ensures var t := Take(cfg, m, q, rem, n); |t.left| <= |q| && Debited(cfg, m, q, t)
    decreases |q|
  {
    TakeShrinks(cfg, m, q, rem, n);
    if rem > 0 && q != [] && Crosses(m.s, m.px, q[0].px) {
      var t := Meet(cfg, m, q[0], q[0].px, rem, n + 1);
      assert q[0] in q;
      MeetExecutes(cfg, m, q[0], rem, n + 1);
      if !t.aborted && t.q == q[0].remaining {
        var n' := Stamped(n, t.out);
        TakeDebits(cfg, m, q[1..], t.rem, n');
        DebitedOn(cfg, m, q, t.out, Take(cfg, m, q[1..], t.rem, n'));
      } else if !t.aborted {
        var q' := q[0 := q[0].(remaining := q[0].remaining - t.q)];
        assert q'[1..] == q[1..];
      }
    }
  }

  /** left is what remains of q behind a prefix: its head may have lost quantity, the rest is as it was. */
  predicate Behind(q: seq<Order>, left: seq<Order>) {
    |left| <= |q| &&
    var k := |q| - |left|;
    left == [] || (left[1..] == q[k + 1..] && left[0] == q[k].(remaining := left[0].remaining)
        && left[0].remaining <= q[k].remaining)
  }

  /** The walk takes a prefix of the queue, all of it within the limit, and reduces at most the next
      order, within the limit too and only when the aggressor is used up. */
  lemma {:induction false} TakePrefix(cfg: Config, m: Submit, q: seq<Order>, rem: nat, n: nat)
    ensures var t := Take(cfg, m, q, rem, n);
            Behind(q, t.left) &&
            var k := |q| - |t.left|;
            && (forall i | 0 <= i < k :: Crosses(m.s, m.px, q[i].px))
            && (t.left != [] && t.left[0] != q[k] ==> t.rem == 0 && Crosses(m.s, m.px, q[k].px) && !t.aborted)
    decreases |q|
  {
    if rem > 0 && q != [] && Crosses(m.s, m.px, q[0].px) {
      var t := Meet(cfg, m, q[0], q[0].px, rem, n + 1);
      if !t.aborted && t.q == q[0].remaining {
        TakePrefix(cfg, m, q[1..], t.rem, Stamped(n, t.out));
      }
    }
  }

  /** The walk stops short of the quantity only where the next order is beyond the limit, and gives
      up only at an own order under cancel-newest. */
  lemma {:induction false} TakeStops(cfg: Config, m: Submit, q: seq<Order>, rem: nat, n: nat)
    ensures var t := Take(cfg, m, q, rem, n);
            && (t.rem > 0 ==> t.left == [] || !Crosses(m.s, m.px, t.left[0].px))
            && (t.aborted ==>
                  && cfg.selfCross.CancelNewest? && t.left != [] && Own(m, t.left[0])
                  && Crosses(m.s, m.px, t.left[0].px))
    decreases |q|
  {
    if rem > 0 && q != [] && Crosses(m.s, m.px, q[0].px) {
      var t := Meet(cfg, m, q[0], q[0].px, rem, n + 1);
      if !t.aborted && t.q == q[0].remaining {
        TakeStops(cfg, m, q[1..], t.rem, Stamped(n, t.out));
      }
    }
  }

  /** e is a trade of the aggressor with an order of the queue, at that order's price. */
  predicate TradeWith(cfg: Config, m: Submit, o: Order, e: Event) {
    match e
    case Fill(maker, taker, px, _, _) => maker == o.id && taker == m.id && px == o.px && !Own(m, o)
    case Trade(px, _, _) => px == o.px && !Own(m, o)
    case SelfTrade(a, r, acc, px, _, _) =>
      a == m.id && r == o.id && acc == m.account && px == o.px && Own(m, o) && cfg.selfCross.DecrementTrade?
    case _ => false
  }

  /** Whatever a meeting publishes is a trade with the maker met. */
  lemma MeetTrades(cfg: Config, m: Submit, o: Order, rem: nat, n: nat, i: nat)
    requires i < |Meet(cfg, m, o, o.px, rem, n).out|
    ensures TradeWith(cfg, m, o, Meet(cfg, m, o, o.px, rem, n).out[i])
  {
  }

  /** A walk publishes what its first meeting publishes, then what the rest of it does. */
  lemma TakeOut(cfg: Config, m: Submit, q: seq<Order>, rem: nat, n: nat)
    requires Take(cfg, m, q, rem, n).out != []
    ensures rem > 0 && q != [] && Crosses(m.s, m.px, q[0].px)
    ensures var t := Meet(cfg, m, q[0], q[0].px, rem, n + 1);
            var out := Take(cfg, m, q, rem, n).out;
            out == t.out || out == t.out + Take(cfg, m, q[1..], t.rem, Stamped(n, t.out)).out
  {
  }

  /** Every published trade is with an order of the queue, at its price and under the policy; an own
      order is never filled. */
  lemma {:induction false} TakeTrades(cfg: Config, m: Submit, q: seq<Order>, rem: nat, n: nat, i: nat) returns (k: nat)
    requires i < |Take(cfg, m, q, rem, n).out|
    ensures k < |q| && TradeWith(cfg, m, q[k], Take(cfg, m, q, rem, n).out[i]) && Crosses(m.s, m.px, q[k].px)
    decreases |q|
  {
    TakeOut(cfg, m, q, rem, n);
    var t, out := Meet(cfg, m, q[0], q[0].px, rem, n + 1), Take(cfg, m, q, rem, n).out;
    if i < |t.out| {
      k := 0;
      MeetTrades(cfg, m, q[0], rem, n + 1, i);
      assert out[i] == t.out[i];
    } else {
      var j := TakeTrades(cfg, m, q[1..], t.rem, Stamped(n, t.out), i - |t.out|);
      k := j + 1;
    }
  }

  // ----- the fill-or-kill precheck

  /** The precheck as a walk down the queue. */
  function WalkQueue(cfg: Config, m: Submit, q: seq<Order>, total: nat): bool {
    if q == [] || !Crosses(m.s, m.px, q[0].px) then total >= m.qty
    else if Unfillable(cfg, m.account, q[0]) then
      if cfg.selfCross.CancelNewest? then false else WalkQueue(cfg, m, q[1..], total)
    else total + q[0].remaining >= m.qty || WalkQueue(cfg, m, q[1..], total + q[0].remaining)
  }

  lemma {:induction false} WalkLevelQueue(cfg: Config, m: Submit, f: seq<Node>, rest: seq<Order>, total: nat)
    requires forall n | n in f :: Crosses(m.s, m.px, n.o.px)
    ensures var w := WalkLevel(cfg, m.account, m.qty, f, total);
            WalkQueue(cfg, m, Orders(f) + rest, total) ==
            if w.done then !w.aborted && w.total >= m.qty else WalkQueue(cfg, m, rest, w.total)
  {
    if f == [] {
      assert Orders(f) + rest == rest;
    } else {
      assert (Orders(f) + rest)[1..] == Orders(f[1..]) + rest;
      assert f[0] in f;
      WalkLevelQueue(cfg, m, f[1..], rest, total);
      WalkLevelQueue(cfg, m, f[1..], rest, total + f[0].o.remaining);
    }
  }

  /** The level-by-level precheck walks the queue. */
  lemma {:induction false} CanFillQueue(cfg: Config, m: Submit, l: Ladder, total: nat)
    requires Placed(Opposite(m.s), l)
    ensures CanFillFrom(cfg, m, l, total) == WalkQueue(cfg, m, Queue(Opposite(m.s), l), total)
    decreases Count(l)
  {
    var s := Opposite(m.s);
    var best := Best(s, l);
    if best.Some? {
      var b := best.value;
      CountUpdate(l, b, []);
      forall n | n in l[b] ensures n.o.px == b {
        var i :| 0 <= i < |l[b]| && l[b][i] == n;
        assert PlacedAt(s, l, b, i);
      }
      QueueHead(s, l);
      if Crosses(m.s, m.px, b) {
        PlacedLevel(s, l, b, []);
        WalkLevelQueue(cfg, m, l[b], Queue(s, l[b := []]), total);
        CanFillQueue(cfg, m, l[b := []], WalkLevel(cfg, m.account, m.qty, l[b], total).total);
      }
    }
  }

  /** The precheck succeeds exactly when the walk that trades would consume the whole quantity. */
  lemma {:induction false} WalkIsTake(cfg: Config, m: Submit, q: seq<Order>, total: nat, n: nat)
    requires Positive(q) && total < m.qty
    ensures var t := Take(cfg, m, q, m.qty - total, n); WalkQueue(cfg, m, q, total) <==> t.rem == 0 && !t.aborted
    decreases |q|
  {
    if q != [] && Crosses(m.s, m.px, q[0].px) {
      assert q[0] in q;
      var t := Meet(cfg, m, q[0], q[0].px, m.qty - total, n + 1);
      var n' := Stamped(n, t.out);
      if !t.aborted && t.q == q[0].remaining && t.rem > 0 {
        WalkIsTake(cfg, m, q[1..], m.qty - t.rem, n');
      }
    }
  }

  lemma QueuePositive(s: Side, l: Ladder)
    requires Placed(s, l)
    ensures Positive(Queue(s, l))
    decreases Count(l)
  {
    var best := Best(s, l);
    if best.Some? {
      var b := best.value;
      CountUpdate(l, b, []);
      PlacedLevel(s, l, b, []);
      QueuePositive(s, l[b := []]);
      forall o | o in Orders(l[b]) ensures o.remaining > 0 {
        var i :| 0 <= i < |Orders(l[b])| && Orders(l[b])[i] == o;
        assert PlacedAt(s, l, b, i);
      }
    }
  }

  lemma WfPlaced(b: Book, s: Side)
    requires Wf(b)
    ensures Placed(s, b.Of(s))
  {
  }

  lemma MatchPublishes(st: State, m: Submit, rem: nat)
    requires Wf(st.b)
    ensures var p := Match(st, m, rem);
            var t := Take(st.cfg, m, Queue(Opposite(m.s), st.b.Of(Opposite(m.s))), rem, st.seqNo);
            st.events <= p.st.events && p.st.events[|st.events|..] == t.out && p.rem == t.rem && p.aborted == t.aborted
  {
    MatchTakes(st, m, rem);
  }

  lemma QueuePrecheck(st: State, m: Submit)
    requires Wf(st.b) && m.qty > 0
    ensures var t := Take(st.cfg, m, Queue(Opposite(m.s), st.b.Of(Opposite(m.s))), m.qty, st.seqNo);
            && (CanFill(st, m) <==> t.rem == 0 && !t.aborted)
            && (CanFill(st, m) <==> Executed(t.out) == m.qty)
  {
    var s := Opposite(m.s);
    var q := Queue(s, st.b.Of(s));
    WfPlaced(st.b, s);
    QueuePositive(s, st.b.Of(s));
    CanFillQueue(st.cfg, m, st.b.Of(s), 0);
    WalkIsTake(st.cfg, m, q, 0, st.seqNo);
    TakeExecutes(st.cfg, m, q, m.qty, st.seqNo);
  }

  /** The precheck is exact: it says yes exactly when matching would execute the whole quantity. */
  lemma PrecheckExact(st: State, m: Submit)
    requires Wf(st.b) && m.qty > 0
    ensures var p := Match(st, m, m.qty);
            && st.events <= p.st.events
            && (CanFill(st, m) <==> Executed(p.st.events[|st.events|..]) == m.qty)
            && (CanFill(st, m) <==> p.rem == 0 && !p.aborted)
  {
    MatchPublishes(st, m, m.qty);
    QueuePrecheck(st, m);
  }

  /** A fill-or-kill order executes its whole quantity or does nothing at all, and the former exactly
      when the walk finds the whole quantity. */
  lemma FokAllOrNothing(st: State, m: Submit)
    requires Wf(st.b) && SubmitOk(st, m) && m.t.Fok?
    ensures var r := HandleSubmit(st, m);
            st.events <= r.events &&
            if CanFill(st, m) then Executed(r.events[|st.events|..]) == m.qty else r == st
  {
    PrecheckExact(st, m);
  }
}
