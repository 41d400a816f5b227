/** Saving an engine, clearing it and restoring it, on the object. */
module EngineSnapshots {
  import opened Types
  import opened Ladders
  import opened Books
  import opened Engines
  import Stream
  import opened Snapshots
  import opened Slices

  // ----- saving

  /** Prices without orders have no records. */
  lemma {:induction false} SkipEmpty(s: Side, l: Ladder, from: nat, to: nat)
    requires from <= to <= |l| && forall p | from <= p < to :: l[p] == []
    ensures SideRecords(s, l, from) == SideRecords(s, l, to) && CountFrom(l, from) == CountFrom(l, to)
    decreases |l| - from
  {
    if from < to {
      SkipEmpty(s, l, from + 1, to);
    }
  }

  lemma EmitOn(s: Side, l: Ladder, from: nat, px: nat, recs: seq<Record>, all: seq<Record>)
    requires from <= px < |l| && recs + SideRecords(s, l, from) == all && forall p | from <= p < px :: l[p] == []
    ensures (recs + LevelRecords(s, l[px])) + SideRecords(s, l, px + 1) == all
  {
    SkipEmpty(s, l, from, px);
    Regroup(recs, LevelRecords(s, l[px]), SideRecords(s, l, px + 1));
  }

  lemma EmitOrder(s: Side, f: seq<Node>, k: nat, recs: seq<Record>, all: seq<Record>)
    requires k < |f| && recs + LevelRecords(s, f[k..]) == all
    ensures (recs + [RecordOf(s, f[k].o)]) + LevelRecords(s, f[k + 1..]) == all
  {
    assert f[k..][1..] == f[k + 1..];
    assert LevelRecords(s, f[k..]) == [RecordOf(s, f[k].o)] + LevelRecords(s, f[k + 1..]);
    Regroup(recs, [RecordOf(s, f[k].o)], LevelRecords(s, f[k + 1..]));
  }

  method EmitLevel(e: Engine, s: Side, px: nat) returns (recs: seq<Record>)
    requires e.Valid() && px < e.vault.now.Ticks()
    ensures recs == LevelRecords(s, e.vault.now.Of(s)[px])
  {
    e.vault.Relax(s, px);
    ghost var f := e.vault.now.Of(s)[px];
    var k: nat := 0;
    recs := [];
    var o := e.vault.OrderAt(s, px, 0);
    while o.Some?
      invariant k <= |f| && o == if k < |f| then Some(f[k].o) else None
      invariant recs + LevelRecords(s, f[k..]) == LevelRecords(s, f)
      decreases |f| - k
    {
      EmitOrder(s, f, k, recs, LevelRecords(s, f));
      recs := recs + [RecordOf(s, o.value)];
      k := k + 1;
      o := e.vault.OrderAt(s, px, k);
    }
  }

  /** Both sides are walked by ascending price. */
  method EmitSide(e: Engine, s: Side) returns (recs: seq<Record>)
    requires e.Valid() && |e.vault.now.Of(s)| == e.vault.now.Ticks()
    ensures recs == SideRecords(s, e.vault.now.Of(s), 0)
  {
    ghost var l := e.vault.now.Of(s);
    ghost var from: nat := 0;
    recs := [];
    var px := e.vault.NextPopulated(s, 0);
    while px.Some?
      invariant from <= |l| && recs + SideRecords(s, l, from) == SideRecords(s, l, 0)
      invariant px.None? ==> forall p | from <= p < |l| :: l[p] == []
      invariant px.Some? ==> from <= px.value < |l| && forall p | from <= p < px.value :: l[p] == []
      decreases |l| - from
    {
      EmitOn(s, l, from, px.value, recs, SideRecords(s, l, 0));
      var level := EmitLevel(e, s, px.value);
      recs := recs + level;
      from := px.value + 1;
      px := e.vault.NextPopulated(s, px.value + 1);
    }
    SkipEmpty(s, l, from, |l|);
  }

  method LevelCount(e: Engine, s: Side, px: nat) returns (n: nat)
    requires e.Valid() && px < e.vault.now.Ticks()
    ensures n == |e.vault.now.Of(s)[px]|
  {
    e.vault.Relax(s, px);
    ghost var f := e.vault.now.Of(s)[px];
    n := 0;
    var o := e.vault.OrderAt(s, px, 0);
    while o.Some?
      invariant n <= |f| && (o.Some? <==> n < |f|)
      decreases |f| - n
    {
      n := n + 1;
      o := e.vault.OrderAt(s, px, n);
    }
  }

  method CountSide(e: Engine, s: Side) returns (n: nat)
    requires e.Valid() && |e.vault.now.Of(s)| == e.vault.now.Ticks()
    ensures n == Count(e.vault.now.Of(s))
  {
    ghost var l := e.vault.now.Of(s);
    ghost var from: nat := 0;
    n := 0;
    CountFromTail(l, 0);
    assert l[0..] == l;
    var px := e.vault.NextPopulated(s, 0);
    while px.Some?
      invariant from <= |l| && n + CountFrom(l, from) == Count(l)
      invariant px.None? ==> forall p | from <= p < |l| :: l[p] == []
      invariant px.Some? ==> from <= px.value < |l| && forall p | from <= p < px.value :: l[p] == []
      decreases |l| - from
    {
      SkipEmpty(s, l, from, px.value);
      var c := LevelCount(e, s, px.value);
      n := n + c;
      from := px.value + 1;
      px := e.vault.NextPopulated(s, px.value + 1);
    }
    SkipEmpty(s, l, from, |l|);
  }

  method Save(e: Engine, ticks: nat, maxOrders: nat) returns (src: Source)
    requires e.Valid() && Wf(e.vault.now) && ticks == e.vault.now.Ticks() && maxOrders == |e.vault.now.gens|
    ensures src == Snapshot(e.Abs())
  {
    var nb := CountSide(e, Bid);
    var na := CountSide(e, Ask);
    var h := Header(MAGIC, VERSION, ticks, maxOrders, PolicyByte(e.cfg.selfCross), BoolByte(e.cfg.topThrottle),
                    e.hot.seqNo, e.hot.last, BoolByte(e.hot.haveTop), nb + na);
    var rb := EmitSide(e, Bid);
    var ra := EmitSide(e, Ask);
    src := Source(Some(h), rb + ra);
  }

  // ----- clearing

  /** Drain the best level px from the front. */
  method ClearLevel(e: Engine, s: Side, px: nat)
    requires e.Valid() && Best(s, e.vault.now.Of(s)) == Some(px) && Wf(e.vault.now) && px < e.vault.now.Ticks()
    modifies e.vault, e.vault.store.Repr
    ensures e.Valid() && Wf(e.vault.now) && SameShape(old(e.vault.now), e.vault.now)
    ensures ClearSide(e.vault.now, s) == ClearSide(old(e.vault.now), s)
    ensures Count(e.vault.now.Of(s)) < Count(old(e.vault.now).Of(s))
  {
    ghost var b := e.vault.now;
    e.vault.Relax(s, px);
    var front := e.vault.OrderAt(s, px, 0);
    while front.Some?
      invariant e.ValidBut(s, px) && px < e.vault.now.Ticks()
      invariant front == if e.vault.now.Of(s)[px] == [] then None else Some(e.vault.now.Of(s)[px][0].o)
      invariant Draining(b, s, px, e.vault.now)
      decreases Count(e.vault.now.Of(s))
    {
      DrainingStep(b, s, px, e.vault.now);
      e.vault.ReduceFront(s, px, front.value.remaining);
      front := e.vault.OrderAt(s, px, 0);
    }
    e.vault.Settle(s, px);
  }

  /** Draining b has come to `at`, without leaving level px, the best one. */
  ghost predicate Draining(b: Book, s: Side, px: nat, at: Book) {
    && Wf(b) && Wf(at) && SameShape(b, at) && ClearSide(b, s) == ClearSide(at, s)
    && (forall p: nat | p < |at.Of(s)| && at.Of(s)[p] != [] :: !Better(s, p, px))
    && (at == b || Count(at.Of(s)) < Count(b.Of(s)))
    && px < |b.Of(s)| && b.Of(s)[px] != []
  }

  lemma DrainingStep(b: Book, s: Side, px: nat, at: Book)
    requires Draining(b, s, px, at) && px < |at.Of(s)| && at.Of(s)[px] != []
    ensures var r := ReduceFront(at, s, px, at.Of(s)[px][0].o.remaining);
            Draining(b, s, px, r) && Count(r.Of(s)) < Count(at.Of(s))
  {
    BestUnique(s, at.Of(s), px);
    CountUpdate(at.Of(s), px, RemoveAt(at.Of(s)[px], 0));
    var r := ReduceFront(at, s, px, at.Of(s)[px][0].o.remaining);
    forall p: nat | p < |r.Of(s)| && r.Of(s)[p] != [] ensures !Better(s, p, px) {
      if p != px {
        assert r.Of(s)[p] == at.Of(s)[p];
      }
    }
  }

  method ClearOrders(e: Engine, s: Side)
    requires e.Valid() && Wf(e.vault.now)
    modifies e.vault, e.vault.store.Repr
    ensures e.Valid() && e.vault.now == ClearSide(old(e.vault.now), s)
  {
    ghost var b := e.vault.now;
    var px := e.vault.BestPrice(s);
    while px.Some?
      invariant e.Valid() && Wf(e.vault.now) && px == Best(s, e.vault.now.Of(s)) && SameShape(b, e.vault.now)
      invariant ClearSide(e.vault.now, s) == ClearSide(b, s)
      decreases Count(e.vault.now.Of(s))
    {
      ClearLevel(e, s, px.value);
      px := e.vault.BestPrice(s);
    }
  }

  method Clear(e: Engine)
    requires e.Valid() && Wf(e.vault.now)
    modifies e`hot, e.vault, e.vault.store.Repr
    ensures e.Valid() && e.Abs() == Cleared(old(e.Abs()))
  {
    ClearOrders(e, Bid);
    ClearOrders(e, Ask);
    e.hot := Hot(e.cfg.seqBase, Stream.NO_TOP, false, false, false, false, 0);
  }

  // ----- restoring

  method Refill(e: Engine, recs: seq<Record>, ticks: nat) returns (ok: bool)
    requires e.Valid() && Wf(e.vault.now) && ticks == e.vault.now.Ticks()
    modifies e.vault, e.vault.store.Repr
    ensures e.Valid() && (e.vault.now, ok) == Replay(old(e.vault.now), recs, e.cfg.maxOrderQty)
  {
    ghost var b := e.vault.now;
    var i := 0;
    while i < |recs|
      invariant 0 <= i <= |recs| && e.Valid() && Wf(e.vault.now) && SameShape(b, e.vault.now)
      invariant Replay(b, recs, e.cfg.maxOrderQty) == Replay(e.vault.now, recs[i..], e.cfg.maxOrderQty)
    {
      assert recs[i..][1..] == recs[i + 1..];
      if !RecordOk(recs[i], ticks, e.cfg.maxOrderQty) {
        return false;
      }
      var room := e.vault.Add(OrderFrom(recs[i]));
      if !room {
        return false;
      }
      i := i + 1;
    }
    return true;
  }

  /** Clear the engine and take over the header's policy, throttle, number and top. */
  method Configure(e: Engine, h: Header)
    requires e.Valid() && Wf(e.vault.now)
    modifies e`cfg, e`hot, e.vault, e.vault.store.Repr
    ensures e.Valid() && e.Abs() == UnderHeader(old(e.Abs()), h)
  {
    Clear(e);
    e.cfg := e.cfg.(selfCross := PolicyFrom(h.selfCross), topThrottle := h.topThrottle != 0);
    e.hot := e.hot.(seqNo := h.seqNo, last := h.last, haveTop := h.haveTop != 0);
  }

  /** Rest the announced records under a header that fits, or clear the engine again. */
  method LoadOrders(e: Engine, h: Header, records: seq<Record>, ticks: nat) returns (ok: bool)
    requires e.Valid() && Wf(e.vault.now) && ticks == e.vault.now.Ticks() && HeaderOk(e.Abs(), h)
    modifies e`cfg, e`hot, e.vault, e.vault.store.Repr
    ensures e.Valid() && Restored(e.Abs(), ok) == Restore(old(e.Abs()), Source(Some(h), records))
  {
    Configure(e, h);
    var n := Min(h.numOrders, |records|);
    ok := Refill(e, records[..n], ticks);
    if !ok || n != h.numOrders {
      Clear(e);
      return false;
    }
    var bid := e.vault.BestPrice(Bid);
    var ask := e.vault.BestPrice(Ask);
    e.hot := e.hot.(haveBid := bid.Some?, haveAsk := ask.Some?);
  }

  method Load(e: Engine, src: Source, ticks: nat, maxOrders: nat) returns (ok: bool)
    requires e.Valid() && Wf(e.vault.now) && ticks == e.vault.now.Ticks() && maxOrders == |e.vault.now.gens|
    modifies e`cfg, e`hot, e.vault, e.vault.store.Repr
    ensures e.Valid() && Restored(e.Abs(), ok) == Restore(old(e.Abs()), src)
  {
    if src.header.None? {
      Clear(e);
      return false;
    }
    var h := src.header.value;
    if h.magic != MAGIC || h.version != VERSION || h.ticks != ticks || h.maxOrders != maxOrders || h.selfCross > 2 {
      Clear(e);
      return false;
    }
    ok := LoadOrders(e, h, src.records, ticks);
  }
}
