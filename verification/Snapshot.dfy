/** Snapshots: the engine's state as a header and order records, and its restoration from whatever
    a source delivers. */
module Snapshots {
  import opened Types
  import opened Ladders
  import opened Books
  import opened EngineSpec
  import opened Invariants
  import opened PriceTime
  import opened BooksAlike
  import opened Stream
  import opened Capacity
  import opened Stores

  // ----- what is written

  datatype Header = Header(
    magic: string, version: nat, ticks: nat, maxOrders: nat, selfCross: nat, topThrottle: nat,
    seqNo: nat, last: Top, haveTop: nat, numOrders: nat)

  datatype Record = Record(id: nat, remaining: nat, px: nat, s: nat, t: nat, account: nat)

  const MAGIC := "LOBS"
  const VERSION: nat := 1

  function SideByte(s: Side): nat {
    if s.Bid? then 0 else 1
  }

  function TifByte(t: Tif): nat {
    match t case Gtc => 0 case Ioc => 1 case Fok => 2
  }

  function PolicyByte(p: SelfCross): nat {
    match p case CancelNewest => 0 case CancelOldest => 1 case DecrementTrade => 2
  }

  function BoolByte(b: bool): nat {
    if b then 1 else 0
  }

  function RecordOf(s: Side, o: Order): Record {
    Record(o.id, o.remaining, o.px, SideByte(s), TifByte(o.t), o.account)
  }

  function LevelRecords(s: Side, f: seq<Node>): seq<Record> {
    if f == [] then [] else [RecordOf(s, f[0].o)] + LevelRecords(s, f[1..])
  }

  /** The records of a side from price px on, prices ascending, each level front to back. */
  function SideRecords(s: Side, l: Ladder, px: nat): seq<Record>
    requires px <= |l|
    decreases |l| - px
  {
    if px == |l| then [] else LevelRecords(s, l[px]) + SideRecords(s, l, px + 1)
  }

  function AllRecords(b: Book): seq<Record> {
    SideRecords(Bid, b.bids, 0) + SideRecords(Ask, b.asks, 0)
  }

  function HeaderOf(st: State): Header {
    Header(MAGIC, VERSION, st.b.Ticks(), |st.b.gens|, PolicyByte(st.cfg.selfCross), BoolByte(st.cfg.topThrottle),
           st.seqNo, st.last, BoolByte(st.haveTop), Count(st.b.bids) + Count(st.b.asks))
  }

  // ----- what is read

  /** What a source delivers: perhaps a header, then so many records. */
  datatype Source = Source(header: Option<Header>, records: seq<Record>)

  function Snapshot(st: State): Source {
    Source(Some(HeaderOf(st)), AllRecords(st.b))
  }

  predicate RecordOk(rec: Record, ticks: nat, cap: nat) {
    ValidId(rec.id) && rec.px < ticks && rec.s <= 1 && rec.t <= 2 && 0 < rec.remaining <= cap
  }

  function OrderFrom(rec: Record): Order {
    Order(rec.id, rec.remaining, rec.px, if rec.s == 0 then Bid else Ask,
          if rec.t == 0 then Gtc else if rec.t == 1 then Ioc else Fok, rec.account)
  }

  predicate HeaderOk(st: State, h: Header) {
    && h.magic == MAGIC && h.version == VERSION && h.ticks == st.b.Ticks() && h.maxOrders == |st.b.gens|
    && h.selfCross <= 2
  }

  function PolicyFrom(byte: nat): SelfCross {
    if byte == 0 then CancelNewest else if byte == 1 then CancelOldest else DecrementTrade
  }

  /** Drain a side, the front of the best level first. */
  function ClearSide(b: Book, s: Side): (r: Book)
    requires Wf(b)
    ensures Wf(r) && SameShape(b, r) && Empty(r.Of(s)) && r.Of(Opposite(s)) == b.Of(Opposite(s))
    decreases Count(b.Of(s))
  {
    var best := Best(s, b.Of(s));
    if best.None? then b else
    var l := b.Of(s);
    CountUpdate(l, best.value, RemoveAt(l[best.value], 0));
    ClearSide(ReduceFront(b, s, best.value, l[best.value][0].o.remaining), s)
  }

  function ClearBook(b: Book): (r: Book)
    requires Wf(b)
    ensures Wf(r) && SameShape(b, r) && Empty(r.bids) && Empty(r.asks)
  {
    ClearSide(ClearSide(b, Bid), Ask)
  }

  function Cleared(st: State): (r: State)
    requires Wf(st.b)
    ensures Wf(r.b) && SameShape(st.b, r.b)
  {
    st.(b := ClearBook(st.b), seqNo := st.cfg.seqBase, last := NO_TOP,
        haveTop := false, haveBid := false, haveAsk := false, dirty := false, depth := 0)
  }

  /** Rest the records in turn, as far as they can be read and there is room. */
  function Replay(b: Book, recs: seq<Record>, cap: nat): (r: (Book, bool))
    requires Wf(b)
    ensures Wf(r.0) && SameShape(b, r.0)
    decreases |recs|
  {
    if recs == [] then (b, true)
    else if !RecordOk(recs[0], b.Ticks(), cap) || b.free == [] then (b, false)
    else Replay(AddOrder(b, OrderFrom(recs[0])), recs[1..], cap)
  }

  /** The engine under the header's configuration, number and top, still without orders. */
  function UnderHeader(st: State, h: Header): (r: State)
    requires Wf(st.b)
    ensures Wf(r.b) && SameShape(st.b, r.b)
  {
    Cleared(st).(
      cfg := st.cfg.(selfCross := PolicyFrom(h.selfCross), topThrottle := h.topThrottle != 0),
      seqNo := h.seqNo, last := h.last, haveTop := h.haveTop != 0)
  }

  datatype Restored = Restored(st: State, ok: bool)

  function Restore(st: State, src: Source): (r: Restored)
    requires Wf(st.b)
    ensures Wf(r.st.b) && SameShape(st.b, r.st.b)
  {
    if src.header.None? || !HeaderOk(st, src.header.value) then Restored(Cleared(st), false) else
    var h := src.header.value;
    var st1 := UnderHeader(st, h);
    var n := Min(h.numOrders, |src.records|);
    var (b, ok) := Replay(st1.b, src.records[..n], st.cfg.maxOrderQty);
    if ok && n == h.numOrders then
      Restored(st1.(b := b, haveBid := Best(Bid, b.bids).Some?, haveAsk := Best(Ask, b.asks).Some?), true)
    else
      Restored(Cleared(st1.(b := b)), false)
  }

  // ----- cleared books

  lemma NoneLinked(b: Book)
    requires Wf(b) && Empty(b.bids) && Empty(b.asks)
    ensures b.idx == map[] && Unique(b)
  {
    EmptyOccupancy(b);
    IndexCount(b);
    assert b.idx == map[];
  }

  lemma EmptyOccupancy(b: Book)
    requires Partition(b) && Empty(b.bids) && Empty(b.asks)
    ensures |b.free| == |b.gens|
  {
    Occupancy(b);
    CountEmpty(b.bids);
    CountEmpty(b.asks);
  }

  lemma ClearedInv(b: Book, cap: nat)
    requires Wf(b)
    ensures BookInv(ClearBook(b), cap, true) && |ClearBook(b).free| == |b.gens|
  {
    var r := ClearBook(b);
    NoneLinked(r);
    EmptyOccupancy(r);
  }

  // ----- replayed books

  /** The orders of the records that belong to level px of side s, in record order. */
  function Recorded(recs: seq<Record>, s: Side, px: nat): seq<Order> {
    if recs == [] then [] else
    var o := OrderFrom(recs[0]);
    (if o.s == s && o.px == px then [o] else []) + Recorded(recs[1..], s, px)
  }

  lemma {:induction false} RecordedAppend(p: seq<Record>, q: seq<Record>, s: Side, px: nat)
    ensures Recorded(p + q, s, px) == Recorded(p, s, px) + Recorded(q, s, px)
  {
    if p == [] {
      assert p + q == q;
    } else {
      assert (p + q)[1..] == p[1..] + q;
      RecordedAppend(p[1..], q, s, px);
    }
  }

  predicate RecordsOk(recs: seq<Record>, ticks: nat, cap: nat) {
    forall i | 0 <= i < |recs| :: RecordOk(recs[i], ticks, cap)
  }

  /** Replay succeeds exactly when every record can be read and there is room for all. */
  lemma {:induction false} ReplayExact(b: Book, recs: seq<Record>, cap: nat)
    requires Wf(b)
    ensures Replay(b, recs, cap).1 <==> RecordsOk(recs, b.Ticks(), cap) && |recs| <= |b.free|
    decreases |recs|
  {
    if recs != [] && RecordOk(recs[0], b.Ticks(), cap) && b.free != [] {
      ReplayExact(AddOrder(b, OrderFrom(recs[0])), recs[1..], cap);
      assert RecordsOk(recs[1..], b.Ticks(), cap) <==> RecordsOk(recs, b.Ticks(), cap) by {
        forall i | 0 <= i < |recs| && RecordsOk(recs[1..], b.Ticks(), cap) ensures RecordOk(recs[i], b.Ticks(), cap) {
          if i > 0 {
            assert recs[i] == recs[1..][i - 1];
          }
        }
      }
    }
  }

  lemma Associative(p: seq<Order>, q: seq<Order>, r: seq<Order>)
    ensures p + (q + r) == p + q + r
  {
  }

  lemma AddLevel(b: Book, o: Order, s: Side, px: nat)
    requires Wf(b) && o.px < b.Ticks() && o.remaining > 0 && ValidId(o.id) && b.free != [] && px < b.Ticks()
    ensures var r := AddOrder(b, o);
            Orders(r.Of(s)[px]) == Orders(b.Of(s)[px]) + (if o.s == s && o.px == px then [o] else [])
                && |r.free| + 1 == |b.free|
  {
    if o.s == s && o.px == px {
      OrdersAppend(b.Of(s)[px], [Node(b.free[0], o)]);
    }
  }

  /** A replay appends to every level the records that belong there, in order, and takes a slot for each. */
  lemma {:induction false} ReplayLevel(b: Book, recs: seq<Record>, cap: nat, s: Side, px: nat)
    requires Wf(b) && Replay(b, recs, cap).1 && px < b.Ticks()
    ensures var r := Replay(b, recs, cap).0;
            Orders(r.Of(s)[px]) == Orders(b.Of(s)[px]) + Recorded(recs, s, px) && |r.free| + |recs| == |b.free|
    decreases |recs|
  {
    if recs != [] {
      var o := OrderFrom(recs[0]);
      var b' := AddOrder(b, o);
      assert Replay(b, recs, cap) == Replay(b', recs[1..], cap);
      ReplayLevel(b', recs[1..], cap, s, px);
      AddLevel(b, o, s, px);
      var here := if o.s == s && o.px == px then [o] else [];
      assert Recorded(recs, s, px) == here + Recorded(recs[1..], s, px);
      Associative(Orders(b.Of(s)[px]), here, Recorded(recs[1..], s, px));
    }
  }

  // ----- the round trip

  lemma {:induction false} LevelRecorded(s: Side, f: seq<Node>, at: nat, s': Side, px: nat)
    requires forall n | n in f :: n.o.s == s && n.o.px == at
    ensures Recorded(LevelRecords(s, f), s', px) == if s' == s && px == at then Orders(f) else []
  {
    if f != [] {
      assert f[0] in f;
      LevelRecorded(s, f[1..], at, s', px);
      assert LevelRecords(s, f)[1..] == LevelRecords(s, f[1..]);
      assert OrderFrom(RecordOf(s, f[0].o)) == f[0].o;
    }
  }

  lemma LevelRecordsAt(s: Side, l: Ladder, at: nat, s': Side, px: nat)
    requires Placed(s, l) && at < |l|
    ensures Recorded(LevelRecords(s, l[at]), s', px) == if s' == s && px == at then Orders(l[at]) else []
  {
    forall n | n in l[at] ensures n.o.s == s && n.o.px == at {
      var i :| 0 <= i < |l[at]| && l[at][i] == n;
      assert PlacedAt(s, l, at, i);
    }
    LevelRecorded(s, l[at], at, s', px);
  }

  lemma {:induction false} SideRecorded(s: Side, l: Ladder, from: nat, s': Side, px: nat)
    requires Placed(s, l) && from <= |l| && px < |l|
    ensures Recorded(SideRecords(s, l, from), s', px) == if s' == s && from <= px then Orders(l[px]) else []
    decreases |l| - from
  {
    if from < |l| {
      LevelRecordsAt(s, l, from, s', px);
      SideRecorded(s, l, from + 1, s', px);
      RecordedAppend(LevelRecords(s, l[from]), SideRecords(s, l, from + 1), s', px);
    }
  }

  lemma AllRecorded(b: Book, s: Side, px: nat)
    requires Wf(b) && px < b.Ticks()
    ensures Recorded(AllRecords(b), s, px) == Orders(b.Of(s)[px])
  {
    SideRecorded(Bid, b.bids, 0, s, px);
    SideRecorded(Ask, b.asks, 0, s, px);
    RecordedAppend(SideRecords(Bid, b.bids, 0), SideRecords(Ask, b.asks, 0), s, px);
  }

  lemma {:induction false} LevelRecordsOk(s: Side, f: seq<Node>, ticks: nat, cap: nat)
    requires forall n | n in f :: ValidId(n.o.id) && n.o.px < ticks && 0 < n.o.remaining <= cap
    ensures RecordsOk(LevelRecords(s, f), ticks, cap) && |LevelRecords(s, f)| == |f|
  {
    if f != [] {
      assert f[0] in f;
      LevelRecordsOk(s, f[1..], ticks, cap);
    }
  }

  function CountFrom(l: Ladder, px: nat): nat
    requires px <= |l|
    decreases |l| - px
  {
    if px == |l| then 0 else |l[px]| + CountFrom(l, px + 1)
  }

  lemma {:induction false} CountFromTail(l: Ladder, px: nat)
    requires px <= |l|
    ensures CountFrom(l, px) == Count(l[px..])
    decreases |l| - px
  {
    if px < |l| {
      CountFromTail(l, px + 1);
      assert l[px..][1..] == l[px + 1..];
    }
  }

  lemma {:induction false} SideRecordsOk(s: Side, l: Ladder, from: nat, cap: nat)
    requires Placed(s, l) && AllRested(l, cap) && from <= |l|
    ensures RecordsOk(SideRecords(s, l, from), |l|, cap) && |SideRecords(s, l, from)| == CountFrom(l, from)
    decreases |l| - from
  {
    if from < |l| {
      forall n | n in l[from] ensures ValidId(n.o.id) && n.o.px < |l| && 0 < n.o.remaining <= cap {
        var i :| 0 <= i < |l[from]| && l[from][i] == n;
        assert PlacedAt(s, l, from, i) && RestedAt(l, cap, from, i);
      }
      LevelRecordsOk(s, l[from], |l|, cap);
      SideRecordsOk(s, l, from + 1, cap);
    }
  }

  lemma AllRecordsOk(b: Book, cap: nat)
    requires Wf(b) && BookRested(b, cap)
    ensures RecordsOk(AllRecords(b), b.Ticks(), cap) && |AllRecords(b)| == Count(b.bids) + Count(b.asks)
    ensures |AllRecords(b)| <= |b.gens|
  {
    SideRecordsOk(Bid, b.bids, 0, cap);
    SideRecordsOk(Ask, b.asks, 0, cap);
    CountFromTail(b.bids, 0);
    CountFromTail(b.asks, 0);
    assert b.bids[0..] == b.bids && b.asks[0..] == b.asks;
    Occupancy(b);
  }

  // ----- the order of the records

  /** Records of one side, by ascending price from px on. */
  predicate Ascends(recs: seq<Record>, byte: nat, px: nat) {
    && (forall i | 0 <= i < |recs| :: recs[i].s == byte && recs[i].px >= px)
    && (forall i, j | 0 <= i < j < |recs| :: recs[i].px <= recs[j].px)
  }

  lemma {:induction false} LevelAscends(s: Side, f: seq<Node>, at: nat)
    requires forall n | n in f :: n.o.px == at
    ensures forall i | 0 <= i < |LevelRecords(s, f)| ::
              LevelRecords(s, f)[i].s == (if s.Bid? then 0 else 1) && LevelRecords(s, f)[i].px == at
  {
    if f != [] {
      assert f[0] in f;
      LevelAscends(s, f[1..], at);
    }
  }

  lemma {:induction false} SideAscends(s: Side, l: Ladder, from: nat)
    requires Placed(s, l) && from <= |l|
    ensures Ascends(SideRecords(s, l, from), if s.Bid? then 0 else 1, from)
    decreases |l| - from
  {
    if from < |l| {
      forall n | n in l[from] ensures n.o.px == from {
        var i :| 0 <= i < |l[from]| && l[from][i] == n;
        assert PlacedAt(s, l, from, i);
      }
      LevelAscends(s, l[from], from);
      SideAscends(s, l, from + 1);
    }
  }

  /** A snapshot writes the bids first, then the asks, each side by ascending price. What it writes of a
      level is the level, front to back (AllRecorded). */
  lemma RecordsInOrder(b: Book, i: nat, j: nat)
    requires Wf(b) && i < j < |AllRecords(b)|
    ensures var p, q := AllRecords(b)[i], AllRecords(b)[j];
            p.s <= q.s <= 1 && (p.s == q.s ==> p.px <= q.px)
  {
    SideAscends(Bid, b.bids, 0);
    SideAscends(Ask, b.asks, 0);
  }

  /** A restore accepts exactly the sources with a fitting header, as many records as it announces, and
      records that can be read and do not outnumber the slots. */
  predicate Accepts(st: State, src: Source) {
    && src.header.Some? && HeaderOk(st, src.header.value)
    && src.header.value.numOrders <= |src.records| && src.header.value.numOrders <= |st.b.gens|
    && RecordsOk(src.records[..src.header.value.numOrders], st.b.Ticks(), st.cfg.maxOrderQty)
  }

  lemma RestoreOk(st: State, src: Source)
    requires Wf(st.b) && src.header.Some? && HeaderOk(st, src.header.value)
    ensures var h := src.header.value;
            Restore(st, src).ok <==>
              h.numOrders <= |src.records| &&
              Replay(UnderHeader(st, h).b, src.records[..h.numOrders], st.cfg.maxOrderQty).1
  {
  }

  lemma RestoreExact(st: State, src: Source)
    requires Wf(st.b)
    ensures Restore(st, src).ok <==> Accepts(st, src)
  {
    if src.header.Some? && HeaderOk(st, src.header.value) {
      RestoreOk(st, src);
      ClearedInv(st.b, 0);
      var h := src.header.value;
      if h.numOrders <= |src.records| {
        ReplayExact(UnderHeader(st, h).b, src.records[..h.numOrders], st.cfg.maxOrderQty);
      }
    }
  }

  /** Acceptance field by field. */
  lemma AcceptedExact(st: State, src: Source)
    requires Wf(st.b)
    ensures Restore(st, src).ok <==>
              && src.header.Some?
              && var h := src.header.value;
                 && h.magic == "LOBS" && h.version == 1 && h.ticks == |st.b.bids| && h.maxOrders == |st.b.gens|
                 && h.selfCross <= 2 && h.numOrders <= |src.records| && h.numOrders <= |st.b.gens|
                 && forall i | 0 <= i < h.numOrders ::
                      && 1 <= src.records[i].id <= 0xFFFF_FFFF_FFFF_FFFE && src.records[i].px < |st.b.bids|
                      && src.records[i].s <= 1 && src.records[i].t <= 2
                      && 1 <= src.records[i].remaining <= st.cfg.maxOrderQty
  {
    RestoreExact(st, src);
    if src.header.Some? && src.header.value.numOrders <= |src.records| {
      var n := src.header.value.numOrders;
      var recs := src.records[..n];
      assert forall i | 0 <= i < n :: recs[i] == src.records[i];
    }
  }

  /** What an accepted header brings along: the policy, the throttle, the number and the last top. */
  lemma HeaderTaken(st: State, src: Source)
    requires Wf(st.b) && Restore(st, src).ok
    ensures src.header.Some?
    ensures var h, r := src.header.value, Restore(st, src).st;
            && r.cfg.selfCross == (if h.selfCross == 0 then CancelNewest
                                   else if h.selfCross == 1 then CancelOldest else DecrementTrade)
            && r.cfg.topThrottle == (h.topThrottle != 0) && r.cfg.maxOrderQty == st.cfg.maxOrderQty
            && r.seqNo == h.seqNo && r.last == h.last && r.haveTop == (h.haveTop != 0) && r.events == st.events
  {
    RestoreExact(st, src);
  }

  /** An engine with nothing in its book and nothing published. */
  ghost predicate Blank(r: State) {
    && BookInv(r.b, r.cfg.maxOrderQty, true) && Empty(r.b.bids) && Empty(r.b.asks) && |r.b.free| == |r.b.gens|
    && r.seqNo == r.cfg.seqBase && !r.haveTop && !r.haveBid && !r.haveAsk && r.last == NO_TOP && Quiet(r)
  }

  /** A refused restore leaves a blank engine that has published nothing. Once the header fits, its
      policy and its throttle stay behind even if the records do not. */
  lemma RestoreRefused(st: State, src: Source)
    requires Wf(st.b) && !Accepts(st, src)
    ensures var r := Restore(st, src).st;
            && Blank(r) && r.events == st.events
            && r.cfg == (if src.header.Some? && HeaderOk(st, src.header.value) then
                           st.cfg.(selfCross := PolicyFrom(src.header.value.selfCross),
                               topThrottle := src.header.value.topThrottle != 0)
                         else st.cfg)
  {
    RestoreExact(st, src);
    ClearedInv(st.b, st.cfg.maxOrderQty);
    if src.header.Some? && HeaderOk(st, src.header.value) {
      var h := src.header.value;
      var st1 := UnderHeader(st, h);
      var b := Replay(st1.b, src.records[..Min(h.numOrders, |src.records|)], st.cfg.maxOrderQty).0;
      ClearedInv(b, st.cfg.maxOrderQty);
    }
  }

  /** Every level of an accepted book holds the records that belong there, in order. */
  lemma RestoredLevel(st: State, src: Source, s: Side, px: nat)
    requires Wf(st.b) && Accepts(st, src) && px < st.b.Ticks()
    ensures var r := Restore(st, src).st;
            && Orders(r.b.Of(s)[px]) == Recorded(src.records[..src.header.value.numOrders], s, px)
            && |r.b.free| + src.header.value.numOrders == |st.b.gens|
  {
    RestoreExact(st, src);
    ClearedInv(st.b, 0);
    var h := src.header.value;
    assert Min(h.numOrders, |src.records|) == h.numOrders;
    ReplayLevel(UnderHeader(st, h).b, src.records[..h.numOrders], st.cfg.maxOrderQty, s, px);
  }
}
