/** What a wire record does to the book and how it is acknowledged, in terms of the record's own fields. */
module WireOutcomes {
  import opened Types
  import opened Ladders
  import opened Books
  import opened EngineSpec
  import opened Invariants
  import opened PriceTime
  import opened BooksAlike
  import opened Repricing
  import opened FillOrKill
  import opened Stream
  import opened Rejects
  import opened Ledger
  import opened Gateway

  // ----- what is on offer

  /** Price p is within the limit of an order of side s. */
  predicate Within(s: Side, limit: nat, p: nat) {
    match s
    case Bid => p <= limit
    case Ask => p >= limit
  }

  /** What rests within the limit at prices from `from` on. */
  function OfferedFrom(l: Ladder, s: Side, limit: nat, from: nat): nat
    requires from <= |l|
    decreases |l| - from
  {
    if from == |l| then 0 else
    (if Within(s, limit, from) then FifoQty(l[from]) else 0) + OfferedFrom(l, s, limit, from + 1)
  }

  /** What an order of side s may trade with, down to its limit. */
  function OnOffer(b: Book, s: Side, limit: nat): nat {
    OfferedFrom(b.Of(Opposite(s)), s, limit, 0)
  }

  function QuantityFrom(l: Ladder, from: nat): nat
    requires from <= |l|
    decreases |l| - from
  {
    if from == |l| then 0 else FifoQty(l[from]) + QuantityFrom(l, from + 1)
  }

  lemma {:induction false} QuantityFromTail(l: Ladder, from: nat)
    requires from <= |l|
    ensures QuantityFrom(l, from) == Quantity(l[from..])
    decreases |l| - from
  {
    if from < |l| {
      QuantityFromTail(l, from + 1);
      assert l[from..][1..] == l[from + 1..];
    }
  }

  /** Beyond the limit nothing has changed. */
  predicate Spared(l: Ladder, l': Ladder, s: Side, limit: nat) {
    |l| == |l'| && forall p | 0 <= p < |l| && !Within(s, limit, p) :: l'[p] == l[p]
  }

  lemma {:induction false} OfferLost(l: Ladder, l': Ladder, s: Side, limit: nat, from: nat)
    requires Spared(l, l', s, limit) && from <= |l|
    ensures QuantityFrom(l, from) + OfferedFrom(l', s, limit, from) ==
            QuantityFrom(l', from) + OfferedFrom(l, s, limit, from)
    decreases |l| - from
  {
    if from < |l| {
      OfferLost(l, l', s, limit, from + 1);
    }
  }

  /** What leaves the side leaves what is on offer. */
  lemma OfferTaken(l: Ladder, l': Ladder, s: Side, limit: nat)
    requires Spared(l, l', s, limit)
    ensures Quantity(l) + OfferedFrom(l', s, limit, 0) == Quantity(l') + OfferedFrom(l, s, limit, 0)
  {
    OfferLost(l, l', s, limit, 0);
    QuantityFromTail(l, 0);
    QuantityFromTail(l', 0);
    assert l[0..] == l && l'[0..] == l';
  }

  lemma {:induction false} NothingOffered(l: Ladder, s: Side, limit: nat, from: nat)
    requires from <= |l| && forall p | 0 <= p < |l| && Within(s, limit, p) :: l[p] == []
    ensures OfferedFrom(l, s, limit, from) == 0
    decreases |l| - from
  {
    if from < |l| {
      NothingOffered(l, s, limit, from + 1);
    }
  }

  // ----- matching takes from what is on offer

  lemma {:induction false} MatchSpares(st: State, m: Submit, rem: nat)
    requires Wf(st.b)
    ensures Spared(st.b.Of(Opposite(m.s)), Match(st, m, rem).st.b.Of(Opposite(m.s)), m.s, m.px)
    decreases rem, Count(st.b.Of(Opposite(m.s)))
  {
    if rem > 0 && NextPrice(st, m).Some? {
      var px := NextPrice(st, m).value;
      MatchOn(st, m, rem);
      MatchFrontShrinks(st, m, px, rem);
      var r := MatchFront(st, m, px, rem);
      forall p: nat | p < st.b.Ticks() && p != px
          ensures r.st.b.Of(Opposite(m.s))[p] == st.b.Of(Opposite(m.s))[p] {
        Elsewhere(st, m, px, rem, p);
      }
      if !r.aborted {
        MatchSpares(r.st, m, r.rem);
      }
    }
  }

  lemma NothingLeft(st: State, m: Submit)
    requires NextPrice(st, m).None?
    ensures OnOffer(st.b, m.s, m.px) == 0
  {
    NothingCrosses(st, m);
    var l := st.b.Of(Opposite(m.s));
    forall p | 0 <= p < |l| && Within(m.s, m.px, p) ensures l[p] == [] {
      assert Crosses(m.s, m.px, p);
    }
    NothingOffered(l, m.s, m.px, 0);
  }

  lemma NoneDropped(cfg: Config, m: Submit, q: seq<Order>)
    requires m.account == 0
    ensures Dropped(cfg, m, q) == 0
  {
  }

  /** An order without an account trades all that is on offer, up to its quantity. */
  lemma MatchOffer(st: State, m: Submit)
    requires Wf(st.b) && m.qty > 0 && m.account == 0
    ensures var p := Match(st, m, m.qty);
            && Traded(st, m) == Min(m.qty, OnOffer(st.b, m.s, m.px))
            && OnOffer(st.b, m.s, m.px) == OnOffer(p.st.b, m.s, m.px) + Traded(st, m)
            && !p.aborted && Traded(st, m) + p.rem == m.qty
            && (p.rem > 0 ==> OnOffer(p.st.b, m.s, m.px) == 0)
  {
    var s, p := Opposite(m.s), Match(st, m, m.qty);
    WireMatch(st, m);
    MatchSpares(st, m, m.qty);
    MatchDebits(st, m);
    NoneDestroyed(st, m);
    OfferTaken(st.b.Of(s), p.st.b.Of(s), m.s, m.px);
    MatchEnds(st, m, m.qty);
    if p.rem > 0 {
      NothingLeft(p.st, m);
    }
  }

  lemma NoneDestroyed(st: State, m: Submit)
    requires Wf(st.b) && m.account == 0
    ensures Destroyed(st, m) == 0
  {
    var s := Opposite(m.s);
    var q, left := Queue(s, st.b.Of(s)), Queue(s, Match(st, m, m.qty).st.b.Of(s));
    if |left| <= |q| {
      NoneDropped(st.cfg, m, q[..|q| - |left|]);
    }
  }

  // ----- submits

  /** The side gains o at the back of level px, if there is one, and nothing else changes on it. */
  predicate Joins(b: Book, b': Book, s: Side, px: nat, o: Option<Order>) {
    && px < |b.Of(s)| == |b'.Of(s)|
    && (forall p | 0 <= p < |b.Of(s)| && p != px :: b'.Of(s)[p] == b.Of(s)[p])
    && Orders(b'.Of(s)[px]) == Orders(b.Of(s)[px]) + if o.Some? then [o.value] else []
  }

  /** The side that an order of side s trades with loses x: nothing beyond the limit, and the rest of its
      queue stays as it is behind what was taken. */
  predicate Trades(b: Book, b': Book, s: Side, limit: nat, x: nat) {
    var opp := Opposite(s);
    && Spared(b.Of(opp), b'.Of(opp), s, limit)
    && Quantity(b.Of(opp)) == Quantity(b'.Of(opp)) + x
    && Behind(Queue(opp, b.Of(opp)), Queue(opp, b'.Of(opp)))
  }

  lemma SameQueue(q: seq<Order>)
    ensures Behind(q, q)
  {
  }

  lemma Untouched(b: Book, s: Side, px: nat, limit: nat)
    requires px < |b.Of(s)|
    ensures Joins(b, b, s, px, None) && Trades(b, b, s, limit, 0)
  {
    SameQueue(Queue(Opposite(s), b.Of(Opposite(s))));
  }

  /** How much of an order trades against what is on offer. */
  function Takes(t: Tif, qty: nat, offer: nat): nat {
    if t.Fok? && offer < qty then 0 else Min(qty, offer)
  }

  lemma MatchTradesWith(st: State, m: Submit)
    requires Wf(st.b) && m.qty > 0 && m.account == 0
    ensures Trades(st.b, Match(st, m, m.qty).st.b, m.s, m.px, Traded(st, m))
  {
    var s := Opposite(m.s);
    MatchSpares(st, m, m.qty);
    MatchDebits(st, m);
    NoneDestroyed(st, m);
    var t := Take(st.cfg, m, Queue(s, st.b.Of(s)), m.qty, st.seqNo);
    TradedIs(st, m, t);
    TakePrefix(st.cfg, m, Queue(s, st.b.Of(s)), m.qty, st.seqNo);
  }

  lemma RestJoins(b: Book, p: Book, o: Order)
    requires Wf(p) && o.px < p.Ticks() && o.remaining > 0 && ValidId(o.id) && p.free != []
    requires p.Of(o.s) == b.Of(o.s) && |b.Of(o.s)| == p.Ticks()
    ensures Joins(b, AddOrder(p, o), o.s, o.px, Some(o)) && AddOrder(p, o).Of(Opposite(o.s)) == p.Of(Opposite(o.s))
  {
    var n := Node(p.free[0], o);
    OrdersAppend(p.Of(o.s)[o.px], [n]);
    assert Orders([n]) == [o];
  }

  lemma CanFillOffer(st: State, m: Submit)
    requires Wf(st.b) && m.qty > 0 && m.account == 0
    ensures CanFill(st, m) <==> OnOffer(st.b, m.s, m.px) >= m.qty
  {
    PrecheckExact(st, m);
    MatchOffer(st, m);
  }

  /** What order m comes to when it takes x and what is left of it rests, or does not. */
  predicate ComesTo(b: Book, b': Book, m: Submit, x: nat, rests: bool) {
    && x <= m.qty && Trades(b, b', m.s, m.px, x)
    && Joins(b, b', m.s, m.px, if rests then Some(Order(m.id, m.qty - x, m.px, m.s, m.t, m.account)) else None)
  }

  lemma MatchedOutcome(st: State, m: Submit)
    requires Wf(st.b) && SubmitOk(st, m) && m.account == 0 && !(m.t.Fok? && !CanFill(st, m))
    ensures var p, x := Match(st, m, m.qty), Min(m.qty, OnOffer(st.b, m.s, m.px));
            && SubmitAccount(st, m).traded == x && x + p.rem == m.qty
            && ComesTo(st.b, OnSubmit(st, m).b, m, x, m.t.Gtc? && p.rem > 0 && !Full(p.st))
  {
    var p := Match(st, m, m.qty);
    MatchOffer(st, m);
    MatchTradesWith(st, m);
    SubmitBook(st, m);
    if p.rem > 0 && m.t.Gtc? && !Full(p.st) {
      RestJoins(st.b, p.st.b, Order(m.id, p.rem, m.px, m.s, m.t, m.account));
    }
  }

  lemma MatchedRoom(st: State, m: Submit)
    requires Wf(st.b) && m.qty > 0 && m.account == 0
    ensures var p := Match(st, m, m.qty);
            p.rem > 0 ==> (Full(p.st) <==> Traded(st, m) == 0 && st.b.free == [])
  {
    MatchRoom(st, m, m.qty);
    WireMatch(st, m);
  }

  lemma KilledOutcome(st: State, m: Submit)
    requires Wf(st.b) && SubmitOk(st, m) && m.t.Fok? && !CanFill(st, m)
    ensures SubmitAccount(st, m).traded == 0 && ComesTo(st.b, OnSubmit(st, m).b, m, 0, false)
  {
    SubmitBook(st, m);
    Untouched(st.b, m.s, m.px, m.px);
  }

  /** What an order without an account does: it trades what is on offer, as much as it may, and what is left
      of a good-till-cancelled one rests, unless it has met nobody and there is no room. */
  lemma SubmitOutcome(st: State, m: Submit)
    requires Wf(st.b) && SubmitOk(st, m) && m.account == 0
    ensures var x := Takes(m.t, m.qty, OnOffer(st.b, m.s, m.px));
            && SubmitAccount(st, m).traded == x
            && ComesTo(st.b, OnSubmit(st, m).b, m, x, m.t.Gtc? && x < m.qty && (x > 0 || st.b.free != []))
  {
    CanFillOffer(st, m);
    if m.t.Fok? && !CanFill(st, m) {
      KilledOutcome(st, m);
    } else {
      MatchedOutcome(st, m);
      MatchOffer(st, m);
      MatchedRoom(st, m);
    }
  }

  // ----- acknowledgements

  /** What the fills among the events add up to. */
  function FillsTotal(evs: seq<Event>): nat {
    if evs == [] then 0 else (if evs[0].Fill? then evs[0].qty else 0) + FillsTotal(evs[1..])
  }

  /** The price of the last fill, zero if there is none. */
  function LastFill(evs: seq<Event>): nat
    decreases |evs|
  {
    if evs == [] then 0 else
    var k := |evs| - 1;
    if evs[k].Fill? then evs[k].px else LastFill(evs[..k])
  }

  lemma {:induction false} FillsAppend(p: seq<Event>, q: seq<Event>)
    ensures FillsTotal(p + q) == FillsTotal(p) + FillsTotal(q)
  {
    if p == [] {
      assert p + q == q;
    } else {
      assert (p + q)[1..] == p[1..] + q;
      FillsAppend(p[1..], q);
    }
  }

  lemma {:induction false} Summed(evs: seq<Event>)
    ensures PublishAll(evs).filled == FillsTotal(evs) && PublishAll(evs).lastPx == LastFill(evs)
    decreases |evs|
  {
    if evs != [] {
      var k := |evs| - 1;
      Summed(evs[..k]);
      assert evs == evs[..k] + [evs[k]];
      FillsAppend(evs[..k], [evs[k]]);
      assert [evs[k]][1..] == [];
    }
  }

  /** An acknowledgement carries the record's id, what its fills add up to and the price of the last one. */
  lemma AckSums(st: State, wo: WireOrder)
    requires Wf(st.b)
    ensures var (r, ack) := Apply(st, wo);
            && ack.id == wo.id && st.events <= r.events
            && ack.filled == FillsTotal(r.events[|st.events|..]) && ack.lastPx == LastFill(r.events[|st.events|..])
  {
    assert st.events[|st.events|..] == [];
    if Validate(wo, st.b.Ticks(), st.cfg.maxOrderQty) {
      StepStreams(st, Decode(wo));
      Summed(Step(st, Decode(wo)).events[|st.events|..]);
    }
  }

  /** A record is refused unread exactly when a field that its command needs is out of range. */
  lemma WireRefused(st: State, wo: WireOrder)
    requires Wf(st.b)
    ensures Validate(wo, st.b.Ticks(), st.cfg.maxOrderQty) <==>
              && 1 <= wo.id <= 0xFFFF_FFFF_FFFF_FFFE && wo.op <= 2
              && (wo.op == 0 ==> wo.px < |st.b.bids| && 1 <= wo.qty <= st.cfg.maxOrderQty && wo.tif <= 2)
              && (wo.op == 2 ==> wo.newPx < |st.b.bids| && 1 <= wo.qty <= st.cfg.maxOrderQty)
    ensures !Validate(wo, st.b.Ticks(), st.cfg.maxOrderQty) ==> Apply(st, wo) == (st, Ack(wo.id, 0, 0, 3))
  {
  }

  // ----- records

  /** The side and the lifetime that a record asks for. */
  function RecordSide(wo: WireOrder): Side {
    match wo.side
    case 0 => Bid
    case _ => Ask
  }

  function RecordTif(wo: WireOrder): Tif {
    match wo.tif
    case 0 => Gtc
    case 1 => Ioc
    case _ => Fok
  }

  /** A submit: it trades with the other side within its limit, as much as its lifetime lets it; what is
      left of a good-till-cancelled one rests on its own side at its price; and the acknowledgement says
      which of it happened. */
  lemma WireSubmit(st: State, wo: WireOrder)
    requires Wf(st.b) && Quiet(st) && wo.op == 0 && Validate(wo, st.b.Ticks(), st.cfg.maxOrderQty)
    ensures var (r, ack) := Apply(st, wo);
            var offer := OnOffer(st.b, RecordSide(wo), wo.px);
            var x := Takes(RecordTif(wo), wo.qty, offer);
            var refused := wo.tif == 0 && offer == 0 && st.b.free == [];
            && ack.filled == x
            && ComesTo(st.b, r.b, Submit(wo.id, wo.px, wo.qty, RecordSide(wo), RecordTif(wo), 0), x,
                       wo.tif == 0 && x < wo.qty && !refused)
            && ack.status == (if refused then 3 else if x > 0 then 1 else if wo.tif == 0 then 0 else 4)
  {
    var m := Decode(wo).submit;
    assert m == Submit(wo.id, wo.px, wo.qty, RecordSide(wo), RecordTif(wo), 0);
    WireAck(st, wo);
    RejectedUntouched(st, wo);
    SubmitOutcome(st, m);
    OfferSeen(st, m);
  }

  lemma OfferSeen(st: State, m: Submit)
    requires Wf(st.b) && m.qty > 0 && m.account == 0
    ensures NextPrice(st, m).None? <==> OnOffer(st.b, m.s, m.px) == 0
  {
    WireMatch(st, m);
    MatchOffer(st, m);
  }

  /** Whatever a submit trades, it trades as the taker with an order that rests on the other side within its
      limit, at that order's price. */
  lemma WireFills(st: State, wo: WireOrder, i: nat) returns (k: nat)
    requires Wf(st.b) && Quiet(st) && wo.op == 0 && Validate(wo, st.b.Ticks(), st.cfg.maxOrderQty)
    requires |st.events| <= i < |Apply(st, wo).0.events| && Apply(st, wo).0.events[i].Fill?
    ensures var q, e := Queue(Opposite(RecordSide(wo)), st.b.Of(Opposite(RecordSide(wo)))), Apply(st, wo).0.events[i];
            && k < |q| && e.maker == q[k].id && e.taker == wo.id && e.px == q[k].px
            && Within(RecordSide(wo), wo.px, e.px)
  {
    var m := Decode(wo).submit;
    assert m == Submit(wo.id, wo.px, wo.qty, RecordSide(wo), RecordTif(wo), 0);
    k := SubmitFills(st, m, i);
  }

  lemma SubmitFills(st: State, m: Submit, i: nat) returns (k: nat)
    requires Wf(st.b) && SubmitOk(st, m)
    requires |st.events| <= i < |OnSubmit(st, m).events| && OnSubmit(st, m).events[i].Fill?
    ensures var q, e := Queue(Opposite(m.s), st.b.Of(Opposite(m.s))), OnSubmit(st, m).events[i];
            && k < |q| && e.maker == q[k].id && e.taker == m.id && e.px == q[k].px && Crosses(m.s, m.px, e.px)
  {
    FillsMatched(st, m, i);
    k := MatchFills(st, m, i);
  }

  lemma MatchFills(st: State, m: Submit, i: nat) returns (k: nat)
    requires Wf(st.b) && |st.events| <= i < |Match(st, m, m.qty).st.events|
    ensures var q := Queue(Opposite(m.s), st.b.Of(Opposite(m.s)));
            && k < |q| && TradeWith(st.cfg, m, q[k], Match(st, m, m.qty).st.events[i])
            && Crosses(m.s, m.px, q[k].px)
  {
    MatchPublishes(st, m, m.qty);
    var q, evs := Queue(Opposite(m.s), st.b.Of(Opposite(m.s))), Match(st, m, m.qty).st.events;
    assert evs[i] == evs[|st.events|..][i - |st.events|];
    k := TakeTrades(st.cfg, m, q, m.qty, st.seqNo, i - |st.events|);
  }

  /** Only matching publishes fills. */
  lemma FillsMatched(st: State, m: Submit, i: nat)
    requires Wf(st.b) && SubmitOk(st, m)
    requires |st.events| <= i < |OnSubmit(st, m).events| && OnSubmit(st, m).events[i].Fill?
    ensures !(m.t.Fok? && !CanFill(st, m))
    ensures var p := Match(st, m, m.qty); i < |p.st.events| && p.st.events[i] == OnSubmit(st, m).events[i]
  {
    var h := HandleSubmit(st, m);
    var e := PublishEffect(h);
    MatchRoom(st, m, m.qty);
    if !(m.t.Fok? && !CanFill(st, m)) {
      var x := SubmitTells(st, m);
    }
  }

  lemma SubmitTells(st: State, m: Submit) returns (x: Event)
    requires Wf(st.b) && SubmitOk(st, m) && !(m.t.Fok? && !CanFill(st, m))
    ensures var p, h := Match(st, m, m.qty).st.events, HandleSubmit(st, m).events; h == p || h == p + [x]
    ensures x.Reject?
  {
    var p := Match(st, m, m.qty);
    x := Reject(m.id, m.account, m.px, p.rem, p.st.seqNo + 1);
  }

  // ----- cancels

  /** A cancel: the order that the index names is gone and every other stands where it stood; or nothing
      happens. */
  lemma WireCancel(st: State, wo: WireOrder)
    requires Wf(st.b) && Quiet(st) && wo.op == 1 && Validate(wo, st.b.Ticks(), st.cfg.maxOrderQty)
    ensures var (r, ack) := Apply(st, wo);
            && ack.status == 2 && ack.filled == 0
            && (wo.id !in st.b.idx ==> r == st)
            && (wo.id in st.b.idx ==>
                  var p, k := st.b.idx[wo.id], Position(st.b, wo.id);
                  && wo.id !in r.b.idx && p.px < |r.b.Of(p.s)| == st.b.Ticks()
                  && r.b.Of(Opposite(p.s)) == st.b.Of(Opposite(p.s))
                  && r.b.Of(p.s) == st.b.Of(p.s)[p.px := RemoveAt(st.b.Of(p.s)[p.px], k)])
  {
    var id := wo.id;
    assert Decode(wo) == CmdCancel(id);
    RejectedUntouched(st, wo);
    if id in st.b.idx {
      var h := HandleCancel(st, id);
      var e := PublishEffect(h);
      Harmless(st, wo, e);
    } else {
      assert st.events[|st.events|..] == [];
    }
  }

  /** A command whose only event is a top fills nothing. */
  lemma Harmless(st: State, wo: WireOrder, e: Event)
    requires Wf(st.b) && Validate(wo, st.b.Ticks(), st.cfg.maxOrderQty) && e.TopOfBook?
    requires var r := Step(st, Decode(wo)); r.events == st.events || r.events == st.events + [e]
    ensures Apply(st, wo).1.filled == 0
  {
    AckSums(st, wo);
    var r := Step(st, Decode(wo));
    var out := r.events[|st.events|..];
    assert out == [] || out == [e];
    assert [e][1..] == [];
  }

  // ----- modifies

  lemma ModifyDecodes(st: State, wo: WireOrder) returns (m: Modify)
    requires Wf(st.b) && Quiet(st) && wo.op == 2 && Validate(wo, st.b.Ticks(), st.cfg.maxOrderQty)
    ensures m == Modify(wo.id, wo.newPx, wo.qty, 0) && ModifyOk(st, m)
    ensures Apply(st, wo).0 == (if wo.id in st.b.idx then Reprice(st, m) else st) && Apply(st, wo).1.status == 2
  {
    m := Modify(wo.id, wo.newPx, wo.qty, 0);
    assert Decode(wo) == CmdModify(m);
    ModifyIs(st, m);
    RejectedUntouched(st, wo);
  }

  /** A modify of an order that no longer rests does nothing. */
  lemma WireModifyNone(st: State, wo: WireOrder)
    requires Wf(st.b) && Quiet(st) && wo.op == 2 && Validate(wo, st.b.Ticks(), st.cfg.maxOrderQty)
    requires wo.id !in st.b.idx
    ensures Apply(st, wo) == (st, Ack(wo.id, 0, 0, 2))
  {
    var m := ModifyDecodes(st, wo);
    assert st.events[|st.events|..] == [];
  }

  /** A modify at the same price leaves the order its place, with the new quantity. */
  lemma WireResize(st: State, wo: WireOrder)
    requires Wf(st.b) && Quiet(st) && wo.op == 2 && Validate(wo, st.b.Ticks(), st.cfg.maxOrderQty)
    requires wo.id in st.b.idx && wo.newPx == st.b.idx[wo.id].px
    ensures var (r, ack) := Apply(st, wo);
            var p, k := st.b.idx[wo.id], Position(st.b, wo.id);
            var f := st.b.Of(p.s)[p.px];
            && ack.status == 2 && ack.filled == 0 && r.b.Of(Opposite(p.s)) == st.b.Of(Opposite(p.s))
            && r.b.Of(p.s) == st.b.Of(p.s)[p.px := f[k := Node(p.slot, f[k].o.(remaining := wo.qty))]]
  {
    var m := ModifyDecodes(st, wo);
    var o := OrderOf(st.b, wo.id);
    if wo.qty == o.remaining {
      RepriceKeeps(st, m);
      Harmless(st, wo, TopOfBook(NO_TOP, 0));
      var p, k := st.b.idx[wo.id], Position(st.b, wo.id);
      var f := st.b.Of(p.s)[p.px];
      assert f[k := Node(p.slot, f[k].o.(remaining := wo.qty))] == f;
    } else {
      RepriceResizes(st, m);
      var e := PublishEffect(Resize(st, wo.id, wo.qty));
      Harmless(st, wo, e);
    }
  }

  /** A modify to a price at which nothing is on offer moves the order to the back of that level. */
  lemma WireMove(st: State, wo: WireOrder)
    requires Wf(st.b) && Quiet(st) && wo.op == 2 && Validate(wo, st.b.Ticks(), st.cfg.maxOrderQty)
    requires wo.id in st.b.idx && wo.newPx != st.b.idx[wo.id].px && OnOffer(st.b, st.b.idx[wo.id].s, wo.newPx) == 0
    ensures var (r, ack) := Apply(st, wo);
            var p, k := st.b.idx[wo.id], Position(st.b, wo.id);
            var f := st.b.Of(p.s)[p.px];
            var l := st.b.Of(p.s)[p.px := RemoveAt(f, k)];
            && ack.status == 2 && ack.filled == 0 && r.b.Of(Opposite(p.s)) == st.b.Of(Opposite(p.s))
            && r.b.Of(p.s) ==
               l[wo.newPx := l[wo.newPx] + [Node(p.slot, f[k].o.(px := wo.newPx, remaining := wo.qty))]]
  {
    var m := ModifyDecodes(st, wo);
    OfferCrosses(st, st.b.idx[wo.id].s, wo.newPx);
    RepriceRelinks(st, m);
    var e := PublishEffect(Relink(st, wo.id, wo.newPx, wo.qty));
    Harmless(st, wo, e);
  }

  lemma OfferCrosses(st: State, s: Side, px: nat)
    requires Wf(st.b)
    ensures WouldCross(st, s, px) <==> OnOffer(st.b, s, px) > 0
  {
    var m := Submit(1, px, 1, s, Gtc, 0);
    OfferSeen(st, m);
  }

  lemma ReplaceFills(st: State, id: nat, px: nat, qty: nat)
    requires Wf(st.b) && Quiet(st) && id in st.b.idx && px < st.b.Ticks() && 1 <= qty <= st.cfg.maxOrderQty
    requires OrderOf(st.b, id).account == 0
    ensures ValidId(id)
    ensures var st2, m := OnCancel(st.(depth := 1), id), Resubmit(st.b, id, px, qty);
            var r := Replace(st, id, px, qty);
            && SubmitOk(st2, m) && st2.b == CancelOrder(st.b, id) && r.b == OnSubmit(st2, m).b
            && st.events <= r.events && FillsTotal(r.events[|st.events|..]) == SubmitAccount(st2, m).traded
  {
    ReplaceIs(st, id, px, qty);
    var st2, m := OnCancel(st.(depth := 1), id), Resubmit(st.b, id, px, qty);
    assert st2.events == st.events;
    WireFilled(st2, m);
    var st3 := OnSubmit(st2, m);
    Summed(st3.events[|st.events|..]);
    var e := PublishEffect(st3.(depth := 0));
    FillsNext(st.events, st3.events, Replace(st, id, px, qty).events, e);
  }

  lemma FillsNext(a: seq<Event>, b: seq<Event>, c: seq<Event>, e: Event)
    requires a <= b && (c == b || c == b + [e]) && !e.Fill?
    ensures a <= c && FillsTotal(c[|a|..]) == FillsTotal(b[|a|..])
  {
    if c != b {
      assert c[|a|..] == b[|a|..] + [e];
      FillsAppend(b[|a|..], [e]);
      assert [e][1..] == [];
    }
  }

  /** A modify to a price at which something is on offer takes the order out and has it trade as if it came
      in anew; what is left of it rests at the new price. */
  lemma WireReplace(st: State, wo: WireOrder)
    requires Wf(st.b) && Quiet(st) && wo.op == 2 && Validate(wo, st.b.Ticks(), st.cfg.maxOrderQty)
    requires wo.id in st.b.idx && wo.newPx != st.b.idx[wo.id].px && OnOffer(st.b, st.b.idx[wo.id].s, wo.newPx) > 0
    requires OrderOf(st.b, wo.id).t.Gtc? && OrderOf(st.b, wo.id).account == 0
    ensures var (r, ack) := Apply(st, wo);
            var s := st.b.idx[wo.id].s;
            var x := Min(wo.qty, OnOffer(st.b, s, wo.newPx));
            && ack.status == 2 && ack.filled == x
            && ComesTo(CancelOrder(st.b, wo.id), r.b, Submit(wo.id, wo.newPx, wo.qty, s, Gtc, 0), x, x < wo.qty)
  {
    var m := ModifyDecodes(st, wo);
    var id := wo.id;
    OfferCrosses(st, st.b.idx[id].s, wo.newPx);
    RepriceReplaces(st, m);
    ReplaceFills(st, id, wo.newPx, wo.qty);
    AckSums(st, wo);
    var st2, c := OnCancel(st.(depth := 1), id), Resubmit(st.b, id, wo.newPx, wo.qty);
    CancelledNotFull(st, id);
    SubmitOutcome(st2, c);
    assert CancelOrder(st.b, id).Of(Opposite(c.s)) == st.b.Of(Opposite(c.s));
  }
}
