/** The map-and-list engine: per side a map from price to the list of orders resting there, an index
    from id to where the order rests. It caches nothing, marks the top after every change, and reprices
    by cancel and resubmit. Its records of fills, trades, self-trades, rejects and tops are the parts
    of one log here. */
module ReferenceEngine {
  import opened Types
  import opened Ladders

  /** Populated prices and their lists; a list is empty only while it is being matched. */
  type Levels = map<nat, seq<Order>>

  datatype Place = Place(s: Side, px: nat)

  datatype Ref = Ref(
    cfg: Config, maxOrders: nat,
    bids: Levels, asks: Levels, idx: map<nat, Place>,
    seqNo: nat, events: seq<Event>,
    last: Top, haveTop: bool, dirty: bool, depth: nat)
  {
    function Of(s: Side): Levels {
      if s.Bid? then bids else asks
    }

    function With(s: Side, lv: Levels): Ref {
      if s.Bid? then this.(bids := lv) else this.(asks := lv)
    }
  }

  // ----- top of book

  lemma {:induction false} FirstExists(s: Side, keys: set<nat>) returns (px: nat)
    requires keys != {}
    ensures px in keys && forall q | q in keys :: !Better(s, q, px)
    decreases |keys|
  {
    px :| px in keys;
    assert forall q | q in keys :: q == px || q in keys - {px};
    if keys - {px} != {} {
      var y := FirstExists(s, keys - {px});
      if Better(s, y, px) {
        px := y;
      }
    }
  }

  /** The price a side's map lists first: its best. */
  function First(s: Side, lv: Levels): (r: Option<nat>)
    ensures r.None? <==> lv.Keys == {}
    ensures r.Some? ==> r.value in lv && forall q | q in lv :: !Better(s, q, r.value)
  {
    if lv.Keys == {} then None else
    assert exists px :: px in lv.Keys && forall q | q in lv.Keys :: !Better(s, q, px) by {
      var x := FirstExists(s, lv.Keys);
    }
    var px :| px in lv.Keys && forall q | q in lv.Keys :: !Better(s, q, px);
    Some(px)
  }

  /** The best prices with their lists summed up anew. */
  function TopOf(r: Ref): Top {
    var bb, ba := First(Bid, r.bids), First(Ask, r.asks);
    Top(
      if bb.Some? then bb.value else 0,
      if ba.Some? then ba.value else 0,
      if bb.Some? then Quantities(r.bids[bb.value]) else 0,
      if ba.Some? then Quantities(r.asks[ba.value]) else 0)
  }

  function PublishTop(r: Ref): Ref {
    if !r.dirty || r.depth != 0 then r else
    var top := TopOf(r);
    if r.cfg.topThrottle && r.haveTop && top == r.last then r.(dirty := false) else
    r.(dirty := false, seqNo := r.seqNo + 1, events := r.events + [TopOfBook(top, r.seqNo + 1)], last := top,
        haveTop := true)
  }

  // ----- matching

  datatype Walk = Walk(r: Ref, rem: nat, aborted: bool)

  /** The front order of a list leaves, with its index entry. */
  function PopFront(r: Ref, s: Side, px: nat): Ref
    requires px in r.Of(s) && r.Of(s)[px] != []
  {
    var fifo := r.Of(s)[px];
    r.With(s, r.Of(s)[px := fifo[1..]]).(idx := r.idx - {fifo[0].id}, dirty := true)
  }

  /** The front order of a list loses q, and leaves when nothing is left of it. */
  function Reduce(r: Ref, s: Side, px: nat, q: nat): Ref
    requires px in r.Of(s) && r.Of(s)[px] != [] && q <= r.Of(s)[px][0].remaining
  {
    var fifo := r.Of(s)[px];
    if fifo[0].remaining == q then PopFront(r, s, px)
    else r.With(s, r.Of(s)[px := fifo[0 := fifo[0].(remaining := fifo[0].remaining - q)]]).(dirty := true)
  }

  /** One turn of the inner loop: the aggressor meets the front order of the list at px. */
  function Turn(r: Ref, m: Submit, px: nat, rem: nat): (w: Walk)
    requires px in r.Of(Opposite(m.s)) && r.Of(Opposite(m.s))[px] != [] && rem > 0
    ensures w.r.Of(Opposite(m.s)).Keys == r.Of(Opposite(m.s)).Keys && w.rem <= rem
    ensures w.aborted || w.rem < rem || |w.r.Of(Opposite(m.s))[px]| < |r.Of(Opposite(m.s))[px]|
  {
    var opp, n := Opposite(m.s), r.seqNo + 1;
    var maker := r.Of(opp)[px][0];
    var q := Min(rem, maker.remaining);
    if m.account != 0 && maker.account == m.account then
      match r.cfg.selfCross
      case CancelNewest => Walk(r, 0, true)
      case CancelOldest => Walk(PopFront(r, opp, px), rem, false)
      case DecrementTrade =>
        var e := SelfTrade(m.id, maker.id, m.account, px, q, n);
        Walk(Reduce(r, opp, px, q).(seqNo := n, events := r.events + [e]), rem - q, false)
    else
      var out := [Fill(maker.id, m.id, px, q, n), Trade(px, q, n)];
      Walk(Reduce(r, opp, px, q).(seqNo := n, events := r.events + out), rem - q, false)
  }

  /** The inner loop: down the list at px. */
  function MatchList(r: Ref, m: Submit, px: nat, rem: nat): (w: Walk)
    requires px in r.Of(Opposite(m.s))
    ensures w.r.Of(Opposite(m.s)).Keys == r.Of(Opposite(m.s)).Keys && w.rem <= rem
    ensures w.aborted || w.rem == 0 || w.r.Of(Opposite(m.s))[px] == []
    decreases rem, |r.Of(Opposite(m.s))[px]|
  {
    if rem == 0 || r.Of(Opposite(m.s))[px] == [] then Walk(r, rem, false) else
    var w := Turn(r, m, px, rem);
    if w.aborted then w else MatchList(w.r, m, px, w.rem)
  }

  function DropEmpty(r: Ref, s: Side, px: nat): Ref
    requires px in r.Of(s)
  {
    if r.Of(s)[px] == [] then r.With(s, r.Of(s) - {px}) else r
  }

  /** The outer loop: from list to list while the best price crosses. */
  function Match(r: Ref, m: Submit, rem: nat): (w: Walk)
    ensures w.rem <= rem
    decreases r.Of(Opposite(m.s)).Keys
  {
    var opp := Opposite(m.s);
    var best := First(opp, r.Of(opp));
    if rem == 0 || best.None? || !Crosses(m.s, m.px, best.value) then Walk(r, rem, false) else
    var w := MatchList(r, m, best.value, rem);
    var r1 := DropEmpty(w.r, opp, best.value);
    if w.aborted || w.rem == 0 then w.(r := r1) else
    assert r1.Of(opp).Keys == r.Of(opp).Keys - {best.value};
    Match(r1, m, w.rem)
  }

  // ----- fill-or-kill precheck

  datatype Tally = Tally(total: nat, aborted: bool, done: bool)

  function ConsumeList(cfg: Config, account: nat, want: nat, fifo: seq<Order>, total: nat): Tally {
    var allConsumable := account == 0 || cfg.selfCross.DecrementTrade?;
    if fifo == [] then Tally(total, false, false)
    else if !allConsumable && fifo[0].account == account then
      if cfg.selfCross.CancelNewest? then Tally(total, true, true)
      else ConsumeList(cfg, account, want, fifo[1..], total)
    else if total + fifo[0].remaining >= want then Tally(total + fifo[0].remaining, false, true)
    else ConsumeList(cfg, account, want, fifo[1..], total + fifo[0].remaining)
  }

  function CanFillFrom(cfg: Config, m: Submit, lv: Levels, total: nat): bool
    decreases lv.Keys
  {
    var best := First(Opposite(m.s), lv);
    if best.None? || !Crosses(m.s, m.px, best.value) then total >= m.qty else
    var w := ConsumeList(cfg, m.account, m.qty, lv[best.value], total);
    if w.done then !w.aborted && w.total >= m.qty else
    assert (lv - {best.value}).Keys == lv.Keys - {best.value};
    CanFillFrom(cfg, m, lv - {best.value}, w.total)
  }

  // ----- commands

  /** Append to the list at the price, which may be new, and index. */
  function Add(r: Ref, o: Order): Ref {
    var lv := r.Of(o.s);
    var fifo := if o.px in lv then lv[o.px] else [];
    r.With(o.s, lv[o.px := fifo + [o]]).(idx := r.idx[o.id := Place(o.s, o.px)], dirty := true)
  }

  function Rest(r: Ref, m: Submit, rem: nat): Ref {
    if |r.idx| >= r.maxOrders then
      r.(seqNo := r.seqNo + 1, events := r.events + [Reject(m.id, m.account, m.px, rem, r.seqNo + 1)])
    else
      Add(r, Order(m.id, rem, m.px, m.s, m.t, m.account))
  }

  function HandleSubmit(r: Ref, m: Submit): Ref {
    if m.t.Fok? && !CanFillFrom(r.cfg, m, r.Of(Opposite(m.s)), 0) then r else
    var w := Match(r, m, m.qty);
    if w.rem == 0 || !m.t.Gtc? then w.r else Rest(w.r, m, w.rem)
  }

  function OnSubmit(r: Ref, m: Submit): Ref {
    PublishTop(HandleSubmit(r, m))
  }

  /** Where in a list an order with the id stands first; its length when none does. */
  function Seek(fifo: seq<Order>, id: nat): (k: nat)
    ensures k <= |fifo| && (k < |fifo| ==> fifo[k].id == id) && forall i | 0 <= i < k :: fifo[i].id != id
  {
    if fifo == [] || fifo[0].id == id then 0 else 1 + Seek(fifo[1..], id)
  }

  /** The index names a list, and an order with the id stands in it. */
  predicate Holds(r: Ref, id: nat) {
    && id in r.idx && r.idx[id].px in r.Of(r.idx[id].s)
    && Seek(r.Of(r.idx[id].s)[r.idx[id].px], id) < |r.Of(r.idx[id].s)[r.idx[id].px]|
  }

  function RecordOf(r: Ref, id: nat): Order
    requires Holds(r, id)
  {
    var fifo := r.Of(r.idx[id].s)[r.idx[id].px];
    fifo[Seek(fifo, id)]
  }

  /** Rewrite the record of id where it stands. */
  function Rewrite(r: Ref, id: nat, o: Order): Ref
    requires Holds(r, id)
  {
    var s, px := r.idx[id].s, r.idx[id].px;
    var fifo := r.Of(s)[px];
    r.With(s, r.Of(s)[px := fifo[Seek(fifo, id) := o]])
  }

  /** Take the record of id out of its list, drop the list when it runs empty, and its index entry. */
  function Erase(r: Ref, id: nat): Ref
    requires Holds(r, id)
  {
    var s, px := r.idx[id].s, r.idx[id].px;
    var fifo := r.Of(s)[px];
    DropEmpty(r.With(s, r.Of(s)[px := RemoveAt(fifo, Seek(fifo, id))]).(idx := r.idx - {id}, dirty := true), s, px)
  }

  function OnCancel(r: Ref, id: nat): Ref {
    if !Holds(r, id) then r else PublishTop(Erase(r, id))
  }

  /** Apply the id chain of a cancel-replace. */
  function Renamed(r: Ref, m: Modify): Ref
    requires Holds(r, m.id)
  {
    var id := if m.newId == 0 then m.id else m.newId;
    if id == m.id then r else
    Rewrite(r, m.id, RecordOf(r, m.id).(id := id)).(idx := (r.idx - {m.id})[id := r.idx[m.id]])
  }

  function Resized(r: Ref, id: nat, qty: nat): Ref
    requires Holds(r, id)
  {
    Rewrite(r, id, RecordOf(r, id).(remaining := qty)).(dirty := true)
  }

  /** Cancel o and submit it anew, with one coalesced top. */
  function Replace(r: Ref, o: Order, px: nat, qty: nat): Ref {
    var r1 := OnCancel(r.(depth := r.depth + 1), o.id);
    var r2 := OnSubmit(r1, Submit(o.id, px, qty, o.s, o.t, o.account));
    PublishTop(r2.(depth := r.depth))
  }

  /** What a modify does to the record once it carries its new id. */
  function Reprice(r: Ref, id: nat, m: Modify): Ref
    requires Holds(r, id)
  {
    var o := RecordOf(r, id);
    if m.newPx == o.px then
      if m.newQty == o.remaining then r else PublishTop(Resized(r, id, m.newQty))
    else Replace(r, o, m.newPx, m.newQty)
  }

  function OnModify(r: Ref, m: Modify): Ref {
    if !Holds(r, m.id) then r else
    var r1, id := Renamed(r, m), if m.newId == 0 then m.id else m.newId;
    if Holds(r1, id) then Reprice(r1, id, m) else r1
  }

  function Step(r: Ref, c: Command): Ref {
    match c
    case CmdSubmit(m) => OnSubmit(r, m)
    case CmdCancel(id) => OnCancel(r, id)
    case CmdModify(m) => OnModify(r, m)
  }

  function Run(r: Ref, cs: seq<Command>): Ref
    decreases |cs|
  {
    if cs == [] then r else Run(Step(r, cs[0]), cs[1..])
  }

  /** The engine before its first command, its numbers starting after base. */
  function Initial(maxOrders: nat, cfg: Config, base: nat): Ref {
    Ref(cfg, maxOrders, map[], map[], map[], base, [], Top(0, 0, 0, 0), false, false, 0)
  }
}
