/** Where quantity goes: what comes in is resting, has traded, was taken back or was refused. */
module Ledger {
  import opened Types
  import opened Ladders
  import opened Books
  import opened EngineSpec
  import opened Repricing
  import opened PriceTime
  import opened FillOrKill

  function Resting(b: Book): nat {
    Quantity(b.bids) + Quantity(b.asks)
  }

  // ----- the elementary changes

  lemma RemoveQuantity(b: Book, s: Side, px: nat, k: nat)
    requires px < |b.Of(s)| && k < |b.Of(s)[px]| && b.Of(s)[px][k].slot < |b.gens|
    ensures Resting(b) == Resting(RemoveNode(b, s, px, k)) + b.Of(s)[px][k].o.remaining
  {
    CountUpdate(b.Of(s), px, RemoveAt(b.Of(s)[px], k));
    FifoQtyRemove(b.Of(s)[px], k);
  }

  lemma SetQuantity(b: Book, s: Side, px: nat, k: nat, o: Order)
    requires px < |b.Of(s)| && k < |b.Of(s)[px]|
    ensures Resting(b) + o.remaining == Resting(SetNode(b, s, px, k, o)) + b.Of(s)[px][k].o.remaining
  {
    var f := b.Of(s)[px];
    CountUpdate(b.Of(s), px, f[k := Node(f[k].slot, o)]);
    FifoQtyUpdate(f, k, Node(f[k].slot, o));
  }

  lemma AddQuantity(b: Book, o: Order)
    requires o.px < |b.Of(o.s)| && b.free != [] && b.free[0] < |b.gens|
    ensures Resting(AddNode(b, o)) == Resting(b) + o.remaining
  {
    var f := b.Of(o.s)[o.px];
    CountUpdate(b.Of(o.s), o.px, f + [Node(b.free[0], o)]);
    FifoQtyAppend(f, [Node(b.free[0], o)]);
  }

  lemma CancelQuantity(b: Book, id: nat)
    requires Wf(b) && id in b.idx
    ensures Resting(b) == Resting(CancelOrder(b, id)) + OrderOf(b, id).remaining
  {
    RemoveNodeWf(b, b.idx[id].s, b.idx[id].px, Position(b, id));
    RemoveQuantity(b, b.idx[id].s, b.idx[id].px, Position(b, id));
  }

  lemma RelinkQuantity(b: Book, id: nat, px: nat, qty: nat)
    requires Wf(b) && id in b.idx && px < b.Ticks() && qty > 0
    ensures Resting(b) + qty == Resting(RelinkOrder(b, id, px, qty)) + OrderOf(b, id).remaining
  {
    CancelQuantity(b, id);
    RelinkBook(b, id, px, qty);
    AddNodeWf(CancelOrder(b, id), OrderOf(b, id).(px := px, remaining := qty));
    AddQuantity(CancelOrder(b, id), OrderOf(b, id).(px := px, remaining := qty));
  }

  lemma {:induction false} OrdersQuantity(f: seq<Node>)
    ensures Quantities(Orders(f)) == FifoQty(f)
  {
    if f != [] {
      OrdersQuantity(f[1..]);
    }
  }

  lemma {:induction false} QuantitiesAppend(p: seq<Order>, q: seq<Order>)
    ensures Quantities(p + q) == Quantities(p) + Quantities(q)
  {
    if p == [] {
      assert p + q == q;
    } else {
      assert (p + q)[1..] == p[1..] + q;
      QuantitiesAppend(p[1..], q);
    }
  }

  /** The queue of a side holds all its quantity. */
  lemma {:induction false} QueueQuantity(s: Side, l: Ladder)
    ensures Quantities(Queue(s, l)) == Quantity(l)
    decreases Count(l)
  {
    var best := Best(s, l);
    if best.None? {
      CountEmpty(l);
    } else {
      CountUpdate(l, best.value, []);
      QueueQuantity(s, l[best.value := []]);
      OrdersQuantity(l[best.value]);
      QuantitiesAppend(Orders(l[best.value]), Queue(s, l[best.value := []]));
    }
  }

  // ----- matching

  /** What cancel-oldest destroys while m matches. */
  function Destroyed(st: State, m: Submit): nat
    requires Wf(st.b)
  {
    var s := Opposite(m.s);
    var q, left := Queue(s, st.b.Of(s)), Queue(s, Match(st, m, m.qty).st.b.Of(s));
    if |left| <= |q| then Dropped(st.cfg, m, q[..|q| - |left|]) else 0
  }

  /** What m trades when it matches. */
  function Traded(st: State, m: Submit): nat
    requires Wf(st.b)
  {
    MatchPublishes(st, m, m.qty);
    Executed(Match(st, m, m.qty).st.events[|st.events|..])
  }

  lemma MatchTrades(st: State, m: Submit)
    requires Wf(st.b) && m.qty > 0
    ensures var p := Match(st, m, m.qty);
            if p.aborted then Traded(st, m) < m.qty && p.rem == 0 else Traded(st, m) + p.rem == m.qty
  {
    var s := Opposite(m.s);
    MatchPublishes(st, m, m.qty);
    WfPlaced(st.b, s);
    QueuePositive(s, st.b.Of(s));
    TakeExecutes(st.cfg, m, Queue(s, st.b.Of(s)), m.qty, st.seqNo);
  }

  lemma TradedIs(st: State, m: Submit, t: Outcome)
    requires Wf(st.b) && m.qty > 0
    requires t == Take(st.cfg, m, Queue(Opposite(m.s), st.b.Of(Opposite(m.s))), m.qty, st.seqNo)
    ensures Traded(st, m) == Executed(t.out)
    ensures Queue(Opposite(m.s), Match(st, m, m.qty).st.b.Of(Opposite(m.s))) == t.left
  {
    MatchTakes(st, m, m.qty);
    MatchPublishes(st, m, m.qty);
  }

  lemma MatchTaken(st: State, m: Submit, q: seq<Order>) returns (t: Outcome)
    requires Wf(st.b) && m.qty > 0 && q == Queue(Opposite(m.s), st.b.Of(Opposite(m.s)))
    ensures |t.left| <= |q| && Debited(st.cfg, m, q, t) && Traded(st, m) == Executed(t.out)
    ensures Queue(Opposite(m.s), Match(st, m, m.qty).st.b.Of(Opposite(m.s))) == t.left
  {
    WfPlaced(st.b, Opposite(m.s));
    QueuePositive(Opposite(m.s), st.b.Of(Opposite(m.s)));
    TakeDebits(st.cfg, m, q, m.qty, st.seqNo);
    t := Take(st.cfg, m, q, m.qty, st.seqNo);
    TradedIs(st, m, t);
  }

  lemma DebitedIs(cfg: Config, m: Submit, q: seq<Order>, t: Outcome, x: nat)
    requires |t.left| <= |q| && Debited(cfg, m, q, t) && x == Dropped(cfg, m, q[..|q| - |t.left|])
    ensures Quantities(q) == Quantities(t.left) + Executed(t.out) + x
  {
  }

  lemma DestroyedIs(st: State, m: Submit, t: Outcome)
    requires Wf(st.b) && Queue(Opposite(m.s), Match(st, m, m.qty).st.b.Of(Opposite(m.s))) == t.left
    ensures var q := Queue(Opposite(m.s), st.b.Of(Opposite(m.s)));
            |t.left| <= |q| ==> Destroyed(st, m) == Dropped(st.cfg, m, q[..|q| - |t.left|])
  {
  }

  /** The opposite side loses what trades and what cancel-oldest destroys. */
  lemma MatchDebits(st: State, m: Submit)
    requires Wf(st.b) && m.qty > 0
    ensures var s := Opposite(m.s);
            Quantity(st.b.Of(s)) == Quantity(Match(st, m, m.qty).st.b.Of(s)) + Traded(st, m) + Destroyed(st, m)
  {
    var s := Opposite(m.s);
    var l, l' := st.b.Of(s), Match(st, m, m.qty).st.b.Of(s);
    var t := MatchTaken(st, m, Queue(s, l));
    DestroyedIs(st, m, t);
    DebitedIs(st.cfg, m, Queue(s, l), t, Destroyed(st, m));
    QueueQuantity(s, l);
    QueueQuantity(s, l');
  }

  lemma MatchLedger(st: State, m: Submit)
    requires Wf(st.b) && m.qty > 0
    ensures var p := Match(st, m, m.qty);
            && Resting(st.b) == Resting(p.st.b) + Traded(st, m) + Destroyed(st, m)
            && (if p.aborted then Traded(st, m) < m.qty && p.rem == 0 else Traded(st, m) + p.rem == m.qty)
  {
    MatchTrades(st, m);
    MatchDebits(st, m);
    assert Opposite(Opposite(m.s)) == m.s;
  }

  // ----- accounts of commands

  /** What a command brings in and what becomes of it and of what was resting: traded (by the
      aggressor; the makers lose as much), taken back by its owner, destroyed by cancel-oldest,
      dropped because it may not rest, and refused for want of room. */
  datatype Account = Account(entered: nat, traded: nat, cancelled: nat, destroyed: nat, dropped: nat, refused: nat)
  {
    function Plus(a: Account): Account {
      Account(entered + a.entered, traded + a.traded, cancelled + a.cancelled,
              destroyed + a.destroyed, dropped + a.dropped, refused + a.refused)
    }

    function Out(): nat {
      2 * traded + cancelled + destroyed + dropped + refused
    }
  }

  const NOTHING := Account(0, 0, 0, 0, 0, 0)

  function SubmitAccount(st: State, m: Submit): Account
    requires Wf(st.b) && SubmitOk(st, m)
  {
    var a := NOTHING.(entered := m.qty);
    if m.t.Fok? && !CanFill(st, m) then a.(dropped := m.qty) else
    var p := Match(st, m, m.qty);
    MatchLedger(st, m);
    a.(traded := Traded(st, m), destroyed := Destroyed(st, m),
       dropped := if p.aborted || !m.t.Gtc? then m.qty - Traded(st, m) else 0,
       refused := if m.t.Gtc? && p.rem > 0 && Full(p.st) then p.rem else 0)
  }

  function CancelAccount(st: State, id: nat): Account
    requires Wf(st.b)
  {
    if id in st.b.idx then NOTHING.(cancelled := OrderOf(st.b, id).remaining) else NOTHING
  }

  /** A modify takes the order back and brings in its new quantity; one that crosses goes on as a submit. */
  function RepriceAccount(st: State, m: Modify): Account
    requires Wf(st.b) && ModifyOk(st, m) && EffectiveId(m) in st.b.idx
  {
    var id := EffectiveId(m);
    var o := OrderOf(st.b, id);
    if m.newPx == o.px || !WouldCross(st, o.s, m.newPx) then NOTHING.(entered := m.newQty,
        cancelled := o.remaining) else
    SubmitAccount(OnCancel(st.(depth := st.depth + 1), id), Resubmit(st.b, id, m.newPx, m.newQty))
    .Plus(NOTHING.(cancelled := o.remaining))
  }

  function ModifyAccount(st: State, m: Modify): Account
    requires Wf(st.b) && ModifyOk(st, m)
  {
    if m.id in st.b.idx then RepriceAccount(Rename(st, m), m) else NOTHING
  }

  function StepAccount(st: State, c: Command): Account
    requires Wf(st.b) && CommandOk(st, c)
  {
    match c
    case CmdSubmit(m) => SubmitAccount(st, m)
    case CmdCancel(id) => CancelAccount(st, id)
    case CmdModify(m) => ModifyAccount(st, m)
  }

  function RunAccount(st: State, cs: seq<Command>): Account
    requires Wf(st.b) && RunOk(st, cs)
    decreases |cs|
  {
    if cs == [] then NOTHING else
    RunTail(st, Step(st, cs[0]), cs);
    StepAccount(st, cs[0]).Plus(RunAccount(Step(st, cs[0]), cs[1..]))
  }

  // ----- the accounts balance

  predicate Conserved(before: nat, after: nat, a: Account) {
    after + a.Out() == before + a.entered
  }

  /** The quantity an event refuses. */
  function RefusedBy(e: Event): nat {
    if e.Reject? then e.qty else 0
  }

  function Refusals(evs: seq<Event>): nat {
    if evs == [] then 0 else RefusedBy(evs[0]) + Refusals(evs[1..])
  }

  lemma {:induction false} RefusalsAppend(a: seq<Event>, b: seq<Event>)
    ensures Refusals(a + b) == Refusals(a) + Refusals(b)
  {
    if a == [] {
      assert a + b == b;
    } else {
      assert (a + b)[1..] == a[1..] + b;
      RefusalsAppend(a[1..], b);
    }
  }

  lemma {:induction false} RefusalsNone(evs: seq<Event>)
    requires forall i | 0 <= i < |evs| :: !evs[i].Reject?
    ensures Refusals(evs) == 0
  {
    if evs != [] {
      RefusalsNone(evs[1..]);
    }
  }

  /** The events that were added tell of x traded and y refused. */
  predicate Told(before: seq<Event>, after: seq<Event>, x: nat, y: nat) {
    before <= after && Executed(after[|before|..]) == x && Refusals(after[|before|..]) == y
  }

  lemma ToldOn(a: seq<Event>, b: seq<Event>, c: seq<Event>, x: nat, y: nat, x': nat, y': nat)
    requires Told(a, b, x, y) && Told(b, c, x', y')
    ensures Told(a, c, x + x', y + y')
  {
    ExecutedAppend(b[|a|..], c[|b|..]);
    RefusalsAppend(b[|a|..], c[|b|..]);
    assert c[|a|..] == b[|a|..] + c[|b|..];
  }

  lemma ToldNothing(a: seq<Event>)
    ensures Told(a, a, 0, 0)
  {
    assert a[|a|..] == [];
  }

  lemma ToldOne(a: seq<Event>, e: Event)
    ensures Told(a, a + [e], ExecutedBy(e), RefusedBy(e))
  {
    assert (a + [e])[|a|..] == [e];
    assert [e][1..] == [];
  }

  /** r, reached from st under account a: nothing comes from nowhere and nothing is lost, and what the
      account calls traded and refused is what the stream published as such. */
  predicate Balanced(st: State, r: State, a: Account) {
    Conserved(Resting(st.b), Resting(r.b), a) && Told(st.events, r.events, a.traded, a.refused)
  }

  lemma BalancedOn(st: State, mid: State, r: State, a: Account, b: Account)
    requires Balanced(st, mid, a) && Balanced(mid, r, b)
    ensures Balanced(st, r, a.Plus(b))
  {
    ToldOn(st.events, mid.events, r.events, a.traded, a.refused, b.traded, b.refused);
  }

  lemma Unpublished(st: State, r: State, a: Account)
    requires r.events == st.events && a.traded == a.refused == 0 && Conserved(Resting(st.b), Resting(r.b), a)
    ensures Balanced(st, r, a)
  {
    ToldNothing(st.events);
  }

  /** Publishing adds a top of book or nothing. */
  lemma PublishEffect(st: State) returns (e: Event)
    ensures var r := PublishTop(st); r.b == st.b && (r.events == st.events || r.events == st.events + [e])
    ensures e.TopOfBook?
  {
    e := TopOfBook(TopOf(st.b), st.seqNo + 1);
  }

  lemma Appended(before: seq<Event>, after: seq<Event>, e: Event)
    requires e.TopOfBook? && (after == before || after == before + [e])
    ensures Told(before, after, 0, 0)
  {
    if after == before {
      ToldNothing(before);
    } else {
      ToldOne(before, e);
    }
  }

  lemma PublishBalanced(st: State)
    ensures Balanced(st, PublishTop(st), NOTHING)
  {
    var e := PublishEffect(st);
    Appended(st.events, PublishTop(st).events, e);
  }

  lemma PlusNothing(a: Account)
    ensures a.Plus(NOTHING) == a && NOTHING.Plus(a) == a
  {
  }

  lemma Published(st: State, r: State, a: Account)
    requires Balanced(st, r, a)
    ensures Balanced(st, PublishTop(r), a)
  {
    PublishBalanced(r);
    BalancedOn(st, r, PublishTop(r), a, NOTHING);
    PlusNothing(a);
  }

  lemma RestLedger(st: State, m: Submit, rem: nat)
    requires Wf(st.b) && m.px < st.b.Ticks() && rem > 0 && ValidId(m.id)
    ensures var r := Rest(st, m, rem);
            && Resting(r.b) == Resting(st.b) + (if Full(st) then 0 else rem)
            && r.events == st.events + (if Full(st) then [Reject(m.id, m.account, m.px, rem, st.seqNo + 1)] else [])
  {
    if !Full(st) {
      AddNodeWf(st.b, Order(m.id, rem, m.px, m.s, m.t, m.account));
      AddQuantity(st.b, Order(m.id, rem, m.px, m.s, m.t, m.account));
    }
  }

  /** Matching refuses nothing. */
  lemma MatchTells(st: State, m: Submit)
    requires Wf(st.b) && m.qty > 0
    ensures Told(st.events, Match(st, m, m.qty).st.events, Traded(st, m), 0)
  {
    MatchPublishes(st, m, m.qty);
    var q := Queue(Opposite(m.s), st.b.Of(Opposite(m.s)));
    var out := Take(st.cfg, m, q, m.qty, st.seqNo).out;
    forall i | 0 <= i < |out| ensures !out[i].Reject? {
      var k := TakeTrades(st.cfg, m, q, m.qty, st.seqNo, i);
    }
    RefusalsNone(out);
  }

  lemma RestTells(st: State, m: Submit, rem: nat)
    requires Wf(st.b) && m.px < st.b.Ticks() && rem > 0 && ValidId(m.id)
    ensures Told(st.events, Rest(st, m, rem).events, 0, if Full(st) then rem else 0)
  {
    RestLedger(st, m, rem);
    if Full(st) {
      ToldOne(st.events, Reject(m.id, m.account, m.px, rem, st.seqNo + 1));
    } else {
      assert st.events + [] == st.events;
      ToldNothing(st.events);
    }
  }

  lemma HandleSubmitLedger(st: State, m: Submit)
    requires Wf(st.b) && SubmitOk(st, m)
    ensures Balanced(st, HandleSubmit(st, m), SubmitAccount(st, m))
  {
    if m.t.Fok? && !CanFill(st, m) {
      ToldNothing(st.events);
    } else {
      var p := Match(st, m, m.qty);
      MatchLedger(st, m);
      MatchTells(st, m);
      if p.rem > 0 && m.t.Gtc? {
        RestLedger(p.st, m, p.rem);
        RestTells(p.st, m, p.rem);
        var y := if Full(p.st) then p.rem else 0;
        ToldOn(st.events, p.st.events, Rest(p.st, m, p.rem).events, Traded(st, m), 0, 0, y);
      }
    }
  }

  lemma SubmitLedger(st: State, m: Submit)
    requires Wf(st.b) && SubmitOk(st, m)
    ensures Balanced(st, OnSubmit(st, m), SubmitAccount(st, m))
  {
    HandleSubmitLedger(st, m);
    Published(st, HandleSubmit(st, m), SubmitAccount(st, m));
  }

  lemma CancelLedger(st: State, id: nat)
    requires Wf(st.b)
    ensures Balanced(st, OnCancel(st, id), CancelAccount(st, id))
  {
    if id in st.b.idx {
      CancelQuantity(st.b, id);
      Unpublished(st, HandleCancel(st, id), CancelAccount(st, id));
      Published(st, HandleCancel(st, id), CancelAccount(st, id));
    } else {
      Unpublished(st, st, NOTHING);
    }
  }

  lemma ReplaceLedger(st: State, id: nat, px: nat, qty: nat)
    requires Wf(st.b) && id in st.b.idx && px < st.b.Ticks() && 1 <= qty <= st.cfg.maxOrderQty && ValidId(id)
    ensures var st2 := OnCancel(st.(depth := st.depth + 1), id);
            SubmitOk(st2, Resubmit(st.b, id, px, qty)) &&
            var a := SubmitAccount(st2, Resubmit(st.b, id, px, qty));
            Balanced(st, Replace(st, id, px, qty), a.Plus(NOTHING.(cancelled := OrderOf(st.b, id).remaining)))
  {
    ReplaceIs(st, id, px, qty);
    var st1 := st.(depth := st.depth + 1);
    CancelLedger(st1, id);
    var st2, m := OnCancel(st1, id), Resubmit(st.b, id, px, qty);
    SubmitLedger(st2, m);
    var a, c := SubmitAccount(st2, m), CancelAccount(st1, id);
    BalancedOn(st1, st2, OnSubmit(st2, m), c, a);
    assert c.Plus(a) == a.Plus(c);
    Published(st, OnSubmit(st2, m).(depth := st.depth), a.Plus(c));
  }

  lemma RenameLedger(st: State, m: Modify)
    requires Wf(st.b) && m.id in st.b.idx && m.newId < MAX_ID
    ensures Balanced(st, Rename(st, m), NOTHING)
  {
    if EffectiveId(m) != m.id {
      var p, k := st.b.idx[m.id], Position(st.b, m.id);
      SetQuantity(st.b, p.s, p.px, k, st.b.Of(p.s)[p.px][k].o.(id := m.newId));
    }
    Unpublished(st, Rename(st, m), NOTHING);
  }

  lemma ResizeLedger(st: State, id: nat, qty: nat)
    requires Wf(st.b) && id in st.b.idx && qty > 0
    ensures var a := NOTHING.(entered := qty, cancelled := OrderOf(st.b, id).remaining);
            Balanced(st, PublishTop(Resize(st, id, qty)), a)
  {
    var o := OrderOf(st.b, id);
    var a := NOTHING.(entered := qty, cancelled := o.remaining);
    SetQuantity(st.b, o.s, o.px, Position(st.b, id), o.(remaining := qty));
    Unpublished(st, Resize(st, id, qty), a);
    Published(st, Resize(st, id, qty), a);
  }

  lemma RelinkLedger(st: State, id: nat, px: nat, qty: nat)
    requires Wf(st.b) && id in st.b.idx && qty > 0 && px < st.b.Ticks()
    ensures var a := NOTHING.(entered := qty, cancelled := OrderOf(st.b, id).remaining);
            Balanced(st, PublishTop(Relink(st, id, px, qty)), a)
  {
    var a := NOTHING.(entered := qty, cancelled := OrderOf(st.b, id).remaining);
    RelinkQuantity(st.b, id, px, qty);
    Unpublished(st, Relink(st, id, px, qty), a);
    Published(st, Relink(st, id, px, qty), a);
  }

  lemma AccountInPlace(st: State, m: Modify)
    requires Wf(st.b) && ModifyOk(st, m) && EffectiveId(m) in st.b.idx
    requires var o := OrderOf(st.b, EffectiveId(m)); m.newPx == o.px || !WouldCross(st, o.s, m.newPx)
    ensures RepriceAccount(st, m) == NOTHING.(entered := m.newQty, cancelled := OrderOf(st.b, EffectiveId(m)).remaining)
  {
  }

  lemma CrossingLedger(st: State, m: Modify)
    requires Wf(st.b) && ModifyOk(st, m) && EffectiveId(m) in st.b.idx
    requires var o := OrderOf(st.b, EffectiveId(m)); m.newPx != o.px && WouldCross(st, o.s, m.newPx)
    ensures Balanced(st, Reprice(st, m), RepriceAccount(st, m))
  {
    RepriceReplaces(st, m);
    ReplaceLedger(st, EffectiveId(m), m.newPx, m.newQty);
  }

  lemma RepriceLedger(st: State, m: Modify)
    requires Wf(st.b) && ModifyOk(st, m) && EffectiveId(m) in st.b.idx
    ensures Balanced(st, Reprice(st, m), RepriceAccount(st, m))
  {
    var id := EffectiveId(m);
    var o := OrderOf(st.b, id);
    if m.newPx != o.px && WouldCross(st, o.s, m.newPx) {
      CrossingLedger(st, m);
    } else {
      AccountInPlace(st, m);
      if m.newPx != o.px {
        RepriceRelinks(st, m);
        RelinkLedger(st, id, m.newPx, m.newQty);
      } else if m.newQty != o.remaining {
        RepriceResizes(st, m);
        ResizeLedger(st, id, m.newQty);
      } else {
        RepriceKeeps(st, m);
        Unpublished(st, st, RepriceAccount(st, m));
      }
    }
  }

  lemma ModifyLedger(st: State, m: Modify)
    requires Wf(st.b) && ModifyOk(st, m)
    ensures Balanced(st, OnModify(st, m), ModifyAccount(st, m))
  {
    if m.id in st.b.idx {
      var mid := Rename(st, m);
      var a := RepriceAccount(mid, m);
      RenameLedger(st, m);
      RepriceLedger(mid, m);
      BalancedOn(st, mid, Reprice(mid, m), NOTHING, a);
      PlusNothing(a);
    } else {
      Unpublished(st, st, NOTHING);
    }
  }

  lemma StepLedger(st: State, c: Command)
    requires Wf(st.b) && CommandOk(st, c)
    ensures Balanced(st, Step(st, c), StepAccount(st, c))
  {
    match c
    case CmdSubmit(m) => SubmitLedger(st, m);
    case CmdCancel(id) => CancelLedger(st, id);
    case CmdModify(m) => ModifyLedger(st, m);
  }

  /** Over any run: what was resting plus what came in is what rests, what traded on either side, and
      what was cancelled, destroyed, dropped or refused. */
  lemma {:induction false} RunLedger(st: State, cs: seq<Command>)
    requires Wf(st.b) && RunOk(st, cs)
    ensures Balanced(st, Run(st, cs), RunAccount(st, cs))
    decreases |cs|
  {
    if cs == [] {
      Unpublished(st, st, NOTHING);
    } else {
      StepLedger(st, cs[0]);
      RunTail(st, Step(st, cs[0]), cs);
      RunLedger(Step(st, cs[0]), cs[1..]);
      BalancedOn(st, Step(st, cs[0]), Run(st, cs), StepAccount(st, cs[0]), RunAccount(Step(st, cs[0]), cs[1..]));
    }
  }
}
