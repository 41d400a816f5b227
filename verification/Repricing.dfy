/** Two shortcuts of the engine that change nothing: it looks at the top only when a change can have
    moved it, and it reprices in place when the new price does not cross. */
module Repricing {
  import opened Types
  import opened Ladders
  import opened Books
  import opened EngineSpec
  import opened BooksAlike

  // ----- the guarded look at the top

  /** d's published top and side flags are those of its book, unless it knows it has to look. */
  predicate Synced(d: State) {
    !d.dirty && d.haveTop ==>
      && d.last == TopOf(d.b)
      && d.haveBid == Best(Bid, d.b.bids).Some? && d.haveAsk == Best(Ask, d.b.asks).Some?
  }

  /** What the guard lets pass has not moved the top. */
  lemma GuardSound(d: State, db: Book, s: Side, px: nat)
    requires Synced(d) && !d.dirty && d.haveTop && !AffectsTop(d, s, px) && ChangedAt(d.b, db, s, px)
    ensures TopOf(db) == TopOf(d.b)
    ensures Best(Bid, db.bids).Some? == Best(Bid, d.b.bids).Some?
            && Best(Ask, db.asks).Some? == Best(Ask, d.b.asks).Some?
  {
    TopUntouched(d.b, db, s, px);
    assert Opposite(Opposite(s)) == s;
  }

  // ----- cancel and resubmit

  /** The submit that a modify turns into. */
  function Resubmit(b: Book, id: nat, px: nat, qty: nat): Submit
    requires Wf(b) && id in b.idx
  {
    var o := OrderOf(b, id);
    Submit(id, px, qty, o.s, o.t, o.account)
  }

  lemma ReplaceIs(st: State, id: nat, px: nat, qty: nat)
    requires Wf(st.b) && id in st.b.idx && px < st.b.Ticks() && 1 <= qty <= st.cfg.maxOrderQty
    ensures ValidId(id)
    ensures var st2 := OnCancel(st.(depth := st.depth + 1), id);
            SubmitOk(st2, Resubmit(st.b, id, px, qty)) &&
            Replace(st, id, px, qty) == PublishTop(OnSubmit(st2, Resubmit(st.b, id, px, qty)).(depth := st.depth))
  {
    var o := OrderOf(st.b, id);
  }

  // ----- repricing in place

  lemma MarkFrame(st: State, b: Book, k: nat, s: Side, px: nat)
    ensures MarkTop(st.(b := b, depth := k), s, px) == MarkTop(st, s, px).(b := b, depth := k)
  {
  }

  /** Generations matter to no top. */
  lemma PublishFrame(st: State, b: Book, gens: seq<nat>)
    requires |gens| == |b.gens|
    ensures var a, c := PublishTop(st.(b := b.(gens := gens))), PublishTop(st.(b := b));
            SameBook(a.b, c.b) && c == a.(b := c.b)
  {
    assert TopOf(b.(gens := gens)) == TopOf(b);
  }

  /** Submitting an order that trades with nothing, with the top suppressed, only rests it. */
  lemma SubmitRests(st: State, m: Submit)
    requires Wf(st.b) && SubmitOk(st, m) && m.t.Gtc? && st.depth > 0 && !Full(st) && NextPrice(st, m).None?
    ensures OnSubmit(st, m) ==
            MarkTop(st.(b := AddOrder(st.b, Order(m.id, m.qty, m.px, m.s, m.t, m.account))), m.s, m.px)
  {
    assert Match(st, m, m.qty) == Progress(st, m.qty, false);
  }

  lemma CancelledNotFull(st: State, id: nat)
    requires Wf(st.b) && id in st.b.idx
    ensures st.b.idx[id].slot < |st.b.gens| && !Full(st.(b := CancelOrder(st.b, id)))
  {
    var p, k := st.b.idx[id], Position(st.b, id);
    SlotFacts(st.b, p.s, p.px, k);
    RemoveNodeWf(st.b, p.s, p.px, k);
  }

  lemma RelinkBook(b: Book, id: nat, px: nat, qty: nat)
    requires Wf(b) && id in b.idx && qty > 0 && px < b.Ticks() && CancelOrder(b, id).free != []
    ensures var o := OrderOf(b, id).(px := px, remaining := qty);
            RelinkOrder(b, id, px, qty) == AddOrder(CancelOrder(b, id), o).(gens := b.gens)
  {
    RelinkIsRemoveThenAdd(b, b.idx[id].s, b.idx[id].px, Position(b, id), OrderOf(b, id).(px := px, remaining := qty));
  }

  lemma RelinkIs(st: State, id: nat, px: nat, qty: nat)
    requires Wf(st.b) && id in st.b.idx && px < st.b.Ticks() && qty > 0
    ensures var p := st.b.idx[id];
            Relink(st, id, px, qty) == MarkTop(MarkTop(st, p.s, p.px), p.s, px).(b := RelinkOrder(st.b, id, px, qty))
  {
    var p := st.b.idx[id];
    MarkFrame(st, RelinkOrder(st.b, id, px, qty), st.depth, p.s, p.px);
    MarkFrame(MarkTop(st, p.s, p.px), RelinkOrder(st.b, id, px, qty), st.depth, p.s, px);
  }

  lemma Resubmitted(st: State, id: nat, px: nat, qty: nat)
    requires Wf(st.b) && id in st.b.idx && px < st.b.Ticks() && 1 <= qty <= st.cfg.maxOrderQty && ValidId(id)
    requires OrderOf(st.b, id).t.Gtc? && !WouldCross(st, st.b.idx[id].s, px)
    ensures CancelOrder(st.b, id).free != []
    ensures var p := st.b.idx[id];
            var o := OrderOf(st.b, id).(px := px, remaining := qty);
            OnSubmit(OnCancel(st.(depth := st.depth + 1), id), Resubmit(st.b, id, px, qty)) ==
            MarkTop(MarkTop(st, p.s, p.px), p.s, px).(b := AddOrder(CancelOrder(st.b, id), o), depth := st.depth + 1)
  {
    var p, m := st.b.idx[id], Resubmit(st.b, id, px, qty);
    CancelledNotFull(st, id);
    var mid := CancelOrder(st.b, id);
    var st1 := st.(depth := st.depth + 1);
    var st2 := MarkTop(st1.(b := mid), p.s, p.px);
    assert OnCancel(st1, id) == st2;
    MarkFrame(st, mid, st.depth + 1, p.s, p.px);
    SubmitRests(st2, m);
    MarkFrame(MarkTop(st, p.s, p.px), AddOrder(mid, Order(id, qty, px, m.s, m.t, m.account)), st.depth + 1, p.s, px);
  }

  lemma Replaced(st: State, id: nat, px: nat, qty: nat, x: State) returns (b: Book)
    requires Wf(st.b) && id in st.b.idx && px < st.b.Ticks() && 1 <= qty <= st.cfg.maxOrderQty && ValidId(id)
    requires OrderOf(st.b, id).t.Gtc? && !WouldCross(st, st.b.idx[id].s, px)
    requires x == MarkTop(MarkTop(st, st.b.idx[id].s, st.b.idx[id].px), st.b.idx[id].s, px)
    ensures Replace(st, id, px, qty) == PublishTop(x.(b := b))
    ensures RelinkOrder(st.b, id, px, qty) == b.(gens := st.b.gens) && |b.gens| == |st.b.gens|
  {
    ReplaceIs(st, id, px, qty);
    Resubmitted(st, id, px, qty);
    RelinkBook(st.b, id, px, qty);
    b := AddOrder(CancelOrder(st.b, id), OrderOf(st.b, id).(px := px, remaining := qty));
    assert x.depth == st.depth;
  }

  /** Repricing in place is cancelling and resubmitting with the top suppressed, when the new price
      does not cross: the same book but for a generation, the same stamps, the same events. Ids may repeat. */
  lemma RelinkIsReplace(st: State, id: nat, px: nat, qty: nat)
    requires Wf(st.b) && id in st.b.idx && px < st.b.Ticks() && 1 <= qty <= st.cfg.maxOrderQty && ValidId(id)
    requires OrderOf(st.b, id).t.Gtc? && !WouldCross(st, st.b.idx[id].s, px)
    ensures var a, c := PublishTop(Relink(st, id, px, qty)), Replace(st, id, px, qty);
            SameBook(a.b, c.b) && c == a.(b := c.b)
  {
    var p := st.b.idx[id];
    var x := MarkTop(MarkTop(st, p.s, p.px), p.s, px);
    var b := Replaced(st, id, px, qty, x);
    RelinkIs(st, id, px, qty);
    PublishFrame(x, b, st.b.gens);
  }
}
