/** Order handles: a slot and its generation name an order without the index. What a handle finds, and
    which handle the order of each id has after every command of the engine that looks orders up by id. */
module Handles {
  import opened Types
  import opened Ladders
  import opened Books
  import opened EngineSpec
  import opened Invariants
  import opened Repricing
  import opened Stores

  datatype Handle = Handle(slot: nat, generation: nat)

  /** What no order has. */
  const EMPTY := Handle(0, 0)

  // ----- finding an order by its slot

  function FindSlot(l: Ladder, slot: nat, from: nat): (r: Option<nat>)
    requires from <= |l|
    ensures r.Some? ==> from <= r.value < |l| && IndexOf(l[r.value], slot) < |l[r.value]|
    ensures r.None? ==> forall px | from <= px < |l| :: IndexOf(l[px], slot) == |l[px]|
    decreases |l| - from
  {
    if from == |l| then None
    else if IndexOf(l[from], slot) < |l[from]| then Some(from)
    else FindSlot(l, slot, from + 1)
  }

  function Locate(b: Book, slot: nat): (r: Option<Ptr>)
    ensures r.Some? ==>
              var f := b.Of(r.value.s);
              && r.value.px < |f| && IndexOf(f[r.value.px], slot) < |f[r.value.px]|
              && r.value.slot == slot
  {
    var bid, ask := FindSlot(b.bids, slot, 0), FindSlot(b.asks, slot, 0);
    if bid.Some? then Some(Ptr(Bid, bid.value, slot)) else if ask.Some? then Some(Ptr(Ask, ask.value, slot)) else None
  }

  /** The order a handle names, confirmed by id. */
  function Resolve(b: Book, h: Handle, id: nat): Option<Ptr> {
    if h.slot >= |b.gens| || h.generation % 2 == 0 || b.gens[h.slot] != h.generation then None else
    var p := Locate(b, h.slot);
    if p.Some? && (var f := b.Of(p.value.s)[p.value.px]; f[IndexOf(f, h.slot)].o.id == id) then p else None
  }

  /** The handle of the order that id names. */
  function HandleOf(b: Book, id: nat): Handle
    requires Wf(b) && id in b.idx
  {
    var p, k := b.idx[id], Position(b, id);
    SlotFacts(b, p.s, p.px, k);
    Handle(p.slot, b.gens[p.slot])
  }

  /** A generation is odd exactly while its slot holds an order. */
  predicate Parity(b: Book) {
    forall slot | 0 <= slot < |b.gens| :: b.gens[slot] % 2 == if slot in b.free then 0 else 1
  }

  /** A slot is linked in one place only. */
  lemma OnePlace(b: Book, s: Side, px: nat, s': Side, px': nat, slot: nat)
    requires Wf(b) && px < |b.Of(s)| && px' < |b.Of(s')|
    requires IndexOf(b.Of(s)[px], slot) < |b.Of(s)[px]| && IndexOf(b.Of(s')[px'], slot) < |b.Of(s')[px']|
    ensures s == s' && px == px'
  {
    var f, f' := b.Of(s)[px], b.Of(s')[px'];
    assert Once(b, slot);
    InFifoRemove(f, IndexOf(f, slot), slot);
    InFifoRemove(f', IndexOf(f', slot), slot);
    LinkedAtLeast(b.Of(s), px, slot);
    LinkedAtLeast(b.Of(s'), px', slot);
    if s == s' && px != px' {
      LinkedTwice(b.Of(s), px, px', slot);
    }
  }

  /** A handle finds p exactly when its slot rests there under that id and its generation is the slot's:
      stale, empty and forged handles reach nothing, whether ids repeat or not. */
  lemma ResolveExact(b: Book, h: Handle, id: nat, p: Ptr)
    requires Wf(b) && Parity(b)
    ensures Resolve(b, h, id) == Some(p) <==>
              && PtrOk(b, id, p) && p.slot == h.slot
              && h.slot < |b.gens| && b.gens[h.slot] == h.generation
  {
    if PtrOk(b, id, p) && p.slot == h.slot && h.slot < |b.gens| && b.gens[h.slot] == h.generation {
      var f := b.Of(p.s)[p.px];
      SlotFacts(b, p.s, p.px, IndexOf(f, h.slot));
      assert b.gens[h.slot] % 2 == 1;
      var q := Locate(b, h.slot);
      assert q.Some?;
      OnePlace(b, p.s, p.px, q.value.s, q.value.px, h.slot);
    }
  }

  /** Where every order has its own id, that is the current handle of the order that id names. */
  lemma ResolveNamed(b: Book, h: Handle, id: nat)
    requires Wf(b) && Unique(b) && Parity(b)
    ensures Resolve(b, h, id) == if id in b.idx && h == HandleOf(b, id) then Some(b.idx[id]) else None
  {
    if Resolve(b, h, id).Some? {
      var p := Resolve(b, h, id).value;
      assert NamedAt(b, p.s, p.px, IndexOf(b.Of(p.s)[p.px], h.slot));
    }
    if id in b.idx && h == HandleOf(b, id) {
      assert PtrOk(b, id, b.idx[id]);
      SlotFacts(b, b.idx[id].s, b.idx[id].px, Position(b, id));
      ResolveExact(b, h, id, b.idx[id]);
    }
  }

  // ----- what the changes of the book do to handles

  /** Apart from the orders whose ids are in x, every order that b still holds has the handle it had
      in a; and generations keep their parity. */
  ghost predicate Carries(a: Book, b: Book, x: set<nat>) {
    && (Parity(a) ==> Parity(b))
    && Wf(a) && Wf(b)
    && forall id | id in b.idx && id !in x :: id in a.idx && HandleOf(b, id) == HandleOf(a, id)
  }

  lemma CarriesOn(a: Book, b: Book, c: Book, x: set<nat>)
    requires Carries(a, b, x) && Carries(b, c, x)
    ensures Carries(a, c, x)
  {
  }

  lemma CarriesMore(a: Book, b: Book, x: set<nat>, y: set<nat>)
    requires Carries(a, b, x) && x <= y
    ensures Carries(a, b, y)
  {
  }

  lemma BumpParity(g: nat)
    ensures ((g + 1) % GENERATIONS) % 2 == 1 - g % 2
  {
    assert GENERATIONS == 2 * 0x8000_0000;
    var q := (g + 1) / GENERATIONS;
    assert g + 1 == GENERATIONS * q + (g + 1) % GENERATIONS;
    assert g + 1 == 2 * (0x8000_0000 * q) + (g + 1) % GENERATIONS;
  }

  lemma RemoveParity(b: Book, s: Side, px: nat, k: nat)
    requires Wf(b) && Parity(b) && px < b.Ticks() && k < |b.Of(s)[px]| && b.Of(s)[px][k].slot < |b.gens|
    ensures Parity(RemoveNode(b, s, px, k))
  {
    SlotFacts(b, s, px, k);
    BumpParity(b.gens[b.Of(s)[px][k].slot]);
  }

  lemma RemoveCarries(b: Book, s: Side, px: nat, k: nat)
    requires Wf(b) && Unique(b) && px < b.Ticks() && k < |b.Of(s)[px]|
    ensures b.Of(s)[px][k].slot < |b.gens| && Carries(b, RemoveNode(b, s, px, k), {})
  {
    RemoveNodeWf(b, s, px, k);
    var n, r := b.Of(s)[px][k], RemoveNode(b, s, px, k);
    if Parity(b) {
      RemoveParity(b, s, px, k);
    }
    assert NamedAt(b, s, px, k);
    forall id | id in r.idx ensures id in b.idx && HandleOf(r, id) == HandleOf(b, id) {
      assert r.idx[id] == b.idx[id] && id != n.o.id;
      assert b.idx[id].slot != n.slot by {
        if b.idx[id].slot == n.slot {
          EntrySlots(b, id, n.o.id);
        }
      }
      var p := b.idx[id];
      SlotFacts(b, p.s, p.px, Position(b, id));
    }
  }

  lemma SetCarries(b: Book, s: Side, px: nat, k: nat, o: Order)
    requires Wf(b) && px < b.Ticks() && k < |b.Of(s)[px]|
    requires o.s == s && o.px == px && o.remaining > 0 && o.id == b.Of(s)[px][k].o.id
    ensures Carries(b, SetNode(b, s, px, k, o), {})
  {
    SetNodeWf(b, s, px, k, o);
  }

  lemma AddParity(b: Book, o: Order)
    requires Wf(b) && Parity(b) && o.px < b.Ticks() && b.free != [] && b.free[0] < |b.gens|
    ensures Parity(AddNode(b, o))
  {
    var r, slot := AddNode(b, o), b.free[0];
    BumpParity(b.gens[slot]);
    FreeOnce(b);
    forall x | 0 <= x < |r.gens| ensures r.gens[x] % 2 == if x in r.free then 0 else 1 {
      assert x in b.free <==> x == slot || x in b.free[1..];
    }
  }

  lemma FreeOnce(b: Book)
    requires Partition(b) && b.free != []
    ensures b.free[0] !in b.free[1..]
  {
    assert Once(b, b.free[0]);
    assert b.free == [b.free[0]] + b.free[1..];
    assert multiset(b.free)[b.free[0]] == 1 + multiset(b.free[1..])[b.free[0]];
    assert b.free[0] in b.free[1..] <==> b.free[0] in multiset(b.free[1..]);
  }

  lemma AddCarries(b: Book, o: Order)
    requires Wf(b) && o.px < b.Ticks() && o.remaining > 0 && ValidId(o.id) && b.free != []
    ensures b.free[0] < |b.gens| && Carries(b, AddOrder(b, o), {o.id})
    ensures o.id in AddOrder(b, o).idx
    ensures HandleOf(AddOrder(b, o), o.id) == Handle(b.free[0], (b.gens[b.free[0]] + 1) % GENERATIONS)
  {
    AddNodeWf(b, o);
    var r := AddOrder(b, o);
    if Parity(b) {
      AddParity(b, o);
    }
    forall id | id in r.idx && id != o.id ensures id in b.idx && HandleOf(r, id) == HandleOf(b, id) {
      var p, k := b.idx[id], Position(b, id);
      SlotFacts(b, p.s, p.px, k);
    }
  }

  lemma RenameCarries(b: Book, id: nat, newId: nat)
    requires Wf(b) && id in b.idx && ValidId(newId)
    ensures Carries(b, RenameOrder(b, id, newId), {newId})
            && HandleOf(RenameOrder(b, id, newId), newId) == HandleOf(b, id)
  {
  }

  lemma RelinkCarries(b: Book, id: nat, px: nat, qty: nat)
    requires Wf(b) && id in b.idx && qty > 0 && px < b.Ticks()
    ensures Carries(b, RelinkOrder(b, id, px, qty), {})
  {
  }

  lemma ReduceCarries(b: Book, s: Side, px: nat, q: nat)
    requires Wf(b) && Unique(b) && Reducible(b, s, px, q)
    ensures Carries(b, ReduceFront(b, s, px, q), {})
  {
    var o := b.Of(s)[px][0].o;
    assert PlacedAt(s, b.Of(s), px, 0);
    if o.remaining == q {
      RemoveCarries(b, s, px, 0);
    } else {
      SetCarries(b, s, px, 0, o.(remaining := o.remaining - q));
    }
  }

  // ----- what the commands do to handles

  lemma {:induction false} MatchCarries(st: State, m: Submit, rem: nat)
    requires Inv(st)
    ensures Carries(st.b, Match(st, m, rem).st.b, {})
    decreases rem, Count(st.b.Of(Opposite(m.s)))
  {
    if rem > 0 && NextPrice(st, m).Some? {
      var px := NextPrice(st, m).value;
      var q := MatchFrontBook(st, m, px, rem);
      MatchFrontInv(st, m, px, rem, true);
      MatchFrontShrinks(st, m, px, rem);
      var r := MatchFront(st, m, px, rem);
      if !r.aborted {
        ReduceCarries(st.b, Opposite(m.s), px, q);
        MatchCarries(r.st, m, r.rem);
        CarriesOn(st.b, r.st.b, Match(st, m, rem).st.b, {});
      }
    }
  }

  /** The order, or what is left of it, comes to rest. */
  predicate Rests(st: State, m: Submit)
    requires Wf(st.b)
  {
    var p := Match(st, m, m.qty);
    !(m.t.Fok? && !CanFill(st, m)) && p.rem > 0 && m.t.Gtc? && !Full(p.st)
  }

  /** What a submit returns: the slot it was given and that slot's new generation, or nothing. */
  function SubmitReturn(st: State, m: Submit): Handle
    requires Wf(st.b)
  {
    var b := Match(st, m, m.qty).st.b;
    if Rests(st, m) && b.free[0] < |b.gens| then Handle(b.free[0], (b.gens[b.free[0]] + 1) % GENERATIONS) else EMPTY
  }

  /** The order of id has come to rest in b under handle h; every other order keeps the handle it had. */
  ghost predicate Lands(a: Book, b: Book, id: nat, h: Handle) {
    Carries(a, b, {id}) && id in b.idx && HandleOf(b, id) == h
  }

  lemma RestCarries(b: Book, p: Book, o: Order)
    requires Carries(b, p, {}) && o.px < p.Ticks() && o.remaining > 0 && ValidId(o.id) && p.free != []
    ensures p.free[0] < |p.gens|
    ensures Lands(b, AddOrder(p, o), o.id, Handle(p.free[0], (p.gens[p.free[0]] + 1) % GENERATIONS))
  {
    AddCarries(p, o);
    CarriesMore(b, p, {}, {o.id});
    CarriesOn(b, p, AddOrder(p, o), {o.id});
  }

  lemma ReturnRests(st: State, m: Submit)
    requires Wf(st.b) && Rests(st, m)
    ensures var b := Match(st, m, m.qty).st.b;
            b.free != [] && b.free[0] < |b.gens| &&
            SubmitReturn(st, m) == Handle(b.free[0], (b.gens[b.free[0]] + 1) % GENERATIONS)
  {
    var b := Match(st, m, m.qty).st.b;
    assert b.free[0] in multiset(b.free) && Once(b, b.free[0]);
  }

  /** The book p that matching leaves, and the order o that is then linked in it. */
  lemma SubmitParts(st: State, m: Submit) returns (p: Book, o: Order)
    requires Inv(st) && SubmitOk(st, m) && Rests(st, m)
    ensures Wf(p) && o.px < p.Ticks() && o.remaining > 0 && ValidId(o.id) && o.id == m.id && p.free != []
    ensures p == Match(st, m, m.qty).st.b && p.free[0] < |p.gens|
    ensures OnSubmit(st, m).b == AddOrder(p, o)
    ensures SubmitReturn(st, m) == Handle(p.free[0], (p.gens[p.free[0]] + 1) % GENERATIONS)
  {
    var r := Match(st, m, m.qty);
    p, o := r.st.b, Order(m.id, r.rem, m.px, m.s, m.t, m.account);
    SubmitBook(st, m);
    ReturnRests(st, m);
  }

  lemma SubmitRests(st: State, m: Submit)
    requires Inv(st) && SubmitOk(st, m) && m.id !in st.b.idx && Rests(st, m)
    ensures Lands(st.b, OnSubmit(st, m).b, m.id, SubmitReturn(st, m))
  {
    var p, o := SubmitParts(st, m);
    assert Carries(st.b, p, {}) by {
      MatchCarries(st, m, m.qty);
    }
    RestCarries(st.b, p, o);
  }

  lemma SubmitPasses(st: State, m: Submit)
    requires Inv(st) && SubmitOk(st, m) && m.id !in st.b.idx && !Rests(st, m)
    ensures var r := OnSubmit(st, m); Carries(st.b, r.b, {m.id}) && m.id !in r.b.idx
  {
    SubmitBook(st, m);
    MatchCarries(st, m, m.qty);
    MatchIdx(st, m, m.qty);
    CarriesMore(st.b, Match(st, m, m.qty).st.b, {}, {m.id});
  }

  lemma SubmitCarries(st: State, m: Submit)
    requires Inv(st) && SubmitOk(st, m) && m.id !in st.b.idx
    ensures var r := OnSubmit(st, m);
            && Carries(st.b, r.b, {m.id}) && (m.id in r.b.idx <==> Rests(st, m))
            && (m.id in r.b.idx ==> HandleOf(r.b, m.id) == SubmitReturn(st, m))
  {
    if Rests(st, m) {
      SubmitRests(st, m);
    } else {
      SubmitPasses(st, m);
    }
  }

  lemma CancelCarries(st: State, id: nat)
    requires Inv(st)
    ensures Carries(st.b, OnCancel(st, id).b, {})
  {
    if id in st.b.idx {
      RemoveCarries(st.b, st.b.idx[id].s, st.b.idx[id].px, Position(st.b, id));
    }
  }

  lemma ReplaceCarries(st: State, id: nat, px: nat, qty: nat)
    requires Inv(st) && id in st.b.idx && px < st.b.Ticks() && 1 <= qty <= st.cfg.maxOrderQty && ValidId(id)
    ensures var r := Replace(st, id, px, qty);
            var st2, m := OnCancel(st.(depth := st.depth + 1), id), Resubmit(st.b, id, px, qty);
            && Carries(st.b, r.b, {id})
            && (id in r.b.idx ==> HandleOf(r.b, id) == SubmitReturn(st2, m))
  {
    ReplaceIs(st, id, px, qty);
    var st1 := st.(depth := st.depth + 1);
    CancelCarries(st1, id);
    CancelInv(st1, id, true);
    var st2, m := OnCancel(st1, id), Resubmit(st.b, id, px, qty);
    SubmitCarries(st2, m);
    CarriesMore(st.b, st2.b, {}, {id});
    CarriesOn(st.b, st2.b, OnSubmit(st2, m).b, {id});
  }

  /** What a modify that found its order by handle h returns: that handle, or the one of the resubmit. */
  function RepriceReturn(st: State, m: Modify, h: Handle): Handle
    requires Wf(st.b) && ModifyOk(st, m) && EffectiveId(m) in st.b.idx
  {
    var id := EffectiveId(m);
    var o := OrderOf(st.b, id);
    if m.newPx == o.px || !WouldCross(st, o.s, m.newPx) then h else
    SubmitReturn(OnCancel(st.(depth := st.depth + 1), id), Resubmit(st.b, id, m.newPx, m.newQty))
  }

  function ModifyReturn(st: State, m: Modify, h: Handle): Handle
    requires Wf(st.b) && ModifyOk(st, m) && m.id in st.b.idx
  {
    RepriceReturn(Rename(st, m), m, h)
  }

  lemma ResizeCarries(b: Book, id: nat, qty: nat)
    requires Wf(b) && id in b.idx && qty > 0
    ensures Carries(b, ResizeOrder(b, id, qty), {}) && id in ResizeOrder(b, id, qty).idx
  {
    var o := OrderOf(b, id);
    SetCarries(b, o.s, o.px, Position(b, id), o.(remaining := qty));
  }

  /** A modify that does not cross leaves the order its handle. */
  lemma InPlaceCarries(st: State, m: Modify)
    requires Wf(st.b) && ModifyOk(st, m) && EffectiveId(m) in st.b.idx
    requires var o := OrderOf(st.b, EffectiveId(m)); m.newPx == o.px || !WouldCross(st, o.s, m.newPx)
    ensures var r, id := Reprice(st, m), EffectiveId(m);
            Carries(st.b, r.b, {}) && id in r.b.idx && HandleOf(r.b, id) == HandleOf(st.b, id)
  {
    var id := EffectiveId(m);
    var o := OrderOf(st.b, id);
    if m.newPx == o.px && m.newQty == o.remaining {
      RepriceKeeps(st, m);
    } else if m.newPx == o.px {
      ResizeCarries(st.b, id, m.newQty);
      RepriceResizes(st, m);
    } else {
      RelinkCarries(st.b, id, m.newPx, m.newQty);
      RepriceRelinks(st, m);
    }
  }

  lemma RepriceCarries(st: State, m: Modify)
    requires Inv(st) && ModifyOk(st, m) && EffectiveId(m) in st.b.idx
    ensures var r, id := Reprice(st, m), EffectiveId(m);
            Carries(st.b, r.b, {id})
                && (id in r.b.idx ==> HandleOf(r.b, id) == RepriceReturn(st, m, HandleOf(st.b, id)))
  {
    var r, id := Reprice(st, m), EffectiveId(m);
    var o := OrderOf(st.b, id);
    if m.newPx == o.px || !WouldCross(st, o.s, m.newPx) {
      InPlaceCarries(st, m);
      CarriesMore(st.b, r.b, {}, {id});
    } else {
      ReplaceCarries(st, id, m.newPx, m.newQty);
      RepriceReplaces(st, m);
    }
  }

  lemma ModifyCarries(st: State, m: Modify)
    requires Inv(st) && ModifyOk(st, m) && m.id in st.b.idx && Fresh(st, CmdModify(m))
    ensures var r, id := OnModify(st, m), EffectiveId(m);
            && Carries(st.b, r.b, {id})
            && (id in r.b.idx ==> HandleOf(r.b, id) == ModifyReturn(st, m, HandleOf(st.b, m.id)))
  {
    var mid, id := Rename(st, m), EffectiveId(m);
    if id != m.id {
      RenameCarries(st.b, m.id, m.newId);
      RenameInv(st.b, m.id, m.newId, st.cfg.maxOrderQty, true);
    }
    assert Carries(st.b, mid.b, {id}) && HandleOf(mid.b, id) == HandleOf(st.b, m.id);
    RepriceCarries(mid, m);
    CarriesOn(st.b, mid.b, OnModify(st, m).b, {id});
  }
}
