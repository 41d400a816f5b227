/** The engine that issues handles. It keeps no index: a cancel or modify reaches its order through the
    handle it carries. Driven by the latest handle of each order it does what the engine with the
    index does. */
module HandleEngine {
  import opened Types
  import opened Ladders
  import opened Books
  import opened EngineSpec
  import opened Invariants
  import opened Repricing
  import opened Handles

  // ----- books without an index

  /** No order is indexed. */
  predicate Bare(b: Book) {
    b.idx == map[]
  }

  function Strip(b: Book): (r: Book)
    ensures Bare(r)
  {
    b.(idx := map[])
  }

  lemma StripWf(b: Book)
    requires Wf(b)
    ensures Wf(Strip(b))
  {
    PartitionSame(b, Strip(b));
  }

  /** Link a new order; nothing is indexed. */
  function Link(b: Book, o: Order): (r: Book)
    requires Wf(b) && Bare(b) && o.px < b.Ticks() && o.remaining > 0 && ValidId(o.id) && b.free != []
    ensures Wf(r) && Bare(r) && SameShape(b, r)
  {
    StripWf(AddOrder(b, o));
    AddOrder(b, o).(idx := b.idx)
  }

  /** The resolved order as it stands in the book. */
  predicate Found(b: Book, p: Ptr) {
    p.px < |b.Of(p.s)| && IndexOf(b.Of(p.s)[p.px], p.slot) < |b.Of(p.s)[p.px]|
  }

  function OrderAt(b: Book, p: Ptr): Order
    requires Wf(b) && Found(b, p)
  {
    b.Of(p.s)[p.px][IndexOf(b.Of(p.s)[p.px], p.slot)].o
  }

  function Unlink(b: Book, p: Ptr): (r: Book)
    requires Wf(b) && Bare(b) && Found(b, p)
    ensures Wf(r) && Bare(r) && SameShape(b, r)
  {
    RemoveNodeWf(b, p.s, p.px, IndexOf(b.Of(p.s)[p.px], p.slot));
    RemoveNode(b, p.s, p.px, IndexOf(b.Of(p.s)[p.px], p.slot))
  }

  /** Rewrite the order where it stands, under another id perhaps. */
  function Rewrite(b: Book, p: Ptr, id: nat, qty: nat): (r: Book)
    requires Wf(b) && Bare(b) && Found(b, p) && ValidId(id) && qty > 0
    ensures Wf(r) && Bare(r) && SameShape(b, r) && Found(r, p)
            && OrderAt(r, p) == OrderAt(b, p).(id := id, remaining := qty)
  {
    var k := IndexOf(b.Of(p.s)[p.px], p.slot);
    RewriteWf(b, p, id, qty);
    SetNode(b, p.s, p.px, k, OrderAt(b, p).(id := id, remaining := qty))
  }

  lemma RewriteWf(b: Book, p: Ptr, id: nat, qty: nat)
    requires Wf(b) && Bare(b) && Found(b, p) && ValidId(id) && qty > 0
    ensures var k := IndexOf(b.Of(p.s)[p.px], p.slot);
            var r := SetNode(b, p.s, p.px, k, OrderAt(b, p).(id := id, remaining := qty));
            Wf(r) && IndexOf(r.Of(p.s)[p.px], p.slot) == k
  {
    var f := b.Of(p.s)[p.px];
    var k := IndexOf(f, p.slot);
    var o := OrderAt(b, p).(id := id, remaining := qty);
    assert PlacedAt(p.s, b.Of(p.s), p.px, k);
    PlacedLevel(p.s, b.Of(p.s), p.px, f[k := Node(f[k].slot, o)]);
    SetPartition(b, p.s, p.px, k, o);
    IndexOfFirst(f[k := Node(f[k].slot, o)], k, p.slot);
  }

  function Move(b: Book, p: Ptr, px: nat, qty: nat): (r: Book)
    requires Wf(b) && Bare(b) && Found(b, p) && px < b.Ticks() && qty > 0
    ensures Wf(r) && Bare(r) && SameShape(b, r)
  {
    var k := IndexOf(b.Of(p.s)[p.px], p.slot);
    var o := OrderAt(b, p).(px := px, remaining := qty);
    assert PlacedAt(p.s, b.Of(p.s), p.px, k);
    RelinkNodeWf(b, p.s, p.px, k, o);
    StripWf(RelinkNode(b, p.s, p.px, k, o));
    RelinkNode(b, p.s, p.px, k, o).(idx := b.idx)
  }

  // ----- commands

  /** Matching a bare book leaves it bare. */
  lemma {:induction false} MatchBare(st: State, m: Submit, rem: nat)
    requires Wf(st.b) && Bare(st.b)
    ensures Bare(Match(st, m, rem).st.b)
  {
    MatchIdx(st, m, rem);
    assert Match(st, m, rem).st.b.idx.Keys == {};
  }

  function OnSubmit(st: State, m: Submit): (r: (State, Handle))
    requires Wf(st.b) && Bare(st.b) && SubmitOk(st, m)
    ensures Wf(r.0.b) && Bare(r.0.b) && SameShell(st, r.0)
  {
    if m.t.Fok? && !CanFill(st, m) then (PublishTop(st), EMPTY) else
    var p := Match(st, m, m.qty);
    MatchBare(st, m, m.qty);
    if p.rem == 0 || !m.t.Gtc? then (PublishTop(p.st), EMPTY) else
    var (st1, h) := Rest(p.st, m, p.rem);
    (PublishTop(st1), h)
  }

  /** Link what is left of the order and hand out its handle, or publish its loss. */
  function Rest(st: State, m: Submit, rem: nat): (r: (State, Handle))
    requires Wf(st.b) && Bare(st.b) && m.px < st.b.Ticks() && rem > 0 && ValidId(m.id)
    ensures Wf(r.0.b) && Bare(r.0.b) && SameFrame(st, r.0)
  {
    var n := st.seqNo + 1;
    if st.b.free == [] then
      (st.(seqNo := n, events := st.events + [Reject(m.id, m.account, m.px, rem, n)]), EMPTY)
    else
      var b := Link(st.b, Order(m.id, rem, m.px, m.s, m.t, m.account));
      AddNodeWf(st.b, Order(m.id, rem, m.px, m.s, m.t, m.account));
      (MarkTop(st.(b := b), m.s, m.px), Handle(st.b.free[0], b.gens[st.b.free[0]]))
  }

  lemma ResolveFound(b: Book, h: Handle, id: nat)
    requires Wf(b) && Resolve(b, h, id).Some?
    ensures Found(b, Resolve(b, h, id).value) && OrderAt(b, Resolve(b, h, id).value).id == id
  {
  }

  function OnCancel(st: State, id: nat, h: Handle): (r: State)
    requires Wf(st.b) && Bare(st.b)
    ensures Wf(r.b) && Bare(r.b) && SameShell(st, r)
  {
    var p := Resolve(st.b, h, id);
    if p.None? then st else
    ResolveFound(st.b, h, id);
    PublishTop(MarkTop(st.(b := Unlink(st.b, p.value)), p.value.s, p.value.px))
  }

  /** Cancel by the handle and the id the order carries by now, then submit anew, with one coalesced top. */
  function Replace(st: State, o: Order, h: Handle, px: nat, qty: nat): (r: (State, Handle))
    requires Wf(st.b) && Bare(st.b) && px < st.b.Ticks() && 1 <= qty <= st.cfg.maxOrderQty && ValidId(o.id)
    ensures Wf(r.0.b) && Bare(r.0.b) && SameShell(st, r.0)
  {
    var st1 := OnCancel(st.(depth := st.depth + 1), o.id, h);
    var (st2, h2) := OnSubmit(st1, Submit(o.id, px, qty, o.s, o.t, o.account));
    (PublishTop(st2.(depth := st.depth)), h2)
  }

  function OnModify(st: State, m: Modify, h: Handle): (r: (State, Handle))
    requires Wf(st.b) && Bare(st.b) && ModifyOk(st, m)
    ensures Wf(r.0.b) && Bare(r.0.b) && SameShell(st, r.0)
  {
    var f := Resolve(st.b, h, m.id);
    if f.None? then (st, EMPTY) else
    ResolveFound(st.b, h, m.id);
    var p := f.value;
    FoundOrder(st.b, p);
    var st1 := if EffectiveId(m) == m.id then st else st.(b := Rewrite(st.b, p, m.newId, OrderAt(st.b, p).remaining));
    Reprice(st1, p, m, h)
  }

  lemma FoundOrder(b: Book, p: Ptr)
    requires Wf(b) && Found(b, p)
    ensures var o := OrderAt(b, p); o.remaining > 0 && ValidId(o.id) && o.s == p.s && o.px == p.px
  {
    assert PlacedAt(p.s, b.Of(p.s), p.px, IndexOf(b.Of(p.s)[p.px], p.slot));
  }

  function Resize(st: State, p: Ptr, qty: nat): (r: State)
    requires Wf(st.b) && Bare(st.b) && Found(st.b, p) && qty > 0
    ensures Wf(r.b) && Bare(r.b) && SameShell(st, r)
  {
    FoundOrder(st.b, p);
    PublishTop(MarkTop(st.(b := Rewrite(st.b, p, OrderAt(st.b, p).id, qty)), p.s, p.px))
  }

  function Relink(st: State, p: Ptr, px: nat, qty: nat): (r: State)
    requires Wf(st.b) && Bare(st.b) && Found(st.b, p) && qty > 0 && px < st.b.Ticks()
    ensures Wf(r.b) && Bare(r.b) && SameShell(st, r)
  {
    PublishTop(MarkTop(MarkTop(st.(b := Move(st.b, p, px, qty)), p.s, p.px), p.s, px))
  }

  /** What a modify does to the order it found, once it carries its new id. */
  function Reprice(st: State, p: Ptr, m: Modify, h: Handle): (r: (State, Handle))
    requires Wf(st.b) && Bare(st.b) && ModifyOk(st, m) && Found(st.b, p)
    ensures Wf(r.0.b) && Bare(r.0.b) && SameShell(st, r.0)
  {
    var o := OrderAt(st.b, p);
    FoundOrder(st.b, p);
    if m.newPx == o.px then
      if m.newQty == o.remaining then (st, h)
      else (Resize(st, p, m.newQty), h)
    else if !WouldCross(st, o.s, m.newPx) then
      (Relink(st, p, m.newPx, m.newQty), h)
    else
      Replace(st, o, h, m.newPx, m.newQty)
  }

  lemma RepriceCrosses(st: State, p: Ptr, m: Modify, h: Handle)
    requires Wf(st.b) && Bare(st.b) && ModifyOk(st, m) && Found(st.b, p)
    requires var o := OrderAt(st.b, p); m.newPx != o.px && WouldCross(st, o.s, m.newPx)
    ensures ValidId(OrderAt(st.b, p).id)
    ensures Reprice(st, p, m, h) == Replace(st, OrderAt(st.b, p), h, m.newPx, m.newQty)
  {
    FoundOrder(st.b, p);
  }

  // ----- a client that keeps the latest handles

  /** The engine, and the last handle a client was given under each id. */
  datatype Client = Client(st: State, table: map<nat, Handle>)
  {
    function Last(id: nat): Handle {
      if id in table then table[id] else EMPTY
    }
  }

  function Call(cl: Client, c: Command): (r: Client)
    requires Wf(cl.st.b) && Bare(cl.st.b) && CommandOk(cl.st, c)
    ensures Wf(r.st.b) && Bare(r.st.b) && SameShell(cl.st, r.st)
  {
    match c
    case CmdSubmit(m) =>
      var (st, h) := OnSubmit(cl.st, m);
      Client(st, cl.table[m.id := h])
    case CmdCancel(id) => cl.(st := OnCancel(cl.st, id, cl.Last(id)))
    case CmdModify(m) =>
      var (st, h) := OnModify(cl.st, m, cl.Last(m.id));
      Client(st, cl.table[EffectiveId(m) := h])
  }

  function CallAll(cl: Client, cs: seq<Command>): (r: Client)
    requires Wf(cl.st.b) && Bare(cl.st.b) && RunOk(cl.st, cs)
    ensures Bare(r.st.b)
    decreases |cs|
  {
    if cs == [] then cl else
    assert cs[0] in cs;
    RunTail(cl.st, Call(cl, cs[0]).st, cs);
    CallAll(Call(cl, cs[0]), cs[1..])
  }

  // ----- with and without the index

  function Stripped(st: State): State {
    st.(b := Strip(st.b))
  }

  lemma StrippedFound(b: Book, id: nat)
    requires Wf(b) && id in b.idx
    ensures Wf(Strip(b)) && Found(Strip(b), b.idx[id]) && OrderAt(Strip(b), b.idx[id]) == OrderOf(b, id)
  {
    StripWf(b);
    var k := Position(b, id);
  }

  lemma StrippedMark(st: State, s: Side, px: nat)
    ensures MarkTop(Stripped(st), s, px) == Stripped(MarkTop(st, s, px))
  {
  }

  lemma StrippedPublish(st: State)
    ensures PublishTop(Stripped(st)) == Stripped(PublishTop(st))
  {
  }

  lemma StrippedReduce(b: Book, s: Side, px: nat, q: nat)
    requires Wf(b) && Reducible(b, s, px, q)
    ensures Wf(Strip(b)) && ReduceFront(Strip(b), s, px, q) == Strip(ReduceFront(b, s, px, q))
  {
    StripWf(b);
  }

  lemma StrippedFront(st: State, m: Submit, px: nat, rem: nat)
    requires Wf(st.b) && px < st.b.Ticks() && st.b.Of(Opposite(m.s))[px] != [] && rem > 0
    ensures Wf(Strip(st.b))
    ensures var p := MatchFront(st, m, px, rem);
            MatchFront(Stripped(st), m, px, rem) == p.(st := Stripped(p.st))
  {
    StripWf(st.b);
    var t := MatchFrontIs(st, m, px, rem);
    var t' := MatchFrontIs(Stripped(st), m, px, rem);
    StrippedReduce(st.b, Opposite(m.s), px, t.q);
  }

  /** Matching does not depend on the index. */
  lemma {:induction false} StrippedMatch(st: State, m: Submit, rem: nat)
    requires Wf(st.b)
    ensures Wf(Strip(st.b))
    ensures var p := Match(st, m, rem); Match(Stripped(st), m, rem) == p.(st := Stripped(p.st))
    decreases rem, Count(st.b.Of(Opposite(m.s)))
  {
    StripWf(st.b);
    if rem > 0 && NextPrice(st, m).Some? {
      StrippedTurn(st, m, rem);
      var r := MatchFront(st, m, NextPrice(st, m).value, rem);
      if !r.aborted {
        StrippedMatch(r.st, m, r.rem);
      }
    }
  }

  lemma StrippedTurn(st: State, m: Submit, rem: nat)
    requires Wf(st.b) && rem > 0 && NextPrice(st, m).Some?
    ensures Wf(Strip(st.b))
    ensures var r := MatchFront(st, m, NextPrice(st, m).value, rem);
            && (r.aborted || r.rem < rem || (r.rem == rem
                 && Count(r.st.b.Of(Opposite(m.s))) < Count(st.b.Of(Opposite(m.s)))))
            && Match(st, m, rem) == (if r.aborted then r else Match(r.st, m, r.rem))
            && Wf(Strip(r.st.b))
            && Match(Stripped(st), m, rem) ==
               (if r.aborted then r.(st := Stripped(r.st)) else Match(Stripped(r.st), m, r.rem))
  {
    StripWf(st.b);
    var px := NextPrice(st, m).value;
    StrippedFront(st, m, px, rem);
    MatchFrontShrinks(st, m, px, rem);
    MatchOn(st, m, rem);
    MatchOn(Stripped(st), m, rem);
    StripWf(MatchFront(st, m, px, rem).st.b);
  }

  lemma StrippedRest(st: State, m: Submit, rem: nat)
    requires Wf(st.b) && m.px < st.b.Ticks() && rem > 0 && ValidId(m.id)
    ensures Wf(Strip(st.b)) && Rest(Stripped(st), m, rem).0 == Stripped(EngineSpec.Rest(st, m, rem))
    ensures st.b.free == [] ==> Rest(Stripped(st), m, rem).1 == EMPTY
    ensures st.b.free != [] ==>
              && st.b.free[0] < |st.b.gens|
              && Rest(Stripped(st), m, rem).1 == Handle(st.b.free[0], (st.b.gens[st.b.free[0]] + 1) % GENERATIONS)
  {
    StripWf(st.b);
    if st.b.free != [] {
      var o := Order(m.id, rem, m.px, m.s, m.t, m.account);
      AddNodeWf(st.b, o);
      assert Link(Strip(st.b), o) == Strip(AddOrder(st.b, o));
      StrippedMark(st.(b := AddOrder(st.b, o)), m.s, m.px);
    }
  }

  lemma SubmitMatches(st: State, m: Submit, p: Progress)
    requires Wf(st.b) && Bare(st.b) && SubmitOk(st, m) && p == Match(st, m, m.qty)
    requires !(m.t.Fok? && !CanFill(st, m))
    ensures Bare(p.st.b)
    ensures p.rem == 0 || !m.t.Gtc? ==> OnSubmit(st, m) == (PublishTop(p.st), EMPTY)
    ensures p.rem > 0 && m.t.Gtc? ==>
              var r := Rest(p.st, m, p.rem); OnSubmit(st, m) == (PublishTop(r.0), r.1)
  {
    MatchBare(st, m, m.qty);
  }

  lemma StrippedTraded(st: State, m: Submit)
    requires Wf(st.b) && SubmitOk(st, m) && !(m.t.Fok? && !CanFill(st, m))
    ensures Wf(Strip(st.b)) && OnSubmit(Stripped(st), m).0 == Stripped(EngineSpec.OnSubmit(st, m))
    ensures OnSubmit(Stripped(st), m).1 == SubmitReturn(st, m)
  {
    StripWf(st.b);
    var p := Match(st, m, m.qty);
    StrippedMatch(st, m, m.qty);
    SubmitMatches(Stripped(st), m, p.(st := Stripped(p.st)));
    if p.rem > 0 && m.t.Gtc? {
      StrippedRest(p.st, m, p.rem);
      StrippedPublish(EngineSpec.Rest(p.st, m, p.rem));
      if Rests(st, m) {
        ReturnRests(st, m);
      }
    } else {
      StrippedPublish(p.st);
    }
  }

  lemma StrippedSubmit(st: State, m: Submit)
    requires Wf(st.b) && SubmitOk(st, m)
    ensures Wf(Strip(st.b)) && OnSubmit(Stripped(st), m).0 == Stripped(EngineSpec.OnSubmit(st, m))
    ensures OnSubmit(Stripped(st), m).1 == SubmitReturn(st, m)
  {
    if m.t.Fok? && !CanFill(st, m) {
      StripWf(st.b);
      StrippedPublish(st);
    } else {
      StrippedTraded(st, m);
    }
  }

  lemma StrippedResolve(b: Book, h: Handle, id: nat)
    ensures Resolve(Strip(b), h, id) == Resolve(b, h, id)
  {
  }

  /** Sent the current handle, a cancel reaches the order that its id names, and nothing otherwise. */
  lemma StrippedCancel(st: State, id: nat, h: Handle)
    requires Inv(st) && Parity(st.b) && (id in st.b.idx ==> h == HandleOf(st.b, id))
    ensures Wf(Strip(st.b)) && OnCancel(Stripped(st), id, h) == Stripped(EngineSpec.OnCancel(st, id))
  {
    StripWf(st.b);
    StrippedResolve(st.b, h, id);
    ResolveNamed(st.b, h, id);
    if id in st.b.idx {
      var p := st.b.idx[id];
      ResolveFound(Strip(st.b), h, id);
      assert Unlink(Strip(st.b), p) == Strip(CancelOrder(st.b, id));
      StrippedMark(st.(b := CancelOrder(st.b, id)), p.s, p.px);
      StrippedPublish(HandleCancel(st, id));
    }
  }

  lemma StrippedReplace(st: State, id: nat, h: Handle, px: nat, qty: nat)
    requires Inv(st) && Parity(st.b) && id in st.b.idx && h == HandleOf(st.b, id)
    requires px < st.b.Ticks() && 1 <= qty <= st.cfg.maxOrderQty && ValidId(id)
    ensures Wf(Strip(st.b))
    ensures var r := Replace(Stripped(st), OrderOf(st.b, id), h, px, qty);
            var st2, m := EngineSpec.OnCancel(st.(depth := st.depth + 1), id), Resubmit(st.b, id, px, qty);
            && r.0 == Stripped(EngineSpec.Replace(st, id, px, qty))
            && r.1 == SubmitReturn(st2, m)
  {
    StripWf(st.b);
    ReplaceIs(st, id, px, qty);
    var st1 := st.(depth := st.depth + 1);
    StrippedCancel(st1, id, h);
    var st2, m := EngineSpec.OnCancel(st1, id), Resubmit(st.b, id, px, qty);
    StrippedSubmit(st2, m);
    StrippedPublish(EngineSpec.OnSubmit(st2, m).(depth := st.depth));
  }

  lemma StrippedResize(st: State, id: nat, qty: nat)
    requires Wf(st.b) && id in st.b.idx && qty > 0
    ensures Wf(Strip(st.b)) && Found(Strip(st.b), st.b.idx[id])
    ensures Resize(Stripped(st), st.b.idx[id], qty) == Stripped(PublishTop(EngineSpec.Resize(st, id, qty)))
  {
    StripWf(st.b);
    var p, k, o := st.b.idx[id], Position(st.b, id), OrderOf(st.b, id);
    assert Rewrite(Strip(st.b), p, id, qty) == Strip(ResizeOrder(st.b, id, qty));
    StrippedMark(st.(b := ResizeOrder(st.b, id, qty)), p.s, p.px);
    StrippedPublish(EngineSpec.Resize(st, id, qty));
  }

  lemma StrippedRelink(st: State, id: nat, px: nat, qty: nat)
    requires Wf(st.b) && id in st.b.idx && qty > 0 && px < st.b.Ticks()
    ensures Wf(Strip(st.b)) && Found(Strip(st.b), st.b.idx[id])
    ensures Relink(Stripped(st), st.b.idx[id], px, qty) == Stripped(PublishTop(EngineSpec.Relink(st, id, px, qty)))
  {
    StripWf(st.b);
    var p := st.b.idx[id];
    var k := Position(st.b, id);
    assert Move(Strip(st.b), p, px, qty) == Strip(RelinkOrder(st.b, id, px, qty));
    var st1 := st.(b := RelinkOrder(st.b, id, px, qty));
    StrippedMark(st1, p.s, p.px);
    StrippedMark(MarkTop(st1, p.s, p.px), p.s, px);
    StrippedPublish(EngineSpec.Relink(st, id, px, qty));
  }

  lemma StrippedKeeps(st: State, m: Modify, h: Handle)
    requires Wf(st.b) && ModifyOk(st, m) && EffectiveId(m) in st.b.idx && m.newPx == OrderOf(st.b, EffectiveId(m)).px
    ensures Wf(Strip(st.b)) && Found(Strip(st.b), st.b.idx[EffectiveId(m)])
    ensures Reprice(Stripped(st), st.b.idx[EffectiveId(m)], m, h) == (Stripped(EngineSpec.Reprice(st, m)), h)
  {
    var id := EffectiveId(m);
    StrippedFound(st.b, id);
    var o := OrderOf(st.b, id);
    if m.newQty == o.remaining {
      RepriceKeeps(st, m);
    } else {
      RepriceResizes(st, m);
      StrippedResize(st, id, m.newQty);
    }
  }

  lemma StrippedMoves(st: State, m: Modify, h: Handle)
    requires Wf(st.b) && ModifyOk(st, m) && EffectiveId(m) in st.b.idx
    requires var o := OrderOf(st.b, EffectiveId(m)); m.newPx != o.px && !WouldCross(st, o.s, m.newPx)
    ensures Wf(Strip(st.b)) && Found(Strip(st.b), st.b.idx[EffectiveId(m)])
    ensures Reprice(Stripped(st), st.b.idx[EffectiveId(m)], m, h) == (Stripped(EngineSpec.Reprice(st, m)), h)
  {
    var id := EffectiveId(m);
    StrippedFound(st.b, id);
    var p := st.b.idx[id];
    RepriceRelinks(st, m);
    StrippedRelink(st, id, m.newPx, m.newQty);
  }

  lemma StrippedCrossing(st: State, m: Modify, h: Handle)
    requires Inv(st) && Parity(st.b) && ModifyOk(st, m) && EffectiveId(m) in st.b.idx
             && h == HandleOf(st.b, EffectiveId(m))
    requires var o := OrderOf(st.b, EffectiveId(m)); m.newPx != o.px && WouldCross(st, o.s, m.newPx)
    ensures Wf(Strip(st.b)) && Found(Strip(st.b), st.b.idx[EffectiveId(m)])
    ensures var r := Reprice(Stripped(st), st.b.idx[EffectiveId(m)], m, h);
            r.0 == Stripped(EngineSpec.Reprice(st, m)) && r.1 == RepriceReturn(st, m, h)
  {
    var id := EffectiveId(m);
    StrippedFound(st.b, id);
    var p := st.b.idx[id];
    RepriceReplaces(st, m);
    RepriceCrosses(Stripped(st), p, m, h);
    StrippedReplace(st, id, h, m.newPx, m.newQty);
    ReturnCrosses(st, m, h);
  }

  lemma ReturnCrosses(st: State, m: Modify, h: Handle)
    requires Wf(st.b) && ModifyOk(st, m) && EffectiveId(m) in st.b.idx
    requires var o := OrderOf(st.b, EffectiveId(m)); m.newPx != o.px && WouldCross(st, o.s, m.newPx)
    ensures var id := EffectiveId(m);
            RepriceReturn(st, m, h) ==
            SubmitReturn(EngineSpec.OnCancel(st.(depth := st.depth + 1), id), Resubmit(st.b, id, m.newPx, m.newQty))
  {
  }

  lemma StrippedReprice(st: State, m: Modify, h: Handle)
    requires Inv(st) && Parity(st.b) && ModifyOk(st, m) && EffectiveId(m) in st.b.idx
             && h == HandleOf(st.b, EffectiveId(m))
    ensures Wf(Strip(st.b)) && Found(Strip(st.b), st.b.idx[EffectiveId(m)])
    ensures var r := Reprice(Stripped(st), st.b.idx[EffectiveId(m)], m, h);
            r.0 == Stripped(EngineSpec.Reprice(st, m)) && r.1 == RepriceReturn(st, m, h)
  {
    var o := OrderOf(st.b, EffectiveId(m));
    if m.newPx == o.px {
      StrippedKeeps(st, m, h);
    } else if !WouldCross(st, o.s, m.newPx) {
      StrippedMoves(st, m, h);
    } else {
      StrippedCrossing(st, m, h);
    }
  }

  lemma StrippedRename(st: State, m: Modify)
    requires Wf(st.b) && m.id in st.b.idx && m.newId < MAX_ID && EffectiveId(m) != m.id
    ensures Wf(Strip(st.b)) && Found(Strip(st.b), st.b.idx[m.id]) && OrderAt(Strip(st.b), st.b.idx[m.id]).remaining > 0
    ensures Rewrite(Strip(st.b), st.b.idx[m.id], m.newId, OrderAt(Strip(st.b), st.b.idx[m.id]).remaining)
            == Strip(EngineSpec.Rename(st, m).b)
  {
    StripWf(st.b);
    var p, k, o := st.b.idx[m.id], Position(st.b, m.id), OrderOf(st.b, m.id);
    assert OrderAt(Strip(st.b), p) == o;
  }

  /** Sent the current handle, a modify does to the order what its id would have it do. */
  lemma StrippedModify(st: State, m: Modify, h: Handle)
    requires Inv(st) && Parity(st.b) && ModifyOk(st, m) && Fresh(st, CmdModify(m))
    requires m.id in st.b.idx ==> h == HandleOf(st.b, m.id)
    ensures Wf(Strip(st.b)) && OnModify(Stripped(st), m, h).0 == Stripped(EngineSpec.OnModify(st, m))
    ensures m.id in st.b.idx ==> OnModify(Stripped(st), m, h).1 == ModifyReturn(st, m, h)
  {
    StripWf(st.b);
    StrippedResolve(st.b, h, m.id);
    ResolveNamed(st.b, h, m.id);
    if m.id in st.b.idx {
      var mid := EngineSpec.Rename(st, m);
      if EffectiveId(m) != m.id {
        StrippedRename(st, m);
        RenameInv(st.b, m.id, m.newId, st.cfg.maxOrderQty, true);
        RenameCarries(st.b, m.id, m.newId);
      }
      StrippedReprice(mid, m, h);
    }
  }

  // ----- whole runs

  /** The client's engine is d without its index, and the client knows the handle of every order. */
  ghost predicate Current(d: State, cl: Client) {
    && cl.st == Stripped(d) && Inv(d) && Parity(d.b)
    && forall id | id in d.b.idx :: cl.Last(id) == HandleOf(d.b, id)
  }

  lemma ModifyFollows(d: State, cl: Client, m: Modify)
    requires Current(d, cl) && ModifyOk(d, m) && Fresh(d, CmdModify(m))
    ensures Wf(cl.st.b) && Current(EngineSpec.OnModify(d, m), Call(cl, CmdModify(m)))
  {
    StepInv(d, CmdModify(m), true);
    StrippedModify(d, m, cl.Last(m.id));
    if m.id in d.b.idx {
      ModifyCarries(d, m);
    }
  }

  /** One call does what the command does by id, and leaves the client with every current handle. */
  lemma CallFollows(d: State, cl: Client, c: Command)
    requires Current(d, cl) && CommandOk(d, c) && Fresh(d, c)
    ensures Wf(cl.st.b) && Current(Step(d, c), Call(cl, c))
  {
    match c
    case CmdSubmit(m) =>
      StepInv(d, c, true);
      StrippedSubmit(d, m);
      SubmitCarries(d, m);
    case CmdCancel(id) =>
      StepInv(d, c, true);
      StrippedCancel(d, id, cl.Last(id));
      CancelCarries(d, id);
    case CmdModify(m) => ModifyFollows(d, cl, m);
  }

  lemma {:induction false} CallsFollow(d: State, cl: Client, cs: seq<Command>)
    requires Current(d, cl) && RunOk(d, cs) && FreshRun(d, cs)
    ensures Wf(cl.st.b) && RunOk(cl.st, cs) && Current(Run(d, cs), CallAll(cl, cs))
    decreases |cs|
  {
    StripWf(d.b);
    forall c | c in cs ensures CommandOk(cl.st, c) {
      assert CommandOk(d, c);
    }
    if cs != [] {
      assert cs[0] in cs;
      CallFollows(d, cl, cs[0]);
      RunTail(d, Step(d, cs[0]), cs);
      CallsFollow(Step(d, cs[0]), Call(cl, cs[0]), cs[1..]);
    }
  }

  /** From an empty book, on any commands with fresh ids: the engine without an index, driven by the
      latest handles, publishes what the engine with the index publishes, under the same numbers, and
      holds the same orders in the same slots. */
  lemma HandlesFollowIds(ticks: nat, maxOrders: nat, cfg: Config, cs: seq<Command>)
    requires RunOk(Initial(ticks, maxOrders, cfg), cs) && FreshRun(Initial(ticks, maxOrders, cfg), cs)
    ensures var h, d := CallAll(Client(Initial(ticks, maxOrders, cfg), map[]), cs).st,
            Run(Initial(ticks, maxOrders, cfg), cs);
            && h.events == d.events && h.seqNo == d.seqNo && h.b.bids == d.b.bids && h.b.asks == d.b.asks
            && h.b.free == d.b.free && h.b.gens == d.b.gens && h.b.idx == map[]
  {
    var d := Initial(ticks, maxOrders, cfg);
    InitialInv(ticks, maxOrders, cfg);
    CallsFollow(d, Client(d, map[]), cs);
  }
}
