/** Books that no command can tell apart: the same orders in the same queues, and the same order under
    every id, whatever slots hold them. The elementary changes keep them so, whether ids repeat or not. */
module BookTwins {
  import opened Types
  import opened Ladders
  import opened Books
  import opened PriceTime
  import opened BooksAlike
  import opened Repricing

  /** Where an order stands: its side, its price and its position in the level. */
  datatype Spot = Spot(s: Side, px: nat, k: nat)

  /** Where the index finds the order of an id. */
  function Where(b: Book, id: nat): Option<Spot> {
    if id !in b.idx then None else
    var p := b.idx[id];
    Some(Spot(p.s, p.px, if p.px < |b.Of(p.s)| then IndexOf(b.Of(p.s)[p.px], p.slot) else 0))
  }

  ghost predicate Twins(a: Book, b: Book) {
    Alike(a, b) && forall id :: Where(a, id) == Where(b, id)
  }

  lemma WhereIs(b: Book, id: nat)
    requires Wf(b) && id in b.idx
    ensures Where(b, id) == Some(Spot(b.idx[id].s, b.idx[id].px, Position(b, id)))
  {
  }

  /** Twins find the same order under every id. */
  lemma TwinsFind(a: Book, b: Book, id: nat)
    requires Wf(a) && Wf(b) && Twins(a, b)
    ensures |a.bids| == |b.bids| && (id in a.idx <==> id in b.idx)
    ensures id in a.idx ==>
              && a.idx[id].s == b.idx[id].s && a.idx[id].px == b.idx[id].px
              && Position(a, id) == Position(b, id) && OrderOf(a, id) == OrderOf(b, id)
  {
    assert |Plain(a.bids)| == |a.bids| && |Plain(b.bids)| == |b.bids|;
    assert Where(a, id) == Where(b, id);
    if id in a.idx {
      WhereIs(a, id);
      WhereIs(b, id);
      AlikeLevel(a, b, a.idx[id].s, a.idx[id].px);
    }
  }

  // ----- where the changes of a book leave its orders

  lemma IndexOfRemoved(f: seq<Node>, k: nat, slot: nat)
    requires k < |f| && IndexOf(f, slot) < |f| && f[k].slot != slot
    ensures var j := IndexOf(f, slot); IndexOf(RemoveAt(f, k), slot) == if j < k then j else j - 1
  {
    var g, j := RemoveAt(f, k), IndexOf(f, slot);
    var i := if j < k then j else j - 1;
    assert g[i] == f[j];
    IndexOfFirst(g, i, slot);
  }

  /** The spot of an order once the one at s, px, k is gone. */
  function Shifted(w: Spot, s: Side, px: nat, k: nat): Spot {
    if w.s == s && w.px == px && w.k > k then w.(k := w.k - 1) else w
  }

  lemma RemoveWhere(b: Book, s: Side, px: nat, k: nat, id: nat)
    requires Wf(b) && px < b.Ticks() && k < |b.Of(s)[px]| && b.Of(s)[px][k].slot < |b.gens|
    ensures Where(RemoveNode(b, s, px, k), id) ==
            if id == b.Of(s)[px][k].o.id || Where(b, id).None? then None
            else Some(Shifted(Where(b, id).value, s, px, k))
  {
    var f := b.Of(s)[px];
    if id in b.idx && id != f[k].o.id {
      var p := b.idx[id];
      assert PtrOk(b, id, p);
      if p.s == s && p.px == px {
        SlotFacts(b, s, px, k);
        IndexOfRemoved(f, k, p.slot);
      }
    }
  }

  lemma SetWhere(b: Book, s: Side, px: nat, k: nat, o: Order, id: nat)
    requires Wf(b) && px < b.Ticks() && k < |b.Of(s)[px]|
    ensures Where(SetNode(b, s, px, k, o), id) == Where(b, id)
  {
    var f := b.Of(s)[px];
    if id in b.idx {
      var p := b.idx[id];
      assert PtrOk(b, id, p);
      if p.s == s && p.px == px {
        IndexOfFirst(f[k := Node(f[k].slot, o)], IndexOf(f, p.slot), p.slot);
      }
    }
  }

  lemma RenameWhere(b: Book, s: Side, px: nat, k: nat, newId: nat, id: nat)
    requires Wf(b) && px < b.Ticks() && k < |b.Of(s)[px]|
    ensures Where(RenameNode(b, s, px, k, newId), id) ==
            if id == newId then Some(Spot(s, px, k))
            else if id == b.Of(s)[px][k].o.id then None
            else Where(b, id)
  {
    var f := b.Of(s)[px];
    var o := f[k].o.(id := newId);
    SetWhere(b, s, px, k, o, id);
    if id == newId {
      SlotFacts(b, s, px, k);
      IndexOfFirst(f[k := Node(f[k].slot, o)], k, f[k].slot);
    }
  }

  lemma AddWhere(b: Book, o: Order, id: nat)
    requires Wf(b) && o.px < b.Ticks() && o.remaining > 0 && ValidId(o.id) && b.free != []
    ensures Where(AddOrder(b, o), id) ==
            if id == o.id then Some(Spot(o.s, o.px, |b.Of(o.s)[o.px]|)) else Where(b, id)
  {
    var f, n := b.Of(o.s)[o.px], Node(b.free[0], o);
    FreeFacts(b, 0, o.s, o.px);
    IndexOfAppend(f, n, n.slot);
    if id in b.idx && id != o.id {
      assert PtrOk(b, id, b.idx[id]);
      IndexOfAppend(f, n, b.idx[id].slot);
    }
  }

  // ----- the changes keep twins

  /** Twins that change in one level alike, and find every id alike afterwards, are twins. */
  lemma StillTwins(a: Book, b: Book, a': Book, b': Book, s: Side, px: nat, f: seq<Node>, g: seq<Node>)
    requires Twins(a, b) && px < |a.Of(s)| && px < |b.Of(s)| && Orders(f) == Orders(g)
    requires a'.Of(s) == a.Of(s)[px := f] && a'.Of(Opposite(s)) == a.Of(Opposite(s))
    requires b'.Of(s) == b.Of(s)[px := g] && b'.Of(Opposite(s)) == b.Of(Opposite(s))
    requires |a'.gens| == |b'.gens| && |a'.free| == |b'.free|
    requires forall id :: Where(a', id) == Where(b', id)
    ensures Twins(a', b')
  {
    PlainUpdate(a.Of(s), px, f);
    PlainUpdate(b.Of(s), px, g);
    assert Plain(a'.Of(s)) == Plain(b'.Of(s));
    assert Plain(a'.Of(Opposite(s))) == Plain(b'.Of(Opposite(s)));
  }

  lemma RemoveTwins(a: Book, b: Book, s: Side, px: nat, k: nat)
    requires Wf(a) && Wf(b) && Twins(a, b) && px < a.Ticks() && k < |a.Of(s)[px]|
    ensures px < b.Ticks() && k < |b.Of(s)[px]|
    ensures a.Of(s)[px][k].slot < |a.gens| && b.Of(s)[px][k].slot < |b.gens|
    ensures Twins(RemoveNode(a, s, px, k), RemoveNode(b, s, px, k))
  {
    AlikeLevel(a, b, s, px);
    SlotFacts(a, s, px, k);
    SlotFacts(b, s, px, k);
    var a', b' := RemoveNode(a, s, px, k), RemoveNode(b, s, px, k);
    forall id ensures Where(a', id) == Where(b', id) {
      RemoveWhere(a, s, px, k, id);
      RemoveWhere(b, s, px, k, id);
    }
    OrdersRemove(a.Of(s)[px], k);
    OrdersRemove(b.Of(s)[px], k);
    StillTwins(a, b, a', b', s, px, RemoveAt(a.Of(s)[px], k), RemoveAt(b.Of(s)[px], k));
  }

  lemma SetTwins(a: Book, b: Book, s: Side, px: nat, k: nat, o: Order)
    requires Wf(a) && Wf(b) && Twins(a, b) && px < a.Ticks() && k < |a.Of(s)[px]|
    ensures px < b.Ticks() && k < |b.Of(s)[px]|
    ensures Twins(SetNode(a, s, px, k, o), SetNode(b, s, px, k, o))
  {
    AlikeLevel(a, b, s, px);
    var a', b' := SetNode(a, s, px, k, o), SetNode(b, s, px, k, o);
    forall id ensures Where(a', id) == Where(b', id) {
      SetWhere(a, s, px, k, o, id);
      SetWhere(b, s, px, k, o, id);
    }
    var f, g := a.Of(s)[px], b.Of(s)[px];
    OrdersSet(f, k, Node(f[k].slot, o));
    OrdersSet(g, k, Node(g[k].slot, o));
    StillTwins(a, b, a', b', s, px, f[k := Node(f[k].slot, o)], g[k := Node(g[k].slot, o)]);
  }

  lemma ReduceTwins(a: Book, b: Book, s: Side, px: nat, q: nat)
    requires Wf(a) && Wf(b) && Twins(a, b) && Reducible(a, s, px, q)
    ensures Reducible(b, s, px, q) && Twins(ReduceFront(a, s, px, q), ReduceFront(b, s, px, q))
  {
    AlikeLevel(a, b, s, px);
    var o := a.Of(s)[px][0].o;
    if o.remaining == q {
      RemoveTwins(a, b, s, px, 0);
    } else {
      SetTwins(a, b, s, px, 0, o.(remaining := o.remaining - q));
    }
  }

  lemma AddTwins(a: Book, b: Book, o: Order)
    requires Wf(a) && Wf(b) && Twins(a, b) && o.px < a.Ticks() && o.remaining > 0 && ValidId(o.id) && a.free != []
    ensures |a.bids| == |b.bids| && |b.free| > 0 && Twins(AddOrder(a, o), AddOrder(b, o))
  {
    AlikeLevel(a, b, o.s, o.px);
    assert |Plain(a.bids)| == |a.bids| && |Plain(b.bids)| == |b.bids|;
    var a', b' := AddOrder(a, o), AddOrder(b, o);
    forall id ensures Where(a', id) == Where(b', id) {
      AddWhere(a, o, id);
      AddWhere(b, o, id);
    }
    var f, g := a.Of(o.s)[o.px], b.Of(o.s)[o.px];
    OrdersAppend(f, [Node(a.free[0], o)]);
    OrdersAppend(g, [Node(b.free[0], o)]);
    assert Orders([Node(a.free[0], o)]) == Orders([Node(b.free[0], o)]);
    StillTwins(a, b, a', b', o.s, o.px, f + [Node(a.free[0], o)], g + [Node(b.free[0], o)]);
  }

  lemma CancelTwins(a: Book, b: Book, id: nat)
    requires Wf(a) && Wf(b) && Twins(a, b) && id in a.idx
    ensures id in b.idx && Twins(CancelOrder(a, id), CancelOrder(b, id))
  {
    TwinsFind(a, b, id);
    RemoveTwins(a, b, a.idx[id].s, a.idx[id].px, Position(a, id));
  }

  lemma ResizeTwins(a: Book, b: Book, id: nat, qty: nat)
    requires Wf(a) && Wf(b) && Twins(a, b) && id in a.idx && qty > 0
    ensures id in b.idx && Twins(ResizeOrder(a, id, qty), ResizeOrder(b, id, qty))
  {
    TwinsFind(a, b, id);
    SetTwins(a, b, a.idx[id].s, a.idx[id].px, Position(a, id), OrderOf(a, id).(remaining := qty));
  }

  lemma RenameTwins(a: Book, b: Book, id: nat, newId: nat)
    requires Wf(a) && Wf(b) && Twins(a, b) && id in a.idx && ValidId(newId)
    ensures id in b.idx && Twins(RenameOrder(a, id, newId), RenameOrder(b, id, newId))
  {
    TwinsFind(a, b, id);
    var p, k, o := a.idx[id], Position(a, id), OrderOf(a, id).(id := newId);
    SetTwins(a, b, p.s, p.px, k, o);
    var a', b' := RenameOrder(a, id, newId), RenameOrder(b, id, newId);
    forall x ensures Where(a', x) == Where(b', x) {
      RenameWhere(a, p.s, p.px, k, newId, x);
      RenameWhere(b, p.s, p.px, k, newId, x);
    }
    assert a' == SetNode(a, p.s, p.px, k, o).(idx := a'.idx) && b' == SetNode(b, p.s, p.px, k, o).(idx := b'.idx);
  }

  /** Generations tell no twins apart. */
  lemma GensTwins(a: Book, b: Book, p: seq<nat>, q: seq<nat>)
    requires Twins(a, b) && |p| == |q|
    ensures Twins(a.(gens := p), b.(gens := q))
  {
    var a', b' := a.(gens := p), b.(gens := q);
    forall id ensures Where(a', id) == Where(b', id) {
      assert Where(a', id) == Where(a, id) && Where(b', id) == Where(b, id);
    }
  }

  lemma RelinkTwins(a: Book, b: Book, id: nat, px: nat, qty: nat)
    requires Wf(a) && Wf(b) && Twins(a, b) && id in a.idx && qty > 0 && px < a.Ticks()
    ensures id in b.idx && px < b.Ticks() && Twins(RelinkOrder(a, id, px, qty), RelinkOrder(b, id, px, qty))
  {
    TwinsFind(a, b, id);
    CancelTwins(a, b, id);
    RelinkBook(a, id, px, qty);
    RelinkBook(b, id, px, qty);
    var o := OrderOf(a, id).(px := px, remaining := qty);
    AddTwins(CancelOrder(a, id), CancelOrder(b, id), o);
    GensTwins(AddOrder(CancelOrder(a, id), o), AddOrder(CancelOrder(b, id), o), a.gens, b.gens);
  }
}
