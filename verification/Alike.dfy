/** Books that hold the same orders in the same queues in whatever slots, and what each change does
    to them and to the top. */
module BooksAlike {
  import opened Types
  import opened Ladders
  import opened Books
  import opened EngineSpec
  import opened Invariants
  import opened PriceTime

  /** The same orders in the same queues, whatever slots hold them. */
  predicate Alike(a: Book, b: Book) {
    |a.gens| == |b.gens| && |a.free| == |b.free| && Plain(a.bids) == Plain(b.bids) && Plain(a.asks) == Plain(b.asks)
  }

  /** The same book, but for the generations of its slots. */
  predicate SameBook(a: Book, b: Book) {
    |a.gens| == |b.gens| && b == a.(gens := b.gens)
  }

  // ----- changes and the top

  /** b differs from a at most in level px of side s. */
  predicate ChangedAt(a: Book, b: Book, s: Side, px: nat) {
    && |a.Of(s)| == |b.Of(s)| && a.Of(Opposite(s)) == b.Of(Opposite(s))
    && forall p | 0 <= p < |a.Of(s)| && p != px :: a.Of(s)[p] == b.Of(s)[p]
  }

  /** A change strictly worse than the best price does not move the top. */
  lemma TopUntouched(a: Book, b: Book, s: Side, px: nat)
    requires ChangedAt(a, b, s, px) && Best(s, a.Of(s)).Some? && Better(s, Best(s, a.Of(s)).value, px)
    ensures TopOf(b) == TopOf(a) && Best(s, b.Of(s)) == Best(s, a.Of(s))
  {
    var best := Best(s, a.Of(s)).value;
    forall p | 0 <= p < |b.Of(s)| && b.Of(s)[p] != [] ensures !Better(s, p, best) {
      if p != px {
        assert a.Of(s)[p] != [];
      }
    }
    BestUnique(s, b.Of(s), best);
  }

  /** A new id moves no top. */
  lemma RenameTop(b: Book, id: nat, newId: nat)
    requires Wf(b) && id in b.idx && ValidId(newId)
    ensures var r := RenameOrder(b, id, newId);
            TopOf(r) == TopOf(b) && forall s :: Best(s, r.Of(s)).Some? == Best(s, b.Of(s)).Some?
  {
    var r, p, k := RenameOrder(b, id, newId), b.idx[id], Position(b, id);
    var f := b.Of(p.s)[p.px];
    FifoQtyUpdate(f, k, Node(f[k].slot, f[k].o.(id := newId)));
    forall s ensures Best(s, r.Of(s)) == Best(s, b.Of(s)) {
      assert forall q | 0 <= q < |b.Of(s)| :: r.Of(s)[q] == [] <==> b.Of(s)[q] == [];
      if Best(s, b.Of(s)).Some? {
        BestUnique(s, r.Of(s), Best(s, b.Of(s)).value);
      }
    }
    assert Best(Bid, r.Of(Bid)) == Best(Bid, b.Of(Bid)) && Best(Ask, r.Of(Ask)) == Best(Ask, b.Of(Ask));
  }

  // ----- alike books

  lemma AlikeTop(a: Book, b: Book)
    requires Alike(a, b)
    ensures TopOf(a) == TopOf(b) && forall s: Side :: Best(s, a.Of(s)) == Best(s, b.Of(s))
  {
    forall s: Side ensures Best(s, a.Of(s)) == Best(s, b.Of(s)) {
      BestPlain(s, a.Of(s), b.Of(s));
    }
    BestPlain(Bid, a.bids, b.bids);
    BestPlain(Ask, a.asks, b.asks);
  }

  /** The same front order stands at the same level. */
  lemma AlikeLevel(a: Book, b: Book, s: Side, px: nat)
    requires Alike(a, b) && px < |a.Of(s)|
    ensures |a.Of(s)| == |b.Of(s)| && Orders(a.Of(s)[px]) == Orders(b.Of(s)[px]) && |a.Of(s)[px]| == |b.Of(s)[px]|
    ensures forall k | 0 <= k < |a.Of(s)[px]| :: a.Of(s)[px][k].o == b.Of(s)[px][k].o
  {
    assert |Plain(a.Of(s))| == |a.Of(s)| && |Plain(b.Of(s))| == |b.Of(s)|;
    assert Plain(a.Of(s))[px] == Plain(b.Of(s))[px];
    assert |Orders(a.Of(s)[px])| == |Orders(b.Of(s)[px])|;
    forall k | 0 <= k < |a.Of(s)[px]| ensures a.Of(s)[px][k].o == b.Of(s)[px][k].o {
      assert Orders(a.Of(s)[px])[k] == Orders(b.Of(s)[px])[k];
    }
  }

  /** With every order indexed by its id, alike books find the same order in the same place. */
  lemma AlikeFind(a: Book, b: Book, id: nat)
    requires Alike(a, b) && Wf(a) && Wf(b) && Unique(b) && id in a.idx
    ensures id in b.idx && b.idx[id].s == a.idx[id].s && b.idx[id].px == a.idx[id].px
    ensures Position(a, id) == Position(b, id) && OrderOf(a, id) == OrderOf(b, id)
  {
    var p, k := a.idx[id], Position(a, id);
    AlikeLevel(a, b, p.s, p.px);
    assert NamedAt(b, p.s, p.px, k);
    SlotFacts(b, p.s, p.px, k);
  }

  lemma {:induction false} OrdersAppend(f: seq<Node>, g: seq<Node>)
    ensures Orders(f + g) == Orders(f) + Orders(g)
  {
  }

  lemma OrdersRemove(f: seq<Node>, k: nat)
    requires k < |f|
    ensures Orders(RemoveAt(f, k)) == RemoveAt(Orders(f), k)
  {
    OrdersAppend(f[..k], f[k + 1..]);
    assert Orders(f[..k]) == Orders(f)[..k];
    assert Orders(f[k + 1..]) == Orders(f)[k + 1..];
  }

  lemma OrdersSet(f: seq<Node>, k: nat, n: Node)
    requires k < |f|
    ensures Orders(f[k := n]) == Orders(f)[k := n.o]
  {
  }

  lemma CancelChanges(a: Book, id: nat)
    requires Wf(a) && id in a.idx
    ensures ChangedAt(a, CancelOrder(a, id), a.idx[id].s, a.idx[id].px)
  {
  }

  lemma ResizeChanges(a: Book, id: nat, qty: nat)
    requires Wf(a) && id in a.idx && qty > 0
    ensures ChangedAt(a, ResizeOrder(a, id, qty), a.idx[id].s, a.idx[id].px)
  {
  }

  lemma AddChanges(a: Book, o: Order)
    requires Wf(a) && o.px < a.Ticks() && o.remaining > 0 && ValidId(o.id) && a.free != []
    ensures ChangedAt(a, AddOrder(a, o), o.s, o.px)
  {
  }
}
