/** The dense book as objects: two ladder sides, the arena that holds the orders and the id index.
    Every operation is proved to be an elementary change of the book it stands for. */
module Stores {
  import opened Types
  import opened Counting
  import opened Ladders
  import opened Books
  import opened Arenas
  import opened BookSides
  import opened DenseBook
  import opened ImageSteps
  import IdIndex

  // ----- the index always has room

  /** Index entries name distinct slots. */
  lemma EntrySlots(b: Book, id1: nat, id2: nat)
    requires Wf(b) && id1 in b.idx && id2 in b.idx && b.idx[id1].slot == b.idx[id2].slot
    ensures id1 == id2
  {
    var p1, p2 := b.idx[id1], b.idx[id2];
    assert PtrOk(b, id1, p1) && PtrOk(b, id2, p2);
    var slot := p1.slot;
    assert Once(b, slot);
    var f1, f2 := b.Of(p1.s)[p1.px], b.Of(p2.s)[p2.px];
    InFifoRemove(f1, IndexOf(f1, slot), slot);
    InFifoRemove(f2, IndexOf(f2, slot), slot);
    LinkedAtLeast(b.Of(p1.s), p1.px, slot);
    LinkedAtLeast(b.Of(p2.s), p2.px, slot);
    if p1.s == p2.s && p1.px != p2.px {
      LinkedTwice(b.Of(p1.s), p1.px, p2.px, slot);
    }
  }

  lemma {:induction false} LinkedTwice(l: Ladder, p: nat, q: nat, slot: nat)
    requires p < |l| && q < |l| && p != q
    ensures Linked(l, slot) >= InFifo(l[p], slot) + InFifo(l[q], slot)
  {
    if p == 0 {
      LinkedAtLeast(l[1..], q - 1, slot);
    } else if q == 0 {
      LinkedAtLeast(l[1..], p - 1, slot);
    } else {
      LinkedTwice(l[1..], p - 1, q - 1, slot);
    }
  }

  /** The slots named by some of the entries, each once. */
  lemma {:induction false} NamedSlots(b: Book, keys: set<nat>) returns (ss: seq<nat>)
    requires Wf(b) && keys <= b.idx.Keys
    ensures |ss| == |keys| && Distinct(ss)
    ensures forall i | 0 <= i < |ss| :: ss[i] < |b.gens| && ss[i] !in b.free
    ensures forall i | 0 <= i < |ss| :: exists id | id in keys :: b.idx[id].slot == ss[i]
    decreases |keys|
  {
    if keys == {} {
      ss := [];
    } else {
      var id :| id in keys;
      var rest := NamedSlots(b, keys - {id});
      var p := b.idx[id];
      assert PtrOk(b, id, p);
      SlotFacts(b, p.s, p.px, IndexOf(b.Of(p.s)[p.px], p.slot));
      forall i | 0 <= i < |rest| ensures rest[i] != p.slot {
        var other :| other in keys - {id} && b.idx[other].slot == rest[i];
        if rest[i] == p.slot { EntrySlots(b, id, other); }
      }
      ss := rest + [p.slot];
    }
  }

  /** There are no more entries than orders. */
  lemma IndexCount(b: Book)
    requires Wf(b)
    ensures |b.idx| + |b.free| <= |b.gens|
  {
    var ss := NamedSlots(b, b.idx.Keys);
    var all := ss + b.free;
    forall i, j | 0 <= i < j < |b.free| ensures b.free[i] != b.free[j] {
      assert Once(b, b.free[i]);
      if b.free[i] == b.free[j] { TwoInMultiset(b.free, i, j); }
    }
    forall i | 0 <= i < |b.free| ensures b.free[i] < |b.gens| {
      FreeSlot(b, i);
    }
    DistinctBound(all, Below(|b.gens|));
    assert |b.idx| == |b.idx.Keys|;
  }

  lemma IndexRoom(im: Image)
    requires ImageOk(im)
    ensures |im.m| + |im.free| <= |im.gens|
  {
    IndexCount(View(im));
    assert View(im).idx.Keys == im.m.Keys;
    assert |im.m| == |im.m.Keys| && |View(im).idx| == |View(im).idx.Keys|;
  }

  lemma TwoInMultiset(s: seq<nat>, i: nat, j: nat)
    requires i < j < |s| && s[i] == s[j]
    ensures multiset(s)[s[i]] >= 2
  {
    assert s == s[..i] + [s[i]] + s[i + 1..j] + [s[j]] + s[j + 1..];
  }

  /** The slot's place in the FIFO is the position of its order. */
  lemma FindIsPosition(im: Image, id: nat, k: nat)
    requires ImageOk(im) && id in im.m
    requires var o := At(im.mem, im.m[id]);
             o.px < |im.Of(o.s)| && k == Find(im.Of(o.s)[o.px].fifo, im.m[id])
    ensures Position(View(im), id) == k && OrderOf(View(im), id) == At(im.mem, im.m[id])
    ensures k < |im.Of(At(im.mem, im.m[id]).s)[At(im.mem, im.m[id]).px].fifo|
  {
    IndexFacts(im, id);
    var o := At(im.mem, im.m[id]);
    LinkedFacts(im, o.s, o.px, k);
  }

  lemma ReduceIsSet(b: Book, s: Side, px: nat, q: nat)
    requires Wf(b) && Reducible(b, s, px, q) && q < b.Of(s)[px][0].o.remaining
    ensures var o := b.Of(s)[px][0].o;
            ReduceFront(b, s, px, q) == SetNode(b, s, px, 0, o.(remaining := o.remaining - q))
  {
  }

  lemma WithoutNone<V>(m: map<nat, V>, id: nat)
    requires id !in m
    ensures m - {id} == m
  {
  }

  lemma WithoutOne<V>(m: map<nat, V>, id: nat)
    requires id in m
    ensures m.Keys == (m - {id}).Keys + {id} && |m| == |m - {id}| + 1
  {
    assert m.Keys == (m - {id}).Keys + {id};
    assert |m| == |m.Keys| && |m - {id}| == |(m - {id}).Keys|;
  }

  lemma EmptyImage(im: Image, ticks: nat, maxOrders: nat)
    requires |im.bids| == ticks && forall p | 0 <= p < ticks :: im.bids[p] == Level(0, [])
    requires |im.asks| == ticks && forall p | 0 <= p < ticks :: im.asks[p] == Level(0, [])
    requires |im.mem| == |im.gens| == maxOrders && im.m == map[] && im.free == Ascending(maxOrders, 0)
    requires forall i | 0 <= i < maxOrders :: im.gens[i] == 0
    ensures ImageOk(im) && View(im) == EmptyBook(ticks, maxOrders)
  {
    EmptyBookWf(ticks, maxOrders);
    var b := EmptyBook(ticks, maxOrders);
    assert View(im).bids == b.bids;
    assert View(im).asks == b.asks;
    assert View(im).idx == b.idx;
    assert im.gens == b.gens;
    assert View(im) == b;
  }

  class Store {
    const bids: BookSide
    const asks: BookSide
    const arena: Arena<Order>
    const index: IdIndex.Index
    ghost const Repr: set<object>

    function On(s: Side): BookSide {
      if s.Bid? then bids else asks
    }

    ghost predicate Shape()
      reads this, bids, asks, arena
    {
      && bids.side == Bid && asks.side == Ask
      && |bids.levels| == |asks.levels|
      && index.slots.Length >= 2 * |arena.cells|
      && bids != asks && bids.bm != asks.bm
      && Repr == {bids, bids.bm, asks, asks.bm, arena, index, index.slots}
    }

    ghost function Img(): Image
      reads this, bids, asks, arena, index
    {
      Image(bids.levels, asks.levels, arena.Contents(), index.m, arena.free, arena.Generations())
    }

    /** The book this store stands for. */
    ghost function Abs(): Book
      reads this, bids, asks, arena, index
    {
      View(Img())
    }

    /** Every part is valid on its own; level px of side s may have drained without its side having
        been told. */
    ghost predicate Parts(s: Side, px: nat)
      reads this, bids, bids.bm, asks, asks.bm, arena, index, index.slots
    {
      && Shape()
      && bids.ValidBut(if s.Bid? then px else |bids.levels|)
      && asks.ValidBut(if s.Ask? then px else |asks.levels|)
      && arena.Valid() && index.Valid()
    }

    ghost predicate ValidBut(s: Side, px: nat)
      reads this, bids, bids.bm, asks, asks.bm, arena, index, index.slots
    {
      Parts(s, px) && ImageOk(Img())
    }

    ghost predicate Valid()
      reads this, bids, bids.bm, asks, asks.bm, arena, index, index.slots
    {
      ValidBut(Bid, |bids.levels|)
    }

    // ----- one part at a time

    method SetLevel(s: Side, px: nat, lv: Level)
      requires Parts(s, px) && px < |bids.levels| && On(s).levels[px].fifo != []
      modifies On(s)
      ensures Parts(s, px) && Img() == old(Img()).With(s, px, lv)
    {
      On(s).SetLevel(px, lv);
    }

    method TakeId(id: nat, ghost s: Side, ghost px: nat) returns (r: Option<nat>)
      requires Parts(s, px) && id != IdIndex.EMPTY
      modifies index, index.slots
      ensures Parts(s, px) && Img() == old(Img()).(m := old(Img()).m - {id})
      ensures r == if id in old(index.m) then Some(old(index.m)[id]) else None
    {
      r := index.Take(id);
    }

    method Release(slot: nat, ghost s: Side, ghost px: nat)
      requires Parts(s, px) && slot < |arena.cells| && Live(arena.Generations(), slot)
      modifies arena
      ensures Parts(s, px)
      ensures var im := old(Img());
              Img() == im.(mem := im.mem[slot := Link(None)], free := [slot] + im.free, gens := Bump(im.gens, slot))
    {
      arena.Deallocate(slot);
    }

    method WriteOrder(slot: nat, o: Order, ghost s: Side, ghost px: nat)
      requires Parts(s, px) && slot < |arena.cells| && Live(arena.Generations(), slot)
      modifies arena
      ensures Parts(s, px) && Img() == old(Img()).(mem := old(Img()).mem[slot := Item(o)])
    {
      arena.Write(slot, o);
    }

    static method NewSides(ticks: nat) returns (b: BookSide, a: BookSide)
      requires 0 < ticks <= 64 * 64 * 64 * 64
      ensures b.Valid() && a.Valid() && b.side == Bid && a.side == Ask && |b.levels| == |a.levels| == ticks
      ensures forall p | 0 <= p < ticks :: b.levels[p] == Level(0, []) && a.levels[p] == Level(0, [])
      ensures fresh(b) && fresh(b.bm) && fresh(a) && fresh(a.bm) && b != a && b.bm != a.bm
    {
      b := new BookSide(Bid, ticks);
      a := new BookSide(Ask, ticks);
    }

    static method NewRoom(maxOrders: nat, hash: nat -> nat) returns (ar: Arena<Order>, ix: IdIndex.Index)
      requires maxOrders > 0
      ensures ar.Valid() && |ar.cells| == maxOrders && ar.free == Ascending(maxOrders, 0)
      ensures forall i | 0 <= i < maxOrders :: ar.Generations()[i] == 0
      ensures ix.Valid() && ix.m == map[] && ix.slots.Length >= 2 * maxOrders
      ensures fresh(ar) && fresh(ix) && fresh(ix.slots)
    {
      ar := new Arena<Order>(maxOrders);
      ix := new IdIndex.Index(maxOrders, hash);
    }

    constructor (ticks: nat, maxOrders: nat, hash: nat -> nat)
      requires 0 < ticks <= 64 * 64 * 64 * 64 && maxOrders > 0
      ensures Valid() && fresh(Repr)
      ensures Abs() == EmptyBook(ticks, maxOrders)
    {
      var ar, ix := NewRoom(maxOrders, hash);
      var b, a := NewSides(ticks);
      bids, asks, arena, index := b, a, ar, ix;
      Repr := {b, b.bm, a, a.bm, ar, ix, ix.slots};
      new;
      assert Shape();
      EmptyImage(Img(), ticks, maxOrders);
    }

    method InsertId(id: nat, slot: nat, ghost s: Side, ghost px: nat)
      requires Parts(s, px) && id != IdIndex.EMPTY && |index.m| + 1 <= |arena.cells|
      modifies index, index.slots
      ensures Parts(s, px) && Img() == old(Img()).(m := old(Img()).m[id := slot])
    {
      index.Insert(id, slot);
    }

    method LinkBack(s: Side, slot: nat, px: nat, qty: nat)
      requires Parts(s, |bids.levels|) && px < |bids.levels|
      modifies On(s), On(s).bm
      ensures Parts(s, |bids.levels|)
      ensures px < |old(Img()).Of(s)| && Img() == old(Img()).With(s, px, old(Img()).Of(s)[px].PushBack(slot, qty))
    {
      On(s).Add(slot, px, qty);
    }

    method Unlink(s: Side, px: nat, k: nat, qty: nat)
      requires Parts(s, |bids.levels|) && px < |bids.levels|
      requires k < |Img().Of(s)[px].fifo| && qty <= Img().Of(s)[px].aggregate
      modifies On(s), On(s).bm
      ensures Parts(s, |bids.levels|)
      ensures Img() == old(Img()).With(s, px, old(Img()).Of(s)[px].Unlink(k, qty))
    {
      On(s).Remove(px, k, qty);
    }

    // ----- the operations of the book

    /** Unlink the front order of a level, drop its index entry and release its slot. */
    method DropFront(s: Side, px: nat, o: Order)
      requires Parts(s, px) && InRange(Img(), s, px, 0) && o == At(Img().mem, On(s).levels[px].fifo[0])
      requires ValidId(o.id) && Live(arena.Generations(), On(s).levels[px].fifo[0])
      modifies Repr
      ensures Parts(s, px)
      ensures Img() == RemoveImage(old(Img()), s, px, 0)
    {
      var lv := On(s).levels[px];
      SetLevel(s, px, lv.Unlink(0, o.remaining));
      var _ := TakeId(o.id, s, px);
      Release(lv.fifo[0], s, px);
    }

    /** The order at the front of level px. */
    method Front(s: Side, px: nat) returns (o: Order)
      requires ValidBut(s, px) && px < |bids.levels| && Abs().Of(s)[px] != []
      ensures o == Abs().Of(s)[px][0].o && o == At(Img().mem, On(s).levels[px].fifo[0]) && ValidId(o.id)
      ensures o.s == s && o.px == px
      ensures InRange(Img(), s, px, 0) && Live(arena.Generations(), On(s).levels[px].fifo[0])
      ensures arena.cells[On(s).levels[px].fifo[0]].Item?
    {
      LinkedFacts(Img(), s, px, 0);
      var slot := On(s).levels[px].fifo[0];
      arena.LiveIsNotFree(slot);
      o := arena.cells[slot].value;
    }

    /** The front maker of level px leaves the book. */
    method RemoveFront(s: Side, px: nat)
      requires ValidBut(s, px) && px < |bids.levels| && Abs().Of(s)[px] != []
      modifies Repr
      ensures ValidBut(s, px)
      ensures Reducible(old(Abs()), s, px, old(Abs()).Of(s)[px][0].o.remaining)
      ensures Abs() == Books.ReduceFront(old(Abs()), s, px, old(Abs()).Of(s)[px][0].o.remaining)
    {
      var o := Front(s, px);
      RemoveView(Img(), s, px, 0);
      DropFront(s, px, o);
    }

    /** The k-th order of a level becomes o, which differs in its quantity; b is what that leaves. */
    method Requantify(s: Side, px: nat, k: nat, o: Order, ghost b: Book)
      requires ValidBut(s, px) && InRange(Img(), s, px, k) && Live(arena.Generations(), On(s).levels[px].fifo[k])
      requires arena.cells[On(s).levels[px].fifo[k]].Item? && o.s == s && o.px == px && o.remaining > 0
      requires o.id == At(Img().mem, On(s).levels[px].fifo[k]).id
      requires px < |Abs().Of(s)| && k < |Abs().Of(s)[px]| && b == SetNode(Abs(), s, px, k, o)
      modifies On(s), arena
      ensures ValidBut(s, px) && Img().m == old(Img()).m && On(s).levels[px].fifo == old(On(s).levels[px].fifo)
      ensures Abs() == b
    {
      SetView(Img(), s, px, k, o);
      Rewrite(s, px, k, o);
    }

    /** The front maker of level px loses q and keeps some. */
    method ShrinkFront(s: Side, px: nat, q: nat)
      requires ValidBut(s, px) && Reducible(Abs(), s, px, q) && q < Abs().Of(s)[px][0].o.remaining
      modifies Repr
      ensures ValidBut(s, px)
      ensures Abs() == Books.ReduceFront(old(Abs()), s, px, q)
    {
      ViewOf(Img(), s);
      ReduceIsSet(Abs(), s, px, q);
      var o := Front(s, px);
      Requantify(s, px, 0, o.(remaining := o.remaining - q), Books.ReduceFront(Abs(), s, px, q));
    }

    /** The front maker of level px loses q, and leaves the book when nothing is left of it. */
    method ReduceFront(s: Side, px: nat, q: nat)
      requires ValidBut(s, px) && Reducible(Abs(), s, px, q)
      modifies Repr
      ensures ValidBut(s, px)
      ensures Abs() == Books.ReduceFront(old(Abs()), s, px, q)
    {
      ViewOf(Img(), s);
      var o := Front(s, px);
      if o.remaining == q {
        RemoveFront(s, px);
      } else {
        ShrinkFront(s, px, q);
      }
    }

    /** Rewrite the k-th order of a level, the aggregate following its quantity. */
    method Rewrite(s: Side, px: nat, k: nat, o: Order)
      requires Parts(s, px) && InRange(Img(), s, px, k) && Live(arena.Generations(), On(s).levels[px].fifo[k])
      requires arena.cells[On(s).levels[px].fifo[k]].Item?
      modifies On(s), arena
      ensures Parts(s, px)
      ensures Img() == SetImage(old(Img()), s, px, k, o)
    {
      ghost var im := Img();
      var lv := On(s).levels[px];
      var slot := lv.fifo[k];
      assert lv == im.Of(s)[px];
      arena.LiveIsNotFree(slot);
      assert arena.cells[slot].value == At(im.mem, slot);
      var lv' := lv.(aggregate := lv.aggregate - arena.cells[slot].value.remaining + o.remaining);
      ghost var im' := im.With(s, px, lv').(mem := im.mem[slot := Item(o)]);
      assert im' == SetImage(im, s, px, k, o);
      SetLevel(s, px, lv');
      WriteOrder(slot, o, s, px);
      assert Img() == im';
    }
  
    /** Tell side s when its level px has drained. */
    method Settle(s: Side, px: nat)
      requires ValidBut(s, px) && px < |bids.levels|
      modifies On(s), On(s).bm
      ensures Valid() && Img() == old(Img())
    {
      if On(s).levels[px].fifo == [] {
        On(s).NotifyLevelEmptied(px);
      }
    }

    /** Take the order that id names out of the book. */
    method Cancel(id: nat) returns (r: Option<Order>)
      requires Valid() && ValidId(id)
      modifies Repr
      ensures Valid()
      ensures r == if id in old(Abs()).idx then Some(OrderOf(old(Abs()), id)) else None
      ensures Abs() == if id in old(Abs()).idx then CancelOrder(old(Abs()), id) else old(Abs())
    {
      ghost var im := Img();
      var p := TakeId(id, Bid, |bids.levels|);
      if p.None? {
        assert im.m - {id} == im.m;
        return None;
      }
      IndexFacts(im, id);
      var slot := p.value;
      arena.LiveIsNotFree(slot);
      var o := arena.cells[slot].value;
      var k := Find(On(o.s).levels[o.px].fifo, slot);
      FindIsPosition(im, id, k);
      RemoveView(im, o.s, o.px, k);
      Unhook(o.s, o.px, k, o.remaining);
      assert Img() == RemoveImage(im, o.s, o.px, k);
      r := Some(o);
    }

    method Unhook(s: Side, px: nat, k: nat, qty: nat)
      requires Parts(s, |bids.levels|) && InRange(Img(), s, px, k) && qty <= On(s).levels[px].aggregate
      requires Live(arena.Generations(), On(s).levels[px].fifo[k])
      modifies Repr
      ensures Parts(s, |bids.levels|)
      ensures var im := old(Img());
              var slot := im.Of(s)[px].fifo[k];
              Img() == im.With(s, px, im.Of(s)[px].Unlink(k, qty))
                       .(mem := im.mem[slot := Link(None)], free := [slot] + im.free, gens := Bump(im.gens, slot))
    {
      var slot := On(s).levels[px].fifo[k];
      Unlink(s, px, k, qty);
      Release(slot, s, |bids.levels|);
    }

    /** Link a new order at the back of its level, unless the arena is full. */
    method Add(o: Order) returns (ok: bool)
      requires Valid() && o.px < |bids.levels| && o.remaining > 0 && ValidId(o.id)
      modifies Repr
      ensures Valid()
      ensures ok <==> old(Abs()).free != []
      ensures Abs() == if ok then AddOrder(old(Abs()), o) else old(Abs())
    {
      ghost var im := Img();
      IndexRoom(im);
      var r := Reserve(o);
      ok := r.Some?;
      if ok {
        AddView(im, o);
        LinkBack(o.s, r.value, o.px, o.remaining);
        InsertId(o.id, r.value, o.s, |bids.levels|);
        assert Img() == AddImage(im, o);
      }
    }

    /** Take the first free slot. */
    method Allocate() returns (r: Option<nat>)
      requires Valid()
      modifies arena
      ensures Parts(Bid, |bids.levels|) && (r.None? <==> old(Img()).free == [])
      ensures r.None? ==> Img() == old(Img())
      ensures r.Some? ==>
                var im := old(Img());
                && im.free != [] && r.value == im.free[0] < |im.mem| == |im.gens| && Live(arena.Generations(), r.value)
                && Img() == im.(mem := Img().mem, free := im.free[1..], gens := Bump(im.gens, r.value))
                && |Img().mem| == |im.mem| && forall i | 0 <= i < |im.mem| && i != r.value :: Img().mem[i] == im.mem[i]
    {
      r := arena.Allocate();
    }

    /** Allocate a slot and fill it. */
    method Reserve(o: Order) returns (r: Option<nat>)
      requires Valid()
      modifies arena
      ensures Parts(Bid, |bids.levels|)
      ensures r.None? <==> old(Img()).free == []
      ensures r.None? ==> Img() == old(Img())
      ensures r.Some? ==>
                var im := old(Img());
                && im.free != [] && r.value == im.free[0] < |im.mem| == |im.gens|
                && Img() == im.(mem := im.mem[r.value := Item(o)], free := im.free[1..], gens := Bump(im.gens, r.value))
    {
      ghost var im := Img();
      r := Allocate();
      if r.Some? {
        ghost var mem := Img().mem;
        WriteOrder(r.value, o, Bid, |bids.levels|);
        assert mem[r.value := Item(o)] == im.mem[r.value := Item(o)];
      }
    }

    /** The slot of the order that id names. */
    method Lookup(id: nat) returns (r: Option<nat>)
      requires Valid() && ValidId(id)
      ensures r == if id in Img().m then Some(Img().m[id]) else None
    {
      r := index.Lookup(id);
    }

    /** The order in a slot the index names. */
    method Get(slot: nat, ghost id: nat) returns (o: Order)
      requires Valid() && id in Img().m && Img().m[id] == slot
      ensures o == OrderOf(Abs(), id)
    {
      ghost var im := Img();
      IndexFacts(im, id);
      arena.LiveIsNotFree(slot);
      o := arena.cells[slot].value;
      FindIsPosition(im, id, Find(im.Of(o.s)[o.px].fifo, slot));
    }

    /** Give the order that id names another id, in the probe that finds it. */
    method Rename(id: nat, newId: nat) returns (r: Option<nat>)
      requires Valid() && ValidId(id) && ValidId(newId)
      modifies Repr
      ensures Valid()
      ensures Abs() == if id in old(Abs()).idx then RenameOrder(old(Abs()), id, newId) else old(Abs())
      ensures r == if id in old(Img()).m then Some(old(Img()).m[id]) else None
      ensures r.Some? ==> newId in Img().m && Img().m[newId] == r.value
    {
      ghost var im := Img();
      IndexRoom(im);
      r := TakeId(id, Bid, |bids.levels|);
      if r.None? {
        WithoutNone(im.m, id);
        return None;
      }
      IndexFacts(im, id);
      var slot := r.value;
      arena.LiveIsNotFree(slot);
      var o := arena.cells[slot].value;
      ghost var k := Find(im.Of(o.s)[o.px].fifo, slot);
      FindIsPosition(im, id, k);
      RenameView(im, o.s, o.px, k, newId);
      WithoutOne(im.m, id);
      WriteOrder(slot, o.(id := newId), Bid, |bids.levels|);
      InsertId(newId, slot, Bid, |bids.levels|);
      assert Img() == RenameImage(im, o.s, o.px, k, newId);
    }

    /** Change the quantity of the order that id names where it stands. */
    method Resize(slot: nat, qty: nat, ghost id: nat)
      requires Valid() && id in Img().m && Img().m[id] == slot && qty > 0
      modifies Repr
      ensures Valid() && Abs() == ResizeOrder(old(Abs()), id, qty) && Img().m == old(Img()).m
    {
      ghost var im := Img();
      IndexFacts(im, id);
      arena.LiveIsNotFree(slot);
      var o := arena.cells[slot].value;
      var k := Find(On(o.s).levels[o.px].fifo, slot);
      FindIsPosition(im, id, k);
      LinkedFacts(im, o.s, o.px, k);
      Requantify(o.s, o.px, k, o.(remaining := qty), ResizeOrder(Abs(), id, qty));
      assert On(o.s).levels[o.px].fifo != [];
    }

    /** Move the order that id names to the back of level px, in the slot it has. */
    method Relink(slot: nat, px: nat, qty: nat, ghost id: nat)
      requires Valid() && id in Img().m && Img().m[id] == slot && qty > 0 && px < |bids.levels|
      modifies Repr
      ensures Valid() && Abs() == RelinkOrder(old(Abs()), id, px, qty)
    {
      ghost var im, n := Img(), |bids.levels|;
      IndexFacts(im, id);
      arena.LiveIsNotFree(slot);
      var o := arena.cells[slot].value;
      var k := Find(On(o.s).levels[o.px].fifo, slot);
      FindIsPosition(im, id, k);
      LinkedFacts(im, o.s, o.px, k);
      var o' := o.(px := px, remaining := qty);
      RelinkView(im, o.s, o.px, k, o');
      Unlink(o.s, o.px, k, o.remaining);
      WriteOrder(slot, o', o.s, n);
      LinkBack(o.s, slot, px, qty);
      assert Img() == RelinkImage(im, o.s, o.px, k, o');
    }
  
    // ----- queries

    /** The cached best price is the best populated price. */
    method BestPrice(s: Side) returns (r: Option<nat>)
      requires Valid()
      ensures r == Best(s, Abs().Of(s))
    {
      r := On(s).best;
      Populated(s);
      if r.Some? {
        BestUnique(s, Abs().Of(s), r.value);
      } else {
        BestNone(s, Abs().Of(s));
      }
    }

    lemma Populated(s: Side)
      requires Valid()
      ensures |Abs().Of(s)| == |bids.levels|
      ensures forall p: nat | p < |bids.levels| :: p in On(s).bm.s <==> Abs().Of(s)[p] != []
      ensures forall p | p in On(s).bm.s :: p < |bids.levels|
      ensures On(s).side == s
    {
      ViewOf(Img(), s);
    }

    /** The cached aggregate is the sum of the level. */
    method AggregateAt(s: Side, px: nat) returns (q: nat)
      requires Valid() && px < |bids.levels|
      ensures q == FifoQty(Abs().Of(s)[px])
    {
      ViewOf(Img(), s);
      assert LevelSound(Img().Of(s)[px], Img().mem);
      q := On(s).levels[px].aggregate;
    }

    /** The best populated price strictly worse than px. */
    method NextWorse(s: Side, px: nat) returns (r: Option<nat>)
      requires Valid()
      ensures r.None? ==> forall p: nat | p < |bids.levels| && Better(s, px, p) :: Abs().Of(s)[p] == []
      ensures r.Some? ==>
                && r.value < |bids.levels| && Abs().Of(s)[r.value] != [] && Better(s, px, r.value)
                && forall p: nat | p < |bids.levels| && Abs().Of(s)[p] != []
                     && Better(s, px, p) :: !Better(s, p, r.value)
    {
      Populated(s);
      r := On(s).NextWorse(px);
    }

    /** The lowest populated price from px up. */
    method NextPopulated(s: Side, px: nat) returns (r: Option<nat>)
      requires Valid()
      ensures r.None? ==> forall p: nat | px <= p < |bids.levels| :: Abs().Of(s)[p] == []
      ensures r.Some? ==>
                && px <= r.value < |bids.levels| && Abs().Of(s)[r.value] != []
                && forall p: nat | px <= p < r.value :: Abs().Of(s)[p] == []
    {
      Populated(s);
      r := On(s).NextPopulated(px);
    }

    /** The k-th order of a level, when there is one. */
    method OrderAt(s: Side, px: nat, k: nat) returns (r: Option<Order>)
      requires ValidBut(s, px) && px < |bids.levels|
      ensures r == if k < |Abs().Of(s)[px]| then Some(Abs().Of(s)[px][k].o) else None
    {
      ViewOf(Img(), s);
      if k >= |On(s).levels[px].fifo| {
        return None;
      }
      LinkedFacts(Img(), s, px, k);
      arena.LiveIsNotFree(On(s).levels[px].fifo[k]);
      r := Some(arena.cells[On(s).levels[px].fifo[k]].value);
    }
  }
}
