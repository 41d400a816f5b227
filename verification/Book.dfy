/** The book of the single-symbol matching engine as a value, the invariant of its book, and the
    elementary changes every command is built from. */
module Books {
  import opened Types
  import opened Ladders
  import opened Counting

  /** Where the index finds an order: its side, its price and its storage slot. */
  datatype Ptr = Ptr(s: Side, px: nat, slot: nat)

  /** Both sides, the index, the free slots (next one first) and the generation of every slot. */
  datatype Book = Book(bids: Ladder, asks: Ladder, idx: map<nat, Ptr>, free: seq<nat>, gens: seq<nat>)
  {
    function Of(s: Side): Ladder {
      if s.Bid? then bids else asks
    }

    function With(s: Side, l: Ladder): Book {
      if s.Bid? then this.(bids := l) else this.(asks := l)
    }

    function Ticks(): nat {
      |bids|
    }
  }

  // ----- well-formed states

  /** How often a slot is linked in a FIFO. */
  function InFifo(f: seq<Node>, slot: nat): nat {
    if f == [] then 0 else (if f[0].slot == slot then 1 else 0) + InFifo(f[1..], slot)
  }

  /** How often a slot is linked anywhere on a side. */
  function Linked(l: Ladder, slot: nat): nat {
    if l == [] then 0 else InFifo(l[0], slot) + Linked(l[1..], slot)
  }

  predicate PlacedAt(s: Side, l: Ladder, px: nat, i: nat)
    requires px < |l| && i < |l[px]|
  {
    l[px][i].o.s == s && l[px][i].o.px == px && l[px][i].o.remaining > 0 && ValidId(l[px][i].o.id)
  }

  /** Every order rests at its own side and price, has quantity left and a proper id. */
  predicate Placed(s: Side, l: Ladder) {
    forall px: nat, i: nat {:trigger PlacedAt(s, l, px, i)} | px < |l| && i < |l[px]| :: PlacedAt(s, l, px, i)
  }

  /** A level whose nodes come from a placed level, or are placed themselves, may replace it. */
  lemma PlacedLevel(s: Side, l: Ladder, px: nat, f: seq<Node>)
    requires Placed(s, l) && px < |l|
    requires forall n | n in f :: n in l[px] || (n.o.s == s && n.o.px == px && n.o.remaining > 0 && ValidId(n.o.id))
    ensures Placed(s, l[px := f])
  {
    var l' := l[px := f];
    forall q: nat, i: nat | q < |l'| && i < |l'[q]| ensures PlacedAt(s, l', q, i) {
      if q != px {
        assert PlacedAt(s, l, q, i);
      } else {
        assert f[i] in f;
        if f[i] in l[px] {
          var j :| 0 <= j < |l[px]| && l[px][j] == f[i];
          assert PlacedAt(s, l, px, j);
        }
      }
    }
  }

  predicate PtrOk(b: Book, id: nat, p: Ptr) {
    p.px < |b.Of(p.s)| &&
    var f := b.Of(p.s)[p.px];
    IndexOf(f, p.slot) < |f| && f[IndexOf(f, p.slot)].o.id == id
  }

  /** Every index entry names a resting order that carries that id. */
  predicate IndexSound(b: Book) {
    forall id {:trigger PtrOk(b, id, b.idx[id])} | id in b.idx :: PtrOk(b, id, b.idx[id])
  }

  predicate Once(b: Book, slot: nat) {
    Linked(b.bids, slot) + Linked(b.asks, slot) + multiset(b.free)[slot] == (if slot < |b.gens| then 1 else 0)
  }

  /** Every slot is linked in exactly one FIFO, once, or is free; nothing else is linked or free. */
  ghost predicate Partition(b: Book) {
    forall slot: nat :: Once(b, slot)
  }

  ghost predicate Wf(b: Book) {
    && |b.bids| == |b.asks|
    && Placed(Bid, b.bids) && Placed(Ask, b.asks)
    && Partition(b)
    && IndexSound(b)
  }

  // ----- elementary changes of the book

  /** A 32-bit generation moves on by one at every allocation and every release. */
  function Bump(gens: seq<nat>, slot: nat): seq<nat>
    requires slot < |gens|
  {
    gens[slot := (gens[slot] + 1) % GENERATIONS]
  }

  /** Unlink the k-th order of a level, drop its index entry and release its slot. */
  function RemoveNode(b: Book, s: Side, px: nat, k: nat): (r: Book)
    requires px < |b.Of(s)| && k < |b.Of(s)[px]| && b.Of(s)[px][k].slot < |b.gens|
  {
    var n := b.Of(s)[px][k];
    b.With(s, b.Of(s)[px := RemoveAt(b.Of(s)[px], k)])
    .(idx := b.idx - {n.o.id}, free := [n.slot] + b.free, gens := Bump(b.gens, n.slot))
  }

  /** Rewrite the k-th order of a level where it stands. */
  function SetNode(b: Book, s: Side, px: nat, k: nat, o: Order): (r: Book)
    requires px < |b.Of(s)| && k < |b.Of(s)[px]|
  {
    var f := b.Of(s)[px];
    b.With(s, b.Of(s)[px := f[k := Node(f[k].slot, o)]])
  }

  /** Take the first free slot for o and link it at the back of its level. */
  function AddNode(b: Book, o: Order): (r: Book)
    requires o.px < |b.Of(o.s)| && b.free != [] && b.free[0] < |b.gens|
  {
    var slot := b.free[0];
    b.With(o.s, b.Of(o.s)[o.px := b.Of(o.s)[o.px] + [Node(slot, o)]])
    .(idx := b.idx[o.id := Ptr(o.s, o.px, slot)], free := b.free[1..], gens := Bump(b.gens, slot))
  }

  /** Give the k-th order of a level another id, moving its index entry along. */
  function RenameNode(b: Book, s: Side, px: nat, k: nat, id: nat): (r: Book)
    requires px < |b.Of(s)| && k < |b.Of(s)[px]|
  {
    var n := b.Of(s)[px][k];
    SetNode(b, s, px, k, n.o.(id := id)).(idx := (b.idx - {n.o.id})[id := Ptr(s, px, n.slot)])
  }

  /** Move the k-th order of a level to the back of the level of o.px, in the slot it has. */
  function RelinkNode(b: Book, s: Side, px: nat, k: nat, o: Order): (r: Book)
    requires px < |b.Of(s)| && k < |b.Of(s)[px]| && o.px < |b.Of(s)|
  {
    var f := b.Of(s)[px];
    var l := b.Of(s)[px := RemoveAt(f, k)];
    b.With(s, l[o.px := l[o.px] + [Node(f[k].slot, o)]])
    .(idx := b.idx[o.id := Ptr(s, o.px, f[k].slot)])
  }

  // ----- facts about slots

  lemma {:induction false} InFifoAppend(f: seq<Node>, g: seq<Node>, slot: nat)
    ensures InFifo(f + g, slot) == InFifo(f, slot) + InFifo(g, slot)
  {
    if f == [] {
      assert f + g == g;
    } else {
      assert (f + g)[1..] == f[1..] + g;
      InFifoAppend(f[1..], g, slot);
    }
  }

  lemma InFifoRemove(f: seq<Node>, k: nat, slot: nat)
    requires k < |f|
    ensures InFifo(f, slot) == InFifo(RemoveAt(f, k), slot) + (if f[k].slot == slot then 1 else 0)
  {
    assert f == f[..k] + ([f[k]] + f[k + 1..]);
    InFifoAppend(f[..k], [f[k]] + f[k + 1..], slot);
    InFifoAppend(f[..k], f[k + 1..], slot);
    assert ([f[k]] + f[k + 1..])[1..] == f[k + 1..];
  }

  lemma InFifoUpdate(f: seq<Node>, k: nat, o: Order, slot: nat)
    requires k < |f|
    ensures InFifo(f[k := Node(f[k].slot, o)], slot) == InFifo(f, slot)
  {
    var g := f[k := Node(f[k].slot, o)];
    InFifoRemove(f, k, slot);
    InFifoRemove(g, k, slot);
    assert RemoveAt(f, k) == RemoveAt(g, k);
  }

  lemma {:induction false} LinkedUpdate(l: Ladder, px: nat, f: seq<Node>, slot: nat)
    requires px < |l|
    ensures Linked(l[px := f], slot) + InFifo(l[px], slot) == Linked(l, slot) + InFifo(f, slot)
  {
    if px == 0 {
      assert l[px := f][1..] == l[1..];
    } else {
      assert l[px := f][1..] == l[1..][px - 1 := f];
      LinkedUpdate(l[1..], px - 1, f, slot);
    }
  }

  lemma {:induction false} LinkedAtLeast(l: Ladder, px: nat, slot: nat)
    requires px < |l|
    ensures Linked(l, slot) >= InFifo(l[px], slot)
  {
    if px > 0 {
      LinkedAtLeast(l[1..], px - 1, slot);
    }
  }

  /** A linked slot is in range, is not free, and stands once in its level. */
  lemma SlotFacts(b: Book, s: Side, px: nat, k: nat)
    requires Partition(b) && px < |b.Of(s)| && k < |b.Of(s)[px]|
    ensures b.Of(s)[px][k].slot < |b.gens|
    ensures b.Of(s)[px][k].slot !in b.free
    ensures IndexOf(b.Of(s)[px], b.Of(s)[px][k].slot) == k
  {
    var f := b.Of(s)[px];
    var slot := f[k].slot;
    InFifoRemove(f, k, slot);
    LinkedAtLeast(b.Of(s), px, slot);
    assert Once(b, slot);
    assert slot in b.free ==> slot in multiset(b.free);
    var j := IndexOf(f, slot);
    if j < k {
      assert RemoveAt(f, k)[j].slot == slot;
      InFifoRemove(RemoveAt(f, k), j, slot);
      assert false;
    }
  }

  /** A free slot is in range and linked nowhere. */
  lemma FreeFacts(b: Book, i: nat, s: Side, px: nat)
    requires Partition(b) && i < |b.free| && px < |b.Of(s)|
    ensures b.free[i] < |b.gens|
    ensures IndexOf(b.Of(s)[px], b.free[i]) == |b.Of(s)[px]|
  {
    var f := b.Of(s)[px];
    var slot := b.free[i];
    assert slot in multiset(b.free);
    assert Once(b, slot);
    LinkedAtLeast(b.Of(s), px, slot);
    if IndexOf(f, slot) < |f| {
      InFifoRemove(f, IndexOf(f, slot), slot);
      assert false;
    }
  }

  // ----- the elementary changes keep the book well formed

  lemma IndexOfRemove(f: seq<Node>, k: nat, slot: nat)
    requires k < |f| && f[k].slot != slot && IndexOf(f, slot) < |f|
    ensures var g := RemoveAt(f, k); IndexOf(g, slot) < |g| && g[IndexOf(g, slot)] == f[IndexOf(f, slot)]
  {
    var g, j := RemoveAt(f, k), IndexOf(f, slot);
    var i := if j < k then j else j - 1;
    assert g[i] == f[j];
    assert forall h | 0 <= h < i :: g[h].slot != slot;
    IndexOfFirst(g, i, slot);
  }

  lemma {:induction false} IndexOfFirst(f: seq<Node>, k: nat, slot: nat)
    requires k < |f| && f[k].slot == slot && forall i | 0 <= i < k :: f[i].slot != slot
    ensures IndexOf(f, slot) == k
  {
  }

  lemma IndexOfAppend(f: seq<Node>, n: Node, slot: nat)
    ensures IndexOf(f, slot) < |f| ==> IndexOf(f + [n], slot) == IndexOf(f, slot)
    ensures IndexOf(f, slot) == |f| && n.slot == slot ==> IndexOf(f + [n], slot) == |f|
  {
    var j := IndexOf(f, slot);
    if j < |f| || n.slot == slot {
      IndexOfFirst(f + [n], j, slot);
    }
  }

  lemma RemovePartition(b: Book, s: Side, px: nat, k: nat)
    requires Partition(b) && px < |b.Of(s)| && k < |b.Of(s)[px]| && b.Of(s)[px][k].slot < |b.gens|
    ensures Partition(RemoveNode(b, s, px, k))
  {
    var f := b.Of(s)[px];
    var r := RemoveNode(b, s, px, k);
    assert multiset(r.free) == multiset{f[k].slot} + multiset(b.free);
    forall slot: nat ensures Once(r, slot) {
      assert Once(b, slot);
      LinkedUpdate(b.Of(s), px, RemoveAt(f, k), slot);
      InFifoRemove(f, k, slot);
    }
  }

  lemma RemoveIndexSound(b: Book, s: Side, px: nat, k: nat)
    requires IndexSound(b) && px < |b.Of(s)| && k < |b.Of(s)[px]| && b.Of(s)[px][k].slot < |b.gens|
    requires IndexOf(b.Of(s)[px], b.Of(s)[px][k].slot) == k
    ensures IndexSound(RemoveNode(b, s, px, k))
  {
    var f := b.Of(s)[px];
    var r := RemoveNode(b, s, px, k);
    forall id | id in r.idx ensures PtrOk(r, id, r.idx[id]) {
      var p := b.idx[id];
      assert PtrOk(b, id, p);
      if p.s == s && p.px == px {
        assert p.slot != f[k].slot;
        IndexOfRemove(f, k, p.slot);
      }
    }
  }

  lemma RemoveNodeWf(b: Book, s: Side, px: nat, k: nat)
    requires Wf(b) && px < b.Ticks() && k < |b.Of(s)[px]|
    ensures b.Of(s)[px][k].slot < |b.gens|
    ensures Wf(RemoveNode(b, s, px, k))
  {
    PlacedLevel(s, b.Of(s), px, RemoveAt(b.Of(s)[px], k));
    SlotFacts(b, s, px, k);
    RemovePartition(b, s, px, k);
    RemoveIndexSound(b, s, px, k);
  }

  lemma SetPartition(b: Book, s: Side, px: nat, k: nat, o: Order)
    requires Partition(b) && px < |b.Of(s)| && k < |b.Of(s)[px]|
    ensures Partition(SetNode(b, s, px, k, o))
  {
    var f := b.Of(s)[px];
    var r := SetNode(b, s, px, k, o);
    forall slot: nat ensures Once(r, slot) {
      assert Once(b, slot);
      LinkedUpdate(b.Of(s), px, r.Of(s)[px], slot);
      InFifoUpdate(f, k, o, slot);
    }
  }

  /** Rewriting an order leaves every index entry sound that does not name the order by an id it lost. */
  lemma SetPtrOk(b: Book, s: Side, px: nat, k: nat, o: Order, id: nat, p: Ptr)
    requires px < |b.Of(s)| && k < |b.Of(s)[px]| && PtrOk(b, id, p)
    requires o.id == b.Of(s)[px][k].o.id || id != b.Of(s)[px][k].o.id
    ensures PtrOk(SetNode(b, s, px, k, o), id, p)
  {
    var f := b.Of(s)[px];
    var r := SetNode(b, s, px, k, o);
    if p.s == s && p.px == px {
      assert r.Of(s)[px] == f[k := Node(f[k].slot, o)];
      IndexOfFirst(r.Of(s)[px], IndexOf(f, p.slot), p.slot);
    } else {
      assert r.Of(p.s)[p.px] == b.Of(p.s)[p.px];
    }
  }

  lemma SetNodeWf(b: Book, s: Side, px: nat, k: nat, o: Order)
    requires Wf(b) && px < b.Ticks() && k < |b.Of(s)[px]|
    requires o.s == s && o.px == px && o.remaining > 0 && o.id == b.Of(s)[px][k].o.id
    ensures Wf(SetNode(b, s, px, k, o))
  {
    assert PlacedAt(s, b.Of(s), px, k);
    PlacedLevel(s, b.Of(s), px, b.Of(s)[px][k := Node(b.Of(s)[px][k].slot, o)]);
    var r := SetNode(b, s, px, k, o);
    SetPartition(b, s, px, k, o);
    forall id | id in r.idx ensures PtrOk(r, id, r.idx[id]) {
      SetPtrOk(b, s, px, k, o, id, b.idx[id]);
    }
  }

  lemma AddPartition(b: Book, o: Order)
    requires Partition(b) && o.px < |b.Of(o.s)| && b.free != [] && b.free[0] < |b.gens|
    ensures Partition(AddNode(b, o))
  {
    var f := b.Of(o.s)[o.px];
    var n := Node(b.free[0], o);
    var r := AddNode(b, o);
    assert b.free == [n.slot] + b.free[1..];
    forall slot: nat ensures Once(r, slot) {
      assert Once(b, slot);
      LinkedUpdate(b.Of(o.s), o.px, f + [n], slot);
      InFifoAppend(f, [n], slot);
    }
  }

  lemma AddIndexSound(b: Book, o: Order)
    requires IndexSound(b) && o.px < |b.Of(o.s)| && b.free != [] && b.free[0] < |b.gens|
    requires IndexOf(b.Of(o.s)[o.px], b.free[0]) == |b.Of(o.s)[o.px]|
    ensures IndexSound(AddNode(b, o))
  {
    var f := b.Of(o.s)[o.px];
    var n := Node(b.free[0], o);
    var r := AddNode(b, o);
    assert r.Of(o.s)[o.px] == f + [n];
    forall id | id in r.idx ensures PtrOk(r, id, r.idx[id]) {
      var p := r.idx[id];
      if id == o.id {
        assert p == Ptr(o.s, o.px, n.slot);
        IndexOfAppend(f, n, n.slot);
      } else {
        assert PtrOk(b, id, p);
        if p.s == o.s && p.px == o.px {
          IndexOfAppend(f, n, p.slot);
        } else {
          assert r.Of(p.s)[p.px] == b.Of(p.s)[p.px];
        }
      }
    }
  }

  lemma AddNodeWf(b: Book, o: Order)
    requires Wf(b) && o.px < b.Ticks() && o.remaining > 0 && ValidId(o.id) && b.free != []
    ensures b.free[0] < |b.gens|
    ensures Wf(AddNode(b, o))
  {
    PlacedLevel(o.s, b.Of(o.s), o.px, b.Of(o.s)[o.px] + [Node(b.free[0], o)]);
    FreeFacts(b, 0, o.s, o.px);
    AddPartition(b, o);
    AddIndexSound(b, o);
  }

  lemma RenamePtrOk(b: Book, s: Side, px: nat, k: nat, newId: nat)
    requires Partition(b) && px < |b.Of(s)| && k < |b.Of(s)[px]|
    ensures PtrOk(RenameNode(b, s, px, k, newId), newId, Ptr(s, px, b.Of(s)[px][k].slot))
  {
    var f := b.Of(s)[px];
    SlotFacts(b, s, px, k);
    var g := f[k := Node(f[k].slot, f[k].o.(id := newId))];
    assert RenameNode(b, s, px, k, newId).Of(s)[px] == g;
    IndexOfFirst(g, k, f[k].slot);
  }

  lemma RenameNodeWf(b: Book, s: Side, px: nat, k: nat, newId: nat)
    requires Wf(b) && px < b.Ticks() && k < |b.Of(s)[px]|
    requires ValidId(newId)
    ensures Wf(RenameNode(b, s, px, k, newId))
    ensures PtrOk(RenameNode(b, s, px, k, newId), newId, Ptr(s, px, b.Of(s)[px][k].slot))
  {
    assert PlacedAt(s, b.Of(s), px, k);
    PlacedLevel(s, b.Of(s), px, b.Of(s)[px][k := Node(b.Of(s)[px][k].slot, b.Of(s)[px][k].o.(id := newId))]);
    var o := b.Of(s)[px][k].o.(id := newId);
    var mid := SetNode(b, s, px, k, o);
    var r := RenameNode(b, s, px, k, newId);
    assert r.bids == mid.bids && r.asks == mid.asks && r.free == mid.free && r.gens == mid.gens;
    SetPartition(b, s, px, k, o);
    PartitionSame(mid, r);
    RenamePtrOk(b, s, px, k, newId);
    forall id | id in r.idx ensures PtrOk(r, id, r.idx[id]) {
      if id != newId {
        assert r.idx[id] == b.idx[id];
        SetPtrOk(b, s, px, k, o, id, b.idx[id]);
      }
    }
  }

  lemma PartitionSame(a: Book, b: Book)
    requires Partition(a) && a.bids == b.bids && a.asks == b.asks && a.free == b.free && |a.gens| == |b.gens|
    ensures Partition(b)
  {
    forall slot: nat ensures Once(b, slot) {
      assert Once(a, slot);
    }
  }

  /** Relinking leaves what removing the order and adding it again would, except for the generation
      of its slot, which only a release moves on. */
  lemma RelinkIsRemoveThenAdd(b: Book, s: Side, px: nat, k: nat, o: Order)
    requires Wf(b) && px < b.Ticks() && k < |b.Of(s)[px]|
    requires o.s == s && o.px < b.Ticks() && o.id == b.Of(s)[px][k].o.id
    ensures b.Of(s)[px][k].slot < |b.gens|
    ensures RelinkNode(b, s, px, k, o) == AddNode(RemoveNode(b, s, px, k), o).(gens := b.gens)
  {
    SlotFacts(b, s, px, k);
    var mid := RemoveNode(b, s, px, k);
    var r, w := RelinkNode(b, s, px, k, o), AddNode(mid, o);
    assert w.free == b.free;
    assert w.idx == r.idx;
  }

  lemma RelinkNodeWf(b: Book, s: Side, px: nat, k: nat, o: Order)
    requires Wf(b) && px < b.Ticks() && k < |b.Of(s)[px]|
    requires o.s == s && o.px < b.Ticks() && o.remaining > 0 && o.id == b.Of(s)[px][k].o.id
    ensures Wf(RelinkNode(b, s, px, k, o))
  {
    assert PlacedAt(s, b.Of(s), px, k);
    RelinkIsRemoveThenAdd(b, s, px, k, o);
    RemoveNodeWf(b, s, px, k);
    var mid := RemoveNode(b, s, px, k);
    AddNodeWf(mid, o);
    var r, w := RelinkNode(b, s, px, k, o), AddNode(mid, o);
    PartitionSame(w, r);
    forall id | id in r.idx ensures PtrOk(r, id, r.idx[id]) {
      assert PtrOk(w, id, w.idx[id]);
    }
  }

  predicate Reducible(b: Book, s: Side, px: nat, q: nat) {
    px < |b.Of(s)| && b.Of(s)[px] != [] && q <= b.Of(s)[px][0].o.remaining
  }

  /** The front order of a level loses q; it leaves the book when nothing is left of it. */
  function ReduceFront(b: Book, s: Side, px: nat, q: nat): (r: Book)
    requires Wf(b) && Reducible(b, s, px, q)
    ensures Wf(r) && SameShape(b, r) && r.Of(Opposite(s)) == b.Of(Opposite(s))
  {
    var o := b.Of(s)[px][0].o;
    assert PlacedAt(s, b.Of(s), px, 0);
    if o.remaining == q then
      RemoveNodeWf(b, s, px, 0);
      RemoveNode(b, s, px, 0)
    else
      SetNodeWf(b, s, px, 0, o.(remaining := o.remaining - q));
      SetNode(b, s, px, 0, o.(remaining := o.remaining - q))
  }

  // ----- the orders the index names

  /** Position in its level of the order that id names. */
  function Position(b: Book, id: nat): (k: nat)
    requires Wf(b) && id in b.idx
    ensures b.idx[id].px < b.Ticks() && k < |b.Of(b.idx[id].s)[b.idx[id].px]|
    ensures b.Of(b.idx[id].s)[b.idx[id].px][k].slot == b.idx[id].slot
    ensures b.Of(b.idx[id].s)[b.idx[id].px][k].o.id == id
  {
    var p := b.idx[id];
    assert PtrOk(b, id, p);
    IndexOf(b.Of(p.s)[p.px], p.slot)
  }

  function OrderOf(b: Book, id: nat): (o: Order)
    requires Wf(b) && id in b.idx
    ensures o.id == id && o.s == b.idx[id].s && o.px == b.idx[id].px < b.Ticks() && o.remaining > 0 && ValidId(id)
  {
    var p := b.idx[id];
    var k := Position(b, id);
    assert PlacedAt(p.s, b.Of(p.s), p.px, k);
    b.Of(p.s)[p.px][k].o
  }

  /** What the commands never change. */
  predicate SameShape(a: Book, b: Book) {
    a.Ticks() == b.Ticks() && |a.gens| == |b.gens|
  }

  function CancelOrder(b: Book, id: nat): (r: Book)
    requires Wf(b) && id in b.idx
    ensures Wf(r) && SameShape(b, r)
  {
    var p := b.idx[id];
    RemoveNodeWf(b, p.s, p.px, Position(b, id));
    RemoveNode(b, p.s, p.px, Position(b, id))
  }

  function RenameOrder(b: Book, id: nat, newId: nat): (r: Book)
    requires Wf(b) && id in b.idx && ValidId(newId)
    ensures Wf(r) && SameShape(b, r) && newId in r.idx && r.idx[newId] == b.idx[id]
  {
    var p := b.idx[id];
    RenameNodeWf(b, p.s, p.px, Position(b, id), newId);
    RenameNode(b, p.s, p.px, Position(b, id), newId)
  }

  function ResizeOrder(b: Book, id: nat, qty: nat): (r: Book)
    requires Wf(b) && id in b.idx && qty > 0
    ensures Wf(r) && SameShape(b, r)
  {
    var p := b.idx[id];
    var o := OrderOf(b, id).(remaining := qty);
    SetNodeWf(b, p.s, p.px, Position(b, id), o);
    SetNode(b, p.s, p.px, Position(b, id), o)
  }

  function RelinkOrder(b: Book, id: nat, px: nat, qty: nat): (r: Book)
    requires Wf(b) && id in b.idx && qty > 0 && px < b.Ticks()
    ensures Wf(r) && SameShape(b, r)
  {
    var p := b.idx[id];
    var o := OrderOf(b, id).(px := px, remaining := qty);
    RelinkNodeWf(b, p.s, p.px, Position(b, id), o);
    RelinkNode(b, p.s, p.px, Position(b, id), o)
  }

  function AddOrder(b: Book, o: Order): (r: Book)
    requires Wf(b) && o.px < b.Ticks() && o.remaining > 0 && ValidId(o.id) && b.free != []
    ensures Wf(r) && SameShape(b, r)
  {
    AddNodeWf(b, o);
    AddNode(b, o)
  }

  /** The book before the first command. */
  function EmptyBook(ticks: nat, maxOrders: nat): Book {
    Book(seq(ticks, _ => []), seq(ticks, _ => []), map[], Ascending(maxOrders, 0), seq(maxOrders, _ => 0))
  }

  lemma {:induction false} NothingLinked(l: Ladder, slot: nat)
    requires Empty(l)
    ensures Linked(l, slot) == 0
  {
    if l != [] {
      NothingLinked(l[1..], slot);
    }
  }

  lemma EmptyBookWf(ticks: nat, maxOrders: nat)
    ensures Wf(EmptyBook(ticks, maxOrders))
  {
    var b := EmptyBook(ticks, maxOrders);
    forall slot: nat ensures Once(b, slot) {
      NothingLinked(b.bids, slot);
      NothingLinked(b.asks, slot);
      CountedOnce(b.free, slot);
    }
  }
}
