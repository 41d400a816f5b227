/** The elementary changes of the book carried out on levels, memory and index. */
module ImageSteps {
  import opened Types
  import opened Ladders
  import opened Books
  import opened Arenas
  import opened BookSides
  import opened DenseBook

  predicate InRange(im: Image, s: Side, px: nat, k: nat) {
    && px < |im.Of(s)| && k < |im.Of(s)[px].fifo| && im.Of(s)[px].fifo[k] < |im.mem| == |im.gens|
    && At(im.mem, im.Of(s)[px].fifo[k]).remaining <= im.Of(s)[px].aggregate
  }

  // ----- unlinking an order and releasing its slot

  function RemoveImage(im: Image, s: Side, px: nat, k: nat): Image
    requires InRange(im, s, px, k)
  {
    var slot := im.Of(s)[px].fifo[k];
    var o := At(im.mem, slot);
    im.With(s, px, im.Of(s)[px].Unlink(k, o.remaining))
    .(mem := im.mem[slot := Link(None)], m := im.m - {o.id}, free := [slot] + im.free, gens := Bump(im.gens, slot))
  }

  lemma UnlinkSide(levels: seq<Level>, mem: Memory, px: nat, k: nat, c: Cell<Order>)
    requires Sound(levels, mem) && px < |levels| && k < |levels[px].fifo| && DistinctSlots(Nodes(levels[px].fifo, mem))
    requires forall p | 0 <= p < |levels| && p != px :: levels[px].fifo[k] !in levels[p].fifo
    ensures levels[px].fifo[k] < |mem| && At(mem, levels[px].fifo[k]).remaining <= levels[px].aggregate
    ensures var slot := levels[px].fifo[k];
            var r := levels[px := levels[px].Unlink(k, At(mem, slot).remaining)];
            && Unlinked(r, slot) && LadderOf(r, mem) == LadderOf(r, mem[slot := c])
            && LadderOf(r, mem) == LadderOf(levels, mem)[px := RemoveAt(LadderOf(levels, mem)[px], k)]
            && Sound(r, mem) && Sound(r, mem[slot := c])
  {
    var slot, lv, f := levels[px].fifo[k], levels[px], Nodes(levels[px].fifo, mem);
    assert LevelSound(lv, mem);
    FifoQtyRemove(f, k);
    var lv' := lv.Unlink(k, At(mem, slot).remaining);
    assert Nodes(lv'.fifo, mem) == RemoveAt(f, k);
    assert LevelSound(lv', mem);
    ChangeLevel(levels, mem, px, lv');
    assert slot !in lv'.fifo by {
      forall i | 0 <= i < |lv'.fifo| ensures lv'.fifo[i] != slot {
        assert f[if i < k then i else i + 1].slot == lv'.fifo[i];
      }
    }
    WriteUnlinked(levels[px := lv'], mem, slot, c);
  }

  /** With the k-th slot of a level unlinked, whatever its memory becomes does not matter. */
  lemma UnlinkLadder(im: Image, s: Side, px: nat, k: nat, c: Cell<Order>)
    requires ImageOk(im) && px < |im.Of(s)| && k < |im.Of(s)[px].fifo|
    ensures InRange(im, s, px, k)
    ensures var slot := im.Of(s)[px].fifo[k];
            var levels := im.Of(s)[px := im.Of(s)[px].Unlink(k, At(im.mem, slot).remaining)];
            && Unlinked(levels, slot)
            && LadderOf(levels, im.mem) == LadderOf(levels, im.mem[slot := c])
            && LadderOf(levels, im.mem) == View(im).Of(s)[px := RemoveAt(View(im).Of(s)[px], k)]
            && Sound(levels, im.mem) && Sound(levels, im.mem[slot := c])
  {
    LinkedFacts(im, s, px, k);
    LinkedOnce(im, s, px, k);
    UnlinkSide(im.Of(s), im.mem, px, k, c);
  }

  /** The other side does not see a change of this side's slot. */
  lemma OtherSide(im: Image, s: Side, px: nat, k: nat, c: Cell<Order>)
    requires ImageOk(im) && px < |im.Of(s)| && k < |im.Of(s)[px].fifo|
    ensures var slot, opp := im.Of(s)[px].fifo[k], im.Of(Opposite(s));
            && slot < |im.mem|
            && LadderOf(opp, im.mem[slot := c]) == View(im).Of(Opposite(s))
            && Sound(opp, im.mem[slot := c])
  {
    LinkedFacts(im, s, px, k);
    LinkedOnce(im, s, px, k);
    WriteUnlinked(im.Of(Opposite(s)), im.mem, im.Of(s)[px].fifo[k], c);
  }

  /** Entries other than the order's own do not see a change of its slot. */
  lemma OtherEntries(im: Image, s: Side, px: nat, k: nat, c: Cell<Order>)
    requires ImageOk(im) && px < |im.Of(s)| && k < |im.Of(s)[px].fifo| && im.Of(s)[px].fifo[k] < |im.mem|
    ensures var slot := im.Of(s)[px].fifo[k];
            forall id | id in im.m && id != At(im.mem, slot).id ::
              im.m[id] != slot && PtrOf(im.mem[slot := c], im.m[id]) == View(im).idx[id]
  {
    var slot := im.Of(s)[px].fifo[k];
    forall id | id in im.m && id != At(im.mem, slot).id ensures im.m[id] != slot {
      IndexFacts(im, id);
    }
  }

  lemma RemoveView(im: Image, s: Side, px: nat, k: nat)
    requires ImageOk(im) && px < |im.Of(s)| && k < |im.Of(s)[px].fifo|
    ensures InRange(im, s, px, k)
    ensures View(RemoveImage(im, s, px, k)) == RemoveNode(View(im), s, px, k)
    ensures ImageOk(RemoveImage(im, s, px, k))
  {
    UnlinkLadder(im, s, px, k, Link(None));
    OtherSide(im, s, px, k, Link(None));
    OtherEntries(im, s, px, k, Link(None));
    LinkedFacts(im, s, px, k);
    RemoveNodeWf(View(im), s, px, k);
    var r, w := RemoveImage(im, s, px, k), RemoveNode(View(im), s, px, k);
    assert View(r).idx == w.idx;
  }

  // ----- rewriting an order where it stands

  /** The k-th order of a level becomes o, the aggregate following the quantity. */
  function SetImage(im: Image, s: Side, px: nat, k: nat, o: Order): Image
    requires InRange(im, s, px, k)
  {
    var slot, lv := im.Of(s)[px].fifo[k], im.Of(s)[px];
    im.With(s, px, lv.(aggregate := lv.aggregate - At(im.mem, slot).remaining + o.remaining))
    .(mem := im.mem[slot := Item(o)])
  }

  lemma SetLadder(im: Image, s: Side, px: nat, k: nat, o: Order)
    requires ImageOk(im) && px < |im.Of(s)| && k < |im.Of(s)[px].fifo|
    ensures InRange(im, s, px, k)
    ensures var r := SetImage(im, s, px, k, o);
            && LadderOf(r.Of(s), r.mem) == View(im).Of(s)[px := View(im).Of(s)[px][k := Node(im.Of(s)[px].fifo[k], o)]]
            && Sound(r.Of(s), r.mem)
  {
    LinkedFacts(im, s, px, k);
    LinkedOnce(im, s, px, k);
    var slot, lv := im.Of(s)[px].fifo[k], im.Of(s)[px];
    RewriteOrder(im.Of(s), im.mem, s, px, k, o);
    var r := SetImage(im, s, px, k, o);
    ChangeLevel(im.Of(s), r.mem, px, r.Of(s)[px]);
    FifoQtyUpdate(Nodes(lv.fifo, im.mem), k, Node(slot, o));
    forall p | 0 <= p < |im.Of(s)| ensures LevelSound(r.Of(s)[p], r.mem) {
      assert LevelSound(im.Of(s)[p], im.mem);
      assert LadderOf(im.Of(s), r.mem)[p] == Nodes(im.Of(s)[p].fifo, r.mem);
    }
  }

  lemma SetIdx(im: Image, s: Side, px: nat, k: nat, o: Order)
    requires ImageOk(im) && InRange(im, s, px, k)
    requires o.s == s && o.px == px && o.id == At(im.mem, im.Of(s)[px].fifo[k]).id
    ensures View(SetImage(im, s, px, k, o)).idx == View(im).idx
  {
    LinkedFacts(im, s, px, k);
    OtherEntries(im, s, px, k, Item(o));
  }

  lemma SetParts(im: Image, s: Side, px: nat, k: nat, o: Order)
    requires ImageOk(im) && px < |im.Of(s)| && k < |im.Of(s)[px].fifo|
    requires o.s == s && o.px == px && o.id == At(im.mem, im.Of(s)[px].fifo[k]).id
    ensures InRange(im, s, px, k)
    ensures var r := SetImage(im, s, px, k, o);
            && View(r) == SetNode(View(im), s, px, k, o)
            && |r.mem| == |r.gens| && Sound(r.bids, r.mem) && Sound(r.asks, r.mem)
  {
    LinkedFacts(im, s, px, k);
    SetLadder(im, s, px, k, o);
    OtherSide(im, s, px, k, Item(o));
    SetIdx(im, s, px, k, o);
  }

  lemma SetView(im: Image, s: Side, px: nat, k: nat, o: Order)
    requires ImageOk(im) && px < |im.Of(s)| && k < |im.Of(s)[px].fifo|
    requires o.s == s && o.px == px && o.remaining > 0 && o.id == At(im.mem, im.Of(s)[px].fifo[k]).id
    ensures InRange(im, s, px, k)
    ensures View(SetImage(im, s, px, k, o)) == SetNode(View(im), s, px, k, o)
    ensures ImageOk(SetImage(im, s, px, k, o))
  {
    LinkedFacts(im, s, px, k);
    SetParts(im, s, px, k, o);
    SetNodeWf(View(im), s, px, k, o);
  }

  // ----- renaming an order

  function RenameImage(im: Image, s: Side, px: nat, k: nat, newId: nat): Image
    requires InRange(im, s, px, k)
  {
    var slot := im.Of(s)[px].fifo[k];
    var o := At(im.mem, slot);
    im.(mem := im.mem[slot := Item(o.(id := newId))], m := (im.m - {o.id})[newId := slot])
  }

  lemma RenameLadders(im: Image, s: Side, px: nat, k: nat, newId: nat)
    requires ImageOk(im) && px < |im.Of(s)| && k < |im.Of(s)[px].fifo|
    ensures InRange(im, s, px, k)
    ensures var r := RenameImage(im, s, px, k, newId);
            && View(r) == RenameNode(View(im), s, px, k, newId)
            && Sound(r.bids, r.mem) && Sound(r.asks, r.mem)
  {
    LinkedFacts(im, s, px, k);
    var o := At(im.mem, im.Of(s)[px].fifo[k]).(id := newId);
    SetLadder(im, s, px, k, o);
    OtherSide(im, s, px, k, Item(o));
    var r := RenameImage(im, s, px, k, newId);
    var w := RenameNode(View(im), s, px, k, newId);
    RenameIdx(im, s, px, k, newId);
    assert SetImage(im, s, px, k, o).Of(s) == im.Of(s);
    assert View(r).Of(s) == w.Of(s) && Sound(r.Of(s), r.mem);
    assert View(r).Of(Opposite(s)) == w.Of(Opposite(s)) && Sound(r.Of(Opposite(s)), r.mem);
  }

  lemma RenameIdx(im: Image, s: Side, px: nat, k: nat, newId: nat)
    requires ImageOk(im) && InRange(im, s, px, k)
    ensures View(RenameImage(im, s, px, k, newId)).idx == RenameNode(View(im), s, px, k, newId).idx
  {
    LinkedFacts(im, s, px, k);
    OtherEntries(im, s, px, k, Item(At(im.mem, im.Of(s)[px].fifo[k]).(id := newId)));
  }

  lemma RenameView(im: Image, s: Side, px: nat, k: nat, newId: nat)
    requires ImageOk(im) && px < |im.Of(s)| && k < |im.Of(s)[px].fifo|
    requires ValidId(newId)
    ensures InRange(im, s, px, k)
    ensures View(RenameImage(im, s, px, k, newId)) == RenameNode(View(im), s, px, k, newId)
    ensures ImageOk(RenameImage(im, s, px, k, newId))
  {
    RenameLadders(im, s, px, k, newId);
    RenameNodeWf(View(im), s, px, k, newId);
  }

  // ----- linking a new order

  function AddImage(im: Image, o: Order): Image
    requires o.px < |im.Of(o.s)| && im.free != [] && im.free[0] < |im.mem| == |im.gens|
  {
    var slot := im.free[0];
    im.With(o.s, o.px, im.Of(o.s)[o.px].PushBack(slot, o.remaining))
    .(mem := im.mem[slot := Item(o)], m := im.m[o.id := slot], free := im.free[1..], gens := Bump(im.gens, slot))
  }

  lemma FreeUnlinked(im: Image, i: nat)
    requires ImageOk(im) && i < |im.free|
    ensures im.free[i] < |im.mem| && Unlinked(im.bids, im.free[i]) && Unlinked(im.asks, im.free[i])
  {
    forall s: Side, px, j | 0 <= px < |im.Of(s)| && 0 <= j < |im.Of(s)[px].fifo|
      ensures im.Of(s)[px].fifo[j] != im.free[i]
    {
      LinkedFacts(im, s, px, j);
    }
    forall s: Side, px | 0 <= px < |im.Of(s)| ensures im.free[i] !in im.Of(s)[px].fifo {
    }
    assert im.Of(Bid) == im.bids && im.Of(Ask) == im.asks;
    FreeSlot(View(im), i);
  }

  lemma FreeSlot(b: Book, i: nat)
    requires Partition(b) && i < |b.free|
    ensures b.free[i] < |b.gens|
  {
    assert Once(b, b.free[i]);
    assert b.free[i] in multiset(b.free);
  }

  /** Appending a slot of which nothing is linked yet. */
  lemma AppendLadder(levels: seq<Level>, mem: Memory, o: Order, slot: nat)
    requires Unlinked(levels, slot) && slot < |mem| && o.px < |levels| && Sound(levels, mem)
    ensures var lv := levels[o.px].PushBack(slot, o.remaining);
            && LadderOf(levels[o.px := lv], mem[slot := Item(o)]) ==
               LadderOf(levels, mem)[o.px := LadderOf(levels, mem)[o.px] + [Node(slot, o)]]
            && Sound(levels[o.px := lv], mem[slot := Item(o)])
  {
    var mem' := mem[slot := Item(o)];
    var lv := levels[o.px].PushBack(slot, o.remaining);
    WriteUnlinked(levels, mem, slot, Item(o));
    ChangeLevel(levels, mem', o.px, lv);
    var f := Nodes(levels[o.px].fifo, mem');
    assert Nodes(lv.fifo, mem') == f + [Node(slot, o)];
    FifoQtyAppend(f, [Node(slot, o)]);
    assert LevelSound(levels[o.px], mem');
  }

  lemma AddView(im: Image, o: Order)
    requires ImageOk(im) && o.px < |im.Of(o.s)| && im.free != [] && o.remaining > 0 && ValidId(o.id)
    ensures im.free[0] < |im.mem|
    ensures View(AddImage(im, o)) == AddNode(View(im), o)
    ensures ImageOk(AddImage(im, o))
  {
    var slot := im.free[0];
    FreeUnlinked(im, 0);
    AppendLadder(im.Of(o.s), im.mem, o, slot);
    WriteUnlinked(im.Of(Opposite(o.s)), im.mem, slot, Item(o));
    AddNodeWf(View(im), o);
    var r := AddImage(im, o);
    forall id | id in im.m ensures im.m[id] != slot {
      IndexFacts(im, id);
    }
    assert View(r).idx == AddNode(View(im), o).idx;
  }

  // ----- moving an order to another price in its slot

  function RelinkImage(im: Image, s: Side, px: nat, k: nat, o: Order): Image
    requires InRange(im, s, px, k) && o.px < |im.Of(s)|
  {
    var slot := im.Of(s)[px].fifo[k];
    var mid := im.With(s, px, im.Of(s)[px].Unlink(k, At(im.mem, slot).remaining));
    mid.With(s, o.px, mid.Of(s)[o.px].PushBack(slot, o.remaining)).(mem := im.mem[slot := Item(o)])
  }

  lemma RelinkLadders(im: Image, s: Side, px: nat, k: nat, o: Order)
    requires ImageOk(im) && px < |im.Of(s)| && k < |im.Of(s)[px].fifo|
    requires o.s == s && o.px < |im.Of(s)| && o.id == At(im.mem, im.Of(s)[px].fifo[k]).id
    requires o.id in im.m && im.m[o.id] == im.Of(s)[px].fifo[k]
    ensures InRange(im, s, px, k)
    ensures var r := RelinkImage(im, s, px, k, o);
            && View(r) == RelinkNode(View(im), s, px, k, o)
            && Sound(r.bids, r.mem) && Sound(r.asks, r.mem)
  {
    UnlinkLadder(im, s, px, k, Item(o));
    var slot := im.Of(s)[px].fifo[k];
    var levels := im.Of(s)[px := im.Of(s)[px].Unlink(k, At(im.mem, slot).remaining)];
    AppendLadder(levels, im.mem, o, slot);
    OtherSide(im, s, px, k, Item(o));
    OtherEntries(im, s, px, k, Item(o));
    var r := RelinkImage(im, s, px, k, o);
    assert View(r).idx == RelinkNode(View(im), s, px, k, o).idx;
  }

  lemma RelinkView(im: Image, s: Side, px: nat, k: nat, o: Order)
    requires ImageOk(im) && px < |im.Of(s)| && k < |im.Of(s)[px].fifo|
    requires o.s == s && o.px < |im.Of(s)| && o.remaining > 0 && o.id == At(im.mem, im.Of(s)[px].fifo[k]).id
    requires o.id in im.m && im.m[o.id] == im.Of(s)[px].fifo[k]
    ensures InRange(im, s, px, k)
    ensures View(RelinkImage(im, s, px, k, o)) == RelinkNode(View(im), s, px, k, o)
    ensures ImageOk(RelinkImage(im, s, px, k, o))
  {
    LinkedFacts(im, s, px, k);
    RelinkLadders(im, s, px, k, o);
    RelinkNodeWf(View(im), s, px, k, o);
  }
}
