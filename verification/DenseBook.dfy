/** How levels of slots and the arena's memory make up the book, and what changing one slot or one
    level does to it. */
module DenseBook {
  import opened Types
  import opened Ladders
  import opened Books
  import opened Arenas
  import opened BookSides

  type Memory = seq<Cell<Order>>

  const BLANK: Order := Order(0, 0, 0, Bid, Gtc, 0)

  function At(mem: Memory, slot: nat): Order {
    if slot < |mem| && mem[slot].Item? then mem[slot].value else BLANK
  }

  function Nodes(fifo: seq<nat>, mem: Memory): (f: seq<Node>)
    ensures |f| == |fifo|
    ensures forall i | 0 <= i < |f| :: f[i] == Node(fifo[i], At(mem, fifo[i]))
  {
    seq(|fifo|, i requires 0 <= i < |fifo| => Node(fifo[i], At(mem, fifo[i])))
  }

  /** The side of the book that the levels and the memory stand for. */
  function LadderOf(levels: seq<Level>, mem: Memory): (l: Ladder)
    ensures |l| == |levels|
    ensures forall px | 0 <= px < |l| :: l[px] == Nodes(levels[px].fifo, mem)
  {
    seq(|levels|, px requires 0 <= px < |levels| => Nodes(levels[px].fifo, mem))
  }

  /** Every linked slot holds an order, and every cached aggregate is the sum of its level. */
  predicate Sound(levels: seq<Level>, mem: Memory) {
    forall px: nat {:trigger LevelSound(levels[px], mem)} | px < |levels| :: LevelSound(levels[px], mem)
  }

  predicate LevelSound(lv: Level, mem: Memory) {
    && (forall i | 0 <= i < |lv.fifo| :: lv.fifo[i] < |mem| && mem[lv.fifo[i]].Item?)
    && lv.aggregate == FifoQty(Nodes(lv.fifo, mem))
  }

  predicate Unlinked(levels: seq<Level>, slot: nat) {
    forall px | 0 <= px < |levels| :: slot !in levels[px].fifo
  }

  /** Writing a slot that is not linked changes nothing. */
  lemma WriteUnlinked(levels: seq<Level>, mem: Memory, slot: nat, c: Cell<Order>)
    requires Unlinked(levels, slot) && slot < |mem|
    ensures LadderOf(levels, mem[slot := c]) == LadderOf(levels, mem)
    ensures Sound(levels, mem) ==> Sound(levels, mem[slot := c])
  {
    var mem' := mem[slot := c];
    forall px: nat | px < |levels|
      ensures Nodes(levels[px].fifo, mem') == Nodes(levels[px].fifo, mem)
      ensures LevelSound(levels[px], mem) ==> LevelSound(levels[px], mem')
    {
      forall i | 0 <= i < |levels[px].fifo| ensures levels[px].fifo[i] != slot {
        assert levels[px].fifo[i] in levels[px].fifo;
      }
      assert Nodes(levels[px].fifo, mem') == Nodes(levels[px].fifo, mem);
    }
    if Sound(levels, mem) {
      forall px: nat | px < |levels| ensures LevelSound(levels[px], mem') {
        assert LevelSound(levels[px], mem);
      }
    }
  }

  /** A slot whose order is not placed at (s, px) is not linked there. */
  lemma PlacedElsewhere(levels: seq<Level>, mem: Memory, s: Side, slot: nat, px: nat)
    requires Placed(s, LadderOf(levels, mem)) && px < |levels|
    requires At(mem, slot).s != s || At(mem, slot).px != px
    ensures slot !in levels[px].fifo
  {
    var l: Ladder := LadderOf(levels, mem);
    forall i: nat | i < |levels[px].fifo| ensures levels[px].fifo[i] != slot {
      assert PlacedAt(s, l, px, i);
    }
  }

  /** Changing one level changes that price alone. */
  lemma ChangeLevel(levels: seq<Level>, mem: Memory, px: nat, lv: Level)
    requires px < |levels|
    ensures LadderOf(levels[px := lv], mem) == LadderOf(levels, mem)[px := Nodes(lv.fifo, mem)]
    ensures Sound(levels, mem) && LevelSound(lv, mem) ==> Sound(levels[px := lv], mem)
  {
  }

  /** Rewriting a linked order rewrites its node and nothing else. */
  lemma RewriteOrder(levels: seq<Level>, mem: Memory, s: Side, px: nat, k: nat, o: Order)
    requires Placed(s, LadderOf(levels, mem)) && px < |levels| && k < |levels[px].fifo|
    requires IndexOf(Nodes(levels[px].fifo, mem), levels[px].fifo[k]) == k && DistinctSlots(Nodes(levels[px].fifo, mem))
    requires levels[px].fifo[k] < |mem|
    ensures var slot := levels[px].fifo[k];
            LadderOf(levels, mem[slot := Item(o)]) ==
            LadderOf(levels, mem)[px := Nodes(levels[px].fifo, mem)[k := Node(slot, o)]]
  {
    var slot := levels[px].fifo[k];
    var mem' := mem[slot := Item(o)];
    var l: Ladder := LadderOf(levels, mem);
    assert PlacedAt(s, l, px, k);
    forall p | 0 <= p < |levels| && p != px
      ensures Nodes(levels[p].fifo, mem') == l[p]
    {
      PlacedElsewhere(levels, mem, s, slot, p);
      forall i | 0 <= i < |levels[p].fifo| ensures levels[p].fifo[i] != slot {
        assert levels[p].fifo[i] in levels[p].fifo;
      }
    }
    assert Nodes(levels[px].fifo, mem') == l[px][k := Node(slot, o)] by {
      forall i | 0 <= i < |levels[px].fifo| && i != k ensures levels[px].fifo[i] != slot {
        assert l[px][i].slot == levels[px].fifo[i] && l[px][k].slot == slot;
      }
    }
  }

  // ----- the whole store as a value

  /** Levels of both sides, the memory of the arena with its free slots and generations, and what the
      id index maps each id to. */
  datatype Image = Image(bids: seq<Level>, asks: seq<Level>, mem: Memory, m: map<nat, nat>, free: seq<nat>,
      gens: seq<nat>)
  {
    function Of(s: Side): seq<Level> {
      if s.Bid? then bids else asks
    }

    function With(s: Side, px: nat, lv: Level): Image
      requires px < |Of(s)|
    {
      if s.Bid? then this.(bids := bids[px := lv]) else this.(asks := asks[px := lv])
    }
  }

  function PtrOf(mem: Memory, slot: nat): Ptr {
    Ptr(At(mem, slot).s, At(mem, slot).px, slot)
  }

  function IdxOf(m: map<nat, nat>, mem: Memory): map<nat, Ptr> {
    map id | id in m :: PtrOf(mem, m[id])
  }

  /** The book an image stands for. */
  function View(im: Image): Book {
    Book(LadderOf(im.bids, im.mem), LadderOf(im.asks, im.mem), IdxOf(im.m, im.mem), im.free, im.gens)
  }

  ghost predicate ImageOk(im: Image) {
    && |im.mem| == |im.gens|
    && Sound(im.bids, im.mem) && Sound(im.asks, im.mem)
    && Wf(View(im))
  }

  lemma ViewOf(im: Image, s: Side)
    ensures View(im).Of(s) == LadderOf(im.Of(s), im.mem)
  {
  }

  /** What a linked slot is known to be. */
  lemma LinkedFacts(im: Image, s: Side, px: nat, k: nat)
    requires ImageOk(im) && px < |im.Of(s)| && k < |im.Of(s)[px].fifo|
    ensures var slot := im.Of(s)[px].fifo[k];
            && slot < |im.mem| && im.mem[slot].Item? && slot !in im.free
            && At(im.mem, slot).s == s && At(im.mem, slot).px == px && At(im.mem, slot).remaining > 0
                 && ValidId(At(im.mem, slot).id)
            && View(im).Of(s)[px][k] == Node(slot, At(im.mem, slot))
            && At(im.mem, slot).remaining <= im.Of(s)[px].aggregate
            && IndexOf(View(im).Of(s)[px], slot) == k
    ensures DistinctSlots(View(im).Of(s)[px])
  {
    ViewOf(im, s);
    var f := View(im).Of(s)[px];
    assert LevelSound(im.Of(s)[px], im.mem);
    SlotFacts(View(im), s, px, k);
    FifoQtyRemove(f, k);
    assert PlacedAt(s, View(im).Of(s), px, k);
    forall i, j | 0 <= i < j < |f| ensures f[i].slot != f[j].slot {
      SlotFacts(View(im), s, px, j);
    }
  }

  /** A linked slot is linked nowhere else. */
  lemma LinkedOnce(im: Image, s: Side, px: nat, k: nat)
    requires ImageOk(im) && px < |im.Of(s)| && k < |im.Of(s)[px].fifo|
    ensures Unlinked(im.Of(Opposite(s)), im.Of(s)[px].fifo[k])
    ensures forall p | 0 <= p < |im.Of(s)| && p != px :: im.Of(s)[px].fifo[k] !in im.Of(s)[p].fifo
  {
    LinkedFacts(im, s, px, k);
    var slot := im.Of(s)[px].fifo[k];
    ViewOf(im, s);
    ViewOf(im, Opposite(s));
    forall p | 0 <= p < |im.Of(Opposite(s))| ensures slot !in im.Of(Opposite(s))[p].fifo {
      PlacedElsewhere(im.Of(Opposite(s)), im.mem, Opposite(s), slot, p);
    }
    forall p | 0 <= p < |im.Of(s)| && p != px ensures slot !in im.Of(s)[p].fifo {
      PlacedElsewhere(im.Of(s), im.mem, s, slot, p);
    }
  }

  /** The entries of the index name linked slots, and no two of them the same. */
  lemma IndexFacts(im: Image, id: nat)
    requires ImageOk(im) && id in im.m
    ensures im.m[id] < |im.mem| && im.mem[im.m[id]].Item? && At(im.mem, im.m[id]).id == id && im.m[id] !in im.free
    ensures var o := At(im.mem, im.m[id]);
            o.px < |im.Of(o.s)| && im.m[id] in im.Of(o.s)[o.px].fifo
            && IndexOf(View(im).Of(o.s)[o.px], im.m[id]) < |im.Of(o.s)[o.px].fifo|
  {
    var b := View(im);
    var p := b.idx[id];
    assert PtrOk(b, id, p);
    ViewOf(im, p.s);
    var k := IndexOf(b.Of(p.s)[p.px], p.slot);
    LinkedFacts(im, p.s, p.px, k);
  }
}
