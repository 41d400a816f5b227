/** One side of the dense book: a level per tick, the bitmap of populated levels and the cached
    best price. */
module BookSides {
  import opened Types
  import opened Ladders
  import opened Tiers
  import opened Bitmaps

  /** A price level: the cached sum of its quantities and its FIFO of slots, front first. */
  datatype Level = Level(aggregate: nat, fifo: seq<nat>)
  {
    function PushBack(slot: nat, qty: nat): Level {
      Level(aggregate + qty, fifo + [slot])
    }

    function Unlink(k: nat, qty: nat): Level
      requires k < |fifo| && qty <= aggregate
    {
      Level(aggregate - qty, RemoveAt(fifo, k))
    }
  }

  /** Where a slot stands in a FIFO. */
  function Find(fifo: seq<nat>, slot: nat): (k: nat)
    ensures k <= |fifo| && (k < |fifo| ==> fifo[k] == slot)
    ensures slot in fifo ==> k < |fifo|
    ensures forall i | 0 <= i < k :: fifo[i] != slot
  {
    if fifo == [] || fifo[0] == slot then 0 else 1 + Find(fifo[1..], slot)
  }

  /** b is the extreme of s that side prefers. */
  ghost predicate Extreme(side: Side, s: set<nat>, b: Option<nat>) {
    && (b.None? ==> s == {})
    && (b.Some? ==> b.value in s && forall p | p in s :: !Better(side, p, b.value))
  }

  class BookSide {
    const side: Side
    var levels: seq<Level>
    const bm: Bitmap
    var best: Option<nat>

    /** Level px may have drained without the bitmap having been told yet. */
    ghost predicate ValidBut(px: nat)
      reads this, bm
    {
      && bm.Valid() && bm.ticks == |levels|
      && (forall p: nat | p < |levels| && p != px :: p in bm.s <==> levels[p].fifo != [])
      && (px < |levels| && levels[px].fifo != [] ==> px in bm.s)
      && Extreme(side, bm.s, best)
    }

    ghost predicate Valid()
      reads this, bm
    {
      ValidBut(|levels|)
    }

    constructor (side: Side, ticks: nat)
      requires 0 < ticks <= W * W * W * W
      ensures Valid() && fresh(bm) && this.side == side && |levels| == ticks && best == None
      ensures forall p | 0 <= p < ticks :: levels[p] == Level(0, [])
    {
      this.side := side;
      levels := seq(ticks, _ => Level(0, []));
      var map_ := new Bitmap(ticks);
      bm := map_;
      best := None;
    }

    method RecomputeBest()
      requires bm.Valid() && bm.ticks == |levels|
      modifies this`best
      ensures Extreme(side, bm.s, best)
    {
      if side.Bid? {
        best := bm.HighestSet();
      } else {
        best := bm.LowestSet();
      }
    }

    /** Link a slot at the back of level px. */
    method Add(slot: nat, px: nat, qty: nat)
      requires Valid() && px < |levels|
      modifies this, bm
      ensures Valid() && levels == old(levels)[px := old(levels[px]).PushBack(slot, qty)]
    {
      var wasEmpty := levels[px].fifo == [];
      levels := levels[px := levels[px].PushBack(slot, qty)];
      if wasEmpty {
        bm.Set(px);
      }
      if best.None? || Better(side, px, best.value) {
        best := Some(px);
      }
    }

    /** Unlink the k-th slot of level px. */
    method Remove(px: nat, k: nat, qty: nat)
      requires Valid() && px < |levels| && k < |levels[px].fifo| && qty <= levels[px].aggregate
      modifies this, bm
      ensures Valid() && levels == old(levels)[px := old(levels[px]).Unlink(k, qty)]
    {
      levels := levels[px := levels[px].Unlink(k, qty)];
      if levels[px].fifo == [] {
        NotifyLevelEmptied(px);
      }
    }

    /** The drained level px leaves the bitmap, and the cached best moves on when it was the best. */
    method NotifyLevelEmptied(px: nat)
      requires ValidBut(px) && px < |levels| && levels[px].fifo == []
      modifies this`best, bm
      ensures Valid()
    {
      bm.Clear(px);
      if best == Some(px) {
        RecomputeBest();
      }
    }

    /** Rewrite a populated level in place; a drained one is reported with NotifyLevelEmptied. */
    method SetLevel(px: nat, lv: Level)
      requires ValidBut(px) && px < |levels| && levels[px].fifo != []
      modifies this`levels
      ensures ValidBut(px) && levels == old(levels)[px := lv] && px in bm.s
      ensures lv.fifo != [] ==> Valid()
    {
      levels := levels[px := lv];
    }

    /** The best populated price strictly worse than px. */
    method NextWorse(px: nat) returns (r: Option<nat>)
      requires Valid()
      ensures r.None? ==> forall p | p in bm.s :: !Better(side, px, p)
      ensures r.Some? ==> r.value in bm.s && Better(side, px, r.value)
                          && forall p | p in bm.s && Better(side, px, p) :: !Better(side, p, r.value)
    {
      if side.Ask? {
        r := bm.NextSetAtOrAfter(px + 1);
      } else if px == 0 {
        r := None;
      } else {
        r := bm.PrevSetAtOrBefore(px - 1);
      }
    }

    /** The lowest populated price from px up. */
    method NextPopulated(px: nat) returns (r: Option<nat>)
      requires Valid()
      ensures NextIn(bm.s, px, r)
    {
      r := bm.NextSetAtOrAfter(px);
    }
  }
}
