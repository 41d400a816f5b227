/** One side of the book as a value: the FIFO of every price, front first. */
module Ladders {
  import opened Types
  import opened Slices

  /** A resting order and the storage slot that holds it. */
  datatype Node = Node(slot: nat, o: Order)

  type Ladder = seq<seq<Node>>

  /** Price p is strictly better than q for an order resting on side s. */
  predicate Better(s: Side, p: nat, q: nat) {
    if s.Bid? then p > q else p < q
  }

  /** An order of side s limited at `limit` trades with an opposite order at px. */
  predicate Crosses(s: Side, limit: nat, px: nat) {
    if s.Bid? then limit >= px else limit <= px
  }

  function HighestBelow(l: Ladder, n: nat): (r: Option<nat>)
    requires n <= |l|
    ensures r.None? ==> forall px | 0 <= px < n :: l[px] == []
    ensures r.Some? ==> r.value < n && l[r.value] != [] && forall px | r.value < px < n :: l[px] == []
  {
    if n == 0 then None else if l[n - 1] != [] then Some(n - 1) else HighestBelow(l, n - 1)
  }

  function LowestFrom(l: Ladder, n: nat): (r: Option<nat>)
    requires n <= |l|
    ensures r.None? ==> forall px | n <= px < |l| :: l[px] == []
    ensures r.Some? ==> n <= r.value < |l| && l[r.value] != [] && forall px | n <= px < r.value :: l[px] == []
    decreases |l| - n
  {
    if n == |l| then None else if l[n] != [] then Some(n) else LowestFrom(l, n + 1)
  }

  /** The best populated price of side s. */
  function Best(s: Side, l: Ladder): (r: Option<nat>)
    ensures r.None? ==> forall px | 0 <= px < |l| :: l[px] == []
    ensures r.Some? ==> IsBest(s, l, r.value)
  {
    if s.Bid? then HighestBelow(l, |l|) else LowestFrom(l, 0)
  }

  predicate IsBest(s: Side, l: Ladder, b: nat) {
    b < |l| && l[b] != [] && forall px | 0 <= px < |l| && l[px] != [] :: !Better(s, px, b)
  }

  lemma BestUnique(s: Side, l: Ladder, b: nat)
    requires IsBest(s, l, b)
    ensures Best(s, l) == Some(b)
  {
  }

  predicate Empty(l: Ladder) {
    forall px | 0 <= px < |l| :: l[px] == []
  }

  lemma BestNone(s: Side, l: Ladder)
    ensures Best(s, l).None? <==> Empty(l)
  {
  }

  // ----- sums over a ladder

  function FifoQty(f: seq<Node>): (q: nat)
  {
    if f == [] then 0 else f[0].o.remaining + FifoQty(f[1..])
  }

  lemma {:induction false} FifoQtyAppend(f: seq<Node>, g: seq<Node>)
    ensures FifoQty(f + g) == FifoQty(f) + FifoQty(g)
  {
    if f == [] {
      assert f + g == g;
    } else {
      assert (f + g)[1..] == f[1..] + g;
      FifoQtyAppend(f[1..], g);
    }
  }

  /** Replacing one node of a FIFO moves its quantity by the difference. */
  lemma FifoQtyUpdate(f: seq<Node>, k: nat, n: Node)
    requires k < |f|
    ensures FifoQty(f[k := n]) + f[k].o.remaining == FifoQty(f) + n.o.remaining
  {
    SplitAt(f, k);
    ReplaceAt(f, k, n);
    FifoQtyAppend(f[..k], [f[k]] + f[k + 1..]);
    FifoQtyAppend(f[..k], [n] + f[k + 1..]);
  }

  function RemoveAt<T>(f: seq<T>, k: nat): seq<T>
    requires k < |f|
  {
    f[..k] + f[k + 1..]
  }

  lemma FifoQtyRemove(f: seq<Node>, k: nat)
    requires k < |f|
    ensures FifoQty(RemoveAt(f, k)) + f[k].o.remaining == FifoQty(f)
  {
    SplitAt(f, k);
    FifoQtyAppend(f[..k], [f[k]] + f[k + 1..]);
    FifoQtyAppend(f[..k], f[k + 1..]);
  }

  function Count(l: Ladder): nat {
    if l == [] then 0 else |l[0]| + Count(l[1..])
  }

  function Quantity(l: Ladder): nat {
    if l == [] then 0 else FifoQty(l[0]) + Quantity(l[1..])
  }

  lemma {:induction false} CountUpdate(l: Ladder, px: nat, f: seq<Node>)
    requires px < |l|
    ensures Count(l[px := f]) + |l[px]| == Count(l) + |f|
    ensures Quantity(l[px := f]) + FifoQty(l[px]) == Quantity(l) + FifoQty(f)
  {
    if px == 0 {
      assert l[px := f][1..] == l[1..];
    } else {
      assert l[px := f][1..] == l[1..][px - 1 := f];
      CountUpdate(l[1..], px - 1, f);
    }
  }

  lemma {:induction false} CountEmpty(l: Ladder)
    requires Empty(l)
    ensures Count(l) == 0 && Quantity(l) == 0
  {
    if l != [] {
      CountEmpty(l[1..]);
    }
  }

  /** The slot's position in a FIFO, or its length when the slot is not there. */
  function IndexOf(f: seq<Node>, slot: nat): (k: nat)
    ensures k <= |f|
    ensures k < |f| ==> f[k].slot == slot
    ensures forall i | 0 <= i < k :: f[i].slot != slot
  {
    if f == [] then 0 else if f[0].slot == slot then 0 else 1 + IndexOf(f[1..], slot)
  }

  predicate DistinctSlots(f: seq<Node>) {
    forall i, j | 0 <= i < j < |f| :: f[i].slot != f[j].slot
  }
}
