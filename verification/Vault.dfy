/** The dense book as the engine sees it. What it holds is the value `now`; how it holds it is closed
    off, so that whoever uses a vault carries its validity along without looking inside.

    The class adds nothing to the store but this: its validity is the store's, wrapped in a recursion a
    few levels deep, so that the verifier does not unfold the store's parts in every proof about the
    engine. `Pass` goes through the wall where an operation is handed on to the store. */
module Vaults {
  import opened Types
  import opened Ladders
  import opened Books
  import opened Stores

  /** How often the recursion wraps the store's validity; more often than the verifier unfolds it. */
  type Thickness = n: nat | n >= 3 witness 3

  class Vault {
    const store: Store
    ghost const wall: Thickness
    ghost var now: Book

    ghost predicate Inside(s: Side, px: nat)
      reads this, store, store.bids, store.bids.bm, store.asks, store.asks.bm, store.arena, store.index,
            store.index.slots
    {
      store.ValidBut(s, px) && now == store.Abs()
    }

    ghost predicate Closed(n: nat, s: Side, px: nat)
      reads this, store, store.bids, store.bids.bm, store.asks, store.asks.bm, store.arena, store.index,
            store.index.slots
      decreases n
    {
      if n == 0 then Inside(s, px) else Closed(n - 1, s, px)
    }

    /** Valid, but level px of side s may have drained without its side having been told. */
    ghost predicate ValidBut(s: Side, px: nat)
      reads this, store, store.bids, store.bids.bm, store.asks, store.asks.bm, store.arena, store.index,
            store.index.slots
    {
      Closed(wall, s, px) && Wf(now)
    }

    ghost predicate Valid()
      reads this, store, store.bids, store.bids.bm, store.asks, store.asks.bm, store.arena, store.index,
            store.index.slots
    {
      ValidBut(Bid, now.Ticks())
    }

    lemma {:induction false} Pass(n: nat, s: Side, px: nat)
      ensures Closed(n, s, px) <==> Inside(s, px)
    {
      if n > 0 {
        Pass(n - 1, s, px);
      }
    }

    lemma Relax(s: Side, px: nat)
      requires Valid() && px < now.Ticks()
      ensures ValidBut(s, px)
    {
      Pass(wall, Bid, now.Ticks());
      Pass(wall, s, px);
    }

    constructor (ticks: nat, maxOrders: nat, hash: nat -> nat)
      requires 0 < ticks <= 64 * 64 * 64 * 64 && maxOrders > 0
      ensures Valid() && fresh(store.Repr) && now == EmptyBook(ticks, maxOrders)
    {
      store := new Store(ticks, maxOrders, hash);
      wall, now := 3, EmptyBook(ticks, maxOrders);
      new;
      Pass(wall, Bid, now.Ticks());
      EmptyBookWf(ticks, maxOrders);
    }

    method ReduceFront(s: Side, px: nat, q: nat)
      requires ValidBut(s, px) && Reducible(now, s, px, q)
      modifies this, store.Repr
      ensures ValidBut(s, px) && now == Books.ReduceFront(old(now), s, px, q)
    {
      Pass(wall, s, px);
      store.ReduceFront(s, px, q);
      now := store.Abs();
      Pass(wall, s, px);
    }

    method Settle(s: Side, px: nat)
      requires ValidBut(s, px) && px < now.Ticks()
      modifies this, store.Repr
      ensures Valid() && now == old(now)
    {
      Pass(wall, s, px);
      store.Settle(s, px);
      Pass(wall, Bid, now.Ticks());
    }
  
    /** Take the order that id names out of the book. */
    method Cancel(id: nat) returns (r: Option<Order>)
      requires Valid() && ValidId(id)
      modifies this, store.Repr
      ensures Valid()
      ensures r == if id in old(now).idx then Some(OrderOf(old(now), id)) else None
      ensures now == if id in old(now).idx then CancelOrder(old(now), id) else old(now)
    {
      Pass(wall, Bid, now.Ticks());
      ghost var b := now;
      r := store.Cancel(id);
      now := if id in b.idx then CancelOrder(b, id) else b;
      assert now == store.Abs();
      Pass(wall, Bid, now.Ticks());
    }

    /** Link a new order, unless there is no room. */
    method Add(o: Order) returns (ok: bool)
      requires Valid() && o.px < now.Ticks() && o.remaining > 0 && ValidId(o.id)
      modifies this, store.Repr
      ensures Valid()
      ensures ok <==> old(now).free != []
      ensures now == if ok then AddOrder(old(now), o) else old(now)
    {
      Pass(wall, Bid, now.Ticks());
      ghost var b := now;
      ok := store.Add(o);
      now := if ok then AddOrder(b, o) else b;
      assert now == store.Abs();
      Pass(wall, Bid, now.Ticks());
    }

    /** The slot of the order that id names. */
    method Lookup(id: nat) returns (r: Option<nat>)
      requires Valid() && ValidId(id)
      ensures r == if id in now.idx then Some(now.idx[id].slot) else None
    {
      Pass(wall, Bid, now.Ticks());
      r := store.Lookup(id);
    }

    method Get(slot: nat, ghost id: nat) returns (o: Order)
      requires Valid() && id in now.idx && now.idx[id].slot == slot
      ensures o == OrderOf(now, id)
    {
      Pass(wall, Bid, now.Ticks());
      o := store.Get(slot, id);
    }

    method Rename(id: nat, newId: nat) returns (r: Option<nat>)
      requires Valid() && ValidId(id) && ValidId(newId)
      modifies this, store.Repr
      ensures Valid()
      ensures now == if id in old(now).idx then RenameOrder(old(now), id, newId) else old(now)
      ensures r == if id in old(now).idx then Some(old(now).idx[id].slot) else None
    {
      Pass(wall, Bid, now.Ticks());
      ghost var b := now;
      r := store.Rename(id, newId);
      now := if id in b.idx then RenameOrder(b, id, newId) else b;
      assert now == store.Abs();
      Pass(wall, Bid, now.Ticks());
    }

    method Resize(slot: nat, qty: nat, ghost id: nat)
      requires Valid() && id in now.idx && now.idx[id].slot == slot && qty > 0
      modifies this, store.Repr
      ensures Valid() && now == ResizeOrder(old(now), id, qty)
    {
      Pass(wall, Bid, now.Ticks());
      ghost var b := now;
      store.Resize(slot, qty, id);
      now := ResizeOrder(b, id, qty);
      assert now == store.Abs();
      Pass(wall, Bid, now.Ticks());
    }

    method Relink(slot: nat, px: nat, qty: nat, ghost id: nat)
      requires Valid() && id in now.idx && now.idx[id].slot == slot && qty > 0 && px < now.Ticks()
      modifies this, store.Repr
      ensures Valid() && now == RelinkOrder(old(now), id, px, qty)
    {
      Pass(wall, Bid, now.Ticks());
      ghost var b := now;
      store.Relink(slot, px, qty, id);
      now := RelinkOrder(b, id, px, qty);
      assert now == store.Abs();
      Pass(wall, Bid, now.Ticks());
    }

    // ----- queries

    method BestPrice(s: Side) returns (r: Option<nat>)
      requires Valid()
      ensures r == Best(s, now.Of(s))
    {
      Pass(wall, Bid, now.Ticks());
      r := store.BestPrice(s);
    }

    method AggregateAt(s: Side, px: nat) returns (q: nat)
      requires Valid() && px < now.Ticks()
      ensures q == FifoQty(now.Of(s)[px])
    {
      Pass(wall, Bid, now.Ticks());
      q := store.AggregateAt(s, px);
    }

    /** The best populated price strictly worse than px. */
    method NextWorse(s: Side, px: nat) returns (r: Option<nat>)
      requires Valid()
      ensures r.None? ==> forall p: nat | p < now.Ticks() && Better(s, px, p) :: now.Of(s)[p] == []
      ensures r.Some? ==>
                && r.value < now.Ticks() && now.Of(s)[r.value] != [] && Better(s, px, r.value)
                && forall p: nat | p < now.Ticks() && now.Of(s)[p] != [] && Better(s, px, p) :: !Better(s, p, r.value)
    {
      Pass(wall, Bid, now.Ticks());
      r := store.NextWorse(s, px);
    }

    /** The lowest populated price from px up. */
    method NextPopulated(s: Side, px: nat) returns (r: Option<nat>)
      requires Valid()
      ensures r.None? ==> forall p: nat | px <= p < now.Ticks() :: now.Of(s)[p] == []
      ensures r.Some? ==>
                && px <= r.value < now.Ticks() && now.Of(s)[r.value] != []
                && forall p: nat | px <= p < r.value :: now.Of(s)[p] == []
    {
      Pass(wall, Bid, now.Ticks());
      store.Populated(Bid);
      store.Populated(s);
      r := store.NextPopulated(s, px);
      assert now == store.Abs() && now.Ticks() == |store.bids.levels|;
    }

    /** The k-th order of a level, when there is one. */
    method OrderAt(s: Side, px: nat, k: nat) returns (r: Option<Order>)
      requires ValidBut(s, px) && px < now.Ticks()
      ensures r == if k < |now.Of(s)[px]| then Some(now.Of(s)[px][k].o) else None
    {
      Pass(wall, s, px);
      r := store.OrderAt(s, px, k);
    }
  }
}
