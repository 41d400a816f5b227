/** How much a book can hold: every slot is one order or free, so no level's quantity outgrows the
    number of slots times the largest order. */
module Capacity {
  import opened Types
  import opened Ladders
  import opened Books
  import opened EngineSpec
  import opened Invariants
  import opened Ledger

  // ----- counting slots

  function FifoBelow(f: seq<Node>, n: nat): nat {
    if n == 0 then 0 else InFifo(f, n - 1) + FifoBelow(f, n - 1)
  }

  function LinkedBelow(l: Ladder, n: nat): nat {
    if n == 0 then 0 else Linked(l, n - 1) + LinkedBelow(l, n - 1)
  }

  function FreeBelow(free: seq<nat>, n: nat): nat {
    if n == 0 then 0 else multiset(free)[n - 1] + FreeBelow(free, n - 1)
  }

  lemma {:induction false} FifoBelowStep(f: seq<Node>, n: nat)
    requires f != []
    ensures FifoBelow(f, n) == FifoBelow(f[1..], n) + (if f[0].slot < n then 1 else 0)
  {
    if n > 0 {
      FifoBelowStep(f, n - 1);
    }
  }

  lemma {:induction false} FifoBelowAll(f: seq<Node>, n: nat)
    requires forall slot: nat | slot >= n :: InFifo(f, slot) == 0
    ensures FifoBelow(f, n) == |f|
  {
    if f == [] {
      FifoBelowNone(n);
    } else {
      FifoBelowStep(f, n);
      assert InFifo(f, f[0].slot) > 0;
      forall slot: nat | slot >= n ensures InFifo(f[1..], slot) == 0 {
        assert InFifo(f, slot) == 0;
      }
      FifoBelowAll(f[1..], n);
    }
  }

  lemma {:induction false} FifoBelowNone(n: nat)
    ensures FifoBelow([], n) == 0 && LinkedBelow([], n) == 0 && FreeBelow([], n) == 0
  {
    if n > 0 {
      FifoBelowNone(n - 1);
    }
  }

  lemma {:induction false} LinkedBelowStep(l: Ladder, n: nat)
    requires l != []
    ensures LinkedBelow(l, n) == FifoBelow(l[0], n) + LinkedBelow(l[1..], n)
  {
    if n > 0 {
      LinkedBelowStep(l, n - 1);
    }
  }

  lemma {:induction false} LinkedBelowAll(l: Ladder, n: nat)
    requires forall slot: nat | slot >= n :: Linked(l, slot) == 0
    ensures LinkedBelow(l, n) == Count(l)
  {
    if l == [] {
      FifoBelowNone(n);
    } else {
      LinkedBelowStep(l, n);
      forall slot: nat | slot >= n ensures InFifo(l[0], slot) == 0 && Linked(l[1..], slot) == 0 {
        assert Linked(l, slot) == 0;
      }
      FifoBelowAll(l[0], n);
      LinkedBelowAll(l[1..], n);
    }
  }

  lemma {:induction false} FreeBelowStep(free: seq<nat>, n: nat)
    requires free != []
    ensures FreeBelow(free, n) == FreeBelow(free[1..], n) + (if free[0] < n then 1 else 0)
  {
    if n > 0 {
      assert free == [free[0]] + free[1..];
      FreeBelowStep(free, n - 1);
    }
  }

  lemma {:induction false} FreeBelowAll(free: seq<nat>, n: nat)
    requires forall slot | slot in free :: slot < n
    ensures FreeBelow(free, n) == |free|
  {
    if free == [] {
      FifoBelowNone(n);
    } else {
      FreeBelowStep(free, n);
      assert free[0] in free;
      forall slot | slot in free[1..] ensures slot < n {
        assert slot in free;
      }
      FreeBelowAll(free[1..], n);
    }
  }

  lemma {:induction false} OnceEach(b: Book, n: nat)
    requires Partition(b) && n <= |b.gens|
    ensures LinkedBelow(b.bids, n) + LinkedBelow(b.asks, n) + FreeBelow(b.free, n) == n
  {
    if n > 0 {
      assert Once(b, n - 1);
      OnceEach(b, n - 1);
    }
  }

  /** The orders on both sides and the free slots make up all slots. */
  lemma Occupancy(b: Book)
    requires Partition(b)
    ensures Count(b.bids) + Count(b.asks) + |b.free| == |b.gens|
  {
    var n := |b.gens|;
    forall slot: nat | slot >= n ensures Linked(b.bids, slot) == 0 && Linked(b.asks, slot) == 0 {
      assert Once(b, slot);
    }
    forall slot | slot in b.free ensures slot < n {
      assert slot in multiset(b.free);
      assert Once(b, slot);
    }
    LinkedBelowAll(b.bids, n);
    LinkedBelowAll(b.asks, n);
    FreeBelowAll(b.free, n);
    OnceEach(b, n);
  }

  // ----- bounding quantities

  lemma {:induction false} FifoBound(f: seq<Node>, cap: nat)
    requires forall n | n in f :: n.o.remaining <= cap
    ensures FifoQty(f) <= |f| * cap
  {
    if f != [] {
      assert f[0] in f;
      FifoBound(f[1..], cap);
      assert |f| * cap == cap + |f[1..]| * cap;
    }
  }

  lemma FirstBound(l: Ladder, cap: nat)
    requires AllRested(l, cap) && l != []
    ensures FifoQty(l[0]) <= |l[0]| * cap && AllRested(l[1..], cap)
  {
    forall n | n in l[0] ensures n.o.remaining <= cap {
      var i :| 0 <= i < |l[0]| && l[0][i] == n;
      assert RestedAt(l, cap, 0, i);
    }
    FifoBound(l[0], cap);
    forall px: nat, i: nat | px < |l[1..]| && i < |l[1..][px]| ensures RestedAt(l[1..], cap, px, i) {
      assert RestedAt(l, cap, px + 1, i);
    }
  }

  lemma {:induction false} LadderBound(l: Ladder, cap: nat)
    requires AllRested(l, cap)
    ensures Quantity(l) <= Count(l) * cap
  {
    if l != [] {
      FirstBound(l, cap);
      LadderBound(l[1..], cap);
      Scale(|l[0]|, Count(l[1..]), Count(l), cap);
    }
  }

  lemma {:induction false} LevelWithin(l: Ladder, px: nat)
    requires px < |l|
    ensures FifoQty(l[px]) <= Quantity(l)
  {
    if px > 0 {
      LevelWithin(l[1..], px - 1);
    }
  }

  /** However ids are used, no level ever aggregates more than every slot filled with the largest order. */
  lemma AggregateBound(st: State, s: Side, px: nat)
    requires Sound(st, false) && px < st.b.Ticks()
    ensures FifoQty(st.b.Of(s)[px]) <= Resting(st.b) <= |st.b.gens| * st.cfg.maxOrderQty
  {
    var cap := st.cfg.maxOrderQty;
    Occupancy(st.b);
    LadderBound(st.b.bids, cap);
    LadderBound(st.b.asks, cap);
    LevelWithin(st.b.Of(s), px);
    Scale(Count(st.b.bids), Count(st.b.asks), |st.b.gens|, cap);
  }

  lemma Scale(x: nat, y: nat, n: nat, cap: nat)
    requires x + y <= n
    ensures x * cap + y * cap <= n * cap
  {
    assert n * cap == (x + y) * cap + (n - x - y) * cap;
  }

  /** So it stays over any run from an empty book. */
  lemma RunBound(ticks: nat, maxOrders: nat, cfg: Config, cs: seq<Command>, s: Side, px: nat)
    requires RunOk(Initial(ticks, maxOrders, cfg), cs) && px < ticks
    ensures var r := Run(Initial(ticks, maxOrders, cfg), cs);
            |r.b.Of(s)| == ticks && FifoQty(r.b.Of(s)[px]) <= maxOrders * cfg.maxOrderQty
  {
    InitialInv(ticks, maxOrders, cfg);
    RunInv(Initial(ticks, maxOrders, cfg), cs, false);
    AggregateBound(Run(Initial(ticks, maxOrders, cfg), cs), s, px);
  }
}
