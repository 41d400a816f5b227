/** The slab arena: a fixed number of slots, the free ones chained through their own storage, and a
    generation per slot that is odd while the slot is allocated. */
module Arenas {
  import opened Types
  import opened Counting

  /** What the bytes of a slot hold: the link to the next free slot, or an item. */
  datatype Cell<T> = Link(next: Option<nat>) | Item(value: T)

  /** The chain of links from `head` visits each slot of `free` once, in that order, and ends. */
  predicate Chain<T>(cells: seq<Cell<T>>, head: Option<nat>, free: seq<nat>)
    decreases |free|
  {
    if free == [] then head.None? else
    && head == Some(free[0])
    && free[0] < |cells| && cells[free[0]].Link? && free[0] !in free[1..]
    && Chain(cells, cells[free[0]].next, free[1..])
  }

  lemma {:induction false} ChainSame<T>(cells: seq<Cell<T>>, slot: nat, c: Cell<T>, head: Option<nat>, free: seq<nat>)
    requires Chain(cells, head, free) && slot < |cells| && slot !in free
    ensures Chain(cells[slot := c], head, free)
    decreases |free|
  {
    if free != [] {
      assert free[0] in free;
      ChainSame(cells, slot, c, cells[free[0]].next, free[1..]);
    }
  }

  lemma {:induction false} ChainAscending<T>(cells: seq<Cell<T>>, k: nat)
    requires k <= |cells|
    requires forall j | 0 <= j < |cells| :: cells[j] == Link(if j + 1 < |cells| then Some(j + 1) else None)
    ensures Chain(cells, if k < |cells| then Some(k) else None, Ascending(|cells|, k))
    decreases |cells| - k
  {
    if k < |cells| {
      ChainAscending(cells, k + 1);
    }
  }

  predicate Live(gens: seq<nat>, i: nat) {
    i < |gens| && gens[i] % 2 == 1
  }

  function Next(g: nat): nat {
    (g + 1) % GENERATIONS
  }

  lemma NextParity(g: nat)
    requires g < GENERATIONS
    ensures Next(g) < GENERATIONS && Next(g) % 2 != g % 2
  {
  }

  predicate SlotOk(gens: seq<nat>, free: seq<nat>, i: nat)
    requires i < |gens|
  {
    gens[i] < GENERATIONS && (Live(gens, i) <==> i !in free)
  }

  /** A generation is odd exactly while its slot is not free. */
  predicate ParityOk(gens: seq<nat>, free: seq<nat>) {
    forall i: nat {:trigger SlotOk(gens, free, i)} | i < |gens| :: SlotOk(gens, free, i)
  }

  lemma ParityRelease(gens: seq<nat>, free: seq<nat>, slot: nat)
    requires ParityOk(gens, free) && slot < |gens| && slot !in free
    ensures ParityOk(gens[slot := Next(gens[slot])], [slot] + free)
  {
    var g, f := gens[slot := Next(gens[slot])], [slot] + free;
    forall i: nat | i < |g| ensures SlotOk(g, f, i) {
      assert SlotOk(gens, free, i);
      NextParity(gens[i]);
    }
  }

  lemma ParityTake(gens: seq<nat>, free: seq<nat>)
    requires ParityOk(gens, free) && free != [] && free[0] < |gens| && free[0] !in free[1..]
    ensures ParityOk(gens[free[0] := Next(gens[free[0]])], free[1..])
  {
    var g, f := gens[free[0] := Next(gens[free[0]])], free[1..];
    forall i: nat | i < |g| ensures SlotOk(g, f, i) {
      assert SlotOk(gens, free, i);
      NextParity(gens[i]);
    }
  }

  /** What the allocated slots hold, the free ones blanked. */
  function Blanked<T>(cells: seq<Cell<T>>, gens: seq<nat>): (c: seq<Cell<T>>)
    ensures |c| == |cells|
  {
    seq(|cells|, i requires 0 <= i < |cells| => if Live(gens, i) then cells[i] else Link(None))
  }

  class Arena<T> {
    var cells: seq<Cell<T>>
    var gens: seq<nat>
    var freeHead: Option<nat>
    var built: bool
    /** The free slots in the order they will be handed out. */
    ghost var free: seq<nat>

    ghost predicate Valid()
      reads this
    {
      && |cells| == |gens| > 0
      && (!built ==> free == Ascending(|cells|, 0))
      && (built ==> Chain(cells, freeHead, free) && ParityOk(gens, free))
    }

    ghost function Generations(): (g: seq<nat>)
      reads this
      ensures |g| == |gens|
    {
      if built then gens else seq(|gens|, _ => 0)
    }

    ghost function Contents(): (c: seq<Cell<T>>)
      reads this
      ensures |c| == |cells|
    {
      Blanked(cells, Generations())
    }

    lemma LiveIsNotFree(slot: nat)
      requires Valid() && slot < |cells|
      ensures Live(Generations(), slot) <==> slot !in free
      ensures slot !in free ==> Contents()[slot] == cells[slot]
    {
      if built {
        assert SlotOk(gens, free, slot);
      }
    }

    constructor (capacity: nat)
      requires capacity > 0
      ensures Valid() && !built
      ensures |cells| == capacity && free == Ascending(capacity, 0)
    {
      cells := seq(capacity, _ => Link(None));
      gens := seq(capacity, _ => 0);
      freeHead, built := None, false;
      free := Ascending(capacity, 0);
    }

    /** Chain every slot to the next one and zero the generations, on the first allocation. */
    method InitFreelist()
      requires Valid() && !built
      modifies this
      ensures Valid() && built && |cells| == old(|cells|)
      ensures free == old(free) && Generations() == old(Generations()) && Contents() == old(Contents())
    {
      var n := |cells|;
      for i := 0 to n - 1
        invariant |cells| == n && forall j | 0 <= j < i :: cells[j] == Link(Some(j + 1))
        modifies this`cells
      {
        cells := cells[i := Link(Some(i + 1))];
      }
      cells := cells[n - 1 := Link(None)];
      for i := 0 to n
        invariant |gens| == n && forall j | 0 <= j < i :: gens[j] == 0
        modifies this`gens
      {
        gens := gens[i := 0];
      }
      freeHead, built := Some(0), true;
      ChainAscending(cells, 0);
      assert gens == old(Generations());
      assert Contents() == old(Contents());
    }

    /** The next free slot, or nothing when the arena is full. */
    method Allocate() returns (r: Option<nat>)
      requires Valid()
      modifies this
      ensures Valid() && built && |cells| == old(|cells|)
      ensures r.None? ==>
                && old(free) == [] == free && Generations() == old(Generations())
                && Contents() == old(Contents())
      ensures r.Some? ==>
                && old(free) == [r.value] + free && r.value < |cells| && Live(Generations(), r.value)
                && Generations() == old(Generations())[r.value := Next(old(Generations())[r.value])]
                && Contents() == old(Contents())[r.value := cells[r.value]]
    {
      if !built {
        InitFreelist();
      }
      if freeHead.None? {
        return None;
      }
      var slot := freeHead.value;
      ParityTake(gens, free);
      assert SlotOk(gens, free, slot);
      NextParity(gens[slot]);
      freeHead, gens, free := cells[slot].next, gens[slot := Next(gens[slot])], free[1..];
      r := Some(slot);
      assert Contents() == old(Contents())[slot := cells[slot]];
    }

    method Deallocate(slot: nat)
      requires Valid() && slot < |cells| && Live(Generations(), slot)
      modifies this
      ensures Valid() && built && |cells| == old(|cells|)
      ensures free == [slot] + old(free)
      ensures Generations() == old(Generations())[slot := Next(old(Generations())[slot])]
      ensures Contents() == old(Contents())[slot := Link(None)]
    {
      assert SlotOk(gens, free, slot);
      NextParity(gens[slot]);
      ChainSame(cells, slot, Link(freeHead), freeHead, free);
      ParityRelease(gens, free, slot);
      cells, gens := cells[slot := Link(freeHead)], gens[slot := Next(gens[slot])];
      freeHead, free := Some(slot), [slot] + free;
      assert free[1..] == old(free);
      assert Contents() == old(Contents())[slot := Link(None)];
    }

    /** Fill an allocated slot. */
    method Write(slot: nat, value: T)
      requires Valid() && slot < |cells| && Live(Generations(), slot)
      modifies this`cells
      ensures Valid() && |cells| == old(|cells|) && cells[slot] == Item(value)
      ensures Contents() == old(Contents())[slot := Item(value)]
    {
      assert SlotOk(gens, free, slot);
      ChainSame(cells, slot, Item(value), freeHead, free);
      cells := cells[slot := Item(value)];
      assert Contents() == old(Contents())[slot := Item(value)];
    }
  }
}
