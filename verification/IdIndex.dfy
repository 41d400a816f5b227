/** The id index: an open-addressed table with linear probing and backward-shift deletion. It is
    proved to be a finite map for every hash function. */
module IdIndex {
  import opened Types
  import opened Counting

  datatype Slot = Slot(key: nat, value: nat)

  const EMPTY: nat := MAX_ID

  /** The slot after i, wrapping at the end of the table. */
  function Next(i: nat, cap: nat): (j: nat)
    requires i < cap
    ensures j < cap
  {
    if i + 1 == cap then 0 else i + 1
  }

  /** How many steps of `Next` lead from a to b. */
  function Dist(a: nat, b: nat, cap: nat): (d: nat)
    requires a < cap && b < cap
    ensures d < cap
  {
    if a <= b then b - a else b + cap - a
  }

  /** Slot q is probed on the way from a to b, before b. */
  predicate Between(a: nat, q: nat, b: nat, cap: nat)
    requires a < cap && q < cap && b < cap
  {
    Dist(a, q, cap) < Dist(a, b, cap)
  }

  /** Every slot probed from a before b is occupied, the hole aside. */
  predicate PathFull(t: seq<Slot>, a: nat, b: nat, hole: nat)
    requires a < |t| && b < |t|
  {
    forall q {:trigger Between(a, q, b, |t|)} | 0 <= q < |t| && q != hole && Between(a, q, b, |t|) :: t[q].key != EMPTY
  }

  /** Always true; naming a key or a slot with it is what makes `Holds` speak about it. */
  predicate Key(k: nat) { true }

  predicate At(i: nat) { true }

  /** Table t, with slot `hole` given up (|t| when there is none), holds the map m, key k at pos[k],
      and probing for a key from its home slot reaches it through occupied slots, the hole aside. */
  ghost predicate Holds(t: seq<Slot>, home: nat -> nat, m: map<nat, nat>, pos: map<nat, nat>, hole: nat) {
    && pos.Keys == m.Keys
    && EMPTY !in m
    && (forall k: nat :: home(k) < |t|)
    && (forall k {:trigger pos[k]} | k in m :: pos[k] < |t| && pos[k] != hole)
    && (forall k {:trigger Key(k)} | Key(k) && k in m ::
          t[pos[k]] == Slot(k, m[k]) && PathFull(t, home(k), pos[k], hole))
    && (forall i: nat {:trigger At(i)} | At(i) && i < |t| && i != hole && t[i].key != EMPTY ::
          t[i].key in m && pos[t[i].key] == i)
  }

  lemma HoldsFacts(t: seq<Slot>, home: nat -> nat, m: map<nat, nat>, pos: map<nat, nat>, hole: nat)
    requires Holds(t, home, m, pos, hole)
    ensures forall k | k in m :: t[pos[k]] == Slot(k, m[k]) && PathFull(t, home(k), pos[k], hole)
    ensures forall i: nat | i < |t| && i != hole && t[i].key != EMPTY :: t[i].key in m && pos[t[i].key] == i
  {
    forall k | k in m
      ensures t[pos[k]] == Slot(k, m[k]) && PathFull(t, home(k), pos[k], hole)
    {
      assert Key(k);
    }
    forall i: nat | i < |t| && i != hole && t[i].key != EMPTY
      ensures t[i].key in m && pos[t[i].key] == i
    {
      assert At(i);
    }
  }

  /** A table that holds fewer keys than it has slots has an empty slot besides the hole. */
  lemma EmptySlot(t: seq<Slot>, home: nat -> nat, m: map<nat, nat>, pos: map<nat, nat>, hole: nat) returns (e: nat)
    requires Holds(t, home, m, pos, hole)
    requires |m| + (if hole < |t| then 1 else 0) < |t|
    ensures e < |t| && e != hole && t[e].key == EMPTY
  {
    HoldsFacts(t, home, m, pos, hole);
    if forall i | 0 <= i < |t| && i != hole :: t[i].key != EMPTY {
      var keys := seq(|t|, i requires 0 <= i < |t| => t[i].key);
      if hole < |t| {
        keys := keys[..hole] + keys[hole + 1..];
      }
      DistinctBound(keys, m.Keys);
      assert false;
    }
    e :| 0 <= e < |t| && e != hole && t[e].key == EMPTY;
  }

  /** Writing a new key into the empty slot its probe ended at. */
  lemma HoldsInsert(t: seq<Slot>, home: nat -> nat, m: map<nat, nat>, pos: map<nat, nat>, id: nat, p: nat, i: nat)
    requires Holds(t, home, m, pos, |t|) && i < |t| && id != EMPTY && id !in m && t[i].key == EMPTY
    requires PathFull(t, home(id), i, |t|)
    ensures Holds(t[i := Slot(id, p)], home, m[id := p], pos[id := i], |t|)
  {
    HoldsFacts(t, home, m, pos, |t|);
  }

  lemma HoldsOverwrite(t: seq<Slot>, home: nat -> nat, m: map<nat, nat>, pos: map<nat, nat>, id: nat, p: nat)
    requires Holds(t, home, m, pos, |t|) && id in m
    ensures Holds(t[pos[id] := Slot(id, p)], home, m[id := p], pos[id := pos[id]], |t|)
  {
    HoldsFacts(t, home, m, pos, |t|);
  }

  /** Giving up the slot of a key. */
  lemma HoldsTake(t: seq<Slot>, home: nat -> nat, m: map<nat, nat>, pos: map<nat, nat>, id: nat)
    requires Holds(t, home, m, pos, |t|) && id in m
    ensures Holds(t, home, m - {id}, pos - {id}, pos[id])
  {
    HoldsFacts(t, home, m, pos, |t|);
  }

  /** Pulling the entry at j back into the hole, when its home is not past the hole. */
  lemma HoldsPull(t: seq<Slot>, home: nat -> nat, m: map<nat, nat>, pos: map<nat, nat>, hole: nat, j: nat)
    requires Holds(t, home, m, pos, hole) && hole < |t| && j < |t| && j != hole && t[j].key != EMPTY
    requires Dist(home(t[j].key), hole, |t|) < Dist(home(t[j].key), j, |t|)
    ensures Holds(t[hole := t[j]], home, m, pos[t[j].key := hole], j)
  {
    HoldsFacts(t, home, m, pos, hole);
    var u, pos' := t[hole := t[j]], pos[t[j].key := hole];
    forall k | k in m ensures PathFull(u, home(k), pos'[k], j) {
      assert PathFull(t, home(k), pos[k], hole);
      assert forall q: nat | q < |t| && Between(home(k), q, pos'[k], |t|) :: Between(home(k), q, pos[k], |t|);
    }
  }

  /** No entry between the hole and j is probed across the hole. */
  ghost predicate Settled(home: nat -> nat, m: map<nat, nat>, pos: map<nat, nat>, hole: nat, j: nat, cap: nat)
    requires hole < cap && j < cap && m.Keys == pos.Keys
    requires forall k | k in m :: home(k) < cap && pos[k] < cap
  {
    forall k | k in m && Between(hole, pos[k], j, cap) :: !Between(home(k), hole, pos[k], cap)
  }

  /** The entry at j stays where it is, when its home is past the hole. */
  lemma SettledKeep(t: seq<Slot>, home: nat -> nat, m: map<nat, nat>, pos: map<nat, nat>, hole: nat, j: nat)
    requires Holds(t, home, m, pos, hole) && hole < |t| && j < |t| && j != hole && Next(j, |t|) != hole
             && t[j].key != EMPTY
    requires Dist(home(t[j].key), hole, |t|) >= Dist(home(t[j].key), j, |t|)
    requires Settled(home, m, pos, hole, j, |t|)
    ensures Settled(home, m, pos, hole, Next(j, |t|), |t|)
  {
    HoldsFacts(t, home, m, pos, hole);
    forall k | k in m && Between(hole, pos[k], Next(j, |t|), |t|)
      ensures !Between(home(k), hole, pos[k], |t|)
    {
      if pos[k] != j {
        assert Between(hole, pos[k], j, |t|);
      }
    }
  }

  /** When an empty slot j ends the settled stretch no entry at all is probed across the hole, and the
      hole may become an empty slot. */
  lemma HoldsClose(t: seq<Slot>, home: nat -> nat, m: map<nat, nat>, pos: map<nat, nat>, hole: nat, j: nat)
    requires Holds(t, home, m, pos, hole) && hole < |t| && j < |t| && j != hole && t[j].key == EMPTY
    requires Settled(home, m, pos, hole, j, |t|)
    ensures Holds(t[hole := Slot(EMPTY, 0)], home, m, pos, |t|)
  {
    HoldsFacts(t, home, m, pos, hole);
    var u := t[hole := Slot(EMPTY, 0)];
    forall k | k in m ensures PathFull(u, home(k), pos[k], |t|) {
      if Between(home(k), hole, pos[k], |t|) {
        assert PathFull(t, home(k), pos[k], hole);
        assert false by {
          assert Between(home(k), j, pos[k], |t|);
        }
      }
    }
  }

  /** A probe that met neither the key nor an empty slot before an empty slot i proves the key absent. */
  lemma ProbeMiss(t: seq<Slot>, home: nat -> nat, m: map<nat, nat>, pos: map<nat, nat>, id: nat, i: nat)
    requires Holds(t, home, m, pos, |t|) && i < |t| && t[i].key == EMPTY
    requires forall q | 0 <= q < |t| && Between(home(id), q, i, |t|) :: t[q].key != id
    ensures id !in m
  {
    HoldsFacts(t, home, m, pos, |t|);
    assert id in m ==> Between(home(id), i, pos[id], |t|);
  }

  /** Walk from slot h to the first slot that is empty or holds id; e is some empty slot. */
  method Walk(slots: array<Slot>, h: nat, id: nat, ghost e: nat) returns (i: nat)
    requires h < slots.Length && e < slots.Length && slots[e].key == EMPTY
    ensures i < slots.Length && (slots[i].key == id || slots[i].key == EMPTY)
    ensures forall q | 0 <= q < slots.Length && Between(h, q, i, slots.Length) ::
              slots[..][q].key != EMPTY && slots[..][q].key != id
  {
    var cap := slots.Length;
    i := h;
    while slots[i].key != id && slots[i].key != EMPTY
      invariant i < cap
      invariant forall q | 0 <= q < cap && Between(h, q, i, cap) :: slots[..][q].key != EMPTY && slots[..][q].key != id
      invariant Dist(h, i, cap) <= Dist(h, e, cap)
      decreases Dist(h, e, cap) - Dist(h, i, cap)
    {
      i := Next(i, cap);
    }
  }

  /** The shift stands at j, after the hole and not past the empty slot e. */
  predicate Shifting(t: seq<Slot>, hole: nat, j: nat, e: nat) {
    && hole < |t| && j < |t| && e < |t| && e != hole && t[e].key == EMPTY
    && 1 <= Dist(hole, j, |t|) <= Dist(hole, e, |t|)
  }

  /** Backward-shift deletion: pull entries back over the hole until an empty slot ends the run. */
  function Shift(t: seq<Slot>, home: nat -> nat, hole: nat, j: nat, ghost e: nat): (r: seq<Slot>)
    requires Shifting(t, hole, j, e) && forall k: nat :: home(k) < |t|
    decreases Dist(j, e, |t|)
  {
    var k := t[j].key;
    if k == EMPTY then t[hole := Slot(EMPTY, 0)]
    else if Dist(home(k), hole, |t|) < Dist(home(k), j, |t|) then Shift(t[hole := t[j]], home, j, Next(j, |t|), e)
    else Shift(t, home, hole, Next(j, |t|), e)
  }

  /** The table is whole again after the shift: the same keys, each still reached by its probe. */
  lemma {:induction false} ShiftHolds(t: seq<Slot>, home: nat -> nat, m: map<nat, nat>, pos: map<nat, nat>, hole: nat,
      j: nat, e: nat)
    returns (pos': map<nat, nat>)
    requires Shifting(t, hole, j, e) && Holds(t, home, m, pos, hole) && Settled(home, m, pos, hole, j, |t|)
    ensures Holds(Shift(t, home, hole, j, e), home, m, pos', |t|)
    decreases Dist(j, e, |t|)
  {
    var k := t[j].key;
    if k == EMPTY {
      HoldsClose(t, home, m, pos, hole, j);
      pos' := pos;
    } else if Dist(home(k), hole, |t|) < Dist(home(k), j, |t|) {
      HoldsPull(t, home, m, pos, hole, j);
      pos' := ShiftHolds(t[hole := t[j]], home, m, pos[k := hole], j, Next(j, |t|), e);
    } else {
      SettledKeep(t, home, m, pos, hole, j);
      pos' := ShiftHolds(t, home, m, pos, hole, Next(j, |t|), e);
    }
  }

  /** Deleting a key by backward shift leaves the table of the map without it. */
  lemma DeleteHolds(t: seq<Slot>, home: nat -> nat, m: map<nat, nat>, pos: map<nat, nat>, id: nat)
    returns (e: nat, pos': map<nat, nat>)
    requires Holds(t, home, m, pos, |t|) && id in m && |m| < |t|
    ensures e < |t| && e != pos[id] && t[e].key == EMPTY && Shifting(t, pos[id], Next(pos[id], |t|), e)
    ensures Holds(Shift(t, home, pos[id], Next(pos[id], |t|), e), home, m - {id}, pos', |t|)
  {
    HoldsTake(t, home, m, pos, id);
    assert m.Keys == (m - {id}).Keys + {id};
    e := EmptySlot(t, home, m - {id}, pos - {id}, pos[id]);
    pos' := ShiftHolds(t, home, m - {id}, pos - {id}, pos[id], Next(pos[id], |t|), e);
  }

  method ShiftBack(slots: array<Slot>, home: nat -> nat, at: nat, ghost e: nat)
    requires at < slots.Length && e < slots.Length && e != at && slots[e].key == EMPTY
    requires forall k: nat :: home(k) < slots.Length
    modifies slots
    ensures slots[..] == Shift(old(slots[..]), home, at, Next(at, slots.Length), e)
  {
    var cap := slots.Length;
    var hole: nat, j: nat := at, Next(at, cap);
    while slots[j].key != EMPTY
      invariant Shifting(slots[..], hole, j, e)
      invariant Shift(slots[..], home, hole, j, e) == Shift(old(slots[..]), home, at, Next(at, cap), e)
      decreases Dist(j, e, cap)
    {
      ghost var t := slots[..];
      var k := slots[j].key;
      if Dist(home(k), hole, cap) < Dist(home(k), j, cap) {
        slots[hole] := slots[j];
        assert slots[..] == t[hole := t[j]];
        hole := j;
      }
      j := Next(j, cap);
    }
    slots[hole] := Slot(EMPTY, 0);
  }

  class Index {
    const slots: array<Slot>
    /** The home slot of an id: its hash reduced to the table. */
    const home: nat -> nat
    var size: nat
    var initialised: bool
    ghost var m: map<nat, nat>
    ghost var pos: map<nat, nat>
    ghost var table: seq<Slot>

    ghost predicate Valid()
      reads this, slots
    {
      && slots.Length >= 2
      && size == |m|
      && 2 * size <= slots.Length
      && (forall k: nat :: home(k) < slots.Length)
      && slots.Length == |table|
      && (initialised ==> table == slots[..] && Holds(table, home, m, pos, |table|))
      && (!initialised ==> m == map[])
    }

    /** Follow id's probe sequence to the slot that holds it or to the empty slot that ends it. */
    method Probe(id: nat) returns (i: nat, found: bool)
      requires Valid() && initialised && id != EMPTY
      ensures i < slots.Length
      ensures found <==> id in m
      ensures found ==> pos[id] == i && slots[i] == Slot(id, m[id])
      ensures !found ==> slots[i].key == EMPTY
      ensures home(id) < slots.Length && PathFull(table, home(id), i, |table|)
    {
      ghost var e := EmptySlot(table, home, m, pos, |table|);
      i := Walk(slots, home(id), id, e);
      found := slots[i].key == id;
      if found {
        assert At(i) && Key(id);
      } else {
        ProbeMiss(table, home, m, pos, id, i);
      }
    }

    method Insert(id: nat, p: nat)
      requires Valid() && id != EMPTY && 2 * (size + 1) <= slots.Length
      modifies this, slots
      ensures Valid() && m == old(m)[id := p]
    {
      if !initialised {
        InitStorage();
      }
      var i, found := Probe(id);
      Put(id, p, i, found);
    }

    method Put(id: nat, p: nat, i: nat, found: bool)
      requires Valid() && initialised && id != EMPTY && 2 * (size + 1) <= slots.Length && i < slots.Length
      requires found <==> id in m
      requires found ==> pos[id] == i
      requires !found ==> slots[i].key == EMPTY && PathFull(table, home(id), i, |table|)
      modifies this, slots
      ensures Valid() && m == old(m)[id := p]
    {
      if found {
        HoldsOverwrite(table, home, m, pos, id, p);
      } else {
        HoldsInsert(table, home, m, pos, id, p, i);
        size := size + 1;
      }
      slots[i] := Slot(id, p);
      table, m, pos := table[i := Slot(id, p)], m[id := p], pos[id := i];
    }

    method Lookup(id: nat) returns (r: Option<nat>)
      requires Valid() && id != EMPTY
      ensures r == if id in m then Some(m[id]) else None
    {
      if !initialised {
        return None;
      }
      var i, found := Probe(id);
      r := if found then Some(slots[i].value) else None;
    }

    /** Remove id and return what it named. */
    method Take(id: nat) returns (r: Option<nat>)
      requires Valid() && id != EMPTY
      modifies this, slots
      ensures Valid() && m == old(m) - {id}
      ensures r == if id in old(m) then Some(old(m)[id]) else None
    {
      if !initialised {
        return None;
      }
      var i, found := Probe(id);
      if !found {
        return None;
      }
      r := Some(slots[i].value);
      Delete(id, i);
    }

    method Delete(id: nat, i: nat)
      requires Valid() && initialised && id in m && pos[id] == i
      modifies this, slots
      ensures Valid() && m == old(m) - {id}
    {
      ghost var e, pos' := DeleteHolds(table, home, m, pos, id);
      ShiftBack(slots, home, i, e);
      table, m, pos, size := Shift(table, home, i, Next(i, |table|), e), m - {id}, pos', size - 1;
    }

    method InitStorage()
      requires Valid() && !initialised
      modifies this, slots
      ensures Valid() && initialised && m == old(m) && size == old(size)
    {
      for i := 0 to slots.Length
        modifies slots
        invariant forall j | 0 <= j < i :: slots[j] == Slot(EMPTY, 0)
      {
        slots[i] := Slot(EMPTY, 0);
      }
      initialised, pos, table := true, map[], slots[..];
    }

    /** Room for at least twice `want` ids. */
    constructor (want: nat, hash: nat -> nat)
      requires want > 0
      ensures Valid() && m == map[] && slots.Length >= 2 * want && fresh(slots)
      ensures forall id: nat :: home(id) == hash(id) % slots.Length
    {
      var cap := 2;
      while cap < 2 * want
        invariant cap >= 2
        decreases 2 * want - cap
      {
        cap := 2 * cap;
      }
      slots := new Slot[cap];
      home := (id: nat) => hash(id) % cap;
      size, initialised, m, pos := 0, false, map[], map[];
      table := seq(cap, i => Slot(EMPTY, 0));
    }
  }
}
