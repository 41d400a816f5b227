/** Stamps across shards: each shard numbers its events from a base of its own. */
module Stamps {
  import opened Types
  import opened Stream
  import opened EngineSpec
  import Rings

  function Pow2(k: nat): (r: nat)
    ensures r > 0
  {
    if k == 0 then 1 else 2 * Pow2(k - 1)
  }

  lemma {:induction false} Pow2Plus(a: nat, b: nat)
    ensures Pow2(a + b) == Pow2(a) * Pow2(b)
  {
    if a > 0 {
      Pow2Plus(a - 1, b);
      assert Pow2(a) * Pow2(b) == 2 * (Pow2(a - 1) * Pow2(b));
    }
  }

  const BITS: nat := 64

  /** The numbers one of 2^logShards shards has to itself. */
  function Width(logShards: nat): nat
    requires logShards <= BITS
  {
    Pow2(BITS - logShards)
  }

  /** Shard i shifted into the top bits. */
  function SeqBase(i: nat, logShards: nat): nat
    requires logShards <= BITS
  {
    if logShards == 0 then 0 else i * Width(logShards)
  }

  /** The ranges of the shards lie one behind the other within 64 bits. */
  lemma RangesApart(i: nat, j: nat, logShards: nat)
    requires logShards <= BITS && i < j < Pow2(logShards)
    ensures SeqBase(i, logShards) + Width(logShards) <= SeqBase(j, logShards)
    ensures SeqBase(j, logShards) + Width(logShards) <= Pow2(BITS)
  {
    var w, n := Width(logShards), Pow2(logShards);
    assert logShards > 0;
    Pow2Plus(logShards, BITS - logShards);
    Rings.Multiple(i, j, w);
    Rings.Multiple(j, n, w);
  }

  /** While no shard has used up its range, no two events of one kind carry the same number, in one
      shard or in two. */
  lemma StampsUnique(i: nat, a: seq<Event>, na: nat, x: nat, j: nat, b: seq<Event>, nb: nat, y: nat, logShards: nat)
    requires logShards <= BITS && i < Pow2(logShards) && j < Pow2(logShards) && x < |a| && y < |b|
    requires Numbered(a, SeqBase(i, logShards), na) && na < SeqBase(i, logShards) + Width(logShards)
    requires Numbered(b, SeqBase(j, logShards), nb) && nb < SeqBase(j, logShards) + Width(logShards)
    requires i == j ==> a == b && x != y
    requires a[x].Fill? ==> !b[y].Trade?
    requires a[x].Trade? ==> !b[y].Fill?
    ensures Number(a[x]) != Number(b[y])
  {
    NumberedAscends(a, SeqBase(i, logShards), na, x, x);
    NumberedAscends(b, SeqBase(j, logShards), nb, y, y);
    if i < j {
      RangesApart(i, j, logShards);
    } else if j < i {
      RangesApart(j, i, logShards);
    } else if x < y {
      NumberedAscends(a, SeqBase(i, logShards), na, x, y);
    } else {
      NumberedAscends(a, SeqBase(i, logShards), na, y, x);
    }
  }

  /** The engine of shard i before its first command. */
  function Shard(i: nat, logShards: nat, ticks: nat, maxOrders: nat, cfg: Config): State
    requires logShards <= BITS
  {
    Initial(ticks, maxOrders, cfg.(seqBase := SeqBase(i, logShards)))
  }

  /** So it is for any commands that any two of the engines have been given. */
  lemma ShardStampsUnique(i: nat, cs: seq<Command>, x: nat, j: nat, ds: seq<Command>, y: nat,
                          logShards: nat, ticks: nat, maxOrders: nat, cfg: Config)
    requires logShards <= BITS && i < j < Pow2(logShards)
    requires RunOk(Shard(i, logShards, ticks, maxOrders, cfg), cs)
             && RunOk(Shard(j, logShards, ticks, maxOrders, cfg), ds)
    requires var a, b := Run(Shard(i, logShards, ticks, maxOrders, cfg), cs),
             Run(Shard(j, logShards, ticks, maxOrders, cfg), ds);
             && x < |a.events| && y < |b.events|
             && a.seqNo < SeqBase(i, logShards) + Width(logShards) && b.seqNo < SeqBase(j, logShards) + Width(logShards)
    ensures var a, b := Run(Shard(i, logShards, ticks, maxOrders, cfg), cs),
            Run(Shard(j, logShards, ticks, maxOrders, cfg), ds);
            Number(a.events[x]) < Number(b.events[y])
  {
    StreamExact(ticks, maxOrders, cfg.(seqBase := SeqBase(i, logShards)), cs);
    StreamExact(ticks, maxOrders, cfg.(seqBase := SeqBase(j, logShards)), ds);
    var a, b := Run(Shard(i, logShards, ticks, maxOrders, cfg), cs),
        Run(Shard(j, logShards, ticks, maxOrders, cfg), ds);
    NumberedAscends(a.events, SeqBase(i, logShards), a.seqNo, x, x);
    NumberedAscends(b.events, SeqBase(j, logShards), b.seqNo, y, y);
    RangesApart(i, j, logShards);
  }
}
