/** The bit operations the bitmap performs on one 64-bit word, proved against the set of bit
    positions the word stands for. */
module Words {
  import opened Types

  const ONES: bv64 := 0xFFFF_FFFF_FFFF_FFFF

  // ----- masks, positions being six-bit numbers

  function Mask(i: bv6): bv64 { (1 as bv64) << (i as bv64) }

  function HighMask(off: bv6): bv64 { ONES << (off as bv64) }

  function LowMask(off: bv6): bv64 { if off == 63 then ONES else ((1 as bv64) << (off as bv64 + 1)) - 1 }

  predicate Bit(w: bv64, i: bv6) { w & Mask(i) != 0 }

  lemma OrSame(w: bv64, k: bv6)
    ensures Bit(w | Mask(k), k)
  {
  }

  lemma OrOther(w: bv64, k: bv6, i: bv6)
    requires i != k
    ensures Bit(w | Mask(k), i) <==> Bit(w, i)
  {
  }

  lemma AndNotBit(w: bv64, k: bv6, i: bv6)
    ensures Bit(w & !Mask(k), i) <==> i != k && Bit(w, i)
  {
  }

  lemma HighBit(w: bv64, k: bv6, i: bv6)
    ensures Bit(w & HighMask(k), i) <==> i >= k && Bit(w, i)
  {
  }

  lemma LowBit(w: bv64, k: bv6, i: bv6)
    ensures Bit(w & LowMask(k), i) <==> i <= k && Bit(w, i)
  {
  }

  /** No bit of w below p, respectively above p. */
  predicate ClearBelow(w: bv64, p: bv6) { w & (Mask(p) - 1) == 0 }

  predicate ClearAbove(w: bv64, p: bv6) { w & !LowMask(p) == 0 }

  lemma NextBit(w: bv64, p: bv6)
    requires w != 0 && ClearBelow(w, p) && !Bit(w, p)
    ensures p < 63 && ClearBelow(w, p + 1)
  {
  }

  lemma PrevBit(w: bv64, p: bv6)
    requires w != 0 && ClearAbove(w, p) && !Bit(w, p)
    ensures p > 0 && ClearAbove(w, p - 1)
  {
  }

  lemma LowestIs(w: bv64, p: bv6, q: bv6)
    requires ClearBelow(w, p) && Bit(w, q)
    ensures p <= q
  {
  }

  lemma HighestIs(w: bv64, p: bv6, q: bv6)
    requires ClearAbove(w, p) && Bit(w, q)
    ensures q <= p
  {
  }

  /** Count of trailing zeros: the lowest bit of a nonzero word. */
  method CountrZero(w: bv64) returns (p: bv6)
    requires w != 0
    ensures Bit(w, p) && ClearBelow(w, p)
  {
    p := 0;
    while !Bit(w, p)
      invariant ClearBelow(w, p)
      decreases 63 - p
    {
      NextBit(w, p);
      p := p + 1;
    }
  }

  /** The highest bit of a nonzero word, 63 - countl_zero. */
  method HighestBit(w: bv64) returns (p: bv6)
    requires w != 0
    ensures Bit(w, p) && ClearAbove(w, p)
  {
    p := 63;
    while !Bit(w, p)
      invariant ClearAbove(w, p)
      decreases p
    {
      PrevBit(w, p);
      p := p - 1;
    }
  }

  // ----- the set a word stands for

  function Nat(p: bv6): nat { p as int }

  function Off(i: nat): bv6
    requires i < W
  {
    i as bv6
  }

  lemma NatOff(i: nat)
    requires i < W
    ensures Nat(Off(i)) == i
  {
  }

  lemma OffNat(p: bv6)
    ensures Nat(p) < W && Off(Nat(p)) == p
  {
  }

  lemma NatOrder(p: bv6, q: bv6)
    ensures p < q <==> Nat(p) < Nat(q)
  {
  }

  /** The positions a word stands for. */
  ghost function Bits(w: bv64): set<nat> {
    set i: nat | i < W && Bit(w, Off(i))
  }

  lemma InBits(w: bv64, p: bv6)
    ensures Nat(p) in Bits(w) <==> Bit(w, p)
    ensures Nat(p) < W
  {
    OffNat(p);
  }

  /** What holds of every six-bit position holds of every natural below 64. */
  lemma SameBits(v: bv64, s: set<nat>)
    requires forall i | i in s :: i < W
    requires forall p: bv6 :: Bit(v, p) <==> Nat(p) in s
    ensures Bits(v) == s
  {
    forall i: nat | i < W ensures i in Bits(v) <==> i in s {
      NatOff(i);
    }
  }

  lemma OrBits(w: bv64, k: bv6)
    ensures Bits(w | Mask(k)) == Bits(w) + {Nat(k)}
  {
    OffNat(k);
    forall p: bv6 ensures Bit(w | Mask(k), p) <==> Nat(p) in Bits(w) + {Nat(k)} {
      if p == k {
        OrSame(w, k);
      } else {
        OrOther(w, k, p);
        NatOrder(p, k);
        NatOrder(k, p);
      }
      InBits(w, p);
    }
    SameBits(w | Mask(k), Bits(w) + {Nat(k)});
  }

  lemma AndNotBits(w: bv64, k: bv6)
    ensures Bits(w & !Mask(k)) == Bits(w) - {Nat(k)}
  {
    OffNat(k);
    forall p: bv6 ensures Bit(w & !Mask(k), p) <==> Nat(p) in Bits(w) - {Nat(k)} {
      AndNotBit(w, k, p);
      InBits(w, p);
      OffNat(p);
    }
    SameBits(w & !Mask(k), Bits(w) - {Nat(k)});
  }

  lemma ZeroBits(w: bv64)
    ensures w == 0 <==> Bits(w) == {}
  {
    if w != 0 {
      var p := SomeBit(w);
      InBits(w, p);
    }
  }

  lemma SomeBit(w: bv64) returns (p: bv6)
    requires w != 0
    ensures Bit(w, p)
  {
    p := 0;
    while !Bit(w, p)
      invariant ClearBelow(w, p)
      decreases 63 - p
    {
      NextBit(w, p);
      p := p + 1;
    }
  }

  // ----- the operations of the bitmap, with positions as naturals

  /** w | mask(k). */
  method SetBit(w: bv64, k: nat) returns (r: bv64)
    requires k < W
    ensures Bits(r) == Bits(w) + {k}
  {
    r := w | Mask(Off(k));
    OrBits(w, Off(k));
    NatOff(k);
  }

  lemma AllOfMask(w: bv64, m: bv64)
    ensures w & !(m & (0 - 1)) == w & !m
  {
  }

  lemma NoneOfMask(w: bv64, m: bv64)
    ensures w & !(m & (0 - 0)) == w
  {
  }

  lemma ClearedBits(w: bv64, k: nat, r: bv64)
    requires k < W && r == w & !(Mask(Off(k)) & (0 - 1))
    ensures Bits(r) == Bits(w) - {k}
  {
    AllOfMask(w, Mask(Off(k)));
    AndNotBits(w, Off(k));
    NatOff(k);
  }

  lemma KeptBits(w: bv64, m: bv64, r: bv64)
    requires r == w & !(m & (0 - 0))
    ensures Bits(r) == Bits(w)
  {
    NoneOfMask(w, m);
  }

  /** w & ~(mask(k) & (0 - empty)): the bit goes only when `empty` says the word below drained. */
  method ClearBitIf(w: bv64, k: nat, empty: bool) returns (r: bv64)
    requires k < W
    ensures Bits(r) == if empty then Bits(w) - {k} else Bits(w)
  {
    if empty {
      r := w & !(Mask(Off(k)) & (0 - 1));
      ClearedBits(w, k, r);
    } else {
      r := w & !(Mask(Off(k)) & (0 - 0));
      KeptBits(w, Mask(Off(k)), r);
    }
  }

  lemma LowestAt(w: bv64, p: bv6, i: nat)
    requires ClearBelow(w, p) && i in Bits(w)
    ensures Nat(p) <= i
  {
    LowestIs(w, p, Off(i));
    NatOrder(Off(i), p);
    NatOff(i);
  }

  lemma HighestAt(w: bv64, p: bv6, i: nat)
    requires ClearAbove(w, p) && i in Bits(w)
    ensures i <= Nat(p)
  {
    HighestIs(w, p, Off(i));
    NatOrder(p, Off(i));
    NatOff(i);
  }

  /** The lowest position of a nonzero word. */
  method Lowest(w: bv64) returns (r: nat)
    requires w != 0
    ensures r in Bits(w) && r < W && forall i | i in Bits(w) :: r <= i
  {
    var p := CountrZero(w);
    r := Nat(p);
    InBits(w, p);
    forall i | i in Bits(w) ensures r <= i {
      LowestAt(w, p, i);
    }
  }

  /** The highest position of a nonzero word. */
  method Highest(w: bv64) returns (r: nat)
    requires w != 0
    ensures r in Bits(w) && r < W && forall i | i in Bits(w) :: i <= r
  {
    var p := HighestBit(w);
    r := Nat(p);
    InBits(w, p);
    forall i | i in Bits(w) ensures i <= r {
      HighestAt(w, p, i);
    }
  }

  lemma HighBits(w: bv64, o: bv6)
    ensures Bits(w & HighMask(o)) == set i | i in Bits(w) && i >= Nat(o)
  {
    forall p: bv6 ensures Bit(w & HighMask(o), p) <==> Nat(p) in Bits(w) && Nat(p) >= Nat(o) {
      HighBit(w, o, p);
      InBits(w, p);
      NatOrder(p, o);
    }
    SameBits(w & HighMask(o), set i | i in Bits(w) && i >= Nat(o));
  }

  lemma LowBits(w: bv64, o: bv6)
    ensures Bits(w & LowMask(o)) == set i | i in Bits(w) && i <= Nat(o)
  {
    forall p: bv6 ensures Bit(w & LowMask(o), p) <==> Nat(p) in Bits(w) && Nat(p) <= Nat(o) {
      LowBit(w, o, p);
      InBits(w, p);
      NatOrder(o, p);
    }
    SameBits(w & LowMask(o), set i | i in Bits(w) && i <= Nat(o));
  }

  /** w & high_mask(off). */
  method KeepFrom(w: bv64, off: nat) returns (v: bv64)
    requires off < W
    ensures Bits(v) == set i | i in Bits(w) && i >= off
  {
    v := w & HighMask(Off(off));
    HighBits(w, Off(off));
    NatOff(off);
  }

  /** w & low_mask_inclusive(off). */
  method KeepUpTo(w: bv64, off: nat) returns (v: bv64)
    requires off < W
    ensures Bits(v) == set i | i in Bits(w) && i <= off
  {
    v := w & LowMask(Off(off));
    LowBits(w, Off(off));
    NatOff(off);
  }

  /** The lowest position from `off` up. */
  method LowestFrom(w: bv64, off: nat) returns (r: Option<nat>)
    requires off < W
    ensures r.None? ==> forall i | i in Bits(w) :: i < off
    ensures r.Some? ==> r.value in Bits(w) && off <= r.value < W && forall i | i in Bits(w) && off <= i :: r.value <= i
  {
    var v := KeepFrom(w, off);
    assert forall i | i in Bits(w) && off <= i :: i in Bits(v);
    if v == 0 {
      ZeroBits(v);
      r := None;
    } else {
      var p := Lowest(v);
      r := Some(p);
    }
  }

  /** The highest position up to `off`. */
  method HighestUpTo(w: bv64, off: nat) returns (r: Option<nat>)
    requires off < W
    ensures r.None? ==> forall i | i in Bits(w) :: off < i
    ensures r.Some? ==> r.value in Bits(w) && r.value <= off && forall i | i in Bits(w) && i <= off :: i <= r.value
  {
    var v := KeepUpTo(w, off);
    assert forall i | i in Bits(w) && i <= off :: i in Bits(v);
    if v == 0 {
      ZeroBits(v);
      r := None;
    } else {
      var p := Highest(v);
      r := Some(p);
    }
  }
}
