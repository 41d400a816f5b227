/** The hierarchical bitmap: up to four tiers of 64-bit words over [0, ticks). */
module Bitmaps {
  import opened Types
  import opened Tiers
  import Bv = Words

  function CeilDiv(a: nat, b: nat): nat
    requires b > 0
  {
    (a + b - 1) / b
  }

  /** Words of the tier above one of n words; none above a single word. */
  function Above(n: nat): nat {
    if n > 1 then CeilDiv(n, W) else 0
  }

  ghost function Sets(a: seq<bv64>): (ws: seq<set<nat>>)
    ensures |ws| == |a|
  {
    seq(|a|, k requires 0 <= k < |a| => Bv.Bits(a[k]))
  }

  /** The tier with the bit of position i set. */
  method SetAt(a: seq<bv64>, i: nat) returns (r: seq<bv64>)
    requires i / W < |a|
    ensures |r| == |a| && Sets(r) == AddBit(Sets(a), i)
  {
    var w := Bv.SetBit(a[i / W], i % W);
    r := a[i / W := w];
  }

  /** The tier with the bit of position i cleared when `drop` says so, and whether its word is then
      empty too. */
  method ClearAt(a: seq<bv64>, i: nat, drop: bool) returns (r: seq<bv64>, empty: bool)
    requires i / W < |a|
    ensures |r| == |a| && Sets(r) == DropBitIf(Sets(a), i, drop)
    ensures empty <==> drop && Sets(r)[i / W] == {}
  {
    var w := Bv.ClearBitIf(a[i / W], i % W, drop);
    r := a[i / W := w];
    empty := w == 0 && drop;
    Bv.ZeroBits(w);
    assert Sets(r) == DropBitIf(Sets(a), i, drop);
  }

  /** Probe a's word at and above a. */
  method ScanUp(ws: seq<bv64>, a: nat) returns (r: Option<nat>)
    requires a / W < |ws|
    ensures r.Some? ==> Least(Sets(ws), a, r)
    ensures r.None? ==> forall q | q in Sets(ws)[a / W] :: q < a % W
  {
    var p := Bv.LowestFrom(ws[a / W], a % W);
    if p.Some? {
      r := Some(a / W * W + p.value);
      assert Sets(ws)[a / W] == Bv.Bits(ws[a / W]);
      LeastInWord(Sets(ws), a, p.value);
    } else {
      r := None;
    }
  }

  /** Probe a's word at and below a. */
  method ScanDown(ws: seq<bv64>, a: nat) returns (r: Option<nat>)
    requires a / W < |ws|
    ensures r.Some? ==> Greatest(Sets(ws), a + 1, r)
    ensures r.None? ==> forall q | q in Sets(ws)[a / W] :: a % W < q
  {
    var p := Bv.HighestUpTo(ws[a / W], a % W);
    if p.Some? {
      r := Some(a / W * W + p.value);
      assert Sets(ws)[a / W] == Bv.Bits(ws[a / W]);
      GreatestInWord(Sets(ws), a, p.value);
    } else {
      r := None;
    }
  }

  /** From the least word of the tier above to the least position of this one. */
  method LowestIn(lo: seq<bv64>, k: nat, ghost up: seq<set<nat>>, ghost a: nat) returns (r: nat)
    requires Summary(up, Sets(lo)) && Least(up, a, Some(k))
    ensures Least(Sets(lo), a * W, Some(r))
  {
    assert In(up, k);
    assert k < |lo| && Sets(lo)[k] == Bv.Bits(lo[k]);
    Bv.ZeroBits(lo[k]);
    var p := Bv.Lowest(lo[k]);
    r := k * W + p;
    LeastDown(up, Sets(lo), a, k, p);
  }

  method HighestIn(lo: seq<bv64>, k: nat, ghost up: seq<set<nat>>, ghost a: nat) returns (r: nat)
    requires Summary(up, Sets(lo)) && Greatest(up, a, Some(k))
    ensures Greatest(Sets(lo), a * W, Some(r))
  {
    assert In(up, k);
    assert k < |lo| && Sets(lo)[k] == Bv.Bits(lo[k]);
    Bv.ZeroBits(lo[k]);
    var p := Bv.Highest(lo[k]);
    r := k * W + p;
    GreatestDown(up, Sets(lo), a, k, p);
  }

  class Bitmap {
    const ticks: nat
    var l0: seq<bv64>
    var l1: seq<bv64>
    var l2: seq<bv64>
    var l3: seq<bv64>
    /** The positions that are set. */
    ghost var s: set<nat>

    ghost predicate Shape()
      reads this
    {
      && 0 < ticks
      && |l0| == CeilDiv(ticks, W)
      && |l1| == Above(|l0|)
      && |l2| == Above(|l1|)
      && |l3| == Above(|l2|) <= 1
    }

    ghost predicate Valid()
      reads this
    {
      && Shape()
      && StandsFor(Sets(l0), s)
      && (forall i | i in s :: i < ticks)
      && (|l1| > 0 ==> Summary(Sets(l1), Sets(l0)))
      && (|l2| > 0 ==> Summary(Sets(l2), Sets(l1)))
      && (|l3| > 0 ==> Summary(Sets(l3), Sets(l2)))
    }

    method Set(bit: nat)
      requires Valid() && bit < ticks
      modifies this
      ensures Valid() && s == old(s) + {bit}
    {
      ghost var w0, w1, w2, w3 := Sets(l0), Sets(l1), Sets(l2), Sets(l3);
      l0 := SetAt(l0, bit);
      StandsAdd(w0, s, bit);
      s := s + {bit};
      if |l1| > 0 {
        l1 := SetAt(l1, bit / W);
        SummaryAdd(w1, w0, bit);
        if |l2| > 0 {
          l2 := SetAt(l2, bit / W / W);
          SummaryAdd(w2, w1, bit / W);
          if |l3| > 0 {
            l3 := SetAt(l3, bit / W / W / W);
            SummaryAdd(w3, w2, bit / W / W);
          }
        }
      }
    }

    method Clear(bit: nat)
      requires Valid() && bit < ticks
      modifies this
      ensures Valid() && s == old(s) - {bit}
    {
      ghost var w0, w1, w2, w3 := Sets(l0), Sets(l1), Sets(l2), Sets(l3);
      var empty0, empty1, empty2, empty3;
      l0, empty0 := ClearAt(l0, bit, true);
      StandsDrop(w0, s, bit);
      s := s - {bit};
      if |l1| > 0 {
        SummaryDrop(w1, w0, bit, true);
        l1, empty1 := ClearAt(l1, bit / W, empty0);
        if |l2| > 0 {
          SummaryDrop(w2, w1, bit / W, empty0);
          l2, empty2 := ClearAt(l2, bit / W / W, empty1);
          if |l3| > 0 {
            SummaryDrop(w3, w2, bit / W / W, empty1);
            l3, empty3 := ClearAt(l3, bit / W / W / W, empty2);
          }
        }
      }
    }

    /** Forget every position. */
    method ClearAll()
      requires Valid()
      modifies this
      ensures Valid() && s == {}
    {
      l0 := seq(|l0|, _ => 0);
      l1 := seq(|l1|, _ => 0);
      l2 := seq(|l2|, _ => 0);
      l3 := seq(|l3|, _ => 0);
      s := {};
      Bv.ZeroBits(0);
      assert StandsFor(Sets(l0), {});
    }

    /** The lowest position set. */
    method LowestSet() returns (r: Option<nat>)
      requires Valid()
      ensures NextIn(s, 0, r)
    {
      var empty := Empty();
      if empty {
        return None;
      }
      var idx: nat := 0;
      ghost var up := [{0}];
      assert Least(up, 0, Some(0));
      if |l3| > 0 {
        TopSummary(Sets(l3));
        idx := LowestIn(l3, idx, up, 0);
        up := Sets(l3);
      }
      if |l2| > 0 {
        if |l3| == 0 { TopSummary(Sets(l2)); }
        idx := LowestIn(l2, idx, up, 0);
        up := Sets(l2);
      }
      if |l1| > 0 {
        if |l2| == 0 { TopSummary(Sets(l1)); }
        idx := LowestIn(l1, idx, up, 0);
        up := Sets(l1);
      }
      if |l1| == 0 { TopSummary(Sets(l0)); }
      idx := LowestIn(l0, idx, up, 0);
      LeastIsNext(Sets(l0), s, 0, Some(idx));
      r := Some(idx);
    }

    /** Whether nothing is set, read off the one word of the top tier. */
    method Empty() returns (e: bool)
      requires Valid()
      ensures e <==> s == {}
      ensures e <==> Sets(if |l3| > 0 then l3 else if |l2| > 0 then l2 else if |l1| > 0 then l1 else l0)[0] == {}
    {
      var top := if |l3| > 0 then l3 else if |l2| > 0 then l2 else if |l1| > 0 then l1 else l0;
      e := top[0] == 0;
      Bv.ZeroBits(top[0]);
      ghost var one := [if e then {} else {0}];
      assert e <==> !Inhabited(one) by {
        assert !e ==> In(one, 0);
      }
      TopSummary(Sets(top));
      SummaryInhabited(one, Sets(top));
      if |l3| > 0 { SummaryInhabited(Sets(l3), Sets(l2)); }
      if |l2| > 0 { SummaryInhabited(Sets(l2), Sets(l1)); }
      if |l1| > 0 { SummaryInhabited(Sets(l1), Sets(l0)); }
      assert forall i | i in s :: In(Sets(l0), i);
    }

    /** The highest position set. */
    method HighestSet() returns (r: Option<nat>)
      requires Valid()
      ensures PrevIn(s, ticks, r)
    {
      var empty := Empty();
      if empty {
        return None;
      }
      var idx: nat := 0;
      ghost var up, a := [{0}], 1;
      assert Greatest(up, 1, Some(0));
      if |l3| > 0 {
        TopSummary(Sets(l3));
        idx := HighestIn(l3, idx, up, a);
        up, a := Sets(l3), a * W;
      }
      if |l2| > 0 {
        if |l3| == 0 { TopSummary(Sets(l2)); }
        idx := HighestIn(l2, idx, up, a);
        up, a := Sets(l2), a * W;
      }
      if |l1| > 0 {
        if |l2| == 0 { TopSummary(Sets(l1)); }
        idx := HighestIn(l1, idx, up, a);
        up, a := Sets(l1), a * W;
      }
      if |l1| == 0 { TopSummary(Sets(l0)); }
      idx := HighestIn(l0, idx, up, a);
      r := Some(idx);
      assert ticks <= a * W;
      assert In(Sets(l0), idx);
      GreatestIsPrev(Sets(l0), s, a * W - 1, r);
    }

    /** The lowest position set from `start` up: probe start's word, then go on one tier above. */
    method NextSetAtOrAfter(start: nat) returns (r: Option<nat>)
      requires Valid()
      ensures NextIn(s, start, r)
    {
      if start >= ticks {
        return None;
      }
      r := ScanUp(l0, start);
      if r.None? {
        if |l1| > 0 {
          var up := Next1(start / W + 1);
          if up.Some? {
            var k := LowestIn(l0, up.value, Sets(l1), start / W + 1);
            r := Some(k);
          } else {
            LeastNoneDown(Sets(l1), Sets(l0), start / W + 1);
          }
        }
        LeastSkip(Sets(l0), start, r);
      }
      LeastIsNext(Sets(l0), s, start, r);
    }

    method Next1(p: nat) returns (r: Option<nat>)
      requires Valid() && |l1| > 0
      ensures Least(Sets(l1), p, r)
    {
      if p >= |l0| {
        return None;
      }
      r := ScanUp(l1, p);
      if r.None? {
        if |l2| > 0 {
          var up := Next2(p / W + 1);
          if up.Some? {
            var k := LowestIn(l1, up.value, Sets(l2), p / W + 1);
            r := Some(k);
          } else {
            LeastNoneDown(Sets(l2), Sets(l1), p / W + 1);
          }
        }
        LeastSkip(Sets(l1), p, r);
      }
    }

    method Next2(p: nat) returns (r: Option<nat>)
      requires Valid() && |l2| > 0
      ensures Least(Sets(l2), p, r)
    {
      if p >= |l1| {
        return None;
      }
      r := ScanUp(l2, p);
      if r.None? {
        if |l3| > 0 {
          var up := Next3(p / W + 1);
          if up.Some? {
            var k := LowestIn(l2, up.value, Sets(l3), p / W + 1);
            r := Some(k);
          } else {
            LeastNoneDown(Sets(l3), Sets(l2), p / W + 1);
          }
        }
        LeastSkip(Sets(l2), p, r);
      }
    }

    method Next3(p: nat) returns (r: Option<nat>)
      requires Valid() && |l3| > 0
      ensures Least(Sets(l3), p, r)
    {
      if p >= |l2| {
        return None;
      }
      r := ScanUp(l3, p);
      if r.None? {
        LeastSkip(Sets(l3), p, r);
      }
    }

    /** The highest position set up to `start`. */
    method PrevSetAtOrBefore(start: nat) returns (r: Option<nat>)
      requires Valid()
      ensures PrevIn(s, start, r)
    {
      var at := if start >= ticks then ticks - 1 else start;
      r := ScanDown(l0, at);
      if r.None? {
        if |l1| > 0 && at / W > 0 {
          var up := Prev1(at / W - 1);
          if up.Some? {
            var k := HighestIn(l0, up.value, Sets(l1), at / W);
            r := Some(k);
          } else {
            GreatestNoneDown(Sets(l1), Sets(l0), at / W);
          }
        }
        GreatestSkip(Sets(l0), at, r);
      }
      GreatestIsPrev(Sets(l0), s, at, r);
    }

    method Prev1(p: nat) returns (r: Option<nat>)
      requires Valid() && |l1| > 0 && p < |l0|
      ensures Greatest(Sets(l1), p + 1, r)
    {
      r := ScanDown(l1, p);
      if r.None? {
        if |l2| > 0 && p / W > 0 {
          var up := Prev2(p / W - 1);
          if up.Some? {
            var k := HighestIn(l1, up.value, Sets(l2), p / W);
            r := Some(k);
          } else {
            GreatestNoneDown(Sets(l2), Sets(l1), p / W);
          }
        }
        GreatestSkip(Sets(l1), p, r);
      }
    }

    method Prev2(p: nat) returns (r: Option<nat>)
      requires Valid() && |l2| > 0 && p < |l1|
      ensures Greatest(Sets(l2), p + 1, r)
    {
      r := ScanDown(l2, p);
      if r.None? {
        if |l3| > 0 && p / W > 0 {
          var up := Prev3(p / W - 1);
          if up.Some? {
            var k := HighestIn(l2, up.value, Sets(l3), p / W);
            r := Some(k);
          } else {
            GreatestNoneDown(Sets(l3), Sets(l2), p / W);
          }
        }
        GreatestSkip(Sets(l2), p, r);
      }
    }

    method Prev3(p: nat) returns (r: Option<nat>)
      requires Valid() && |l3| > 0 && p < |l2|
      ensures Greatest(Sets(l3), p + 1, r)
    {
      r := ScanDown(l3, p);
      if r.None? {
        GreatestSkip(Sets(l3), p, r);
      }
    }

    /** An empty bitmap over [0, ticks); the ladder has at most 64^4 ticks. */
    constructor (ticks: nat)
      requires 0 < ticks <= W * W * W * W
      ensures Valid() && this.ticks == ticks && s == {}
    {
      this.ticks := ticks;
      var n0 := CeilDiv(ticks, W);
      var n1 := Above(n0);
      var n2 := Above(n1);
      l0 := seq(n0, _ => 0);
      l1 := seq(n1, _ => 0);
      l2 := seq(n2, _ => 0);
      l3 := seq(Above(n2), _ => 0);
      s := {};
      new;
      Bv.ZeroBits(0);
      assert StandsFor(Sets(l0), {});
    }
  }
}
