/** Tiers of 64-ary words as values: each word is the set of its bit positions, and a bit of the
    upper tier says that a word of the lower tier is not empty. */
module Tiers {
  import opened Types

  type Words = seq<set<nat>>

  predicate In(ws: Words, i: nat) {
    i / W < |ws| && i % W in ws[i / W]
  }

  /** The upper tier summarises the lower one exactly. */
  ghost predicate Summary(up: Words, lo: Words) {
    forall i: nat {:trigger In(up, i)} :: In(up, i) <==> i < |lo| && lo[i] != {}
  }

  function AddBit(ws: Words, i: nat): Words
    requires i / W < |ws|
  {
    ws[i / W := ws[i / W] + {i % W}]
  }

  function DropBitIf(ws: Words, i: nat, drop: bool): Words
    requires i / W < |ws|
  {
    if drop then ws[i / W := ws[i / W] - {i % W}] else ws
  }

  lemma SameIndex(i: nat, j: nat)
    requires i / W == j / W && i % W == j % W
    ensures i == j
  {
  }

  lemma InAdd(ws: Words, i: nat, j: nat)
    requires i / W < |ws|
    ensures In(AddBit(ws, i), j) <==> j == i || In(ws, j)
  {
    if i / W == j / W && i % W == j % W {
      SameIndex(i, j);
    }
  }

  lemma InDrop(ws: Words, i: nat, j: nat)
    requires i / W < |ws|
    ensures In(DropBitIf(ws, i, true), j) <==> j != i && In(ws, j)
  {
    if i / W == j / W && i % W == j % W {
      SameIndex(i, j);
    }
  }

  lemma SummaryAdd(up: Words, lo: Words, bit: nat)
    requires Summary(up, lo) && bit / W < |lo| && bit / W / W < |up|
    ensures Summary(AddBit(up, bit / W), AddBit(lo, bit))
  {
    var lo' := AddBit(lo, bit);
    forall i: nat ensures In(AddBit(up, bit / W), i) <==> i < |lo'| && lo'[i] != {} {
      InAdd(up, bit / W, i);
      assert In(up, i) <==> i < |lo| && lo[i] != {};
      assert bit % W in lo'[bit / W];
    }
  }

  lemma SummaryDrop(up: Words, lo: Words, bit: nat, drop: bool)
    requires Summary(up, lo) && bit / W < |lo| && bit / W / W < |up|
    ensures var lo' := DropBitIf(lo, bit, drop); Summary(DropBitIf(up, bit / W, drop && lo'[bit / W] == {}), lo')
  {
    var lo' := DropBitIf(lo, bit, drop);
    var d := drop && lo'[bit / W] == {};
    forall i: nat ensures In(DropBitIf(up, bit / W, d), i) <==> i < |lo'| && lo'[i] != {} {
      InDrop(up, bit / W, i);
      assert In(up, i) <==> i < |lo| && lo[i] != {};
      assert lo'[bit / W] != {} ==> lo[bit / W] != {};
    }
  }

  /** The tier stands for exactly the set s. */
  ghost predicate StandsFor(ws: Words, s: set<nat>) {
    forall i: nat {:trigger In(ws, i)} :: In(ws, i) <==> i in s
  }

  lemma StandsAdd(ws: Words, s: set<nat>, bit: nat)
    requires StandsFor(ws, s) && bit / W < |ws|
    ensures StandsFor(AddBit(ws, bit), s + {bit})
  {
    forall i: nat ensures In(AddBit(ws, bit), i) <==> i in s + {bit} {
      InAdd(ws, bit, i);
    }
  }

  lemma StandsDrop(ws: Words, s: set<nat>, bit: nat)
    requires StandsFor(ws, s) && bit / W < |ws|
    ensures StandsFor(DropBitIf(ws, bit, true), s - {bit})
  {
    forall i: nat ensures In(DropBitIf(ws, bit, true), i) <==> i in s - {bit} {
      InDrop(ws, bit, i);
    }
  }

  // ----- neighbours

  /** r is the least position from a up. */
  ghost predicate Least(ws: Words, a: nat, r: Option<nat>) {
    && (r.Some? ==> a <= r.value && In(ws, r.value))
    && forall i: nat {:trigger In(ws, i)} | In(ws, i) && a <= i :: r.Some? && r.value <= i
  }

  /** r is the greatest position below a. */
  ghost predicate Greatest(ws: Words, a: nat, r: Option<nat>) {
    && (r.Some? ==> r.value < a && In(ws, r.value))
    && forall i: nat {:trigger In(ws, i)} | In(ws, i) && i < a :: r.Some? && i <= r.value
  }

  lemma DivOrder(i: nat, j: nat)
    requires i / W < j / W
    ensures i < j
  {
  }

  lemma Compose(k: nat, p: nat)
    requires p < W
    ensures (k * W + p) / W == k && (k * W + p) % W == p
  {
  }

  lemma InUpper(up: Words, lo: Words, i: nat)
    requires Summary(up, lo) && In(lo, i)
    ensures In(up, i / W)
  {
    assert lo[i / W] != {};
  }

  /** The least word of the upper tier holds the least position of the lower one. */
  lemma LeastDown(up: Words, lo: Words, a: nat, k: nat, p: nat)
    requires Summary(up, lo) && Least(up, a, Some(k)) && k < |lo|
    requires p < W && p in lo[k] && forall q | q in lo[k] :: p <= q
    ensures Least(lo, a * W, Some(k * W + p))
  {
    Compose(k, p);
    forall i: nat | In(lo, i) && a * W <= i ensures k * W + p <= i {
      InUpper(up, lo, i);
      if i / W > k { DivOrder(k * W + p, i); }
    }
  }

  lemma GreatestDown(up: Words, lo: Words, a: nat, k: nat, p: nat)
    requires Summary(up, lo) && Greatest(up, a, Some(k)) && k < |lo|
    requires p < W && p in lo[k] && forall q | q in lo[k] :: q <= p
    ensures Greatest(lo, a * W, Some(k * W + p))
  {
    Compose(k, p);
    forall i: nat | In(lo, i) && i < a * W ensures i <= k * W + p {
      InUpper(up, lo, i);
      if i / W < k { DivOrder(i, k * W + p); }
    }
  }

  lemma LeastNoneDown(up: Words, lo: Words, a: nat)
    requires Summary(up, lo) && Least(up, a, None)
    ensures Least(lo, a * W, None)
  {
    forall i: nat | In(lo, i) ensures i < a * W {
      InUpper(up, lo, i);
    }
  }

  lemma GreatestNoneDown(up: Words, lo: Words, a: nat)
    requires Summary(up, lo) && Greatest(up, a, None)
    ensures Greatest(lo, a * W, None)
  {
    forall i: nat | In(lo, i) ensures a * W <= i {
      InUpper(up, lo, i);
    }
  }

  /** Nothing in the rest of a's word: the search goes on with the next word. */
  lemma LeastSkip(ws: Words, a: nat, r: Option<nat>)
    requires a / W < |ws| ==> forall q | q in ws[a / W] :: q < a % W
    requires Least(ws, (a / W + 1) * W, r)
    ensures Least(ws, a, r)
  {
    forall i: nat | In(ws, i) && a <= i ensures r.Some? && r.value <= i {
      if i / W == a / W {
        assert false;
      }
    }
  }

  lemma GreatestSkip(ws: Words, a: nat, r: Option<nat>)
    requires a / W < |ws| ==> forall q | q in ws[a / W] :: a % W < q
    requires Greatest(ws, (a / W) * W, r)
    ensures Greatest(ws, a + 1, r)
  {
    forall i: nat | In(ws, i) && i < a + 1 ensures r.Some? && i <= r.value {
      if i / W == a / W {
        assert false;
      }
    }
  }

  lemma LeastInWord(ws: Words, a: nat, p: nat)
    requires a / W < |ws| && a % W <= p < W && p in ws[a / W] && forall q | q in ws[a / W] && a % W <= q :: p <= q
    ensures Least(ws, a, Some(a / W * W + p))
  {
    Compose(a / W, p);
    forall i: nat | In(ws, i) && a <= i ensures a / W * W + p <= i {
      if i / W > a / W { DivOrder(a / W * W + p, i); }
    }
  }

  lemma GreatestInWord(ws: Words, a: nat, p: nat)
    requires a / W < |ws| && p <= a % W && p in ws[a / W] && forall q | q in ws[a / W] && q <= a % W :: q <= p
    ensures Greatest(ws, a + 1, Some(a / W * W + p))
  {
    Compose(a / W, p);
    forall i: nat | In(ws, i) && i <= a ensures i <= a / W * W + p {
      if i / W < a / W { DivOrder(i, a / W * W + p); }
    }
  }

  /** A single word under one imagined bit that says whether it is empty. */
  lemma TopSummary(ws: Words)
    requires |ws| == 1
    ensures Summary([if ws[0] == {} then {} else {0}], ws)
  {
  }

  /** r is the least member of s from a up. */
  ghost predicate NextIn(s: set<nat>, a: nat, r: Option<nat>) {
    && (r.Some? ==> a <= r.value && r.value in s)
    && forall i | i in s && a <= i :: r.Some? && r.value <= i
  }

  /** r is the greatest member of s up to a. */
  ghost predicate PrevIn(s: set<nat>, a: nat, r: Option<nat>) {
    && (r.Some? ==> r.value <= a && r.value in s)
    && forall i | i in s && i <= a :: r.Some? && i <= r.value
  }

  lemma LeastIsNext(ws: Words, s: set<nat>, a: nat, r: Option<nat>)
    requires StandsFor(ws, s) && Least(ws, a, r)
    ensures NextIn(s, a, r)
  {
    assert forall i | i in s :: In(ws, i);
  }

  lemma GreatestIsPrev(ws: Words, s: set<nat>, a: nat, r: Option<nat>)
    requires StandsFor(ws, s) && Greatest(ws, a + 1, r)
    ensures PrevIn(s, a, r)
  {
    assert forall i | i in s :: In(ws, i);
  }

  ghost predicate Inhabited(ws: Words) {
    exists i: nat :: In(ws, i)
  }

  /** A tier holds a position exactly when the tier that summarises it does. */
  lemma SummaryInhabited(up: Words, lo: Words)
    requires Summary(up, lo) && forall k, q | 0 <= k < |lo| && q in lo[k] :: q < W
    ensures Inhabited(up) <==> Inhabited(lo)
  {
    if Inhabited(up) {
      var k: nat :| In(up, k);
      var q :| q in lo[k];
      Compose(k, q);
      assert In(lo, k * W + q);
    }
    if Inhabited(lo) {
      var i: nat :| In(lo, i);
      InUpper(up, lo, i);
    }
  }
}
