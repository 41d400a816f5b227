/** Generations in time. A slot's generation moves on by one whenever the slot is taken or released; so it
    is odd exactly while the slot holds an order, and a handle that the slot has moved past finds nothing
    any more, as long as the slot has not gone round all 2^32 generations since the handle was current. */
module StaleHandles {
  import opened Types
  import opened Ladders
  import opened Books
  import opened EngineSpec
  import opened Invariants
  import opened Repricing
  import opened Handles

  // ----- the circle of generations

  predicate InCircle(b: Book) {
    forall slot | 0 <= slot < |b.gens| :: b.gens[slot] < GENERATIONS
  }

  /** How far generation y is ahead of x. */
  function Ahead(x: nat, y: nat): nat
    requires x < GENERATIONS && y < GENERATIONS
  {
    if y >= x then y - x else y + GENERATIONS - x
  }

  /** Where k moves from x lead on the circle. */
  function Onward(x: nat, k: nat): nat
    decreases k
  {
    if k == 0 then x else Onward(if x + 1 == GENERATIONS then 0 else x + 1, k - 1)
  }

  lemma {:induction false} OnwardOn(x: nat, j: nat, k: nat)
    ensures Onward(Onward(x, j), k) == Onward(x, j + k)
    decreases j
  {
    if j > 0 {
      OnwardOn(if x + 1 == GENERATIONS then 0 else x + 1, j - 1, k);
    }
  }

  lemma {:induction false} OnwardIs(x: nat, k: nat)
    requires x < GENERATIONS
    ensures Onward(x, k) == (x + k) % GENERATIONS
    decreases k
  {
    if k > 0 {
      if x + 1 == GENERATIONS {
        OnwardIs(0, k - 1);
        assert x + k == (k - 1) + GENERATIONS;
      } else {
        OnwardIs(x + 1, k - 1);
      }
    }
  }

  lemma AheadOnward(x: nat, k: nat, y: nat)
    requires x < GENERATIONS && k < GENERATIONS && y == Onward(x, k)
    ensures y < GENERATIONS && Ahead(x, y) == k
  {
    OnwardIs(x, k);
  }

  lemma {:induction false} RoundAgain(x: nat, k: nat)
    requires x < GENERATIONS
    ensures (x + k) % GENERATIONS == x <==> k % GENERATIONS == 0
    decreases k
  {
    if k >= GENERATIONS {
      RoundAgain(x, k - GENERATIONS);
    }
  }

  /** A slot has its old generation again exactly when it has gone round the circle, or not moved. */
  lemma OldAgain(x: nat, k: nat)
    requires x < GENERATIONS
    ensures Onward(x, k) == x <==> k % GENERATIONS == 0
  {
    OnwardIs(x, k);
    RoundAgain(x, k);
  }

  lemma NotYetRound(x: nat, y: nat, j: nat, k: nat)
    requires x < GENERATIONS && y == Onward(x, j) != x && j + k < GENERATIONS
    ensures Onward(y, k) != x
  {
    OnwardOn(x, j, k);
    OldAgain(x, j + k);
    assert j > 0;
  }

  // ----- taking and releasing

  /** From a to b one slot is taken, or one is released, or none is either. */
  predicate Clicks(a: Book, b: Book) {
    || (b.free == a.free && b.gens == a.gens)
    || Handed(a.free, b.free, a.gens, b.gens)
    || Handed(b.free, a.free, a.gens, b.gens)
  }

  /** The first of the longer list's slots is the one. */
  predicate Handed(long: seq<nat>, short: seq<nat>, before: seq<nat>, after: seq<nat>) {
    long != [] && long == [long[0]] + short && long[0] !in short && long[0] < |before| && after == Bump(before, long[0])
  }

  /** Whether the slot has been taken or released. */
  function Turn(a: Book, b: Book, slot: nat): nat {
    if (slot in a.free) != (slot in b.free) then 1 else 0
  }

  /** On the way from a to b, with k turns of the slot: its generation has moved by k, and whatever held of
      all generations does so still. */
  predicate Reached(a: Book, b: Book, slot: nat, k: nat) {
    && |a.gens| == |b.gens| && (InCircle(a) ==> InCircle(b)) && (Parity(a) ==> Parity(b))
    && (InCircle(a) && slot < |a.gens| ==> b.gens[slot] == Onward(a.gens[slot], k))
  }

  lemma ReachedStart(b: Book, slot: nat)
    ensures Reached(b, b, slot, 0)
  {
  }

  lemma ReachedOn(a: Book, b: Book, c: Book, slot: nat, j: nat, k: nat, n: nat)
    requires Reached(a, b, slot, j) && Reached(b, c, slot, k) && n == j + k
    ensures Reached(a, c, slot, n)
  {
    if InCircle(a) && slot < |a.gens| {
      OnwardOn(a.gens[slot], j, k);
    }
  }

  lemma BumpOnward(x: nat)
    requires x < GENERATIONS
    ensures (x + 1) % GENERATIONS == Onward(x, 1) < GENERATIONS
  {
    OnwardIs(x, 1);
  }

  lemma ClickParity(a: Book, b: Book)
    requires Clicks(a, b) && Parity(a)
    ensures Parity(b)
  {
    forall slot | 0 <= slot < |b.gens| ensures b.gens[slot] % 2 == if slot in b.free then 0 else 1 {
      BumpParity(a.gens[slot]);
    }
  }

  lemma ClickReaches(a: Book, b: Book, slot: nat)
    requires Clicks(a, b)
    ensures Reached(a, b, slot, Turn(a, b, slot))
  {
    if Parity(a) {
      ClickParity(a, b);
    }
    if InCircle(a) {
      forall x | 0 <= x < |a.gens| ensures b.gens[x] == Onward(a.gens[x], Turn(a, b, x)) < GENERATIONS {
        BumpOnward(a.gens[x]);
      }
    }
  }

  lemma RemoveClicks(b: Book, s: Side, px: nat, k: nat)
    requires Wf(b) && px < b.Ticks() && k < |b.Of(s)[px]|
    ensures b.Of(s)[px][k].slot < |b.gens| && Clicks(b, RemoveNode(b, s, px, k))
    ensures forall slot | slot in b.free :: slot in RemoveNode(b, s, px, k).free
  {
    SlotFacts(b, s, px, k);
  }

  lemma ReduceClicks(b: Book, s: Side, px: nat, q: nat)
    requires Wf(b) && Reducible(b, s, px, q)
    ensures Clicks(b, ReduceFront(b, s, px, q))
    ensures forall slot | slot in b.free :: slot in ReduceFront(b, s, px, q).free
  {
    if b.Of(s)[px][0].o.remaining == q {
      RemoveClicks(b, s, px, 0);
    }
  }

  lemma AddClicks(b: Book, o: Order)
    requires Wf(b) && o.px < b.Ticks() && o.remaining > 0 && ValidId(o.id) && b.free != []
    ensures Clicks(b, AddOrder(b, o))
  {
    AddNodeWf(b, o);
    FreeOnce(b);
  }

  // ----- matching only releases

  /** How often matching takes or releases the slot. */
  function MatchMoves(st: State, m: Submit, rem: nat, slot: nat): nat
    requires Wf(st.b)
    decreases rem, Count(st.b.Of(Opposite(m.s)))
  {
    if rem == 0 || NextPrice(st, m).None? then 0 else
    var px := NextPrice(st, m).value;
    var r := MatchFront(st, m, px, rem);
    MatchFrontShrinks(st, m, px, rem);
    if r.aborted then 0 else Turn(st.b, r.st.b, slot) + MatchMoves(r.st, m, r.rem, slot)
  }

  lemma MatchFrontClicks(st: State, m: Submit, px: nat, rem: nat)
    requires Wf(st.b) && px < st.b.Ticks() && st.b.Of(Opposite(m.s))[px] != [] && rem > 0
    ensures var r := MatchFront(st, m, px, rem).st.b;
            Clicks(st.b, r) && forall slot | slot in st.b.free :: slot in r.free
  {
    var q := MatchFrontBook(st, m, px, rem);
    ReduceClicks(st.b, Opposite(m.s), px, q);
  }

  lemma {:induction false} MatchReaches(st: State, m: Submit, rem: nat, slot: nat)
    requires Wf(st.b)
    ensures var r, k := Match(st, m, rem).st.b, MatchMoves(st, m, rem, slot);
            && Reached(st.b, r, slot, k)
            && k <= 1 && (slot in st.b.free ==> k == 0 && slot in r.free)
    decreases rem, Count(st.b.Of(Opposite(m.s)))
  {
    ReachedStart(st.b, slot);
    if rem > 0 && NextPrice(st, m).Some? {
      var px := NextPrice(st, m).value;
      var r := MatchFront(st, m, px, rem);
      MatchFrontShrinks(st, m, px, rem);
      MatchOn(st, m, rem);
      MatchFrontClicks(st, m, px, rem);
      if !r.aborted {
        ClickReaches(st.b, r.st.b, slot);
        MatchReaches(r.st, m, r.rem, slot);
        ReachedOn(st.b, r.st.b, Match(st, m, rem).st.b, slot, Turn(st.b, r.st.b, slot),
                  MatchMoves(r.st, m, r.rem, slot), MatchMoves(st, m, rem, slot));
      }
    }
  }

  // ----- commands

  /** How often a submit takes or releases the slot: in its match, and when it comes to rest. */
  function SubmitMoves(st: State, m: Submit, slot: nat): nat
    requires Wf(st.b) && SubmitOk(st, m)
  {
    if m.t.Fok? && !CanFill(st, m) then 0 else
    MatchMoves(st, m, m.qty, slot) + Turn(Match(st, m, m.qty).st.b, OnSubmit(st, m).b, slot)
  }

  lemma RestClicks(st: State, m: Submit)
    requires Wf(st.b) && SubmitOk(st, m) && !(m.t.Fok? && !CanFill(st, m))
    ensures Clicks(Match(st, m, m.qty).st.b, OnSubmit(st, m).b)
  {
    SubmitBook(st, m);
    var p := Match(st, m, m.qty);
    if p.rem > 0 && m.t.Gtc? && !Full(p.st) {
      AddClicks(p.st.b, Order(m.id, p.rem, m.px, m.s, m.t, m.account));
    }
  }

  lemma SubmitReaches(st: State, m: Submit, slot: nat)
    requires Wf(st.b) && SubmitOk(st, m)
    ensures var k := SubmitMoves(st, m, slot);
            Reached(st.b, OnSubmit(st, m).b, slot, k) && k <= 2 && (slot in st.b.free ==> k <= 1)
  {
    ReachedStart(st.b, slot);
    SubmitBook(st, m);
    if !(m.t.Fok? && !CanFill(st, m)) {
      var p, r := Match(st, m, m.qty).st.b, OnSubmit(st, m).b;
      MatchReaches(st, m, m.qty, slot);
      RestClicks(st, m);
      ClickReaches(p, r, slot);
      ReachedOn(st.b, p, r, slot, MatchMoves(st, m, m.qty, slot), Turn(p, r, slot), SubmitMoves(st, m, slot));
    }
  }

  lemma CancelClicks(st: State, id: nat)
    requires Wf(st.b)
    ensures Clicks(st.b, OnCancel(st, id).b)
    ensures forall slot | slot in st.b.free :: slot in OnCancel(st, id).b.free
  {
    if id in st.b.idx {
      RemoveClicks(st.b, st.b.idx[id].s, st.b.idx[id].px, Position(st.b, id));
    }
  }

  /** How often a replace takes or releases the slot: in its cancel and in its submit. */
  function ReplaceMoves(st: State, id: nat, px: nat, qty: nat, slot: nat): nat
    requires Wf(st.b) && id in st.b.idx && px < st.b.Ticks() && 1 <= qty <= st.cfg.maxOrderQty
  {
    ReplaceIs(st, id, px, qty);
    var st2 := OnCancel(st.(depth := st.depth + 1), id);
    Turn(st.b, st2.b, slot) + SubmitMoves(st2, Resubmit(st.b, id, px, qty), slot)
  }

  lemma ReplaceReaches(st: State, id: nat, px: nat, qty: nat, slot: nat)
    requires Wf(st.b) && id in st.b.idx && px < st.b.Ticks() && 1 <= qty <= st.cfg.maxOrderQty
    ensures ValidId(id)
    ensures var k := ReplaceMoves(st, id, px, qty, slot);
            Reached(st.b, Replace(st, id, px, qty).b, slot, k) && k <= 2
  {
    ReplaceIs(st, id, px, qty);
    var st1, m := st.(depth := st.depth + 1), Resubmit(st.b, id, px, qty);
    var st2 := OnCancel(st1, id);
    CancelClicks(st1, id);
    ClickReaches(st.b, st2.b, slot);
    SubmitReaches(st2, m, slot);
    ReachedOn(st.b, st2.b, OnSubmit(st2, m).b, slot, Turn(st.b, st2.b, slot), SubmitMoves(st2, m, slot),
              ReplaceMoves(st, id, px, qty, slot));
  }

  /** How often a modify takes or releases the slot: only a crossing one does at all. */
  function RepriceMoves(st: State, m: Modify, slot: nat): nat
    requires Wf(st.b) && ModifyOk(st, m) && EffectiveId(m) in st.b.idx
  {
    var id := EffectiveId(m);
    var o := OrderOf(st.b, id);
    if m.newPx != o.px && WouldCross(st, o.s, m.newPx) then ReplaceMoves(st, id, m.newPx, m.newQty, slot)
    else Turn(st.b, Reprice(st, m).b, slot)
  }

  lemma RepriceReaches(st: State, m: Modify, slot: nat)
    requires Wf(st.b) && ModifyOk(st, m) && EffectiveId(m) in st.b.idx
    ensures var k := RepriceMoves(st, m, slot); Reached(st.b, Reprice(st, m).b, slot, k) && k <= 2
  {
    var id := EffectiveId(m);
    var o := OrderOf(st.b, id);
    if m.newPx != o.px && WouldCross(st, o.s, m.newPx) {
      RepriceReplaces(st, m);
      ReplaceReaches(st, id, m.newPx, m.newQty, slot);
    } else {
      if m.newPx == o.px && m.newQty == o.remaining {
        RepriceKeeps(st, m);
      } else if m.newPx == o.px {
        RepriceResizes(st, m);
      } else {
        RepriceRelinks(st, m);
      }
      ClickReaches(st.b, Reprice(st, m).b, slot);
    }
  }

  /** How often a command takes or releases the slot. */
  function CommandMoves(st: State, c: Command, slot: nat): nat
    requires Wf(st.b) && CommandOk(st, c)
  {
    match c
    case CmdSubmit(m) => SubmitMoves(st, m, slot)
    case CmdCancel(id) => Turn(st.b, OnCancel(st, id).b, slot)
    case CmdModify(m) => if m.id in st.b.idx then RepriceMoves(Rename(st, m), m, slot) else 0
  }

  lemma StepReaches(st: State, c: Command, slot: nat)
    requires Wf(st.b) && CommandOk(st, c)
    ensures var k := CommandMoves(st, c, slot); Reached(st.b, Step(st, c).b, slot, k) && k <= 2
  {
    match c
    case CmdSubmit(m) => SubmitReaches(st, m, slot);
    case CmdCancel(id) =>
      CancelClicks(st, id);
      ClickReaches(st.b, OnCancel(st, id).b, slot);
    case CmdModify(m) =>
      ModifyIs(st, m);
      ReachedStart(st.b, slot);
      if m.id in st.b.idx {
        var mid := Rename(st, m);
        ClickReaches(st.b, mid.b, slot);
        RepriceReaches(mid, m, slot);
        ReachedOn(st.b, mid.b, Reprice(mid, m).b, slot, 0, RepriceMoves(mid, m, slot), RepriceMoves(mid, m, slot));
      }
  }

  /** A command moves a slot's generation by as often as it takes or releases the slot, twice at most. */
  lemma StepMoves(st: State, c: Command, slot: nat)
    requires Wf(st.b) && InCircle(st.b) && CommandOk(st, c) && slot < |st.b.gens|
    ensures InCircle(Step(st, c).b)
    ensures Ahead(st.b.gens[slot], Step(st, c).b.gens[slot]) == CommandMoves(st, c, slot) <= 2
  {
    StepReaches(st, c, slot);
    AheadOnward(st.b.gens[slot], CommandMoves(st, c, slot), Step(st, c).b.gens[slot]);
  }

  // ----- runs

  /** How often the slot is taken or released over the run. */
  function Moves(st: State, cs: seq<Command>, slot: nat): nat
    requires Wf(st.b) && RunOk(st, cs)
    decreases |cs|
  {
    if cs == [] then 0 else
    RunTail(st, Step(st, cs[0]), cs);
    CommandMoves(st, cs[0], slot) + Moves(Step(st, cs[0]), cs[1..], slot)
  }

  lemma {:induction false} MovesFew(st: State, cs: seq<Command>, slot: nat)
    requires Wf(st.b) && RunOk(st, cs)
    ensures Moves(st, cs, slot) <= 2 * |cs|
    decreases |cs|
  {
    if cs != [] {
      assert cs[0] in cs;
      StepReaches(st, cs[0], slot);
      RunTail(st, Step(st, cs[0]), cs);
      MovesFew(Step(st, cs[0]), cs[1..], slot);
    }
  }

  lemma {:induction false} RunReaches(st: State, cs: seq<Command>, slot: nat)
    requires Wf(st.b) && RunOk(st, cs)
    ensures Reached(st.b, Run(st, cs).b, slot, Moves(st, cs, slot))
    decreases |cs|
  {
    ReachedStart(st.b, slot);
    if cs != [] {
      assert cs[0] in cs;
      var next := Step(st, cs[0]);
      StepReaches(st, cs[0], slot);
      RunTail(st, next, cs);
      RunReaches(next, cs[1..], slot);
      ReachedOn(st.b, next.b, Run(st, cs).b, slot, CommandMoves(st, cs[0], slot), Moves(next, cs[1..], slot),
                Moves(st, cs, slot));
    }
  }

  /** A handle is current again after any commands exactly when its slot has gone round the circle in the
      meantime, or was left alone. */
  lemma CurrentExact(st: State, cs: seq<Command>, h: Handle)
    requires Wf(st.b) && InCircle(st.b) && RunOk(st, cs)
    requires h.slot < |st.b.gens| && st.b.gens[h.slot] == h.generation
    ensures Run(st, cs).b.gens[h.slot] == h.generation <==> Moves(st, cs, h.slot) % GENERATIONS == 0
  {
    RunReaches(st, cs, h.slot);
    OldAgain(h.generation, Moves(st, cs, h.slot));
  }

  /** A handle was current at st, and cs later its slot's generation has moved on. Then it finds nothing
      after any further commands, whatever id it is sent with, while the slot has been taken and released
      fewer than 2^32 times in all; repeated ids do not matter. */
  lemma StaleForever(st: State, cs: seq<Command>, more: seq<Command>, h: Handle, id: nat)
    requires Wf(st.b) && InCircle(st.b) && RunOk(st, cs) && RunOk(Run(st, cs), more)
    requires h.slot < |st.b.gens| && st.b.gens[h.slot] == h.generation && Run(st, cs).b.gens[h.slot] != h.generation
    requires Moves(st, cs, h.slot) + Moves(Run(st, cs), more, h.slot) < GENERATIONS
    ensures Resolve(Run(Run(st, cs), more).b, h, id) == None
  {
    var j, k := Moves(st, cs, h.slot), Moves(Run(st, cs), more, h.slot);
    RunReaches(st, cs, h.slot);
    RunReaches(Run(st, cs), more, h.slot);
    NotYetRound(h.generation, Run(st, cs).b.gens[h.slot], j, k);
  }

  /** Every engine starts in the circle and stays in it, and a generation is odd exactly while its slot
      holds an order, repeated ids or not. */
  lemma RunInCircle(ticks: nat, maxOrders: nat, cfg: Config, cs: seq<Command>)
    requires RunOk(Initial(ticks, maxOrders, cfg), cs)
    ensures var b := Run(Initial(ticks, maxOrders, cfg), cs).b; InCircle(b) && Parity(b)
  {
    var st := Initial(ticks, maxOrders, cfg);
    InitialParity(ticks, maxOrders);
    RunReaches(st, cs, 0);
  }

  lemma InitialParity(ticks: nat, maxOrders: nat)
    ensures var b := EmptyBook(ticks, maxOrders); InCircle(b) && Parity(b)
  {
    var b := EmptyBook(ticks, maxOrders);
    forall slot | 0 <= slot < |b.gens| ensures b.gens[slot] == 0 && slot in b.free {
      assert 0 <= slot < maxOrders;
    }
  }
}
