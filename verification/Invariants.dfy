/** What every command keeps beyond a well-formed book: quantities within the cap, only
    good-till-cancelled orders resting, an uncrossed book, and an index that names every order. */
module Invariants {
  import opened Types
  import opened Ladders
  import opened Books
  import opened EngineSpec

  // ----- orders that may rest

  predicate Rested(o: Order, cap: nat) {
    o.t.Gtc? && o.remaining <= cap
  }

  predicate RestedAt(l: Ladder, cap: nat, px: nat, i: nat)
    requires px < |l| && i < |l[px]|
  {
    Rested(l[px][i].o, cap)
  }

  predicate AllRested(l: Ladder, cap: nat) {
    forall px: nat, i: nat {:trigger RestedAt(l, cap, px, i)} | px < |l| && i < |l[px]| :: RestedAt(l, cap, px, i)
  }

  lemma RestedLevel(l: Ladder, cap: nat, px: nat, f: seq<Node>)
    requires AllRested(l, cap) && px < |l|
    requires forall n | n in f :: n in l[px] || Rested(n.o, cap)
    ensures AllRested(l[px := f], cap)
  {
    var l' := l[px := f];
    forall q: nat, i: nat | q < |l'| && i < |l'[q]| ensures RestedAt(l', cap, q, i) {
      if q != px {
        assert RestedAt(l, cap, q, i);
      } else {
        assert f[i] in f;
        if f[i] in l[px] {
          var j :| 0 <= j < |l[px]| && l[px][j] == f[i];
          assert RestedAt(l, cap, px, j);
        }
      }
    }
  }

  predicate BookRested(b: Book, cap: nat) {
    AllRested(b.bids, cap) && AllRested(b.asks, cap)
  }

  lemma OrderRested(b: Book, cap: nat, id: nat)
    requires Wf(b) && BookRested(b, cap) && id in b.idx
    ensures Rested(OrderOf(b, id), cap)
  {
    assert RestedAt(b.Of(b.idx[id].s), cap, b.idx[id].px, Position(b, id));
  }

  // ----- an uncrossed book

  predicate Uncrossed(b: Book) {
    forall p: nat, q: nat {:trigger b.bids[p], b.asks[q]} |
      p < |b.bids| && q < |b.asks| && b.bids[p] != [] && b.asks[q] != [] :: p < q
  }

  // ----- an index that names every order

  predicate NamedAt(b: Book, s: Side, px: nat, i: nat)
    requires px < |b.Of(s)| && i < |b.Of(s)[px]|
  {
    var n := b.Of(s)[px][i];
    n.o.id in b.idx && b.idx[n.o.id] == Ptr(s, px, n.slot)
  }

  /** Every resting order is named by its own id, so no two share one; the rest of the room is free. */
  ghost predicate Unique(b: Book) {
    && (forall s: Side, px: nat, i: nat {:trigger NamedAt(b, s, px, i)} |
          px < |b.Of(s)| && i < |b.Of(s)[px]| :: NamedAt(b, s, px, i))
    && |b.idx| + |b.free| == |b.gens|
  }

  /** What holds of the book however ids are used and, with `unique`, what holds as long as no command
      brings in an id that is taken. */
  ghost predicate BookInv(b: Book, cap: nat, unique: bool) {
    Wf(b) && BookRested(b, cap) && Uncrossed(b) && (unique ==> Unique(b))
  }

  ghost predicate Sound(st: State, unique: bool) {
    BookInv(st.b, st.cfg.maxOrderQty, unique)
  }

  ghost predicate Inv(st: State) {
    Sound(st, true)
  }

  /** Populating no further level leaves the book uncrossed. */
  lemma UncrossedSub(b: Book, r: Book)
    requires Uncrossed(b) && |r.bids| == |b.bids| && |r.asks| == |b.asks|
    requires forall p | 0 <= p < |b.bids| :: r.bids[p] != [] ==> b.bids[p] != []
    requires forall p | 0 <= p < |b.asks| :: r.asks[p] != [] ==> b.asks[p] != []
    ensures Uncrossed(r)
  {
  }

  // ----- the changes of the book keep them

  lemma UniqueRemove(b: Book, s: Side, px: nat, k: nat)
    requires Wf(b) && Unique(b) && px < b.Ticks() && k < |b.Of(s)[px]|
    ensures b.Of(s)[px][k].slot < |b.gens| && Unique(RemoveNode(b, s, px, k))
  {
    SlotFacts(b, s, px, k);
    var r := RemoveNode(b, s, px, k);
    var n := b.Of(s)[px][k];
    assert NamedAt(b, s, px, k);
    assert b.idx.Keys == r.idx.Keys + {n.o.id};
    forall s': Side, p: nat, i: nat | p < |r.Of(s')| && i < |r.Of(s')[p]| ensures NamedAt(r, s', p, i) {
      var j := if s' == s && p == px && i >= k then i + 1 else i;
      assert r.Of(s')[p][i] == b.Of(s')[p][j];
      assert NamedAt(b, s', p, j);
      if b.Of(s')[p][j].o.id == n.o.id {
        assert s' == s && p == px && b.Of(s)[px][j].slot == n.slot;
        SlotFacts(b, s, px, j);
        assert false;
      }
    }
  }

  lemma UniqueSet(b: Book, s: Side, px: nat, k: nat, o: Order)
    requires Unique(b) && px < |b.Of(s)| && k < |b.Of(s)[px]| && o.id == b.Of(s)[px][k].o.id
    ensures Unique(SetNode(b, s, px, k, o))
  {
    var r := SetNode(b, s, px, k, o);
    forall s': Side, p: nat, i: nat | p < |r.Of(s')| && i < |r.Of(s')[p]| ensures NamedAt(r, s', p, i) {
      assert NamedAt(b, s', p, i);
    }
  }

  lemma UniqueAdd(b: Book, o: Order)
    requires Wf(b) && Unique(b) && o.px < b.Ticks() && b.free != [] && b.free[0] < |b.gens| && o.id !in b.idx
    ensures Unique(AddNode(b, o))
  {
    var r := AddNode(b, o);
    assert r.idx.Keys == b.idx.Keys + {o.id};
    forall s: Side, p: nat, i: nat | p < |r.Of(s)| && i < |r.Of(s)[p]| ensures NamedAt(r, s, p, i) {
      if i < |b.Of(s)[p]| {
        assert NamedAt(b, s, p, i);
      }
    }
  }

  lemma UniqueRename(b: Book, s: Side, px: nat, k: nat, newId: nat)
    requires Wf(b) && Unique(b) && px < b.Ticks() && k < |b.Of(s)[px]| && newId !in b.idx
    ensures Unique(RenameNode(b, s, px, k, newId))
  {
    var r := RenameNode(b, s, px, k, newId);
    var n := b.Of(s)[px][k];
    assert NamedAt(b, s, px, k);
    assert b.idx.Keys == (b.idx.Keys - {n.o.id}) + {n.o.id};
    assert r.idx.Keys == (b.idx.Keys - {n.o.id}) + {newId};
    forall s': Side, p: nat, i: nat | p < |r.Of(s')| && i < |r.Of(s')[p]| ensures NamedAt(r, s', p, i) {
      assert NamedAt(b, s', p, i);
      if b.Of(s')[p][i].o.id == n.o.id {
        SlotFacts(b, s, px, k);
        SlotFacts(b, s', p, i);
      }
    }
  }

  lemma RemoveInv(b: Book, s: Side, px: nat, k: nat, cap: nat, unique: bool)
    requires BookInv(b, cap, unique) && px < b.Ticks() && k < |b.Of(s)[px]|
    ensures b.Of(s)[px][k].slot < |b.gens| && BookInv(RemoveNode(b, s, px, k), cap, unique)
  {
    RemoveNodeWf(b, s, px, k);
    if unique {
      UniqueRemove(b, s, px, k);
    }
    RestedLevel(b.Of(s), cap, px, RemoveAt(b.Of(s)[px], k));
    UncrossedSub(b, RemoveNode(b, s, px, k));
  }

  lemma SetInv(b: Book, s: Side, px: nat, k: nat, o: Order, cap: nat, unique: bool)
    requires BookInv(b, cap, unique) && px < b.Ticks() && k < |b.Of(s)[px]|
    requires o.s == s && o.px == px && 0 < o.remaining && Rested(o, cap) && o.id == b.Of(s)[px][k].o.id
    ensures BookInv(SetNode(b, s, px, k, o), cap, unique)
  {
    if unique {
      UniqueSet(b, s, px, k, o);
    }
    SetNodeWf(b, s, px, k, o);
    RestedLevel(b.Of(s), cap, px, b.Of(s)[px][k := Node(b.Of(s)[px][k].slot, o)]);
    UncrossedSub(b, SetNode(b, s, px, k, o));
  }

  lemma ReduceInv(b: Book, s: Side, px: nat, q: nat, cap: nat, unique: bool)
    requires BookInv(b, cap, unique) && Reducible(b, s, px, q)
    ensures BookInv(ReduceFront(b, s, px, q), cap, unique)
  {
    var o := b.Of(s)[px][0].o;
    assert PlacedAt(s, b.Of(s), px, 0) && RestedAt(b.Of(s), cap, px, 0);
    if o.remaining == q {
      RemoveInv(b, s, px, 0, cap, unique);
    } else {
      SetInv(b, s, px, 0, o.(remaining := o.remaining - q), cap, unique);
    }
  }

  /** An order that would not trade may be added. */
  lemma AddInv(b: Book, o: Order, cap: nat, unique: bool)
    requires BookInv(b, cap, unique) && o.px < b.Ticks() && o.remaining > 0 && ValidId(o.id) && b.free != []
    requires Rested(o, cap) && (unique ==> o.id !in b.idx)
    requires forall p: nat | p < b.Ticks() && b.Of(Opposite(o.s))[p] != [] :: !Crosses(o.s, o.px, p)
    ensures BookInv(AddOrder(b, o), cap, unique)
  {
    AddNodeWf(b, o);
    if unique {
      UniqueAdd(b, o);
    }
    RestedLevel(b.Of(o.s), cap, o.px, b.Of(o.s)[o.px] + [Node(b.free[0], o)]);
    var r := AddOrder(b, o);
    forall p: nat, q: nat | p < |r.bids| && q < |r.asks| && r.bids[p] != [] && r.asks[q] != [] ensures p < q {
      if o.s.Bid? {
        assert r.asks == b.asks && (p == o.px || r.bids[p] == b.bids[p]);
        assert b.Of(Opposite(o.s))[q] != [];
      } else {
        assert r.bids == b.bids && (q == o.px || r.asks[q] == b.asks[q]);
        assert b.Of(Opposite(o.s))[p] != [];
      }
    }
  }

  lemma RenameInv(b: Book, id: nat, newId: nat, cap: nat, unique: bool)
    requires BookInv(b, cap, unique) && id in b.idx && ValidId(newId) && (unique ==> newId !in b.idx)
    ensures BookInv(RenameOrder(b, id, newId), cap, unique)
  {
    var p, k := b.idx[id], Position(b, id);
    var f := b.Of(p.s)[p.px];
    if unique {
      UniqueRename(b, p.s, p.px, k, newId);
    }
    assert RestedAt(b.Of(p.s), cap, p.px, k);
    RestedLevel(b.Of(p.s), cap, p.px, f[k := Node(f[k].slot, f[k].o.(id := newId))]);
    UncrossedSub(b, RenameOrder(b, id, newId));
  }

  // ----- matching

  /** A turn of the match loop leaves the book alone or reduces the front of the level. */
  lemma MatchFrontBook(st: State, m: Submit, px: nat, rem: nat) returns (q: nat)
    requires Wf(st.b) && px < st.b.Ticks() && st.b.Of(Opposite(m.s))[px] != [] && rem > 0
    ensures Reducible(st.b, Opposite(m.s), px, q)
    ensures var r := MatchFront(st, m, px, rem);
            r.st.cfg == st.cfg && r.st.b == if r.aborted then st.b else ReduceFront(st.b, Opposite(m.s), px, q)
  {
    q := Meet(st.cfg, m, st.b.Of(Opposite(m.s))[px][0].o, px, rem, st.seqNo + 1).q;
  }

  lemma MatchFrontInv(st: State, m: Submit, px: nat, rem: nat, unique: bool)
    requires Sound(st, unique) && px < st.b.Ticks() && st.b.Of(Opposite(m.s))[px] != [] && rem > 0
    ensures Sound(MatchFront(st, m, px, rem).st, unique)
  {
    var q := MatchFrontBook(st, m, px, rem);
    ReduceInv(st.b, Opposite(m.s), px, q, st.cfg.maxOrderQty, unique);
  }

  lemma {:induction false} MatchInv(st: State, m: Submit, rem: nat, unique: bool)
    requires Sound(st, unique)
    ensures Sound(Match(st, m, rem).st, unique)
    decreases rem, Count(st.b.Of(Opposite(m.s)))
  {
    if rem > 0 && NextPrice(st, m).Some? {
      var px := NextPrice(st, m).value;
      MatchFrontInv(st, m, px, rem, unique);
      MatchFrontShrinks(st, m, px, rem);
      var r := MatchFront(st, m, px, rem);
      if !r.aborted {
        MatchInv(r.st, m, r.rem, unique);
      }
    }
  }

  /** Matching stops with quantity left only when no price crosses any more. */
  lemma {:induction false} MatchEnds(st: State, m: Submit, rem: nat)
    requires Wf(st.b)
    ensures var r := Match(st, m, rem); r.rem > 0 ==> NextPrice(r.st, m).None?
    decreases rem, Count(st.b.Of(Opposite(m.s)))
  {
    if rem > 0 && NextPrice(st, m).Some? {
      var px := NextPrice(st, m).value;
      MatchFrontShrinks(st, m, px, rem);
      var r := MatchFront(st, m, px, rem);
      if !r.aborted {
        MatchEnds(r.st, m, r.rem);
      }
    }
  }

  lemma NothingCrosses(st: State, m: Submit)
    requires NextPrice(st, m).None?
    ensures forall p: nat | p < |st.b.Of(Opposite(m.s))| && st.b.Of(Opposite(m.s))[p] != [] :: !Crosses(m.s, m.px, p)
  {
    var b := Best(Opposite(m.s), st.b.Of(Opposite(m.s)));
  }

  /** Matching only takes index entries away. */
  lemma {:induction false} MatchIdx(st: State, m: Submit, rem: nat)
    requires Wf(st.b)
    ensures Match(st, m, rem).st.b.idx.Keys <= st.b.idx.Keys
    decreases rem, Count(st.b.Of(Opposite(m.s)))
  {
    if rem > 0 && NextPrice(st, m).Some? {
      var px := NextPrice(st, m).value;
      MatchFrontShrinks(st, m, px, rem);
      var r := MatchFront(st, m, px, rem);
      if !r.aborted {
        MatchIdx(r.st, m, r.rem);
      }
    }
  }

  // ----- commands

  lemma HandleSubmitInv(st: State, m: Submit, unique: bool)
    requires Sound(st, unique) && SubmitOk(st, m) && (unique ==> m.id !in st.b.idx)
    ensures Sound(HandleSubmit(st, m), unique)
  {
    if !(m.t.Fok? && !CanFill(st, m)) {
      var p := Match(st, m, m.qty);
      MatchInv(st, m, m.qty, unique);
      if p.rem > 0 && m.t.Gtc? && !Full(p.st) {
        MatchEnds(st, m, m.qty);
        NothingCrosses(p.st, m);
        MatchIdx(st, m, m.qty);
        AddInv(p.st.b, Order(m.id, p.rem, m.px, m.s, m.t, m.account), st.cfg.maxOrderQty, unique);
      }
    }
  }

  lemma SubmitInv(st: State, m: Submit, unique: bool)
    requires Sound(st, unique) && SubmitOk(st, m) && (unique ==> m.id !in st.b.idx)
    ensures Sound(OnSubmit(st, m), unique)
  {
    HandleSubmitInv(st, m, unique);
  }

  lemma CancelInv(st: State, id: nat, unique: bool)
    requires Sound(st, unique)
    ensures Sound(OnCancel(st, id), unique)
    ensures id in st.b.idx ==> OnCancel(st, id).b == CancelOrder(st.b, id) && id !in OnCancel(st, id).b.idx
  {
    if id in st.b.idx {
      RemoveInv(st.b, st.b.idx[id].s, st.b.idx[id].px, Position(st.b, id), st.cfg.maxOrderQty, unique);
    }
  }

  lemma ResizeInv(st: State, id: nat, qty: nat, unique: bool)
    requires Sound(st, unique) && id in st.b.idx && 0 < qty <= st.cfg.maxOrderQty
    ensures Sound(Resize(st, id, qty), unique)
  {
    var p, k := st.b.idx[id], Position(st.b, id);
    assert RestedAt(st.b.Of(p.s), st.cfg.maxOrderQty, p.px, k);
    SetInv(st.b, p.s, p.px, k, OrderOf(st.b, id).(remaining := qty), st.cfg.maxOrderQty, unique);
  }

  lemma RelinkInv(st: State, id: nat, px: nat, qty: nat, unique: bool)
    requires Sound(st, unique) && id in st.b.idx && 0 < qty <= st.cfg.maxOrderQty && px < st.b.Ticks()
    requires !WouldCross(st, st.b.idx[id].s, px)
    ensures Sound(Relink(st, id, px, qty), unique)
  {
    var p, k, cap := st.b.idx[id], Position(st.b, id), st.cfg.maxOrderQty;
    var o := OrderOf(st.b, id).(px := px, remaining := qty);
    assert RestedAt(st.b.Of(p.s), cap, p.px, k);
    RemoveInv(st.b, p.s, p.px, k, cap, unique);
    RelinkIsRemoveThenAdd(st.b, p.s, p.px, k, o);
    var mid := RemoveNode(st.b, p.s, p.px, k);
    assert mid.Of(Opposite(p.s)) == st.b.Of(Opposite(p.s));
    AddInv(mid, o, cap, unique);
    GensInv(AddOrder(mid, o), st.b.gens, cap, unique);
  }

  /** Generations matter to no invariant but in number. */
  lemma GensInv(b: Book, gens: seq<nat>, cap: nat, unique: bool)
    requires BookInv(b, cap, unique) && |gens| == |b.gens|
    ensures BookInv(b.(gens := gens), cap, unique)
  {
    var r := b.(gens := gens);
    PartitionSame(b, r);
    forall id | id in r.idx ensures PtrOk(r, id, r.idx[id]) {
      assert PtrOk(b, id, b.idx[id]);
    }
    if unique {
      forall s: Side, px: nat, i: nat | px < |r.Of(s)| && i < |r.Of(s)[px]| ensures NamedAt(r, s, px, i) {
        assert NamedAt(b, s, px, i);
      }
    }
  }

  lemma ReplaceInv(st: State, id: nat, px: nat, qty: nat, unique: bool)
    requires Sound(st, unique) && id in st.b.idx && px < st.b.Ticks() && 1 <= qty <= st.cfg.maxOrderQty
    ensures ValidId(id) && Sound(Replace(st, id, px, qty), unique)
  {
    var o := OrderOf(st.b, id);
    var st1 := st.(depth := st.depth + 1);
    CancelInv(st1, id, unique);
    SubmitInv(OnCancel(st1, id), Submit(id, px, qty, o.s, o.t, o.account), unique);
  }

  /** A command brings in no id that names a resting order. */
  predicate Fresh(st: State, c: Command) {
    match c
    case CmdSubmit(m) => m.id !in st.b.idx
    case CmdCancel(_) => true
    case CmdModify(m) => EffectiveId(m) == m.id || EffectiveId(m) !in st.b.idx
  }

  lemma RepriceInv(st: State, m: Modify, unique: bool)
    requires Sound(st, unique) && ModifyOk(st, m) && EffectiveId(m) in st.b.idx
    ensures Sound(Reprice(st, m), unique)
  {
    var id := EffectiveId(m);
    var o := OrderOf(st.b, id);
    if m.newPx == o.px {
      ResizeInv(st, id, m.newQty, unique);
    } else if !WouldCross(st, o.s, m.newPx) {
      RelinkInv(st, id, m.newPx, m.newQty, unique);
    } else {
      ReplaceInv(st, id, m.newPx, m.newQty, unique);
    }
  }

  /** Every command keeps every invariant; the uniqueness of ids as long as it brings in none that is taken. */
  lemma StepInv(st: State, c: Command, unique: bool)
    requires Sound(st, unique) && CommandOk(st, c) && (unique ==> Fresh(st, c))
    ensures Sound(Step(st, c), unique)
  {
    match c
    case CmdSubmit(m) => SubmitInv(st, m, unique);
    case CmdCancel(id) => CancelInv(st, id, unique);
    case CmdModify(m) =>
      if m.id in st.b.idx {
        if EffectiveId(m) != m.id {
          RenameInv(st.b, m.id, m.newId, st.cfg.maxOrderQty, unique);
        }
        RepriceInv(Rename(st, m), m, unique);
      }
  }

  predicate FreshRun(st: State, cs: seq<Command>)
    requires Wf(st.b) && RunOk(st, cs)
    decreases |cs|
  {
    cs == [] ||
    (Fresh(st, cs[0]) && (RunTail(st, Step(st, cs[0]), cs); FreshRun(Step(st, cs[0]), cs[1..])))
  }

  /** So does every run. */
  lemma {:induction false} RunInv(st: State, cs: seq<Command>, unique: bool)
    requires Sound(st, unique) && RunOk(st, cs) && (unique ==> FreshRun(st, cs))
    ensures Sound(Run(st, cs), unique)
    decreases |cs|
  {
    if cs != [] {
      StepInv(st, cs[0], unique);
      RunTail(st, Step(st, cs[0]), cs);
      RunInv(Step(st, cs[0]), cs[1..], unique);
    }
  }

  lemma InitialInv(ticks: nat, maxOrders: nat, cfg: Config)
    ensures Inv(Initial(ticks, maxOrders, cfg))
  {
    EmptyBookWf(ticks, maxOrders);
  }
}
