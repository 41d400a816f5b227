/** The dense engine publishes what the map-and-list engine publishes: the two in step. */
module ReferenceSim {
  import opened Types
  import opened Ladders
  import opened Books
  import opened EngineSpec
  import opened Invariants
  import opened PriceTime
  import opened BooksAlike
  import opened Repricing
  import Ledger
  import R = ReferenceEngine

  // ----- what the maps show of a dense book

  /** The populated levels of a ladder as a map. */
  function LevelsOf(l: Ladder): R.Levels {
    map px | 0 <= px < |l| && l[px] != [] :: Orders(l[px])
  }

  function PlacesOf(idx: map<nat, Ptr>): map<nat, R.Place> {
    map id | id in idx :: R.Place(idx[id].s, idx[id].px)
  }

  /** r holds the orders of b in the same queues, and its index knows the same places. */
  predicate Shows(b: Book, r: R.Ref) {
    && r.bids == LevelsOf(b.bids) && r.asks == LevelsOf(b.asks) && r.idx == PlacesOf(b.idx)
    && r.maxOrders == |b.gens|
  }

  lemma LevelsUpdate(l: Ladder, px: nat, f: seq<Node>)
    requires px < |l|
    ensures LevelsOf(l[px := f]) == if f == [] then LevelsOf(l) - {px} else LevelsOf(l)[px := Orders(f)]
  {
  }

  lemma FirstIsBest(s: Side, l: Ladder)
    ensures R.First(s, LevelsOf(l)) == Best(s, l)
  {
    var lv := LevelsOf(l);
    var best := Best(s, l);
    if best.Some? {
      assert best.value in lv.Keys;
      var px := R.First(s, lv).value;
      assert l[px] != [];
      assert !Better(s, best.value, px) && !Better(s, px, best.value);
    } else {
      assert forall px | px in lv :: l[px] != [];
    }
  }

  lemma TopShown(b: Book, r: R.Ref)
    requires Shows(b, r)
    ensures R.TopOf(r) == TopOf(b)
  {
    FirstIsBest(Bid, b.bids);
    FirstIsBest(Ask, b.asks);
    if Best(Bid, b.bids).Some? {
      Ledger.OrdersQuantity(b.bids[Best(Bid, b.bids).value]);
    }
    if Best(Ask, b.asks).Some? {
      Ledger.OrdersQuantity(b.asks[Best(Ask, b.asks).value]);
    }
  }

  // ----- engines in step

  /** What a stream has published since p, the other has published since q. */
  predicate SameNews(p: seq<Event>, a: seq<Event>, q: seq<Event>, b: seq<Event>) {
    p <= a && q <= b && a[|p|..] == b[|q|..]
  }

  lemma NewsOn(p: seq<Event>, a: seq<Event>, q: seq<Event>, b: seq<Event>, out: seq<Event>)
    requires SameNews(p, a, q, b)
    ensures SameNews(p, a + out, q, b + out)
  {
    assert (a + out)[|p|..] == a[|p|..] + out;
    assert (b + out)[|q|..] == b[|q|..] + out;
  }

  /** Configurations that differ in nothing a command looks at. */
  predicate SameRules(a: Config, b: Config) {
    a.maxOrderQty == b.maxOrderQty && a.selfCross == b.selfCross && a.topThrottle == b.topThrottle
  }

  /** What two engines had published when they were brought together. */
  datatype Origin = Origin(d: seq<Event>, r: seq<Event>)

  /** Everything but the books: the dense engine d and the reference engine r have agreed since then;
      d may have seen that r need not look. */
  predicate InStep(d: State, r: R.Ref, from: Origin) {
    && SameRules(d.cfg, r.cfg)
    && d.seqNo == r.seqNo && SameNews(from.d, d.events, from.r, r.events)
    && d.last == r.last && d.haveTop == r.haveTop && d.depth == r.depth
    && (d.dirty ==> r.dirty)
    && (r.dirty && !d.dirty ==> d.cfg.topThrottle && d.haveTop && d.last == TopOf(d.b))
    && Synced(d)
  }

  predicate Sim(d: State, r: R.Ref, from: Origin) {
    InStep(d, r, from) && Shows(d.b, r)
  }

  // ----- the guarded look at the top

  lemma MarkStep(d: State, r: R.Ref, db: Book, s: Side, px: nat, from: Origin)
    requires InStep(d, r, from) && ChangedAt(d.b, db, s, px)
    ensures InStep(MarkTop(d.(b := db), s, px), r.(dirty := true), from)
  {
    if d.cfg.topThrottle && !AffectsTop(d, s, px) && !d.dirty {
      GuardSound(d, db, s, px);
      assert MarkTop(d.(b := db), s, px) == d.(b := db);
    } else {
      assert MarkTop(d.(b := db), s, px) == d.(b := db, dirty := true);
    }
  }

  /** A change that both engines make and mark. */
  lemma MarkSim(d: State, r: R.Ref, db: Book, r': R.Ref, s: Side, px: nat, from: Origin)
    requires Sim(d, r, from) && ChangedAt(d.b, db, s, px) && Shows(db, r')
    requires r' == r.(bids := r'.bids, asks := r'.asks, idx := r'.idx, dirty := true)
    ensures Sim(MarkTop(d.(b := db), s, px), r', from)
  {
    MarkStep(d, r, db, s, px, from);
  }

  lemma LookedStep(d: State, r: R.Ref, top: Top, bid: bool, ask: bool, from: Origin)
    requires Sim(d, r, from) && d.depth == 0 && d.dirty && top == TopOf(d.b) == R.TopOf(r)
    requires bid == Best(Bid, d.b.bids).Some? && ask == Best(Ask, d.b.asks).Some?
    ensures Sim(Looked(d, top, bid, ask), R.PublishTop(r), from)
  {
    if d.cfg.topThrottle && d.haveTop && top == d.last {
      assert Looked(d, top, bid, ask) == d.(dirty := false, haveBid := bid, haveAsk := ask);
    } else {
      NewsOn(from.d, d.events, from.r, r.events, [TopOfBook(top, d.seqNo + 1)]);
    }
  }

  lemma PublishSim(d: State, r: R.Ref, from: Origin)
    requires Sim(d, r, from)
    ensures Sim(PublishTop(d), R.PublishTop(r), from)
  {
    TopShown(d.b, r);
    if d.depth == 0 && d.dirty {
      LookedStep(d, r, TopOf(d.b), Best(Bid, d.b.bids).Some?, Best(Ask, d.b.asks).Some?, from);
    } else if d.depth == 0 && r.dirty {
      assert R.PublishTop(r) == r.(dirty := false);
    }
  }

  // ----- matching

  /** Like Shows while the list at px of side s is being matched: it may have run empty. */
  predicate ShowsBut(b: Book, r: R.Ref, s: Side, px: nat) {
    && px < |b.Of(s)|
    && r.Of(s) == LevelsOf(b.Of(s))[px := Orders(b.Of(s)[px])]
    && r.Of(Opposite(s)) == LevelsOf(b.Of(Opposite(s))) && r.idx == PlacesOf(b.idx) && r.maxOrders == |b.gens|
  }

  lemma ShowsEnter(b: Book, r: R.Ref, s: Side, px: nat)
    requires Shows(b, r) && px < |b.Of(s)| && b.Of(s)[px] != []
    ensures px in r.Of(s) && ShowsBut(b, r, s, px)
  {
    assert LevelsOf(b.Of(s))[px := Orders(b.Of(s)[px])] == LevelsOf(b.Of(s));
  }

  lemma ShowsLeave(b: Book, r: R.Ref, s: Side, px: nat)
    requires ShowsBut(b, r, s, px)
    ensures px in r.Of(s) && Shows(b, R.DropEmpty(r, s, px))
  {
    var lv := LevelsOf(b.Of(s));
    if b.Of(s)[px] == [] {
      assert lv[px := []] - {px} == lv;
    } else {
      assert lv[px := Orders(b.Of(s)[px])] == lv;
    }
  }

  lemma LevelsSet(l: Ladder, px: nat, f: seq<Node>)
    requires px < |l|
    ensures LevelsOf(l[px := f])[px := Orders(f)] == LevelsOf(l)[px := Orders(l[px])][px := Orders(f)]
  {
  }

  lemma PlacesRemove(idx: map<nat, Ptr>, id: nat)
    ensures PlacesOf(idx - {id}) == PlacesOf(idx) - {id}
  {
  }

  lemma PopShown(b: Book, r: R.Ref, s: Side, px: nat)
    requires Wf(b) && ShowsBut(b, r, s, px) && b.Of(s)[px] != []
    ensures px in r.Of(s) && r.Of(s)[px] != [] && b.Of(s)[px][0].slot < |b.gens|
    ensures ShowsBut(RemoveNode(b, s, px, 0), R.PopFront(r, s, px), s, px)
  {
    var f := b.Of(s)[px];
    RemoveNodeWf(b, s, px, 0);
    assert Orders(f)[0] == f[0].o;
    LevelsSet(b.Of(s), px, RemoveAt(f, 0));
    assert Orders(RemoveAt(f, 0)) == Orders(f)[1..];
    PlacesRemove(b.idx, f[0].o.id);
  }

  lemma ShrinkShown(b: Book, r: R.Ref, s: Side, px: nat, q: nat)
    requires Wf(b) && ShowsBut(b, r, s, px) && Reducible(b, s, px, q) && q < b.Of(s)[px][0].o.remaining
    ensures px in r.Of(s) && r.Of(s)[px] != [] && r.Of(s)[px][0] == b.Of(s)[px][0].o
    ensures ShowsBut(SetNode(b, s, px, 0, b.Of(s)[px][0].o.(remaining := b.Of(s)[px][0].o.remaining - q)),
                     R.Reduce(r, s, px, q), s, px)
  {
    var f := b.Of(s)[px];
    var o := f[0].o;
    assert Orders(f)[0] == o;
    var f' := f[0 := Node(f[0].slot, o.(remaining := o.remaining - q))];
    LevelsSet(b.Of(s), px, f');
    assert Orders(f') == Orders(f)[0 := o.(remaining := o.remaining - q)];
  }

  /** Losing q at the front is the same in either book. */
  lemma ReduceShown(b: Book, r: R.Ref, s: Side, px: nat, q: nat)
    requires Wf(b) && ShowsBut(b, r, s, px) && Reducible(b, s, px, q)
    ensures px in r.Of(s) && r.Of(s)[px] != [] && r.Of(s)[px][0] == b.Of(s)[px][0].o
    ensures ShowsBut(ReduceFront(b, s, px, q), R.Reduce(r, s, px, q), s, px)
  {
    assert Orders(b.Of(s)[px])[0] == b.Of(s)[px][0].o;
    if b.Of(s)[px][0].o.remaining == q {
      PopShown(b, r, s, px);
    } else {
      ShrinkShown(b, r, s, px, q);
    }
  }

  lemma AdvanceStep(d: State, r: R.Ref, db: Book, r1: R.Ref, out: seq<Event>, from: Origin)
    requires InStep(d, r, from) && r1 == r.(bids := r1.bids, asks := r1.asks, idx := r1.idx, dirty := true)
    ensures InStep(Advanced(d, db, out), r1.(seqNo := Stamped(r.seqNo, out), events := r.events + out), from)
  {
    NewsOn(from.d, d.events, from.r, r.events, out);
  }

  lemma ReduceFrame(r: R.Ref, s: Side, px: nat, q: nat)
    requires px in r.Of(s) && r.Of(s)[px] != [] && q <= r.Of(s)[px][0].remaining
    ensures var r1 := R.Reduce(r, s, px, q); r1 == r.(bids := r1.bids, asks := r1.asks, idx := r1.idx, dirty := true)
  {
  }

  lemma NumberedShown(b: Book, r: R.Ref, s: Side, px: nat, n: nat, evs: seq<Event>)
    requires ShowsBut(b, r, s, px)
    ensures ShowsBut(b, r.(seqNo := n, events := evs), s, px)
  {
  }

  lemma TradeSim(d: State, r: R.Ref, db: Book, r1: R.Ref, s: Side, px: nat, out: seq<Event>, from: Origin)
    requires InStep(d, r, from) && ShowsBut(db, r1, s, px)
    requires r1 == r.(bids := r1.bids, asks := r1.asks, idx := r1.idx, dirty := true)
    ensures var d', r' := Advanced(d, db, out), r1.(seqNo := Stamped(r.seqNo, out), events := r.events + out);
            InStep(d', r', from) && ShowsBut(d'.b, r', s, px)
  {
    AdvanceStep(d, r, db, r1, out, from);
    NumberedShown(db, r1, s, px, Stamped(r.seqNo, out), r.events + out);
  }

  /** What a turn of the reference's inner loop comes to, in terms of the meeting. */
  lemma TurnIs(r: R.Ref, m: Submit, px: nat, rem: nat, t: Meeting)
    requires px in r.Of(Opposite(m.s)) && r.Of(Opposite(m.s))[px] != [] && rem > 0
    requires t == Meet(r.cfg, m, r.Of(Opposite(m.s))[px][0], px, rem, r.seqNo + 1)
    requires r.Of(Opposite(m.s))[px][0].remaining > 0
    ensures var w := R.Turn(r, m, px, rem);
            w.rem == t.rem && w.aborted == t.aborted &&
            (if t.aborted then w.r == r
             else w.r == R.Reduce(r, Opposite(m.s), px, t.q).(seqNo := Stamped(r.seqNo, t.out),
                 events := r.events + t.out))
  {
    assert r.events + [] == r.events;
  }

  lemma TurnSim(d: State, r: R.Ref, m: Submit, px: nat, rem: nat, from: Origin)
    requires Wf(d.b) && InStep(d, r, from) && ShowsBut(d.b, r, Opposite(m.s), px)
    requires d.b.Of(Opposite(m.s))[px] != [] && rem > 0
    ensures px in r.Of(Opposite(m.s)) && r.Of(Opposite(m.s))[px] != []
    ensures var p, w := MatchFront(d, m, px, rem), R.Turn(r, m, px, rem);
            && InStep(p.st, w.r, from) && ShowsBut(p.st.b, w.r, Opposite(m.s), px)
            && p.rem == w.rem && p.aborted == w.aborted
  {
    var opp := Opposite(m.s);
    var t := MatchFrontIs(d, m, px, rem);
    assert PlacedAt(opp, d.b.Of(opp), px, 0);
    ReduceShown(d.b, r, opp, px, t.q);
    TurnIs(r, m, px, rem, t);
    if !t.aborted {
      ReduceFrame(r, opp, px, t.q);
      TradeSim(d, r, ReduceFront(d.b, opp, px, t.q), R.Reduce(r, opp, px, t.q), opp, px, t.out, from);
    }
  }

  /** The inner loop carries the dense match along the level. */
  lemma {:induction false} ListSim(st: State, m: Submit, px: nat, rem: nat, at: State, left: nat, r: R.Ref,
      from: Origin)
    returns (at': State)
    requires OnLevel(st, m, px, rem, at, left, false)
    requires InStep(at, r, from) && ShowsBut(at.b, r, Opposite(m.s), px)
    ensures px in r.Of(Opposite(m.s))
    ensures var w := R.MatchList(r, m, px, left);
            && OnLevel(st, m, px, rem, at', w.rem, w.aborted)
            && InStep(at', w.r, from) && ShowsBut(at'.b, w.r, Opposite(m.s), px)
    decreases left, Count(at.b.Of(Opposite(m.s)))
  {
    at' := at;
    var opp := Opposite(m.s);
    assert |Orders(at.b.Of(opp)[px])| == |at.b.Of(opp)[px]|;
    if left > 0 && at.b.Of(opp)[px] != [] {
      OnLevelStep(st, m, px, rem, at, left);
      TurnSim(at, r, m, px, left, from);
      var p, w := MatchFront(at, m, px, left), R.Turn(r, m, px, left);
      at' := p.st;
      if !p.aborted {
        at' := ListSim(st, m, px, rem, p.st, p.rem, w.r, from);
      }
    }
  }

  /** A turn of the outer loop carries the dense match over a level. */
  lemma LevelSim(d: State, r: R.Ref, m: Submit, rem: nat, px: nat, from: Origin) returns (d': State)
    requires Wf(d.b) && Sim(d, r, from) && rem > 0 && NextPrice(d, m) == Some(px)
    ensures px in r.Of(Opposite(m.s))
    ensures var w := R.MatchList(r, m, px, rem);
            && Wf(d'.b) && Sim(d', R.DropEmpty(w.r, Opposite(m.s), px), from)
            && Match(d, m, rem) == (if w.aborted then Progress(d', w.rem, true) else Match(d', m, w.rem))
  {
    var opp := Opposite(m.s);
    ShowsEnter(d.b, r, opp, px);
    d' := ListSim(d, m, px, rem, d, rem, r, from);
    ShowsLeave(d'.b, R.MatchList(r, m, px, rem).r, opp, px);
  }

  lemma RefMatchOn(r: R.Ref, m: Submit, rem: nat, px: nat)
    requires rem > 0 && R.First(Opposite(m.s), r.Of(Opposite(m.s))) == Some(px) && Crosses(m.s, m.px, px)
    ensures var w := R.MatchList(r, m, px, rem);
            var r1 := R.DropEmpty(w.r, Opposite(m.s), px);
            if w.aborted || w.rem == 0 then R.Match(r, m, rem) == w.(r := r1)
            else
              && R.Match(r, m, rem) == R.Match(r1, m, w.rem)
              && r1.Of(Opposite(m.s)).Keys == r.Of(Opposite(m.s)).Keys - {px}
  {
  }

  lemma {:induction false} MatchSim(d: State, r: R.Ref, m: Submit, rem: nat, from: Origin)
    requires Wf(d.b) && Sim(d, r, from)
    ensures var p, w := Match(d, m, rem), R.Match(r, m, rem); Sim(p.st, w.r, from) && p.rem == w.rem
    decreases r.Of(Opposite(m.s)).Keys
  {
    var opp := Opposite(m.s);
    FirstIsBest(opp, d.b.Of(opp));
    if rem > 0 && NextPrice(d, m).Some? {
      var px := NextPrice(d, m).value;
      var d' := LevelSim(d, r, m, rem, px, from);
      RefMatchOn(r, m, rem, px);
      var w := R.MatchList(r, m, px, rem);
      if !w.aborted && w.rem > 0 {
        MatchSim(d', R.DropEmpty(w.r, opp, px), m, w.rem, from);
      }
    }
  }

  // ----- the precheck

  lemma {:induction false} ConsumeIsWalk(cfg: Config, cfg': Config, account: nat, want: nat, f: seq<Node>, total: nat)
    requires SameRules(cfg, cfg')
    ensures var w, t := WalkLevel(cfg, account, want, f, total), R.ConsumeList(cfg', account, want, Orders(f), total);
            t.total == w.total && t.aborted == w.aborted && t.done == w.done
  {
    if f != [] {
      assert Orders(f)[1..] == Orders(f[1..]) && Orders(f)[0] == f[0].o;
      ConsumeIsWalk(cfg, cfg', account, want, f[1..], total);
      ConsumeIsWalk(cfg, cfg', account, want, f[1..], total + f[0].o.remaining);
    }
  }

  lemma {:induction false} PrecheckSim(cfg: Config, cfg': Config, m: Submit, l: Ladder, total: nat)
    requires SameRules(cfg, cfg')
    ensures CanFillFrom(cfg, m, l, total) == R.CanFillFrom(cfg', m, LevelsOf(l), total)
    decreases Count(l)
  {
    var s := Opposite(m.s);
    FirstIsBest(s, l);
    var best := Best(s, l);
    if best.Some? && Crosses(m.s, m.px, best.value) {
      var b := best.value;
      ConsumeIsWalk(cfg, cfg', m.account, m.qty, l[b], total);
      CountUpdate(l, b, []);
      LevelsUpdate(l, b, []);
      PrecheckSim(cfg, cfg', m, l[b := []], WalkLevel(cfg, m.account, m.qty, l[b], total).total);
    }
  }

  // ----- submit

  lemma LevelsAdd(l: Ladder, px: nat, n: Node)
    requires px < |l|
    ensures var lv := LevelsOf(l);
            LevelsOf(l[px := l[px] + [n]]) == lv[px := (if px in lv then lv[px] else []) + [n.o]]
  {
    LevelsUpdate(l, px, l[px] + [n]);
    OrdersAppend(l[px], [n]);
    assert Orders([n]) == [n.o];
  }

  lemma PlacesAdd(idx: map<nat, Ptr>, id: nat, p: Ptr)
    ensures PlacesOf(idx[id := p]) == PlacesOf(idx)[id := R.Place(p.s, p.px)]
  {
  }

  lemma AddShown(b: Book, r: R.Ref, o: Order)
    requires Wf(b) && Shows(b, r) && o.px < b.Ticks() && o.remaining > 0 && ValidId(o.id) && b.free != []
    ensures Shows(AddOrder(b, o), R.Add(r, o))
  {
    LevelsAdd(b.Of(o.s), o.px, Node(b.free[0], o));
    PlacesAdd(b.idx, o.id, Ptr(o.s, o.px, b.free[0]));
  }

  /** With every order indexed, a full index and a drained free list are the same thing. */
  lemma RoomSame(b: Book, r: R.Ref)
    requires Shows(b, r) && Unique(b)
    ensures |r.idx| >= r.maxOrders <==> b.free == []
  {
    assert PlacesOf(b.idx).Keys == b.idx.Keys;
    assert |r.idx| == |r.idx.Keys| && |b.idx| == |b.idx.Keys|;
  }

  lemma RejectSim(d: State, r: R.Ref, e: Event, from: Origin)
    requires Sim(d, r, from)
    ensures Sim(d.(seqNo := d.seqNo + 1, events := d.events + [e]),
            r.(seqNo := r.seqNo + 1, events := r.events + [e]), from)
  {
    NewsOn(from.d, d.events, from.r, r.events, [e]);
  }

  lemma AddSim(d: State, r: R.Ref, o: Order, from: Origin)
    requires Wf(d.b) && Sim(d, r, from) && o.px < d.b.Ticks() && o.remaining > 0 && ValidId(o.id) && d.b.free != []
    ensures Sim(MarkTop(d.(b := AddOrder(d.b, o)), o.s, o.px), R.Add(r, o), from)
  {
    AddShown(d.b, r, o);
    AddChanges(d.b, o);
    MarkSim(d, r, AddOrder(d.b, o), R.Add(r, o), o.s, o.px, from);
  }

  lemma RestSim(d: State, r: R.Ref, m: Submit, rem: nat, from: Origin)
    requires Wf(d.b) && Unique(d.b) && Sim(d, r, from) && m.px < d.b.Ticks() && rem > 0 && ValidId(m.id)
    ensures Sim(Rest(d, m, rem), R.Rest(r, m, rem), from)
  {
    RoomSame(d.b, r);
    if Full(d) {
      RejectSim(d, r, Reject(m.id, m.account, m.px, rem, d.seqNo + 1), from);
    } else {
      AddSim(d, r, Order(m.id, rem, m.px, m.s, m.t, m.account), from);
    }
  }

  lemma HandleSim(d: State, r: R.Ref, m: Submit, from: Origin)
    requires Inv(d) && Sim(d, r, from) && SubmitOk(d, m)
    ensures Sim(HandleSubmit(d, m), R.HandleSubmit(r, m), from)
  {
    PrecheckSim(d.cfg, r.cfg, m, d.b.Of(Opposite(m.s)), 0);
    if !(m.t.Fok? && !CanFill(d, m)) {
      MatchSim(d, r, m, m.qty, from);
      MatchInv(d, m, m.qty, true);
      var p, w := Match(d, m, m.qty), R.Match(r, m, m.qty);
      if p.rem > 0 && m.t.Gtc? {
        RestSim(p.st, w.r, m, p.rem, from);
      }
    }
  }

  lemma SubmitSim(d: State, r: R.Ref, m: Submit, from: Origin)
    requires Inv(d) && Sim(d, r, from) && SubmitOk(d, m)
    ensures Sim(OnSubmit(d, m), R.OnSubmit(r, m), from)
  {
    HandleSim(d, r, m, from);
    PublishSim(HandleSubmit(d, m), R.HandleSubmit(r, m), from);
  }

  // ----- cancel and modify

  /** With ids unique, seeking an id in its list finds the position the dense index finds. */
  lemma SeekShown(b: Book, r: R.Ref, id: nat)
    requires Wf(b) && Unique(b) && Shows(b, r) && id in b.idx
    ensures R.Holds(r, id) && r.idx[id] == R.Place(b.idx[id].s, b.idx[id].px)
    ensures r.Of(b.idx[id].s)[b.idx[id].px] == Orders(b.Of(b.idx[id].s)[b.idx[id].px])
    ensures R.Seek(r.Of(b.idx[id].s)[b.idx[id].px], id) == Position(b, id) && R.RecordOf(r, id) == OrderOf(b, id)
  {
    var p, k := b.idx[id], Position(b, id);
    var f := b.Of(p.s)[p.px];
    var j := R.Seek(Orders(f), id);
    assert Orders(f)[k].id == id;
    assert NamedAt(b, p.s, p.px, j);
    SlotFacts(b, p.s, p.px, j);
    SlotFacts(b, p.s, p.px, k);
  }

  lemma CancelShown(b: Book, r: R.Ref, id: nat)
    requires Wf(b) && Unique(b) && Shows(b, r) && id in b.idx
    ensures R.Holds(r, id) && Shows(CancelOrder(b, id), R.Erase(r, id))
  {
    SeekShown(b, r, id);
    var p, k := b.idx[id], Position(b, id);
    var f := b.Of(p.s)[p.px];
    RemoveNodeWf(b, p.s, p.px, k);
    LevelsUpdate(b.Of(p.s), p.px, RemoveAt(f, k));
    OrdersRemove(f, k);
    PlacesRemove(b.idx, id);
    var lv := LevelsOf(b.Of(p.s));
    assert lv[p.px := []] - {p.px} == lv - {p.px};
  }

  lemma CancelSim(d: State, r: R.Ref, id: nat, from: Origin)
    requires Inv(d) && Sim(d, r, from)
    ensures Sim(OnCancel(d, id), R.OnCancel(r, id), from)
  {
    if id in d.b.idx {
      CancelShown(d.b, r, id);
      CancelChanges(d.b, id);
      MarkSim(d, r, CancelOrder(d.b, id), R.Erase(r, id), d.b.idx[id].s, d.b.idx[id].px, from);
      PublishSim(HandleCancel(d, id), R.Erase(r, id), from);
    }
  }

  lemma RewriteShown(b: Book, r: R.Ref, id: nat, o: Order)
    requires Wf(b) && Unique(b) && Shows(b, r) && id in b.idx
    ensures R.Holds(r, id)
    ensures var r1 := R.Rewrite(r, id, o);
            var b1 := SetNode(b, b.idx[id].s, b.idx[id].px, Position(b, id), o);
            r1.bids == LevelsOf(b1.bids) && r1.asks == LevelsOf(b1.asks)
  {
    SeekShown(b, r, id);
    var p, k := b.idx[id], Position(b, id);
    var f := b.Of(p.s)[p.px];
    LevelsUpdate(b.Of(p.s), p.px, f[k := Node(f[k].slot, o)]);
    OrdersSet(f, k, Node(f[k].slot, o));
  }

  lemma DepthSim(d: State, r: R.Ref, k: nat, from: Origin)
    requires Sim(d, r, from)
    ensures Sim(d.(depth := k), r.(depth := k), from)
  {
  }

  lemma RenameShown(b: Book, r: R.Ref, m: Modify)
    requires Wf(b) && Unique(b) && Shows(b, r) && m.id in b.idx && ValidId(m.newId) && m.newId != m.id
    ensures R.Holds(r, m.id) && Shows(RenameOrder(b, m.id, m.newId), R.Renamed(r, m))
  {
    SeekShown(b, r, m.id);
    var p := b.idx[m.id];
    RewriteShown(b, r, m.id, OrderOf(b, m.id).(id := m.newId));
    assert PlacesOf((b.idx - {m.id})[m.newId := p]) == (r.idx - {m.id})[m.newId := r.idx[m.id]];
  }

  /** A new id moves no top, so nothing is marked. */
  lemma RenameStep(d: State, r: R.Ref, id: nat, newId: nat, from: Origin)
    requires Wf(d.b) && InStep(d, r, from) && id in d.b.idx && ValidId(newId)
    ensures InStep(d.(b := RenameOrder(d.b, id, newId)), r, from)
  {
    RenameTop(d.b, id, newId);
    var b' := RenameOrder(d.b, id, newId);
    assert Best(Bid, d.b.Of(Bid)).Some? == Best(Bid, b'.Of(Bid)).Some?;
    assert Best(Ask, d.b.Of(Ask)).Some? == Best(Ask, b'.Of(Ask)).Some?;
  }

  lemma RenameSim(d: State, r: R.Ref, m: Modify, from: Origin)
    requires Inv(d) && Sim(d, r, from) && m.id in d.b.idx && m.newId < MAX_ID
    ensures R.Holds(r, m.id) && Sim(Rename(d, m), R.Renamed(r, m), from)
  {
    SeekShown(d.b, r, m.id);
    if EffectiveId(m) != m.id {
      RenameShown(d.b, r, m);
      RenameStep(d, r, m.id, m.newId, from);
    }
  }

  lemma ResizeSim(d: State, r: R.Ref, id: nat, qty: nat, from: Origin)
    requires Inv(d) && Sim(d, r, from) && id in d.b.idx && qty > 0
    ensures R.Holds(r, id)
    ensures Sim(PublishTop(Resize(d, id, qty)), R.PublishTop(R.Resized(r, id, qty)), from)
  {
    SeekShown(d.b, r, id);
    RewriteShown(d.b, r, id, OrderOf(d.b, id).(remaining := qty));
    ResizeChanges(d.b, id, qty);
    MarkSim(d, r, ResizeOrder(d.b, id, qty), R.Resized(r, id, qty), d.b.idx[id].s, d.b.idx[id].px, from);
    PublishSim(Resize(d, id, qty), R.Resized(r, id, qty), from);
  }

  lemma ReplaceSim(d: State, r: R.Ref, id: nat, px: nat, qty: nat, from: Origin)
    requires Inv(d) && Sim(d, r, from) && id in d.b.idx && px < d.b.Ticks() && 1 <= qty <= d.cfg.maxOrderQty
    ensures R.Holds(r, id) && ValidId(id)
    ensures Sim(Replace(d, id, px, qty), R.Replace(r, R.RecordOf(r, id), px, qty), from)
  {
    SeekShown(d.b, r, id);
    ReplaceIs(d, id, px, qty);
    var m := Resubmit(d.b, id, px, qty);
    DepthSim(d, r, d.depth + 1, from);
    var d1, r1 := d.(depth := d.depth + 1), r.(depth := r.depth + 1);
    CancelSim(d1, r1, id, from);
    CancelInv(d1, id, true);
    SubmitSim(OnCancel(d1, id), R.OnCancel(r1, id), m, from);
    var d3, r3 := OnSubmit(OnCancel(d1, id), m), R.OnSubmit(R.OnCancel(r1, id), m);
    DepthSim(d3, r3, d.depth, from);
    PublishSim(d3.(depth := d.depth), r3.(depth := r.depth), from);
  }

  lemma SwapSim(a: State, c: State, r: R.Ref, from: Origin)
    requires Sim(c, r, from) && SameBook(a.b, c.b) && c == a.(b := c.b)
    ensures Sim(a, r, from)
  {
  }

  lemma RepriceSim(d: State, r: R.Ref, m: Modify, from: Origin)
    requires Inv(d) && Sim(d, r, from) && ModifyOk(d, m) && EffectiveId(m) in d.b.idx
    ensures R.Holds(r, EffectiveId(m)) && Sim(Reprice(d, m), R.Reprice(r, EffectiveId(m), m), from)
  {
    var id := EffectiveId(m);
    SeekShown(d.b, r, id);
    var o := OrderOf(d.b, id);
    if m.newPx == o.px {
      if m.newQty != o.remaining {
        ResizeSim(d, r, id, m.newQty, from);
      }
    } else {
      var c := Replace(d, id, m.newPx, m.newQty);
      ReplaceSim(d, r, id, m.newPx, m.newQty, from);
      if WouldCross(d, o.s, m.newPx) {
        assert Reprice(d, m) == c;
      } else {
        OrderRested(d.b, d.cfg.maxOrderQty, id);
        RelinkIsReplace(d, id, m.newPx, m.newQty);
        assert Reprice(d, m) == PublishTop(Relink(d, id, m.newPx, m.newQty));
        SwapSim(Reprice(d, m), c, R.Reprice(r, id, m), from);
      }
    }
  }

  lemma ModifySim(d: State, r: R.Ref, m: Modify, from: Origin)
    requires Inv(d) && Sim(d, r, from) && ModifyOk(d, m) && Fresh(d, CmdModify(m))
    ensures Sim(OnModify(d, m), R.OnModify(r, m), from)
  {
    if m.id in d.b.idx {
      SeekShown(d.b, r, m.id);
      RenameSim(d, r, m, from);
      if EffectiveId(m) != m.id {
        RenameInv(d.b, m.id, m.newId, d.cfg.maxOrderQty, true);
      }
      RepriceSim(Rename(d, m), R.Renamed(r, m), m, from);
    }
  }

  // ----- whole commands and runs

  /** One command keeps the two engines in step. */
  lemma StepSim(d: State, r: R.Ref, c: Command, from: Origin)
    requires Inv(d) && Sim(d, r, from) && CommandOk(d, c) && Fresh(d, c)
    ensures Sim(Step(d, c), R.Step(r, c), from)
  {
    match c
    case CmdSubmit(m) => SubmitSim(d, r, m, from);
    case CmdCancel(id) => CancelSim(d, r, id, from);
    case CmdModify(m) => ModifySim(d, r, m, from);
  }

  /** So does every run. */
  lemma {:induction false} RunSim(d: State, r: R.Ref, cs: seq<Command>, from: Origin)
    requires Inv(d) && Sim(d, r, from) && RunOk(d, cs) && FreshRun(d, cs)
    ensures Sim(Run(d, cs), R.Run(r, cs), from)
    decreases |cs|
  {
    if cs != [] {
      assert cs[0] in cs;
      StepSim(d, r, cs[0], from);
      StepInv(d, cs[0], true);
      RunTail(d, Step(d, cs[0]), cs);
      RunSim(Step(d, cs[0]), R.Step(r, cs[0]), cs[1..], from);
    }
  }

  /** From an empty book, on any commands with fresh ids, the dense engine publishes exactly the events
      of the map-and-list engine, numbers them alike, and holds the same orders in the same queues. */
  lemma DenseMatchesReference(ticks: nat, maxOrders: nat, cfg: Config, cs: seq<Command>)
    requires var d := Initial(ticks, maxOrders, cfg); RunOk(d, cs) && FreshRun(d, cs)
    ensures var d := Run(Initial(ticks, maxOrders, cfg), cs);
            var r := R.Run(R.Initial(maxOrders, cfg, cfg.seqBase), cs);
            && d.events == r.events && d.seqNo == r.seqNo
            && r.bids == LevelsOf(d.b.bids) && r.asks == LevelsOf(d.b.asks)
  {
    var d, r := Initial(ticks, maxOrders, cfg), R.Initial(maxOrders, cfg, cfg.seqBase);
    InitialInv(ticks, maxOrders, cfg);
    assert LevelsOf(d.b.bids) == map[] && LevelsOf(d.b.asks) == map[] && PlacesOf(d.b.idx) == map[];
    RunSim(d, r, cs, Origin([], []));
    var d', r' := Run(d, cs), R.Run(r, cs);
    assert d'.events[0..] == d'.events && r'.events[0..] == r'.events;
  }
}
