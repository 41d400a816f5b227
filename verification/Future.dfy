/** When a restored engine has the future of the saved one: exactly when the saved index names, under each
    id, the order that the snapshot writes last under it. With ids of their own, orders always are. */
module Futures {
  import opened Types
  import opened Ladders
  import opened Books
  import opened EngineSpec
  import opened Invariants
  import opened PriceTime
  import opened BooksAlike
  import opened Repricing
  import opened Stream
  import opened ReferenceSim
  import opened BookTwins
  import opened TwinEngines
  import opened Snapshots
  import opened Restoring
  import opened Rebuilding

  // ----- what the index of a replayed book names

  /** Where the last record of an id comes to stand, if the records are all there is. */
  function Landed(recs: seq<Record>, id: nat): Option<Spot>
    decreases |recs|
  {
    if recs == [] then None else
    var k := |recs| - 1;
    var o := OrderFrom(recs[k]);
    if o.id == id then Some(Spot(o.s, o.px, |Recorded(recs[..k], o.s, o.px)|)) else Landed(recs[..k], id)
  }

  lemma {:induction false} ReplaySnoc(b: Book, recs: seq<Record>, rec: Record, cap: nat)
    requires Wf(b) && Replay(b, recs + [rec], cap).1
    ensures var m := Replay(b, recs, cap);
            && m.1 && m.0.free != [] && RecordOk(rec, m.0.Ticks(), cap)
            && Replay(b, recs + [rec], cap).0 == AddOrder(m.0, OrderFrom(rec))
    decreases |recs|
  {
    var all := recs + [rec];
    if recs == [] {
      assert all[1..] == [];
    } else {
      assert all[1..] == recs[1..] + [rec] && all[0] == recs[0];
      ReplaySnoc(AddOrder(b, OrderFrom(recs[0])), recs[1..], rec, cap);
    }
  }

  lemma {:induction false} ReplayWhere(b: Book, recs: seq<Record>, cap: nat, id: nat)
    requires Wf(b) && Empty(b.bids) && Empty(b.asks) && Replay(b, recs, cap).1
    ensures Where(Replay(b, recs, cap).0, id) == Landed(recs, id)
    decreases |recs|
  {
    if recs == [] {
      NoneLinked(b);
    } else {
      var k := |recs| - 1;
      var rec, o := recs[k], OrderFrom(recs[k]);
      assert recs == recs[..k] + [rec];
      ReplaySnoc(b, recs[..k], rec, cap);
      ReplayWhere(b, recs[..k], cap, id);
      var m := Replay(b, recs[..k], cap).0;
      AddWhere(m, o, id);
      ReplayLevel(b, recs[..k], cap, o.s, o.px);
      assert Orders(b.Of(o.s)[o.px]) == [];
    }
  }

  lemma RestoredWhere(st: State, src: Source, id: nat)
    requires Wf(st.b) && Accepts(st, src)
    ensures Where(Restore(st, src).st.b, id) == Landed(Read(src), id)
  {
    RestoreExact(st, src);
    ReplayWhere(UnderHeader(st, src.header.value).b, Read(src), st.cfg.maxOrderQty, id);
  }

  /** The index names, under each id, the order that a snapshot writes last under it. */
  ghost predicate NamesLast(b: Book) {
    forall id :: Where(b, id) == Landed(AllRecords(b), id)
  }

  /** The saved book and the restored one are twins exactly then. */
  lemma RestoredTwins(st: State, other: State)
    requires Sound(st, false) && Wf(other.b) && SameShape(st.b, other.b) && other.cfg.maxOrderQty == st.cfg.maxOrderQty
    ensures Twins(st.b, Restore(other, Snapshot(st)).st.b) <==> NamesLast(st.b)
  {
    SnapshotAccepted(st, other);
    AllRecordsOk(st.b, st.cfg.maxOrderQty);
    var src := Snapshot(st);
    assert Read(src) == AllRecords(st.b);
    forall id ensures Where(Restore(other, src).st.b, id) == Landed(AllRecords(st.b), id) {
      RestoredWhere(other, src, id);
    }
  }

  /** Orders with ids of their own are always named so. */
  lemma UniqueNamesLast(st: State)
    requires Inv(st)
    ensures NamesLast(st.b)
  {
    SnapshotAccepted(st, st);
    RestoredCovered(st, Snapshot(st));
    var r := Restore(st, Snapshot(st)).st;
    BookInvAlike(st.b, r.b, st.cfg.maxOrderQty, true);
    UniqueTwins(st.b, r.b);
    RestoredTwins(st, st);
  }

  // ----- telling engines apart

  /** The commands make both engines publish the same, with the same numbers, and leave the same orders
      in the same queues. */
  ghost predicate AgreeOn(a: State, b: State, cs: seq<Command>)
    requires Wf(a.b) && Wf(b.b) && RunOk(a, cs)
  {
    RunOk(b, cs) &&
    var a', b' := Run(a, cs), Run(b, cs);
    SameNews(a.events, a'.events, b.events, b'.events) && a'.seqNo == b'.seqNo && Alike(a'.b, b'.b)
  }

  lemma RunOne(st: State, c: Command)
    requires Wf(st.b) && CommandOk(st, c)
    ensures RunOk(st, [c]) && Run(st, [c]) == Step(st, c)
  {
    assert [c][1..] == [];
    RunTail(st, Step(st, c), [c]);
  }

  lemma CancelLengths(b: Book, id: nat)
    requires Wf(b) && id in b.idx
    ensures var p, r := b.idx[id], CancelOrder(b, id);
            && |r.Of(p.s)[p.px]| + 1 == |b.Of(p.s)[p.px]|
            && (forall s: Side, px: nat | px < b.Ticks() && (s != p.s || px != p.px) :: r.Of(s)[px] == b.Of(s)[px])
  {
  }

  /** The book a cancel leaves. */
  function Without(b: Book, id: nat): Book
    requires Wf(b)
  {
    if id in b.idx then CancelOrder(b, id) else b
  }

  lemma CancelBook(st: State, id: nat)
    requires Wf(st.b)
    ensures OnCancel(st, id).b == Without(st.b, id)
  {
  }

  /** A cancel tells books apart that find an id in different levels, or only one of which finds it. */
  lemma CancelTells(a: Book, b: Book, id: nat)
    requires Wf(a) && Wf(b) && Alike(a, b) && id in a.idx
    requires id in b.idx ==> a.idx[id].s != b.idx[id].s || a.idx[id].px != b.idx[id].px
    ensures !Alike(Without(a, id), Without(b, id))
  {
    var p := a.idx[id];
    var a', b' := CancelOrder(a, id), Without(b, id);
    AlikeLevel(a, b, p.s, p.px);
    CancelLengths(a, id);
    assert b'.Of(p.s)[p.px] == b.Of(p.s)[p.px] by {
      if id in b.idx {
        CancelLengths(b, id);
      }
    }
    if Alike(a', b') {
      AlikeLevel(a', b', p.s, p.px);
    }
  }


  /** No order of the book has the id. */
  predicate Unused(b: Book, id: nat) {
    forall s: Side, px: nat, k: nat | px < |b.Of(s)| && k < |b.Of(s)[px]| :: b.Of(s)[px][k].o.id != id
  }

  lemma RenamedLevel(b: Book, id: nat, newId: nat)
    requires Wf(b) && id in b.idx && ValidId(newId)
    ensures var p, r := b.idx[id], RenameOrder(b, id, newId);
            var f, k := b.Of(p.s)[p.px], Position(b, id);
            r.Of(p.s)[p.px] == f[k := Node(f[k].slot, f[k].o.(id := newId))] && Position(r, newId) == k
  {
    var p, k := b.idx[id], Position(b, id);
    RenameWhere(b, p.s, p.px, k, newId, newId);
    WhereIs(RenameOrder(b, id, newId), newId);
  }

  /** Giving an order an unused id, at its price, leaves that id at the order's position and nowhere else
      in the level. */
  lemma RenameMarks(st: State, m: Modify)
    requires Wf(st.b) && ModifyOk(st, m) && m.id in st.b.idx && ValidId(m.newId) && m.newId != m.id
    requires Unused(st.b, m.newId) && m.newPx == st.b.idx[m.id].px
    ensures var p, r := st.b.idx[m.id], OnModify(st, m).b;
            && |r.Of(p.s)[p.px]| == |st.b.Of(p.s)[p.px]|
            && forall k | 0 <= k < |r.Of(p.s)[p.px]| ::
                 r.Of(p.s)[p.px][k].o.id == m.newId <==> k == Position(st.b, m.id)
  {
    var p, mid := st.b.idx[m.id], Rename(st, m);
    ModifyIs(st, m);
    RenamedLevel(st.b, m.id, m.newId);
    var o := OrderOf(mid.b, m.newId);
    if m.newQty == o.remaining {
      RepriceKeeps(mid, m);
    } else {
      RepriceResizes(mid, m);
    }
  }

  lemma NotAlike(a: Book, b: Book, s: Side, px: nat, k: nat)
    requires px < |a.Of(s)| && k < |a.Of(s)[px]|
    requires px < |b.Of(s)| && k < |b.Of(s)[px]| ==> a.Of(s)[px][k].o.id != b.Of(s)[px][k].o.id
    ensures !Alike(a, b)
  {
    if Alike(a, b) {
      AlikeLevel(a, b, s, px);
    }
  }

  /** It tells engines apart that find an id at different positions of a level. */
  lemma RenameTells(a: State, b: State, m: Modify)
    requires Wf(a.b) && Wf(b.b) && Alike(a.b, b.b) && ModifyOk(a, m) && ModifyOk(b, m)
    requires m.id in a.b.idx && m.id in b.b.idx && Position(a.b, m.id) != Position(b.b, m.id)
    requires a.b.idx[m.id].s == b.b.idx[m.id].s && a.b.idx[m.id].px == b.b.idx[m.id].px == m.newPx
    requires ValidId(m.newId) && m.newId != m.id && Unused(a.b, m.newId) && Unused(b.b, m.newId)
    ensures !Alike(OnModify(a, m).b, OnModify(b, m).b)
  {
    RenameMarks(a, m);
    RenameMarks(b, m);
    NotAlike(OnModify(a, m).b, OnModify(b, m).b, a.b.idx[m.id].s, m.newPx, Position(a.b, m.id));
  }

  lemma {:induction false} SpareId(taken: set<nat>, n: nat) returns (id: nat)
    requires |taken| < n
    ensures 1 <= id <= n && id !in taken
    decreases n
  {
    if n !in taken {
      id := n;
    } else {
      id := SpareId(taken - {n}, n - 1);
    }
  }

  /** There is an id that no order has. */
  lemma UnusedId(st: State) returns (id: nat)
    requires Sound(st, false) && |st.b.gens| < MAX_ID - 1
    ensures ValidId(id) && Unused(st.b, id)
  {
    var recs := AllRecords(st.b);
    AllRecordsOk(st.b, st.cfg.maxOrderQty);
    IdsFew(recs);
    id := SpareId(Ids(recs), MAX_ID - 1);
    forall s: Side, px: nat, k: nat | px < |st.b.Of(s)| && k < |st.b.Of(s)[px]|
        ensures st.b.Of(s)[px][k].o.id != id {
      AllRecorded(st.b, s, px);
      var o := st.b.Of(s)[px][k].o;
      assert Orders(st.b.Of(s)[px])[k] == o;
      var i := RecordedFrom(recs, s, px, o);
      IdsIn(recs, i);
    }
  }

  lemma UnusedAlike(a: Book, b: Book, id: nat)
    requires Alike(a, b) && Unused(a, id)
    ensures Unused(b, id)
  {
    forall s: Side, px: nat, k: nat | px < |b.Of(s)| && k < |b.Of(s)[px]| ensures b.Of(s)[px][k].o.id != id {
      AlikeLevel(b, a, s, px);
    }
  }

  /** Alike engines that find an id at different spots are told apart by one command. */
  lemma ToldApart(a: State, b: State, id: nat) returns (c: Command)
    requires Sound(a, false) && Wf(b.b) && Alike(a.b, b.b) && a.cfg.maxOrderQty == b.cfg.maxOrderQty
    requires Where(a.b, id) != Where(b.b, id) && |a.b.gens| < MAX_ID - 1
    ensures CommandOk(a, c) && CommandOk(b, c) && !Alike(Step(a, c).b, Step(b, c).b)
  {
    assert |Plain(a.b.bids)| == |a.b.bids| && |Plain(b.b.bids)| == |b.b.bids|;
    var near := id in a.b.idx && id in b.b.idx && a.b.idx[id].s == b.b.idx[id].s && a.b.idx[id].px == b.b.idx[id].px;
    if near {
      WhereIs(a.b, id);
      WhereIs(b.b, id);
      var newId := UnusedId(a);
      UnusedAlike(a.b, b.b, newId);
      OrderRested(a.b, a.cfg.maxOrderQty, id);
      var o := OrderOf(a.b, id);
      assert newId != id;
      var m := Modify(id, o.px, o.remaining, newId);
      RenameTells(a, b, m);
      c := CmdModify(m);
    } else {
      c := CmdCancel(id);
      CancelApart(a, b, id);
    }
  }

  lemma CancelApart(a: State, b: State, id: nat)
    requires Wf(a.b) && Wf(b.b) && Alike(a.b, b.b) && (id in a.b.idx || id in b.b.idx)
    requires id in a.b.idx && id in b.b.idx ==> a.b.idx[id].s != b.b.idx[id].s || a.b.idx[id].px != b.b.idx[id].px
    ensures ValidId(id) && !Alike(OnCancel(a, id).b, OnCancel(b, id).b)
  {
    CancelBook(a, id);
    CancelBook(b, id);
    if id in a.b.idx {
      var o := OrderOf(a.b, id);
      CancelTells(a.b, b.b, id);
    } else {
      var o := OrderOf(b.b, id);
      CancelTells(b.b, a.b, id);
    }
  }

  /** The restored engine agrees with the saved one on every run exactly when the saved index names, under
      each id, the order that the snapshot writes last under it, as long as there are more ids than slots. */
  lemma FutureExact(st: State, other: State)
    requires Sound(st, false) && Quiet(st) && Synced(st) && |st.b.gens| < MAX_ID - 1
    requires Wf(other.b) && SameShape(st.b, other.b) && other.cfg.maxOrderQty == st.cfg.maxOrderQty
    ensures var r := Restore(other, Snapshot(st)).st;
            (forall cs | RunOk(st, cs) :: AgreeOn(st, r, cs)) <==> NamesLast(st.b)
  {
    var r := Restore(other, Snapshot(st)).st;
    RoundTrip(st, other, false);
    RestoredTwins(st, other);
    if NamesLast(st.b) {
      PairedNow(st, r);
      forall cs | RunOk(st, cs) ensures AgreeOn(st, r, cs) {
        RunPaired(st, r, cs, Origin(st.events, r.events));
      }
    } else {
      var id :| Where(st.b, id) != Where(r.b, id);
      var c := ToldApart(st, r, id);
      RunOne(st, c);
      RunOne(r, c);
      assert !AgreeOn(st, r, [c]);
    }
  }

  // ----- a book that comes back otherwise

  const TWO_TICKS := Initial(2, 2, Config(10, CancelNewest, 0, true))

  /** Two bids under one id, the better one first. */
  const ECHO := [Record(1, 5, 1, 0, 0, 0), Record(1, 5, 0, 0, 0, 0)]

  lemma EchoBook(b: Book)
    requires b == Replay(TWO_TICKS.b, ECHO, 10).0 && Replay(TWO_TICKS.b, ECHO, 10).1
    ensures |b.bids| == 2 && |b.asks| == 2 && b.asks[0] == [] && b.asks[1] == []
    ensures |b.bids[0]| == 1 && b.bids[0][0].o == OrderFrom(ECHO[1])
    ensures |b.bids[1]| == 1 && b.bids[1][0].o == OrderFrom(ECHO[0])
  {
    var e := TWO_TICKS.b;
    assert ECHO[1..] == [ECHO[1]] && ECHO[1..][1..] == [];
    forall s: Side, px: nat | px < 2 ensures Orders(b.Of(s)[px]) == Recorded(ECHO, s, px) {
      ReplayLevel(e, ECHO, 10, s, px);
      assert Orders(e.Of(s)[px]) == [];
    }
    assert Orders(b.Of(Bid)[0]) == [OrderFrom(ECHO[1])] && Orders(b.Of(Bid)[1]) == [OrderFrom(ECHO[0])];
    assert Orders(b.Of(Ask)[0]) == [] && Orders(b.Of(Ask)[1]) == [];
  }

  lemma TwoLevels(s: Side, l: Ladder)
    requires |l| == 2
    ensures SideRecords(s, l, 0) == LevelRecords(s, l[0]) + LevelRecords(s, l[1])
  {
    var one, two := 1, 2;
    assert SideRecords(s, l, two) == [];
    assert SideRecords(s, l, one) == LevelRecords(s, l[1]) + SideRecords(s, l, two);
  }

  lemma EchoRecords(b: Book)
    requires |b.bids| == 2 && |b.asks| == 2 && b.asks[0] == [] && b.asks[1] == []
    requires |b.bids[0]| == 1 && b.bids[0][0].o == OrderFrom(ECHO[1])
    requires |b.bids[1]| == 1 && b.bids[1][0].o == OrderFrom(ECHO[0])
    ensures AllRecords(b) == [ECHO[1], ECHO[0]]
  {
    assert b.bids[0][1..] == [] && b.bids[1][1..] == [];
    TwoLevels(Bid, b.bids);
    TwoLevels(Ask, b.asks);
  }

  /** Of two bids under one id at different prices, the second is found. */
  lemma SecondLands(r: Record, q: Record)
    requires r.id == q.id && r.px != q.px && r.s == q.s == 0
    ensures Landed([r, q], q.id) == Some(Spot(Bid, q.px, 0))
  {
    assert [r, q][..1] == [r] && [r][1..] == [];
    assert Recorded([r], Bid, q.px) == [];
  }

  /** Submitted, the two are found under the id the other way round once the book is restored. */
  lemma EchoComesBackOtherwise()
    ensures RunOk(TWO_TICKS, Submits(ECHO)) && !NamesLast(Run(TWO_TICKS, Submits(ECHO)).b)
  {
    var b := EchoRuns();
    EchoBook(b);
    EchoRecords(b);
    ReplayWhere(TWO_TICKS.b, ECHO, 10, 1);
    SecondLands(ECHO[0], ECHO[1]);
    SecondLands(ECHO[1], ECHO[0]);
    assert Where(b, 1) != Landed(AllRecords(b), 1);
  }

  lemma EchoRuns() returns (b: Book)
    ensures RunOk(TWO_TICKS, Submits(ECHO)) && Run(TWO_TICKS, Submits(ECHO)).b == b
    ensures Replay(TWO_TICKS.b, ECHO, 10) == (b, true)
  {
    EmptyOccupancy(TWO_TICKS.b);
    ReplayExact(TWO_TICKS.b, ECHO, 10);
    SubmitsReplay(TWO_TICKS, ECHO);
    b := Replay(TWO_TICKS.b, ECHO, 10).0;
  }
}
