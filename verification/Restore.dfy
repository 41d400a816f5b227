/** A restored engine behaves as the one that was saved; and which sources restore a book that an
    engine could have held. */
module Restoring {
  import opened Types
  import opened Ladders
  import opened Books
  import opened EngineSpec
  import opened Invariants
  import opened PriceTime
  import opened BooksAlike
  import opened Repricing
  import opened ReferenceSim
  import opened BookTwins
  import opened TwinEngines
  import opened Stream
  import opened Snapshots
  import opened Capacity
  import opened Ledger

  // ----- the index of a replayed book

  predicate Named(b: Book, s: Side, px: nat, i: nat)
    requires px < |b.Of(s)| && i < |b.Of(s)[px]|
  {
    b.Of(s)[px][i].o.id in b.idx
  }

  /** The index knows the id of every resting order. */
  predicate Covered(b: Book) {
    forall s: Side, px: nat, i: nat {:trigger Named(b, s, px, i)} | px < |b.Of(s)|
        && i < |b.Of(s)[px]| :: Named(b, s, px, i)
  }

  lemma AddCovered(b: Book, o: Order)
    requires Wf(b) && Covered(b) && o.px < b.Ticks() && o.remaining > 0 && ValidId(o.id) && b.free != []
    ensures Covered(AddOrder(b, o)) && AddOrder(b, o).idx.Keys == b.idx.Keys + {o.id}
  {
    var r := AddOrder(b, o);
    forall s: Side, px: nat, i: nat | px < |r.Of(s)| && i < |r.Of(s)[px]| ensures Named(r, s, px, i) {
      if i < |b.Of(s)[px]| {
        assert Named(b, s, px, i);
      }
    }
  }

  lemma {:induction false} ReplayCovered(b: Book, recs: seq<Record>, cap: nat)
    requires Wf(b) && Covered(b)
    ensures Covered(Replay(b, recs, cap).0)
    decreases |recs|
  {
    if recs != [] && RecordOk(recs[0], b.Ticks(), cap) && b.free != [] {
      AddCovered(b, OrderFrom(recs[0]));
      ReplayCovered(AddOrder(b, OrderFrom(recs[0])), recs[1..], cap);
    }
  }

  /** A book alike one with unique ids, whose index knows every id, has unique ids too. */
  lemma UniqueAlike(a: Book, b: Book)
    requires Wf(a) && Unique(a) && Wf(b) && Alike(a, b) && Covered(b)
    ensures Unique(b)
  {
    forall s: Side, px: nat, i: nat | px < |b.Of(s)| && i < |b.Of(s)[px]| ensures NamedAt(b, s, px, i) {
      assert Named(b, s, px, i);
      NamedAlike(a, b, s, px, i);
    }
    forall id ensures id in a.idx <==> id in b.idx {
      if id in a.idx {
        var p, k := a.idx[id], Position(a, id);
        AlikeLevel(a, b, p.s, p.px);
        assert Named(b, p.s, p.px, k);
      }
      if id in b.idx {
        AlikeFind(b, a, id);
      }
    }
    assert a.idx.Keys == b.idx.Keys;
    assert |a.idx| == |a.idx.Keys| && |b.idx| == |b.idx.Keys|;
  }

  lemma NamedAlike(a: Book, b: Book, s: Side, px: nat, i: nat)
    requires Wf(a) && Unique(a) && Wf(b) && Alike(a, b)
    requires px < |b.Of(s)| && i < |b.Of(s)[px]| && Named(b, s, px, i)
    ensures NamedAt(b, s, px, i)
  {
    AlikeLevel(b, a, s, px);
    var id := b.Of(s)[px][i].o.id;
    assert NamedAt(a, s, px, i);
    SlotFacts(a, s, px, i);
    AlikeFind(b, a, id);
    assert Position(b, id) == i;
  }

  // ----- the round trip

  lemma PlainFrom(l: Ladder, l': Ladder)
    requires |l| == |l'| && forall px | 0 <= px < |l| :: Orders(l[px]) == Orders(l'[px])
    ensures Plain(l) == Plain(l')
  {
  }

  /** On the same shape, a snapshot is always accepted and rebuilds every queue in order. */
  lemma SnapshotAccepted(st: State, other: State)
    requires Sound(st, false) && Wf(other.b) && SameShape(st.b, other.b) && other.cfg.maxOrderQty == st.cfg.maxOrderQty
    ensures Accepts(other, Snapshot(st)) && Restore(other, Snapshot(st)).ok
    ensures Alike(Restore(other, Snapshot(st)).st.b, st.b)
  {
    var src := Snapshot(st);
    AllRecordsOk(st.b, st.cfg.maxOrderQty);
    var n := src.header.value.numOrders;
    assert src.records[..n] == src.records;
    RestoreExact(other, src);
    var r := Restore(other, src).st;
    forall s: Side, px: nat | px < |st.b.Of(s)| ensures Orders(r.b.Of(s)[px]) == Orders(st.b.Of(s)[px]) {
      RestoredLevel(other, src, s, px);
      AllRecorded(st.b, s, px);
    }
    PlainFrom(r.b.Of(Bid), st.b.Of(Bid));
    PlainFrom(r.b.Of(Ask), st.b.Of(Ask));
    RestoredFree(other, src);
    Occupancy(st.b);
  }

  lemma RestoredFree(st: State, src: Source)
    requires Wf(st.b) && Accepts(st, src)
    ensures |Restore(st, src).st.b.free| + src.header.value.numOrders == |st.b.gens|
  {
    RestoreExact(st, src);
    var h := src.header.value;
    ClearedInv(st.b, 0);
    ReplayFree(UnderHeader(st, h).b, src.records[..h.numOrders], st.cfg.maxOrderQty);
  }

  lemma {:induction false} ReplayFree(b: Book, recs: seq<Record>, cap: nat)
    requires Wf(b) && Replay(b, recs, cap).1
    ensures |Replay(b, recs, cap).0.free| + |recs| == |b.free|
    decreases |recs|
  {
    if recs != [] {
      ReplayFree(AddOrder(b, OrderFrom(recs[0])), recs[1..], cap);
    }
  }

  lemma BookInvAlike(a: Book, b: Book, cap: nat, unique: bool)
    requires BookInv(a, cap, unique) && Wf(b) && Alike(a, b) && Covered(b)
    ensures BookInv(b, cap, unique)
  {
    if unique {
      UniqueAlike(a, b);
    }
    assert |Plain(a.bids)| == |a.bids| && |Plain(b.bids)| == |b.bids|;
    assert |Plain(a.asks)| == |a.asks| && |Plain(b.asks)| == |b.asks|;
    RestedAlike(a.bids, b.bids, cap);
    RestedAlike(a.asks, b.asks, cap);
    forall px | 0 <= px < |b.bids| ensures b.bids[px] != [] ==> a.bids[px] != [] {
      AlikeLevel(a, b, Bid, px);
    }
    forall px | 0 <= px < |b.asks| ensures b.asks[px] != [] ==> a.asks[px] != [] {
      AlikeLevel(a, b, Ask, px);
    }
    UncrossedSub(a, b);
  }

  lemma RestedAlike(a: Ladder, b: Ladder, cap: nat)
    requires AllRested(a, cap) && Plain(a) == Plain(b) && |a| == |b|
    ensures AllRested(b, cap)
  {
    forall px: nat, i: nat | px < |b| && i < |b[px]| ensures RestedAt(b, cap, px, i) {
      assert Plain(a)[px] == Plain(b)[px];
      assert Orders(a[px])[i] == Orders(b[px])[i];
      assert RestedAt(a, cap, px, i);
    }
  }

  lemma RestoredCovered(st: State, src: Source)
    requires Wf(st.b) && Accepts(st, src)
    ensures Covered(Restore(st, src).st.b)
  {
    RestoreExact(st, src);
    var h := src.header.value;
    ReplayCovered(UnderHeader(st, h).b, src.records[..h.numOrders], st.cfg.maxOrderQty);
  }

  /** The whole engine comes back: its orders, policy, throttle, number and last top, quietly, whether
      ids are unique or not. */
  lemma RoundTrip(st: State, other: State, unique: bool)
    requires Sound(st, unique) && Quiet(st) && Synced(st)
    requires Wf(other.b) && SameShape(st.b, other.b) && other.cfg.maxOrderQty == st.cfg.maxOrderQty
    ensures var r := Restore(other, Snapshot(st)).st;
            && Sound(r, unique) && Quiet(r) && Synced(r) && Alike(r.b, st.b)
            && r.cfg == st.cfg.(seqBase := other.cfg.seqBase)
            && r.seqNo == st.seqNo && r.last == st.last && r.haveTop == st.haveTop
            && r.events == other.events
  {
    SnapshotAccepted(st, other);
    RestoredCovered(other, Snapshot(st));
    var r := Restore(other, Snapshot(st)).st;
    BookInvAlike(st.b, r.b, st.cfg.maxOrderQty, unique);
    AlikeTop(st.b, r.b);
  }

  /** Where every order has its own id, alike books are twins. */
  lemma UniqueTwins(a: Book, b: Book)
    requires Wf(a) && Wf(b) && Unique(a) && Unique(b) && Alike(a, b)
    ensures Twins(a, b)
  {
    forall id ensures Where(a, id) == Where(b, id) {
      if id in a.idx {
        AlikeFind(a, b, id);
        WhereIs(a, id);
        WhereIs(b, id);
      } else if id in b.idx {
        AlikeFind(b, a, id);
      }
    }
  }

  /** From then on, any commands make the restored engine publish what they make the saved one
      publish, with the same numbers, and leave the same orders in the same queues. The commands may
      bring in ids that are taken. */
  lemma SameFuture(st: State, other: State, cs: seq<Command>)
    requires Inv(st) && Quiet(st) && Synced(st)
    requires Wf(other.b) && SameShape(st.b, other.b) && other.cfg.maxOrderQty == st.cfg.maxOrderQty
    requires RunOk(st, cs)
    ensures var r := Restore(other, Snapshot(st)).st;
            RunOk(r, cs) &&
            var a, b := Run(st, cs), Run(r, cs);
            SameNews(st.events, a.events, other.events, b.events) && a.seqNo == b.seqNo && Alike(a.b, b.b)
  {
    RoundTrip(st, other, true);
    var r := Restore(other, Snapshot(st)).st;
    UniqueTwins(st.b, r.b);
    PairedNow(st, r);
    RunPaired(st, r, cs, Origin(st.events, r.events));
  }

  /** Engines with twin books that agree on everything else are paired from here on. */
  lemma PairedNow(st: State, r: State)
    requires Wf(st.b) && Wf(r.b) && Twins(st.b, r.b) && Quiet(st) && Quiet(r) && Synced(st) && Synced(r)
    requires SameRules(st.cfg, r.cfg) && r.seqNo == st.seqNo && r.last == st.last && r.haveTop == st.haveTop
    ensures Paired(st, r, Origin(st.events, r.events))
  {
    AlikeTop(st.b, r.b);
    assert Best(Bid, st.b.Of(Bid)) == Best(Bid, r.b.Of(Bid)) && Best(Ask, st.b.Of(Ask)) == Best(Ask, r.b.Of(Ask));
    assert st.events[|st.events|..] == [] && r.events[|r.events|..] == [];
  }

  // ----- which records make a book an engine could hold

  predicate DistinctIds(recs: seq<Record>) {
    forall i, j | 0 <= i < j < |recs| :: recs[i].id != recs[j].id
  }

  predicate AllGtc(recs: seq<Record>) {
    forall i | 0 <= i < |recs| :: recs[i].t == 0
  }

  predicate NoCross(recs: seq<Record>) {
    forall i, j | 0 <= i < |recs| && 0 <= j < |recs| && recs[i].s == 0 && recs[j].s == 1 :: recs[i].px < recs[j].px
  }

  lemma {:induction false} RecordedHas(recs: seq<Record>, i: nat)
    requires i < |recs|
    ensures var o := OrderFrom(recs[i]); o in Recorded(recs, o.s, o.px)
  {
    if i > 0 {
      RecordedHas(recs[1..], i - 1);
      assert recs[1..][i - 1] == recs[i];
    }
  }

  lemma {:induction false} RecordedFrom(recs: seq<Record>, s: Side, px: nat, o: Order) returns (i: nat)
    requires o in Recorded(recs, s, px)
    ensures i < |recs| && OrderFrom(recs[i]) == o && o.s == s && o.px == px
  {
    var o0 := OrderFrom(recs[0]);
    if o0 == o && o.s == s && o.px == px {
      i := 0;
    } else {
      i := RecordedFrom(recs[1..], s, px, o);
      i := i + 1;
    }
  }

  /** The records behind a restored book. */
  function Read(src: Source): seq<Record>
    requires src.header.Some? && src.header.value.numOrders <= |src.records|
  {
    src.records[..src.header.value.numOrders]
  }

  /** Record i stands in its level. */
  lemma RecordStands(st: State, src: Source, i: nat) returns (k: nat)
    requires Wf(st.b) && Accepts(st, src) && i < |Read(src)|
    ensures var o, b := OrderFrom(Read(src)[i]), Restore(st, src).st.b;
            o.px < |b.Of(o.s)| && k < |b.Of(o.s)[o.px]| && b.Of(o.s)[o.px][k].o == o
  {
    var o, b := OrderFrom(Read(src)[i]), Restore(st, src).st.b;
    assert RecordOk(Read(src)[i], st.b.Ticks(), st.cfg.maxOrderQty);
    RestoredLevel(st, src, o.s, o.px);
    RecordedHas(Read(src), i);
    k :| 0 <= k < |Orders(b.Of(o.s)[o.px])| && Orders(b.Of(o.s)[o.px])[k] == o;
  }

  /** An order of the book comes from a record. */
  lemma OrderRecorded(st: State, src: Source, s: Side, px: nat, k: nat) returns (i: nat)
    requires Wf(st.b) && Accepts(st, src) && px < |Restore(st, src).st.b.Of(s)| && k < |Restore(st, src).st.b.Of(s)[px]|
    ensures i < |Read(src)| && OrderFrom(Read(src)[i]) == Restore(st, src).st.b.Of(s)[px][k].o
    ensures RecordOk(Read(src)[i], st.b.Ticks(), st.cfg.maxOrderQty)
    ensures OrderFrom(Read(src)[i]).s == s && OrderFrom(Read(src)[i]).px == px
  {
    RestoredLevel(st, src, s, px);
    var f := Restore(st, src).st.b.Of(s)[px];
    assert Orders(f)[k] == f[k].o;
    i := RecordedFrom(Read(src), s, px, f[k].o);
  }

  lemma RestedExact(st: State, src: Source)
    requires Wf(st.b) && Accepts(st, src)
    ensures BookRested(Restore(st, src).st.b, st.cfg.maxOrderQty) <==> AllGtc(Read(src))
  {
    var b, cap, recs := Restore(st, src).st.b, st.cfg.maxOrderQty, Read(src);
    if BookRested(b, cap) {
      forall i | 0 <= i < |recs| ensures recs[i].t == 0 {
        var o := OrderFrom(recs[i]);
        var k := RecordStands(st, src, i);
        assert RestedAt(b.Of(o.s), cap, o.px, k);
        assert RecordOk(recs[i], st.b.Ticks(), cap);
      }
    }
    if AllGtc(recs) {
      forall s: Side, px: nat, k: nat | px < |b.Of(s)| && k < |b.Of(s)[px]| ensures RestedAt(b.Of(s), cap, px, k) {
        var i := OrderRecorded(st, src, s, px, k);
      }
      assert AllRested(b.Of(Bid), cap) && AllRested(b.Of(Ask), cap);
    }
  }

  lemma UncrossedExact(st: State, src: Source)
    requires Wf(st.b) && Accepts(st, src)
    ensures Uncrossed(Restore(st, src).st.b) <==> NoCross(Read(src))
  {
    var b, recs := Restore(st, src).st.b, Read(src);
    if Uncrossed(b) {
      forall i, j | 0 <= i < |recs| && 0 <= j < |recs| && recs[i].s == 0 && recs[j].s == 1
          ensures recs[i].px < recs[j].px {
        var k := RecordStands(st, src, i);
        var h := RecordStands(st, src, j);
        assert b.bids[recs[i].px] != [] && b.asks[recs[j].px] != [];
      }
    }
    if NoCross(recs) {
      forall p: nat, q: nat | p < |b.bids| && q < |b.asks| && b.bids[p] != [] && b.asks[q] != [] ensures p < q {
        var i := OrderRecorded(st, src, Bid, p, 0);
        var j := OrderRecorded(st, src, Ask, q, 0);
      }
    }
  }

  function Ids(recs: seq<Record>): set<nat> {
    if recs == [] then {} else {recs[0].id} + Ids(recs[1..])
  }

  lemma {:induction false} IdsIn(recs: seq<Record>, i: nat)
    requires i < |recs|
    ensures recs[i].id in Ids(recs)
  {
    if i > 0 {
      IdsIn(recs[1..], i - 1);
      assert recs[1..][i - 1] == recs[i];
    }
  }

  lemma {:induction false} IdsFew(recs: seq<Record>)
    ensures |Ids(recs)| <= |recs| && (!DistinctIds(recs) ==> |Ids(recs)| < |recs|)
  {
    if recs != [] {
      IdsFew(recs[1..]);
      if !DistinctIds(recs) && DistinctIds(recs[1..]) {
        var i, j :| 0 <= i < j < |recs| && recs[i].id == recs[j].id;
        assert forall x | 0 <= x < |recs| - 1 :: recs[x + 1] == recs[1..][x];
        assert i == 0;
        IdsIn(recs[1..], j - 1);
        assert recs[1..][j - 1] == recs[j];
        assert Ids(recs) == Ids(recs[1..]);
      }
    }
  }

  lemma {:induction false} ReplayKeys(b: Book, recs: seq<Record>, cap: nat)
    requires Wf(b) && Replay(b, recs, cap).1
    ensures Replay(b, recs, cap).0.idx.Keys == b.idx.Keys + Ids(recs)
    decreases |recs|
  {
    if recs != [] {
      ReplayKeys(AddOrder(b, OrderFrom(recs[0])), recs[1..], cap);
    }
  }

  lemma {:induction false} ReplayUnique(b: Book, recs: seq<Record>, cap: nat)
    requires Wf(b) && Unique(b) && Replay(b, recs, cap).1 && DistinctIds(recs) && Ids(recs) !! b.idx.Keys
    ensures Unique(Replay(b, recs, cap).0)
    decreases |recs|
  {
    if recs != [] {
      var o := OrderFrom(recs[0]);
      AddNodeWf(b, o);
      UniqueAdd(b, o);
      assert recs[0].id !in Ids(recs[1..]) by {
        IdsOf(recs[1..], recs[0].id);
      }
      ReplayUnique(AddOrder(b, o), recs[1..], cap);
    }
  }

  lemma {:induction false} IdsOf(recs: seq<Record>, id: nat)
    requires forall i | 0 <= i < |recs| :: recs[i].id != id
    ensures id !in Ids(recs)
  {
    if recs != [] {
      IdsOf(recs[1..], id);
    }
  }

  lemma UniqueExact(st: State, src: Source)
    requires Wf(st.b) && Accepts(st, src)
    ensures Unique(Restore(st, src).st.b) <==> DistinctIds(Read(src))
  {
    RestoreExact(st, src);
    var h, recs, cap := src.header.value, Read(src), st.cfg.maxOrderQty;
    var b0 := UnderHeader(st, h).b;
    var b := Restore(st, src).st.b;
    ClearedInv(st.b, cap);
    NoneLinked(b0);
    ReplayKeys(b0, recs, cap);
    IdsFew(recs);
    RestoredFree(st, src);
    assert |b.idx| == |b.idx.Keys| && b.idx.Keys == Ids(recs);
    if DistinctIds(recs) {
      ReplayUnique(b0, recs, cap);
    }
  }

  /** An accepted source restores an engine with the invariants of a run with fresh ids exactly when its
      records have distinct ids, are all good-till-cancelled and do not cross. */
  lemma RestoredExact(st: State, src: Source)
    requires Wf(st.b) && Accepts(st, src)
    ensures Inv(Restore(st, src).st) <==> DistinctIds(Read(src)) && AllGtc(Read(src)) && NoCross(Read(src))
  {
    UniqueExact(st, src);
    RestedExact(st, src);
    UncrossedExact(st, src);
    RestoreExact(st, src);
  }

  // ----- sources that no engine has written

  const SMALL_ENGINE := Initial(1, 2, Config(10, CancelNewest, 0, true))

  /** A source with these two records that fits the small engine. */
  function SmallSource(a: Record, b: Record): Source {
    Source(Some(Header(MAGIC, VERSION, 1, 2, 0, 1, 0, NO_TOP, 0, 2)), [a, b])
  }

  lemma AcceptsSmall(a: Record, b: Record)
    requires RecordOk(a, 1, 10) && RecordOk(b, 1, 10)
    ensures Inv(SMALL_ENGINE) && Accepts(SMALL_ENGINE, SmallSource(a, b)) && Restore(SMALL_ENGINE, SmallSource(a, b)).ok
    ensures Read(SmallSource(a, b)) == [a, b]
  {
    InitialInv(1, 2, SMALL_ENGINE.cfg);
    RestoreExact(SMALL_ENGINE, SmallSource(a, b));
    assert SmallSource(a, b).records[..2] == [a, b];
  }

  /** A bid and an ask at one price. */
  const CROSSED := SmallSource(Record(1, 5, 0, 0, 0, 0), Record(2, 5, 0, 1, 0, 0))

  /** Two bids under one id. */
  const REPEATED := SmallSource(Record(1, 5, 0, 0, 0, 0), Record(1, 5, 0, 0, 0, 0))

  /** A bid that should not have come to rest. */
  const PASSING := SmallSource(Record(1, 5, 0, 0, 1, 0), Record(2, 5, 0, 0, 0, 0))

  /** Each condition of RestoredExact shuts out a source that is accepted: a crossed pair, */
  lemma AcceptsCrossed()
    ensures var r := Restore(SMALL_ENGINE, CROSSED); r.ok && !Uncrossed(r.st.b)
  {
    AcceptsSmall(Record(1, 5, 0, 0, 0, 0), Record(2, 5, 0, 1, 0, 0));
    UncrossedExact(SMALL_ENGINE, CROSSED);
    assert Read(CROSSED)[0].s == 0 && Read(CROSSED)[1].s == 1;
  }

  /** a repeated id, */
  lemma AcceptsRepeated()
    ensures var r := Restore(SMALL_ENGINE, REPEATED); r.ok && !Unique(r.st.b)
  {
    AcceptsSmall(Record(1, 5, 0, 0, 0, 0), Record(1, 5, 0, 0, 0, 0));
    UniqueExact(SMALL_ENGINE, REPEATED);
    assert Read(REPEATED)[0].id == Read(REPEATED)[1].id;
  }

  /** an immediate-or-cancel order. */
  lemma AcceptsPassing()
    ensures var r := Restore(SMALL_ENGINE, PASSING); r.ok && !BookRested(r.st.b, SMALL_ENGINE.cfg.maxOrderQty)
  {
    AcceptsSmall(Record(1, 5, 0, 0, 1, 0), Record(2, 5, 0, 0, 0, 0));
    RestedExact(SMALL_ENGINE, PASSING);
    assert Read(PASSING)[0].t == 1;
  }

  // ----- the last top that the header brings along

  /** If the engine has published a top, or taken one over, the latest one is the top of its book. */
  predicate TopCurrent(st: State) {
    st.haveTop ==> st.last == TopOf(st.b)
  }

  /** The best price of side s among the records. */
  function BestRecord(recs: seq<Record>, s: Side): (r: Option<nat>)
    ensures r.None? ==> forall i | 0 <= i < |recs| :: OrderFrom(recs[i]).s != s
    ensures r.Some? ==> exists i :: 0 <= i < |recs| && OrderFrom(recs[i]).s == s && recs[i].px == r.value
    ensures r.Some? ==> forall i | 0 <= i < |recs| && OrderFrom(recs[i]).s == s :: !Better(s, recs[i].px, r.value)
  {
    if recs == [] then None else
    var rest := BestRecord(recs[1..], s);
    if OrderFrom(recs[0]).s == s && (rest.None? || Better(s, recs[0].px, rest.value)) then Some(recs[0].px) else
    assert rest.Some? ==> forall i | 0 <= i < |recs| - 1 :: recs[1..][i] == recs[i + 1];
    rest
  }

  /** What the records at a price amount to. */
  function RecordsQty(recs: seq<Record>, s: Side, px: nat): nat {
    if recs == [] then 0 else
    (if OrderFrom(recs[0]).s == s && recs[0].px == px then recs[0].remaining else 0) + RecordsQty(recs[1..], s, px)
  }

  /** The top that the records show. */
  function RecordsTop(recs: seq<Record>): Top {
    var bid, ask := BestRecord(recs, Bid), BestRecord(recs, Ask);
    Top(
      if bid.Some? then bid.value else 0,
      if ask.Some? then ask.value else 0,
      if bid.Some? then RecordsQty(recs, Bid, bid.value) else 0,
      if ask.Some? then RecordsQty(recs, Ask, ask.value) else 0)
  }

  lemma {:induction false} RecordedQty(recs: seq<Record>, s: Side, px: nat)
    ensures Quantities(Recorded(recs, s, px)) == RecordsQty(recs, s, px)
  {
    if recs != [] {
      RecordedQty(recs[1..], s, px);
      var o := OrderFrom(recs[0]);
      if o.s == s && o.px == px {
        assert Recorded(recs, s, px)[1..] == Recorded(recs[1..], s, px);
      } else {
        assert Recorded(recs, s, px) == Recorded(recs[1..], s, px);
      }
    }
  }

  lemma BestRestored(st: State, src: Source, s: Side)
    requires Wf(st.b) && Accepts(st, src)
    ensures Best(s, Restore(st, src).st.b.Of(s)) == BestRecord(Read(src), s)
  {
    var l, recs := Restore(st, src).st.b.Of(s), Read(src);
    forall px: nat | px < |l| && l[px] != []
        ensures BestRecord(recs, s).Some? && !Better(s, px, BestRecord(recs, s).value) {
      var i := OrderRecorded(st, src, s, px, 0);
    }
    if BestRecord(recs, s).Some? {
      var i :| 0 <= i < |recs| && OrderFrom(recs[i]).s == s && recs[i].px == BestRecord(recs, s).value;
      var k := RecordStands(st, src, i);
      BestUnique(s, l, recs[i].px);
    }
  }

  lemma QtyRestored(st: State, src: Source, s: Side, px: nat)
    requires Wf(st.b) && Accepts(st, src) && px < st.b.Ticks()
    ensures FifoQty(Restore(st, src).st.b.Of(s)[px]) == RecordsQty(Read(src), s, px)
  {
    RestoredLevel(st, src, s, px);
    RecordedQty(Read(src), s, px);
    OrdersQuantity(Restore(st, src).st.b.Of(s)[px]);
  }

  /** It is the top of the restored book. */
  lemma TopRestored(st: State, src: Source)
    requires Wf(st.b) && Accepts(st, src)
    ensures TopOf(Restore(st, src).st.b) == RecordsTop(Read(src))
  {
    var b := Restore(st, src).st.b;
    forall s: Side ensures Best(s, b.Of(s)) == BestRecord(Read(src), s) {
      BestRestored(st, src, s);
    }
    assert Best(Bid, b.Of(Bid)) == BestRecord(Read(src), Bid) && Best(Ask, b.Of(Ask)) == BestRecord(Read(src), Ask);
    if Best(Bid, b.bids).Some? {
      QtyRestored(st, src, Bid, Best(Bid, b.bids).value);
    }
    if Best(Ask, b.asks).Some? {
      QtyRestored(st, src, Ask, Best(Ask, b.asks).value);
    }
  }

  lemma RestoredTop(st: State, src: Source)
    requires Wf(st.b) && Accepts(st, src)
    ensures var r, h := Restore(st, src).st, src.header.value;
            && Quiet(r) && r.haveTop == (h.haveTop != 0) && r.last == h.last
            && (Synced(r) <==> h.haveTop == 0 || h.last == RecordsTop(Read(src)))
  {
    RestoreExact(st, src);
    TopRestored(st, src);
  }

  /** After any commands the restored engine's latest top is the top of its book, exactly when the header
      brings none along or the one that the records show. */
  lemma TopTakenOver(st: State, src: Source)
    requires Wf(st.b) && Accepts(st, src)
    ensures var r, h := Restore(st, src).st, src.header.value;
            (forall cs | RunOk(r, cs) :: TopCurrent(Run(r, cs))) <==> h.haveTop == 0 || h.last == RecordsTop(Read(src))
  {
    var r, h := Restore(st, src).st, src.header.value;
    RestoredTop(st, src);
    if Synced(r) {
      forall cs | RunOk(r, cs) ensures TopCurrent(Run(r, cs)) {
        RunStreams(r, cs);
        RunQuiet(r, cs);
      }
    } else {
      assert RunOk(r, []) && Run(r, []) == r;
    }
  }

  const ROOMY_ENGINE := Initial(8, 4, Config(10, CancelNewest, 0, true))

  /** A header that claims a better top than its one bid makes. */
  const OVERSTATED :=
    Source(Some(Header(MAGIC, VERSION, 8, 4, 0, 1, 7, Top(5, 0, 1, 0), 1, 1)), [Record(1, 5, 1, 0, 0, 0)])

  const BID_AT_THREE := Submit(2, 3, 1, Bid, Gtc, 0)

  lemma OverstatedBook(r: State)
    requires r == Restore(ROOMY_ENGINE, OVERSTATED).st
    ensures Accepts(ROOMY_ENGINE, OVERSTATED) && Inv(r) && Quiet(r) && r.cfg == ROOMY_ENGINE.cfg && r.b.Ticks() == 8
    ensures r.haveTop && r.haveBid && r.last == Top(5, 0, 1, 0) && r.b.free != []
    ensures Empty(r.b.asks) && |r.b.bids| == 8 && forall px | 2 <= px < 8 :: r.b.bids[px] == []
  {
    var e, recs := ROOMY_ENGINE, [Record(1, 5, 1, 0, 0, 0)];
    assert OVERSTATED.records[..1] == recs;
    assert Read(OVERSTATED) == recs;
    RestoreExact(e, OVERSTATED);
    RestoredExact(e, OVERSTATED);
    RestoredTop(e, OVERSTATED);
    assert Recorded(recs[1..], Bid, 1) == [];
    RestoredLevel(e, OVERSTATED, Bid, 1);
    BestNone(Bid, r.b.bids);
    forall s: Side, px: nat | px < 8 && (s.Ask? || px > 1) ensures r.b.Of(s)[px] == [] {
      assert Recorded(recs, s, px) == [];
      RestoredLevel(e, OVERSTATED, s, px);
    }
    assert r.b.Of(Ask) == r.b.asks && r.b.Of(Bid) == r.b.bids;
  }

  /** Accepted with such a header, a new best bid goes out to nobody. */
  lemma OverstatedSilent()
    ensures Accepts(ROOMY_ENGINE, OVERSTATED)
    ensures var r := Restore(ROOMY_ENGINE, OVERSTATED).st;
            && Inv(r) && SubmitOk(r, BID_AT_THREE)
            && var next := OnSubmit(r, BID_AT_THREE);
               next.events == r.events && TopOf(next.b) != TopOf(r.b)
  {
    var r, m := Restore(ROOMY_ENGINE, OVERSTATED).st, BID_AT_THREE;
    OverstatedBook(r);
    assert NextPrice(r, m).None?;
    assert Match(r, m, m.qty) == Progress(r, m.qty, false);
    var b := AddOrder(r.b, Order(m.id, m.qty, m.px, m.s, m.t, m.account));
    assert OnSubmit(r, m) == r.(b := b);
    assert b.bids[3] != [];
    assert TopOf(b).bidPx >= 3;
    assert TopOf(r.b).bidPx <= 1;
  }
}
