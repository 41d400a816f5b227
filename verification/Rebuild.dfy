/** Which sources restore a book that commands could have built: those whose records, submitted as
    orders one after the other, would all come to rest. */
module Rebuilding {
  import opened Types
  import opened Ladders
  import opened Books
  import opened EngineSpec
  import opened Invariants
  import opened BookTwins
  import opened Snapshots
  import opened Restoring

  // ----- replays into books that cannot be told apart

  lemma {:induction false} ReplayTwins(a: Book, b: Book, recs: seq<Record>, cap: nat)
    requires Wf(a) && Wf(b) && Twins(a, b) && |a.bids| == |b.bids| && Replay(a, recs, cap).1
    ensures Twins(Replay(a, recs, cap).0, Replay(b, recs, cap).0)
    decreases |recs|
  {
    if recs != [] {
      var o := OrderFrom(recs[0]);
      AddTwins(a, b, o);
      ReplayTwins(AddOrder(a, o), AddOrder(b, o), recs[1..], cap);
    }
  }

  lemma EmptyTwins(a: Book, b: Book)
    requires Wf(a) && Empty(a.bids) && Empty(a.asks) && Wf(b) && Empty(b.bids) && Empty(b.asks) && SameShape(a, b)
    ensures Twins(a, b)
  {
    NoneLinked(a);
    NoneLinked(b);
    EmptyOccupancy(a);
    EmptyOccupancy(b);
    PlainFrom(a.bids, b.bids);
    PlainFrom(a.asks, b.asks);
  }

  // ----- submitting the records

  function SubmitFrom(rec: Record): Submit {
    var o := OrderFrom(rec);
    Submit(o.id, o.px, o.remaining, o.s, o.t, o.account)
  }

  function Submits(recs: seq<Record>): seq<Command> {
    if recs == [] then [] else [CmdSubmit(SubmitFrom(recs[0]))] + Submits(recs[1..])
  }

  lemma {:induction false} SubmitsOk(st: State, recs: seq<Record>)
    requires RecordsOk(recs, st.b.Ticks(), st.cfg.maxOrderQty)
    ensures RunOk(st, Submits(recs))
  {
    if recs != [] {
      SubmitsOk(st, recs[1..]);
      assert RecordOk(recs[0], st.b.Ticks(), st.cfg.maxOrderQty);
    }
  }

  /** An order of the record would trade with nothing in the book. */
  predicate Aloof(b: Book, rec: Record) {
    var o := OrderFrom(rec);
    forall p: nat | p < |b.Of(Opposite(o.s))| && b.Of(Opposite(o.s))[p] != [] :: !Crosses(o.s, o.px, p)
  }

  /** Submitting a record's order rests it, as replaying the record does. */
  lemma SubmitAdds(st: State, rec: Record)
    requires Wf(st.b) && RecordOk(rec, st.b.Ticks(), st.cfg.maxOrderQty) && rec.t == 0 && Aloof(st.b, rec)
    requires st.b.free != []
    ensures SubmitOk(st, SubmitFrom(rec)) && OnSubmit(st, SubmitFrom(rec)).b == AddOrder(st.b, OrderFrom(rec))
  {
    var m := SubmitFrom(rec);
    assert NextPrice(st, m).None?;
    assert Match(st, m, m.qty) == Progress(st, m.qty, false);
    SubmitBook(st, m);
  }

  lemma AddAloof(b: Book, rec: Record, other: Record, cap: nat)
    requires Wf(b) && RecordOk(rec, b.Ticks(), cap) && RecordOk(other, b.Ticks(), cap) && b.free != []
    requires Aloof(b, other) && (rec.s != other.s ==> if rec.s == 0 then rec.px < other.px else other.px < rec.px)
    ensures Aloof(AddOrder(b, OrderFrom(rec)), other)
  {
    var o, x, r := OrderFrom(rec), OrderFrom(other), AddOrder(b, OrderFrom(rec));
    forall p: nat | p < |r.Of(Opposite(x.s))| && r.Of(Opposite(x.s))[p] != [] ensures !Crosses(x.s, x.px, p) {
      if x.s == o.s || p != o.px {
        assert b.Of(Opposite(x.s))[p] != [];
      }
    }
  }

  /** Records that would all come to rest in the book, one after the other. */
  predicate Restable(b: Book, recs: seq<Record>) {
    AllGtc(recs) && NoCross(recs) && forall i | 0 <= i < |recs| :: Aloof(b, recs[i])
  }

  lemma RestableOn(b: Book, recs: seq<Record>, cap: nat)
    requires Wf(b) && recs != [] && RecordsOk(recs, b.Ticks(), cap) && b.free != [] && Restable(b, recs)
    ensures Restable(AddOrder(b, OrderFrom(recs[0])), recs[1..]) && RecordsOk(recs[1..], b.Ticks(), cap)
  {
    var r := AddOrder(b, OrderFrom(recs[0]));
    forall i | 0 <= i < |recs[1..]| ensures Aloof(r, recs[1..][i]) {
      assert recs[1..][i] == recs[i + 1];
      AddAloof(b, recs[0], recs[i + 1], cap);
    }
  }

  /** Submitting the records leaves the book that replaying them leaves. */
  lemma {:induction false} SubmitsReplay(st: State, recs: seq<Record>)
    requires Wf(st.b) && RecordsOk(recs, st.b.Ticks(), st.cfg.maxOrderQty) && |recs| <= |st.b.free|
    requires Restable(st.b, recs)
    ensures RunOk(st, Submits(recs))
    ensures Run(st, Submits(recs)).b == Replay(st.b, recs, st.cfg.maxOrderQty).0
    decreases |recs|
  {
    SubmitsOk(st, recs);
    if recs != [] {
      assert RecordOk(recs[0], st.b.Ticks(), st.cfg.maxOrderQty);
      SubmitAdds(st, recs[0]);
      RestableOn(st.b, recs, st.cfg.maxOrderQty);
      var cs := Submits(recs);
      assert cs[1..] == Submits(recs[1..]);
      var next := Step(st, cs[0]);
      RunTail(st, next, cs);
      SubmitsReplay(next, recs[1..]);
    }
  }

  /** With ids of their own, they are brought in by fresh commands. */
  lemma {:induction false} SubmitsFresh(st: State, recs: seq<Record>)
    requires Wf(st.b) && RecordsOk(recs, st.b.Ticks(), st.cfg.maxOrderQty) && |recs| <= |st.b.free|
    requires Restable(st.b, recs) && DistinctIds(recs) && Ids(recs) !! st.b.idx.Keys
    ensures RunOk(st, Submits(recs)) && FreshRun(st, Submits(recs))
    decreases |recs|
  {
    SubmitsOk(st, recs);
    if recs != [] {
      assert RecordOk(recs[0], st.b.Ticks(), st.cfg.maxOrderQty);
      SubmitAdds(st, recs[0]);
      RestableOn(st.b, recs, st.cfg.maxOrderQty);
      IdsOf(recs[1..], recs[0].id);
      var cs := Submits(recs);
      assert cs[1..] == Submits(recs[1..]);
      var next := Step(st, cs[0]);
      RunTail(st, next, cs);
      SubmitsFresh(next, recs[1..]);
    }
  }

  // ----- the books that commands build

  /** From e on, the commands build a book that cannot be told from b. */
  ghost predicate Builds(e: State, cs: seq<Command>, b: Book)
    requires Wf(e.b)
  {
    RunOk(e, cs) && Twins(Run(e, cs).b, b)
  }

  /** They do so without bringing in an id that is taken. */
  ghost predicate BuildsFresh(e: State, cs: seq<Command>, b: Book)
    requires Wf(e.b)
  {
    Builds(e, cs, b) && FreshRun(e, cs)
  }

  lemma SubmitsBuild(st: State, src: Source, cfg: Config)
    requires Wf(st.b) && Accepts(st, src) && cfg.maxOrderQty == st.cfg.maxOrderQty
    requires AllGtc(Read(src)) && NoCross(Read(src))
    ensures var e := Initial(st.b.Ticks(), |st.b.gens|, cfg);
            && Builds(e, Submits(Read(src)), Restore(st, src).st.b)
            && (DistinctIds(Read(src)) ==> BuildsFresh(e, Submits(Read(src)), Restore(st, src).st.b))
  {
    var e, recs := Initial(st.b.Ticks(), |st.b.gens|, cfg), Read(src);
    EmptyOccupancy(e.b);
    assert Restable(e.b, recs);
    SubmitsReplay(e, recs);
    if DistinctIds(recs) {
      SubmitsFresh(e, recs);
    }
    RestoreExact(st, src);
    ReplayExact(e.b, recs, cfg.maxOrderQty);
    var b := UnderHeader(st, src.header.value).b;
    EmptyTwins(e.b, b);
    ReplayTwins(e.b, b, recs, cfg.maxOrderQty);
  }

  lemma BuiltRests(st: State, src: Source, cfg: Config, cs: seq<Command>)
    requires Wf(st.b) && Accepts(st, src) && cfg.maxOrderQty == st.cfg.maxOrderQty
    requires Builds(Initial(st.b.Ticks(), |st.b.gens|, cfg), cs, Restore(st, src).st.b)
    ensures AllGtc(Read(src)) && NoCross(Read(src))
    ensures BuildsFresh(Initial(st.b.Ticks(), |st.b.gens|, cfg), cs, Restore(st, src).st.b) ==> DistinctIds(Read(src))
  {
    var e, b := Initial(st.b.Ticks(), |st.b.gens|, cfg), Restore(st, src).st.b;
    InitialInv(st.b.Ticks(), |st.b.gens|, cfg);
    var unique := FreshRun(e, cs);
    RunInv(e, cs, unique);
    RestoredCovered(st, src);
    BookInvAlike(Run(e, cs).b, b, cfg.maxOrderQty, unique);
    RestedExact(st, src);
    UncrossedExact(st, src);
    UniqueExact(st, src);
  }

  /** An accepted source restores a book that commands could have built, under whatever policy, exactly
      when its records are all good-till-cancelled and do not cross; and one that commands with fresh
      ids could have built exactly when its records have distinct ids besides. */
  lemma BuiltExact(st: State, src: Source, cfg: Config)
    requires Wf(st.b) && Accepts(st, src) && cfg.maxOrderQty == st.cfg.maxOrderQty
    ensures var e, b := Initial(st.b.Ticks(), |st.b.gens|, cfg), Restore(st, src).st.b;
            && ((exists cs :: Builds(e, cs, b)) <==> AllGtc(Read(src)) && NoCross(Read(src)))
            && ((exists cs :: BuildsFresh(e, cs, b)) <==>
                  DistinctIds(Read(src)) && AllGtc(Read(src)) && NoCross(Read(src)))
  {
    var e, b := Initial(st.b.Ticks(), |st.b.gens|, cfg), Restore(st, src).st.b;
    if AllGtc(Read(src)) && NoCross(Read(src)) {
      SubmitsBuild(st, src, cfg);
    }
    forall cs | Builds(e, cs, b) ensures AllGtc(Read(src)) && NoCross(Read(src)) {
      BuiltRests(st, src, cfg, cs);
    }
    forall cs | BuildsFresh(e, cs, b) ensures DistinctIds(Read(src)) {
      BuiltRests(st, src, cfg, cs);
    }
  }
}
