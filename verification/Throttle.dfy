/** The throttled stream of tops leaves nothing out and repeats nothing: guarding the looks at the book
    publishes what looking after every command would. */
module Throttle {
  import opened Types
  import opened Ladders
  import opened Books
  import opened EngineSpec
  import opened BooksAlike
  import opened Repricing
  import opened Stream

  // ----- commands up to the look at the top

  /** From st to x the engine has published no top, and knows of the same one. */
  predicate Silent(st: State, x: State) {
    && st.events <= x.events && NoTops(x.events[|st.events|..])
    && x.cfg == st.cfg && x.last == st.last && x.haveTop == st.haveTop
  }

  lemma SilentStart(st: State)
    ensures Silent(st, st)
  {
    assert st.events[|st.events|..] == [];
  }

  lemma SilentOn(st: State, x: State, y: State)
    requires Silent(st, x) && Silent(x, y)
    ensures Silent(st, y)
  {
    assert y.events[|st.events|..] == x.events[|st.events|..] + y.events[|x.events|..];
  }

  lemma SilentAdd(st: State, y: State, out: seq<Event>)
    requires y.events == st.events + out && NoTops(out)
    requires y.cfg == st.cfg && y.last == st.last && y.haveTop == st.haveTop
    ensures Silent(st, y)
  {
    assert y.events[|st.events|..] == out;
  }

  lemma MatchFrontSilent(st: State, m: Submit, px: nat, rem: nat)
    requires Wf(st.b) && px < st.b.Ticks() && st.b.Of(Opposite(m.s))[px] != [] && rem > 0
    ensures Silent(st, MatchFront(st, m, px, rem).st)
  {
    var t := MatchFrontIs(st, m, px, rem);
    SilentStart(st);
    if !t.aborted {
      SilentAdd(st, MatchFront(st, m, px, rem).st, t.out);
    }
  }

  lemma {:induction false} MatchSilent(st: State, m: Submit, rem: nat)
    requires Wf(st.b)
    ensures Silent(st, Match(st, m, rem).st)
    decreases rem, Count(st.b.Of(Opposite(m.s)))
  {
    SilentStart(st);
    if rem > 0 && NextPrice(st, m).Some? {
      var px := NextPrice(st, m).value;
      MatchFrontSilent(st, m, px, rem);
      MatchFrontShrinks(st, m, px, rem);
      MatchOn(st, m, rem);
      var r := MatchFront(st, m, px, rem);
      if !r.aborted {
        MatchSilent(r.st, m, r.rem);
        SilentOn(st, r.st, Match(st, m, rem).st);
      }
    }
  }

  lemma SubmitSilent(st: State, m: Submit)
    requires Wf(st.b) && SubmitOk(st, m)
    ensures Silent(st, HandleSubmit(st, m)) && (Synced(st) ==> Synced(HandleSubmit(st, m)))
  {
    SilentStart(st);
    if !(m.t.Fok? && !CanFill(st, m)) {
      var p := Match(st, m, m.qty);
      MatchSilent(st, m, m.qty);
      MatchStreams(st, m, m.qty);
      if p.rem > 0 && m.t.Gtc? {
        RestSilent(p.st, m, p.rem);
        RestStreams(p.st, m, p.rem);
        SilentOn(st, p.st, HandleSubmit(st, m));
      }
    }
  }

  lemma RestSilent(st: State, m: Submit, rem: nat)
    requires Wf(st.b) && m.px < st.b.Ticks() && rem > 0 && ValidId(m.id)
    ensures Silent(st, Rest(st, m, rem))
  {
    SilentAdd(st, Rest(st, m, rem), if Full(st) then [Reject(m.id, m.account, m.px, rem, st.seqNo + 1)] else []);
  }

  lemma CancelSilent(st: State, id: nat)
    requires Wf(st.b) && id in st.b.idx
    ensures Silent(st, HandleCancel(st, id)) && (Synced(st) ==> Synced(HandleCancel(st, id)))
  {
    SilentAdd(st, HandleCancel(st, id), []);
    CancelChanges(st.b, id);
    MarkStreams(st, CancelOrder(st.b, id), st.b.idx[id].s, st.b.idx[id].px);
  }

  /** x is what st has come to when, for the first time, it may look at its book. */
  predicate Before(st: State, x: State) {
    Silent(st, x) && (Synced(st) ==> Synced(x)) && x.depth == 0
  }

  lemma ReplaceBefore(st: State, id: nat, px: nat, qty: nat) returns (x: State)
    requires Wf(st.b) && id in st.b.idx && px < st.b.Ticks() && 1 <= qty <= st.cfg.maxOrderQty && Quiet(st)
    ensures ValidId(id) && Replace(st, id, px, qty) == PublishTop(x) && Before(st, x)
  {
    ReplaceIs(st, id, px, qty);
    var st1, m := st.(depth := 1), Resubmit(st.b, id, px, qty);
    SilentAdd(st, st1, []);
    CancelSilent(st1, id);
    var st2 := HandleCancel(st1, id);
    assert OnCancel(st1, id) == st2;
    SilentOn(st, st1, st2);
    SubmitSilent(st2, m);
    var st3 := HandleSubmit(st2, m);
    assert OnSubmit(st2, m) == st3;
    SilentOn(st, st2, st3);
    x := st3.(depth := 0);
    SilentAdd(st3, x, []);
    SilentOn(st, st3, x);
  }

  lemma RepriceBefore(st: State, m: Modify) returns (x: State)
    requires Wf(st.b) && ModifyOk(st, m) && EffectiveId(m) in st.b.idx && Quiet(st)
    ensures Reprice(st, m) == PublishTop(x) && Before(st, x)
  {
    var id := EffectiveId(m);
    var o := OrderOf(st.b, id);
    if m.newPx == o.px && m.newQty == o.remaining {
      RepriceKeeps(st, m);
      x := st;
      SilentStart(st);
    } else if m.newPx == o.px {
      RepriceResizes(st, m);
      x := Resize(st, id, m.newQty);
      SilentAdd(st, x, []);
      ResizeStreams(st, id, m.newQty);
    } else if !WouldCross(st, o.s, m.newPx) {
      RepriceRelinks(st, m);
      x := Relink(st, id, m.newPx, m.newQty);
      SilentAdd(st, x, []);
      RelinkStreams(st, id, m.newPx, m.newQty);
    } else {
      RepriceReplaces(st, m);
      x := ReplaceBefore(st, id, m.newPx, m.newQty);
    }
  }

  /** Every command comes to one look at the top, at its end. */
  lemma StepBefore(st: State, c: Command) returns (x: State)
    requires Wf(st.b) && CommandOk(st, c) && Quiet(st)
    ensures Step(st, c) == PublishTop(x) && Before(st, x)
  {
    SilentStart(st);
    match c
    case CmdSubmit(m) =>
      SubmitSilent(st, m);
      x := HandleSubmit(st, m);
    case CmdCancel(id) =>
      if id in st.b.idx {
        CancelSilent(st, id);
        x := HandleCancel(st, id);
      } else {
        x := st;
      }
    case CmdModify(m) =>
      ModifyIs(st, m);
      if m.id in st.b.idx {
        var mid := Rename(st, m);
        SilentAdd(st, mid, []);
        RenameStreams(st, m);
        x := RepriceBefore(mid, m);
        SilentOn(st, mid, x);
      } else {
        x := st;
      }
  }

  // ----- the tops of a command

  lemma LookTops(st: State, x: State)
    requires Silent(st, x) && Synced(x) && x.depth == 0 && x.cfg.topThrottle && x.haveTop
    ensures var r := PublishTop(x);
            && st.events <= r.events
            && Tops(r.events[|st.events|..]) == if TopOf(r.b) == st.last then [] else [TopOf(r.b)]
  {
    var r, out := PublishTop(x), x.events[|st.events|..];
    TopsAppend([], out);
    assert [] + out == out;
    if r.events != x.events {
      var e := TopOfBook(TopOf(x.b), x.seqNo + 1);
      assert r.events == x.events + [e];
      assert r.events[|st.events|..] == out + [e];
      TopsPublished(out, TopOf(x.b), x.seqNo + 1);
    }
  }

  /** Once a top has been published, a throttled command publishes the top of the book it leaves if that is
      another one, and none otherwise. */
  lemma StepTops(st: State, c: Command)
    requires Wf(st.b) && CommandOk(st, c) && Quiet(st) && Synced(st) && st.cfg.topThrottle && st.haveTop
    ensures var r := Step(st, c);
            && st.events <= r.events
            && Tops(r.events[|st.events|..]) == if TopOf(r.b) == st.last then [] else [TopOf(r.b)]
  {
    var x := StepBefore(st, c);
    LookTops(st, x);
  }

  // ----- the first top

  /** A book with orders shows a top. */
  lemma TopShows(b: Book, s: Side, px: nat)
    requires Wf(b) && px < |b.Of(s)| && b.Of(s)[px] != []
    ensures TopOf(b) != NO_TOP
  {
    var best := Best(s, b.Of(s)).value;
    assert PlacedAt(s, b.Of(s), best, 0);
    assert FifoQty(b.Of(s)[best]) > 0;
  }

  lemma NoTopEmpty(b: Book)
    requires Wf(b) && TopOf(b) == NO_TOP
    ensures Empty(b.bids) && Empty(b.asks) && b.idx == map[]
  {
    forall s: Side, px: nat | px < |b.Of(s)| ensures b.Of(s)[px] == [] {
      if b.Of(s)[px] != [] {
        TopShows(b, s, px);
      }
    }
    assert b.Of(Bid) == b.bids && b.Of(Ask) == b.asks;
    forall id ensures id !in b.idx {
      assert id in b.idx ==> PtrOk(b, id, b.idx[id]);
    }
  }

  /** In an empty book a submit has nothing to trade with; it has the engine look only if it rests. */
  lemma FirstSubmit(st: State, m: Submit)
    requires Wf(st.b) && SubmitOk(st, m) && Quiet(st) && TopOf(st.b) == NO_TOP && HandleSubmit(st, m).dirty
    ensures TopOf(HandleSubmit(st, m).b) != NO_TOP
  {
    NoTopEmpty(st.b);
    assert NextPrice(st, m).None?;
    assert Match(st, m, m.qty) == Progress(st, m.qty, false);
    var o := Order(m.id, m.qty, m.px, m.s, m.t, m.account);
    assert HandleSubmit(st, m).b == AddOrder(st.b, o);
    TopShows(AddOrder(st.b, o), o.s, o.px);
  }

  lemma FirstStep(st: State, c: Command)
    requires Wf(st.b) && CommandOk(st, c) && Quiet(st) && TopOf(st.b) == NO_TOP && Step(st, c).events != st.events
    requires Tops(st.events) == [] && Tops(Step(st, c).events) != []
    ensures TopOf(Step(st, c).b) != NO_TOP
  {
    NoTopEmpty(st.b);
    match c
    case CmdSubmit(m) =>
      SubmitSilent(st, m);
      var x := HandleSubmit(st, m);
      assert x.events == st.events + x.events[|st.events|..];
      TopsAppend(st.events, x.events[|st.events|..]);
      FirstSubmit(st, m);
    case CmdCancel(_) =>
    case CmdModify(_) =>
  }

  // ----- the tops of a run

  /** The tops of the books that the commands leave, one after the other. */
  function TopsAfter(st: State, cs: seq<Command>): seq<Top>
    requires Wf(st.b) && RunOk(st, cs)
    decreases |cs|
  {
    if cs == [] then [] else
    RunTail(st, Step(st, cs[0]), cs);
    [TopOf(Step(st, cs[0]).b)] + TopsAfter(Step(st, cs[0]), cs[1..])
  }

  /** Those that differ from the one before, `last` being the one before the first. */
  function Changes(last: Top, tops: seq<Top>): seq<Top>
    decreases |tops|
  {
    if tops == [] then [] else (if tops[0] == last then [] else [tops[0]]) + Changes(tops[0], tops[1..])
  }

  lemma {:induction false} TopsConcat(p: seq<Event>, q: seq<Event>)
    ensures Tops(p + q) == Tops(p) + Tops(q)
    decreases |q|
  {
    if q == [] {
      assert p + q == p;
    } else {
      var k := |q| - 1;
      assert (p + q)[..|p| + k] == p + q[..k];
      TopsConcat(p, q[..k]);
    }
  }

  lemma TopsSince(p: seq<Event>, q: seq<Event>)
    requires p <= q
    ensures Tops(q) == Tops(p) + Tops(q[|p|..])
  {
    assert q == p + q[|p|..];
    TopsConcat(p, q[|p|..]);
  }

  /** A throttled command publishes the top of the book it leaves exactly when it moves the top. */
  lemma StepChanges(st: State, c: Command)
    requires Wf(st.b) && CommandOk(st, c) && Quiet(st) && Streaming(st) && st.cfg.topThrottle
    ensures var r := Step(st, c);
            && st.events <= r.events
            && Tops(r.events[|st.events|..]) == if TopOf(r.b) == TopOf(st.b) then [] else [TopOf(r.b)]
  {
    var r := Step(st, c);
    StepStreams(st, c);
    StepQuiet(st, c);
    if st.haveTop {
      StepTops(st, c);
    } else {
      var x := StepBefore(st, c);
      FirstTops(st, x, r);
      if Tops(r.events) != [] {
        FirstStep(st, c);
      }
    }
  }

  lemma FirstTops(st: State, x: State, r: State)
    requires Silent(st, x) && !st.haveTop && x.depth == 0 && r == PublishTop(x) && Tops(st.events) == []
    ensures st.events <= r.events && Tops(r.events) == Tops(r.events[|st.events|..])
    ensures if x.dirty then Tops(r.events) == [TopOf(r.b)] else Tops(r.events) == [] && !r.haveTop
    ensures Tops(r.events) != [] ==> r.events != st.events
  {
    TopsSince(st.events, x.events);
    TopsAppend([], x.events[|st.events|..]);
    assert [] + x.events[|st.events|..] == x.events[|st.events|..];
    TopsSince(st.events, r.events);
    if x.dirty {
      TopsPublished(x.events, TopOf(x.b), x.seqNo + 1);
    }
  }

  lemma TopsJoin(p: seq<Event>, q: seq<Event>, r: seq<Event>, last: Top, top: Top, tops: seq<Top>)
    requires p <= q <= r
    requires Tops(q[|p|..]) == if top == last then [] else [top]
    requires Tops(r[|q|..]) == Changes(top, tops)
    ensures Tops(r[|p|..]) == Changes(last, [top] + tops)
  {
    assert r[|p|..] == q[|p|..] + r[|q|..];
    TopsConcat(q[|p|..], r[|q|..]);
    assert ([top] + tops)[1..] == tops;
  }

  /** The tops that a throttled engine publishes over any run are those of the books its commands leave,
      without the ones that repeat the one before: as if it looked, and compared, after every command. */
  lemma {:induction false} RunTops(st: State, cs: seq<Command>)
    requires Wf(st.b) && RunOk(st, cs) && Quiet(st) && Streaming(st) && st.cfg.topThrottle
    ensures var r := Run(st, cs);
            st.events <= r.events && Tops(r.events[|st.events|..]) == Changes(TopOf(st.b), TopsAfter(st, cs))
    decreases |cs|
  {
    if cs == [] {
      assert st.events[|st.events|..] == [];
    } else {
      assert cs[0] in cs;
      var next := Step(st, cs[0]);
      StepChanges(st, cs[0]);
      StepStreams(st, cs[0]);
      StepQuiet(st, cs[0]);
      RunTail(st, next, cs);
      RunTops(next, cs[1..]);
      var r := Run(next, cs[1..]);
      TopsJoin(st.events, next.events, r.events, TopOf(st.b), TopOf(next.b), TopsAfter(next, cs[1..]));
    }
  }

  lemma TopsExact(ticks: nat, maxOrders: nat, cfg: Config, cs: seq<Command>)
    requires RunOk(Initial(ticks, maxOrders, cfg), cs) && cfg.topThrottle
    ensures var st := Initial(ticks, maxOrders, cfg); Tops(Run(st, cs).events) == Changes(NO_TOP, TopsAfter(st, cs))
  {
    var st := Initial(ticks, maxOrders, cfg);
    InitialStreams(ticks, maxOrders, cfg);
    RunTops(st, cs);
    assert Run(st, cs).events[0..] == Run(st, cs).events;
  }
}
