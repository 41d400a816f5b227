/** The published stream: how its events are numbered, and what a subscriber that keeps the last top
    of book knows. */
module Stream {
  import opened Types
  import opened Ladders
  import opened Books
  import opened EngineSpec
  import opened BooksAlike
  import opened Repricing

  // ----- numbering

  function Number(e: Event): nat {
    match e
    case Fill(_, _, _, _, n) => n
    case Trade(_, _, n) => n
    case SelfTrade(_, _, _, _, _, n) => n
    case Reject(_, _, _, _, n) => n
    case TopOfBook(_, n) => n
  }

  /** The events carry the numbers base + 1 to n without a gap. A fill shares its number with the
      trade that follows it at once; nothing else shares one. */
  predicate Numbered(evs: seq<Event>, base: nat, n: nat) {
    if evs == [] then n == base else
    var k := |evs| - 1;
    && n > base && Number(evs[k]) == n
    && (if evs[k].Trade? then
          && k > 0 && evs[k - 1].Fill? && Number(evs[k - 1]) == n
          && evs[k - 1].px == evs[k].px && evs[k - 1].qty == evs[k].qty
          && Numbered(evs[..k - 1], base, n - 1)
        else !evs[k].Fill? && Numbered(evs[..k], base, n - 1))
  }

  lemma NumberedOne(evs: seq<Event>, base: nat, n: nat, e: Event)
    requires Numbered(evs, base, n) && Number(e) == n + 1 && !e.Fill? && !e.Trade?
    ensures Numbered(evs + [e], base, n + 1)
  {
    assert (evs + [e])[..|evs|] == evs;
    NumberedBase(evs, base, n);
  }

  lemma NumberedFill(evs: seq<Event>, base: nat, n: nat, maker: nat, taker: nat, px: nat, qty: nat)
    requires Numbered(evs, base, n)
    ensures Numbered(evs + [Fill(maker, taker, px, qty, n + 1), Trade(px, qty, n + 1)], base, n + 1)
  {
    var r := evs + [Fill(maker, taker, px, qty, n + 1), Trade(px, qty, n + 1)];
    assert r[..|r| - 2] == evs;
    NumberedBase(evs, base, n);
  }

  lemma NumberedBase(evs: seq<Event>, base: nat, n: nat)
    requires Numbered(evs, base, n)
    ensures n >= base
  {
  }

  /** Numbers lie in the range, never fall, and are shared only by a fill and its trade. */
  lemma {:induction false} NumberedAscends(evs: seq<Event>, base: nat, n: nat, i: nat, j: nat)
    requires Numbered(evs, base, n) && i <= j < |evs|
    ensures base < Number(evs[i]) <= Number(evs[j]) <= n
    ensures i < j && Number(evs[i]) == Number(evs[j]) ==> j == i + 1 && evs[i].Fill? && evs[j].Trade?
    decreases |evs|
  {
    var k := |evs| - 1;
    var cut := if evs[k].Trade? then k - 1 else k;
    var evs' := evs[..cut];
    NumberedBase(evs', base, n - 1);
    if j < cut {
      NumberedAscends(evs', base, n - 1, i, j);
    } else if i < cut {
      NumberedAscends(evs', base, n - 1, i, i);
    }
  }

  /** No number is left out. */
  lemma {:induction false} NumberedGapless(evs: seq<Event>, base: nat, n: nat, x: nat) returns (i: nat)
    requires Numbered(evs, base, n) && base < x <= n
    ensures i < |evs| && Number(evs[i]) == x
    decreases |evs|
  {
    var k := |evs| - 1;
    if x == n {
      i := k;
    } else {
      var cut := if evs[k].Trade? then k - 1 else k;
      i := NumberedGapless(evs[..cut], base, n - 1, x);
    }
  }

  // ----- the top of book a subscriber holds

  const NO_TOP := Top(0, 0, 0, 0)

  function Tops(evs: seq<Event>): seq<Top> {
    if evs == [] then [] else
    var k := |evs| - 1;
    Tops(evs[..k]) + if evs[k].TopOfBook? then [evs[k].top] else []
  }

  /** What a subscriber holds that keeps the latest top. */
  function Held(evs: seq<Event>): Top {
    if Tops(evs) == [] then NO_TOP else Tops(evs)[|Tops(evs)| - 1]
  }

  predicate NoTops(evs: seq<Event>) {
    forall e | e in evs :: !e.TopOfBook?
  }

  lemma {:induction false} TopsAppend(evs: seq<Event>, out: seq<Event>)
    requires NoTops(out)
    ensures Tops(evs + out) == Tops(evs)
    decreases |out|
  {
    if out == [] {
      assert evs + out == evs;
    } else {
      var k := |out| - 1;
      assert (evs + out)[..|evs| + k] == evs + out[..k];
      assert out[k] in out;
      TopsAppend(evs, out[..k]);
    }
  }

  lemma TopsPublished(evs: seq<Event>, top: Top, n: nat)
    ensures Tops(evs + [TopOfBook(top, n)]) == Tops(evs) + [top]
  {
    assert (evs + [TopOfBook(top, n)])[..|evs|] == evs;
  }

  predicate NoRepeats(tops: seq<Top>) {
    forall i | 0 <= i < |tops| - 1 :: tops[i] != tops[i + 1]
  }

  /** The engine's cache of the last top is what a subscriber holds; unless the engine knows it has to
      look, that is the top of the book. Throttled, no top goes out twice in a row. */
  predicate TopsOk(st: State) {
    && (if st.haveTop then Tops(st.events) != [] && Held(st.events) == st.last else Tops(st.events) == [])
    && Synced(st)
    && (!st.dirty && !st.haveTop ==> TopOf(st.b) == NO_TOP)
    && (st.cfg.topThrottle ==> NoRepeats(Tops(st.events)))
  }

  predicate Streaming(st: State) {
    Numbered(st.events, st.cfg.seqBase, st.seqNo) && TopsOk(st)
  }

  // ----- what every part of a command does to the stream

  /** The stream grows, and stays in order; and an engine that knows the top goes on knowing it. */
  predicate Streams(st: State, r: State) {
    st.events <= r.events && (Streaming(st) ==> Streaming(r)) && (Synced(st) ==> Synced(r))
  }

  lemma StreamsOn(a: State, b: State, c: State)
    requires Streams(a, b) && Streams(b, c)
    ensures Streams(a, c)
  {
  }

  lemma MarkStreams(st: State, b: Book, s: Side, px: nat)
    requires ChangedAt(st.b, b, s, px)
    ensures Streams(st, MarkTop(st.(b := b), s, px))
  {
    if Synced(st) && !st.dirty && st.cfg.topThrottle && !AffectsTop(st, s, px) {
      GuardSound(st, b, s, px);
    }
  }

  /** The stream is in order, but for what the engine has yet to look at. */
  predicate InOrder(st: State) {
    && Numbered(st.events, st.cfg.seqBase, st.seqNo)
    && (if st.haveTop then Tops(st.events) != [] && Held(st.events) == st.last else Tops(st.events) == [])
    && (st.cfg.topThrottle ==> NoRepeats(Tops(st.events)))
  }

  lemma LookedTells(st: State, top: Top, bid: bool, ask: bool)
    requires InOrder(st)
    ensures InOrder(Looked(st, top, bid, ask))
  {
    TopsPublished(st.events, top, st.seqNo + 1);
    NumberedOne(st.events, st.cfg.seqBase, st.seqNo, TopOfBook(top, st.seqNo + 1));
  }

  lemma LookedFrame(st: State, top: Top, bid: bool, ask: bool)
    ensures var r := Looked(st, top, bid, ask);
            && st.events <= r.events && r.b == st.b && r.cfg == st.cfg && r.depth == st.depth && !r.dirty
            && r.haveTop && r.last == top && r.haveBid == bid && r.haveAsk == ask
  {
  }

  lemma PublishStreams(st: State)
    ensures Streams(st, PublishTop(st))
    ensures st.depth == 0 ==> !PublishTop(st).dirty
  {
    if st.dirty && st.depth == 0 {
      var top, bid, ask := TopOf(st.b), Best(Bid, st.b.bids).Some?, Best(Ask, st.b.asks).Some?;
      LookedFrame(st, top, bid, ask);
      if Streaming(st) {
        LookedTells(st, top, bid, ask);
      }
    }
  }

  lemma DepthStreams(st: State, k: nat)
    ensures Streams(st, st.(depth := k))
  {
  }

  lemma MeetNumbered(cfg: Config, m: Submit, maker: Order, px: nat, rem: nat, evs: seq<Event>, base: nat, n: nat)
    requires Numbered(evs, base, n)
    ensures var t := Meet(cfg, m, maker, px, rem, n + 1);
            Numbered(evs + t.out, base, Stamped(n, t.out)) && NoTops(t.out)
  {
    var t := Meet(cfg, m, maker, px, rem, n + 1);
    if t.out == [] {
      assert evs + t.out == evs;
    } else if |t.out| == 1 {
      NumberedOne(evs, base, n, t.out[0]);
    } else {
      NumberedFill(evs, base, n, maker.id, m.id, px, Min(rem, maker.remaining));
    }
  }

  /** Published after evs, the last number being n, the events out keep the stream in order. */
  predicate Continues(evs: seq<Event>, base: nat, n: nat, out: seq<Event>) {
    NoTops(out) && (Numbered(evs, base, n) ==> Numbered(evs + out, base, Stamped(n, out)))
  }

  lemma AdvanceStreams(st: State, b: Book, out: seq<Event>)
    requires Continues(st.events, st.cfg.seqBase, st.seqNo, out)
    ensures Streams(st, Advanced(st, b, out))
  {
    if Streaming(st) {
      TopsAppend(st.events, out);
    }
  }

  lemma MeetContinues(cfg: Config, m: Submit, maker: Order, px: nat, rem: nat, st: State, t: Meeting)
    requires t == Meet(cfg, m, maker, px, rem, st.seqNo + 1)
    ensures Continues(st.events, st.cfg.seqBase, st.seqNo, t.out)
  {
    if Numbered(st.events, st.cfg.seqBase, st.seqNo) {
      MeetNumbered(cfg, m, maker, px, rem, st.events, st.cfg.seqBase, st.seqNo);
    }
  }

  lemma MatchFrontStreams(st: State, m: Submit, px: nat, rem: nat)
    requires Wf(st.b) && px < st.b.Ticks() && st.b.Of(Opposite(m.s))[px] != [] && rem > 0
    ensures Streams(st, MatchFront(st, m, px, rem).st)
  {
    var t := MatchFrontIs(st, m, px, rem);
    if !t.aborted {
      MeetContinues(st.cfg, m, st.b.Of(Opposite(m.s))[px][0].o, px, rem, st, t);
      AdvanceStreams(st, ReduceFront(st.b, Opposite(m.s), px, t.q), t.out);
    }
  }

  lemma {:induction false} MatchStreams(st: State, m: Submit, rem: nat)
    requires Wf(st.b)
    ensures Streams(st, Match(st, m, rem).st)
    decreases rem, Count(st.b.Of(Opposite(m.s)))
  {
    if rem > 0 && NextPrice(st, m).Some? {
      var px := NextPrice(st, m).value;
      MatchFrontStreams(st, m, px, rem);
      MatchFrontShrinks(st, m, px, rem);
      var r := MatchFront(st, m, px, rem);
      if !r.aborted {
        MatchStreams(r.st, m, r.rem);
      }
    }
  }

  lemma RejectStreams(st: State, e: Event)
    requires e.Reject? && Number(e) == st.seqNo + 1
    ensures Streams(st, st.(seqNo := st.seqNo + 1, events := st.events + [e]))
  {
    if Streaming(st) {
      NumberedOne(st.events, st.cfg.seqBase, st.seqNo, e);
      TopsAppend(st.events, [e]);
    }
  }

  lemma RestStreams(st: State, m: Submit, rem: nat)
    requires Wf(st.b) && m.px < st.b.Ticks() && rem > 0 && ValidId(m.id)
    ensures Streams(st, Rest(st, m, rem))
  {
    if Full(st) {
      RejectStreams(st, Reject(m.id, m.account, m.px, rem, st.seqNo + 1));
    } else {
      var o := Order(m.id, rem, m.px, m.s, m.t, m.account);
      AddChanges(st.b, o);
      MarkStreams(st, AddOrder(st.b, o), m.s, m.px);
    }
  }

  lemma SubmitStreams(st: State, m: Submit)
    requires Wf(st.b) && SubmitOk(st, m)
    ensures Streams(st, OnSubmit(st, m))
  {
    if !(m.t.Fok? && !CanFill(st, m)) {
      MatchStreams(st, m, m.qty);
      var p := Match(st, m, m.qty);
      if p.rem > 0 && m.t.Gtc? {
        RestStreams(p.st, m, p.rem);
      }
    }
    PublishStreams(HandleSubmit(st, m));
  }

  lemma CancelStreams(st: State, id: nat)
    requires Wf(st.b)
    ensures Streams(st, OnCancel(st, id))
  {
    if id in st.b.idx {
      CancelChanges(st.b, id);
      MarkStreams(st, CancelOrder(st.b, id), st.b.idx[id].s, st.b.idx[id].px);
      PublishStreams(HandleCancel(st, id));
    }
  }

  lemma ReplaceStreams(st: State, id: nat, px: nat, qty: nat)
    requires Wf(st.b) && id in st.b.idx && px < st.b.Ticks() && 1 <= qty <= st.cfg.maxOrderQty && ValidId(id)
    ensures Streams(st, Replace(st, id, px, qty))
  {
    ReplaceIs(st, id, px, qty);
    var st1 := st.(depth := st.depth + 1);
    DepthStreams(st, st.depth + 1);
    CancelStreams(st1, id);
    var st2 := OnCancel(st1, id);
    StreamsOn(st, st1, st2);
    SubmitStreams(st2, Resubmit(st.b, id, px, qty));
    var st3 := OnSubmit(st2, Resubmit(st.b, id, px, qty));
    StreamsOn(st, st2, st3);
    DepthStreams(st3, st.depth);
    PublishStreams(st3.(depth := st.depth));
    StreamsOn(st, st3.(depth := st.depth), Replace(st, id, px, qty));
  }

  lemma RelinkStreams(st: State, id: nat, px: nat, qty: nat)
    requires Wf(st.b) && id in st.b.idx && px < st.b.Ticks() && qty > 0
    ensures Streams(st, Relink(st, id, px, qty))
  {
    var p, k := st.b.idx[id], Position(st.b, id);
    var o := OrderOf(st.b, id).(px := px, remaining := qty);
    var b' := RelinkOrder(st.b, id, px, qty);
    var l := st.b.Of(p.s)[p.px := RemoveAt(st.b.Of(p.s)[p.px], k)];
    var mid := b'.With(p.s, l);
    MarkStreams(st, mid, p.s, p.px);
    MarkStreams(MarkTop(st.(b := mid), p.s, p.px), b', p.s, px);
    MarkFrame(st, mid, st.depth, p.s, p.px);
    MarkFrame(MarkTop(st, p.s, p.px), b', st.depth, p.s, px);
    RelinkIs(st, id, px, qty);
  }

  lemma ResizeStreams(st: State, id: nat, qty: nat)
    requires Wf(st.b) && id in st.b.idx && qty > 0
    ensures Streams(st, Resize(st, id, qty))
  {
    ResizeChanges(st.b, id, qty);
    MarkStreams(st, ResizeOrder(st.b, id, qty), st.b.idx[id].s, st.b.idx[id].px);
  }

  lemma RenameStreams(st: State, m: Modify)
    requires Wf(st.b) && m.id in st.b.idx && m.newId < MAX_ID
    ensures Streams(st, Rename(st, m))
  {
    if EffectiveId(m) != m.id {
      RenameTop(st.b, m.id, m.newId);
      var b' := RenameOrder(st.b, m.id, m.newId);
      assert Best(Bid, b'.Of(Bid)).Some? == Best(Bid, st.b.Of(Bid)).Some?;
      assert Best(Ask, b'.Of(Ask)).Some? == Best(Ask, st.b.Of(Ask)).Some?;
    }
  }

  lemma RepriceStreams(st: State, m: Modify)
    requires Wf(st.b) && ModifyOk(st, m) && EffectiveId(m) in st.b.idx
    ensures Streams(st, Reprice(st, m))
  {
    var id := EffectiveId(m);
    var o := OrderOf(st.b, id);
    if m.newPx == o.px {
      if m.newQty != o.remaining {
        ResizeStreams(st, id, m.newQty);
        PublishStreams(Resize(st, id, m.newQty));
      }
    } else if !WouldCross(st, o.s, m.newPx) {
      RelinkStreams(st, id, m.newPx, m.newQty);
      PublishStreams(Relink(st, id, m.newPx, m.newQty));
    } else {
      ReplaceStreams(st, id, m.newPx, m.newQty);
    }
  }

  lemma StepStreams(st: State, c: Command)
    requires Wf(st.b) && CommandOk(st, c)
    ensures Streams(st, Step(st, c))
  {
    match c
    case CmdSubmit(m) => SubmitStreams(st, m);
    case CmdCancel(id) => CancelStreams(st, id);
    case CmdModify(m) =>
      if m.id in st.b.idx {
        RenameStreams(st, m);
        RepriceStreams(Rename(st, m), m);
      }
  }

  lemma {:induction false} RunStreams(st: State, cs: seq<Command>)
    requires Wf(st.b) && RunOk(st, cs)
    ensures Streams(st, Run(st, cs))
    decreases |cs|
  {
    if cs != [] {
      StepStreams(st, cs[0]);
      RunTail(st, Step(st, cs[0]), cs);
      RunStreams(Step(st, cs[0]), cs[1..]);
    }
  }

  // ----- between commands

  /** No command is under way and the engine has nothing left to look at. */
  predicate Quiet(st: State) {
    st.depth == 0 && !st.dirty
  }

  lemma StepQuiet(st: State, c: Command)
    requires Wf(st.b) && CommandOk(st, c) && Quiet(st)
    ensures Quiet(Step(st, c))
  {
    if c.CmdModify? && c.change.id in st.b.idx {
      RepriceQuiet(Rename(st, c.change), c.change);
    }
  }

  lemma RepriceQuiet(st: State, m: Modify)
    requires Wf(st.b) && ModifyOk(st, m) && EffectiveId(m) in st.b.idx && Quiet(st)
    ensures Quiet(Reprice(st, m))
  {
    var o := OrderOf(st.b, EffectiveId(m));
    if m.newPx != o.px && WouldCross(st, o.s, m.newPx) {
      ReplaceIs(st, EffectiveId(m), m.newPx, m.newQty);
    }
  }

  lemma {:induction false} RunQuiet(st: State, cs: seq<Command>)
    requires Wf(st.b) && RunOk(st, cs) && Quiet(st)
    ensures Quiet(Run(st, cs))
    decreases |cs|
  {
    if cs != [] {
      StepQuiet(st, cs[0]);
      RunTail(st, Step(st, cs[0]), cs);
      RunQuiet(Step(st, cs[0]), cs[1..]);
    }
  }

  lemma InitialStreams(ticks: nat, maxOrders: nat, cfg: Config)
    ensures Streaming(Initial(ticks, maxOrders, cfg)) && Quiet(Initial(ticks, maxOrders, cfg))
    ensures TopOf(Initial(ticks, maxOrders, cfg).b) == NO_TOP
  {
    var st := Initial(ticks, maxOrders, cfg);
    BestNone(Bid, st.b.bids);
    BestNone(Ask, st.b.asks);
  }

  /** After any commands, repeated ids or not: the events carry consecutive numbers from the base on,
      a subscriber that keeps the latest top holds the top of the book, and a throttled engine never
      published the same top twice in a row. */
  lemma StreamExact(ticks: nat, maxOrders: nat, cfg: Config, cs: seq<Command>)
    requires RunOk(Initial(ticks, maxOrders, cfg), cs)
    ensures var r := Run(Initial(ticks, maxOrders, cfg), cs);
            && Numbered(r.events, cfg.seqBase, r.seqNo)
            && Held(r.events) == TopOf(r.b)
            && (cfg.topThrottle ==> NoRepeats(Tops(r.events)))
  {
    var st := Initial(ticks, maxOrders, cfg);
    InitialStreams(ticks, maxOrders, cfg);
    RunStreams(st, cs);
    RunQuiet(st, cs);
  }
}
