/** Engines with twin books that have published the same top publish the same from then on, whatever
    commands they are given, repeated ids or not. */
module TwinEngines {
  import opened Types
  import opened Ladders
  import opened Books
  import opened EngineSpec
  import opened PriceTime
  import opened BooksAlike
  import opened Repricing
  import opened ReferenceSim
  import opened BookTwins

  /** Everything but the books: a and b go by the same rules, have published the same since the origin,
      and have the same left to look at. */
  predicate Even(a: State, b: State, from: Origin) {
    && SameRules(a.cfg, b.cfg)
    && a.seqNo == b.seqNo && SameNews(from.d, a.events, from.r, b.events)
    && a.last == b.last && a.haveTop == b.haveTop && a.dirty == b.dirty && a.depth == b.depth
    && (a.haveTop ==> a.haveBid == b.haveBid && a.haveAsk == b.haveAsk)
  }

  ghost predicate Paired(a: State, b: State, from: Origin) {
    Even(a, b, from) && Wf(a.b) && Wf(b.b) && Twins(a.b, b.b)
  }

  // ----- the top

  lemma MarkEven(a: State, b: State, s: Side, px: nat, from: Origin)
    requires Even(a, b, from)
    ensures Even(MarkTop(a, s, px), MarkTop(b, s, px), from)
  {
  }

  /** A change that both engines make and mark. */
  lemma MarkPaired(a: State, b: State, ab: Book, bb: Book, s: Side, px: nat, from: Origin)
    requires Even(a, b, from) && Wf(ab) && Wf(bb) && Twins(ab, bb)
    ensures Paired(MarkTop(a.(b := ab), s, px), MarkTop(b.(b := bb), s, px), from)
  {
    MarkEven(a.(b := ab), b.(b := bb), s, px, from);
  }

  lemma LookedEven(a: State, b: State, top: Top, bid: bool, ask: bool, from: Origin)
    requires Even(a, b, from)
    ensures Even(Looked(a, top, bid, ask), Looked(b, top, bid, ask), from)
  {
    NewsOn(from.d, a.events, from.r, b.events, [TopOfBook(top, a.seqNo + 1)]);
  }

  lemma PublishPaired(a: State, b: State, from: Origin)
    requires Paired(a, b, from)
    ensures Paired(PublishTop(a), PublishTop(b), from)
  {
    AlikeTop(a.b, b.b);
    assert Best(Bid, a.b.Of(Bid)) == Best(Bid, b.b.Of(Bid)) && Best(Ask, a.b.Of(Ask)) == Best(Ask, b.b.Of(Ask));
    LookedEven(a, b, TopOf(a.b), Best(Bid, a.b.bids).Some?, Best(Ask, a.b.asks).Some?, from);
  }

  // ----- matching

  lemma AdvancePaired(a: State, b: State, ab: Book, bb: Book, out: seq<Event>, from: Origin)
    requires Even(a, b, from) && Wf(ab) && Wf(bb) && Twins(ab, bb)
    ensures Paired(Advanced(a, ab, out), Advanced(b, bb, out), from)
  {
    NewsOn(from.d, a.events, from.r, b.events, out);
  }

  /** Both engines trade next at the same price, and meet the same maker there. */
  lemma NextPaired(a: State, b: State, m: Submit, from: Origin)
    requires Paired(a, b, from)
    ensures NextPrice(a, m) == NextPrice(b, m)
    ensures var l, l' := a.b.Of(Opposite(m.s)), b.b.Of(Opposite(m.s));
            NextPrice(a, m).Some? ==>
              var px := NextPrice(a, m).value;
              px < |l| && px < |l'| && l[px] != [] && l'[px] != [] && l[px][0].o == l'[px][0].o
  {
    AlikeTop(a.b, b.b);
    if NextPrice(a, m).Some? {
      AlikeLevel(a.b, b.b, Opposite(m.s), NextPrice(a, m).value);
    }
  }

  lemma TurnPaired(a: State, b: State, m: Submit, px: nat, rem: nat, from: Origin)
    requires Paired(a, b, from) && rem > 0 && NextPrice(a, m) == NextPrice(b, m) == Some(px)
    ensures var p, q := MatchFront(a, m, px, rem), MatchFront(b, m, px, rem);
            Paired(p.st, q.st, from) && p.rem == q.rem && p.aborted == q.aborted
  {
    NextPaired(a, b, m, from);
    var t := MatchFrontIs(a, m, px, rem);
    var u := MatchFrontIs(b, m, px, rem);
    assert t == u;
    if !t.aborted {
      ReduceTwins(a.b, b.b, Opposite(m.s), px, t.q);
      var ab, bb := ReduceFront(a.b, Opposite(m.s), px, t.q), ReduceFront(b.b, Opposite(m.s), px, t.q);
      AdvancePaired(a, b, ab, bb, t.out, from);
    }
  }

  lemma {:induction false} MatchPaired(a: State, b: State, m: Submit, rem: nat, from: Origin)
    requires Paired(a, b, from)
    ensures var p, q := Match(a, m, rem), Match(b, m, rem); Paired(p.st, q.st, from) && p.rem == q.rem
    decreases rem, Count(a.b.Of(Opposite(m.s)))
  {
    NextPaired(a, b, m, from);
    if rem > 0 && NextPrice(a, m).Some? {
      var px := NextPrice(a, m).value;
      TurnPaired(a, b, m, px, rem, from);
      MatchFrontShrinks(a, m, px, rem);
      MatchOn(a, m, rem);
      MatchOn(b, m, rem);
      var p, q := MatchFront(a, m, px, rem), MatchFront(b, m, px, rem);
      if !p.aborted {
        MatchPaired(p.st, q.st, m, p.rem, from);
      }
    }
  }

  // ----- submits

  lemma LevelsAlike(a: Ladder, b: Ladder)
    requires Plain(a) == Plain(b)
    ensures LevelsOf(a) == LevelsOf(b)
  {
    assert |Plain(a)| == |a| && |Plain(b)| == |b|;
    forall px | 0 <= px < |a| ensures Orders(a[px]) == Orders(b[px]) && (a[px] == [] <==> b[px] == []) {
      assert Plain(a)[px] == Plain(b)[px];
      assert |Orders(a[px])| == |a[px]| && |Orders(b[px])| == |b[px]|;
    }
  }

  lemma PrecheckPaired(a: State, b: State, m: Submit, from: Origin)
    requires Paired(a, b, from)
    ensures CanFill(a, m) == CanFill(b, m)
  {
    var l, l' := a.b.Of(Opposite(m.s)), b.b.Of(Opposite(m.s));
    LevelsAlike(l, l');
    PrecheckSim(a.cfg, b.cfg, m, l, 0);
    PrecheckSim(b.cfg, b.cfg, m, l', 0);
  }

  lemma TicksPaired(a: State, b: State, from: Origin)
    requires Paired(a, b, from)
    ensures a.b.Ticks() == b.b.Ticks() && (Full(a) <==> Full(b))
  {
    assert |Plain(a.b.bids)| == |a.b.bids| && |Plain(b.b.bids)| == |b.b.bids|;
  }

  lemma RestPaired(a: State, b: State, m: Submit, rem: nat, from: Origin)
    requires Paired(a, b, from) && m.px < a.b.Ticks() && rem > 0 && ValidId(m.id)
    ensures m.px < b.b.Ticks() && Paired(Rest(a, m, rem), Rest(b, m, rem), from)
  {
    TicksPaired(a, b, from);
    if Full(a) {
      NewsOn(from.d, a.events, from.r, b.events, [Reject(m.id, m.account, m.px, rem, a.seqNo + 1)]);
    } else {
      var o := Order(m.id, rem, m.px, m.s, m.t, m.account);
      AddTwins(a.b, b.b, o);
      MarkPaired(a, b, AddOrder(a.b, o), AddOrder(b.b, o), m.s, m.px, from);
    }
  }

  lemma SubmitPaired(a: State, b: State, m: Submit, from: Origin)
    requires Paired(a, b, from) && SubmitOk(a, m)
    ensures SubmitOk(b, m) && Paired(OnSubmit(a, m), OnSubmit(b, m), from)
  {
    TicksPaired(a, b, from);
    PrecheckPaired(a, b, m, from);
    if !(m.t.Fok? && !CanFill(a, m)) {
      MatchPaired(a, b, m, m.qty, from);
      var p, q := Match(a, m, m.qty), Match(b, m, m.qty);
      if p.rem > 0 && m.t.Gtc? {
        RestPaired(p.st, q.st, m, p.rem, from);
      }
    }
    PublishPaired(HandleSubmit(a, m), HandleSubmit(b, m), from);
  }

  // ----- cancels and modifies

  lemma CancelPaired(a: State, b: State, id: nat, from: Origin)
    requires Paired(a, b, from)
    ensures Paired(OnCancel(a, id), OnCancel(b, id), from)
  {
    TwinsFind(a.b, b.b, id);
    if id in a.b.idx {
      CancelTwins(a.b, b.b, id);
      MarkPaired(a, b, CancelOrder(a.b, id), CancelOrder(b.b, id), a.b.idx[id].s, a.b.idx[id].px, from);
      PublishPaired(HandleCancel(a, id), HandleCancel(b, id), from);
    }
  }

  lemma RenamePaired(a: State, b: State, m: Modify, from: Origin)
    requires Paired(a, b, from) && m.id in a.b.idx && m.newId < MAX_ID
    ensures m.id in b.b.idx && Paired(Rename(a, m), Rename(b, m), from)
  {
    TwinsFind(a.b, b.b, m.id);
    if EffectiveId(m) != m.id {
      RenameTwins(a.b, b.b, m.id, m.newId);
    }
  }

  lemma ResizePaired(a: State, b: State, id: nat, qty: nat, from: Origin)
    requires Paired(a, b, from) && id in a.b.idx && qty > 0
    ensures id in b.b.idx && Paired(PublishTop(Resize(a, id, qty)), PublishTop(Resize(b, id, qty)), from)
  {
    TwinsFind(a.b, b.b, id);
    ResizeTwins(a.b, b.b, id, qty);
    MarkPaired(a, b, ResizeOrder(a.b, id, qty), ResizeOrder(b.b, id, qty), a.b.idx[id].s, a.b.idx[id].px, from);
    PublishPaired(Resize(a, id, qty), Resize(b, id, qty), from);
  }

  lemma RelinkPaired(a: State, b: State, id: nat, px: nat, qty: nat, from: Origin)
    requires Paired(a, b, from) && id in a.b.idx && qty > 0 && px < a.b.Ticks()
    ensures id in b.b.idx && px < b.b.Ticks()
    ensures Paired(PublishTop(Relink(a, id, px, qty)), PublishTop(Relink(b, id, px, qty)), from)
  {
    TwinsFind(a.b, b.b, id);
    RelinkTwins(a.b, b.b, id, px, qty);
    var p := a.b.idx[id];
    var x, y := a.(b := RelinkOrder(a.b, id, px, qty)), b.(b := RelinkOrder(b.b, id, px, qty));
    MarkEven(x, y, p.s, p.px, from);
    MarkEven(MarkTop(x, p.s, p.px), MarkTop(y, p.s, p.px), p.s, px, from);
    PublishPaired(Relink(a, id, px, qty), Relink(b, id, px, qty), from);
  }

  lemma DepthPaired(a: State, b: State, k: nat, from: Origin)
    requires Paired(a, b, from)
    ensures Paired(a.(depth := k), b.(depth := k), from)
  {
  }

  lemma ReplacePaired(a: State, b: State, id: nat, px: nat, qty: nat, from: Origin)
    requires Paired(a, b, from) && id in a.b.idx && px < a.b.Ticks() && 1 <= qty <= a.cfg.maxOrderQty
    ensures id in b.b.idx && px < b.b.Ticks() && ValidId(id)
    ensures Paired(Replace(a, id, px, qty), Replace(b, id, px, qty), from)
  {
    TwinsFind(a.b, b.b, id);
    ReplaceIs(a, id, px, qty);
    ReplaceIs(b, id, px, qty);
    var m := Resubmit(a.b, id, px, qty);
    DepthPaired(a, b, a.depth + 1, from);
    var a1, b1 := a.(depth := a.depth + 1), b.(depth := b.depth + 1);
    CancelPaired(a1, b1, id, from);
    SubmitPaired(OnCancel(a1, id), OnCancel(b1, id), m, from);
    var a3, b3 := OnSubmit(OnCancel(a1, id), m), OnSubmit(OnCancel(b1, id), m);
    DepthPaired(a3, b3, a.depth, from);
    PublishPaired(a3.(depth := a.depth), b3.(depth := b.depth), from);
  }

  lemma CrossPaired(a: State, b: State, s: Side, px: nat, from: Origin)
    requires Paired(a, b, from)
    ensures WouldCross(a, s, px) == WouldCross(b, s, px)
  {
    AlikeTop(a.b, b.b);
  }

  lemma RepricePaired(a: State, b: State, m: Modify, from: Origin)
    requires Paired(a, b, from) && ModifyOk(a, m) && EffectiveId(m) in a.b.idx
    ensures ModifyOk(b, m) && EffectiveId(m) in b.b.idx && Paired(Reprice(a, m), Reprice(b, m), from)
  {
    var id := EffectiveId(m);
    TicksPaired(a, b, from);
    TwinsFind(a.b, b.b, id);
    var o := OrderOf(a.b, id);
    CrossPaired(a, b, o.s, m.newPx, from);
    if m.newPx == o.px && m.newQty == o.remaining {
      RepriceKeeps(a, m);
      RepriceKeeps(b, m);
    } else if m.newPx == o.px {
      RepriceResizes(a, m);
      RepriceResizes(b, m);
      ResizePaired(a, b, id, m.newQty, from);
    } else if !WouldCross(a, o.s, m.newPx) {
      RepriceRelinks(a, m);
      RepriceRelinks(b, m);
      RelinkPaired(a, b, id, m.newPx, m.newQty, from);
    } else {
      RepriceReplaces(a, m);
      RepriceReplaces(b, m);
      ReplacePaired(a, b, id, m.newPx, m.newQty, from);
    }
  }

  lemma ModifyPaired(a: State, b: State, m: Modify, from: Origin)
    requires Paired(a, b, from) && ModifyOk(a, m)
    ensures ModifyOk(b, m) && Paired(OnModify(a, m), OnModify(b, m), from)
  {
    TicksPaired(a, b, from);
    TwinsFind(a.b, b.b, m.id);
    ModifyIs(a, m);
    ModifyIs(b, m);
    if m.id in a.b.idx {
      RenamePaired(a, b, m, from);
      RepricePaired(Rename(a, m), Rename(b, m), m, from);
    }
  }

  // ----- whole commands and runs

  lemma StepPaired(a: State, b: State, c: Command, from: Origin)
    requires Paired(a, b, from) && CommandOk(a, c)
    ensures CommandOk(b, c) && Paired(Step(a, c), Step(b, c), from)
  {
    match c
    case CmdSubmit(m) => SubmitPaired(a, b, m, from);
    case CmdCancel(id) => CancelPaired(a, b, id, from);
    case CmdModify(m) => ModifyPaired(a, b, m, from);
  }

  lemma RunOkPaired(a: State, b: State, cs: seq<Command>, from: Origin)
    requires Paired(a, b, from) && RunOk(a, cs)
    ensures RunOk(b, cs)
  {
    forall c | c in cs ensures CommandOk(b, c) {
      StepPaired(a, b, c, from);
    }
  }

  /** Paired engines stay paired over every run. */
  lemma {:induction false} RunPaired(a: State, b: State, cs: seq<Command>, from: Origin)
    requires Paired(a, b, from) && RunOk(a, cs)
    ensures RunOk(b, cs) && Paired(Run(a, cs), Run(b, cs), from)
    decreases |cs|
  {
    RunOkPaired(a, b, cs, from);
    if cs != [] {
      assert cs[0] in cs;
      StepPaired(a, b, cs[0], from);
      RunTail(a, Step(a, cs[0]), cs);
      RunTail(b, Step(b, cs[0]), cs);
      RunPaired(Step(a, cs[0]), Step(b, cs[0]), cs[1..], from);
    }
  }
}
