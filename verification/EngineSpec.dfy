/** The engine's commands as functions on states: submit, cancel and modify, the match they drive
    and the throttled top-of-book stream. */
module EngineSpec {
  import opened Types
  import opened Ladders
  import opened Books

  datatype State = State(
    cfg: Config, b: Book,
    seqNo: nat, events: seq<Event>,
    last: Top, haveTop: bool, haveBid: bool, haveAsk: bool,
    dirty: bool, depth: nat)

  // ----- inputs the gateway lets through

  predicate SubmitOk(st: State, m: Submit) {
    m.px < st.b.Ticks() && 1 <= m.qty <= st.cfg.maxOrderQty && ValidId(m.id)
  }

  predicate ModifyOk(st: State, m: Modify) {
    m.newPx < st.b.Ticks() && 1 <= m.newQty <= st.cfg.maxOrderQty && ValidId(m.id) && m.newId < MAX_ID
  }

  predicate CommandOk(st: State, c: Command) {
    match c
    case CmdSubmit(m) => SubmitOk(st, m)
    case CmdCancel(id) => ValidId(id)
    case CmdModify(m) => ModifyOk(st, m)
  }

  // ----- top of book

  function TopOf(b: Book): Top {
    var bb, ba := Best(Bid, b.bids), Best(Ask, b.asks);
    Top(
      if bb.Some? then bb.value else 0,
      if ba.Some? then ba.value else 0,
      if bb.Some? then FifoQty(b.bids[bb.value]) else 0,
      if ba.Some? then FifoQty(b.asks[ba.value]) else 0)
  }

  /** The engine's cheap test whether a change at px on side s can move the top. */
  predicate AffectsTop(st: State, s: Side, px: nat) {
    || !st.haveTop
    || (if s.Bid? then !st.haveBid || px >= st.last.bidPx else !st.haveAsk || px <= st.last.askPx)
  }

  function MarkTop(st: State, s: Side, px: nat): State {
    if !st.cfg.topThrottle || AffectsTop(st, s, px) then st.(dirty := true) else st
  }

  /** Publish the top that a look at the book shows, unless it is the last one again. */
  function Looked(st: State, top: Top, bid: bool, ask: bool): State {
    var st1 := st.(dirty := false, haveBid := bid, haveAsk := ask);
    if st.cfg.topThrottle && st.haveTop && top == st.last then st1 else
    st1.(seqNo := st.seqNo + 1, events := st.events + [TopOfBook(top, st.seqNo + 1)], last := top, haveTop := true)
  }

  function PublishTop(st: State): State {
    if !st.dirty || st.depth != 0 then st
    else Looked(st, TopOf(st.b), Best(Bid, st.b.bids).Some?, Best(Ask, st.b.asks).Some?)
  }

  /** What no command changes. */
  predicate SameShell(a: State, b: State) {
    a.cfg == b.cfg && a.depth == b.depth && SameShape(a.b, b.b)
  }

  /** What matching and resting leave alone. */
  predicate SameFrame(a: State, b: State) {
    && a.cfg == b.cfg
    && SameShape(a.b, b.b)
    && a.last == b.last && a.haveTop == b.haveTop && a.haveBid == b.haveBid && a.haveAsk == b.haveAsk
    && a.depth == b.depth
  }

  // ----- matching

  /** What comes of an aggressor with `rem` left meeting one maker: how much the maker loses, what is
      published, what the aggressor has left, and whether it gives up. */
  datatype Meeting = Meeting(q: nat, out: seq<Event>, rem: nat, aborted: bool)

  function Meet(cfg: Config, m: Submit, maker: Order, px: nat, rem: nat, n: nat): (r: Meeting)
    ensures r.q <= maker.remaining && r.rem <= rem
  {
    var q := Min(rem, maker.remaining);
    if m.account != 0 && maker.account == m.account then
      match cfg.selfCross
      case CancelNewest => Meeting(0, [], 0, true)
      case CancelOldest => Meeting(maker.remaining, [], rem, false)
      case DecrementTrade => Meeting(q, [SelfTrade(m.id, maker.id, m.account, px, q, n)], rem - q, false)
    else
      Meeting(q, [Fill(maker.id, m.id, px, q, n), Trade(px, q, n)], rem - q, false)
  }

  datatype Progress = Progress(st: State, rem: nat, aborted: bool)

  /** What a meeting publishes goes out under one number, and the top has to be looked at. */
  function Advanced(st: State, b: Book, out: seq<Event>): State {
    st.(b := b, dirty := true, seqNo := Stamped(st.seqNo, out), events := st.events + out)
  }

  /** The last number used once `out` has been published. */
  function Stamped(n: nat, out: seq<Event>): nat {
    if out == [] then n else n + 1
  }

  /** One turn of the match loop: the aggressor meets the front maker at px. */
  function MatchFront(st: State, m: Submit, px: nat, rem: nat): (r: Progress)
    requires Wf(st.b) && px < st.b.Ticks() && st.b.Of(Opposite(m.s))[px] != [] && rem > 0
    ensures Wf(r.st.b) && SameFrame(st, r.st) && r.rem <= rem
    ensures r.st.b.Of(m.s) == st.b.Of(m.s)
  {
    var opp := Opposite(m.s);
    var t := Meet(st.cfg, m, st.b.Of(opp)[px][0].o, px, rem, st.seqNo + 1);
    if t.aborted then Progress(st, 0, true) else
    Progress(Advanced(st, ReduceFront(st.b, opp, px, t.q), t.out), t.rem, false)
  }

  /** A turn of the match loop gives up, or reduces the front maker and publishes what the meeting says. */
  lemma MatchFrontIs(st: State, m: Submit, px: nat, rem: nat) returns (t: Meeting)
    requires Wf(st.b) && px < st.b.Ticks() && st.b.Of(Opposite(m.s))[px] != [] && rem > 0
    ensures t == Meet(st.cfg, m, st.b.Of(Opposite(m.s))[px][0].o, px, rem, st.seqNo + 1)
    ensures MatchFront(st, m, px, rem) ==
            if t.aborted then Progress(st, 0, true)
            else Progress(Advanced(st, ReduceFront(st.b, Opposite(m.s), px, t.q), t.out), t.rem, false)
  {
    t := Meet(st.cfg, m, st.b.Of(Opposite(m.s))[px][0].o, px, rem, st.seqNo + 1);
  }

  lemma MatchFrontShrinks(st: State, m: Submit, px: nat, rem: nat)
    requires Wf(st.b) && px < st.b.Ticks() && st.b.Of(Opposite(m.s))[px] != [] && rem > 0
    ensures var r := MatchFront(st, m, px, rem);
            r.aborted || r.rem < rem || Count(r.st.b.Of(Opposite(m.s))) < Count(st.b.Of(Opposite(m.s)))
  {
    var l := st.b.Of(Opposite(m.s));
    CountUpdate(l, px, RemoveAt(l[px], 0));
  }

  /** The price at which the aggressor trades next. */
  function NextPrice(st: State, m: Submit): (r: Option<nat>)
    ensures r.Some? ==> IsBest(Opposite(m.s), st.b.Of(Opposite(m.s)), r.value) && Crosses(m.s, m.px, r.value)
  {
    var b := Best(Opposite(m.s), st.b.Of(Opposite(m.s)));
    if b.Some? && Crosses(m.s, m.px, b.value) then b else None
  }

  function Match(st: State, m: Submit, rem: nat): (r: Progress)
    requires Wf(st.b)
    ensures Wf(r.st.b) && SameFrame(st, r.st) && r.rem <= rem
    ensures r.st.b.Of(m.s) == st.b.Of(m.s)
    decreases rem, Count(st.b.Of(Opposite(m.s)))
  {
    if rem == 0 || NextPrice(st, m).None? then Progress(st, rem, false) else
    var px := NextPrice(st, m).value;
    var r := MatchFront(st, m, px, rem);
    MatchFrontShrinks(st, m, px, rem);
    if r.aborted then r else Match(r.st, m, r.rem)
  }

  lemma MatchOn(st: State, m: Submit, rem: nat)
    requires Wf(st.b) && rem > 0 && NextPrice(st, m).Some?
    ensures var r := MatchFront(st, m, NextPrice(st, m).value, rem);
            Match(st, m, rem) == if r.aborted then r else Match(r.st, m, r.rem)
  {
  }

  // ----- matching within a level

  /** The best crossing level, known to be populated, is where the aggressor trades next. */
  lemma NextIs(st: State, m: Submit, px: nat)
    requires px < |st.b.Of(Opposite(m.s))| && st.b.Of(Opposite(m.s))[px] != [] && Crosses(m.s, m.px, px)
    requires forall p: nat |
               p < |st.b.Of(Opposite(m.s))| && st.b.Of(Opposite(m.s))[p] != [] :: !Better(Opposite(m.s), p, px)
    ensures NextPrice(st, m) == Some(px)
  {
    BestUnique(Opposite(m.s), st.b.Of(Opposite(m.s)), px);
  }

  /** Matching rem of m from st has come to `at` with `left` to go, or has given up there, without
      leaving level px, the best one. */
  ghost predicate OnLevel(st: State, m: Submit, px: nat, rem: nat, at: State, left: nat, aborted: bool) {
    var opp := Opposite(m.s);
    && Wf(st.b) && Wf(at.b) && Crosses(m.s, m.px, px)
    && (forall p: nat | p < |at.b.Of(opp)| && at.b.Of(opp)[p] != [] :: !Better(opp, p, px))
    && Match(st, m, rem) == (if aborted then Progress(at, left, true) else Match(at, m, left))
    && left <= rem && (left < rem || aborted || Count(at.b.Of(opp)) < Count(st.b.Of(opp)) || at.b == st.b)
  }

  lemma OnLevelStep(st: State, m: Submit, px: nat, rem: nat, at: State, left: nat)
    requires OnLevel(st, m, px, rem, at, left, false) && left > 0
    requires px < |at.b.Of(Opposite(m.s))| && at.b.Of(Opposite(m.s))[px] != []
    ensures var r := MatchFront(at, m, px, left);
            && OnLevel(st, m, px, rem, r.st, r.rem, r.aborted)
            && (r.aborted || r.rem < left || (r.rem == left
                 && Count(r.st.b.Of(Opposite(m.s))) < Count(at.b.Of(Opposite(m.s)))))
            && (r.aborted ==> r.st == at)
  {
    var opp := Opposite(m.s);
    NextIs(at, m, px);
    MatchFrontShrinks(at, m, px, left);
    var r := MatchFront(at, m, px, left);
    forall p: nat | p < |r.st.b.Of(opp)| && r.st.b.Of(opp)[p] != [] ensures !Better(opp, p, px) {
      Elsewhere(at, m, px, left, p);
    }
  }

  lemma Elsewhere(at: State, m: Submit, px: nat, left: nat, p: nat)
    requires Wf(at.b) && px < at.b.Ticks() && at.b.Of(Opposite(m.s))[px] != [] && left > 0
    ensures var l := MatchFront(at, m, px, left).st.b.Of(Opposite(m.s));
            |l| == |at.b.Of(Opposite(m.s))| && (p < |l| && p != px ==> l[p] == at.b.Of(Opposite(m.s))[p])
  {
  }

  // ----- fill-or-kill precheck

  datatype Walk = Walk(total: nat, aborted: bool, done: bool)

  /** An own-account maker that a cancelling policy keeps from consuming the aggressor. */
  predicate Unfillable(cfg: Config, account: nat, o: Order) {
    account != 0 && !cfg.selfCross.DecrementTrade? && o.account == account
  }

  function WalkLevel(cfg: Config, account: nat, want: nat, f: seq<Node>, total: nat): Walk {
    if f == [] then Walk(total, false, false)
    else if Unfillable(cfg, account, f[0].o) then
      if cfg.selfCross.CancelNewest? then Walk(total, true, true)
      else WalkLevel(cfg, account, want, f[1..], total)
    else if total + f[0].o.remaining >= want then Walk(total + f[0].o.remaining, false, true)
    else WalkLevel(cfg, account, want, f[1..], total + f[0].o.remaining)
  }

  /** Walk the opposite levels from the best price to the limit, adding up what can be consumed. */
  function CanFillFrom(cfg: Config, m: Submit, l: Ladder, total: nat): bool
    decreases Count(l)
  {
    var b := Best(Opposite(m.s), l);
    if b.None? || !Crosses(m.s, m.px, b.value) then total >= m.qty else
    var w := WalkLevel(cfg, m.account, m.qty, l[b.value], total);
    if w.done then !w.aborted && w.total >= m.qty else
    CountUpdate(l, b.value, []);
    CanFillFrom(cfg, m, l[b.value := []], w.total)
  }

  function CanFill(st: State, m: Submit): bool {
    CanFillFrom(st.cfg, m, st.b.Of(Opposite(m.s)), 0)
  }

  // ----- resting

  predicate Full(st: State) {
    st.b.free == []
  }

  function Rest(st: State, m: Submit, rem: nat): (r: State)
    requires Wf(st.b) && m.px < st.b.Ticks() && rem > 0 && ValidId(m.id)
    ensures Wf(r.b) && SameFrame(st, r)
  {
    var n := st.seqNo + 1;
    if Full(st) then
        st.(seqNo := n, events := st.events + [Reject(m.id, m.account, m.px, rem, n)])
    else
      var o := Order(m.id, rem, m.px, m.s, m.t, m.account);
      MarkTop(st.(b := AddOrder(st.b, o)), m.s, m.px)
  }

  // ----- commands

  function HandleSubmit(st: State, m: Submit): (r: State)
    requires Wf(st.b) && SubmitOk(st, m)
    ensures Wf(r.b) && SameFrame(st, r)
  {
    if m.t.Fok? && !CanFill(st, m) then st else
    var p := Match(st, m, m.qty);
    if p.rem > 0 && m.t.Gtc? then Rest(p.st, m, p.rem) else p.st
  }

  function OnSubmit(st: State, m: Submit): (r: State)
    requires Wf(st.b) && SubmitOk(st, m)
    ensures Wf(r.b) && SameShell(st, r)
  {
    PublishTop(HandleSubmit(st, m))
  }

  /** The book a submit leaves. */
  lemma SubmitBook(st: State, m: Submit)
    requires Wf(st.b) && SubmitOk(st, m)
    ensures var b, p := OnSubmit(st, m).b, Match(st, m, m.qty);
            if m.t.Fok? && !CanFill(st, m) then b == st.b
            else if p.rem > 0 && m.t.Gtc? && !Full(p.st) then
              b == AddOrder(p.st.b, Order(m.id, p.rem, m.px, m.s, m.t, m.account))
            else b == p.st.b
  {
    assert OnSubmit(st, m).b == HandleSubmit(st, m).b;
  }

  function HandleCancel(st: State, id: nat): (r: State)
    requires Wf(st.b) && id in st.b.idx
    ensures Wf(r.b) && SameFrame(st, r)
  {
    MarkTop(st.(b := CancelOrder(st.b, id)), st.b.idx[id].s, st.b.idx[id].px)
  }

  function OnCancel(st: State, id: nat): (r: State)
    requires Wf(st.b)
    ensures Wf(r.b) && SameShell(st, r)
  {
    if id !in st.b.idx then st else PublishTop(HandleCancel(st, id))
  }

  function EffectiveId(m: Modify): nat {
    if m.newId != 0 then m.newId else m.id
  }

  /** Apply the id chain of a cancel-replace. */
  function Rename(st: State, m: Modify): (r: State)
    requires Wf(st.b) && m.id in st.b.idx && m.newId < MAX_ID
    ensures Wf(r.b) && SameFrame(st, r) && EffectiveId(m) in r.b.idx
    ensures r.b.idx[EffectiveId(m)] == st.b.idx[m.id]
  {
    if EffectiveId(m) == m.id then st else st.(b := RenameOrder(st.b, m.id, m.newId))
  }

  function Resize(st: State, id: nat, qty: nat): (r: State)
    requires Wf(st.b) && id in st.b.idx && qty > 0
    ensures Wf(r.b) && SameFrame(st, r)
  {
    MarkTop(st.(b := ResizeOrder(st.b, id, qty)), st.b.idx[id].s, st.b.idx[id].px)
  }

  function Relink(st: State, id: nat, px: nat, qty: nat): (r: State)
    requires Wf(st.b) && id in st.b.idx && qty > 0 && px < st.b.Ticks()
    ensures Wf(r.b) && SameFrame(st, r)
  {
    var p := st.b.idx[id];
    MarkTop(MarkTop(st.(b := RelinkOrder(st.b, id, px, qty)), p.s, p.px), p.s, px)
  }

  /** A resting order moved to px would trade. */
  predicate WouldCross(st: State, s: Side, px: nat) {
    var b := Best(Opposite(s), st.b.Of(Opposite(s)));
    b.Some? && Crosses(s, px, b.value)
  }

  /** Cancel and resubmit under suppression, so that one top at most is published. */
  function Replace(st: State, id: nat, px: nat, qty: nat): (r: State)
    requires Wf(st.b) && id in st.b.idx && ValidId(id) && px < st.b.Ticks() && 1 <= qty <= st.cfg.maxOrderQty
    ensures Wf(r.b) && SameShell(st, r)
  {
    var o := OrderOf(st.b, id);
    var st1 := st.(depth := st.depth + 1);
    var st2 := OnCancel(st1, id);
    var st3 := OnSubmit(st2, Submit(id, px, qty, o.s, o.t, o.account));
    assert st3.depth == st1.depth;
    var st4 := st3.(depth := st3.depth - 1);
    PublishTop(st4)
  }

  /** What a modify does to the order once it carries its new id. */
  function Reprice(st: State, m: Modify): (r: State)
    requires Wf(st.b) && ModifyOk(st, m) && EffectiveId(m) in st.b.idx
    ensures Wf(r.b) && SameShell(st, r)
  {
    var id := EffectiveId(m);
    var o := OrderOf(st.b, id);
    if m.newPx == o.px then
      if m.newQty == o.remaining then st else PublishTop(Resize(st, id, m.newQty))
    else if !WouldCross(st, o.s, m.newPx) then
      PublishTop(Relink(st, id, m.newPx, m.newQty))
    else
      Replace(st, id, m.newPx, m.newQty)
  }

  /** What becomes of a modify, case by case. */
  lemma RepriceKeeps(st: State, m: Modify)
    requires Wf(st.b) && ModifyOk(st, m) && EffectiveId(m) in st.b.idx
    requires m.newPx == OrderOf(st.b, EffectiveId(m)).px && m.newQty == OrderOf(st.b, EffectiveId(m)).remaining
    ensures Reprice(st, m) == st
  {
  }

  lemma RepriceResizes(st: State, m: Modify)
    requires Wf(st.b) && ModifyOk(st, m) && EffectiveId(m) in st.b.idx
    requires m.newPx == OrderOf(st.b, EffectiveId(m)).px && m.newQty != OrderOf(st.b, EffectiveId(m)).remaining
    ensures var id := EffectiveId(m);
            && Reprice(st, m) == PublishTop(Resize(st, id, m.newQty))
            && Reprice(st, m).b == ResizeOrder(st.b, id, m.newQty)
  {
  }

  lemma RepriceRelinks(st: State, m: Modify)
    requires Wf(st.b) && ModifyOk(st, m) && EffectiveId(m) in st.b.idx
    requires var o := OrderOf(st.b, EffectiveId(m)); m.newPx != o.px && !WouldCross(st, o.s, m.newPx)
    ensures var id := EffectiveId(m);
            && Reprice(st, m) == PublishTop(Relink(st, id, m.newPx, m.newQty))
            && Reprice(st, m).b == RelinkOrder(st.b, id, m.newPx, m.newQty)
  {
  }

  lemma RepriceReplaces(st: State, m: Modify)
    requires Wf(st.b) && ModifyOk(st, m) && EffectiveId(m) in st.b.idx
    requires var o := OrderOf(st.b, EffectiveId(m)); m.newPx != o.px && WouldCross(st, o.s, m.newPx)
    ensures ValidId(EffectiveId(m)) && Reprice(st, m) == Replace(st, EffectiveId(m), m.newPx, m.newQty)
  {
  }

  function OnModify(st: State, m: Modify): (r: State)
    requires Wf(st.b) && ModifyOk(st, m)
    ensures Wf(r.b) && SameShell(st, r)
  {
    if m.id !in st.b.idx then st else Reprice(Rename(st, m), m)
  }

  lemma ModifyIs(st: State, m: Modify)
    requires Wf(st.b) && ModifyOk(st, m)
    ensures m.id !in st.b.idx ==> OnModify(st, m) == st
    ensures m.id in st.b.idx ==> OnModify(st, m) == Reprice(Rename(st, m), m)
    ensures m.id in st.b.idx ==> Rename(st, m).b.gens == st.b.gens && Rename(st, m).b.free == st.b.free
  {
  }

  function Step(st: State, c: Command): (r: State)
    requires Wf(st.b) && CommandOk(st, c)
    ensures Wf(r.b) && SameShell(st, r)
  {
    match c
    case CmdSubmit(m) => OnSubmit(st, m)
    case CmdCancel(id) => OnCancel(st, id)
    case CmdModify(m) => OnModify(st, m)
  }

  /** Whether a command meets the input contract depends on what no command changes. */
  predicate RunOk(st: State, cs: seq<Command>) {
    forall c | c in cs :: CommandOk(st, c)
  }

  lemma RunTail(st: State, st': State, cs: seq<Command>)
    requires RunOk(st, cs) && cs != [] && SameShell(st, st')
    ensures RunOk(st', cs[1..])
  {
    forall c | c in cs[1..] ensures CommandOk(st', c) {
      assert c in cs;
    }
  }

  function Run(st: State, cs: seq<Command>): (r: State)
    requires Wf(st.b) && RunOk(st, cs)
    ensures Wf(r.b) && SameShell(st, r)
    decreases |cs|
  {
    if cs == [] then st else
    RunTail(st, Step(st, cs[0]), cs);
    Run(Step(st, cs[0]), cs[1..])
  }

  /** An engine before its first command. */
  function Initial(ticks: nat, maxOrders: nat, cfg: Config): (r: State)
    ensures Wf(r.b)
  {
    EmptyBookWf(ticks, maxOrders);
    State(cfg, EmptyBook(ticks, maxOrders), cfg.seqBase, [], Top(0, 0, 0, 0), false, false, false, false, 0)
  }
}
