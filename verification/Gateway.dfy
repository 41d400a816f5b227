/** The gateway: wire records are validated, turned into commands and acknowledged. */
module Gateway {
  import opened Types
  import opened Ladders
  import opened Books
  import opened EngineSpec
  import opened Invariants
  import opened PriceTime
  import opened FillOrKill
  import opened Stream
  import opened Rejects
  import opened Ledger
  import opened Capacity

  datatype WireOrder = WireOrder(id: nat, qty: nat, px: nat, newPx: nat, op: nat, side: nat, tif: nat)

  datatype Ack = Ack(id: nat, filled: nat, lastPx: nat, status: nat)

  const ACCEPTED: nat := 0
  const FILLED: nat := 1
  const PROCESSED: nat := 2
  const REJECTED: nat := 3
  const KILLED: nat := 4

  /** Every field that the command consumes is in range. */
  predicate Validate(wo: WireOrder, ticks: nat, maxQty: nat) {
    && ValidId(wo.id)
    && wo.op <= 2
    && (wo.op == 0 ==> wo.px < ticks && 0 < wo.qty <= maxQty && wo.tif <= 2)
    && (wo.op == 2 ==> wo.newPx < ticks && 0 < wo.qty <= maxQty)
  }

  /** The command a valid record stands for. */
  function Decode(wo: WireOrder): Command {
    if wo.op == 0 then
      CmdSubmit(Submit(wo.id, wo.px, wo.qty, if wo.side == 0 then Bid else Ask,
                       if wo.tif == 0 then Gtc else if wo.tif == 1 then Ioc else Fok, 0))
    else if wo.op == 1 then CmdCancel(wo.id)
    else CmdModify(Modify(wo.id, wo.newPx, wo.qty, 0))
  }

  /** The record's op, and the time in force of a submit, are ones that the protocol defines. */
  predicate Known(wo: WireOrder) {
    wo.op <= 2 && (wo.op == 0 ==> wo.tif <= 2)
  }

  /** A record is valid exactly when it is a known one whose command the engine may be given. */
  lemma ValidateExact(st: State, wo: WireOrder)
    ensures Validate(wo, st.b.Ticks(), st.cfg.maxOrderQty) <==> Known(wo) && CommandOk(st, Decode(wo))
  {
  }

  // ----- what is accumulated for the acknowledgement

  datatype Accum = Accum(filled: nat, lastPx: nat, rejected: bool)

  const RESET := Accum(0, 0, false)

  function Publish(a: Accum, e: Event): Accum {
    match e
    case Fill(_, _, px, qty, _) => a.(filled := a.filled + qty, lastPx := px)
    case Reject(_, _, _, _, _) => a.(rejected := true)
    case _ => a
  }

  function PublishAll(evs: seq<Event>): Accum {
    if evs == [] then RESET else Publish(PublishAll(evs[..|evs| - 1]), evs[|evs| - 1])
  }

  function Status(wo: WireOrder, a: Accum): nat {
    if a.rejected then REJECTED
    else if wo.op != 0 then PROCESSED
    else if a.filled > 0 then FILLED
    else if wo.tif != 0 then KILLED
    else ACCEPTED
  }

  /** What a record does to the engine, and how it is acknowledged. */
  function Apply(st: State, wo: WireOrder): (r: (State, Ack))
    requires Wf(st.b)
    ensures Wf(r.0.b) && SameShell(st, r.0)
  {
    if !Validate(wo, st.b.Ticks(), st.cfg.maxOrderQty) then (st, Ack(wo.id, 0, 0, REJECTED)) else
    var r := Step(st, Decode(wo));
    StepStreams(st, Decode(wo));
    var a := PublishAll(r.events[|st.events|..]);
    (r, Ack(wo.id, a.filled, a.lastPx, Status(wo, a)))
  }

  function ApplyAll(st: State, wos: seq<WireOrder>): (r: State)
    requires Wf(st.b)
    ensures Wf(r.b) && SameShell(st, r)
    decreases |wos|
  {
    if wos == [] then st else ApplyAll(Apply(st, wos[0]).0, wos[1..])
  }

  /** Whatever records arrive, valid or not, ids repeated or not: the book stays well formed, within
      its quantities and uncrossed, and no level outgrows the slots. */
  lemma {:induction false} AnyRecords(st: State, wos: seq<WireOrder>, s: Side, px: nat)
    requires Sound(st, false) && px < st.b.Ticks()
    ensures var r := ApplyAll(st, wos);
            && Sound(r, false)
            && px < |r.b.Of(s)| && FifoQty(r.b.Of(s)[px]) <= |st.b.gens| * st.cfg.maxOrderQty
    decreases |wos|
  {
    if wos == [] {
      AggregateBound(st, s, px);
    } else {
      if Validate(wos[0], st.b.Ticks(), st.cfg.maxOrderQty) {
        StepInv(st, Decode(wos[0]), false);
      }
      AnyRecords(Apply(st, wos[0]).0, wos[1..], s, px);
    }
  }

  // ----- what an acknowledgement means

  lemma {:induction false} Accumulated(evs: seq<Event>)
    ensures PublishAll(evs).rejected <==> !NoRejects(evs, 0)
    ensures (forall e | e in evs :: !e.SelfTrade?) ==> PublishAll(evs).filled == Executed(evs)
  {
    if evs != [] {
      var k := |evs| - 1;
      Accumulated(evs[..k]);
      assert evs == evs[..k] + [evs[k]];
      ExecutedAppend(evs[..k], [evs[k]]);
      assert [evs[k]][1..] == [];
      assert evs[k] in evs;
    }
  }

  lemma {:induction false} Quietly(st: State, r: State)
    requires st.events <= r.events && NoRejects(r.events, |st.events|)
    ensures NoRejects(r.events[|st.events|..], 0)
  {
  }

  /** A rejected record has left the book, and everything it could have traded, alone. */
  lemma RejectedUntouched(st: State, wo: WireOrder)
    requires Wf(st.b) && Quiet(st)
    ensures var (r, ack) := Apply(st, wo);
            ack.status == REJECTED ==> r.b == st.b && ack.filled == 0
    ensures Apply(st, wo).1.status == REJECTED <==>
              || !Validate(wo, st.b.Ticks(), st.cfg.maxOrderQty)
              || (wo.op == 0 && Refused(st, Decode(wo).submit))
  {
    if Validate(wo, st.b.Ticks(), st.cfg.maxOrderQty) {
      var c := Decode(wo);
      var r := Step(st, c);
      StepStreams(st, c);
      var out := r.events[|st.events|..];
      Accumulated(out);
      match c
      case CmdSubmit(m) =>
        RefusedSubmit(st, m);
        if Refused(st, m) {
          var e := Reject(m.id, m.account, m.px, m.qty, st.seqNo + 1);
          assert out == [e];
          assert !NoRejects(out, 0) by { assert out[0].Reject?; }
          assert [e][..0] == [];
        } else {
          Quietly(st, r);
        }
      case CmdCancel(id) =>
        if id in st.b.idx {
          PublishRejectsNothing(HandleCancel(st, id));
        }
        Quietly(st, r);
      case CmdModify(m) =>
        ModifyNeverRejects(st, m);
        Quietly(st, r);
    }
  }

  predicate NoSelfTrades(evs: seq<Event>, from: nat) {
    forall i | from <= i < |evs| :: !evs[i].SelfTrade?
  }

  /** Wire orders carry no account, so the self-cross policy never applies to them: a crossing order
      trades. */
  lemma NoAccountTrades(cfg: Config, m: Submit, q: seq<Order>, rem: nat, n: nat)
    requires m.account == 0 && Positive(q)
    ensures var t := Take(cfg, m, q, rem, n);
            && !t.aborted && NoSelfTrades(t.out, 0)
            && (rem > 0 && q != [] && Crosses(m.s, m.px, q[0].px) ==> Executed(t.out) > 0)
  {
    var t := Take(cfg, m, q, rem, n);
    TakeStops(cfg, m, q, rem, n);
    forall i | 0 <= i < |t.out| ensures !t.out[i].SelfTrade? {
      var k := TakeTrades(cfg, m, q, rem, n, i);
    }
    if rem > 0 && q != [] && Crosses(m.s, m.px, q[0].px) {
      assert q[0] in q;
      var meet := Meet(cfg, m, q[0], q[0].px, rem, n + 1);
      MeetExecutes(cfg, m, q[0], rem, n + 1);
      TakeHead(cfg, m, q, rem, n, meet);
      ExecutedAppend(meet.out, Take(cfg, m, Left(q, meet.q), meet.rem, Stamped(n, meet.out)).out);
    }
  }

  /** A wire submit that trades nothing meets nobody; none is ever called a self-trade. */
  lemma WireMatch(st: State, m: Submit)
    requires Wf(st.b) && m.qty > 0 && m.account == 0
    ensures var p := Match(st, m, m.qty);
            && !p.aborted && Traded(st, m) + p.rem == m.qty
            && |st.events| <= |p.st.events| && NoSelfTrades(p.st.events, |st.events|)
            && (Traded(st, m) == 0 <==> NextPrice(st, m).None?)
            && (NextPrice(st, m).None? ==> p == Progress(st, m.qty, false))
  {
    var s := Opposite(m.s);
    var q := Queue(s, st.b.Of(s));
    MatchPublishes(st, m, m.qty);
    MatchLedger(st, m);
    WfPlaced(st.b, s);
    QueuePositive(s, st.b.Of(s));
    NoAccountTrades(st.cfg, m, q, m.qty, st.seqNo);
    NextIsHead(st, m);
    var p := Match(st, m, m.qty);
    var out := p.st.events[|st.events|..];
    forall i | |st.events| <= i < |p.st.events| ensures !p.st.events[i].SelfTrade? {
      assert p.st.events[i] == out[i - |st.events|];
    }
  }

  lemma RestNoSelf(st: State, m: Submit, rem: nat)
    requires Wf(st.b) && m.px < st.b.Ticks() && rem > 0 && ValidId(m.id)
    ensures var r := Rest(st, m, rem);
            && |st.events| <= |r.events| && NoSelfTrades(r.events, |st.events|)
            && st.events <= r.events
  {
    RestLedger(st, m, rem);
  }

  lemma HandleNoSelf(st: State, m: Submit)
    requires Wf(st.b) && SubmitOk(st, m) && m.account == 0
    ensures var h := HandleSubmit(st, m); |st.events| <= |h.events| && NoSelfTrades(h.events, |st.events|)
  {
    if !(m.t.Fok? && !CanFill(st, m)) {
      WireMatch(st, m);
      var p := Match(st, m, m.qty);
      if p.rem > 0 && m.t.Gtc? {
        RestNoSelf(p.st, m, p.rem);
        assert HandleSubmit(st, m) == Rest(p.st, m, p.rem);
      } else {
        assert HandleSubmit(st, m) == p.st;
      }
    }
  }

  lemma SubmitNoSelf(st: State, m: Submit)
    requires Wf(st.b) && SubmitOk(st, m) && m.account == 0
    ensures var r := OnSubmit(st, m); |st.events| <= |r.events| && NoSelfTrades(r.events, |st.events|)
  {
    HandleNoSelf(st, m);
    var h := HandleSubmit(st, m);
    var e := PublishEffect(h);
  }

  lemma WireFilled(st: State, m: Submit)
    requires Wf(st.b) && SubmitOk(st, m) && m.account == 0
    ensures var r := OnSubmit(st, m);
            st.events <= r.events && PublishAll(r.events[|st.events|..]).filled == SubmitAccount(st, m).traded
  {
    SubmitLedger(st, m);
    SubmitNoSelf(st, m);
    var r := OnSubmit(st, m);
    var out := r.events[|st.events|..];
    forall x | x in out ensures !x.SelfTrade? {
      var i :| 0 <= i < |out| && out[i] == x;
      assert x == r.events[|st.events| + i];
    }
    Accumulated(out);
  }

  /** A wire submit that trades nothing leaves the book untouched, or rests whole. */
  lemma WireIdle(st: State, m: Submit)
    requires Wf(st.b) && SubmitOk(st, m) && m.account == 0 && SubmitAccount(st, m).traded == 0
    ensures var b := OnSubmit(st, m).b;
            if !m.t.Gtc? then b == st.b
            else NextPrice(st, m).None? &&
                 (st.b.free != [] ==> b == AddOrder(st.b, Order(m.id, m.qty, m.px, m.s, Gtc, 0)))
  {
    WireMatch(st, m);
    SubmitBook(st, m);
  }

  lemma TradedAccount(st: State, m: Submit)
    requires Wf(st.b) && SubmitOk(st, m) && SubmitAccount(st, m).traded > 0
    ensures !(m.t.Fok? && !CanFill(st, m)) && SubmitAccount(st, m).traded == Traded(st, m)
  {
  }

  /** One that trades leaves the matched book, with what is left of it at the back of its level. */
  lemma WireTraded(st: State, m: Submit)
    requires Wf(st.b) && SubmitOk(st, m) && m.account == 0 && SubmitAccount(st, m).traded > 0
    ensures var b, p, x := OnSubmit(st, m).b, Match(st, m, m.qty), SubmitAccount(st, m).traded;
            && x <= m.qty
            && if m.t.Gtc? && x < m.qty then
                 p.st.b.free != [] && b == AddOrder(p.st.b, Order(m.id, m.qty - x, m.px, m.s, Gtc, 0))
               else b == p.st.b
  {
    var p := Match(st, m, m.qty);
    WireMatch(st, m);
    MatchRoom(st, m, m.qty);
    TradedAccount(st, m);
    assert p.rem > 0 ==> p.st.b.free != [] && !Full(p.st);
    SubmitBook(st, m);
  }

  lemma WireAck(st: State, wo: WireOrder)
    requires Wf(st.b) && wo.op == 0 && Validate(wo, st.b.Ticks(), st.cfg.maxOrderQty)
    ensures var m, (r, ack) := Decode(wo).submit, Apply(st, wo);
            && r == OnSubmit(st, m) && ack.filled == SubmitAccount(st, m).traded
            && (ack.status == REJECTED || ack.status ==
                 (if ack.filled > 0 then FILLED else if wo.tif != 0 then KILLED else ACCEPTED))
  {
    WireFilled(st, Decode(wo).submit);
  }

  /** Accepted means that the whole order rests at the back of its level. */
  lemma AcceptedRests(st: State, wo: WireOrder)
    requires Wf(st.b) && Quiet(st) && wo.op == 0 && Validate(wo, st.b.Ticks(), st.cfg.maxOrderQty)
    requires Apply(st, wo).1.status == ACCEPTED
    ensures var m := Decode(wo).submit;
            st.b.free != [] && Apply(st, wo).0.b == AddOrder(st.b, Order(m.id, m.qty, m.px, m.s, Gtc, 0))
  {
    WireAck(st, wo);
    RejectedUntouched(st, wo);
    WireIdle(st, Decode(wo).submit);
  }

  /** Killed means that nothing happened. */
  lemma KilledUntouched(st: State, wo: WireOrder)
    requires Wf(st.b) && wo.op == 0 && Validate(wo, st.b.Ticks(), st.cfg.maxOrderQty)
    requires Apply(st, wo).1.status == KILLED
    ensures Apply(st, wo).0.b == st.b && Apply(st, wo).1.filled == 0
  {
    WireAck(st, wo);
    WireIdle(st, Decode(wo).submit);
  }

  /** Filled says that something traded, and `filled` how much. */
  lemma FilledExact(st: State, wo: WireOrder)
    requires Wf(st.b) && Quiet(st) && wo.op == 0 && Validate(wo, st.b.Ticks(), st.cfg.maxOrderQty)
    ensures var m, ack := Decode(wo).submit, Apply(st, wo).1;
            ack.filled == SubmitAccount(st, m).traded && (ack.status == FILLED <==> ack.filled > 0)
  {
    WireAck(st, wo);
    RejectedUntouched(st, wo);
  }

  /** What is left of the order m after x of it traded rests at the back of its level in b, if it may. */
  predicate LeftRests(st: State, m: Submit, x: nat, b: Book)
    requires Wf(st.b) && ValidId(m.id) && m.px < st.b.Ticks()
  {
    var p := Match(st, m, m.qty);
    && x <= m.qty
    && if m.t.Gtc? && x < m.qty then
         p.st.b.free != [] && b == AddOrder(p.st.b, Order(m.id, m.qty - x, m.px, m.s, Gtc, 0))
       else b == p.st.b
  }

  /** What is left of a good-till-cancelled order that traded rests. */
  lemma FilledRests(st: State, wo: WireOrder)
    requires Wf(st.b) && Quiet(st) && wo.op == 0 && Validate(wo, st.b.Ticks(), st.cfg.maxOrderQty)
    requires Apply(st, wo).1.status == FILLED
    ensures LeftRests(st, Decode(wo).submit, Apply(st, wo).1.filled, Apply(st, wo).0.b)
  {
    FilledExact(st, wo);
    var m := Decode(wo).submit;
    WireTraded(st, m);
    assert LeftRests(st, m, SubmitAccount(st, m).traded, OnSubmit(st, m).b);
    WireAck(st, wo);
  }
}
