/** What the handle means that a submit or a modify of the engine without an index returns. */
module HandleAnswers {
  import opened Types
  import opened Books
  import opened EngineSpec
  import opened Invariants
  import opened Repricing
  import opened Handles
  import opened HandleEngine

  /** The answer names the order of id in the book without its index: it is empty exactly when no order
      rests under that id, and otherwise finds that order. */
  ghost predicate Answers(b: Book, id: nat, h: Handle) {
    && Wf(b)
    && (h == EMPTY <==> id !in b.idx)
    && (id in b.idx ==> h == HandleOf(b, id) && Resolve(Strip(b), h, id) == Some(b.idx[id]))
  }

  lemma CurrentAnswers(b: Book, id: nat)
    requires Wf(b) && Unique(b) && Parity(b) && id in b.idx
    ensures Answers(b, id, HandleOf(b, id))
  {
    var p := b.idx[id];
    SlotFacts(b, p.s, p.px, Position(b, id));
    assert b.gens[p.slot] % 2 == 1;
    ResolveNamed(b, HandleOf(b, id), id);
    StrippedResolve(b, HandleOf(b, id), id);
  }

  /** A submit answers with the handle of the order that came to rest, or with the empty one. */
  lemma SubmitAnswers(d: State, m: Submit)
    requires Inv(d) && Parity(d.b) && SubmitOk(d, m) && m.id !in d.b.idx
    ensures Wf(Strip(d.b))
    ensures var r, d' := HandleEngine.OnSubmit(Stripped(d), m), EngineSpec.OnSubmit(d, m);
            r.0 == Stripped(d') && Answers(d'.b, m.id, r.1)
  {
    StrippedSubmit(d, m);
    SubmitCarries(d, m);
    SubmitInv(d, m, true);
    var b := EngineSpec.OnSubmit(d, m).b;
    if m.id in b.idx {
      CurrentAnswers(b, m.id);
    }
  }

  /** A cancel sent with any handle removes the order that the handle finds under the id, and nothing where
      it finds none. */
  lemma CancelAnswers(d: State, id: nat, h: Handle)
    requires Inv(d) && Parity(d.b)
    ensures Wf(Strip(d.b))
    ensures HandleEngine.OnCancel(Stripped(d), id, h) ==
            Stripped(if Resolve(d.b, h, id).None? then d else EngineSpec.OnCancel(d, id))
  {
    StripWf(d.b);
    StrippedResolve(d.b, h, id);
    ResolveNamed(d.b, h, id);
    if Resolve(d.b, h, id).Some? {
      StrippedCancel(d, id, h);
    }
  }

  lemma ReplaceLands(d: State, id: nat, px: nat, qty: nat)
    requires Inv(d) && id in d.b.idx && px < d.b.Ticks() && 1 <= qty <= d.cfg.maxOrderQty && ValidId(id)
    ensures var st2, m := EngineSpec.OnCancel(d.(depth := d.depth + 1), id), Resubmit(d.b, id, px, qty);
            id !in EngineSpec.Replace(d, id, px, qty).b.idx ==> SubmitReturn(st2, m) == EMPTY
  {
    ReplaceIs(d, id, px, qty);
    var st1 := d.(depth := d.depth + 1);
    CancelInv(st1, id, true);
    SubmitCarries(EngineSpec.OnCancel(st1, id), Resubmit(d.b, id, px, qty));
  }

  lemma RepriceLands(d: State, m: Modify, h: Handle)
    requires Inv(d) && ModifyOk(d, m) && EffectiveId(m) in d.b.idx
    ensures EffectiveId(m) !in EngineSpec.Reprice(d, m).b.idx ==> RepriceReturn(d, m, h) == EMPTY
  {
    var id := EffectiveId(m);
    var o := OrderOf(d.b, id);
    if m.newPx == o.px || !WouldCross(d, o.s, m.newPx) {
      InPlaceCarries(d, m);
    } else {
      RepriceReplaces(d, m);
      ReplaceLands(d, id, m.newPx, m.newQty);
      ReturnCrosses(d, m, h);
    }
  }

  lemma ModifyLands(d: State, m: Modify)
    requires Inv(d) && ModifyOk(d, m) && m.id in d.b.idx && Fresh(d, CmdModify(m))
    ensures EffectiveId(m) !in EngineSpec.OnModify(d, m).b.idx ==> ModifyReturn(d, m, HandleOf(d.b, m.id)) == EMPTY
  {
    if EffectiveId(m) != m.id {
      RenameInv(d.b, m.id, m.newId, d.cfg.maxOrderQty, true);
    }
    RepriceLands(EngineSpec.Rename(d, m), m, HandleOf(d.b, m.id));
  }

  /** A modify sent with any handle: where the handle finds no order under the id, nothing changes and the
      answer is empty; where it does, the answer is the handle of the order under its effective id, or
      empty if that order is gone. */
  lemma ModifyAnswers(d: State, m: Modify, h: Handle)
    requires Inv(d) && Parity(d.b) && ModifyOk(d, m) && Fresh(d, CmdModify(m))
    ensures Wf(Strip(d.b))
    ensures var r, d' := HandleEngine.OnModify(Stripped(d), m, h), EngineSpec.OnModify(d, m);
            if Resolve(d.b, h, m.id).None? then r == (Stripped(d), EMPTY)
            else r.0 == Stripped(d') && Answers(d'.b, EffectiveId(m), r.1)
  {
    StripWf(d.b);
    StrippedResolve(d.b, h, m.id);
    ResolveNamed(d.b, h, m.id);
    if Resolve(d.b, h, m.id).Some? {
      StrippedModify(d, m, h);
      StepInv(d, CmdModify(m), true);
      ModifyCarries(d, m);
      ModifyLands(d, m);
      var b, id := EngineSpec.OnModify(d, m).b, EffectiveId(m);
      if id in b.idx {
        CurrentAnswers(b, id);
      }
    }
  }

  /** After any commands with fresh ids, the last answer under each id finds the order that rests under it,
      and nothing where none does. */
  lemma LastAnswers(ticks: nat, maxOrders: nat, cfg: Config, cs: seq<Command>, id: nat)
    requires RunOk(Initial(ticks, maxOrders, cfg), cs) && FreshRun(Initial(ticks, maxOrders, cfg), cs)
    ensures var cl, d := CallAll(Client(Initial(ticks, maxOrders, cfg), map[]), cs),
            Run(Initial(ticks, maxOrders, cfg), cs);
            Resolve(cl.st.b, cl.Last(id), id) == if id in d.b.idx then Some(d.b.idx[id]) else None
  {
    var d := Initial(ticks, maxOrders, cfg);
    InitialInv(ticks, maxOrders, cfg);
    var cl := Client(d, map[]);
    CallsFollow(d, cl, cs);
    var d', h := Run(d, cs), CallAll(cl, cs).Last(id);
    ResolveNamed(d'.b, h, id);
    StrippedResolve(d'.b, h, id);
  }
}
