/** When an order is refused for want of room. */
module Rejects {
  import opened Types
  import opened Ladders
  import opened Books
  import opened EngineSpec
  import opened Repricing
  import opened Stream

  predicate NoRejects(evs: seq<Event>, from: nat) {
    forall i | from <= i < |evs| :: !evs[i].Reject?
  }

  /** A turn of the match loop either uses the aggressor up or frees a slot; it refuses nothing. */
  lemma MatchFrontRoom(st: State, m: Submit, px: nat, rem: nat)
    requires Wf(st.b) && px < st.b.Ticks() && st.b.Of(Opposite(m.s))[px] != [] && rem > 0
    ensures var r := MatchFront(st, m, px, rem);
            && |r.st.b.free| >= |st.b.free| && (r.rem > 0 ==> r.st.b.free != [])
            && |st.events| <= |r.st.events| && NoRejects(r.st.events, |st.events|)
  {
    var o := st.b.Of(Opposite(m.s))[px][0].o;
    var t := Meet(st.cfg, m, o, px, rem, st.seqNo + 1);
    assert PlacedAt(Opposite(m.s), st.b.Of(Opposite(m.s)), px, 0);
    if t.aborted {
      assert MatchFront(st, m, px, rem) == Progress(st, 0, true);
    } else {
      var b' := ReduceFront(st.b, Opposite(m.s), px, t.q);
      assert MatchFront(st, m, px, rem) == Progress(Advanced(st, b', t.out), t.rem, false);
      assert |b'.free| >= |st.b.free| && (t.rem > 0 ==> b'.free != []);
    }
  }

  /** Matching refuses nothing, and an aggressor with quantity left has freed a slot or met nobody. */
  lemma {:induction false} MatchRoom(st: State, m: Submit, rem: nat)
    requires Wf(st.b)
    ensures var r := Match(st, m, rem);
            && |r.st.b.free| >= |st.b.free| && (r.rem > 0 ==> r.st.b.free != [] || NextPrice(st, m).None?)
            && |st.events| <= |r.st.events| && NoRejects(r.st.events, |st.events|)
            && st.events <= r.st.events
    decreases rem, Count(st.b.Of(Opposite(m.s)))
  {
    MatchStreams(st, m, rem);
    if rem > 0 && NextPrice(st, m).Some? {
      var px := NextPrice(st, m).value;
      MatchFrontRoom(st, m, px, rem);
      MatchFrontStreams(st, m, px, rem);
      MatchFrontShrinks(st, m, px, rem);
      var r := MatchFront(st, m, px, rem);
      if !r.aborted {
        MatchRoom(r.st, m, r.rem);
        MatchStreams(r.st, m, r.rem);
      }
    }
  }

  /** No room for the order, and nobody it could trade with. */
  predicate Refused(st: State, m: Submit) {
    m.t.Gtc? && st.b.free == [] && NextPrice(st, m).None?
  }

  /** A submit is refused exactly when it can neither trade nor rest. The whole order is then lost and
      nothing else has happened. */
  lemma RejectExact(st: State, m: Submit)
    requires Wf(st.b) && SubmitOk(st, m)
    ensures var r := HandleSubmit(st, m);
            if Refused(st, m) then
              r == st.(seqNo := st.seqNo + 1,
                  events := st.events + [Reject(m.id, m.account, m.px, m.qty, st.seqNo + 1)])
            else |st.events| <= |r.events| && NoRejects(r.events, |st.events|)
  {
    MatchRoom(st, m, m.qty);
  }

  lemma PublishRejectsNothing(st: State)
    ensures |st.events| <= |PublishTop(st).events| && NoRejects(PublishTop(st).events, |st.events|)
    ensures st.events <= PublishTop(st).events
  {
  }

  lemma SubmitRoom(st: State, m: Submit)
    requires Wf(st.b) && SubmitOk(st, m) && st.b.free != []
    ensures var r := OnSubmit(st, m); |st.events| <= |r.events| && NoRejects(r.events, |st.events|)
  {
    RejectExact(st, m);
    PublishRejectsNothing(HandleSubmit(st, m));
  }

  /** A submit between commands that is refused leaves everything but the number and the refusal. */
  lemma RefusedSubmit(st: State, m: Submit)
    requires Wf(st.b) && SubmitOk(st, m) && Quiet(st)
    ensures var r := OnSubmit(st, m);
            Refused(st, m) ==>
              && r.b == st.b
              && r.events == st.events + [Reject(m.id, m.account, m.px, m.qty, st.seqNo + 1)]
    ensures var r := OnSubmit(st, m); !Refused(st, m) ==> |st.events| <= |r.events| && NoRejects(r.events, |st.events|)
  {
    RejectExact(st, m);
    PublishRejectsNothing(HandleSubmit(st, m));
  }

  lemma ReplaceRoom(st: State, id: nat, px: nat, qty: nat)
    requires Wf(st.b) && id in st.b.idx && px < st.b.Ticks() && 1 <= qty <= st.cfg.maxOrderQty && ValidId(id)
    ensures var r := Replace(st, id, px, qty); |st.events| <= |r.events| && NoRejects(r.events, |st.events|)
  {
    ReplaceIs(st, id, px, qty);
    var st1 := st.(depth := st.depth + 1);
    var st2 := OnCancel(st1, id);
    assert st2.b.free != [] && st2.events == st.events;
    var st3 := OnSubmit(st2, Resubmit(st.b, id, px, qty));
    SubmitRoom(st2, Resubmit(st.b, id, px, qty));
    PublishRejectsNothing(st3.(depth := st.depth));
  }

  lemma RepriceRoom(st: State, m: Modify)
    requires Wf(st.b) && ModifyOk(st, m) && EffectiveId(m) in st.b.idx
    ensures var r := Reprice(st, m); |st.events| <= |r.events| && NoRejects(r.events, |st.events|)
  {
    var id := EffectiveId(m);
    var o := OrderOf(st.b, id);
    if m.newPx == o.px && m.newQty == o.remaining {
      RepriceKeeps(st, m);
    } else if m.newPx == o.px {
      RepriceResizes(st, m);
      PublishRejectsNothing(Resize(st, id, m.newQty));
    } else if WouldCross(st, o.s, m.newPx) {
      RepriceReplaces(st, m);
      ReplaceRoom(st, id, m.newPx, m.newQty);
    } else {
      RepriceRelinks(st, m);
      PublishRejectsNothing(Relink(st, id, m.newPx, m.newQty));
    }
  }

  /** A modify is never refused, however full the book: what it moves has made room for itself. */
  lemma ModifyNeverRejects(st: State, m: Modify)
    requires Wf(st.b) && ModifyOk(st, m)
    ensures var r := OnModify(st, m); |st.events| <= |r.events| && NoRejects(r.events, |st.events|)
  {
    if m.id in st.b.idx {
      RepriceRoom(Rename(st, m), m);
    }
  }
}
