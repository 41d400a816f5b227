/** The matching engine as an object over the dense book. Each of its methods is proved to take the
    step of the engine machine on values. */
module Engines {
  import opened Types
  import opened Ladders
  import opened Books
  import opened Vaults
  import Spec = EngineSpec

  /** The counters and flags the commands touch: sequence number, last published top, whether each
      side held orders then, whether the top needs a look, and how deep publishing is suppressed. */
  datatype Hot = Hot(seqNo: nat, last: Top, haveTop: bool, haveBid: bool, haveAsk: bool, dirty: bool, depth: nat)

  class Engine {
    const vault: Vault
    var cfg: Config
    var hot: Hot
    /** What has been published, in order. */
    var log: seq<Event>

    ghost function Abs(): Spec.State
      reads this, vault
    {
      Spec.State(cfg, vault.now, hot.seqNo, log, hot.last, hot.haveTop, hot.haveBid, hot.haveAsk, hot.dirty, hot.depth)
    }

    ghost predicate ValidBut(s: Side, px: nat)
      reads this, vault, vault.store, vault.store.bids, vault.store.bids.bm, vault.store.asks, vault.store.asks.bm
      reads vault.store.arena, vault.store.index, vault.store.index.slots
    {
      vault.ValidBut(s, px) && this !in vault.store.Repr
    }

    ghost predicate Valid()
      reads this, vault, vault.store, vault.store.bids, vault.store.bids.bm, vault.store.asks, vault.store.asks.bm
      reads vault.store.arena, vault.store.index, vault.store.index.slots
    {
      vault.Valid() && this !in vault.store.Repr
    }

    constructor (ticks: nat, maxOrders: nat, hash: nat -> nat, cfg: Config)
      requires 0 < ticks <= 64 * 64 * 64 * 64 && maxOrders > 0
      ensures Valid()
      ensures Abs() == Spec.Initial(ticks, maxOrders, cfg)
    {
      vault := new Vault(ticks, maxOrders, hash);
      this.cfg := cfg;
      hot, log := Hot(cfg.seqBase, Top(0, 0, 0, 0), false, false, false, false, 0), [];
    }

    // ----- top of book

    method MarkTop(s: Side, px: nat)
      requires Valid()
      modifies this`hot
      ensures Valid() && Abs() == Spec.MarkTop(old(Abs()), s, px)
    {
      var affects := !hot.haveTop
                     || (if s.Bid? then !hot.haveBid || px >= hot.last.bidPx else !hot.haveAsk || px <= hot.last.askPx);
      if !cfg.topThrottle || affects {
        hot := hot.(dirty := true);
      }
    }

    /** The true top, read off the cached bests and aggregates. */
    method ReadTop() returns (top: Top, bid: bool, ask: bool)
      requires Valid()
      ensures top == Spec.TopOf(vault.now)
      ensures bid == Best(Bid, vault.now.bids).Some? && ask == Best(Ask, vault.now.asks).Some?
    {
      var bb := vault.BestPrice(Bid);
      var ba := vault.BestPrice(Ask);
      var bidPx, askPx, bidQty, askQty := 0, 0, 0, 0;
      if bb.Some? {
        bidPx := bb.value;
        bidQty := vault.AggregateAt(Bid, bb.value);
      }
      if ba.Some? {
        askPx := ba.value;
        askQty := vault.AggregateAt(Ask, ba.value);
      }
      top, bid, ask := Top(bidPx, askPx, bidQty, askQty), bb.Some?, ba.Some?;
    }

    method PublishTop()
      requires Valid()
      modifies this`hot, this`log
      ensures Valid() && Abs() == Spec.PublishTop(old(Abs()))
    {
      if !hot.dirty || hot.depth != 0 {
        return;
      }
      var top, bid, ask := ReadTop();
      var seen := hot.(dirty := false, haveBid := bid, haveAsk := ask);
      if cfg.topThrottle && hot.haveTop && top == hot.last {
        hot := seen;
        return;
      }
      log := log + [TopOfBook(top, hot.seqNo + 1)];
      hot := seen.(seqNo := hot.seqNo + 1, last := top, haveTop := true);
    }

    // ----- matching

    /** Apply the self-cross policy, or trade. */
    method Meet(m: Submit, maker: Order, px: nat, rem: nat) returns (q: nat, out: seq<Event>, rem': nat, aborted: bool)
      ensures Spec.Meeting(q, out, rem', aborted) == Spec.Meet(cfg, m, maker, px, rem, hot.seqNo + 1)
    {
      q := Min(rem, maker.remaining);
      if m.account != 0 && maker.account == m.account {
        match cfg.selfCross {
          case CancelNewest =>
            return 0, [], 0, true;
          case CancelOldest =>
            return maker.remaining, [], rem, false;
          case DecrementTrade =>
            out := [SelfTrade(m.id, maker.id, m.account, px, q, hot.seqNo + 1)];
        }
      } else {
        out := [Fill(maker.id, m.id, px, q, hot.seqNo + 1), Trade(px, q, hot.seqNo + 1)];
      }
      rem', aborted := rem - q, false;
    }

    /** The aggressor meets the front maker of level px. */
    method MatchFront(m: Submit, px: nat, maker: Order, rem: nat) returns (rem': nat, aborted: bool)
      requires ValidBut(Opposite(m.s), px) && rem > 0 && px < vault.now.Ticks()
      requires vault.now.Of(Opposite(m.s))[px] != [] && vault.now.Of(Opposite(m.s))[px][0].o == maker
      modifies this`hot, this`log, vault, vault.store.Repr
      ensures ValidBut(Opposite(m.s), px)
      ensures Spec.Progress(Abs(), rem', aborted) == Spec.MatchFront(old(Abs()), m, px, rem)
    {
      var q, out;
      q, out, rem', aborted := Meet(m, maker, px, rem);
      if !aborted {
        vault.ReduceFront(Opposite(m.s), px, q);
        log := log + out;
        hot := hot.(dirty := true, seqNo := if out == [] then hot.seqNo else hot.seqNo + 1);
      }
    }

    /** A turn of the inner loop, and the maker it comes to next. */
    method MatchTurn(m: Submit, px: nat, maker: Order, left: nat, ghost st: Spec.State, ghost rem: nat)
      returns (left': nat, aborted: bool, front: Option<Order>)
      requires ValidBut(Opposite(m.s), px) && left > 0 && px < vault.now.Ticks()
      requires vault.now.Of(Opposite(m.s))[px] != [] && vault.now.Of(Opposite(m.s))[px][0].o == maker
      requires Spec.OnLevel(st, m, px, rem, Abs(), left, false)
      modifies this`hot, this`log, vault, vault.store.Repr
      ensures ValidBut(Opposite(m.s), px) && px < vault.now.Ticks()
              && Spec.OnLevel(st, m, px, rem, Abs(), left', aborted)
      ensures front == if vault.now.Of(Opposite(m.s))[px] == [] then None
              else Some(vault.now.Of(Opposite(m.s))[px][0].o)
      ensures aborted || left' < left ||
              (left' == left && Count(vault.now.Of(Opposite(m.s))) < Count(old(vault.now).Of(Opposite(m.s))))
      ensures aborted ==> vault.now == old(vault.now) && left' <= left
    {
      Spec.OnLevelStep(st, m, px, rem, Abs(), left);
      left', aborted := MatchFront(m, px, maker, left);
      front := vault.OrderAt(Opposite(m.s), px, 0);
    }

    /** Walk the FIFO of the best opposite level from the front. */
    method MatchLevel(m: Submit, px: nat, rem: nat) returns (rem': nat, aborted: bool)
      requires Valid() && rem > 0 && Spec.NextPrice(Abs(), m) == Some(px)
      modifies this`hot, this`log, vault, vault.store.Repr
      ensures Valid()
      ensures var all := Spec.Match(old(Abs()), m, rem);
              if aborted then all == Spec.Progress(Abs(), rem', true) else all == Spec.Match(Abs(), m, rem')
      ensures aborted || rem' < rem ||
              (rem' == rem && Count(vault.now.Of(Opposite(m.s))) < Count(old(vault.now).Of(Opposite(m.s))))
    {
      ghost var st := Abs();
      var opp := Opposite(m.s);
      rem', aborted := rem, false;
      vault.Relax(opp, px);
      var front := vault.OrderAt(opp, px, 0);
      while rem' > 0 && front.Some? && !aborted
        invariant ValidBut(opp, px) && px < vault.now.Ticks()
        invariant front == if vault.now.Of(opp)[px] == [] then None else Some(vault.now.Of(opp)[px][0].o)
        invariant Spec.OnLevel(st, m, px, rem, Abs(), rem', aborted)
        decreases rem', Count(vault.now.Of(opp)), !aborted
      {
        rem', aborted, front := MatchTurn(m, px, front.value, rem', st, rem);
      }
      vault.Settle(opp, px);
    }

    /** Match until the aggressor is used up, gives up, or no price crosses. */
    method MatchAgainstOpposite(m: Submit) returns (rem: nat)
      requires Valid()
      modifies this`hot, this`log, vault, vault.store.Repr
      ensures Valid()
      ensures Abs() == Spec.Match(old(Abs()), m, m.qty).st && rem == Spec.Match(old(Abs()), m, m.qty).rem
    {
      ghost var st := Abs();
      var opp := Opposite(m.s);
      rem := m.qty;
      while rem > 0
        invariant Valid() && Spec.Match(st, m, m.qty) == Spec.Match(Abs(), m, rem)
        decreases rem, Count(vault.now.Of(opp))
      {
        var best := vault.BestPrice(opp);
        if best.None? || !Crosses(m.s, m.px, best.value) {
          return;
        }
        var aborted;
        rem, aborted := MatchLevel(m, best.value, rem);
        if aborted {
          return;
        }
      }
    }

    // ----- fill-or-kill precheck

    /** Add up a level order by order, as far as the self-cross policy lets it count. */
    method WalkLevel(m: Submit, px: nat, total: nat) returns (w: Spec.Walk)
      requires Valid() && px < vault.now.Ticks()
      ensures w == Spec.WalkLevel(cfg, m.account, m.qty, vault.now.Of(Opposite(m.s))[px], total)
    {
      var opp := Opposite(m.s);
      vault.Relax(opp, px);
      ghost var f := vault.now.Of(opp)[px];
      var sum: nat, k: nat := total, 0;
      var o := vault.OrderAt(opp, px, 0);
      while o.Some?
        invariant k <= |f| && o == if k < |f| then Some(f[k].o) else None
        invariant Spec.WalkLevel(cfg, m.account, m.qty, f, total) == Spec.WalkLevel(cfg, m.account, m.qty, f[k..], sum)
        decreases |f| - k
      {
        if m.account != 0 && !cfg.selfCross.DecrementTrade? && o.value.account == m.account {
          if cfg.selfCross.CancelNewest? {
            return Spec.Walk(sum, true, true);
          }
        } else {
          sum := sum + o.value.remaining;
          if sum >= m.qty {
            return Spec.Walk(sum, false, true);
          }
        }
        k := k + 1;
        o := vault.OrderAt(opp, px, k);
      }
      return Spec.Walk(sum, false, false);
    }
  
    /** Add up one level. With no account, or under decrement-trade, the cached aggregate is exact;
        otherwise the orders decide. Says whether the walk is over. */
    method ConsumeLevel(m: Submit, px: nat, total: nat, ghost rest: Ladder)
        returns (sum: nat, aborted: bool, over: bool)
      requires Valid() && px < vault.now.Ticks() && total < m.qty
      requires Best(Opposite(m.s), rest) == Some(px) && Crosses(m.s, m.px, px)
               && rest[px] == vault.now.Of(Opposite(m.s))[px]
      ensures over ==> Spec.CanFillFrom(cfg, m, rest, total) == !aborted
      ensures !over ==>
                && sum < m.qty
                && Spec.CanFillFrom(cfg, m, rest, total) == Spec.CanFillFrom(cfg, m, rest[px := []], sum)
    {
      if m.account == 0 || cfg.selfCross.DecrementTrade? {
        var q := vault.AggregateAt(Opposite(m.s), px);
        sum, aborted := total + q, false;
        over := sum >= m.qty;
        FillByAggregate(cfg, m, rest, px, total);
      } else {
        var w := WalkLevel(m, px, total);
        sum, aborted, over := w.total, w.aborted, w.done;
        FillByOrders(cfg, m, rest, px, total);
      }
    }

    /** Whether the opposite side can consume the whole order, level by level from the best price. */
    method CanFullyFill(m: Submit) returns (ok: bool)
      requires Valid() && m.qty > 0
      ensures ok == Spec.CanFill(Abs(), m)
    {
      var opp := Opposite(m.s);
      ghost var l := vault.now.Of(opp);
      ghost var rest := l;
      var total: nat := 0;
      var px := vault.BestPrice(opp);
      if px.Some? { Remaining(opp, l, px.value); }
      while px.Some? && Crosses(m.s, m.px, px.value)
        invariant total < m.qty && |rest| == |l| && px == Best(opp, rest)
        invariant px.Some? ==> rest == Beyond(opp, l, px.value)
        invariant Spec.CanFill(Abs(), m) == Spec.CanFillFrom(cfg, m, rest, total)
        decreases Count(rest)
      {
        var sum, aborted, over := ConsumeLevel(m, px.value, total, rest);
        if over {
          return !aborted;
        }
        var next := vault.NextWorse(opp, px.value);
        NextBest(opp, l, px.value, next);
        CountUpdate(rest, px.value, []);
        rest := rest[px.value := []];
        total, px := sum, next;
      }
      return false;
    }

    // ----- commands

    /** Link what is left of the order, or publish its loss when there is no room. */
    method Rest(m: Submit, rem: nat)
      requires Valid() && m.px < vault.now.Ticks() && rem > 0 && ValidId(m.id)
      modifies this`hot, this`log, vault, vault.store.Repr
      ensures Valid() && Abs() == Spec.Rest(old(Abs()), m, rem)
    {
      var ok := vault.Add(Order(m.id, rem, m.px, m.s, m.t, m.account));
      if !ok {
        log := log + [Reject(m.id, m.account, m.px, rem, hot.seqNo + 1)];
        hot := hot.(seqNo := hot.seqNo + 1);
        return;
      }
      MarkTop(m.s, m.px);
    }

    method HandleSubmit(m: Submit)
      requires Valid() && Spec.SubmitOk(Abs(), m)
      modifies this`hot, this`log, vault, vault.store.Repr
      ensures Valid() && Abs() == Spec.HandleSubmit(old(Abs()), m)
    {
      if m.t.Fok? {
        var ok := CanFullyFill(m);
        if !ok {
          return;
        }
      }
      var rem := MatchAgainstOpposite(m);
      if rem == 0 {
        return;
      }
      match m.t {
        case Ioc | Fok => return;
        case Gtc => Rest(m, rem);
      }
    }

    method OnSubmit(m: Submit)
      requires Valid() && Spec.SubmitOk(Abs(), m)
      modifies this`hot, this`log, vault, vault.store.Repr
      ensures Valid() && Abs() == Spec.OnSubmit(old(Abs()), m)
    {
      HandleSubmit(m);
      PublishTop();
    }

    method OnCancel(id: nat)
      requires Valid() && ValidId(id)
      modifies this`hot, this`log, vault, vault.store.Repr
      ensures Valid() && Abs() == Spec.OnCancel(old(Abs()), id)
    {
      var o := vault.Cancel(id);
      if o.None? {
        return;
      }
      MarkTop(o.value.s, o.value.px);
      PublishTop();
    }

    method CancelThenSubmit(id: nat, m: Submit)
      requires Valid() && ValidId(id) && Spec.SubmitOk(Abs(), m)
      modifies this`hot, this`log, vault, vault.store.Repr
      ensures Valid() && Wf(old(Abs()).b) && Abs() == Spec.OnSubmit(Spec.OnCancel(old(Abs()), id), m)
      ensures hot.depth == old(hot.depth)
    {
      OnCancel(id);
      OnSubmit(m);
    }

    /** Cancel and resubmit at the new price, with one coalesced top. */
    method Replace(id: nat, o: Order, px: nat, qty: nat)
      requires Valid() && id in vault.now.idx && ValidId(id) && o == OrderOf(vault.now, id)
      requires px < vault.now.Ticks() && 1 <= qty <= cfg.maxOrderQty
      modifies this`hot, this`log, vault, vault.store.Repr
      ensures Valid() && Abs() == Spec.Replace(old(Abs()), id, px, qty)
    {
      hot := hot.(depth := hot.depth + 1);
      CancelThenSubmit(id, Submit(id, px, qty, o.s, o.t, o.account));
      hot := hot.(depth := hot.depth - 1);
      PublishTop();
    }

    method OnModify(m: Modify)
      requires Valid() && Spec.ModifyOk(Abs(), m)
      modifies this`hot, this`log, vault, vault.store.Repr
      ensures Valid() && Abs() == Spec.OnModify(old(Abs()), m)
    {
      var slot;
      if m.newId != 0 && m.newId != m.id {
        slot := vault.Rename(m.id, m.newId);
      } else {
        slot := vault.Lookup(m.id);
      }
      if slot.Some? {
        Reprice(m, slot.value);
      }
    }

    /** What a modify does to the order once it carries its new id. */
    method Reprice(m: Modify, slot: nat)
      requires Valid() && Spec.ModifyOk(Abs(), m)
      requires Spec.EffectiveId(m) in vault.now.idx && vault.now.idx[Spec.EffectiveId(m)].slot == slot
      modifies this`hot, this`log, vault, vault.store.Repr
      ensures Valid() && Abs() == Spec.Reprice(old(Abs()), m)
    {
      ghost var id := Spec.EffectiveId(m);
      var o := vault.Get(slot, id);
      if m.newPx == o.px {
        if m.newQty == o.remaining {
          return;
        }
        vault.Resize(slot, m.newQty, id);
        MarkTop(o.s, o.px);
        PublishTop();
        return;
      }
      var best := vault.BestPrice(Opposite(o.s));
      if best.None? || !Crosses(o.s, m.newPx, best.value) {
        vault.Relink(slot, m.newPx, m.newQty, id);
        MarkTop(o.s, o.px);
        MarkTop(o.s, m.newPx);
        PublishTop();
        return;
      }
      Replace(o.id, o, m.newPx, m.newQty);
    }

    /** Dispatch one command. */
    method Apply(c: Command)
      requires Valid() && Spec.CommandOk(Abs(), c)
      modifies this`hot, this`log, vault, vault.store.Repr
      ensures Valid() && Abs() == Spec.Step(old(Abs()), c)
    {
      match c {
        case CmdSubmit(m) => OnSubmit(m);
        case CmdCancel(id) => OnCancel(id);
        case CmdModify(m) => OnModify(m);
      }
    }

    /** Apply a claimed batch in order. */
    method ApplyBatch(cs: seq<Command>)
      requires Valid() && Spec.RunOk(Abs(), cs)
      modifies this`hot, this`log, vault, vault.store.Repr
      ensures Valid() && Abs() == Spec.Run(old(Abs()), cs)
    {
      ghost var st := Abs();
      var i := 0;
      while i < |cs|
        invariant 0 <= i <= |cs| && Valid()
        invariant Spec.RunOk(Abs(), cs[i..]) && Spec.Run(Abs(), cs[i..]) == Spec.Run(st, cs)
      {
        ghost var at := Abs();
        Apply(cs[i]);
        Spec.RunTail(at, Abs(), cs[i..]);
        assert cs[i..][1..] == cs[i + 1..];
        i := i + 1;
      }
    }
  }

  /** The levels of a side that are not better than px. */
  ghost function Beyond(s: Side, l: Ladder, px: nat): (r: Ladder)
    ensures |r| == |l|
  {
    seq(|l|, p requires 0 <= p < |l| => if Better(s, p, px) then [] else l[p])
  }

  lemma Remaining(s: Side, l: Ladder, px: nat)
    requires IsBest(s, l, px)
    ensures Beyond(s, l, px) == l
  {
  }

  /** Past a level the walk goes on with the best of the worse ones. */
  lemma NextBest(s: Side, l: Ladder, px: nat, next: Option<nat>)
    requires px < |l|
    requires next.None? ==> forall p: nat | p < |l| && Better(s, px, p) :: l[p] == []
    requires next.Some? ==>
               && next.value < |l| && l[next.value] != [] && Better(s, px, next.value)
               && forall p: nat | p < |l| && l[p] != [] && Better(s, px, p) :: !Better(s, p, next.value)
    ensures var r := Beyond(s, l, px)[px := []];
            Best(s, r) == next && (next.Some? ==> r == Beyond(s, l, next.value))
  {
    var r := Beyond(s, l, px)[px := []];
    if next.Some? {
      assert r[next.value] != [];
      BestUnique(s, r, next.value);
      assert forall p: nat | p < |l| :: r[p] == Beyond(s, l, next.value)[p];
    } else {
      BestNone(s, r);
    }
  }

  /** One level of the precheck when every order counts. */
  lemma FillByAggregate(cfg: Config, m: Submit, l: Ladder, px: nat, total: nat)
    requires Best(Opposite(m.s), l) == Some(px) && Crosses(m.s, m.px, px) && total < m.qty
    requires m.account == 0 || cfg.selfCross.DecrementTrade?
    ensures var sum := total + FifoQty(l[px]);
            Spec.CanFillFrom(cfg, m, l, total) == (sum >= m.qty || Spec.CanFillFrom(cfg, m, l[px := []], sum))
  {
    WalkAll(cfg, m.account, m.qty, l[px], total);
  }

  /** One level of the precheck when the orders decide. */
  lemma FillByOrders(cfg: Config, m: Submit, l: Ladder, px: nat, total: nat)
    requires Best(Opposite(m.s), l) == Some(px) && Crosses(m.s, m.px, px) && total < m.qty
    ensures var w := Spec.WalkLevel(cfg, m.account, m.qty, l[px], total);
            && Spec.CanFillFrom(cfg, m, l, total) ==
                 (if w.done then !w.aborted else Spec.CanFillFrom(cfg, m, l[px := []], w.total))
            && (!w.done ==> w.total < m.qty)
  {
    WalkDone(cfg, m.account, m.qty, l[px], total);
  }

  /** When every order counts, the aggregate decides as the walk would. */
  lemma {:induction false} WalkAll(cfg: Config, account: nat, want: nat, f: seq<Node>, total: nat)
    requires total < want && (account == 0 || cfg.selfCross.DecrementTrade?)
    ensures var w := Spec.WalkLevel(cfg, account, want, f, total);
            && !w.aborted
            && (w.done <==> total + FifoQty(f) >= want)
            && (w.done ==> w.total >= want)
            && (!w.done ==> w.total == total + FifoQty(f))
  {
    if f != [] && total + f[0].o.remaining < want {
      WalkAll(cfg, account, want, f[1..], total + f[0].o.remaining);
    }
  }

  lemma {:induction false} WalkDone(cfg: Config, account: nat, want: nat, f: seq<Node>, total: nat)
    requires total < want
    ensures var w := Spec.WalkLevel(cfg, account, want, f, total);
            && (w.done && !w.aborted ==> w.total >= want)
            && (!w.done ==> !w.aborted && w.total < want)
  {
    if f != [] {
      if Spec.Unfillable(cfg, account, f[0].o) {
        WalkDone(cfg, account, want, f[1..], total);
      } else if total + f[0].o.remaining < want {
        WalkDone(cfg, account, want, f[1..], total + f[0].o.remaining);
      }
    }
  }
}
