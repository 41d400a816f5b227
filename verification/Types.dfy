/** Commands, events and configuration of the matching engine. Prices are tick indices,
    quantities and sequence numbers are naturals. */
module Types {

  datatype Option<+T> = None | Some(value: T)

  datatype Side = Bid | Ask

  function Opposite(s: Side): Side {
    if s.Bid? then Ask else Bid
  }

  datatype Tif = Gtc | Ioc | Fok

  datatype SelfCross = CancelNewest | CancelOldest | DecrementTrade

  datatype Config = Config(maxOrderQty: nat, selfCross: SelfCross, seqBase: nat, topThrottle: bool)

  /** A resting order. account 0 means "no account". */
  datatype Order = Order(id: nat, remaining: nat, px: nat, s: Side, t: Tif, account: nat)

  datatype Submit = Submit(id: nat, px: nat, qty: nat, s: Side, t: Tif, account: nat)

  /** newId 0 keeps the order's id. */
  datatype Modify = Modify(id: nat, newPx: nat, newQty: nat, newId: nat)

  datatype Command =
    | CmdSubmit(submit: Submit)
    | CmdCancel(id: nat)
    | CmdModify(change: Modify)

  datatype Event =
    | Fill(maker: nat, taker: nat, px: nat, qty: nat, seqNo: nat)
    | Trade(px: nat, qty: nat, seqNo: nat)
    | SelfTrade(aggressor: nat, resting: nat, account: nat, px: nat, qty: nat, seqNo: nat)
    | Reject(id: nat, account: nat, px: nat, qty: nat, seqNo: nat)
    | TopOfBook(top: Top, seqNo: nat)

  /** Best prices and the quantities resting at them; 0 stands for an empty side. */
  datatype Top = Top(bidPx: nat, askPx: nat, bidQty: nat, askQty: nat)

  const MAX_ID: nat := 0xFFFF_FFFF_FFFF_FFFF

  /** Zero is the keep-the-id sentinel of a modify and 2^64 - 1 the empty-slot sentinel of the id index. */
  predicate ValidId(id: nat) {
    1 <= id < MAX_ID
  }

  function Min(a: nat, b: nat): nat {
    if a < b then a else b
  }

  /** What orders have left in all. */
  function Quantities(q: seq<Order>): nat {
    if q == [] then 0 else q[0].remaining + Quantities(q[1..])
  }

  /** Bits of a word. */
  const W: nat := 64

  /** Slot generations are 32 bits wide. */
  const GENERATIONS: nat := 0x1_0000_0000
}
