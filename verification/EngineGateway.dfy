/** The gateway's dispatch on the engine object. */
module EngineGateway {
  import opened Types
  import opened Books
  import opened Engines
  import Stream
  import opened Gateway

  /** Fold what has been published since `from`, in order. */
  method Accumulate(log: seq<Event>, from: nat) returns (a: Accum)
    requires from <= |log|
    ensures a == PublishAll(log[from..])
  {
    a := RESET;
    var i := from;
    while i < |log|
      invariant from <= i <= |log| && a == PublishAll(log[from..i])
    {
      assert log[from..i + 1][..i - from] == log[from..i];
      a := Publish(a, log[i]);
      i := i + 1;
    }
    assert log[from..i] == log[from..];
  }

  /** Validate one record, run its command, and fill the acknowledgement. */
  method ApplyOrder(e: Engine, wo: WireOrder, ticks: nat) returns (ack: Ack)
    requires e.Valid() && Wf(e.vault.now) && ticks == e.vault.now.Ticks()
    modifies e`hot, e`log, e.vault, e.vault.store.Repr
    ensures e.Valid() && (e.Abs(), ack) == Apply(old(e.Abs()), wo)
  {
    if !Validate(wo, ticks, e.cfg.maxOrderQty) {
      return Ack(wo.id, 0, 0, REJECTED);
    }
    var mark := |e.log|;
    Stream.StepStreams(e.Abs(), Decode(wo));
    e.Apply(Decode(wo));
    var a := Accumulate(e.log, mark);
    ack := Ack(wo.id, a.filled, a.lastPx, Status(wo, a));
  }
}
