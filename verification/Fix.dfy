/** FIX 4.4 order entry: fields, framing and the three supported messages, as functions of the bytes. */
module Fix {
  import opened Types
  import opened Slices

  newtype byte = x: int | 0 <= x < 256

  type Bytes = seq<byte>

  const SOH: byte := 1
  const EQUALS: byte := 61
  const ZERO: byte := 48

  // ----- numbers

  predicate IsDigit(b: byte) {
    48 <= b <= 57
  }

  predicate AllDigits(s: Bytes) {
    forall i | 0 <= i < |s| :: IsDigit(s[i])
  }

  /** The number that digits stand for. */
  function NumberOf(s: Bytes): nat
    requires AllDigits(s)
  {
    if s == [] then 0 else 10 * NumberOf(s[..|s| - 1]) + (s[|s| - 1] - ZERO) as nat
  }

  /** A whole value read as an unsigned number of at most max. */
  function ToUint(v: Bytes, max: nat): Option<nat> {
    if v == [] || !AllDigits(v) || NumberOf(v) > max then None else Some(NumberOf(v))
  }

  function Pow10(k: nat): nat {
    if k == 0 then 1 else 10 * Pow10(k - 1)
  }

  lemma {:induction false} Pow10Plus(a: nat, b: nat)
    ensures Pow10(a + b) == Pow10(a) * Pow10(b)
  {
    if a > 0 {
      Pow10Plus(a - 1, b);
    }
  }

  lemma Pow10Nine()
    ensures Pow10(TAG_DIGITS) == 1000000000
  {
    assert Pow10(5) == 100000 && Pow10(4) == 10000;
    Pow10Plus(5, 4);
  }

  const MAX32: nat := 0xFFFF_FFFF
  const MAX64: nat := 0xFFFF_FFFF_FFFF_FFFF

  // ----- fields

  /** The length of the run of digits in front. */
  function Digits(s: Bytes): (d: nat)
    ensures d <= |s| && AllDigits(s[..d]) && (d < |s| ==> !IsDigit(s[d]))
  {
    if s == [] || !IsDigit(s[0]) then 0 else
    var d := 1 + Digits(s[1..]);
    assert forall i | 1 <= i < d :: s[i] == s[1..][i - 1];
    d
  }

  /** Where b stands first. */
  function Until(s: Bytes, b: byte): (k: nat)
    ensures k <= |s| && (k < |s| ==> s[k] == b) && forall i | 0 <= i < k :: s[i] != b
  {
    if s == [] || s[0] == b then 0 else
    var k := 1 + Until(s[1..], b);
    assert forall i | 1 <= i < k :: s[i] == s[1..][i - 1];
    k
  }

  const TAG_DIGITS: nat := 9

  /** A field `tag=value<SOH>` in front of s: what it says and how long it is, or that s ends before it
      does, or that it has no tag. */
  datatype Scan = Read(tag: nat, value: Bytes, size: nat) | NeedMore | Bad

  function FieldOf(s: Bytes): (r: Scan)
    ensures r.Read? ==> 0 < r.size <= |s|
  {
    var d := Digits(s);
    if d == |s| then NeedMore
    else if s[d] != EQUALS || d == 0 || d > TAG_DIGITS then Bad
    else
      var k := Until(s[d + 1..], SOH);
      if d + 1 + k == |s| then NeedMore else Read(NumberOf(s[..d]), s[d + 1..d + 1 + k], d + 1 + k + 1)
  }

  lemma DigitsAre(s: Bytes, d: nat)
    requires d <= |s| && AllDigits(s[..d]) && (d < |s| ==> !IsDigit(s[d]))
    ensures Digits(s) == d
  {
    var e := Digits(s);
    assert forall i | 0 <= i < e :: IsDigit(s[..e][i]) && s[..e][i] == s[i];
    assert forall i | 0 <= i < d :: IsDigit(s[..d][i]) && s[..d][i] == s[i];
  }

  lemma UntilIs(s: Bytes, b: byte, k: nat)
    requires k < |s| && s[k] == b && forall i | 0 <= i < k :: s[i] != b
    ensures Until(s, b) == k
  {
  }

  lemma UntilNone(s: Bytes, b: byte)
    requires forall i | 0 <= i < |s| :: s[i] != b
    ensures Until(s, b) == |s|
  {
  }

  lemma FieldIs(s: Bytes, d: nat, k: nat)
    requires 0 < d <= TAG_DIGITS && d + 1 + k < |s| && AllDigits(s[..d]) && s[d] == EQUALS
    requires s[d + 1 + k] == SOH && forall i | d + 1 <= i < d + 1 + k :: s[i] != SOH
    ensures FieldOf(s) == Read(NumberOf(s[..d]), s[d + 1..d + 1 + k], d + 1 + k + 1)
  {
    DigitsAre(s, d);
    UntilIs(s[d + 1..], SOH, k);
  }

  /** More bytes change nothing about a field that could be judged. */
  lemma FieldStable(s: Bytes, more: Bytes)
    requires !FieldOf(s).NeedMore?
    ensures FieldOf(s + more) == FieldOf(s)
  {
    var d := Digits(s);
    assert (s + more)[..d] == s[..d];
    DigitsAre(s + more, d);
    if FieldOf(s).Read? {
      var k := Until(s[d + 1..], SOH);
      assert (s + more)[d + 1..] == s[d + 1..] + more;
      UntilIs(s[d + 1..] + more, SOH, k);
      assert (s + more)[d + 1..d + 1 + k] == s[d + 1..d + 1 + k];
    }
  }

  /** Any shorter part of a field needs more. */
  lemma FieldPrefix(s: Bytes, k: nat)
    requires FieldOf(s).Read? && k < FieldOf(s).size
    ensures FieldOf(s[..k]) == NeedMore
  {
    var d := Digits(s);
    var p := s[..k];
    if k <= d {
      assert p == s[..d][..k];
      DigitsAre(p, k);
    } else {
      assert p[..d] == s[..d];
      DigitsAre(p, d);
      var w := p[d + 1..];
      assert |w| <= Until(s[d + 1..], SOH) && forall i | 0 <= i < |w| :: w[i] == s[d + 1..][i];
      UntilNone(w, SOH);
    }
  }

  lemma FieldExact(s: Bytes)
    requires FieldOf(s).Read?
    ensures FieldOf(s[..FieldOf(s).size]) == FieldOf(s)
  {
    var n := FieldOf(s).size;
    var d := Digits(s);
    var p := s[..n];
    assert p[..d] == s[..d];
    var k := Until(s[d + 1..], SOH);
    assert forall i | d + 1 <= i < d + 1 + k :: p[i] == s[d + 1..][i - d - 1];
    assert p[d + 1..d + 1 + k] == s[d + 1..d + 1 + k];
    FieldIs(p, d, k);
  }

  /** Any longer part holds it. */
  lemma FieldWithin(s: Bytes, k: nat)
    requires FieldOf(s).Read? && FieldOf(s).size <= k <= |s|
    ensures FieldOf(s[..k]) == FieldOf(s)
  {
    var n := FieldOf(s).size;
    FieldExact(s);
    assert s[..k] == s[..n] + s[n..k];
    FieldStable(s[..n], s[n..k]);
  }

  // ----- frames

  datatype Error =
    | Incomplete | Malformed | BadBeginString | BadBodyLength | BadChecksum
    | UnsupportedMsgType | MissingField | BadFieldValue

  /** Where the body of the first message starts and how long the message is, or why there is none. */
  datatype Frame = Framed(start: nat, total: nat) | NoFrame(err: Error)

  const MAX_MESSAGE: nat := 4096
  const CHECKSUM_WIDTH: nat := 7
  const FIX44: Bytes := [70, 73, 88, 46, 52, 46, 52]
  const CHECKSUM_TAG: Bytes := [49, 48, 61]

  function FrameOf(buf: Bytes): (r: Frame)
    ensures r.Framed? ==> r.start + CHECKSUM_WIDTH <= r.total <= |buf|
  {
    var begin := FieldOf(buf);
    if begin.NeedMore? then NoFrame(Incomplete)
    else if begin.Bad? || begin.tag != 8 then NoFrame(Malformed)
    else if begin.value != FIX44 then NoFrame(BadBeginString)
    else LengthOf(buf, begin.size)
  }

  /** The frame that the body length at position pos fixes. */
  function LengthOf(buf: Bytes, pos: nat): (r: Frame)
    requires pos <= |buf|
    ensures r.Framed? ==> pos <= r.start && r.start + CHECKSUM_WIDTH <= r.total <= |buf|
  {
    FramedBy(|buf|, pos, FieldOf(buf[pos..]))
  }

  /** The frame in a buffer of n bytes whose second field, at pos, is x. */
  function FramedBy(n: nat, pos: nat, x: Scan): (r: Frame)
    ensures r.Framed? ==> pos <= r.start && r.start + CHECKSUM_WIDTH <= r.total <= n
  {
    if x.NeedMore? then NoFrame(Incomplete)
    else if x.Bad? || x.tag != 9 then NoFrame(Malformed)
    else
      var len := ToUint(x.value, MAX64);
      if len.None? || len.value > MAX_MESSAGE then NoFrame(BadBodyLength)
      else
        var start := pos + x.size;
        if len.value > n || n < start + len.value + CHECKSUM_WIDTH then NoFrame(Incomplete)
        else Framed(start, start + len.value + CHECKSUM_WIDTH)
  }

  lemma FramedMore(n: nat, n': nat, pos: nat, x: Scan)
    requires n <= n' && FramedBy(n, pos, x) != NoFrame(Incomplete)
    ensures FramedBy(n', pos, x) == FramedBy(n, pos, x)
  {
  }

  lemma FramedLess(n: nat, k: nat, pos: nat, x: Scan)
    requires FramedBy(n, pos, x).Framed? && k < FramedBy(n, pos, x).total
    ensures FramedBy(k, pos, x) == NoFrame(Incomplete)
  {
  }

  // ----- messages

  /** What the body of a message has said so far. */
  datatype Fields = Fields(
    clOrdId: Option<nat>, origId: Option<nat>, qty: Option<nat>, px: Option<nat>,
    side: Option<Side>, tif: Tif, account: nat)

  const NO_FIELDS := Fields(None, None, None, None, None, Gtc, 0)

  function IdValue(v: Bytes): Option<nat> {
    var n := ToUint(v, MAX64);
    if n.Some? && ValidId(n.value) then n else None
  }

  const ONE: Bytes := [49]
  const TWO: Bytes := [50]
  const THREE: Bytes := [51]
  const FOUR: Bytes := [52]
  const NOUGHT: Bytes := [48]

  /** Take one field in, unless its value cannot be read. Tags that are not needed are passed over. */
  function Note(f: Fields, tag: nat, v: Bytes): Option<Fields> {
    if tag == 1 then
      var n := ToUint(v, MAX32); if n.None? then None else Some(f.(account := n.value))
    else if tag == 11 then
      var n := IdValue(v); if n.None? then None else Some(f.(clOrdId := n))
    else if tag == 41 then
      var n := IdValue(v); if n.None? then None else Some(f.(origId := n))
    else if tag == 38 then
      var n := ToUint(v, MAX64); if n.None? then None else Some(f.(qty := n))
    else if tag == 44 then
      var n := ToUint(v, MAX32); if n.None? then None else Some(f.(px := n))
    else if tag == 54 then
      if v == ONE then Some(f.(side := Some(Bid))) else if v == TWO then Some(f.(side := Some(Ask))) else None
    else if tag == 59 then
      if v == NOUGHT || v == ONE then Some(f.(tif := Gtc))
      else if v == THREE then Some(f.(tif := Ioc))
      else if v == FOUR then Some(f.(tif := Fok))
      else None
    else Some(f)
  }

  datatype Collected = All(f: Fields) | Failed(err: Error)

  function Collect(body: Bytes, f: Fields): Collected
    decreases |body|
  {
    if body == [] then All(f) else
    var x := FieldOf(body);
    if !x.Read? then Failed(Malformed) else
    var g := Note(f, x.tag, x.value);
    if g.None? then Failed(BadFieldValue) else Collect(body[x.size..], g.value)
  }

  lemma CollectFails(body: Bytes, f: Fields)
    requires body != []
    ensures !FieldOf(body).Read? ==> Collect(body, f) == Failed(Malformed)
    ensures FieldOf(body).Read? && Note(f, FieldOf(body).tag, FieldOf(body).value).None? ==>
              Collect(body, f) == Failed(BadFieldValue)
  {
  }

  /** One field in front of the rest of a body. */
  lemma CollectOn(body: Bytes, f: Fields, x: Scan, g: Fields, rest: Bytes)
    requires FieldOf(body) == x && x.Read? && Note(f, x.tag, x.value) == Some(g) && body[x.size..] == rest
    ensures Collect(body, f) == Collect(rest, g)
  {
  }

  datatype Verdict = Good(cmd: Command) | Wrong(err: Error)

  const NEW_ORDER: Bytes := [68]
  const CANCEL: Bytes := [70]
  const REPLACE: Bytes := [71]

  /** The command that a message of the given type with these fields stands for. */
  function CommandOf(msgType: Bytes, f: Fields): Verdict {
    if msgType == NEW_ORDER then
      if f.clOrdId.None? || f.side.None? || f.qty.None? || f.px.None? then Wrong(MissingField)
      else Good(CmdSubmit(Submit(f.clOrdId.value, f.px.value, f.qty.value, f.side.value, f.tif, f.account)))
    else if msgType == CANCEL then
      if f.origId.None? then Wrong(MissingField) else Good(CmdCancel(f.origId.value))
    else if msgType == REPLACE then
      if f.clOrdId.None? || f.origId.None? || f.qty.None? || f.px.None? then Wrong(MissingField)
      else Good(CmdModify(Modify(f.origId.value, f.px.value, f.qty.value, f.clOrdId.value)))
    else Wrong(UnsupportedMsgType)
  }

  function BodyOf(body: Bytes): Verdict {
    var x := FieldOf(body);
    if !x.Read? || x.tag != 35 then Wrong(Malformed) else
    var c := Collect(body[x.size..], NO_FIELDS);
    if c.Failed? then Wrong(c.err) else CommandOf(x.value, c.f)
  }

  function Sum(s: Bytes): nat {
    if s == [] then 0 else Sum(s[..|s| - 1]) + s[|s| - 1] as nat
  }

  /** A framed message: its checksum, then its body. */
  function MessageOf(msg: Bytes, start: nat): Verdict
    requires start + CHECKSUM_WIDTH <= |msg|
  {
    var cs := |msg| - CHECKSUM_WIDTH;
    if msg[cs..cs + 3] != CHECKSUM_TAG || msg[|msg| - 1] != SOH then Wrong(Malformed) else
    var stated := ToUint(msg[cs + 3..cs + 6], MAX32);
    if stated.None? then Wrong(Malformed)
    else if Sum(msg[..cs]) % 256 != stated.value then Wrong(BadChecksum)
    else BodyOf(msg[start..cs])
  }

  datatype Parsed = Accepted(cmd: Command, consumed: nat) | Refused(err: Error)

  function Parse(buf: Bytes): (r: Parsed)
    ensures r.Accepted? ==> 0 < r.consumed <= |buf|
  {
    var fr := FrameOf(buf);
    if fr.NoFrame? then Refused(fr.err) else
    var v := MessageOf(buf[..fr.total], fr.start);
    if v.Wrong? then Refused(v.err) else Accepted(v.cmd, fr.total)
  }

  // ----- the stream contract

  lemma LengthStable(buf: Bytes, pos: nat, more: Bytes)
    requires pos <= |buf| && LengthOf(buf, pos) != NoFrame(Incomplete)
    ensures LengthOf(buf + more, pos) == LengthOf(buf, pos)
  {
    DropAppend(buf, more, pos);
    FieldStable(buf[pos..], more);
    FramedMore(|buf|, |buf + more|, pos, FieldOf(buf[pos..]));
  }

  lemma FrameStable(buf: Bytes, more: Bytes)
    requires FrameOf(buf) != NoFrame(Incomplete)
    ensures FrameOf(buf + more) == FrameOf(buf)
  {
    FieldStable(buf, more);
    var begin := FieldOf(buf);
    if begin.Read? && begin.tag == 8 && begin.value == FIX44 {
      LengthStable(buf, begin.size, more);
    }
  }

  /** Every outcome but `incomplete` is final: appended bytes do not change it. */
  lemma ParseStable(buf: Bytes, more: Bytes)
    requires Parse(buf) != Refused(Incomplete)
    ensures Parse(buf + more) == Parse(buf)
  {
    if FrameOf(buf) != NoFrame(Incomplete) {
      FrameStable(buf, more);
      if FrameOf(buf).Framed? {
        TakeAppend(buf, more, FrameOf(buf).total);
      }
    }
  }

  lemma LengthPrefix(buf: Bytes, pos: nat, k: nat)
    requires pos <= k < |buf| && LengthOf(buf, pos).Framed? && k < LengthOf(buf, pos).total
    ensures LengthOf(buf[..k], pos) == NoFrame(Incomplete)
  {
    var s := buf[pos..];
    assert buf[..k][pos..] == s[..k - pos];
    if k - pos < FieldOf(s).size {
      FieldPrefix(s, k - pos);
    } else {
      FieldWithin(s, k - pos);
      FramedLess(|buf|, k, pos, FieldOf(s));
    }
  }

  lemma FramePrefix(buf: Bytes, k: nat)
    requires FrameOf(buf).Framed? && k < FrameOf(buf).total
    ensures FrameOf(buf[..k]) == NoFrame(Incomplete)
  {
    var x := FieldOf(buf);
    if k < x.size {
      FieldPrefix(buf, k);
    } else {
      FieldWithin(buf, k);
      LengthPrefix(buf, x.size, k);
    }
  }

  /** Every proper prefix of an accepted message is incomplete. */
  lemma ParsePrefix(buf: Bytes, k: nat)
    requires Parse(buf).Accepted? && k < Parse(buf).consumed
    ensures Parse(buf[..k]) == Refused(Incomplete)
  {
    FramePrefix(buf, k);
  }

  /** What a caller gets that advances past accepted messages and waits when one is incomplete: the
      commands, the bytes it is left with, and the failure that stopped it, if one did. */
  datatype Drained = Drained(cmds: seq<Command>, rest: Bytes, failed: bool)

  function Drain(buf: Bytes): Drained
    decreases |buf|
  {
    var r := Parse(buf);
    if r.Refused? then Drained([], buf, r.err != Incomplete) else
    Prepend(r.cmd, Drain(buf[r.consumed..]))
  }

  function Prepend(c: Command, d: Drained): Drained {
    Drained([c] + d.cmds, d.rest, d.failed)
  }

  /** What draining the first part of a stream, and then what it left with the second part, gives. */
  function DrainTwice(a: Bytes, b: Bytes): Drained {
    var d := Drain(a);
    if d.failed then Drained(d.cmds, d.rest + b, true) else
    var e := Drain(d.rest + b);
    Drained(d.cmds + e.cmds, e.rest, e.failed)
  }

  lemma DrainTwiceOn(a: Bytes, b: Bytes, cmd: Command, n: nat)
    requires n <= |a| && Drain(a) == Prepend(cmd, Drain(a[n..]))
    ensures DrainTwice(a, b) == Prepend(cmd, DrainTwice(a[n..], b))
  {
    var d := Drain(a[n..]);
    if !d.failed {
      Regroup([cmd], d.cmds, Drain(d.rest + b).cmds);
    }
  }

  lemma DrainRefused(a: Bytes, b: Bytes)
    requires Parse(a).Refused?
    ensures Drain(a + b) == DrainTwice(a, b)
  {
    if Parse(a) == Refused(Incomplete) {
      assert [] + Drain(a + b).cmds == Drain(a + b).cmds;
    } else {
      ParseStable(a, b);
    }
  }

  lemma DrainOn(buf: Bytes, cmd: Command, n: nat, rest: Bytes)
    requires Parse(buf) == Accepted(cmd, n) && n <= |buf| && buf[n..] == rest
    ensures Drain(buf) == Prepend(cmd, Drain(rest))
  {
  }

  lemma AcceptedOn(a: Bytes, b: Bytes, cmd: Command, n: nat)
    requires Parse(a) == Accepted(cmd, n)
    ensures n <= |a| && Parse(a + b) == Accepted(cmd, n) && (a + b)[n..] == a[n..] + b
  {
    ParseStable(a, b);
    DropAppend(a, b, n);
  }

  lemma DrainAccepted(a: Bytes, b: Bytes, cmd: Command, n: nat)
    requires n <= |a| && Parse(a) == Accepted(cmd, n) && Drain(a[n..] + b) == DrainTwice(a[n..], b)
    ensures Drain(a + b) == DrainTwice(a, b)
  {
    AcceptedOn(a, b, cmd, n);
    DrainOn(a + b, cmd, n, a[n..] + b);
    DrainOn(a, cmd, n, a[n..]);
    DrainTwiceOn(a, b, cmd, n);
  }

  /** The stream may be cut anywhere. */
  lemma {:induction false} DrainCut(a: Bytes, b: Bytes)
    ensures Drain(a + b) == DrainTwice(a, b)
    decreases |a|
  {
    if Parse(a).Refused? {
      DrainRefused(a, b);
    } else {
      DrainCut(a[Parse(a).consumed..], b);
      DrainAccepted(a, b, Parse(a).cmd, Parse(a).consumed);
    }
  }
}
