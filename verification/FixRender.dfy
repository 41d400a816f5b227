/** Writing FIX messages, and reading back exactly what was written. */
module FixRender {
  import opened Types
  import opened Slices
  import opened Fix

  // ----- numbers

  function Digit(d: nat): byte
    requires d < 10
  {
    ZERO + d as byte
  }

  function Decimal(n: nat): (s: Bytes)
    ensures s != [] && AllDigits(s)
  {
    if n < 10 then [Digit(n)] else Decimal(n / 10) + [Digit(n % 10)]
  }

  lemma {:induction false} DecimalReads(n: nat)
    ensures NumberOf(Decimal(n)) == n
  {
    var s := Decimal(n);
    if n >= 10 {
      DecimalReads(n / 10);
      assert s[..|s| - 1] == Decimal(n / 10);
    }
  }

  lemma {:induction false} DecimalShort(n: nat, k: nat)
    requires k > 0 && n < Pow10(k)
    ensures |Decimal(n)| <= k
  {
    if n >= 10 {
      DecimalShort(n / 10, k - 1);
    }
  }

  lemma Short(n: nat)
    requires n <= MAX64
    ensures |Decimal(n)| <= 20 && ToUint(Decimal(n), MAX64) == Some(n)
  {
    assert Pow10(5) == 100000;
    Pow10Plus(5, 5);
    Pow10Plus(10, 10);
    DecimalShort(n, 20);
    DecimalReads(n);
  }

  // ----- fields

  datatype Field = Field(tag: nat, value: Bytes)

  predicate Clean(v: Bytes) {
    forall i | 0 <= i < |v| :: v[i] != SOH
  }

  /** Up to nine digits of tag, and a value the separator does not occur in. */
  predicate Writable(f: Field) {
    f.tag < Pow10(TAG_DIGITS) && Clean(f.value)
  }

  function WriteField(f: Field): Bytes {
    Decimal(f.tag) + [EQUALS] + f.value + [SOH]
  }

  lemma FieldReads(f: Field, more: Bytes)
    requires Writable(f)
    ensures FieldOf(WriteField(f) + more) == Read(f.tag, f.value, |WriteField(f)|)
  {
    var tag, s := Decimal(f.tag), WriteField(f) + more;
    var d, k := |tag|, |f.value|;
    DecimalShort(f.tag, TAG_DIGITS);
    DecimalReads(f.tag);
    assert s[..d] == tag;
    assert s[d + 1..d + 1 + k] == f.value;
    assert forall i | d + 1 <= i < d + 1 + k :: s[i] == f.value[i - d - 1];
    FieldIs(s, d, k);
  }

  function WriteFields(fs: seq<Field>): Bytes {
    if fs == [] then [] else WriteField(fs[0]) + WriteFields(fs[1..])
  }

  /** What a body says, field by field. */
  function NoteAll(f: Fields, fs: seq<Field>): Collected
    decreases |fs|
  {
    if fs == [] then All(f) else
    var g := Note(f, fs[0].tag, fs[0].value);
    if g.None? then Failed(BadFieldValue) else NoteAll(g.value, fs[1..])
  }

  lemma {:induction false} FieldsRead(f: Fields, fs: seq<Field>)
    requires forall x | x in fs :: Writable(x)
    ensures Collect(WriteFields(fs), f) == NoteAll(f, fs)
    decreases |fs|
  {
    if fs != [] {
      var s, head := WriteFields(fs), WriteField(fs[0]);
      assert fs[0] in fs;
      FieldReads(fs[0], WriteFields(fs[1..]));
      assert s[|head|..] == WriteFields(fs[1..]);
      var g := Note(f, fs[0].tag, fs[0].value);
      if g.Some? {
        FieldsRead(g.value, fs[1..]);
      }
    }
  }

  // ----- messages

  /** Two digits are not enough: the checksum always has three. */
  function ThreeDigits(n: nat): Bytes
    requires n < 1000
  {
    [Digit(n / 100), Digit(n / 10 % 10), Digit(n % 10)]
  }

  lemma HundredsTensOnes(n: nat)
    ensures n == 10 * (10 * (n / 100) + n / 10 % 10) + n % 10
  {
  }

  lemma ReadThree(a: byte, b: byte, c: byte)
    requires IsDigit(a) && IsDigit(b) && IsDigit(c)
    ensures AllDigits([a, b, c])
    ensures NumberOf([a, b, c]) == 10 * (10 * (a - ZERO) as nat + (b - ZERO) as nat) + (c - ZERO) as nat
  {
    assert [a, b, c][..2] == [a, b] && [a, b][..1] == [a] && [a][..0] == [];
    assert NumberOf([a]) == (a - ZERO) as nat;
    assert NumberOf([a, b]) == 10 * NumberOf([a]) + (b - ZERO) as nat;
  }

  lemma ThreeDigitsRead(n: nat)
    requires n < 1000
    ensures ToUint(ThreeDigits(n), MAX32) == Some(n)
  {
    HundredsTensOnes(n);
    ReadThree(Digit(n / 100), Digit(n / 10 % 10), Digit(n % 10));
  }

  function WriteBody(msgType: Bytes, fs: seq<Field>): Bytes {
    WriteField(Field(35, msgType)) + WriteFields(fs)
  }

  function WriteHead(body: Bytes): Bytes {
    WriteField(Field(8, FIX44)) + WriteField(Field(9, Decimal(|body|)))
  }

  function WriteTrailer(s: Bytes): Bytes {
    CHECKSUM_TAG + ThreeDigits(Sum(s) % 256) + [SOH]
  }

  function WriteMessage(msgType: Bytes, fs: seq<Field>): Bytes {
    var body := WriteBody(msgType, fs);
    WriteHead(body) + body + WriteTrailer(WriteHead(body) + body)
  }

  predicate WritableMessage(msgType: Bytes, fs: seq<Field>) {
    Clean(msgType) && (forall x | x in fs :: Writable(x)) && |WriteBody(msgType, fs)| <= MAX_MESSAGE
  }

  lemma BodyReads(msgType: Bytes, fs: seq<Field>)
    requires WritableMessage(msgType, fs)
    ensures var c := NoteAll(NO_FIELDS, fs);
            BodyOf(WriteBody(msgType, fs)) == if c.Failed? then Wrong(c.err) else CommandOf(msgType, c.f)
  {
    Pow10Nine();
    var f, body := Field(35, msgType), WriteBody(msgType, fs);
    FieldReads(f, WriteFields(fs));
    assert body[|WriteField(f)|..] == WriteFields(fs);
    FieldsRead(NO_FIELDS, fs);
  }

  lemma LengthReads(pre: Bytes, n: nat, more: Bytes)
    requires n <= MAX_MESSAGE && |more| >= n + CHECKSUM_WIDTH
    ensures var f := WriteField(Field(9, Decimal(n)));
            LengthOf(pre + f + more, |pre|) == Framed(|pre| + |f|, |pre| + |f| + n + CHECKSUM_WIDTH)
  {
    Pow10Nine();
    var f := Field(9, Decimal(n));
    DecimalSmall(9, n);
    Short(n);
    var buf := pre + WriteField(f) + more;
    assert buf[|pre|..] == WriteField(f) + more;
    FieldReads(f, more);
  }

  lemma HeadReads(body: Bytes, more: Bytes)
    requires |body| <= MAX_MESSAGE && |more| >= |body| + CHECKSUM_WIDTH
    ensures var h := WriteHead(body);
            FrameOf(h + more) == Framed(|h|, |h| + |body| + CHECKSUM_WIDTH)
  {
    Pow10Nine();
    var f8 := Field(8, FIX44);
    var f9 := WriteField(Field(9, Decimal(|body|)));
    var buf := WriteHead(body) + more;
    assert buf == WriteField(f8) + (f9 + more);
    FieldReads(f8, f9 + more);
    LengthReads(WriteField(f8), |body|, more);
    assert buf == WriteField(f8) + f9 + more;
  }

  /** A message that was written is read as what its fields say, whatever follows it. */
  lemma MessageReads(msgType: Bytes, fs: seq<Field>, more: Bytes)
    requires WritableMessage(msgType, fs)
    ensures var c := NoteAll(NO_FIELDS, fs);
            var v := if c.Failed? then Wrong(c.err) else CommandOf(msgType, c.f);
            var msg := WriteMessage(msgType, fs);
            Parse(msg + more) == if v.Wrong? then Refused(v.err) else Accepted(v.cmd, |msg|)
  {
    var body := WriteBody(msgType, fs);
    var head, msg := WriteHead(body), WriteMessage(msgType, fs);
    var trailer := WriteTrailer(head + body);
    MessageChecks(head, body, msg);
    Regroup(head, body, trailer);
    Regroup(head, body + trailer, more);
    HeadReads(body, body + trailer + more);
    TakeAppend(msg, more, |msg|);
    BodyReads(msgType, fs);
  }

  lemma TrailerParts(s: Bytes, tag: Bytes, digits: Bytes, msg: Bytes)
    requires |tag| == 3 && |digits| == 3 && msg == s + (tag + digits + [SOH])
    ensures |msg| == |s| + CHECKSUM_WIDTH && msg[..|s|] == s && msg[|s|..|s| + 3] == tag
    ensures msg[|s| + 3..|s| + 6] == digits && msg[|msg| - 1] == SOH
  {
    Middle(s, tag, digits + [SOH]);
    Middle(s + tag, digits, [SOH]);
    assert msg == s + tag + (digits + [SOH]);
    assert msg == (s + tag) + digits + [SOH];
  }

  lemma MessageIs(msg: Bytes, start: nat, s: Bytes, body: Bytes)
    requires |msg| == |s| + CHECKSUM_WIDTH && start <= |s| && msg[..|s|] == s && msg[start..|s|] == body
    requires msg[|s|..|s| + 3] == CHECKSUM_TAG && msg[|msg| - 1] == SOH
    requires ToUint(msg[|s| + 3..|s| + 6], MAX32) == Some(Sum(s) % 256)
    ensures MessageOf(msg, start) == BodyOf(body)
  {
  }

  /** The trailer of a written message matches it, and its body is found again. */
  lemma MessageChecks(head: Bytes, body: Bytes, msg: Bytes)
    requires msg == head + body + WriteTrailer(head + body)
    ensures |head| + CHECKSUM_WIDTH <= |msg| && MessageOf(msg, |head|) == BodyOf(body)
  {
    var s := head + body;
    TrailerParts(s, CHECKSUM_TAG, ThreeDigits(Sum(s) % 256), msg);
    ThreeDigitsRead(Sum(s) % 256);
    Middle(head, body, WriteTrailer(s));
    MessageIs(msg, |head|, s, body);
  }

  // ----- commands

  /** A command within the field widths, with proper ids; quantities may be anything, zero included. */
  predicate Encodable(c: Command) {
    match c
    case CmdSubmit(m) => ValidId(m.id) && m.px <= MAX32 && m.qty <= MAX64 && m.account <= MAX32
    case CmdCancel(id) => ValidId(id)
    case CmdModify(m) => ValidId(m.id) && ValidId(m.newId) && m.newPx <= MAX32 && m.newQty <= MAX64
  }

  function TypeOf(c: Command): Bytes {
    match c case CmdSubmit(_) => NEW_ORDER case CmdCancel(_) => CANCEL case CmdModify(_) => REPLACE
  }

  function FieldsOf(c: Command): seq<Field> {
    match c
    case CmdSubmit(m) =>
      [Field(11, Decimal(m.id)), Field(54, if m.s.Bid? then ONE else TWO), Field(38, Decimal(m.qty)),
       Field(44, Decimal(m.px)), Field(59, if m.t.Gtc? then ONE else if m.t.Ioc? then THREE else FOUR),
       Field(1, Decimal(m.account))]
    case CmdCancel(id) => [Field(41, Decimal(id))]
    case CmdModify(m) =>
      [Field(11, Decimal(m.newId)), Field(41, Decimal(m.id)), Field(38, Decimal(m.newQty)), Field(44, Decimal(m.newPx))]
  }

  function Render(c: Command): Bytes {
    WriteMessage(TypeOf(c), FieldsOf(c))
  }

  /** One field in front of the rest. */
  lemma NoteOn(f: Fields, fs: seq<Field>, g: Fields, rest: seq<Field>)
    requires fs != [] && Note(f, fs[0].tag, fs[0].value) == Some(g) && fs[1..] == rest
    ensures NoteAll(f, fs) == NoteAll(g, rest)
  {
  }

  lemma SubmitNotedRest(m: Submit, f: Fields)
    requires Encodable(CmdSubmit(m))
    ensures NoteAll(f, FieldsOf(CmdSubmit(m))[3..]) == All(f.(px := Some(m.px), tif := m.t, account := m.account))
  {
    Short(m.px); Short(m.account);
    var fs := FieldsOf(CmdSubmit(m));
    var f4 := f.(px := Some(m.px));
    var f5 := f4.(tif := m.t);
    NoteOn(f, fs[3..], f4, fs[4..]);
    NoteOn(f4, fs[4..], f5, fs[5..]);
    NoteOn(f5, fs[5..], f5.(account := m.account), []);
  }

  lemma SubmitNoted(m: Submit)
    requires Encodable(CmdSubmit(m))
    ensures NoteAll(NO_FIELDS, FieldsOf(CmdSubmit(m))) ==
            All(Fields(Some(m.id), None, Some(m.qty), Some(m.px), Some(m.s), m.t, m.account))
  {
    Short(m.id); Short(m.qty);
    var fs := FieldsOf(CmdSubmit(m));
    var f1 := NO_FIELDS.(clOrdId := Some(m.id));
    var f2 := f1.(side := Some(m.s));
    var f3 := f2.(qty := Some(m.qty));
    NoteOn(NO_FIELDS, fs, f1, fs[1..]);
    NoteOn(f1, fs[1..], f2, fs[2..]);
    NoteOn(f2, fs[2..], f3, fs[3..]);
    SubmitNotedRest(m, f3);
  }

  lemma ModifyNoted(m: Modify)
    requires Encodable(CmdModify(m))
    ensures NoteAll(NO_FIELDS, FieldsOf(CmdModify(m))) ==
            All(NO_FIELDS.(clOrdId := Some(m.newId), origId := Some(m.id), qty := Some(m.newQty), px := Some(m.newPx)))
  {
    Short(m.id); Short(m.newId); Short(m.newQty); Short(m.newPx);
    var fs := FieldsOf(CmdModify(m));
    var f1 := NO_FIELDS.(clOrdId := Some(m.newId));
    var f2 := f1.(origId := Some(m.id));
    var f3 := f2.(qty := Some(m.newQty));
    NoteOn(NO_FIELDS, fs, f1, fs[1..]);
    NoteOn(f1, fs[1..], f2, fs[2..]);
    NoteOn(f2, fs[2..], f3, fs[3..]);
    NoteOn(f3, fs[3..], f3.(px := Some(m.newPx)), []);
  }

  lemma CancelNoted(id: nat)
    requires ValidId(id)
    ensures NoteAll(NO_FIELDS, FieldsOf(CmdCancel(id))) == All(NO_FIELDS.(origId := Some(id)))
  {
    Short(id);
    NoteOn(NO_FIELDS, FieldsOf(CmdCancel(id)), NO_FIELDS.(origId := Some(id)), []);
  }

  /** A field of the messages: a short tag, a short clean value. */
  predicate Small(f: Field) {
    f.tag < 100 && |f.value| <= 20 && Clean(f.value)
  }

  lemma DecimalSmall(tag: nat, n: nat)
    requires tag < 100 && n <= MAX64
    ensures Small(Field(tag, Decimal(n)))
  {
    Short(n);
    assert forall i | 0 <= i < |Decimal(n)| :: IsDigit(Decimal(n)[i]);
  }

  lemma FieldsSmall(c: Command)
    requires Encodable(c)
    ensures forall f | f in FieldsOf(c) :: Small(f)
  {
    match c
    case CmdSubmit(m) =>
      DecimalSmall(11, m.id); DecimalSmall(38, m.qty); DecimalSmall(44, m.px); DecimalSmall(1, m.account);
    case CmdCancel(id) => DecimalSmall(41, id);
    case CmdModify(m) =>
      DecimalSmall(11, m.newId); DecimalSmall(41, m.id); DecimalSmall(38, m.newQty); DecimalSmall(44, m.newPx);
  }

  lemma SmallLength(f: Field)
    requires Small(f)
    ensures |WriteField(f)| <= 24 && Writable(f)
  {
    assert Pow10(2) == 100;
    DecimalShort(f.tag, 2);
    Pow10Nine();
  }

  lemma {:induction false} SmallFields(fs: seq<Field>)
    requires forall f | f in fs :: Small(f)
    ensures |WriteFields(fs)| <= 24 * |fs| && forall f | f in fs :: Writable(f)
  {
    if fs != [] {
      assert fs[0] in fs;
      SmallLength(fs[0]);
      SmallFields(fs[1..]);
    }
  }

  lemma RenderWritable(c: Command)
    requires Encodable(c)
    ensures WritableMessage(TypeOf(c), FieldsOf(c))
  {
    FieldsSmall(c);
    SmallFields(FieldsOf(c));
    SmallLength(Field(35, TypeOf(c)));
  }

  /** Whatever follows it, a rendered command is read back as that command, and exactly its bytes are
      consumed. */
  lemma RoundTrip(c: Command, more: Bytes)
    requires Encodable(c)
    ensures Parse(Render(c) + more) == Accepted(c, |Render(c)|)
  {
    RenderWritable(c);
    MessageReads(TypeOf(c), FieldsOf(c), more);
    match c
    case CmdSubmit(m) => SubmitNoted(m);
    case CmdCancel(id) => CancelNoted(id);
    case CmdModify(m) => ModifyNoted(m);
  }

  // ----- streams

  function RenderAll(cs: seq<Command>): Bytes {
    if cs == [] then [] else Render(cs[0]) + RenderAll(cs[1..])
  }

  /** A stream of rendered commands drains to exactly those, and to nothing else. */
  lemma {:induction false} StreamReads(cs: seq<Command>)
    requires forall c | c in cs :: Encodable(c)
    ensures Drain(RenderAll(cs)) == Drained(cs, [], false)
  {
    if cs != [] {
      assert cs[0] in cs;
      RoundTrip(cs[0], RenderAll(cs[1..]));
      DrainOn(RenderAll(cs), cs[0], |Render(cs[0])|, RenderAll(cs[1..]));
      StreamReads(cs[1..]);
      assert cs == [cs[0]] + cs[1..];
    }
  }

  /** Cut anywhere, the two parts together still drain to exactly the commands: the first part to a
      first stretch of them without failing, and what it left with the second part to the rest. */
  lemma StreamCut(cs: seq<Command>, k: nat)
    requires (forall c | c in cs :: Encodable(c)) && k <= |RenderAll(cs)|
    ensures var s := RenderAll(cs);
            var d := Drain(s[..k]);
            var e := Drain(d.rest + s[k..]);
            !d.failed && !e.failed && d.cmds + e.cmds == cs && e.rest == []
  {
    var s := RenderAll(cs);
    assert s == s[..k] + s[k..];
    StreamReads(cs);
    DrainCut(s[..k], s[k..]);
  }

  // ----- streams in chunks

  function Concat(chunks: seq<Bytes>): Bytes {
    if chunks == [] then [] else chunks[0] + Concat(chunks[1..])
  }

  /** What a caller gets that holds on to what it is left with and adds chunk after chunk. */
  function Feed(held: Bytes, chunks: seq<Bytes>): Drained
    decreases |chunks|
  {
    if chunks == [] then Drained([], held, false) else
    var d := Drain(held + chunks[0]);
    if d.failed then d else
    var e := Feed(d.rest, chunks[1..]);
    Drained(d.cmds + e.cmds, e.rest, e.failed)
  }

  /** What draining leaves holds no message. */
  lemma {:induction false} DrainRests(buf: Bytes)
    ensures !Drain(buf).failed ==> Drain(Drain(buf).rest) == Drained([], Drain(buf).rest, false)
    decreases |buf|
  {
    if Parse(buf).Accepted? {
      DrainRests(buf[Parse(buf).consumed..]);
    }
  }

  /** Chunk by chunk, the caller gets what the whole stream holds, and fails where it does. */
  lemma {:induction false} FeedIsDrain(held: Bytes, chunks: seq<Bytes>)
    requires Drain(held) == Drained([], held, false)
    ensures var all, fed := Drain(held + Concat(chunks)), Feed(held, chunks);
            fed.cmds == all.cmds && fed.failed == all.failed && (!all.failed ==> fed.rest == all.rest)
    decreases |chunks|
  {
    if chunks == [] {
      assert held + [] == held;
    } else {
      var a, more := held + chunks[0], Concat(chunks[1..]);
      Regroup(held, chunks[0], more);
      DrainCut(a, more);
      DrainRests(a);
      if !Drain(a).failed {
        FeedIsDrain(Drain(a).rest, chunks[1..]);
      }
    }
  }

  /** However a stream of rendered commands is cut into chunks, the caller gets exactly the commands. */
  lemma StreamChunks(cs: seq<Command>, chunks: seq<Bytes>)
    requires (forall c | c in cs :: Encodable(c)) && Concat(chunks) == RenderAll(cs)
    ensures Feed([], chunks) == Drained(cs, [], false)
  {
    StreamReads(cs);
    assert [] + Concat(chunks) == RenderAll(cs);
    assert Parse([]) == Refused(Incomplete);
    FeedIsDrain([], chunks);
  }

  // ----- what is accepted

  predicate InRange(f: Fields) {
    && (f.clOrdId.Some? ==> ValidId(f.clOrdId.value)) && (f.origId.Some? ==> ValidId(f.origId.value))
    && (f.qty.Some? ==> f.qty.value <= MAX64) && (f.px.Some? ==> f.px.value <= MAX32) && f.account <= MAX32
  }

  lemma NoteInRange(f: Fields, tag: nat, v: Bytes)
    requires InRange(f) && Note(f, tag, v).Some?
    ensures InRange(Note(f, tag, v).value)
  {
  }

  lemma {:induction false} CollectInRange(body: Bytes, f: Fields)
    requires InRange(f)
    ensures var c := Collect(body, f); c.All? ==> InRange(c.f)
    decreases |body|
  {
    var x := FieldOf(body);
    if body != [] && x.Read? {
      var g := Note(f, x.tag, x.value);
      if g.Some? {
        NoteInRange(f, x.tag, x.value);
        CollectOn(body, f, x, g.value, body[x.size..]);
        CollectInRange(body[x.size..], g.value);
      }
    }
  }

  lemma BodyInRange(body: Bytes)
    requires BodyOf(body).Good?
    ensures Encodable(BodyOf(body).cmd)
  {
    CollectInRange(body[FieldOf(body).size..], NO_FIELDS);
  }

  lemma MessageInRange(msg: Bytes, start: nat)
    requires start + CHECKSUM_WIDTH <= |msg| && MessageOf(msg, start).Good?
    ensures Encodable(MessageOf(msg, start).cmd)
  {
    BodyInRange(msg[start..|msg| - CHECKSUM_WIDTH]);
  }

  /** Every accepted message stands for a command within the field widths and with proper ids, so it
      reads as the rendering of that command would. */
  lemma AcceptedInRange(buf: Bytes, c: Command, n: nat)
    requires Parse(buf) == Accepted(c, n)
    ensures Encodable(c) && Parse(Render(c)) == Accepted(c, |Render(c)|)
  {
    MessageInRange(buf[..FrameOf(buf).total], FrameOf(buf).start);
    RoundTrip(c, []);
    assert Render(c) + [] == Render(c);
  }

  // ----- quantities

  /** The value of the last field of a body that has the tag. */
  function LastValue(body: Bytes, tag: nat): Option<Bytes>
    decreases |body|
  {
    if body == [] || !FieldOf(body).Read? then None else
    var x := FieldOf(body);
    var later := LastValue(body[x.size..], tag);
    if later.Some? then later else if x.tag == tag then Some(x.value) else None
  }

  lemma NoteQuantity(f: Fields, tag: nat, v: Bytes)
    requires Note(f, tag, v).Some?
    ensures Note(f, tag, v).value.qty == if tag == 38 then ToUint(v, MAX64) else f.qty
    ensures tag == 38 ==> ToUint(v, MAX64).Some?
  {
  }

  /** The last quantity field is the one that counts. */
  lemma {:induction false} CollectQuantity(body: Bytes, f: Fields)
    requires Collect(body, f).All?
    ensures var v := LastValue(body, 38);
            if v.Some? then ToUint(v.value, MAX64).Some? && Collect(body, f).f.qty == ToUint(v.value, MAX64)
            else Collect(body, f).f.qty == f.qty
    decreases |body|
  {
    if body != [] {
      var x := FieldOf(body);
      CollectFails(body, f);
      var g := Note(f, x.tag, x.value).value;
      NoteQuantity(f, x.tag, x.value);
      CollectOn(body, f, x, g, body[x.size..]);
      CollectQuantity(body[x.size..], g);
    }
  }

  predicate AllZeros(v: Bytes) {
    forall i | 0 <= i < |v| :: v[i] == ZERO
  }

  lemma {:induction false} ZeroNumber(v: Bytes)
    requires AllDigits(v)
    ensures NumberOf(v) == 0 <==> AllZeros(v)
  {
    if v != [] {
      var w, k := v[..|v| - 1], |v| - 1;
      ZeroNumber(w);
      assert forall i | 0 <= i < k :: w[i] == v[i];
      assert AllZeros(v) <==> AllZeros(w) && v[k] == ZERO;
    }
  }

  /** The body of the first message. */
  function Body(buf: Bytes): Bytes
    requires FrameOf(buf).Framed?
  {
    buf[FrameOf(buf).start..FrameOf(buf).total - CHECKSUM_WIDTH]
  }

  /** The fields of a body behind the message type. */
  function FieldBytes(body: Bytes): Bytes {
    if FieldOf(body).Read? then body[FieldOf(body).size..] else []
  }

  lemma AcceptedMessage(buf: Bytes, c: Command, n: nat) returns (msg: Bytes, start: nat)
    requires Parse(buf) == Accepted(c, n)
    ensures FrameOf(buf).Framed? && start == FrameOf(buf).start && msg == buf[..FrameOf(buf).total]
    ensures start + CHECKSUM_WIDTH <= |msg| && MessageOf(msg, start) == Good(c)
    ensures Body(buf) == msg[start..|msg| - CHECKSUM_WIDTH]
  {
    var fr := FrameOf(buf);
    msg, start := buf[..fr.total], fr.start;
    TakeMiddle(buf, fr.total, fr.start, fr.total - CHECKSUM_WIDTH);
  }

  lemma MessageBody(msg: Bytes, start: nat, c: Command)
    requires start + CHECKSUM_WIDTH <= |msg| && MessageOf(msg, start) == Good(c)
    ensures BodyOf(msg[start..|msg| - CHECKSUM_WIDTH]) == Good(c)
  {
  }

  lemma AcceptedBody(buf: Bytes, c: Command, n: nat)
    requires Parse(buf) == Accepted(c, n)
    ensures FrameOf(buf).Framed? && BodyOf(Body(buf)) == Good(c)
  {
    var msg, start := AcceptedMessage(buf, c, n);
    MessageBody(msg, start, c);
  }

  function QuantityOf(c: Command): nat {
    match c
    case CmdSubmit(m) => m.qty
    case CmdCancel(_) => 0
    case CmdModify(m) => m.newQty
  }

  lemma BodyQuantity(body: Bytes, c: Command)
    requires BodyOf(body) == Good(c) && !c.CmdCancel?
    ensures var v := LastValue(FieldBytes(body), 38); v.Some? && (QuantityOf(c) == 0 <==> AllZeros(v.value))
  {
    CollectQuantity(FieldBytes(body), NO_FIELDS);
    var v := LastValue(FieldBytes(body), 38);
    if v.Some? {
      ZeroNumber(v.value);
    }
  }

  /** The parser does not look at quantities. An accepted order or replacement is for nothing exactly
      when the last quantity field of the message is made of zeros. */
  lemma ZeroQuantityExact(buf: Bytes, c: Command, n: nat)
    requires Parse(buf) == Accepted(c, n) && !c.CmdCancel?
    ensures FrameOf(buf).Framed?
    ensures var v := LastValue(FieldBytes(Body(buf)), 38); v.Some? && (QuantityOf(c) == 0 <==> AllZeros(v.value))
  {
    AcceptedBody(buf, c, n);
    BodyQuantity(Body(buf), c);
  }

  const EMPTY_ORDER := Submit(1, 0, 0, Bid, Gtc, 0)

  /** Such a message is accepted: this one is. */
  lemma ZeroQuantityAccepted()
    ensures Parse(Render(CmdSubmit(EMPTY_ORDER))) == Accepted(CmdSubmit(EMPTY_ORDER), |Render(CmdSubmit(EMPTY_ORDER))|)
    ensures EMPTY_ORDER.qty == 0
  {
    RoundTrip(CmdSubmit(EMPTY_ORDER), []);
    assert Render(CmdSubmit(EMPTY_ORDER)) + [] == Render(CmdSubmit(EMPTY_ORDER));
  }
}
