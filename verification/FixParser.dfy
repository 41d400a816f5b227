/** The FIX parser as it runs: one pass over the bytes, with cursors and flags. */
module FixParser {
  import opened Types
  import opened Slices
  import opened Fix

  /** k digits stay below the k-th power of ten. */
  lemma {:induction false} DigitsBound(s: Bytes)
    requires AllDigits(s)
    ensures NumberOf(s) < Pow10(|s|)
  {
    if s != [] {
      DigitsBound(s[..|s| - 1]);
    }
  }

  lemma {:induction false} Pow10Rises(a: nat, b: nat)
    requires a <= b
    ensures Pow10(a) <= Pow10(b)
    decreases b - a
  {
    if a < b {
      Pow10Rises(a, b - 1);
    }
  }

  /** Up to nine digits stay within 32 bits. */
  lemma NineDigits(s: Bytes)
    requires AllDigits(s) && |s| <= TAG_DIGITS
    ensures NumberOf(s) < 1000000000
  {
    DigitsBound(s);
    Pow10Rises(|s|, TAG_DIGITS);
    Pow10Nine();
  }

  lemma DigitsOn(buf: Bytes, pos: nat, i: nat)
    requires pos <= i < |buf| && AllDigits(buf[pos..i]) && IsDigit(buf[i])
    ensures AllDigits(buf[pos..i + 1]) && buf[pos..i + 1][..i - pos] == buf[pos..i]
    ensures NumberOf(buf[pos..i + 1]) == 10 * NumberOf(buf[pos..i]) + (buf[i] - ZERO) as nat
  {
    var s := buf[pos..i + 1];
    assert s[..i - pos] == buf[pos..i] && s[i - pos] == buf[i];
    forall j | 0 <= j < |s| ensures IsDigit(s[j]) {
      assert j < i - pos ==> s[j] == buf[pos..i][j];
    }
  }

  const WORD: nat := 0x1_0000_0000

  /** Read the tag from pos up to the first byte that is no digit. */
  method ScanTag(buf: Bytes, pos: nat) returns (tag: nat, i: nat)
    requires pos <= |buf|
    ensures i == pos + Digits(buf[pos..]) && AllDigits(buf[pos..i])
    ensures i - pos <= TAG_DIGITS ==> tag == NumberOf(buf[pos..i])
  {
    tag, i := 0, pos;
    while i < |buf| && IsDigit(buf[i])
      invariant pos <= i <= |buf| && AllDigits(buf[pos..i])
      invariant i - pos <= TAG_DIGITS ==> tag == NumberOf(buf[pos..i])
    {
      DigitsOn(buf, pos, i);
      if i + 1 - pos <= TAG_DIGITS {
        NineDigits(buf[pos..i + 1]);
      }
      tag := (tag * 10 + (buf[i] - ZERO) as nat) % WORD;
      i := i + 1;
    }
    assert buf[pos..][..i - pos] == buf[pos..i];
    DigitsAre(buf[pos..], i - pos);
  }

  method FindSoh(buf: Bytes, from: nat) returns (i: nat)
    requires from <= |buf|
    ensures i == from + Until(buf[from..], SOH)
  {
    i := from;
    while i < |buf| && buf[i] != SOH
      invariant from <= i <= |buf| && forall j | from <= j < i :: buf[j] != SOH
    {
      i := i + 1;
    }
    if i < |buf| {
      UntilIs(buf[from..], SOH, i - from);
    }
  }

  /** Read one field at pos. */
  method ReadField(buf: Bytes, pos: nat) returns (r: Scan)
    requires pos <= |buf|
    ensures r == FieldOf(buf[pos..])
  {
    var tag, i := ScanTag(buf, pos);
    if i == |buf| {
      return NeedMore;
    }
    if buf[i] != EQUALS || i == pos || i - pos > TAG_DIGITS {
      return Bad;
    }
    var j := FindSoh(buf, i + 1);
    assert buf[pos..][i - pos + 1..] == buf[i + 1..];
    if j == |buf| {
      return NeedMore;
    }
    assert buf[pos..][..i - pos] == buf[pos..i];
    assert buf[pos..][i - pos + 1..j - pos] == buf[i + 1..j];
    return Read(tag, buf[i + 1..j], j + 1 - pos);
  }

  /** Read a whole value as a number of at most max, giving up at the first byte that is no digit and at
      the first digit that leads past max. */
  method ReadUint(v: Bytes, max: nat) returns (r: Option<nat>)
    ensures r == ToUint(v, max)
  {
    if v == [] {
      return None;
    }
    var n: nat, i := 0, 0;
    while i < |v|
      invariant 0 <= i <= |v| && AllDigits(v[..i]) && n == NumberOf(v[..i]) <= max
    {
      if !IsDigit(v[i]) {
        return None;
      }
      assert v[..i + 1][..i] == v[..i];
      n := 10 * n + (v[i] - ZERO) as nat;
      i := i + 1;
      if n > max {
        LargerWhole(v, i);
        return None;
      }
    }
    assert v[..i] == v;
    return Some(n);
  }

  /** More digits make no smaller number. */
  lemma {:induction false} LargerWhole(v: Bytes, i: nat)
    requires i <= |v| && AllDigits(v[..i])
    ensures AllDigits(v) ==> NumberOf(v[..i]) <= NumberOf(v)
    decreases |v|
  {
    if i == |v| {
      assert v[..i] == v;
    } else if AllDigits(v) {
      var w := v[..|v| - 1];
      assert w[..i] == v[..i];
      LargerWhole(w, i);
    }
  }

  method AddUp(buf: Bytes, n: nat) returns (sum: nat)
    requires n <= |buf|
    ensures sum == Sum(buf[..n]) % 256
  {
    sum := 0;
    var i := 0;
    while i < n
      invariant 0 <= i <= n && sum == Sum(buf[..i])
    {
      assert buf[..i + 1][..i] == buf[..i];
      sum := sum + buf[i] as nat;
      i := i + 1;
    }
    sum := sum % 256;
  }

  /** Find the first message. */
  method FindFrame(buf: Bytes) returns (r: Frame)
    ensures r == FrameOf(buf)
  {
    assert buf[0..] == buf;
    var begin := ReadField(buf, 0);
    if begin.NeedMore? {
      return NoFrame(Incomplete);
    }
    if begin.Bad? || begin.tag != 8 {
      return NoFrame(Malformed);
    }
    if begin.value != FIX44 {
      return NoFrame(BadBeginString);
    }
    var pos := begin.size;
    var length := ReadField(buf, pos);
    if length.NeedMore? {
      return NoFrame(Incomplete);
    }
    if length.Bad? || length.tag != 9 {
      return NoFrame(Malformed);
    }
    var n := ReadUint(length.value, MAX64);
    if n.None? || n.value > MAX_MESSAGE {
      return NoFrame(BadBodyLength);
    }
    var start := pos + length.size;
    if n.value > |buf| || |buf| < start + n.value + CHECKSUM_WIDTH {
      return NoFrame(Incomplete);
    }
    return Framed(start, start + n.value + CHECKSUM_WIDTH);
  }

  /** Go through the fields of a body, filling in what they say. */
  method ReadFields(body: Bytes, from: nat) returns (r: Collected)
    requires from <= |body|
    ensures r == Collect(body[from..], NO_FIELDS)
  {
    var pos: nat, f := from, NO_FIELDS;
    while pos < |body|
      invariant pos <= |body| && Collect(body[from..], NO_FIELDS) == Collect(body[pos..], f)
      decreases |body| - pos
    {
      var x := ReadField(body, pos);
      CollectFails(body[pos..], f);
      if !x.Read? {
        return Failed(Malformed);
      }
      var g := Note(f, x.tag, x.value);
      if g.None? {
        return Failed(BadFieldValue);
      }
      DropDrop(body, pos, x.size);
      CollectOn(body[pos..], f, x, g.value, body[pos + x.size..]);
      pos, f := pos + x.size, g.value;
    }
    return All(f);
  }

  method ReadMessage(msg: Bytes, start: nat) returns (r: Verdict)
    requires start + CHECKSUM_WIDTH <= |msg|
    ensures r == MessageOf(msg, start)
  {
    var cs := |msg| - CHECKSUM_WIDTH;
    if msg[cs..cs + 3] != CHECKSUM_TAG || msg[|msg| - 1] != SOH {
      return Wrong(Malformed);
    }
    var stated := ReadUint(msg[cs + 3..cs + 6], MAX32);
    if stated.None? {
      return Wrong(Malformed);
    }
    var computed := AddUp(msg, cs);
    if computed != stated.value {
      return Wrong(BadChecksum);
    }
    var body := msg[start..cs];
    assert body[0..] == body;
    var x := ReadField(body, 0);
    if !x.Read? || x.tag != 35 {
      return Wrong(Malformed);
    }
    var c := ReadFields(body, x.size);
    if c.Failed? {
      return Wrong(c.err);
    }
    return CommandOf(x.value, c.f);
  }

  /** Parse the first message of the buffer. */
  method ParseMessage(buf: Bytes) returns (r: Parsed)
    ensures r == Parse(buf)
  {
    var fr := FindFrame(buf);
    if fr.NoFrame? {
      return Refused(fr.err);
    }
    var v := ReadMessage(buf[..fr.total], fr.start);
    if v.Wrong? {
      return Refused(v.err);
    }
    return Accepted(v.cmd, fr.total);
  }
}
