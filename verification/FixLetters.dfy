/** FIX messages put together from their fields: which byte strings are messages, what they say, and what
    becomes of those that are not. Nothing here scans; the parser is held against it. */
module FixLetters {
  import opened Types
  import opened Slices
  import opened Fix
  import FixRender

  // ----- fields put together

  /** A field as it is spelled; a tag may have leading zeros. */
  datatype Raw = Raw(tag: Bytes, value: Bytes)

  predicate Proper(x: Raw) {
    0 < |x.tag| <= 9 && AllDigits(x.tag) && forall i | 0 <= i < |x.value| :: x.value[i] != 1
  }

  function Spell(x: Raw): Bytes {
    x.tag + [61] + x.value + [1]
  }

  function SpellAll(xs: seq<Raw>): Bytes {
    if xs == [] then [] else Spell(xs[0]) + SpellAll(xs[1..])
  }

  predicate AllProper(xs: seq<Raw>) {
    forall i | 0 <= i < |xs| :: Proper(xs[i])
  }

  function TagOf(x: Raw): nat
    requires Proper(x)
  {
    NumberOf(x.tag)
  }

  lemma SpellReads(x: Raw, more: Bytes)
    requires Proper(x)
    ensures FieldOf(Spell(x) + more) == Read(TagOf(x), x.value, |Spell(x)|)
  {
    var s := Spell(x) + more;
    var d, k := |x.tag|, |x.value|;
    assert s[..d] == x.tag;
    assert s[d + 1..d + 1 + k] == x.value;
    assert forall i | d + 1 <= i < d + 1 + k :: s[i] == x.value[i - d - 1];
    FieldIs(s, d, k);
  }

  lemma FieldSpells(s: Bytes) returns (x: Raw)
    requires FieldOf(s).Read?
    ensures Proper(x) && TagOf(x) == FieldOf(s).tag && x.value == FieldOf(s).value
    ensures Spell(x) == s[..FieldOf(s).size]
  {
    var d := Digits(s);
    var k := Until(s[d + 1..], SOH);
    x := Raw(s[..d], s[d + 1..d + 1 + k]);
    assert forall i | 0 <= i < k :: x.value[i] == s[d + 1..][i];
    assert s[..d + 1 + k + 1] == s[..d] + [s[d]] + s[d + 1..d + 1 + k] + [s[d + 1 + k]];
  }

  // ----- what the fields of a message say

  /** The value is a decimal number from lo to hi. */
  predicate Counts(v: Bytes, lo: nat, hi: nat) {
    v != [] && AllDigits(v) && lo <= NumberOf(v) <= hi
  }

  /** The value is one that the tag allows; a tag that is not needed allows any. */
  predicate Readable(tag: nat, v: Bytes) {
    match tag
    case 1 => Counts(v, 0, 0xFFFF_FFFF)
    case 11 => Counts(v, 1, 0xFFFF_FFFF_FFFF_FFFE)
    case 38 => Counts(v, 0, 0xFFFF_FFFF_FFFF_FFFF)
    case 41 => Counts(v, 1, 0xFFFF_FFFF_FFFF_FFFE)
    case 44 => Counts(v, 0, 0xFFFF_FFFF)
    case 54 => v == [49] || v == [50]
    case 59 => v == [48] || v == [49] || v == [51] || v == [52]
    case _ => true
  }

  predicate AllReadable(xs: seq<Raw>)
    requires AllProper(xs)
  {
    forall i | 0 <= i < |xs| :: Readable(TagOf(xs[i]), xs[i].value)
  }

  /** The value of the last field with the tag. */
  function Last(xs: seq<Raw>, tag: nat): (v: Option<Bytes>)
    requires AllProper(xs)
    decreases |xs|
  {
    if xs == [] then None else
    var k := |xs| - 1;
    if TagOf(xs[k]) == tag then Some(xs[k].value) else Last(xs[..k], tag)
  }

  function Said(xs: seq<Raw>, tag: nat): nat
    requires AllProper(xs)
  {
    var v := Last(xs, tag);
    if v.Some? && AllDigits(v.value) then NumberOf(v.value) else 0
  }

  /** All these tags occur. */
  predicate Has(xs: seq<Raw>, tags: set<nat>)
    requires AllProper(xs)
  {
    forall t | t in tags :: Last(xs, t).Some?
  }

  function Lifetime(v: Option<Bytes>): Tif {
    if v == Some([51]) then Ioc else if v == Some([52]) then Fok else Gtc
  }

  /** The command that a message of the given type stands for, or what is wrong with it. */
  function Judge(kind: Bytes, xs: seq<Raw>): Verdict
    requires AllProper(xs)
  {
    if !AllReadable(xs) then Wrong(BadFieldValue)
    else if kind == [68] then
      if !Has(xs, {11, 54, 38, 44}) then Wrong(MissingField) else
      Good(CmdSubmit(Submit(Said(xs, 11), Said(xs, 44), Said(xs, 38),
                            if Last(xs, 54) == Some([49]) then Bid else Ask, Lifetime(Last(xs, 59)), Said(xs, 1))))
    else if kind == [70] then
      if !Has(xs, {41}) then Wrong(MissingField) else Good(CmdCancel(Said(xs, 41)))
    else if kind == [71] then
      if !Has(xs, {11, 41, 38, 44}) then Wrong(MissingField) else
      Good(CmdModify(Modify(Said(xs, 41), Said(xs, 44), Said(xs, 38), Said(xs, 11))))
    else Wrong(UnsupportedMsgType)
  }

  // ----- the parser's fields are these

  lemma CountsUint(v: Bytes, hi: nat)
    ensures ToUint(v, hi) == if Counts(v, 0, hi) then Some(NumberOf(v)) else None
  {
  }

  lemma NoteReadable(f: Fields, tag: nat, v: Bytes)
    ensures Note(f, tag, v).Some? <==> Readable(tag, v)
  {
  }

  function Number(v: Option<Bytes>): Option<nat> {
    if v.Some? && AllDigits(v.value) then Some(NumberOf(v.value)) else None
  }

  function SideOf(v: Bytes): Side {
    if v == [49] then Bid else Ask
  }

  /** f with what the fields say on top. */
  function Absorb(f: Fields, xs: seq<Raw>): Fields
    requires AllProper(xs)
  {
    Fields(
      if Last(xs, 11).Some? then Number(Last(xs, 11)) else f.clOrdId,
      if Last(xs, 41).Some? then Number(Last(xs, 41)) else f.origId,
      if Last(xs, 38).Some? then Number(Last(xs, 38)) else f.qty,
      if Last(xs, 44).Some? then Number(Last(xs, 44)) else f.px,
      if Last(xs, 54).Some? then Some(SideOf(Last(xs, 54).value)) else f.side,
      if Last(xs, 59).Some? then Lifetime(Last(xs, 59)) else f.tif,
      if Last(xs, 1).Some? then Said(xs, 1) else f.account)
  }

  lemma AbsorbOne(f: Fields, x: Raw)
    requires Proper(x) && Readable(TagOf(x), x.value)
    ensures AllProper([x]) && Note(f, TagOf(x), x.value) == Some(Absorb(f, [x]))
  {
    assert forall t :: Last([x], t) == if TagOf(x) == t then Some(x.value) else None;
  }

  lemma {:induction false} LastAppend(xs: seq<Raw>, ys: seq<Raw>, tag: nat)
    requires AllProper(xs) && AllProper(ys)
    ensures AllProper(xs + ys) && Last(xs + ys, tag) == if Last(ys, tag).Some? then Last(ys, tag) else Last(xs, tag)
    decreases |ys|
  {
    assert forall i | 0 <= i < |xs + ys| :: (xs + ys)[i] == if i < |xs| then xs[i] else ys[i - |xs|];
    if ys == [] {
      assert xs + ys == xs;
    } else {
      var k := |ys| - 1;
      assert (xs + ys)[..|xs| + k] == xs + ys[..k];
      LastAppend(xs, ys[..k], tag);
    }
  }

  lemma AbsorbOn(f: Fields, x: Raw, xs: seq<Raw>)
    requires Proper(x) && AllProper(xs)
    ensures AllProper([x]) && AllProper([x] + xs) && Absorb(Absorb(f, [x]), xs) == Absorb(f, [x] + xs)
  {
    forall t ensures AllProper([x] + xs)
        && Last([x] + xs, t) == if Last(xs, t).Some? then Last(xs, t) else Last([x], t) {
      LastAppend([x], xs, t);
    }
  }

  lemma ReadableOn(x: Raw, xs: seq<Raw>)
    requires Proper(x) && AllProper(xs)
    ensures AllProper([x] + xs)
    ensures AllReadable([x] + xs) <==> Readable(TagOf(x), x.value) && AllReadable(xs)
  {
    var all := [x] + xs;
    assert all[0] == x && forall i | 0 < i < |all| :: all[i] == xs[i - 1];
    if AllReadable(all) {
      forall i | 0 <= i < |xs| ensures Readable(TagOf(xs[i]), xs[i].value) {
        assert xs[i] == all[i + 1];
      }
    }
  }

  /** Fields in front of whatever else the body holds. */
  lemma {:induction false} CollectSpelled(xs: seq<Raw>, tail: Bytes, f: Fields)
    requires AllProper(xs)
    ensures Collect(SpellAll(xs) + tail, f) ==
            if AllReadable(xs) then Collect(tail, Absorb(f, xs)) else Failed(BadFieldValue)
    decreases |xs|
  {
    if xs == [] {
      assert SpellAll(xs) + tail == tail;
    } else {
      var x, rest := xs[0], xs[1..];
      assert xs == [x] + rest;
      var body, more := SpellAll(xs) + tail, SpellAll(rest) + tail;
      Regroup(Spell(x), SpellAll(rest), tail);
      SpellReads(x, more);
      assert body[|Spell(x)|..] == more;
      NoteReadable(f, TagOf(x), x.value);
      ReadableOn(x, rest);
      if Readable(TagOf(x), x.value) {
        AbsorbOne(f, x);
        AbsorbOn(f, x, rest);
        CollectOn(body, f, FieldOf(body), Absorb(f, [x]), more);
        CollectSpelled(rest, tail, Absorb(f, [x]));
      } else {
        CollectFails(body, f);
      }
    }
  }

  lemma {:induction false} LastReadable(xs: seq<Raw>, tag: nat)
    requires AllProper(xs) && AllReadable(xs) && Last(xs, tag).Some?
    ensures Readable(tag, Last(xs, tag).value)
    decreases |xs|
  {
    var k := |xs| - 1;
    if TagOf(xs[k]) != tag {
      LastReadable(xs[..k], tag);
    }
  }

  lemma JudgeIs(kind: Bytes, xs: seq<Raw>)
    requires AllProper(xs) && AllReadable(xs)
    ensures CommandOf(kind, Absorb(NO_FIELDS, xs)) == Judge(kind, xs)
  {
    forall t | Last(xs, t).Some? ensures Readable(t, Last(xs, t).value) {
      LastReadable(xs, t);
    }
  }

  lemma BodyStarts(kind: Raw, rest: Bytes)
    requires Proper(kind)
    ensures BodyOf(Spell(kind) + rest) ==
            if TagOf(kind) != 35 then Wrong(Malformed) else
            var c := Collect(rest, NO_FIELDS); if c.Failed? then Wrong(c.err) else CommandOf(kind.value, c.f)
  {
    SpellReads(kind, rest);
    assert (Spell(kind) + rest)[|Spell(kind)|..] == rest;
  }

  /** A body of whole fields says what they say. */
  lemma BodySpelled(kind: Raw, xs: seq<Raw>)
    requires Proper(kind) && AllProper(xs)
    ensures BodyOf(Spell(kind) + SpellAll(xs)) ==
            if TagOf(kind) == 35 then Judge(kind.value, xs) else Wrong(Malformed)
  {
    BodyStarts(kind, SpellAll(xs));
    assert SpellAll(xs) + [] == SpellAll(xs);
    CollectSpelled(xs, [], NO_FIELDS);
    if AllReadable(xs) {
      JudgeIs(kind.value, xs);
    }
  }

  /** A body that breaks off, or goes on with what is no field, is malformed, unless a field before that
      cannot be read. */
  lemma BodyBroken(kind: Raw, xs: seq<Raw>, tail: Bytes)
    requires Proper(kind) && AllProper(xs) && tail != [] && !FieldOf(tail).Read?
    ensures BodyOf(Spell(kind) + (SpellAll(xs) + tail)) ==
            if TagOf(kind) == 35 && !AllReadable(xs) then Wrong(BadFieldValue) else Wrong(Malformed)
  {
    BodyStarts(kind, SpellAll(xs) + tail);
    CollectSpelled(xs, tail, NO_FIELDS);
    CollectFails(tail, Absorb(NO_FIELDS, xs));
  }

  // ----- what can be read is spelled

  lemma SpellOn(x: Raw, rest: seq<Raw>, body: Bytes, n: nat)
    requires n <= |body| && Spell(x) == body[..n] && SpellAll(rest) == body[n..]
    ensures SpellAll([x] + rest) == body
  {
    assert ([x] + rest)[1..] == rest;
    assert body == body[..n] + body[n..];
  }

  lemma ProperOn(x: Raw, rest: seq<Raw>)
    requires Proper(x) && AllProper(rest)
    ensures AllProper([x] + rest)
  {
  }

  lemma {:induction false} CollectedSpells(body: Bytes, f: Fields) returns (xs: seq<Raw>)
    requires Collect(body, f).All?
    ensures AllProper(xs) && SpellAll(xs) == body
    decreases |body|
  {
    if body == [] {
      xs := [];
    } else {
      CollectFails(body, f);
      var x := FieldSpells(body);
      var n := FieldOf(body).size;
      var rest := CollectedSpells(body[n..], Note(f, FieldOf(body).tag, FieldOf(body).value).value);
      xs := [x] + rest;
      ProperOn(x, rest);
      SpellOn(x, rest, body, n);
    }
  }

  lemma GoodSpells(body: Bytes) returns (kind: Raw, xs: seq<Raw>)
    requires BodyOf(body).Good?
    ensures Proper(kind) && AllProper(xs) && TagOf(kind) == 35 && Spell(kind) + SpellAll(xs) == body
  {
    kind := FieldSpells(body);
    xs := CollectedSpells(body[FieldOf(body).size..], NO_FIELDS);
  }

  // ----- whole messages

  /** The bytes before the checksum. */
  function Front(begin: Raw, length: Raw, body: Bytes): Bytes {
    Spell(begin) + Spell(length) + body
  }

  /** The checksum field reads `10=`, three digits and the separator. */
  predicate Closing(trailer: Bytes) {
    |trailer| == 7 && trailer[..3] == [49, 48, 61] && AllDigits(trailer[3..6]) && trailer[6] == 1
  }

  /** What is wrong with the two header fields, if anything is. */
  function HeaderError(begin: Raw, length: Raw): Option<Error>
    requires Proper(begin) && Proper(length)
  {
    if TagOf(begin) != 8 then Some(Malformed)
    else if begin.value != [70, 73, 88, 46, 52, 46, 52] then Some(BadBeginString)
    else if TagOf(length) != 9 then Some(Malformed)
    else if !Counts(length.value, 0, 4096) then Some(BadBodyLength)
    else None
  }

  /** What the trailer and then the body of a message with a good header come to. */
  function TailVerdict(front: Bytes, body: Bytes, trailer: Bytes): Verdict
    requires |trailer| == 7
  {
    if !Closing(trailer) then Wrong(Malformed)
    else if NumberOf(trailer[3..6]) != Sum(front) % 256 then Wrong(BadChecksum)
    else BodyOf(body)
  }

  /** Two header fields, so many bytes of body as the second states if it states a length, and seven bytes
      of trailer: what comes of them, whatever follows. */
  function Outcome(begin: Raw, length: Raw, body: Bytes, trailer: Bytes): Parsed
    requires Proper(begin) && Proper(length) && |trailer| == 7
  {
    var e := HeaderError(begin, length);
    if e.Some? then Refused(e.value) else
    var v := TailVerdict(Front(begin, length, body), body, trailer);
    if v.Wrong? then Refused(v.err) else Accepted(v.cmd, |Front(begin, length, body)| + 7)
  }

  lemma ThreeDigitNumber(v: Bytes)
    requires |v| == 3
    ensures ToUint(v, MAX32) == if AllDigits(v) then Some(NumberOf(v)) else None
  {
    if AllDigits(v) {
      assert v == [v[0], v[1], v[2]];
      FixRender.ReadThree(v[0], v[1], v[2]);
    }
  }

  lemma TrailerSlices(front: Bytes, trailer: Bytes, msg: Bytes, start: nat)
    requires msg == front + trailer && |trailer| == 7 && start <= |front|
    ensures var cs := |front|;
            && |msg| == cs + 7 && msg[..cs] == front && msg[start..cs] == front[start..]
            && msg[cs..cs + 3] == trailer[..3] && msg[cs + 3..cs + 6] == trailer[3..6]
            && msg[|msg| - 1] == trailer[6]
  {
  }

  lemma TrailerReads(msg: Bytes, start: nat, front: Bytes, trailer: Bytes, body: Bytes)
    requires msg == front + trailer && |trailer| == 7 && start <= |front| && front[start..] == body
    ensures start + CHECKSUM_WIDTH <= |msg|
    ensures MessageOf(msg, start) == TailVerdict(front, body, trailer)
  {
    TrailerSlices(front, trailer, msg, start);
    ThreeDigitNumber(trailer[3..6]);
    MessageBy(msg, start, |front|, trailer[..3], trailer[3..6], trailer[6], front, body);
  }

  lemma MessageBy(msg: Bytes, start: nat, cs: nat, tag: Bytes, digits: Bytes, last: byte, front: Bytes, body: Bytes)
    requires |msg| == cs + 7 && start <= cs && msg[cs..cs + 3] == tag && msg[cs + 3..cs + 6] == digits
    requires msg[|msg| - 1] == last && msg[..cs] == front && msg[start..cs] == body
    ensures MessageOf(msg, start) ==
            if tag != [49, 48, 61] || last != 1 || ToUint(digits, MAX32).None? then Wrong(Malformed)
            else if Sum(front) % 256 != ToUint(digits, MAX32).value then Wrong(BadChecksum)
            else BodyOf(body)
  {
  }

  lemma LengthReads(n: nat, pos: nat, length: Raw, x: Scan)
    requires Proper(length) && x == Read(TagOf(length), length.value, |Spell(length)|)
    ensures FramedBy(n, pos, x) ==
            if TagOf(length) != 9 then NoFrame(Malformed)
            else if !Counts(length.value, 0, 4096) then NoFrame(BadBodyLength)
            else if n < pos + x.size + NumberOf(length.value) + 7 then NoFrame(Incomplete)
            else Framed(pos + x.size, pos + x.size + NumberOf(length.value) + 7)
  {
    CountsUint(length.value, MAX64);
  }

  lemma FrameReads(begin: Raw, length: Raw, rest: Bytes, buf: Bytes)
    requires Proper(begin) && Proper(length) && buf == Spell(begin) + (Spell(length) + rest)
    ensures var head := |Spell(begin)| + |Spell(length)|;
            FrameOf(buf) ==
            if HeaderError(begin, length).Some? then NoFrame(HeaderError(begin, length).value)
            else if |rest| < NumberOf(length.value) + 7 then NoFrame(Incomplete)
            else Framed(head, head + NumberOf(length.value) + 7)
  {
    SpellReads(begin, Spell(length) + rest);
    assert buf[|Spell(begin)|..] == Spell(length) + rest;
    SpellReads(length, rest);
    LengthReads(|buf|, |Spell(begin)|, length, FieldOf(buf[|Spell(begin)|..]));
  }

  lemma Together(a: Bytes, b: Bytes, body: Bytes, trailer: Bytes, more: Bytes)
    ensures a + b + body + trailer + more == a + (b + (body + trailer + more))
    ensures (a + b + body)[|a| + |b|..] == body
    ensures (a + b + body + trailer + more)[..|a + b + body + trailer|] == a + b + body + trailer
  {
  }

  /** What the parser makes of such bytes, refused or not. */
  lemma OutcomeReads(begin: Raw, length: Raw, body: Bytes, trailer: Bytes, more: Bytes)
    requires Proper(begin) && Proper(length) && |trailer| == 7
    requires Counts(length.value, 0, 4096) ==> |body| == NumberOf(length.value)
    ensures Parse(Front(begin, length, body) + trailer + more) == Outcome(begin, length, body, trailer)
  {
    var front := Front(begin, length, body);
    var buf, msg, start := front + trailer + more, front + trailer, |Spell(begin)| + |Spell(length)|;
    Together(Spell(begin), Spell(length), body, trailer, more);
    FrameReads(begin, length, body + trailer + more, buf);
    if HeaderError(begin, length).None? {
      TrailerReads(msg, start, front, trailer, body);
      ParseBy(buf, start, |msg|, msg);
    }
  }

  lemma ParseBy(buf: Bytes, start: nat, n: nat, msg: Bytes)
    requires FrameOf(buf) == Framed(start, n) && n <= |buf| && buf[..n] == msg
    ensures start + CHECKSUM_WIDTH <= |msg|
    ensures Parse(buf) ==
            var v := MessageOf(msg, start); if v.Wrong? then Refused(v.err) else Accepted(v.cmd, n)
  {
  }

  /** The parts of a message that stands for command c. */
  predicate Letter(msg: Bytes, c: Command, begin: Raw, length: Raw, kind: Raw, xs: seq<Raw>, digits: Bytes) {
    && Proper(begin) && Proper(length) && Proper(kind) && AllProper(xs)
    && TagOf(begin) == 8 && begin.value == [70, 73, 88, 46, 52, 46, 52]
    && var body := Spell(kind) + SpellAll(xs);
       && TagOf(length) == 9 && Counts(length.value, |body|, |body|) && |body| <= 4096
       && TagOf(kind) == 35 && Judge(kind.value, xs) == Good(c)
       && |digits| == 3 && AllDigits(digits) && NumberOf(digits) == Sum(Front(begin, length, body)) % 256
       && msg == Front(begin, length, body) + ([49, 48, 61] + digits + [1])
  }

  ghost predicate Message(msg: Bytes, c: Command) {
    exists begin, length, kind, xs, digits :: Letter(msg, c, begin, length, kind, xs, digits)
  }

  lemma LetterAccepted(msg: Bytes, c: Command, begin: Raw, length: Raw, kind: Raw, xs: seq<Raw>, digits: Bytes,
                       more: Bytes)
    requires Letter(msg, c, begin, length, kind, xs, digits)
    ensures Parse(msg + more) == Accepted(c, |msg|)
  {
    var body, trailer := Spell(kind) + SpellAll(xs), [49, 48, 61] + digits + [1];
    assert trailer[..3] == [49, 48, 61] && trailer[3..6] == digits;
    BodySpelled(kind, xs);
    OutcomeReads(begin, length, body, trailer, more);
  }

  lemma FramedSpells(buf: Bytes) returns (begin: Raw, length: Raw)
    requires FrameOf(buf).Framed?
    ensures Proper(begin) && Proper(length) && Counts(length.value, 0, 4096)
    ensures var fr := FrameOf(buf);
            fr.total == fr.start + NumberOf(length.value) + 7 && buf[..fr.start] == Spell(begin) + Spell(length)
  {
    begin := FieldSpells(buf);
    var pos := FieldOf(buf).size;
    length := FieldSpells(buf[pos..]);
    CountsUint(length.value, MAX64);
    Join(buf, pos, FieldOf(buf[pos..]).size);
  }

  lemma Join(s: Bytes, p: nat, q: nat)
    requires p + q <= |s|
    ensures s[..p + q] == s[..p] + s[p..][..q]
  {
  }

  lemma InThree(s: Bytes, p: nat, n: nat)
    requires p + 7 <= n <= |s|
    ensures s[..n] == s[..p] + s[p..n - 7] + s[n - 7..n] && s == s[..n] + s[n..]
  {
  }

  lemma AcceptedFrame(buf: Bytes, c: Command, n: nat)
    requires Parse(buf) == Accepted(c, n)
    ensures FrameOf(buf).Framed? && FrameOf(buf).total == n <= |buf|
  {
  }

  /** The header fields, the body and the trailer of an accepted message. */
  lemma AcceptedParts(buf: Bytes, c: Command, n: nat)
    returns (begin: Raw, length: Raw, body: Bytes, trailer: Bytes)
    requires Parse(buf) == Accepted(c, n)
    ensures Proper(begin) && Proper(length) && |trailer| == 7 && n <= |buf|
    ensures buf[..n] == Front(begin, length, body) + trailer
    ensures Outcome(begin, length, body, trailer) == Accepted(c, n)
    ensures Counts(length.value, |body|, |body|)
  {
    AcceptedFrame(buf, c, n);
    var start := FrameOf(buf).start;
    begin, length := FramedSpells(buf);
    body, trailer := buf[start..n - 7], buf[n - 7..n];
    InThree(buf, start, n);
    OutcomeReads(begin, length, body, trailer, buf[n..]);
  }

  lemma AcceptedLetter(buf: Bytes, c: Command, n: nat)
    requires Parse(buf) == Accepted(c, n)
    ensures n <= |buf| && Message(buf[..n], c)
  {
    var begin, length, body, trailer := AcceptedParts(buf, c, n);
    var kind, xs := GoodSpells(body);
    BodySpelled(kind, xs);
    ClosingIs(trailer);
    assert Letter(buf[..n], c, begin, length, kind, xs, trailer[3..6]);
  }

  lemma ClosingIs(trailer: Bytes)
    requires Closing(trailer)
    ensures trailer == [49, 48, 61] + trailer[3..6] + [1]
  {
  }

  lemma MessageAccepted(msg: Bytes, c: Command, more: Bytes)
    requires Message(msg, c)
    ensures Parse(msg + more) == Accepted(c, |msg|)
  {
    var begin, length, kind, xs, digits :| Letter(msg, c, begin, length, kind, xs, digits);
    LetterAccepted(msg, c, begin, length, kind, xs, digits, more);
  }

  lemma InTwo(s: Bytes, n: nat)
    requires n <= |s|
    ensures s == s[..n] + s[n..]
  {
  }

  /** A buffer is accepted as command c with n bytes consumed exactly when its first n bytes are a message
      that stands for c: the version, a length that fits, the type, readable fields, and a checksum that
      matches. */
  lemma AcceptedExact(buf: Bytes, c: Command, n: nat)
    ensures Parse(buf) == Accepted(c, n) <==> n <= |buf| && Message(buf[..n], c)
  {
    if n <= |buf| && Message(buf[..n], c) {
      MessageAccepted(buf[..n], c, buf[n..]);
      InTwo(buf, n);
    } else if Parse(buf) == Accepted(c, n) {
      AcceptedLetter(buf, c, n);
    }
  }

  // ----- the checksum

  lemma {:induction false} SumUpdate(s: Bytes, i: nat, b: byte)
    requires i < |s|
    ensures Sum(s[i := b]) + s[i] as nat == Sum(s) + b as nat
    decreases |s|
  {
    var k := |s| - 1;
    if i < k {
      assert s[i := b][..k] == s[..k][i := b];
      SumUpdate(s[..k], i, b);
    } else {
      assert s[i := b][..k] == s[..k];
    }
  }

  lemma AcceptedSum(buf: Bytes, c: Command, n: nat) returns (front: Bytes, trailer: Bytes)
    requires Parse(buf) == Accepted(c, n)
    ensures n <= |buf| && buf[..n] == front + trailer && Closing(trailer)
    ensures NumberOf(trailer[3..6]) == Sum(front) % 256
  {
    var begin, length, body, t := AcceptedParts(buf, c, n);
    front, trailer := Front(begin, length, body), t;
  }

  lemma FrontSlices(s: Bytes, n: nat, front: Bytes, trailer: Bytes)
    requires n <= |s| && s[..n] == front + trailer && |trailer| == 7
    ensures |front| == n - 7 && s[n - 7..n] == trailer && forall j | 0 <= j < n - 7 :: front[j] == s[j]
  {
    assert s[..n][n - 7..] == s[n - 7..n];
    assert forall j | 0 <= j < n - 7 :: s[..n][j] == front[j];
  }

  lemma SumsApart(p: Bytes, q: Bytes, i: nat)
    requires |p| == |q| && i < |p| && p[i] != q[i] && forall j | 0 <= j < |p| && j != i :: p[j] == q[j]
    ensures Sum(p) % 256 != Sum(q) % 256
  {
    assert q == p[i := q[i]];
    SumUpdate(p, i, q[i]);
    Apart256(Sum(p), Sum(q), p[i] as nat, q[i] as nat);
  }

  /** Two accepted messages that differ in one byte before the checksum state different checksums. */
  lemma OneByteTells(a: Bytes, b: Bytes, c: Command, d: Command, n: nat, i: nat)
    requires Parse(a) == Accepted(c, n) && Parse(b) == Accepted(d, n) && i + 7 < n && n <= |a| && n <= |b|
    requires a[i] != b[i] && forall j | 0 <= j < n - 7 && j != i :: a[j] == b[j]
    ensures a[n - 7..n] != b[n - 7..n]
  {
    var p, t := AcceptedSum(a, c, n);
    var q, u := AcceptedSum(b, d, n);
    FrontSlices(a, n, p, t);
    FrontSlices(b, n, q, u);
    SumsApart(p, q, i);
  }

  lemma Apart256(x: nat, y: nat, a: nat, b: nat)
    requires y + a == x + b && a < 256 && b < 256 && a != b
    ensures x % 256 != y % 256
  {
  }

  // ----- fields that are not needed

  const NEEDED: set<nat> := {1, 11, 38, 41, 44, 54, 59}

  lemma InsertProper(xs: seq<Raw>, k: nat, x: Raw)
    requires AllProper(xs) && Proper(x) && k <= |xs|
    ensures AllProper(xs[..k] + [x] + xs[k..])
  {
  }

  lemma LastInsert(xs: seq<Raw>, k: nat, x: Raw, tag: nat)
    requires AllProper(xs) && Proper(x) && k <= |xs| && TagOf(x) != tag
    ensures AllProper(xs[..k] + [x] + xs[k..]) && Last(xs[..k] + [x] + xs[k..], tag) == Last(xs, tag)
  {
    InsertProper(xs, k, x);
    assert xs == xs[..k] + xs[k..];
    LastAppend(xs[..k], xs[k..], tag);
    LastAppend(xs[..k], [x], tag);
    LastAppend(xs[..k] + [x], xs[k..], tag);
    assert Last([x], tag) == None;
  }

  /** A field with any other tag may stand anywhere in the body: the message says the same. */
  lemma PassedOver(kind: Bytes, xs: seq<Raw>, k: nat, x: Raw)
    requires AllProper(xs) && Proper(x) && k <= |xs| && TagOf(x) !in NEEDED
    ensures AllProper(xs[..k] + [x] + xs[k..]) && Judge(kind, xs[..k] + [x] + xs[k..]) == Judge(kind, xs)
  {
    var ys := xs[..k] + [x] + xs[k..];
    InsertProper(xs, k, x);
    forall t | t in NEEDED ensures Last(ys, t) == Last(xs, t) {
      LastInsert(xs, k, x, t);
    }
    assert AllReadable(ys) <==> AllReadable(xs) by {
      InsertReadable(xs, k, x, ys);
    }
  }

  lemma InsertReadable(xs: seq<Raw>, k: nat, x: Raw, ys: seq<Raw>)
    requires AllProper(xs) && Proper(x) && k <= |xs| && TagOf(x) !in NEEDED
    requires ys == xs[..k] + [x] + xs[k..] && AllProper(ys)
    ensures AllReadable(ys) <==> AllReadable(xs)
  {
    forall i | 0 <= i < |xs| ensures xs[i] == ys[if i < k then i else i + 1] {
    }
    forall i | 0 <= i < |ys| ensures ys[i] == if i < k then xs[i] else if i == k then x else xs[i - 1] {
    }
    if AllReadable(ys) {
      forall i | 0 <= i < |xs| ensures Readable(TagOf(xs[i]), xs[i].value) {
        assert xs[i] == ys[if i < k then i else i + 1];
      }
    }
  }

  // ----- incomplete buffers

  /** A separator and enough zeros to end any message. */
  function Ending(): Bytes {
    [1] + seq(4104, _ => 0)
  }

  lemma EndsField(s: Bytes, more: Bytes)
    requires FieldOf(s).NeedMore? && more != [] && more[0] == 1
    ensures var x := FieldOf(s + more); x.Bad? || (x.Read? && x.size == |s| + 1)
  {
    var d := Digits(s);
    assert (s + more)[..d] == s[..d];
    DigitsAre(s + more, d);
    if d < |s| {
      var k := |s| - d - 1;
      assert forall i | d + 1 <= i < d + 1 + k :: (s + more)[i] == s[d + 1..][i - d - 1];
      FieldIs(s + more, d, k);
    }
  }

  lemma ZerosBad(s: Bytes)
    requires s != [] && s[0] == 0
    ensures FieldOf(s).Bad?
  {
  }

  lemma LengthEnds(buf: Bytes, pos: nat)
    requires pos <= |buf| && LengthOf(buf, pos) == NoFrame(Incomplete)
    ensures LengthOf(buf + Ending(), pos) != NoFrame(Incomplete)
  {
    var s := buf[pos..];
    DropAppend(buf, Ending(), pos);
    if FieldOf(s).NeedMore? {
      EndsField(s, Ending());
    } else {
      FieldStable(s, Ending());
    }
  }

  lemma FrameEnds(buf: Bytes)
    requires FrameOf(buf) == NoFrame(Incomplete)
    ensures FrameOf(buf + Ending()) != NoFrame(Incomplete)
  {
    if FieldOf(buf).NeedMore? {
      EndsField(buf, Ending());
      DropAppend(buf + [1], Ending()[1..], |buf| + 1);
      assert buf + Ending() == (buf + [1]) + Ending()[1..];
      assert (buf + [1])[|buf| + 1..] + Ending()[1..] == Ending()[1..];
      ZerosBad(Ending()[1..]);
    } else {
      FieldStable(buf, Ending());
      LengthEnds(buf, FieldOf(buf).size);
    }
  }

  lemma {:induction false} CollectDecides(body: Bytes, f: Fields)
    ensures Collect(body, f) != Failed(Incomplete)
    decreases |body|
  {
    if body != [] && FieldOf(body).Read? {
      var x := FieldOf(body);
      var g := Note(f, x.tag, x.value);
      if g.Some? {
        CollectDecides(body[x.size..], g.value);
      }
    }
  }

  lemma MessageDecides(msg: Bytes, start: nat)
    requires start + CHECKSUM_WIDTH <= |msg|
    ensures MessageOf(msg, start) != Wrong(Incomplete)
  {
    var body := msg[start..|msg| - CHECKSUM_WIDTH];
    if FieldOf(body).Read? {
      CollectDecides(body[FieldOf(body).size..], NO_FIELDS);
    }
  }

  lemma ParseDecides(buf: Bytes)
    ensures Parse(buf) == Refused(Incomplete) <==> FrameOf(buf) == NoFrame(Incomplete)
  {
    var fr := FrameOf(buf);
    if fr.Framed? {
      MessageDecides(buf[..fr.total], fr.start);
    }
  }

  /** The parser waits exactly when bytes yet to come could change its answer. */
  lemma IncompleteExact(buf: Bytes)
    ensures Parse(buf) == Refused(Incomplete) <==> exists more :: Parse(buf + more) != Parse(buf)
  {
    if Parse(buf) == Refused(Incomplete) {
      ParseDecides(buf);
      FrameEnds(buf);
      ParseDecides(buf + Ending());
      assert Parse(buf + Ending()) != Parse(buf);
    } else {
      forall more ensures Parse(buf + more) == Parse(buf) {
        ParseStable(buf, more);
      }
    }
  }
}
