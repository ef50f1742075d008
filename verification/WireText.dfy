/** What the resolve socket reads: capped lines, UTF-8 validity, decimal numbers and single-byte separators. */
module WireText {
  import opened ByteStrings

  const NEWLINE: Byte := 10
  const SPACE: Byte := 32
  const AT: Byte := 64
  const MAX_LINE_BYTES := 4096

  // ----- UTF-8 -----

  predicate Continuation(b: Byte) {
    0x80 <= b <= 0xBF
  }

  /** Leads of three-byte characters with the second bytes that avoid overlong forms and surrogates. */
  predicate ThreeByteLead(b: Byte, c: Byte) {
    || (b == 0xE0 && 0xA0 <= c <= 0xBF)
    || ((0xE1 <= b <= 0xEC || 0xEE <= b <= 0xEF) && Continuation(c))
    || (b == 0xED && 0x80 <= c <= 0x9F)
  }

  /** Leads of four-byte characters with the second bytes that stay within the code space. */
  predicate FourByteLead(b: Byte, c: Byte) {
    || (b == 0xF0 && 0x90 <= c <= 0xBF)
    || (0xF1 <= b <= 0xF3 && Continuation(c))
    || (b == 0xF4 && 0x80 <= c <= 0x8F)
  }

  /** The length of the well-formed character a byte string starts with, or 0. */
  function CharLength(b: Bytes): (n: nat)
    ensures n <= |b|
    ensures forall i :: 1 <= i < n ==> Continuation(b[i])
  {
    if |b| >= 1 && b[0] < 0x80 then 1
    else if |b| >= 2 && 0xC2 <= b[0] <= 0xDF && Continuation(b[1]) then 2
    else if |b| >= 3 && ThreeByteLead(b[0], b[1]) && Continuation(b[2]) then 3
    else if |b| >= 4 && FourByteLead(b[0], b[1]) && Continuation(b[2]) && Continuation(b[3]) then 4
    else 0
  }

  predicate ValidUtf8(b: Bytes)
    decreases |b|
  {
    b == [] || (CharLength(b) > 0 && ValidUtf8(b[CharLength(b)..]))
  }

  lemma {:induction false} Utf8Concat(x: Bytes, y: Bytes)
    requires ValidUtf8(x)
    ensures ValidUtf8(x + y) <==> ValidUtf8(y)
    decreases |x|
  {
    if x == [] {
      assert x + y == y;
    } else {
      var n := CharLength(x);
      assert CharLength(x + y) == n;
      assert (x + y)[n..] == x[n..] + y;
      Utf8Concat(x[n..], y);
    }
  }

  lemma {:induction false} AsciiIsUtf8(b: Bytes)
    requires forall i :: 0 <= i < |b| ==> b[i] < 0x80
    ensures ValidUtf8(b)
  {
    if b != [] {
      AsciiIsUtf8(b[1..]);
    }
  }

  /** Cutting valid text around an ASCII byte leaves valid text on both sides. */
  lemma {:induction false} Utf8Around(x: Bytes, c: Byte, y: Bytes)
    requires c < 0x80
    ensures ValidUtf8(x + [c] + y) <==> ValidUtf8(x) && ValidUtf8(y)
    decreases |x|
  {
    var whole := x + [c] + y;
    if ValidUtf8(x) {
      assert whole == x + ([c] + y);
      Utf8Concat(x, [c] + y);
      assert ([c] + y)[1..] == y;
    } else if ValidUtf8(whole) {
      var n := CharLength(whole);
      assert whole[|x|] == c;
      assert n <= |x|;
      assert CharLength(x) == n;
      assert whole[n..] == x[n..] + [c] + y;
      Utf8Around(x[n..], c, y);
    }
  }

  // ----- what valid text encodes -----

  /** A Unicode scalar value: any code point but a surrogate. */
  predicate Scalar(c: int) {
    0 <= c < 0xD800 || 0xE000 <= c <= 0x10FFFF
  }

  /** UTF-8 in its shortest form. */
  function EncodeChar(c: int): (b: Bytes)
    requires Scalar(c)
    ensures |b| > 0
  {
    if c < 0x80 then [c]
    else if c < 0x800 then [0xC0 + c / 64, 0x80 + c % 64]
    else if c < 0x10000 then [0xE0 + c / 4096, 0x80 + c / 64 % 64, 0x80 + c % 64]
    else [0xF0 + c / 262144, 0x80 + c / 4096 % 64, 0x80 + c / 64 % 64, 0x80 + c % 64]
  }

  function Encode(cs: seq<int>): Bytes
    requires forall i :: 0 <= i < |cs| ==> Scalar(cs[i])
  {
    if cs == [] then [] else EncodeChar(cs[0]) + Encode(cs[1..])
  }

  lemma EncodedLength(c: int, rest: Bytes)
    requires Scalar(c)
    ensures CharLength(EncodeChar(c) + rest) == |EncodeChar(c)|
  {
    var b := EncodeChar(c) + rest;
    assert forall i :: 0 <= i < |EncodeChar(c)| ==> b[i] == EncodeChar(c)[i];
  }

  /** The six payload bits of a continuation byte, or what is left of a lead above its marker. */
  function Above(b: Byte, marker: int): int {
    var n: int := b;
    n - marker
  }

  /** The scalar value of the character a byte string starts with. */
  function DecodeHead(b: Bytes): (c: int)
    requires CharLength(b) > 0
  {
    var n := CharLength(b);
    if n == 1 then b[0]
    else if n == 2 then 64 * Above(b[0], 0xC0) + Above(b[1], 0x80)
    else if n == 3 then 64 * (64 * Above(b[0], 0xE0) + Above(b[1], 0x80)) + Above(b[2], 0x80)
    else 64 * (64 * (64 * Above(b[0], 0xF0) + Above(b[1], 0x80)) + Above(b[2], 0x80)) + Above(b[3], 0x80)
  }

  lemma SixBits(high: nat, low: nat)
    requires low < 64
    ensures (64 * high + low) / 64 == high && (64 * high + low) % 64 == low
  {
  }

  lemma Quotients(c: nat)
    ensures c / 4096 == c / 64 / 64 && c / 262144 == c / 64 / 64 / 64
  {
  }

  lemma ThreeByteHead(b: Bytes)
    requires CharLength(b) == 3
    ensures Scalar(DecodeHead(b)) && EncodeChar(DecodeHead(b)) == [b[0], b[1], b[2]]
  {
    var (c, high) := (DecodeHead(b), 64 * Above(b[0], 0xE0) + Above(b[1], 0x80));
    SixBits(Above(b[0], 0xE0), Above(b[1], 0x80));
    SixBits(high, Above(b[2], 0x80));
    Quotients(c);
  }

  lemma FourByteHead(b: Bytes)
    requires CharLength(b) == 4
    ensures Scalar(DecodeHead(b)) && EncodeChar(DecodeHead(b)) == [b[0], b[1], b[2], b[3]]
  {
    var (c, top) := (DecodeHead(b), 64 * Above(b[0], 0xF0) + Above(b[1], 0x80));
    SixBits(Above(b[0], 0xF0), Above(b[1], 0x80));
    SixBits(top, Above(b[2], 0x80));
    SixBits(64 * top + Above(b[2], 0x80), Above(b[3], 0x80));
    Quotients(c);
  }

  lemma TwoByteHead(b: Bytes)
    requires CharLength(b) == 2
    ensures Scalar(DecodeHead(b)) && EncodeChar(DecodeHead(b)) == [b[0], b[1]]
  {
    SixBits(Above(b[0], 0xC0), Above(b[1], 0x80));
  }

  lemma HeadIsEncoded(b: Bytes)
    requires CharLength(b) > 0
    ensures Scalar(DecodeHead(b)) && EncodeChar(DecodeHead(b)) == b[..CharLength(b)]
  {
    match CharLength(b)
    case 2 => TwoByteHead(b);
    case 3 => ThreeByteHead(b);
    case 4 => FourByteHead(b);
    case _ =>
  }

  /** Text is valid exactly when it is the shortest encoding of some scalar values. */
  lemma {:induction false} ValidUtf8Means(b: Bytes)
    ensures ValidUtf8(b) <==>
      exists cs: seq<int> :: (forall i :: 0 <= i < |cs| ==> Scalar(cs[i])) && Encode(cs) == b
  {
    if ValidUtf8(b) {
      var cs := Decoded(b);
      assert Encode(cs) == b;
    }
    if cs: seq<int> :| (forall i :: 0 <= i < |cs| ==> Scalar(cs[i])) && Encode(cs) == b {
      EncodedIsValid(cs);
    }
  }

  lemma {:induction false} Decoded(b: Bytes) returns (cs: seq<int>)
    requires ValidUtf8(b)
    ensures (forall i :: 0 <= i < |cs| ==> Scalar(cs[i])) && Encode(cs) == b
    decreases |b|
  {
    hide EncodeChar, CharLength, DecodeHead;
    if b == [] {
      cs := [];
    } else {
      HeadIsEncoded(b);
      var rest := Decoded(b[CharLength(b)..]);
      cs := [DecodeHead(b)] + rest;
      assert cs[1..] == rest;
    }
  }

  lemma {:induction false} EncodedIsValid(cs: seq<int>)
    requires forall i :: 0 <= i < |cs| ==> Scalar(cs[i])
    ensures ValidUtf8(Encode(cs))
  {
    hide EncodeChar, CharLength;
    if cs != [] {
      EncodedIsValid(cs[1..]);
      EncodedLength(cs[0], Encode(cs[1..]));
      var b := Encode(cs);
      assert b[CharLength(b)..] == Encode(cs[1..]);
    }
  }

  // ----- decimal numbers -----

  predicate IsDigit(b: Byte) {
    48 <= b <= 57
  }

  predicate Digits(b: Bytes) {
    forall i :: 0 <= i < |b| ==> IsDigit(b[i])
  }

  function Dec(n: nat): (r: Bytes)
    ensures r != [] && Digits(r)
  {
    if n < 10 then [48 + n] else Dec(n / 10) + [48 + n % 10]
  }

  function Value(b: Bytes): nat
    requires Digits(b)
  {
    if b == [] then 0 else 10 * Value(b[..|b| - 1]) + (b[|b| - 1] - 48)
  }

  /** `str::parse` for an unsigned type below `limit`: digits after at most one plus sign, without overflow. */
  function ParseUint(b: Bytes, limit: nat): (r: Option<nat>)
    ensures r.Some? ==> r.value < limit
  {
    var d := if b != [] && b[0] == 43 then b[1..] else b;
    if d != [] && Digits(d) && Value(d) < limit then Some(Value(d)) else None
  }

  lemma {:induction false} ValueOfDec(n: nat)
    ensures Value(Dec(n)) == n
  {
    if n >= 10 {
      ValueOfDec(n / 10);
      assert Dec(n)[..|Dec(n)| - 1] == Dec(n / 10);
    }
  }

  lemma ParseUintOfDec(n: nat, limit: nat)
    ensures ParseUint(Dec(n), limit) == if n < limit then Some(n) else None
  {
    ValueOfDec(n);
    assert IsDigit(Dec(n)[0]);
  }

  /** No spelling of a number is shorter than the printed one. */
  lemma {:induction false} DecIsShortest(b: Bytes)
    requires b != [] && Digits(b)
    ensures |Dec(Value(b))| <= |b|
  {
    if |b| == 1 {
      assert Value(b[..0]) == 0;
    } else {
      var init := b[..|b| - 1];
      DecIsShortest(init);
      assert Value(b) / 10 == Value(init);
    }
  }

  lemma ParseUintIsNoShorter(b: Bytes, limit: nat)
    requires ParseUint(b, limit).Some?
    ensures |Dec(ParseUint(b, limit).value)| <= |b|
  {
    DecIsShortest(if b != [] && b[0] == 43 then b[1..] else b);
  }

  function Pow10(k: nat): nat {
    if k == 0 then 1 else 10 * Pow10(k - 1)
  }

  lemma {:induction false} DecWithin(n: nat, k: nat)
    requires k >= 1 && n < Pow10(k)
    ensures |Dec(n)| <= k
  {
    if n >= 10 {
      assert k > 1;
      DecWithin(n / 10, k - 1);
    }
  }

  lemma VersionIsShort(v: U32)
    ensures |Dec(v)| <= 10
  {
    assert Pow10(5) == 100_000;
    assert Pow10(10) == 10_000_000_000;
    DecWithin(v, 10);
  }

  // ----- every spelling of a number -----

  function Zeros(k: nat): (r: Bytes)
    ensures |r| == k && Digits(r)
  {
    seq(k, _ => 48)
  }

  /** The spellings accepted of a number: its decimal digits, after any zeros and at most one plus sign. */
  ghost predicate Spells(b: Bytes, n: nat) {
    exists k: nat :: b == Zeros(k) + Dec(n) || b == [43] + (Zeros(k) + Dec(n))
  }

  lemma {:induction false} ZerosAddNothing(k: nat, d: Bytes)
    requires Digits(d)
    ensures Value(Zeros(k) + d) == Value(d)
    decreases k + |d|
  {
    var b := Zeros(k) + d;
    if d == [] {
      assert b == Zeros(k);
      if k > 0 {
        assert b[..k - 1] == Zeros(k - 1) + [];
        ZerosAddNothing(k - 1, []);
      }
    } else {
      assert b[..|b| - 1] == Zeros(k) + d[..|d| - 1];
      ZerosAddNothing(k, d[..|d| - 1]);
    }
  }

  lemma DecOfOneMore(n: nat, digit: nat)
    requires digit < 10
    ensures Dec(10 * n + digit) == if n == 0 then [48 + digit] else Dec(n) + [48 + digit]
  {
    if n > 0 {
      assert (10 * n + digit) / 10 == n && (10 * n + digit) % 10 == digit;
    }
  }

  lemma {:induction false} DigitsSpell(d: Bytes) returns (k: nat)
    requires d != [] && Digits(d)
    ensures d == Zeros(k) + Dec(Value(d))
  {
    var (init, c) := (d[..|d| - 1], d[|d| - 1]);
    assert d == init + [c];
    DecOfOneMore(Value(init), c - 48);
    hide Dec;
    k := 0;
    if init != [] {
      k := DigitsSpell(init);
      if Value(init) == 0 {
        DecOfOneMore(0, 0);
        assert init == Zeros(k + 1);
        k := k + 1;
      } else {
        assert Zeros(k) + (Dec(Value(init)) + [c]) == init + [c];
      }
    }
  }

  lemma ParseUintMeans(b: Bytes, limit: nat, n: nat)
    ensures ParseUint(b, limit) == Some(n) <==> n < limit && Spells(b, n)
  {
    hide Dec, Value, Spells;
    if ParseUint(b, limit) == Some(n) {
      ReadIsSpelled(b, n);
    }
    if Spells(b, n) {
      SpelledIsRead(b, n);
    }
  }

  lemma ReadIsSpelled(b: Bytes, n: nat)
    requires var d := if b != [] && b[0] == 43 then b[1..] else b;
      d != [] && Digits(d) && Value(d) == n
    ensures Spells(b, n)
  {
    hide Dec, Value, Zeros;
    var d := if b != [] && b[0] == 43 then b[1..] else b;
    var k := DigitsSpell(d);
    assert b == d || b == [43] + d;
  }

  lemma SpelledIsRead(b: Bytes, n: nat)
    requires Spells(b, n)
    ensures var d := if b != [] && b[0] == 43 then b[1..] else b;
      d != [] && Digits(d) && Value(d) == n
  {
    var k: nat :| b == Zeros(k) + Dec(n) || b == [43] + (Zeros(k) + Dec(n));
    ZerosAddNothing(k, Dec(n));
    ValueOfDec(n);
    hide Dec, Value, Zeros;
    var digits := Zeros(k) + Dec(n);
    assert digits != [] && IsDigit(digits[0]);
    assert b == [43] + digits ==> b[1..] == digits;
  }

  lemma SpellingsAreText(b: Bytes, n: nat)
    requires Spells(b, n)
    ensures Free(b, SPACE) && Free(b, AT)
  {
    var k: nat :| b == Zeros(k) + Dec(n) || b == [43] + (Zeros(k) + Dec(n));
    assert Digits(Zeros(k) + Dec(n));
  }

  // ----- separators -----

  predicate Free(b: Bytes, c: Byte) {
    forall i :: 0 <= i < |b| ==> b[i] != c
  }

  /** `str::split_once` on one ASCII byte. */
  function Cut(b: Bytes, c: Byte): (r: Option<(Bytes, Bytes)>)
    ensures r.None? ==> Free(b, c)
    ensures r.Some? ==> b == r.value.0 + [c] + r.value.1 && Free(r.value.0, c)
  {
    if b == [] then None
    else if b[0] == c then Some(([], b[1..]))
    else
      match Cut(b[1..], c)
      case None => None
      case Some((x, y)) => Some(([b[0]] + x, y))
  }

  /** `str::rsplit_once` on one ASCII byte. */
  function CutLast(b: Bytes, c: Byte): (r: Option<(Bytes, Bytes)>)
    ensures r.None? ==> Free(b, c)
    ensures r.Some? ==> b == r.value.0 + [c] + r.value.1 && Free(r.value.1, c)
  {
    if b == [] then None
    else
      var n := |b| - 1;
      if b[n] == c then Some((b[..n], []))
      else
        match CutLast(b[..n], c)
        case None => None
        case Some((x, y)) => Some((x, y + [b[n]]))
  }

  lemma {:induction false} CutAt(x: Bytes, c: Byte, y: Bytes)
    requires Free(x, c)
    ensures Cut(x + [c] + y, c) == Some((x, y))
  {
    var b := x + [c] + y;
    if x == [] {
      assert b[1..] == y;
    } else {
      assert b[1..] == x[1..] + [c] + y;
      CutAt(x[1..], c, y);
      assert [b[0]] + x[1..] == x;
    }
  }

  lemma {:induction false} CutLastAt(x: Bytes, c: Byte, y: Bytes)
    requires Free(y, c)
    ensures CutLast(x + [c] + y, c) == Some((x, y))
  {
    var b := x + [c] + y;
    var n := |b| - 1;
    if y == [] {
      assert b[..n] == x;
    } else {
      var init := y[..|y| - 1];
      assert b[..n] == x + [c] + init;
      CutLastAt(x, c, init);
      assert init + [b[n]] == y;
    }
  }

  lemma {:induction false} CutLastOfFree(b: Bytes, c: Byte)
    requires Free(b, c)
    ensures CutLast(b, c) == None
  {
    if b != [] {
      CutLastOfFree(b[..|b| - 1], c);
    }
  }

  // ----- lines -----

  datatype Line = Closed | Rejected | Text(text: Bytes)

  /** How many bytes run up to and including the first newline, or to the end of the stream. */
  function LineEnd(s: Bytes): (n: nat)
    ensures n <= |s|
    ensures forall i :: 0 <= i < n - 1 ==> s[i] != NEWLINE
    ensures n == |s| || (n > 0 && s[n - 1] == NEWLINE)
    ensures s != [] ==> n > 0
  {
    if s == [] then 0 else if s[0] == NEWLINE then 1 else 1 + LineEnd(s[1..])
  }

  /** One capped line and what is left of the stream after it. */
  function NextLine(s: Bytes): (Line, Bytes) {
    var n := if LineEnd(s) < MAX_LINE_BYTES then LineEnd(s) else MAX_LINE_BYTES;
    if n == 0 then (Closed, s)
    else if s[n - 1] != NEWLINE || !ValidUtf8(s[..n - 1]) then (Rejected, s[n..])
    else (Text(s[..n - 1]), s[n..])
  }

  lemma LineEndAt(text: Bytes, rest: Bytes)
    requires Free(text, NEWLINE)
    ensures LineEnd(text + [NEWLINE] + rest) == |text| + 1
  {
    hide LineEnd;
    var s := text + [NEWLINE] + rest;
    var n := LineEnd(s);
    assert s[|text|] == NEWLINE;
    assert forall i :: 0 <= i < |text| ==> s[i] == text[i];
  }

  lemma Around(x: Bytes, c: Byte, y: Bytes)
    ensures var s := x + [c] + y;
      |s| == |x| + 1 + |y| && s[..|x|] == x && s[|x|] == c && s[|x| + 1..] == y
    ensures forall i :: 0 <= i < |x| ==> (x + [c] + y)[i] == x[i]
  {
  }

  lemma LineIsRead(text: Bytes, rest: Bytes)
    requires Free(text, NEWLINE)
    ensures |text| < MAX_LINE_BYTES && ValidUtf8(text) ==> NextLine(text + [NEWLINE] + rest) == (Text(text), rest)
    ensures !(|text| < MAX_LINE_BYTES && ValidUtf8(text)) ==> NextLine(text + [NEWLINE] + rest).0 == Rejected
  {
    hide ValidUtf8, LineEnd;
    LineEndAt(text, rest);
    Around(text, NEWLINE, rest);
    if |text| >= MAX_LINE_BYTES {
      assert (text + [NEWLINE] + rest)[MAX_LINE_BYTES - 1] == text[MAX_LINE_BYTES - 1];
    }
  }

  lemma ReadIsLine(s: Bytes)
    requires NextLine(s).0.Text?
    ensures var (line, rest) := NextLine(s);
      && s == line.text + [NEWLINE] + rest && Free(line.text, NEWLINE)
      && |line.text| < MAX_LINE_BYTES && ValidUtf8(line.text)
  {
  }

  /** A line is read exactly when it is newline-free valid UTF-8 under the cap, ended by a newline. */
  lemma NextLineMeans(s: Bytes, text: Bytes, rest: Bytes)
    ensures NextLine(s) == (Text(text), rest) <==>
      s == text + [10] + rest && 10 !in text && |text| < 4096 && ValidUtf8(text)
  {
    hide ValidUtf8, NextLine;
    if NextLine(s) == (Text(text), rest) {
      ReadIsLine(s);
    } else if s == text + [NEWLINE] + rest && Free(text, NEWLINE) {
      LineIsRead(text, rest);
    }
  }

  function LineOf(buf: Bytes): Line {
    if buf == [] then Closed
    else if buf[|buf| - 1] != NEWLINE || !ValidUtf8(buf[..|buf| - 1]) then Rejected
    else Text(buf[..|buf| - 1])
  }

  lemma TakenLine(buf: Bytes, rest: Bytes)
    requires |buf| <= MAX_LINE_BYTES && Free(buf[..|buf| - (if buf == [] then 0 else 1)], NEWLINE)
    requires |buf| == MAX_LINE_BYTES || rest == [] || (buf != [] && buf[|buf| - 1] == NEWLINE)
    ensures NextLine(buf + rest) == (LineOf(buf), rest)
  {
    hide ValidUtf8, LineEnd;
    var s := buf + rest;
    var n := LineEnd(s);
    assert forall i :: 0 <= i < |buf| ==> s[i] == buf[i];
    assert forall i :: 0 <= i < |buf| - 1 ==> buf[i] == buf[..|buf| - 1][i];
    assert |buf| == if n < MAX_LINE_BYTES then n else MAX_LINE_BYTES;
    assert s[|buf|..] == rest;
    if buf != [] {
      assert s[..|buf| - 1] == buf[..|buf| - 1];
    }
  }

  /** The read side of a connection: what the peer sends, not yet consumed. */
  class Reader {
    var stream: Bytes

    constructor (stream: Bytes)
      ensures this.stream == stream
    {
      this.stream := stream;
    }

    method ReadCappedLine() returns (line: Line)
      modifies this
      ensures (line, stream) == NextLine(old(stream))
    {
      hide ValidUtf8, NextLine;
      var buf: Bytes := [];
      while |buf| < MAX_LINE_BYTES && stream != [] && (buf == [] || buf[|buf| - 1] != NEWLINE)
        invariant old(stream) == buf + stream
        invariant |buf| <= MAX_LINE_BYTES
        invariant Free(buf[..|buf| - (if buf == [] then 0 else 1)], NEWLINE)
        decreases |stream|
      {
        assert buf != [] ==> buf == buf[..|buf| - 1] + [buf[|buf| - 1]];
        assert Free(buf, NEWLINE);
        assert (buf + [stream[0]])[..|buf|] == buf;
        buf := buf + [stream[0]];
        stream := stream[1..];
      }
      TakenLine(buf, stream);
      if buf == [] {
        return Closed;
      }
      var text := buf[..|buf| - 1];
      if buf[|buf| - 1] != NEWLINE || !ValidUtf8(text) {
        return Rejected;
      }
      return Text(text);
    }
  }
}
