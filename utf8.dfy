/** UTF-8 as defined in section 3 of RFC 3629: the check the transcription
    path applies to a response body before returning it as text. A body is
    accepted exactly when it decodes as a well-formed UTF-8 sequence of
    Unicode scalar values (no overlong forms, no surrogates, nothing above
    U+10FFFF). */
module Utf8 {
  import opened Common

  predicate IsContinuation(b: byte) {
    0x80 <= b < 0xC0
  }

  /** The UTF-8 form of one scalar value. */
  function EncodeScalar(c: char): (r: seq<byte>)
    ensures 1 <= |r| <= 4
  {
    var x := c as int;
    if x < 0x80 then
      [x as byte]
    else if x < 0x800 then
      [(0xC0 + x / 0x40) as byte, (0x80 + x % 0x40) as byte]
    else if x < 0x1_0000 then
      [(0xE0 + x / 0x1000) as byte, (0x80 + x / 0x40 % 0x40) as byte, (0x80 + x % 0x40) as byte]
    else
      [(0xF0 + x / 0x4_0000) as byte, (0x80 + x / 0x1000 % 0x40) as byte,
       (0x80 + x / 0x40 % 0x40) as byte, (0x80 + x % 0x40) as byte]
  }

  /** The UTF-8 form of a string. */
  function Encode(s: string): seq<byte> {
    if s == [] then [] else EncodeScalar(s[0]) + Encode(s[1..])
  }

  function Cont(b: byte): int {
    b as int - 0x80
  }

  /** The scalar value at the start of `b` and the number of bytes it
      takes, or None when `b` does not start with a well-formed sequence. */
  function DecodeFirst(b: seq<byte>): (r: Option<(char, nat)>)
    requires |b| > 0
    ensures r.Some? ==> 1 <= r.value.1 <= |b|
  {
    var b0 := b[0] as int;
    if b0 < 0x80 then
      Some((b0 as char, 1))
    else if 0xC2 <= b0 <= 0xDF then
      if |b| >= 2 && IsContinuation(b[1]) then
        Some((((b0 - 0xC0) * 0x40 + Cont(b[1])) as char, 2))
      else None
    else if 0xE0 <= b0 <= 0xEF then
      var lo := if b0 == 0xE0 then 0xA0 else 0x80;
      var hi := if b0 == 0xED then 0x9F else 0xBF;
      if |b| >= 3 && lo <= b[1] as int <= hi && IsContinuation(b[2]) then
        Some((((b0 - 0xE0) * 0x1000 + Cont(b[1]) * 0x40 + Cont(b[2])) as char, 3))
      else None
    else if 0xF0 <= b0 <= 0xF4 then
      var lo := if b0 == 0xF0 then 0x90 else 0x80;
      var hi := if b0 == 0xF4 then 0x8F else 0xBF;
      if |b| >= 4 && lo <= b[1] as int <= hi && IsContinuation(b[2]) && IsContinuation(b[3]) then
        Some((((b0 - 0xF0) * 0x4_0000 + Cont(b[1]) * 0x1000 + Cont(b[2]) * 0x40 + Cont(b[3])) as char, 4))
      else None
    else
      None
  }

  /** The text a byte sequence spells in UTF-8, or None when it is not
      well-formed (what `String(data:encoding: .utf8)` returns as nil). */
  function Decode(b: seq<byte>): Option<string>
    decreases |b|
  {
    if b == [] then Some([])
    else match DecodeFirst(b)
      case None => None
      case Some((c, n)) =>
        match Decode(b[n..])
        case None => None
        case Some(rest) => Some([c] + rest)
  }

  predicate IsValid(b: seq<byte>) {
    Decode(b).Some?
  }

  // ---------------------------------------------------------------------
  // Arithmetic on digits in base 64

  /** Splitting a number into a base-64 digit and the rest is unique. */
  lemma SplitDigit(q: int, r: int)
    requires 0 <= r < 0x40
    ensures (q * 0x40 + r) / 0x40 == q && (q * 0x40 + r) % 0x40 == r
  {
  }

  // ---------------------------------------------------------------------
  // Decoding undoes encoding

  lemma DecodeEncodeScalar(c: char, rest: seq<byte>)
    ensures DecodeFirst(EncodeScalar(c) + rest) == Some((c, |EncodeScalar(c)|))
  {
    var x := c as int;
    var b := EncodeScalar(c) + rest;
    if x < 0x80 {
    } else if x < 0x800 {
      SplitDigit(x / 0x40, x % 0x40);
    } else if x < 0x1_0000 {
      var q := x / 0x40;
      SplitDigit(q / 0x40, q % 0x40);
      SplitDigit(q, x % 0x40);
      assert x / 0x1000 == q / 0x40;
    } else {
      var q := x / 0x40;
      var q2 := q / 0x40;
      assert x / 0x1000 == q2;
      assert x / 0x4_0000 == q2 / 0x40;
    }
  }

  lemma {:induction false} DecodeEncode(s: string)
    ensures Decode(Encode(s)) == Some(s)
    decreases |s|
  {
    if s != [] {
      var e := EncodeScalar(s[0]);
      DecodeEncodeScalar(s[0], Encode(s[1..]));
      assert (e + Encode(s[1..]))[|e|..] == Encode(s[1..]);
      DecodeEncode(s[1..]);
      assert [s[0]] + s[1..] == s;
    }
  }

  // ---------------------------------------------------------------------
  // Encoding undoes decoding

  lemma DigitsOfTwo(b0: int, c1: int)
    requires 0xC2 <= b0 <= 0xDF && 0 <= c1 < 0x40
    ensures var x := (b0 - 0xC0) * 0x40 + c1;
      0x80 <= x < 0x800 && x / 0x40 == b0 - 0xC0 && x % 0x40 == c1
  {
    SplitDigit(b0 - 0xC0, c1);
  }

  lemma DigitsOfThree(b0: int, c1: int, c2: int)
    requires 0xE0 <= b0 <= 0xEF && 0 <= c1 < 0x40 && 0 <= c2 < 0x40
    requires b0 == 0xE0 ==> c1 >= 0x20
    ensures var x := (b0 - 0xE0) * 0x1000 + c1 * 0x40 + c2;
      0x800 <= x < 0x1_0000 && x / 0x1000 == b0 - 0xE0 && x / 0x40 % 0x40 == c1 && x % 0x40 == c2
  {
    var q := (b0 - 0xE0) * 0x40 + c1;
    var x := (b0 - 0xE0) * 0x1000 + c1 * 0x40 + c2;
    assert x == q * 0x40 + c2;
    SplitDigit(q, c2);
    SplitDigit(b0 - 0xE0, c1);
  }

  lemma DigitsOfFour(b0: int, c1: int, c2: int, c3: int)
    requires 0xF0 <= b0 <= 0xF4 && 0 <= c1 < 0x40 && 0 <= c2 < 0x40 && 0 <= c3 < 0x40
    requires b0 == 0xF0 ==> c1 >= 0x10
    ensures var x := (b0 - 0xF0) * 0x4_0000 + c1 * 0x1000 + c2 * 0x40 + c3;
      0x1_0000 <= x && x / 0x4_0000 == b0 - 0xF0 && x / 0x1000 % 0x40 == c1
      && x / 0x40 % 0x40 == c2 && x % 0x40 == c3
  {
    var q2 := (b0 - 0xF0) * 0x40 + c1;
    var q := q2 * 0x40 + c2;
    var x := (b0 - 0xF0) * 0x4_0000 + c1 * 0x1000 + c2 * 0x40 + c3;
    assert x == q * 0x40 + c3;
    SplitDigit(q, c3);
    SplitDigit(q2, c2);
    SplitDigit(b0 - 0xF0, c1);
    assert x / 0x1000 == q2;
    assert x / 0x4_0000 == q2 / 0x40;
  }

  lemma EncodeDecodeScalar(b: seq<byte>)
    requires |b| > 0 && DecodeFirst(b).Some?
    ensures EncodeScalar(DecodeFirst(b).value.0) == b[..DecodeFirst(b).value.1]
  {
    var (c, n) := DecodeFirst(b).value;
    var b0 := b[0] as int;
    if n == 2 {
      DigitsOfTwo(b0, Cont(b[1]));
    } else if n == 3 {
      DigitsOfThree(b0, Cont(b[1]), Cont(b[2]));
    } else if n == 4 {
      DigitsOfFour(b0, Cont(b[1]), Cont(b[2]), Cont(b[3]));
    }
  }

  lemma {:induction false} EncodeDecode(b: seq<byte>)
    requires IsValid(b)
    ensures Encode(Decode(b).value) == b
    decreases |b|
  {
    if b != [] {
      var (c, n) := DecodeFirst(b).value;
      EncodeDecodeScalar(b);
      EncodeDecode(b[n..]);
      var s := Decode(b).value;
      assert s == [c] + Decode(b[n..]).value;
      assert s[0] == c && s[1..] == Decode(b[n..]).value;
      assert b == b[..n] + b[n..];
    }
  }

  /** A body is accepted as UTF-8 exactly when it is the UTF-8 form of some
      text, and that text is then the one decoded. */
  lemma ValidIffEncoding(b: seq<byte>)
    ensures IsValid(b) <==> exists s :: Encode(s) == b
    ensures IsValid(b) ==> Encode(Decode(b).value) == b
  {
    if IsValid(b) {
      EncodeDecode(b);
    }
    if s :| Encode(s) == b {
      DecodeEncode(s);
    }
  }
}
