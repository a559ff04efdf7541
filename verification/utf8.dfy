/**
 * UTF-8 as Foundation uses it for `String.data(using: .utf8)` and
 * `String(bytes:encoding: .utf8)`: the encoding of RFC 3629, with the strict
 * well-formedness rules of its section 4 (no overlong forms, no surrogates,
 * nothing above U+10FFFF). A Dafny `char` is a Unicode scalar value.
 */
module Utf8 {
  import opened Wrappers
  import opened Bytes

  predicate IsContinuation(b: byte) {
    0x80 <= b < 0xC0
  }

  predicate IsScalar(cp: int) {
    0 <= cp < 0xD800 || 0xE000 <= cp < 0x11_0000
  }

  /** The one to four bytes of one scalar value (RFC 3629, section 3). */
  function EncodeChar(c: char): (r: seq<byte>)
    ensures 1 <= |r| <= 4
    ensures |r| == 1 <==> c as int < 0x80
  {
    var cp := c as int;
    if cp < 0x80 then
      [cp]
    else if cp < 0x800 then
      [0xC0 + cp / 0x40, 0x80 + cp % 0x40]
    else if cp < 0x1_0000 then
      [0xE0 + cp / 0x1000, 0x80 + (cp / 0x40) % 0x40, 0x80 + cp % 0x40]
    else
      [0xF0 + cp / 0x4_0000, 0x80 + (cp / 0x1000) % 0x40, 0x80 + (cp / 0x40) % 0x40, 0x80 + cp % 0x40]
  }

  /** `s.data(using: .utf8)`, which never fails for a Swift string. */
  function Encode(s: string): (r: seq<byte>)
    ensures |s| <= |r| <= 4 * |s|
  {
    if s == [] then [] else EncodeChar(s[0]) + Encode(s[1..])
  }

  /** A decoded scalar value and the number of bytes it took. */
  datatype Decoded = Decoded(c: char, width: nat)

  /** The scalar value at the head of `b`, or None when `b` does not start with a well-formed sequence. */
  function DecodeChar(b: seq<byte>): (r: Option<Decoded>)
    requires |b| > 0
    ensures r.Some? ==> 1 <= r.value.width <= |b| && r.value.width <= 4
  {
    var b0: int := b[0];
    if b0 < 0x80 then
      Some(Decoded(b0 as char, 1))
    else if 0xC2 <= b0 < 0xE0 then
      if |b| >= 2 && IsContinuation(b[1]) then
        Some(Decoded(((b0 - 0xC0) * 0x40 + (b[1] as int - 0x80)) as char, 2))
      else None
    else if 0xE0 <= b0 < 0xF0 then
      if |b| >= 3 && IsContinuation(b[1]) && IsContinuation(b[2]) then
        var cp := (b0 - 0xE0) * 0x1000 + (b[1] as int - 0x80) * 0x40 + (b[2] as int - 0x80);
        if 0x800 <= cp && IsScalar(cp) then Some(Decoded(cp as char, 3)) else None
      else None
    else if 0xF0 <= b0 < 0xF5 then
      if |b| >= 4 && IsContinuation(b[1]) && IsContinuation(b[2]) && IsContinuation(b[3]) then
        var cp := (b0 - 0xF0) * 0x4_0000 + (b[1] as int - 0x80) * 0x1000 + (b[2] as int - 0x80) * 0x40
          + (b[3] as int - 0x80);
        if 0x1_0000 <= cp < 0x11_0000 then Some(Decoded(cp as char, 4)) else None
      else None
    else
      None
  }

  /** `String(bytes: b, encoding: .utf8)`: None unless all of `b` is well-formed UTF-8. */
  function Decode(b: seq<byte>): (r: Option<string>)
    ensures r.Some? ==> |r.value| <= |b|
    decreases |b|
  {
    if b == [] then Some([])
    else match DecodeChar(b)
      case None => None
      case Some(d) =>
        match Decode(b[d.width..])
        case None => None
        case Some(rest) => Some([d.c] + rest)
  }

  lemma DecodeEncodeChar(c: char, rest: seq<byte>)
    ensures DecodeChar(EncodeChar(c) + rest) == Some(Decoded(c, |EncodeChar(c)|))
  {
    var cp := c as int;
    if cp < 0x80 {
    } else if cp < 0x800 {
      DecodeEncodeTwo(c, rest);
    } else if cp < 0x1_0000 {
      DecodeEncodeThree(c, rest);
    } else {
      DecodeEncodeFour(c, rest);
    }
  }

  lemma DecodeEncodeTwo(c: char, rest: seq<byte>)
    requires 0x80 <= c as int < 0x800
    ensures DecodeChar(EncodeChar(c) + rest) == Some(Decoded(c, 2))
  {
    var cp := c as int;
    var b := EncodeChar(c) + rest;
    assert b[0] as int - 0xC0 == cp / 0x40 && b[1] as int - 0x80 == cp % 0x40;
    assert (cp / 0x40) * 0x40 + cp % 0x40 == cp;
  }

  lemma DecodeEncodeThree(c: char, rest: seq<byte>)
    requires 0x800 <= c as int < 0x1_0000
    ensures DecodeChar(EncodeChar(c) + rest) == Some(Decoded(c, 3))
  {
    var cp := c as int;
    var b := EncodeChar(c) + rest;
    var x0, x1, x2 := cp / 0x1000, (cp / 0x40) % 0x40, cp % 0x40;
    assert b[0] as int - 0xE0 == x0 && b[1] as int - 0x80 == x1 && b[2] as int - 0x80 == x2;
    ThreeDigits(cp);
  }

  lemma DecodeEncodeFour(c: char, rest: seq<byte>)
    requires 0x1_0000 <= c as int
    ensures DecodeChar(EncodeChar(c) + rest) == Some(Decoded(c, 4))
  {
    var cp := c as int;
    var b := EncodeChar(c) + rest;
    var x0, x1, x2, x3 := cp / 0x4_0000, (cp / 0x1000) % 0x40, (cp / 0x40) % 0x40, cp % 0x40;
    assert b[0] as int - 0xF0 == x0 && b[1] as int - 0x80 == x1;
    assert b[2] as int - 0x80 == x2 && b[3] as int - 0x80 == x3;
    FourDigits(cp);
  }

  /** A value is its three base-64 digits. */
  lemma ThreeDigits(cp: int)
    requires 0 <= cp
    ensures (cp / 0x1000) * 0x1000 + ((cp / 0x40) % 0x40) * 0x40 + cp % 0x40 == cp
  {
    var q1 := cp / 0x40;
    assert cp == q1 * 0x40 + cp % 0x40;
    assert q1 == (q1 / 0x40) * 0x40 + q1 % 0x40;
    NestedDivision(cp);
  }

  /** A value is its four base-64 digits. */
  lemma FourDigits(cp: int)
    requires 0 <= cp
    ensures (cp / 0x4_0000) * 0x4_0000 + ((cp / 0x1000) % 0x40) * 0x1000
      + ((cp / 0x40) % 0x40) * 0x40 + cp % 0x40 == cp
  {
    var q2 := cp / 0x1000;
    ThreeDigits(cp);
    assert q2 == (q2 / 0x40) * 0x40 + q2 % 0x40;
    NestedDivisionHigh(cp);
  }

  /** Two steps of 64 are one step of 4096. */
  lemma NestedDivision(a: int)
    requires 0 <= a
    ensures (a / 0x40) / 0x40 == a / 0x1000
  {
    var q, r := a / 0x1000, a % 0x1000;
    assert r == (r / 0x40) * 0x40 + r % 0x40;
    assert a == (q * 0x40 + r / 0x40) * 0x40 + r % 0x40;
    Base64Digits(q * 0x40 + r / 0x40, r % 0x40);
    Base64Digits(q, r / 0x40);
  }

  /** A step of 4096 and one of 64 are one step of 262144. */
  lemma NestedDivisionHigh(a: int)
    requires 0 <= a
    ensures (a / 0x1000) / 0x40 == a / 0x4_0000
  {
    var q, r := a / 0x4_0000, a % 0x4_0000;
    assert r == (r / 0x1000) * 0x1000 + r % 0x1000;
    assert a == (q * 0x40 + r / 0x1000) * 0x1000 + r % 0x1000;
    assert (a / 0x1000) == q * 0x40 + r / 0x1000;
    Base64Digits(q, r / 0x1000);
  }

  /** Splitting `q * 64 + r` back into its digits. */
  lemma Base64Digits(q: int, r: int)
    requires 0 <= q && 0 <= r < 0x40
    ensures (q * 0x40 + r) / 0x40 == q && (q * 0x40 + r) % 0x40 == r
  {
  }

  lemma EncodeTwo(x0: int, x1: int)
    requires 0 <= x1 < 0x40 && 2 <= x0 < 0x20
    ensures var cp := x0 * 0x40 + x1; 0x80 <= cp < 0x800 && cp / 0x40 == x0 && cp % 0x40 == x1
  {
    Base64Digits(x0, x1);
  }

  lemma EncodeThree(x0: int, x1: int, x2: int)
    requires 0 <= x0 < 0x10 && 0 <= x1 < 0x40 && 0 <= x2 < 0x40
    ensures var cp := x0 * 0x1000 + x1 * 0x40 + x2;
      cp / 0x1000 == x0 && (cp / 0x40) % 0x40 == x1 && cp % 0x40 == x2
  {
    var cp := x0 * 0x1000 + x1 * 0x40 + x2;
    Base64Digits(x0 * 0x40 + x1, x2);
    Base64Digits(x0, x1);
    assert cp / 0x40 == x0 * 0x40 + x1;
  }

  lemma EncodeFour(x0: int, x1: int, x2: int, x3: int)
    requires 0 <= x0 < 0x8 && 0 <= x1 < 0x40 && 0 <= x2 < 0x40 && 0 <= x3 < 0x40
    ensures var cp := x0 * 0x4_0000 + x1 * 0x1000 + x2 * 0x40 + x3;
      cp / 0x4_0000 == x0 && (cp / 0x1000) % 0x40 == x1 && (cp / 0x40) % 0x40 == x2 && cp % 0x40 == x3
  {
    var cp := x0 * 0x4_0000 + x1 * 0x1000 + x2 * 0x40 + x3;
    Base64Digits(x0 * 0x1000 + x1 * 0x40 + x2, x3);
    assert cp / 0x40 == x0 * 0x1000 + x1 * 0x40 + x2;
    EncodeThree(x0, x1, x2);
    assert cp / 0x1000 == (cp / 0x40) / 0x40;
  }

  lemma EncodeDecodeChar(b: seq<byte>)
    requires |b| > 0 && DecodeChar(b).Some?
    ensures EncodeChar(DecodeChar(b).value.c) == b[..DecodeChar(b).value.width]
  {
    var b0: int := b[0];
    if b0 < 0x80 {
    } else if b0 < 0xE0 {
      EncodeTwo(b0 - 0xC0, b[1] as int - 0x80);
    } else if b0 < 0xF0 {
      EncodeThree(b0 - 0xE0, b[1] as int - 0x80, b[2] as int - 0x80);
    } else {
      EncodeFour(b0 - 0xF0, b[1] as int - 0x80, b[2] as int - 0x80, b[3] as int - 0x80);
    }
  }

  /** Decoding inverts encoding: every Swift string survives a trip through its UTF-8 bytes. */
  lemma {:induction false} DecodeEncode(s: string)
    ensures Decode(Encode(s)) == Some(s)
  {
    if s != [] {
      var e := EncodeChar(s[0]);
      assert Encode(s) == e + Encode(s[1..]);
      DecodeEncodeChar(s[0], Encode(s[1..]));
      assert (e + Encode(s[1..]))[|e|..] == Encode(s[1..]);
      DecodeEncode(s[1..]);
      assert [s[0]] + s[1..] == s;
    }
  }

  /** Encoding inverts decoding: a byte string that decodes is exactly the encoding of what it decodes to. */
  lemma {:induction false} EncodeDecode(b: seq<byte>)
    ensures Decode(b).Some? ==> Encode(Decode(b).value) == b
    decreases |b|
  {
    if b != [] && Decode(b).Some? {
      var d := DecodeChar(b).value;
      var tail := b[d.width..];
      DecodeStep(b);
      var rest := Decode(tail).value;
      calc {
        Encode(Decode(b).value);
        Encode([d.c] + rest);
        { EncodeCons(d.c, rest); }
        EncodeChar(d.c) + Encode(rest);
        { EncodeDecodeChar(b); EncodeDecode(tail); }
        b[..d.width] + tail;
        b;
      }
    }
  }

  /** A well-formed byte string decodes to its first scalar value followed by the decoding of the rest. */
  lemma DecodeStep(b: seq<byte>)
    requires b != [] && Decode(b).Some?
    ensures DecodeChar(b).Some?
    ensures Decode(b[DecodeChar(b).value.width..]).Some?
    ensures Decode(b).value == [DecodeChar(b).value.c] + Decode(b[DecodeChar(b).value.width..]).value
  {
  }

  lemma EncodeCons(c: char, s: string)
    ensures Encode([c] + s) == EncodeChar(c) + Encode(s)
  {
    assert ([c] + s)[1..] == s;
  }

  /** Every character of an ASCII string is one byte, its code. */
  lemma {:induction false} EncodeAscii(s: string)
    requires forall i :: 0 <= i < |s| ==> s[i] as int < 0x80
    ensures |Encode(s)| == |s|
    ensures forall i :: 0 <= i < |s| ==> Encode(s)[i] == s[i] as int
  {
    if s != [] {
      EncodeAscii(s[1..]);
      assert Encode(s) == [s[0] as int] + Encode(s[1..]);
    }
  }
}
