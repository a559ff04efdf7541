/**
 * The `Data` extension of Data+Hex.swift: the `hex` printer and the
 * regex-driven `Data(from:)` parser.
 */
module Hex {
  import opened Bytes

  /** A character the pattern `[0-9a-fA-F]` accepts. */
  predicate IsHexDigit(c: char) {
    '0' <= c <= '9' || 'a' <= c <= 'f' || 'A' <= c <= 'F'
  }

  /** What `UInt8(_, radix: 16)` gives one digit, in either case. */
  function DigitValue(c: char): (v: nat)
    requires IsHexDigit(c)
    ensures v < 16
  {
    if '0' <= c <= '9' then c as int - '0' as int
    else if 'a' <= c <= 'f' then c as int - 'a' as int + 10
    else c as int - 'A' as int + 10
  }

  /** The digit `String(_, radix: 16)` writes: lower case. */
  function DigitChar(v: nat): (c: char)
    requires v < 16
    ensures IsHexDigit(c) && DigitValue(c) == v
    ensures !('A' <= c <= 'F')
  {
    if v < 10 then (v + '0' as int) as char else (v - 10 + 'a' as int) as char
  }

  /** The number a string of hex digits denotes, most significant digit first. */
  function NumeralValue(s: string): nat
    requires forall i :: 0 <= i < |s| ==> IsHexDigit(s[i])
  {
    if s == [] then 0 else NumeralValue(s[..|s| - 1]) * 16 + DigitValue(s[|s| - 1])
  }

  /** `String(b, radix: 16)`: base 16, lower case, no leading zero. */
  function ByteHex(b: byte): (r: string)
    ensures |r| == (if b < 0x10 then 1 else 2)
    ensures forall i :: 0 <= i < |r| ==> IsHexDigit(r[i]) && !('A' <= r[i] <= 'F')
    ensures NumeralValue(r) == b
    ensures |r| == 2 ==> r[0] != '0'
  {
    if b < 0x10 then
      NumeralPair('0', DigitChar(b));
      [DigitChar(b)]
    else
      NumeralPair(DigitChar(b / 16), DigitChar(b % 16));
      [DigitChar(b / 16), DigitChar(b % 16)]
  }

  lemma NumeralPair(x: char, y: char)
    requires IsHexDigit(x) && IsHexDigit(y)
    ensures NumeralValue([x, y]) == DigitValue(x) * 16 + DigitValue(y)
    ensures NumeralValue([y]) == DigitValue(y)
  {
    assert [x, y][..1] == [x];
    assert [x][..0] == [] && [y][..0] == [];
    assert NumeralValue([x]) == DigitValue(x);
    assert NumeralValue([x, y]) == NumeralValue([x]) * 16 + DigitValue(y);
  }

  /** A leading pair of digits becomes the first byte. */
  lemma ParsePair(h: string, t: string)
    requires |h| == 2 && IsHexDigit(h[0]) && IsHexDigit(h[1])
    ensures Parse(h + t) == [DigitValue(h[0]) * 16 + DigitValue(h[1])] + Parse(t)
  {
    assert (h + t)[2..] == t;
  }

  /** `Data.hex`: the renderings of the bytes, joined with no separator. */
  function ToHex(d: seq<byte>): (r: string)
    ensures forall i :: 0 <= i < |r| ==> IsHexDigit(r[i]) && !('A' <= r[i] <= 'F')
  {
    if d == [] then "" else ByteHex(d[0]) + ToHex(d[1..])
  }

  /** The number of bytes at or above 0x10, the ones rendered with two digits. */
  function WideCount(d: seq<byte>): (n: nat)
    ensures n <= |d|
  {
    if d == [] then 0 else (if d[0] >= 0x10 then 1 else 0) + WideCount(d[1..])
  }

  /** One character per byte plus one per byte at or above 0x10: between n and 2n characters, none for no bytes. */
  lemma {:induction false} ToHexLength(d: seq<byte>)
    ensures |ToHex(d)| == |d| + WideCount(d)
    ensures |d| <= |ToHex(d)| <= 2 * |d|
    ensures |ToHex(d)| == 0 <==> |d| == 0
  {
    if d != [] {
      ToHexLength(d[1..]);
    }
  }

  /**
   * `Data(from:)`: the regex `([0-9a-fA-F]{2})` finds non-overlapping pairs of
   * adjacent digits left to right; each pair becomes one byte and everything
   * else, including a lone digit, is skipped.
   */
  function Parse(s: string): (r: seq<byte>)
    ensures |r| <= |s| / 2
    decreases |s|
  {
    if |s| >= 2 && IsHexDigit(s[0]) && IsHexDigit(s[1]) then
      [DigitValue(s[0]) * 16 + DigitValue(s[1])] + Parse(s[2..])
    else if s == [] then []
    else Parse(s[1..])
  }

  /** A character that is not a hex digit separates: what comes before it and after it parse independently. */
  lemma {:induction false} ParseSeparated(a: string, c: char, b: string)
    requires !IsHexDigit(c)
    ensures Parse(a + [c] + b) == Parse(a) + Parse(b)
    decreases |a|
  {
    var s := a + [c] + b;
    if |a| >= 2 && IsHexDigit(a[0]) && IsHexDigit(a[1]) {
      assert s[2..] == a[2..] + [c] + b;
      ParseSeparated(a[2..], c, b);
    } else if a == [] {
      assert s[1..] == b;
    } else if |a| == 1 {
      assert s[1..] == [c] + b;
      assert ([c] + b)[1..] == b;
      assert Parse(a) == Parse(a[1..]) == [];
    } else {
      assert s[1..] == a[1..] + [c] + b;
      ParseSeparated(a[1..], c, b);
    }
  }

  /** On a run of digits the parser pairs them up from the left and drops a lone last digit. */
  lemma {:induction false} ParseDigits(s: string)
    requires forall i :: 0 <= i < |s| ==> IsHexDigit(s[i])
    ensures |Parse(s)| == |s| / 2
    ensures forall k :: 0 <= k < |s| / 2 ==> Parse(s)[k] == DigitValue(s[2 * k]) * 16 + DigitValue(s[2 * k + 1])
    decreases |s|
  {
    if |s| >= 2 {
      ParseDigits(s[2..]);
      forall k | 1 <= k < |s| / 2
        ensures Parse(s)[k] == DigitValue(s[2 * k]) * 16 + DigitValue(s[2 * k + 1])
      {
        assert Parse(s)[k] == Parse(s[2..])[k - 1];
        assert s[2..][2 * (k - 1)] == s[2 * k];
        assert s[2..][2 * (k - 1) + 1] == s[2 * k + 1];
      }
    }
  }

  /** ASCII upper case to lower case, everything else unchanged. */
  function LowerAscii(s: string): (r: string)
    ensures |r| == |s|
    ensures forall i :: 0 <= i < |s| ==> r[i] == if 'A' <= s[i] <= 'Z' then (s[i] as int + 32) as char else s[i]
  {
    seq(|s|, i requires 0 <= i < |s| => if 'A' <= s[i] <= 'Z' then (s[i] as int + 32) as char else s[i])
  }

  /** The parser does not see letter case. */
  lemma {:induction false} ParseIgnoresCase(s: string)
    ensures Parse(LowerAscii(s)) == Parse(s)
    decreases |s|
  {
    var l := LowerAscii(s);
    if |s| >= 2 {
      assert LowerAscii(s[2..]) == l[2..];
      ParseIgnoresCase(s[2..]);
    }
    if |s| >= 1 {
      assert LowerAscii(s[1..]) == l[1..];
      ParseIgnoresCase(s[1..]);
    }
  }

  /** The two cases of a pair give the same byte. */
  lemma ParseUpperAndLower()
    ensures Parse("AB") == Parse("ab") == [0xAB]
  {
    assert Parse("AB") == [0xAB] + Parse("");
    assert Parse("ab") == [0xAB] + Parse("");
  }

  /** The printer and the parser agree on every byte string whose bytes all take two digits. */
  lemma {:induction false} ParseToHex(d: seq<byte>)
    requires forall i :: 0 <= i < |d| ==> d[i] >= 0x10
    ensures Parse(ToHex(d)) == d
  {
    if d != [] {
      var h := ByteHex(d[0]);
      assert h == [h[0], h[1]];
      NumeralPair(h[0], h[1]);
      ParsePair(h, ToHex(d[1..]));
      ParseToHex(d[1..]);
      assert d == [d[0]] + d[1..];
    }
  }

  /** A concrete failure of the round trip: [0x01, 0x23] prints "123", which parses to [0x12]. */
  lemma ParseToHexLosesShortBytes()
    ensures ToHex([0x01, 0x23]) == "123"
    ensures Parse(ToHex([0x01, 0x23])) == [0x12]
  {
    assert ToHex([0x01, 0x23]) == ByteHex(0x01) + ToHex([0x23]);
    assert ToHex([0x23]) == ByteHex(0x23) + ToHex([]);
    assert ByteHex(0x01) == "1";
    assert ByteHex(0x23) == "23";
    assert Parse("123") == [0x12] + Parse("3");
    assert Parse("3") == Parse("");
  }

  /** A byte below 0x10 is rendered with one digit, so fewer than all bytes are wide. */
  lemma {:induction false} ShortByteNarrows(d: seq<byte>)
    requires exists i :: 0 <= i < |d| && d[i] < 0x10
    ensures WideCount(d) < |d|
  {
    if d[0] >= 0x10 {
      var i :| 0 <= i < |d| && d[i] < 0x10;
      assert d[1..][i - 1] == d[i];
      ShortByteNarrows(d[1..]);
    } else {
      assert WideCount(d[1..]) <= |d[1..]|;
    }
  }

  /**
   * The round trip through the printer and the parser holds exactly for the
   * byte strings whose bytes are all at least 0x10: one short byte makes the
   * text too short to parse back to as many bytes.
   */
  lemma RoundTripOnlyIfWide(d: seq<byte>)
    ensures Parse(ToHex(d)) == d <==> forall i :: 0 <= i < |d| ==> d[i] >= 0x10
  {
    if forall i :: 0 <= i < |d| ==> d[i] >= 0x10 {
      ParseToHex(d);
    } else {
      ShortByteNarrows(d);
      ToHexLength(d);
      assert |Parse(ToHex(d))| <= (|d| + WideCount(d)) / 2 < |d|;
    }
  }

  /** `String(format: "%02x", b)`: the rendering the printer evidently intends, always two digits. */
  function ByteHexPadded(b: byte): (r: string)
    ensures |r| == 2 && IsHexDigit(r[0]) && IsHexDigit(r[1])
    ensures DigitValue(r[0]) * 16 + DigitValue(r[1]) == b
  {
    [DigitChar(b / 16), DigitChar(b % 16)]
  }

  /** `Data.hex` with every byte zero-padded to two digits. */
  function ToHexPadded(d: seq<byte>): (r: string)
    ensures |r| == 2 * |d|
  {
    if d == [] then "" else ByteHexPadded(d[0]) + ToHexPadded(d[1..])
  }

  /** With zero padding the parser inverts the printer on every byte string. */
  lemma {:induction false} ParseToHexPadded(d: seq<byte>)
    ensures Parse(ToHexPadded(d)) == d
  {
    if d != [] {
      var h := ByteHexPadded(d[0]);
      ParsePair(h, ToHexPadded(d[1..]));
      ParseToHexPadded(d[1..]);
      assert d == [d[0]] + d[1..];
    }
  }
}
