/** Bytes, SHA-256 digests and their lowercase hexadecimal rendering
    (`hash.map { String(format: "%02x", $0) }.joined()`), plus the UTF-8
    view of a string (`Data(password.utf8)`) that password hashing feeds to
    the digest. SHA-256 itself is not modelled: every caller receives it as a
    function-typed parameter whose results are 32 bytes long. */
module Hex {
  import opened Wrappers

  newtype byte = x: int | 0 <= x < 256

  type Bytes = seq<byte>

  /** A SHA-256 digest: exactly 32 bytes. */
  type Digest = d: Bytes | |d| == 32 witness seq(32, _ => 0)

  const HexDigits: string := "0123456789abcdef"

  predicate IsHexChar(c: char)
  {
    '0' <= c <= '9' || 'a' <= c <= 'f'
  }

  function HexDigit(n: nat): (c: char)
    requires n < 16
    ensures IsHexChar(c)
  {
    HexDigits[n]
  }

  /** The value of one lowercase hex digit, or None for any other character. */
  function HexValue(c: char): (r: Option<nat>)
    ensures r.Some? <==> IsHexChar(c)
    ensures r.Some? ==> r.value < 16 && HexDigit(r.value) == c
  {
    if '0' <= c <= '9' then Some(c as int - '0' as int)
    else if 'a' <= c <= 'f' then Some(c as int - 'a' as int + 10)
    else None
  }

  /** `String(format: "%02x", b)`: two lowercase hex digits, high nibble first. */
  function HexByte(b: byte): (s: string)
    ensures |s| == 2 && IsHexChar(s[0]) && IsHexChar(s[1])
  {
    [HexDigit(b as int / 16), HexDigit(b as int % 16)]
  }

  /** The hex rendering of a byte sequence: two characters per byte. */
  function HexEncode(bs: Bytes): (s: string)
    ensures |s| == 2 * |bs|
    ensures forall i :: 0 <= i < |s| ==> IsHexChar(s[i])
  {
    if bs == [] then "" else HexByte(bs[0]) + HexEncode(bs[1..])
  }

  /** The byte named by two lowercase hex digits, high nibble first. */
  function PairValue(hi: char, lo: char): byte
    requires IsHexChar(hi) && IsHexChar(lo)
  {
    (16 * HexValue(hi).value + HexValue(lo).value) as byte
  }

  /** Reads a hex rendering back into bytes; None unless the text has an even
      length and only lowercase hex digits. */
  function HexDecode(s: string): (r: Option<Bytes>)
    ensures r.Some? ==> 2 * |r.value| == |s|
  {
    if s == [] then Some([])
    else if |s| == 1 || !IsHexChar(s[0]) || !IsHexChar(s[1]) then None
    else
      match HexDecode(s[2..])
      case None => None
      case Some(rest) => Some([PairValue(s[0], s[1])] + rest)
  }

  lemma PairValueOfHexByte(b: byte)
    ensures PairValue(HexByte(b)[0], HexByte(b)[1]) == b
  {
    var n := b as int;
    assert HexValue(HexByte(b)[0]) == Some(n / 16);
    assert HexValue(HexByte(b)[1]) == Some(n % 16);
  }

  lemma {:induction false} HexRoundTrip(bs: Bytes)
    ensures HexDecode(HexEncode(bs)) == Some(bs)
  {
    if bs != [] {
      var s := HexEncode(bs);
      assert s[..2] == HexByte(bs[0]);
      assert s[2..] == HexEncode(bs[1..]);
      HexRoundTrip(bs[1..]);
      PairValueOfHexByte(bs[0]);
      assert bs == [bs[0]] + bs[1..];
    }
  }

  /** Two byte sequences with the same rendering are equal: the tag shown for a
      file determines its digest. */
  lemma HexEncodeInjective(a: Bytes, b: Bytes)
    requires HexEncode(a) == HexEncode(b)
    ensures a == b
  {
    HexRoundTrip(a);
    HexRoundTrip(b);
  }

  /** The rendering of a SHA-256 digest is 64 lowercase hex characters. */
  lemma DigestHexShape(d: Digest)
    ensures |HexEncode(d)| == 64
    ensures forall i :: 0 <= i < 64 ==> IsHexChar(HexEncode(d)[i])
  {
  }

  /** The UTF-8 bytes of one Unicode scalar value. */
  function Utf8Char(c: char): (r: Bytes)
    ensures 1 <= |r| <= 4
    ensures c as int < 0x80 <==> |r| == 1
    ensures c as int < 0x80 ==> r[0] as int == c as int
  {
    var n := c as int;
    if n < 0x80 then [n as byte]
    else if n < 0x800 then [(0xC0 + n / 64) as byte, (0x80 + n % 64) as byte]
    else if n < 0x10000 then
      [(0xE0 + n / 4096) as byte, (0x80 + n / 64 % 64) as byte, (0x80 + n % 64) as byte]
    else
      [(0xF0 + n / 262144) as byte, (0x80 + n / 4096 % 64) as byte,
       (0x80 + n / 64 % 64) as byte, (0x80 + n % 64) as byte]
  }

  /** `Data(s.utf8)`: the UTF-8 encoding of a string. */
  function Utf8(s: string): (r: Bytes)
    ensures |s| <= |r| <= 4 * |s|
    ensures (forall i :: 0 <= i < |s| ==> s[i] as int < 0x80) ==> |r| == |s|
  {
    if s == [] then [] else Utf8Char(s[0]) + Utf8(s[1..])
  }

  /** The lead byte of a character's encoding tells how many bytes it takes:
      below 0x80 one, 0xC0..0xDF two, 0xE0..0xEF three, 0xF0 and up four. */
  lemma Utf8CharLead(c: char)
    ensures var r := Utf8Char(c);
      && (|r| == 1 <==> r[0] < 0x80)
      && (|r| == 2 <==> 0xC0 <= r[0] < 0xE0)
      && (|r| == 3 <==> 0xE0 <= r[0] < 0xF0)
      && (|r| == 4 <==> 0xF0 <= r[0])
  {
  }

  lemma DivBy4096(n: nat)
    ensures n / 64 / 64 == n / 4096
    ensures n / 4096 / 64 == n / 262144
  {
    var q, r := n / 4096, n % 4096;
    assert n == 4096 * q + r && r < 4096;
    assert n / 64 == 64 * q + r / 64;
    var q2, r2 := n / 262144, n % 262144;
    assert n == 262144 * q2 + r2 && r2 < 262144;
    assert n / 4096 == 64 * q2 + r2 / 4096;
  }

  /** Different characters have different encodings. */
  lemma Utf8CharInjective(c: char, d: char)
    requires Utf8Char(c) == Utf8Char(d)
    ensures c == d
  {
    var n, m := c as int, d as int;
    var r := Utf8Char(c);
    DivBy4096(n);
    DivBy4096(m);
    if |r| == 2 {
      assert n / 64 == m / 64 && n % 64 == m % 64;
    } else if |r| == 3 {
      assert n / 4096 == m / 4096 && n / 64 % 64 == m / 64 % 64 && n % 64 == m % 64;
    } else if |r| == 4 {
      assert n / 262144 == m / 262144 && n / 4096 % 64 == m / 4096 % 64;
      assert n / 64 % 64 == m / 64 % 64 && n % 64 == m % 64;
    }
  }

  /** An encoded character followed by more bytes can be split off in only
      one way. */
  lemma Utf8CharPrefixFree(c: char, d: char, s: Bytes, t: Bytes)
    requires Utf8Char(c) + s == Utf8Char(d) + t
    ensures c == d && s == t
  {
    var rc, rd := Utf8Char(c), Utf8Char(d);
    assert rc[0] == (rc + s)[0] == (rd + t)[0] == rd[0];
    Utf8CharLead(c);
    Utf8CharLead(d);
    assert rc == (rc + s)[..|rc|] == (rd + t)[..|rd|] == rd;
    Utf8CharInjective(c, d);
    assert s == (rc + s)[|rc|..] == (rd + t)[|rd|..] == t;
  }

  /** Different strings have different UTF-8 encodings. */
  lemma {:induction false} Utf8Injective(a: string, b: string)
    requires Utf8(a) == Utf8(b)
    ensures a == b
  {
    if a != [] && b != [] {
      Utf8CharPrefixFree(a[0], b[0], Utf8(a[1..]), Utf8(b[1..]));
      Utf8Injective(a[1..], b[1..]);
      assert a == [a[0]] + a[1..] && b == [b[0]] + b[1..];
    }
  }
}
