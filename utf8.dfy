/**
  UTF-8 as RFC 3629 defines it: `str.encode('utf-8')` on a string of Unicode
  scalar values, and the strict `bytes.decode('utf-8')`, which refuses
  overlong forms, surrogates, values above U+10FFFF and truncated sequences.
*/
module Utf8 {
  import opened Wrappers

  type Byte = b: int | 0 <= b < 0x100

  /** The UTF-8 form of one character: one to four bytes. */
  function EncodeChar(c: char): (bs: seq<Byte>)
    ensures 1 <= |bs| <= 4
  {
    var n := c as int;
    if n < 0x80 then [n]
    else if n < 0x800 then [0xC0 + n / 64, 0x80 + n % 64]
    else if n < 0x10000 then [0xE0 + n / 64 / 64, 0x80 + n / 64 % 64, 0x80 + n % 64]
    else [0xF0 + n / 64 / 64 / 64, 0x80 + n / 64 / 64 % 64, 0x80 + n / 64 % 64, 0x80 + n % 64]
  }

  function Encode(s: string): seq<Byte> {
    if s == [] then [] else EncodeChar(s[0]) + Encode(s[1..])
  }

  predicate IsCont(b: Byte) {
    0x80 <= b < 0xC0
  }

  /** Smallest second byte allowed after a lead byte (excludes overlong forms). */
  function SecondLo(b0: Byte): Byte {
    if b0 == 0xE0 then 0xA0 else if b0 == 0xF0 then 0x90 else 0x80
  }

  /** Largest second byte allowed after a lead byte (excludes surrogates and values past U+10FFFF). */
  function SecondHi(b0: Byte): Byte {
    if b0 == 0xED then 0x9F else if b0 == 0xF4 then 0x8F else 0xBF
  }

  /** The character at the front of `bs` and the number of bytes it takes, if well formed. */
  function DecodeFirst(bs: seq<Byte>): (r: Option<(char, nat)>)
    requires |bs| > 0
    ensures r.Some? ==> 1 <= r.value.1 <= |bs| && r.value.1 <= 4
  {
    var b0 := bs[0];
    if b0 < 0x80 then Some((b0 as char, 1))
    else if 0xC2 <= b0 < 0xE0 then
      if |bs| >= 2 && IsCont(bs[1])
      then Some((((b0 as int - 0xC0) * 0x40 + (bs[1] as int - 0x80)) as char, 2))
      else None
    else if 0xE0 <= b0 < 0xF0 then
      if |bs| >= 3 && SecondLo(b0) <= bs[1] <= SecondHi(b0) && IsCont(bs[2])
      then Some((((b0 as int - 0xE0) * 0x1000 + (bs[1] as int - 0x80) * 0x40 + (bs[2] as int - 0x80)) as char, 3))
      else None
    else if 0xF0 <= b0 < 0xF5 then
      if |bs| >= 4 && SecondLo(b0) <= bs[1] <= SecondHi(b0) && IsCont(bs[2]) && IsCont(bs[3])
      then Some((((b0 as int - 0xF0) * 0x40000 + (bs[1] as int - 0x80) * 0x1000 + (bs[2] as int - 0x80) * 0x40 + (bs[3] as int - 0x80)) as char, 4))
      else None
    else None
  }

  /** Strict decoding: `None` where Python raises `UnicodeDecodeError`. */
  function Decode(bs: seq<Byte>): Option<string>
    decreases |bs|
  {
    if bs == [] then Some([])
    else match DecodeFirst(bs)
      case None => None
      case Some((c, k)) =>
        match Decode(bs[k..])
        case None => None
        case Some(rest) => Some([c] + rest)
  }

  /** Division by 64 is determined by quotient and remainder. */
  lemma Split64(n: int, q: int, r: int)
    requires n == q * 64 + r && 0 <= r < 64
    ensures n / 64 == q && n % 64 == r
  {
  }

  lemma DecodeFirstOfEncoded(c: char, rest: seq<Byte>)
    ensures DecodeFirst(EncodeChar(c) + rest) == Some((c, |EncodeChar(c)|))
  {
    var n := c as int;
    var bs := EncodeChar(c) + rest;
    if n < 0x80 {
    } else if n < 0x800 {
      assert bs[0] == 0xC0 + n / 64 && bs[1] == 0x80 + n % 64;
    } else if n < 0x10000 {
      DecodeFirstOfEncoded3(c, bs);
    } else {
      DecodeFirstOfEncoded4(c, bs);
    }
  }

  lemma DecodeFirstOfEncoded3(c: char, bs: seq<Byte>)
    requires 0x800 <= c as int < 0x10000 && |bs| >= 3 && bs[..3] == EncodeChar(c)
    ensures DecodeFirst(bs) == Some((c, 3))
  {
    var n := c as int;
    var q1, r0 := n / 64, n % 64;
    var q2, r1 := q1 / 64, q1 % 64;
    assert n == q1 * 64 + r0 && q1 == q2 * 64 + r1;
    assert bs[0] == 0xE0 + q2 && bs[1] == 0x80 + r1 && bs[2] == 0x80 + r0;
  }

  lemma DecodeFirstOfEncoded4(c: char, bs: seq<Byte>)
    requires 0x10000 <= c as int && |bs| >= 4 && bs[..4] == EncodeChar(c)
    ensures DecodeFirst(bs) == Some((c, 4))
  {
    var n := c as int;
    var q1, r0 := n / 64, n % 64;
    var q2, r1 := q1 / 64, q1 % 64;
    var q3, r2 := q2 / 64, q2 % 64;
    assert n == q1 * 64 + r0 && q1 == q2 * 64 + r1 && q2 == q3 * 64 + r2;
    assert bs[0] == 0xF0 + q3 && bs[1] == 0x80 + r2 && bs[2] == 0x80 + r1 && bs[3] == 0x80 + r0;
  }

  lemma EncodeOfDecoded2(bs: seq<Byte>)
    requires |bs| >= 2 && 0xC2 <= bs[0] < 0xE0 && DecodeFirst(bs).Some?
    ensures EncodeChar(DecodeFirst(bs).value.0) == bs[..2]
  {
    var b0: int, b1: int := bs[0], bs[1];
    var n := DecodeFirst(bs).value.0 as int;
    assert n == (b0 - 0xC0) * 64 + (b1 - 0x80);
    Split64(n, b0 - 0xC0, b1 - 0x80);
  }

  lemma EncodeOfDecoded3(bs: seq<Byte>)
    requires |bs| >= 3 && 0xE0 <= bs[0] < 0xF0 && DecodeFirst(bs).Some?
    ensures EncodeChar(DecodeFirst(bs).value.0) == bs[..3]
  {
    var b0: int, b1: int, b2: int := bs[0], bs[1], bs[2];
    var n := DecodeFirst(bs).value.0 as int;
    var q1 := (b0 - 0xE0) * 64 + (b1 - 0x80);
    assert n == q1 * 64 + (b2 - 0x80);
    Split64(n, q1, b2 - 0x80);
    Split64(q1, b0 - 0xE0, b1 - 0x80);
  }

  lemma EncodeOfDecoded4(bs: seq<Byte>)
    requires |bs| >= 4 && 0xF0 <= bs[0] && DecodeFirst(bs).Some?
    ensures EncodeChar(DecodeFirst(bs).value.0) == bs[..4]
  {
    var b0: int, b1: int, b2: int, b3: int := bs[0], bs[1], bs[2], bs[3];
    var n := DecodeFirst(bs).value.0 as int;
    var q2 := (b0 - 0xF0) * 64 + (b1 - 0x80);
    var q1 := q2 * 64 + (b2 - 0x80);
    assert n == q1 * 64 + (b3 - 0x80);
    Split64(n, q1, b3 - 0x80);
    Split64(q1, q2, b2 - 0x80);
    Split64(q2, b0 - 0xF0, b1 - 0x80);
  }

  /** The bytes a well-formed sequence occupies are exactly the encoding of the character it denotes. */
  lemma EncodeOfDecoded(bs: seq<Byte>)
    requires |bs| > 0 && DecodeFirst(bs).Some?
    ensures EncodeChar(DecodeFirst(bs).value.0) == bs[..DecodeFirst(bs).value.1]
  {
    if bs[0] < 0x80 {
    } else if bs[0] < 0xE0 {
      EncodeOfDecoded2(bs);
    } else if bs[0] < 0xF0 {
      EncodeOfDecoded3(bs);
    } else {
      EncodeOfDecoded4(bs);
    }
  }

  /** Decoding undoes encoding: every string survives the round trip. */
  lemma {:induction false} DecodeEncode(s: string)
    ensures Decode(Encode(s)) == Some(s)
  {
    if s != [] {
      var head := EncodeChar(s[0]);
      DecodeFirstOfEncoded(s[0], Encode(s[1..]));
      assert (head + Encode(s[1..]))[|head|..] == Encode(s[1..]);
      DecodeEncode(s[1..]);
      assert [s[0]] + s[1..] == s;
    }
  }

  /** Decoding is exact: a byte string decodes to `s` only if it is the encoding of `s`. */
  lemma {:induction false} DecodedIsEncoding(bs: seq<Byte>, s: string)
    requires Decode(bs) == Some(s)
    ensures Encode(s) == bs
    decreases |bs|
  {
    if bs != [] {
      var k := DecodeFirst(bs).value.1;
      EncodeOfDecoded(bs);
      DecodedIsEncoding(bs[k..], s[1..]);
      assert bs == bs[..k] + bs[k..];
    }
  }

  /** Characters below U+0080 are encoded as themselves. */
  predicate IsAscii(bs: seq<Byte>) {
    forall i :: 0 <= i < |bs| ==> bs[i] < 0x80
  }

  function AsciiString(bs: seq<Byte>): (s: string)
    requires IsAscii(bs)
    ensures |s| == |bs|
  {
    if bs == [] then [] else [bs[0] as char] + AsciiString(bs[1..])
  }

  lemma {:induction false} EncodeAscii(bs: seq<Byte>)
    requires IsAscii(bs)
    ensures Encode(AsciiString(bs)) == bs
  {
    if bs != [] {
      EncodeAscii(bs[1..]);
      assert AsciiString(bs)[1..] == AsciiString(bs[1..]);
    }
  }

  /** A character's encoding holds byte `b < 0x80` only when the character is that byte. */
  lemma {:induction false} AsciiByteInEncoding(s: string, b: Byte)
    requires b < 0x80 && b as char !in s
    ensures b !in Encode(s)
  {
    if s != [] {
      AsciiByteInEncoding(s[1..], b);
      assert s[0] != b as char;
    }
  }
}
