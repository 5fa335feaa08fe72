/**
  `urllib.parse.unquote_to_bytes(s).decode('utf-8')`, the decoding the script
  applies to the last segment of a link: the string is encoded as UTF-8, every
  `%` followed by two hexadecimal digits becomes the byte they denote
  (percent-decoding as in section 2.1 of RFC 3986; any other `%` stays as it
  is), and the bytes are decoded strictly as UTF-8 (RFC 3629).
*/
module Percent {
  import opened Wrappers
  import Utf8

  type Byte = Utf8.Byte

  const PercentSign: Byte := 0x25

  predicate IsHexDigit(b: Byte) {
    0x30 <= b <= 0x39 || 0x41 <= b <= 0x46 || 0x61 <= b <= 0x66
  }

  function HexValue(b: Byte): (v: int)
    requires IsHexDigit(b)
    ensures 0 <= v < 16
  {
    if b <= 0x39 then b - 0x30 else if b <= 0x46 then b - 0x41 + 10 else b - 0x61 + 10
  }

  /** The upper-case hexadecimal digit of `v`, as `quote` writes it. */
  function HexDigit(v: int): (b: Byte)
    requires 0 <= v < 16
    ensures IsHexDigit(b) && HexValue(b) == v
  {
    if v < 10 then 0x30 + v else 0x41 + v - 10
  }

  /** `unquote_to_bytes` on bytes: each well-formed `%XY` triplet becomes one byte. */
  function PercentDecode(bs: seq<Byte>): seq<Byte> {
    if bs == [] then []
    else if |bs| >= 3 && bs[0] == PercentSign && IsHexDigit(bs[1]) && IsHexDigit(bs[2])
    then [HexValue(bs[1]) * 16 + HexValue(bs[2])] + PercentDecode(bs[3..])
    else [bs[0]] + PercentDecode(bs[1..])
  }

  /** The unreserved characters of section 2.3 of RFC 3986, which `quote(s, safe='')` leaves alone. */
  predicate IsUnreserved(b: Byte) {
    0x41 <= b <= 0x5A || 0x61 <= b <= 0x7A || 0x30 <= b <= 0x39
    || b == 0x2D || b == 0x2E || b == 0x5F || b == 0x7E
  }

  /** Percent-encoding that writes every byte outside `literal` as a `%XY` triplet. */
  function PercentEncode(bs: seq<Byte>, literal: set<Byte>): (r: seq<Byte>)
    requires forall b :: b in literal ==> b < 0x80
    ensures Utf8.IsAscii(r)
  {
    if bs == [] then []
    else if bs[0] in literal then [bs[0]] + PercentEncode(bs[1..], literal)
    else [PercentSign, HexDigit(bs[0] / 16), HexDigit(bs[0] % 16)] + PercentEncode(bs[1..], literal)
  }

  /** Percent-decoding undoes percent-encoding whenever `%` itself is always escaped. */
  lemma {:induction false} DecodeEncodeBytes(bs: seq<Byte>, literal: set<Byte>)
    requires forall b :: b in literal ==> b < 0x80
    requires PercentSign !in literal
    ensures PercentDecode(PercentEncode(bs, literal)) == bs
  {
    if bs != [] {
      var tail := PercentEncode(bs[1..], literal);
      DecodeEncodeBytes(bs[1..], literal);
      if bs[0] in literal {
        assert ([bs[0]] + tail)[1..] == tail;
      } else {
        var e := [PercentSign, HexDigit(bs[0] / 16), HexDigit(bs[0] % 16)] + tail;
        assert e[3..] == tail;
        assert HexValue(e[1]) * 16 + HexValue(e[2]) == bs[0];
      }
      assert [bs[0]] + bs[1..] == bs;
    }
  }

  /** Bytes without a `%` come through percent-decoding unchanged. */
  lemma {:induction false} DecodePlainBytes(bs: seq<Byte>)
    requires PercentSign !in bs
    ensures PercentDecode(bs) == bs
  {
    if bs != [] {
      DecodePlainBytes(bs[1..]);
      assert [bs[0]] + bs[1..] == bs;
    }
  }

  /** `urllib.parse.unquote_to_bytes(s).decode('utf-8')`; `None` where the decode raises. */
  function Unquote(s: string): Option<string> {
    Utf8.Decode(PercentDecode(Utf8.Encode(s)))
  }

  /** `urllib.parse.quote(s, safe='')`: the UTF-8 bytes of `s`, escaped except the unreserved ones. */
  function Quote(s: string): string {
    var literal := set b: Byte | IsUnreserved(b);
    Utf8.AsciiString(PercentEncode(Utf8.Encode(s), literal))
  }

  /** Decoding a quoted segment gives back the original text. */
  lemma UnquoteQuote(s: string)
    ensures Unquote(Quote(s)) == Some(s)
  {
    var literal := set b: Byte | IsUnreserved(b);
    var bytes := PercentEncode(Utf8.Encode(s), literal);
    Utf8.EncodeAscii(bytes);
    DecodeEncodeBytes(Utf8.Encode(s), literal);
    Utf8.DecodeEncode(s);
  }

  /** A segment with no `%` decodes to itself. */
  lemma UnquotePlain(s: string)
    requires '%' !in s
    ensures Unquote(s) == Some(s)
  {
    Utf8.AsciiByteInEncoding(s, PercentSign);
    DecodePlainBytes(Utf8.Encode(s));
    Utf8.DecodeEncode(s);
  }

  /** Decoding succeeds exactly on the segments whose decoded bytes are the UTF-8 form of some text. */
  lemma UnquoteExact(s: string, t: string)
    ensures Unquote(s) == Some(t) <==> Utf8.Encode(t) == PercentDecode(Utf8.Encode(s))
  {
    if Unquote(s) == Some(t) {
      Utf8.DecodedIsEncoding(PercentDecode(Utf8.Encode(s)), t);
    }
    if Utf8.Encode(t) == PercentDecode(Utf8.Encode(s)) {
      Utf8.DecodeEncode(t);
    }
  }
}
