/** Bytes and Go's encoding/hex.EncodeToString (lower-case digits). */
module Hex {

  type byte = b: int | 0 <= b < 256

  /** Go's hextable. */
  const HexTable: string := "0123456789abcdef"

  /** Entry d of the digit table, computed by range; HexDigitTable shows it is the table's entry. */
  function HexDigit(d: int): char
    requires 0 <= d < 16
  {
    if d < 10 then ('0' as int + d) as char else ('a' as int + d - 10) as char
  }

  /** A character of the digit table. */
  predicate IsHexDigit(c: char)
  {
    '0' <= c <= '9' || 'a' <= c <= 'f'
  }

  predicate IsLowerHex(s: string)
  {
    forall i :: 0 <= i < |s| ==> IsHexDigit(s[i])
  }

  /** hex.EncodeToString: two lower-case digits per byte, high nibble first. */
  function EncodeToString(bs: seq<byte>): (s: string)
    ensures |s| == 2 * |bs|
    ensures IsLowerHex(s)
  {
    if |bs| == 0 then ""
    else [HexDigit(bs[0] / 16), HexDigit(bs[0] % 16)] + EncodeToString(bs[1..])
  }

  /** The value of a lower-case hex digit: the position of the digit in the table. */
  function DigitValue(c: char): (v: int)
    requires IsHexDigit(c)
    ensures 0 <= v < 16 && HexDigit(v) == c
  {
    if '0' <= c <= '9' then c as int - '0' as int else c as int - 'a' as int + 10
  }

  /** The inverse of EncodeToString on lower-case input of even length. */
  function DecodeLower(s: string): (bs: seq<byte>)
    requires |s| % 2 == 0 && IsLowerHex(s)
    ensures |bs| == |s| / 2
  {
    if |s| == 0 then []
    else [DigitValue(s[0]) * 16 + DigitValue(s[1])] + DecodeLower(s[2..])
  }

  /** The digit computed for d is entry d of Go's hextable. */
  lemma HexDigitTable(d: int)
    requires 0 <= d < 16
    ensures HexDigit(d) == HexTable[d]
  {
  }

  /** Every table entry is a digit, and its value is its position. */
  lemma DigitsValue(n: int)
    requires 0 <= n < 16
    ensures IsHexDigit(HexDigit(n))
    ensures DigitValue(HexDigit(n)) == n
  {
  }

  /** Decoding the two digits of a byte gives the byte back. */
  lemma DecodeDigitPair(b: byte)
    ensures DigitValue(HexDigit(b / 16)) * 16 + DigitValue(HexDigit(b % 16)) == b
  {
    DigitsValue(b / 16);
    DigitsValue(b % 16);
  }

  /** Decoding an encoding gives the bytes back. */
  lemma {:induction false} DecodeEncode(bs: seq<byte>)
    ensures DecodeLower(EncodeToString(bs)) == bs
  {
    if |bs| > 0 {
      var b := bs[0];
      var rest := EncodeToString(bs[1..]);
      var s := EncodeToString(bs);
      assert s == [HexDigit(b / 16), HexDigit(b % 16)] + rest;
      assert s[0] == HexDigit(b / 16) && s[1] == HexDigit(b % 16) && s[2..] == rest;
      DecodeEncode(bs[1..]);
      DecodeDigitPair(b);
      assert [b] + bs[1..] == bs;
    }
  }

  /** Encoding works byte by byte: the encoding of a concatenation is the concatenation of the encodings. */
  lemma {:induction false} EncodeConcat(a: seq<byte>, b: seq<byte>)
    ensures EncodeToString(a + b) == EncodeToString(a) + EncodeToString(b)
  {
    if |a| > 0 {
      assert (a + b)[1..] == a[1..] + b;
      EncodeConcat(a[1..], b);
    } else {
      assert a + b == b;
    }
  }

  /** The encoding of four bytes, digit by digit. */
  lemma EncodeWord(a: byte, b: byte, c: byte, d: byte)
    ensures EncodeToString([a, b, c, d]) ==
              [HexDigit(a / 16), HexDigit(a % 16), HexDigit(b / 16), HexDigit(b % 16),
               HexDigit(c / 16), HexDigit(c % 16), HexDigit(d / 16), HexDigit(d % 16)]
  {
    var w := [a, b, c, d];
    assert w[1..] == [b, c, d];
    assert w[1..][1..] == [c, d];
    assert w[1..][1..][1..] == [d];
    assert EncodeToString([d]) == [HexDigit(d / 16), HexDigit(d % 16)];
    assert EncodeToString([c, d]) == [HexDigit(c / 16), HexDigit(c % 16)] + EncodeToString([d]);
    assert EncodeToString([b, c, d]) == [HexDigit(b / 16), HexDigit(b % 16)] + EncodeToString([c, d]);
  }

  /** Different bytes never share an encoding. */
  lemma EncodeInjective(a: seq<byte>, b: seq<byte>)
    requires EncodeToString(a) == EncodeToString(b)
    ensures a == b
  {
    DecodeEncode(a);
    DecodeEncode(b);
  }
}
