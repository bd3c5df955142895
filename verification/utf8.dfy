/**
 The UTF-8 side of the byte counter: ICU's `U8_LENGTH` on a scalar value, and the
 encoding table of section 3 of RFC 3629 that it summarises, written out so that
 the width can be checked against the bytes it stands for.
 */
module Utf8 {
  import Utf16

  type Byte = b: int | 0 <= b < 0x100

  /** ICU's `U8_LENGTH` on a scalar value: 1, 2, 3 or 4 bytes by range. */
  function Width(c: Utf16.Scalar): (w: nat)
    ensures 1 <= w <= 4
  {
    if c <= 0x7F then 1
    else if c <= 0x7FF then 2
    else if c <= 0xFFFF then 3
    else 4
  }

  /** How many bytes a sequence starting with lead byte `b` takes; 0 for a byte that cannot lead. */
  function LeadLength(b: Byte): nat {
    if b < 0x80 then 1
    else if 0xC2 <= b < 0xE0 then 2
    else if 0xE0 <= b < 0xF0 then 3
    else if 0xF0 <= b < 0xF5 then 4
    else 0
  }

  predicate IsContinuation(b: Byte) { 0x80 <= b < 0xC0 }

  /** The value carried by a lead byte and its continuation bytes. */
  function DecodeScalar(bs: seq<Byte>): int
    requires 0 < |bs| == LeadLength(bs[0])
  {
    match |bs|
    case 1 => bs[0] as int
    case 2 => (bs[0] as int - 0xC0) * 0x40 + (bs[1] as int - 0x80)
    case 3 => (bs[0] as int - 0xE0) * 0x1000 + (bs[1] as int - 0x80) * 0x40 + (bs[2] as int - 0x80)
    case 4 => (bs[0] as int - 0xF0) * 0x40000 + (bs[1] as int - 0x80) * 0x1000 + (bs[2] as int - 0x80) * 0x40 + (bs[3] as int - 0x80)
  }

  /**
   The bytes of one scalar value by the table of section 3 of RFC 3629: their number
   is the width `U8_LENGTH` reports, the lead byte announces that number, the rest
   are continuation bytes, and reading them back gives the value.
   */
  function EncodeScalar(c: Utf16.Scalar): (bs: seq<Byte>)
    ensures |bs| == Width(c)
    ensures LeadLength(bs[0]) == |bs|
    ensures forall k :: 1 <= k < |bs| ==> IsContinuation(bs[k])
    ensures DecodeScalar(bs) == c
  {
    if c <= 0x7F then [c]
    else if c <= 0x7FF then
      [0xC0 + c / 0x40, 0x80 + c % 0x40]
    else if c <= 0xFFFF then
      ThreeDigits(c);
      var q := c / 0x40;
      [0xE0 + q / 0x40, 0x80 + q % 0x40, 0x80 + c % 0x40]
    else
      FourDigits(c);
      var q := c / 0x40;
      [0xF0 + q / 0x40 / 0x40, 0x80 + q / 0x40 % 0x40, 0x80 + q % 0x40, 0x80 + c % 0x40]
  }

  /** A value below U+10000 in base 64: the three 6-bit digits a three-byte form carries. */
  lemma ThreeDigits(c: int)
    requires 0 <= c < 0x1_0000
    ensures 0 <= c / 0x40 / 0x40 < 0x10
    ensures c == (c / 0x40 / 0x40) * 0x1000 + (c / 0x40 % 0x40) * 0x40 + c % 0x40
  {
    var q1 := c / 0x40;
    assert c == q1 * 0x40 + c % 0x40;
    assert q1 == q1 / 0x40 * 0x40 + q1 % 0x40;
  }

  /** A value below U+110000 in base 64: the four digits a four-byte form carries. */
  lemma FourDigits(c: int)
    requires 0 <= c < 0x11_0000
    ensures 0 <= c / 0x40 / 0x40 / 0x40 < 0x5
    ensures c == (c / 0x40 / 0x40 / 0x40) * 0x40000 + (c / 0x40 / 0x40 % 0x40) * 0x1000
                 + (c / 0x40 % 0x40) * 0x40 + c % 0x40
  {
    var q1 := c / 0x40;
    var q2 := q1 / 0x40;
    assert c == q1 * 0x40 + c % 0x40;
    assert q1 == q2 * 0x40 + q1 % 0x40;
    assert q2 == q2 / 0x40 * 0x40 + q2 % 0x40;
  }

  /** The UTF-8 form of a sequence of scalar values. */
  function Encode(cs: seq<Utf16.Scalar>): seq<Byte> {
    if |cs| == 0 then [] else EncodeScalar(cs[0]) + Encode(cs[1..])
  }
}
