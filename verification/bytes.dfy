/** Octets and the fixed-width unsigned integer encodings used by the capture
    file format (two byte orders) and by the RTAC serial prefix (big-endian). */
module Bytes {

  /** One octet. */
  newtype byte = b: int | 0 <= b < 0x100

  const U16_LIMIT: int := 0x1_0000
  const U32_LIMIT: int := 0x1_0000_0000

  /** The byte order a capture file is written in. */
  datatype ByteOrder = LittleEndian | BigEndian

  /** Reads a 16-bit unsigned integer from two bytes. */
  function GetU16(order: ByteOrder, s: seq<byte>): (v: int)
    requires |s| == 2
    ensures 0 <= v < U16_LIMIT
  {
    match order
    case LittleEndian => (s[0] as int) + 0x100 * (s[1] as int)
    case BigEndian => 0x100 * (s[0] as int) + (s[1] as int)
  }

  /** Writes a 16-bit unsigned integer as two bytes. */
  function PutU16(order: ByteOrder, v: int): (s: seq<byte>)
    requires 0 <= v < U16_LIMIT
    ensures |s| == 2
  {
    var lo := (v % 0x100) as byte;
    var hi := (v / 0x100) as byte;
    match order
    case LittleEndian => [lo, hi]
    case BigEndian => [hi, lo]
  }

  /** Reads a 32-bit unsigned integer from four bytes. */
  function GetU32(order: ByteOrder, s: seq<byte>): (v: int)
    requires |s| == 4
    ensures 0 <= v < U32_LIMIT
  {
    match order
    case LittleEndian =>
      (s[0] as int) + 0x100 * ((s[1] as int) + 0x100 * ((s[2] as int) + 0x100 * (s[3] as int)))
    case BigEndian =>
      (s[3] as int) + 0x100 * ((s[2] as int) + 0x100 * ((s[1] as int) + 0x100 * (s[0] as int)))
  }

  /** Writes a 32-bit unsigned integer as four bytes. */
  function PutU32(order: ByteOrder, v: int): (s: seq<byte>)
    requires 0 <= v < U32_LIMIT
    ensures |s| == 4
  {
    var b0 := (v % 0x100) as byte;
    var b1 := (v / 0x100 % 0x100) as byte;
    var b2 := (v / 0x100 / 0x100 % 0x100) as byte;
    var b3 := (v / 0x100 / 0x100 / 0x100) as byte;
    match order
    case LittleEndian => [b0, b1, b2, b3]
    case BigEndian => [b3, b2, b1, b0]
  }

  /** Reading back a written 16-bit integer gives the integer. */
  lemma GetPutU16(order: ByteOrder, v: int)
    requires 0 <= v < U16_LIMIT
    ensures GetU16(order, PutU16(order, v)) == v
  {
  }

  /** Reading back a written 32-bit integer gives the integer. */
  lemma GetPutU32(order: ByteOrder, v: int)
    requires 0 <= v < U32_LIMIT
    ensures GetU32(order, PutU32(order, v)) == v
  {
    var q1 := v / 0x100;
    var q2 := q1 / 0x100;
    var q3 := q2 / 0x100;
    assert v == v % 0x100 + 0x100 * q1;
    assert q1 == q1 % 0x100 + 0x100 * q2;
    assert q2 == q2 % 0x100 + 0x100 * q3;
    assert q3 < 0x100;
  }

  /** Every two-byte string is the encoding of the integer it decodes to. */
  lemma PutGetU16(order: ByteOrder, s: seq<byte>)
    requires |s| == 2
    ensures PutU16(order, GetU16(order, s)) == s
  {
  }

  /** Every four-byte string is the encoding of the integer it decodes to, so
      `PutU32` is a bijection between `[0, 2^32)` and four-byte strings. */
  lemma PutGetU32(order: ByteOrder, s: seq<byte>)
    requires |s| == 4
    ensures PutU32(order, GetU32(order, s)) == s
  {
    var le := order == LittleEndian;
    var lo, m1, m2, hi := if le then s[0] else s[3], if le then s[1] else s[2], if le then s[2] else s[1], if le then s[3] else s[0];
    var t2 := (m2 as int) + 0x100 * (hi as int);
    var t1 := (m1 as int) + 0x100 * t2;
    var v := (lo as int) + 0x100 * t1;
    assert GetU32(order, s) == v;
    DigitSplit(lo as int, t1);
    DigitSplit(m1 as int, t2);
    DigitSplit(m2 as int, hi as int);
  }

  /** Splitting off the low base-256 digit. */
  lemma DigitSplit(d: int, rest: int)
    requires 0 <= d < 0x100 && 0 <= rest
    ensures (d + 0x100 * rest) % 0x100 == d
    ensures (d + 0x100 * rest) / 0x100 == rest
  {
  }
}
