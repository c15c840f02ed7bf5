/**
 * Java's fixed-width integers as subsets of Dafny's unbounded `int`, and the
 * `& 0xFF` widening of a signed byte.
 */
module JavaTypes {

  /** Java's `byte`: a signed two's-complement 8-bit integer. */
  type int8 = x: int | -0x80 <= x < 0x80

  /** Java's `int`: a signed two's-complement 32-bit integer. */
  type int32 = x: int | -0x8000_0000 <= x < 0x8000_0000

  /** An unsigned 8-bit value, the range of a colour channel. */
  type uint8 = x: int | 0 <= x < 0x100

  /**
   * Java's `b & 0xFF` on a byte: the byte is widened to an int (sign-extended)
   * and its low eight bits kept. Dafny's `%` by a positive divisor is never
   * negative, so `b % 0x100` is exactly those eight bits.
   */
  function UnsignedByte(b: int8): (r: uint8)
    ensures (r - b) % 0x100 == 0
    ensures b >= 0 ==> r == b
    ensures b < 0 ==> r == b + 0x100
  {
    b % 0x100
  }

  /** Java's `(byte) u` narrowing cast of an unsigned 8-bit value. */
  function ByteCast(u: uint8): (b: int8)
    ensures (u - b) % 0x100 == 0
  {
    if u < 0x80 then u else u - 0x100
  }

  /** `& 0xFF` loses nothing: casting back gives the original signed byte. */
  lemma UnsignedByteRoundTrip(b: int8)
    ensures ByteCast(UnsignedByte(b)) == b
  {
  }

  /** And every unsigned 8-bit value is the `& 0xFF` of exactly one byte. */
  lemma ByteCastRoundTrip(u: uint8)
    ensures UnsignedByte(ByteCast(u)) == u
  {
  }

  /** The 32-bit pattern of a Java `int`, read as an unsigned number. */
  function Unsigned32(v: int32): (u: int)
    ensures 0 <= u < 0x1_0000_0000
    ensures (u - v) % 0x1_0000_0000 == 0
  {
    if v < 0 then v + 0x1_0000_0000 else v
  }

  /** Java's `(int)` narrowing of a 32-bit unsigned pattern. */
  function Signed32(u: int): (v: int32)
    requires 0 <= u < 0x1_0000_0000
    ensures (u - v) % 0x1_0000_0000 == 0
  {
    if u < 0x8000_0000 then u else u - 0x1_0000_0000
  }
}
