/**
 * The channel extraction the direct conversion applies to each value of
 * `BufferedImage.getRGB`: alpha in bits 24-31, red in 16-23, green in 8-15,
 * blue in 0-7 of the 32-bit pattern.
 *
 * Java's `(argb >> n) & 0xFF` is written `(argb / 2^n) % 0x100`: Dafny's `/`
 * by a positive divisor rounds down, which is exactly an arithmetic right
 * shift, and `% 0x100` keeps the low eight bits of the two's-complement value.
 */
module PixelBits {
  import opened JavaTypes

  /** `(argb >> 24) & 0xFF` */
  function Alpha(argb: int32): (c: uint8)
    ensures c == Unsigned32(argb) / 0x100_0000
  {
    SameLowByteAfterShift(argb, 0x100_0000);
    (argb / 0x100_0000) % 0x100
  }

  /** `(argb >> 16) & 0xFF` */
  function Red(argb: int32): (c: uint8)
    ensures c == (Unsigned32(argb) / 0x1_0000) % 0x100
  {
    SameLowByteAfterShift(argb, 0x1_0000);
    (argb / 0x1_0000) % 0x100
  }

  /** `(argb >> 8) & 0xFF` */
  function Green(argb: int32): (c: uint8)
    ensures c == (Unsigned32(argb) / 0x100) % 0x100
  {
    SameLowByteAfterShift(argb, 0x100);
    (argb / 0x100) % 0x100
  }

  /** `argb & 0xFF` */
  function Blue(argb: int32): (c: uint8)
    ensures c == Unsigned32(argb) % 0x100
  {
    argb % 0x100
  }

  /** The ARGB value AWT packs from four channels (the inverse of extraction). */
  function PackArgb(a: uint8, r: uint8, g: uint8, b: uint8): (argb: int32) {
    Signed32(a * 0x100_0000 + r * 0x1_0000 + g * 0x100 + b)
  }

  /**
   * Shifting the signed value or its unsigned pattern right by 8, 16 or 24
   * bits leaves the same low byte: the two differ by a multiple of 2^32.
   */
  lemma SameLowByteAfterShift(argb: int32, d: int)
    requires d == 0x100 || d == 0x1_0000 || d == 0x100_0000
    ensures (argb / d) % 0x100 == (Unsigned32(argb) / d) % 0x100
  {
    if argb < 0 {
      var u, q := Unsigned32(argb), argb / d;
      if d == 0x100 {
        DivModOf(u, 0x100, q + 0x100_0000, argb % 0x100);
        DivModOf(q + 0x100_0000, 0x100, q / 0x100 + 0x1_0000, q % 0x100);
      } else if d == 0x1_0000 {
        DivModOf(u, 0x1_0000, q + 0x1_0000, argb % 0x1_0000);
        DivModOf(q + 0x1_0000, 0x100, q / 0x100 + 0x100, q % 0x100);
      } else {
        DivModOf(u, 0x100_0000, q + 0x100, argb % 0x100_0000);
        DivModOf(q + 0x100, 0x100, q / 0x100 + 1, q % 0x100);
      }
    }
  }

  /** Extraction loses nothing: the four channels rebuild the 32-bit pattern. */
  lemma ChannelsRecompose(argb: int32)
    ensures Unsigned32(argb) ==
            Alpha(argb) * 0x100_0000 + Red(argb) * 0x1_0000 + Green(argb) * 0x100 + Blue(argb)
  {
    var u := Unsigned32(argb);
    var q1 := u / 0x100;
    var q2 := q1 / 0x100;
    assert u / 0x1_0000 == q2;
    assert u / 0x100_0000 == q2 / 0x100;
  }

  /** Unpacking after packing gives back each channel. */
  lemma UnpackPack(a: uint8, r: uint8, g: uint8, b: uint8)
    ensures Alpha(PackArgb(a, r, g, b)) == a
    ensures Red(PackArgb(a, r, g, b)) == r
    ensures Green(PackArgb(a, r, g, b)) == g
    ensures Blue(PackArgb(a, r, g, b)) == b
  {
    var u := a * 0x100_0000 + r * 0x1_0000 + g * 0x100 + b;
    assert Unsigned32(PackArgb(a, r, g, b)) == u;
    var q1, q2 := a * 0x1_0000 + r * 0x100 + g, a * 0x100 + r;
    DivModOf(u, 0x100, q1, b);
    DivModOf(q1, 0x100, q2, g);
    DivModOf(q2, 0x100, a, r);
    DivModOf(u, 0x1_0000, q2, g * 0x100 + b);
    DivModOf(u, 0x100_0000, a, r * 0x1_0000 + g * 0x100 + b);
  }

  /** Division with remainder is unique. */
  lemma DivModOf(n: int, d: int, q: int, m: int)
    requires d > 0 && n == q * d + m && 0 <= m < d
    ensures n / d == q && n % d == m
  {
    var q', m' := n / d, n % d;
    assert (q' - q) * d == m - m';
    if q' != q {
      var k := if q' > q then q' - q else q - q';
      assert k * d == m - m' || k * d == m' - m;
      AtLeastOneMultiple(k, d);
    }
  }

  lemma AtLeastOneMultiple(k: int, d: int)
    requires k >= 1 && d > 0
    ensures k * d >= d
  {
    assert k * d == (k - 1) * d + d;
  }

  /** Packing after unpacking gives back the original value. */
  lemma PackUnpack(argb: int32)
    ensures PackArgb(Alpha(argb), Red(argb), Green(argb), Blue(argb)) == argb
  {
    ChannelsRecompose(argb);
  }
}
