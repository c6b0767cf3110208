/** The packed-colour codec: a pixel is one Java `int` whose bits 23..16 hold
    red, 15..8 green and 7..0 blue; bits above 23 (an alpha byte, say) are
    ignored when the colour is read back. */
module ColorCodec {

  /** A Java `int`: a signed 32-bit two's-complement word. */
  type Word = x: int | -0x8000_0000 <= x < 0x8000_0000

  const WordModulus: int := 0x1_0000_0000
  /** Weight of the lowest red and green bit in a packed word (1 << 16, 1 << 8). */
  const RedUnit: int := 0x1_0000
  const GreenUnit: int := 0x100
  /** Number of distinct values of one channel, and of the 24 colour bits. */
  const ByteRange: int := 0x100
  const ColorRange: int := 0x100_0000

  predicate IsByte(x: int) {
    0 <= x < ByteRange
  }

  /** Java's wrap-around of an unbounded result into 32 bits: the unique word
      congruent to `x` modulo 2^32. */
  function Wrap(x: int): (r: Word)
    ensures r % WordModulus == x % WordModulus
    ensures -0x8000_0000 <= x < 0x8000_0000 ==> r == x
  {
    var m := x % WordModulus;
    if m < 0x8000_0000 then m else m - WordModulus
  }

  /** `(rgb & 0xff0000) >> 16`. With Euclidean division a negative word is
      read through its two's-complement bits, as Java's mask does. */
  function UnpackRed(rgb: Word): (red: int)
    ensures IsByte(red)
  {
    (rgb / RedUnit) % ByteRange
  }

  /** `(rgb & 0xff00) >> 8`. */
  function UnpackGreen(rgb: Word): (green: int)
    ensures IsByte(green)
  {
    (rgb / GreenUnit) % ByteRange
  }

  /** `rgb & 0xff`. */
  function UnpackBlue(rgb: Word): (blue: int)
    ensures IsByte(blue)
  {
    rgb % ByteRange
  }

  /** `(red << 16) + (green << 8) + blue` in 32-bit arithmetic: both the shifts
      and the additions wrap, so the whole sum is wrapped once. Out-of-range
      components are not rejected; they simply spill into the other fields. */
  function PackInt(red: Word, green: Word, blue: Word): (rgb: Word)
    ensures IsByte(red) && IsByte(green) && IsByte(blue) ==> 0 <= rgb < ColorRange
  {
    Wrap(red * RedUnit + green * GreenUnit + blue)
  }

  /** Unpacking a packed triple of bytes gives back each byte exactly. */
  lemma PackUnpack(red: int, green: int, blue: int)
    requires IsByte(red) && IsByte(green) && IsByte(blue)
    ensures UnpackRed(PackInt(red, green, blue)) == red
    ensures UnpackGreen(PackInt(red, green, blue)) == green
    ensures UnpackBlue(PackInt(red, green, blue)) == blue
  {
    var rgb := PackInt(red, green, blue);
    assert rgb == red * RedUnit + green * GreenUnit + blue;
    assert rgb / GreenUnit == red * ByteRange + green;
    assert rgb / RedUnit == red;
  }

  /** Repacking the three unpacked channels of any word keeps exactly its low
      24 bits: the codec is a bijection between byte triples and 0 .. 2^24-1. */
  lemma UnpackPack(rgb: Word)
    ensures PackInt(UnpackRed(rgb), UnpackGreen(rgb), UnpackBlue(rgb)) == rgb % ColorRange
  {
    var q := rgb / GreenUnit;
    assert rgb == q * GreenUnit + UnpackBlue(rgb);
    assert q == (q / ByteRange) * ByteRange + UnpackGreen(rgb);
    assert q / ByteRange == rgb / RedUnit;
    var p := rgb / RedUnit;
    assert p == (p / ByteRange) * ByteRange + UnpackRed(rgb);
    assert rgb == (p / ByteRange) * ColorRange
      + UnpackRed(rgb) * RedUnit + UnpackGreen(rgb) * GreenUnit + UnpackBlue(rgb);
  }

  /** A word that uses only the 24 colour bits is rebuilt exactly. */
  lemma RepackColor(rgb: Word)
    requires 0 <= rgb < ColorRange
    ensures PackInt(UnpackRed(rgb), UnpackGreen(rgb), UnpackBlue(rgb)) == rgb
  {
    UnpackPack(rgb);
  }

  /** The bits above bit 23 take no part in any channel: adding any multiple of
      2^24 (an alpha byte, or the sign) leaves red, green and blue unchanged. */
  lemma UnpackIgnoresHighBits(rgb: Word, k: int)
    requires -0x8000_0000 <= rgb + k * ColorRange < 0x8000_0000
    ensures UnpackRed(rgb + k * ColorRange) == UnpackRed(rgb)
    ensures UnpackGreen(rgb + k * ColorRange) == UnpackGreen(rgb)
    ensures UnpackBlue(rgb + k * ColorRange) == UnpackBlue(rgb)
  {
    var x: Word := rgb + k * ColorRange;
    assert x == rgb + k * ByteRange * RedUnit;
    FieldIgnoresHighBits(rgb, k, RedUnit);
    assert x == rgb + (k * ByteRange) * ByteRange * GreenUnit;
    FieldIgnoresHighBits(rgb, k * ByteRange, GreenUnit);
    assert x == rgb + (k * RedUnit) * ByteRange * 1;
    FieldIgnoresHighBits(rgb, k * RedUnit, 1);
  }

  /** The byte at weight `unit` (1, 2^8 or 2^16) does not see a multiple of
      256 units added to the word. */
  lemma FieldIgnoresHighBits(rgb: int, j: int, unit: int)
    requires unit == 1 || unit == GreenUnit || unit == RedUnit
    ensures ((rgb + j * ByteRange * unit) / unit) % ByteRange == (rgb / unit) % ByteRange
  {
    var q, r := rgb / unit, rgb % unit;
    assert rgb + j * ByteRange * unit == (q + j * ByteRange) * unit + r;
    assert (rgb + j * ByteRange * unit) / unit == q + j * ByteRange;
  }
}
