/**
 * Packing and unpacking of a 32-bit ARGB pixel: alpha in bits 24-31, red in
 * bits 16-23, green in bits 8-15, blue in bits 0-7. A Java `int` pixel is
 * modelled by its 32-bit pattern, so `&`, `|`, `<<` and `>>` are the
 * bit-vector operators; each channel comes out as a mathematical integer.
 */
module PixelCodec {
  import opened JavaInt

  /** A pixel's three channels, unpacked. */
  datatype Color = Color(red: int, green: int, blue: int)

  /** Every channel is an 8-bit intensity. */
  predicate IsChannelColor(c: Color) {
    0 <= c.red <= 255 && 0 <= c.green <= 255 && 0 <= c.blue <= 255
  }

  /** The byte whose unsigned value is n. */
  function ByteOf(n: int): (b: bv8)
    requires 0 <= n < 0x100
    ensures b as int == n
  {
    if n == 0 then 0 else ByteOf(n - 1) + 1
  }

  /** Two bytes with the same unsigned value are the same byte. */
  lemma ByteInjective(a: bv8, b: bv8)
    requires a as int == b as int
    ensures a == b
  {}

  /**
   * The 32-bit pattern of a Java int: its value modulo 2^32. Both branches give
   * that value; the byte branch only states it in a form the solver can reason
   * about for the channel values 0..255.
   */
  function Bits(x: int32): (b: bv32)
    ensures 0 <= x < 0x100 ==> b == ByteOf(x) as bv32
  {
    if 0 <= x < 0x100 then ByteOf(x) as bv32 else (x % 0x1_0000_0000) as bv32
  }

  /** Red channel: bits 16-23, shifted down. */
  function GetRed(rgb: bv32): (red: int)
    ensures 0 <= red <= 255
  {
    (((rgb & 0x00FF_0000) >> 16) as bv8) as int
  }

  /** Green channel: bits 8-15, shifted down. */
  function GetGreen(rgb: bv32): (green: int)
    ensures 0 <= green <= 255
  {
    (((rgb & 0x0000_FF00) >> 8) as bv8) as int
  }

  /** Blue channel: bits 0-7. */
  function GetBlue(rgb: bv32): (blue: int)
    ensures 0 <= blue <= 255
  {
    ((rgb & 0x0000_00FF) as bv8) as int
  }

  /**
   * OR the three channels into their bytes and set alpha to 0xFF. The channels
   * are not clamped: one outside 0..255 spills into its neighbours, but the
   * alpha byte is set whatever the inputs.
   */
  function CreateRGBFromColors(red: int32, green: int32, blue: int32): (rgb: bv32)
    ensures rgb & 0xFF00_0000 == 0xFF00_0000
    ensures 0 <= red <= 255 && 0 <= green <= 255 && 0 <= blue <= 255 ==>
      GetRed(rgb) == red && GetGreen(rgb) == green && GetBlue(rgb) == blue
  {
    var rgb := Bits(blue) | (Bits(green) << 8) | (Bits(red) << 16) | 0xFF00_0000;
    ChannelsRoundTrip(red, green, blue);
    rgb
  }

  /** The opaque pixel whose channel bytes are r, g and b. */
  function Opaque(r: bv8, g: bv8, b: bv8): bv32 {
    (b as bv32) | ((g as bv32) << 8) | ((r as bv32) << 16) | 0xFF00_0000
  }

  lemma OpaqueBytes(r: bv8, g: bv8, b: bv8)
    ensures ((Opaque(r, g, b) & 0x00FF_0000) >> 16) as bv8 == r
    ensures ((Opaque(r, g, b) & 0x0000_FF00) >> 8) as bv8 == g
    ensures (Opaque(r, g, b) & 0x0000_00FF) as bv8 == b
  {}

  lemma ChannelsRoundTrip(red: int32, green: int32, blue: int32)
    ensures 0 <= red <= 255 && 0 <= green <= 255 && 0 <= blue <= 255 ==>
      var rgb := Bits(blue) | (Bits(green) << 8) | (Bits(red) << 16) | 0xFF00_0000;
      GetRed(rgb) == red && GetGreen(rgb) == green && GetBlue(rgb) == blue
  {
    if 0 <= red <= 255 && 0 <= green <= 255 && 0 <= blue <= 255 {
      var r, g, b := ByteOf(red), ByteOf(green), ByteOf(blue);
      assert Bits(blue) | (Bits(green) << 8) | (Bits(red) << 16) | 0xFF00_0000 == Opaque(r, g, b);
      OpaqueBytes(r, g, b);
    }
  }

  lemma SplitBytes(v: bv32)
    ensures v | 0xFF00_0000 ==
      Opaque(((v & 0x00FF_0000) >> 16) as bv8, ((v & 0x0000_FF00) >> 8) as bv8, (v & 0x0000_00FF) as bv8)
  {}

  lemma BitsOfByte(c: bv8)
    ensures Bits(c as int) == c as bv32
  {
    ByteInjective(ByteOf(c as int), c);
  }

  lemma CreateFromBytes(r: bv8, g: bv8, b: bv8)
    ensures CreateRGBFromColors(r as int, g as int, b as int) == Opaque(r, g, b)
  {
    BitsOfByte(r);
    BitsOfByte(g);
    BitsOfByte(b);
  }

  /** Unpacking then packing keeps every channel and makes the pixel opaque. */
  lemma PackUnpack(v: bv32)
    ensures CreateRGBFromColors(GetRed(v), GetGreen(v), GetBlue(v)) == v | 0xFF00_0000
  {
    var r, g, b := ((v & 0x00FF_0000) >> 16) as bv8, ((v & 0x0000_FF00) >> 8) as bv8, (v & 0x0000_00FF) as bv8;
    CreateFromBytes(r, g, b);
    SplitBytes(v);
  }

  /** The alpha byte never influences a channel. */
  lemma ChannelsIgnoreAlpha(v: bv32, alpha: bv8)
    ensures var w := (v & 0x00FF_FFFF) | ((alpha as bv32) << 24);
      GetRed(w) == GetRed(v) && GetGreen(w) == GetGreen(v) && GetBlue(w) == GetBlue(v)
  {}

  /**
   * The getters read exactly bits 16-23, 8-15 and 0-7: putting the three
   * channels back at those positions rebuilds the pixel without its alpha byte.
   */
  lemma ChannelPositions(v: bv32)
    ensures ((ByteOf(GetRed(v)) as bv32) << 16) | ((ByteOf(GetGreen(v)) as bv32) << 8) | (ByteOf(GetBlue(v)) as bv32)
         == v & 0x00FF_FFFF
  {
    var r, g, b := ((v & 0x00FF_0000) >> 16) as bv8, ((v & 0x0000_FF00) >> 8) as bv8, (v & 0x0000_00FF) as bv8;
    ByteInjective(ByteOf(GetRed(v)), r);
    ByteInjective(ByteOf(GetGreen(v)), g);
    ByteInjective(ByteOf(GetBlue(v)), b);
    assert ((r as bv32) << 16) | ((g as bv32) << 8) | (b as bv32) == v & 0x00FF_FFFF;
  }

  /** The three channels of a pixel. */
  function Unpack(rgb: bv32): (c: Color)
    ensures IsChannelColor(c)
  {
    Color(GetRed(rgb), GetGreen(rgb), GetBlue(rgb))
  }

  /** The opaque pixel with the channels of c. */
  function Pack(c: Color): (rgb: bv32)
    requires IsChannelColor(c)
    ensures Unpack(rgb) == c
  {
    CreateRGBFromColors(c.red, c.green, c.blue)
  }

  lemma PackUnpackColor(v: bv32)
    ensures Pack(Unpack(v)) == v | 0xFF00_0000
  {
    PackUnpack(v);
  }
}
