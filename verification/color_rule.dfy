/**
 * The colour rule applied to one pixel: a pixel whose three channels lie
 * close together is a shade of grey and is pushed toward a warm tint; every
 * other pixel keeps its channels.
 */
module ColorRule {
  import opened PixelCodec

  /** The distance below which two channels count as close. */
  const GrayThreshold: int := 30

  function Abs(n: int): (a: int)
    ensures a >= 0 && (a == n || a == -n)
  {
    if n < 0 then -n else n
  }

  function Min(a: int, b: int): (m: int)
    ensures m <= a && m <= b && (m == a || m == b)
  {
    if a <= b then a else b
  }

  function Max(a: int, b: int): (m: int)
    ensures m >= a && m >= b && (m == a || m == b)
  {
    if a >= b then a else b
  }

  /** All three pairwise channel distances are below the threshold. */
  predicate IsShadeOfGray(red: int, green: int, blue: int) {
    Abs(red - green) < GrayThreshold && Abs(red - blue) < GrayThreshold && Abs(green - blue) < GrayThreshold
  }

  /**
   * The channels after recolouring: a grey pixel gains 10 red (at most 255)
   * and loses 80 green and 20 blue (at least 0); any other pixel is returned as is.
   */
  function Recolor(c: Color): (d: Color)
    ensures IsChannelColor(c) ==> IsChannelColor(d)
    ensures !IsShadeOfGray(c.red, c.green, c.blue) ==> d == c
    ensures IsChannelColor(c) && IsShadeOfGray(c.red, c.green, c.blue) ==>
      c.red <= d.red <= c.red + 10 && (d.red == c.red + 10 || d.red == 255) &&
      c.green - 80 <= d.green <= c.green && (d.green == c.green - 80 || d.green == 0) &&
      c.blue - 20 <= d.blue <= c.blue && (d.blue == c.blue - 20 || d.blue == 0)
  {
    if IsShadeOfGray(c.red, c.green, c.blue) then
      Color(Min(255, c.red + 10), Max(0, c.green - 80), Max(0, c.blue - 20))
    else
      c
  }

  /** Reference definition of greyness: the spread between the largest and smallest channel. */
  function Spread(red: int, green: int, blue: int): (s: int)
    ensures s >= 0
  {
    Max(red, Max(green, blue)) - Min(red, Min(green, blue))
  }

  lemma GraySpread(red: int, green: int, blue: int)
    ensures IsShadeOfGray(red, green, blue) <==> Spread(red, green, blue) < GrayThreshold
  {}

  /** The rule does not depend on which channel is which. */
  lemma GraySymmetric(red: int, green: int, blue: int)
    ensures IsShadeOfGray(red, green, blue) == IsShadeOfGray(green, red, blue)
    ensures IsShadeOfGray(red, green, blue) == IsShadeOfGray(red, blue, green)
    ensures IsShadeOfGray(red, green, blue) == IsShadeOfGray(blue, green, red)
  {}

  /** A pixel that is not grey is a fixed point of the rule. */
  lemma RecolorIdempotentOffGray(c: Color)
    requires !IsShadeOfGray(c.red, c.green, c.blue)
    ensures Recolor(Recolor(c)) == Recolor(c)
  {}

  lemma RecolorExamples()
    ensures Recolor(Color(200, 200, 200)) == Color(210, 120, 180)
    ensures Recolor(Color(10, 200, 30)) == Color(10, 200, 30)
  {}
}
