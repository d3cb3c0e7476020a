/**
 * Recolouring a rectangular region of an image. An image is a 2-D buffer of
 * packed pixels indexed [x, y], x along the width (Length0) and y along the
 * height (Length1). The region is read from a source image and written, pixel
 * by pixel, into a result image of the same size.
 */
module ImageProcessing {
  import opened JavaInt
  import opened PixelCodec
  import opened ColorRule

  /** The packed pixel written for the source pixel rgb. */
  function RecolorRGB(rgb: bv32): (out: bv32)
    ensures out & 0xFF00_0000 == 0xFF00_0000
    ensures Unpack(out) == Recolor(Unpack(rgb))
    ensures !IsShadeOfGray(GetRed(rgb), GetGreen(rgb), GetBlue(rgb)) ==> out == rgb | 0xFF00_0000
  {
    PackUnpackColor(rgb);
    Pack(Recolor(Unpack(rgb)))
  }

  // ----- Images as values -----

  /** An image's pixels as a value: one column of the buffer per x. */
  type Grid = seq<seq<bv32>>

  ghost predicate IsImage(g: Grid, width: nat, height: nat) {
    |g| == width && forall x | 0 <= x < width :: |g[x]| == height
  }

  ghost function Contents(a: array2<bv32>): (g: Grid)
    reads a
    ensures IsImage(g, a.Length0, a.Length1)
    ensures forall x, y | 0 <= x < a.Length0 && 0 <= y < a.Length1 :: g[x][y] == a[x, y]
  {
    seq(a.Length0, x requires 0 <= x < a.Length0 reads a =>
      seq(a.Length1, y requires 0 <= y < a.Length1 reads a => a[x, y]))
  }

  lemma GridsEqual(a: Grid, b: Grid, width: nat, height: nat)
    requires IsImage(a, width, height) && IsImage(b, width, height)
    requires forall x, y | 0 <= x < width && 0 <= y < height :: a[x][y] == b[x][y]
    ensures a == b
  {
    forall x | 0 <= x < width
      ensures a[x] == b[x]
    {
      assert forall y | 0 <= y < height :: a[x][y] == b[x][y];
    }
  }

  // ----- Regions -----

  /** The four int arguments that select the region. */
  datatype Region = Region(left: int32, top: int32, width: int32, height: int32)

  /** Exclusive bound of x: the loop stops at `left + width` (a Java int sum) or at the image width. */
  function ColumnEnd(r: Region, imageWidth: nat): int {
    Min(AddInt32(r.left, r.width), imageWidth)
  }

  /** Exclusive bound of y, likewise. */
  function RowEnd(r: Region, imageHeight: nat): int {
    Min(AddInt32(r.top, r.height), imageHeight)
  }

  /** The pixel (x, y) is visited by the two loops. */
  predicate Covers(r: Region, imageWidth: nat, imageHeight: nat, x: int, y: int) {
    r.left <= x < ColumnEnd(r, imageWidth) && r.top <= y < RowEnd(r, imageHeight)
  }

  /**
   * The loops visit at least one pixel and the first of them, (left, top),
   * lies before the image's origin: reading it throws before anything is written.
   */
  predicate Faults(r: Region, imageWidth: nat, imageHeight: nat) {
    r.left < ColumnEnd(r, imageWidth) && r.top < RowEnd(r, imageHeight) && (r.left < 0 || r.top < 0)
  }

  /** Every pixel of src recoloured. */
  ghost function RecolorAll(src: Grid, width: nat, height: nat): (out: Grid)
    requires IsImage(src, width, height)
    ensures IsImage(out, width, height)
  {
    seq(width, x requires 0 <= x < width =>
      seq(height, y requires 0 <= y < height => RecolorRGB(src[x][y])))
  }

  lemma RecolorAllAt(src: Grid, width: nat, height: nat, x: int, y: int)
    requires IsImage(src, width, height) && 0 <= x < width && 0 <= y < height
    ensures RecolorAll(src, width, height)[x][y] == RecolorRGB(src[x][y])
  {}

  /** The cells of recolored that the region covers, laid over dst. */
  ghost function Overlay(recolored: Grid, dst: Grid, r: Region, width: nat, height: nat): (out: Grid)
    requires IsImage(recolored, width, height) && IsImage(dst, width, height)
    ensures IsImage(out, width, height)
  {
    seq(width, x requires 0 <= x < width =>
      seq(height, y requires 0 <= y < height =>
        if Covers(r, width, height, x, y) then recolored[x][y] else dst[x][y]))
  }

  /** The result image after the region has been recoloured from src into dst. */
  ghost function RecolorRegion(src: Grid, dst: Grid, r: Region, width: nat, height: nat): (out: Grid)
    requires IsImage(src, width, height) && IsImage(dst, width, height)
    ensures IsImage(out, width, height)
  {
    Overlay(RecolorAll(src, width, height), dst, r, width, height)
  }

  /** The region's cells, stated through the recoloured image. */
  lemma RegionAt(src: Grid, dst: Grid, r: Region, width: nat, height: nat, x: int, y: int)
    requires IsImage(src, width, height) && IsImage(dst, width, height)
    requires 0 <= x < width && 0 <= y < height
    ensures RecolorRegion(src, dst, r, width, height)[x][y]
         == if Covers(r, width, height, x, y) then RecolorAll(src, width, height)[x][y] else dst[x][y]
  {}

  /**
   * Exactly the covered cells are recoloured from the source; every other cell
   * keeps dst's pixel. This is RegionAt with RecolorAll read off cell by cell.
   */
  lemma RecolorRegionAt(src: Grid, dst: Grid, r: Region, width: nat, height: nat)
    requires IsImage(src, width, height) && IsImage(dst, width, height)
    ensures forall x, y | 0 <= x < width && 0 <= y < height ::
      RecolorRegion(src, dst, r, width, height)[x][y]
        == if Covers(r, width, height, x, y) then RecolorRGB(src[x][y]) else dst[x][y]
  {
    forall x, y | 0 <= x < width && 0 <= y < height
      ensures RecolorRegion(src, dst, r, width, height)[x][y]
        == if Covers(r, width, height, x, y) then RecolorRGB(src[x][y]) else dst[x][y]
    {
      RegionAt(src, dst, r, width, height, x, y);
      RecolorAllAt(src, width, height, x, y);
    }
  }

  /**
   * When neither `left + width` nor `top + height` leaves the int range, the
   * covered cells are the requested rectangle clipped to the image.
   */
  lemma CoversClippedRectangle(r: Region, width: nat, height: nat, x: int, y: int)
    requires MinInt32 <= r.left + r.width <= MaxInt32 && MinInt32 <= r.top + r.height <= MaxInt32
    ensures Covers(r, width, height, x, y) <==>
      r.left <= x < r.left + r.width && x < width && r.top <= y < r.top + r.height && y < height
  {}

  /**
   * `left + width` is a Java int sum: a width that carries it past the largest
   * int wraps the bound to a negative number and no column is visited.
   */
  lemma WrappedWidthCoversNothing(width: nat, height: nat, x: int, y: int)
    ensures AddInt32(1, MaxInt32) == MinInt32
    ensures !Covers(Region(1, 0, MaxInt32, 1), width, height, x, y)
  {}

  /**
   * A region with no width, no height, or starting past the image's right or
   * bottom edge visits no pixel: it cannot fault and leaves the result as it was.
   */
  lemma EmptyRegionIsNoOp(src: Grid, dst: Grid, r: Region, width: nat, height: nat)
    requires IsImage(src, width, height) && IsImage(dst, width, height)
    requires || (r.width <= 0 && MinInt32 <= r.left + r.width)
             || (r.height <= 0 && MinInt32 <= r.top + r.height)
             || width <= r.left
             || height <= r.top
    ensures !Faults(r, width, height)
    ensures RecolorRegion(src, dst, r, width, height) == dst
  {
    forall x, y | 0 <= x < width && 0 <= y < height
      ensures RecolorRegion(src, dst, r, width, height)[x][y] == dst[x][y]
    {
      RegionAt(src, dst, r, width, height, x, y);
    }
    GridsEqual(RecolorRegion(src, dst, r, width, height), dst, width, height);
  }

  /** The whole image as the region: every pixel is recoloured and the old result does not matter. */
  lemma WholeImageRecolorsAll(src: Grid, dst: Grid, width: nat, height: nat)
    requires IsImage(src, width, height) && IsImage(dst, width, height)
    requires width <= MaxInt32 && height <= MaxInt32
    ensures !Faults(Region(0, 0, width, height), width, height)
    ensures RecolorRegion(src, dst, Region(0, 0, width, height), width, height) == RecolorAll(src, width, height)
  {
    var r := Region(0, 0, width, height);
    forall x, y | 0 <= x < width && 0 <= y < height
      ensures RecolorRegion(src, dst, r, width, height)[x][y] == RecolorAll(src, width, height)[x][y]
    {
      RegionAt(src, dst, r, width, height, x, y);
    }
    GridsEqual(RecolorRegion(src, dst, r, width, height), RecolorAll(src, width, height), width, height);
  }

  /** Recolouring the same region from the same source twice gives the result of once. */
  lemma RecolorRegionIdempotent(src: Grid, dst: Grid, r: Region, width: nat, height: nat)
    requires IsImage(src, width, height) && IsImage(dst, width, height)
    ensures var once := RecolorRegion(src, dst, r, width, height);
      RecolorRegion(src, once, r, width, height) == once
  {
    var once := RecolorRegion(src, dst, r, width, height);
    forall x, y | 0 <= x < width && 0 <= y < height
      ensures RecolorRegion(src, once, r, width, height)[x][y] == once[x][y]
    {
      RegionAt(src, dst, r, width, height, x, y);
      RegionAt(src, once, r, width, height, x, y);
    }
    GridsEqual(RecolorRegion(src, once, r, width, height), once, width, height);
  }

  /**
   * The normal-path results compose: when whole covers exactly the cells a or b
   * covers, RecolorRegion for b laid over RecolorRegion for a equals RecolorRegion
   * for whole. This says nothing about which calls complete; BandsCompose states
   * that for bands of rows.
   */
  lemma RegionsCompose(src: Grid, dst: Grid, a: Region, b: Region, whole: Region, width: nat, height: nat)
    requires IsImage(src, width, height) && IsImage(dst, width, height)
    requires forall x, y | 0 <= x < width && 0 <= y < height ::
      Covers(whole, width, height, x, y) <==> Covers(a, width, height, x, y) || Covers(b, width, height, x, y)
    ensures RecolorRegion(src, RecolorRegion(src, dst, a, width, height), b, width, height)
         == RecolorRegion(src, dst, whole, width, height)
  {
    var first := RecolorRegion(src, dst, a, width, height);
    forall x, y | 0 <= x < width && 0 <= y < height
      ensures RecolorRegion(src, first, b, width, height)[x][y] == RecolorRegion(src, dst, whole, width, height)[x][y]
    {
      RegionAt(src, dst, a, width, height, x, y);
      RegionAt(src, dst, whole, width, height, x, y);
      RegionAt(src, first, b, width, height, x, y);
    }
    GridsEqual(RecolorRegion(src, first, b, width, height), RecolorRegion(src, dst, whole, width, height), width, height);
  }

  /** A row belongs to [top, top + h1 + h2) exactly when it belongs to one of the two bands. */
  lemma BandsCover(left: int32, columns: int32, top: int32, h1: int32, h2: int32, width: nat, height: nat, x: int, y: int)
    requires 0 <= h1 && 0 <= h2 && h1 + h2 <= MaxInt32 && top + h1 + h2 <= MaxInt32
    ensures Covers(Region(left, top, columns, h1 + h2), width, height, x, y) <==>
      Covers(Region(left, top, columns, h1), width, height, x, y) ||
      Covers(Region(left, top + h1, columns, h2), width, height, x, y)
  {}

  /**
   * Two bands of rows, [top, top + h1) and [top + h1, top + h1 + h2), over the
   * same columns: the two band calls both complete exactly when the call on
   * [top, top + h1 + h2) completes, and then, in either order, they give its result.
   */
  lemma BandsCompose(src: Grid, dst: Grid, left: int32, columns: int32, top: int32, h1: int32, h2: int32,
                     width: nat, height: nat)
    requires IsImage(src, width, height) && IsImage(dst, width, height)
    requires 0 <= h1 && 0 <= h2 && h1 + h2 <= MaxInt32 && top + h1 + h2 <= MaxInt32
    ensures var upper, lower := Region(left, top, columns, h1), Region(left, top + h1, columns, h2);
      var whole := Region(left, top, columns, h1 + h2);
      !Faults(whole, width, height) <==> !Faults(upper, width, height) && !Faults(lower, width, height)
    ensures var upper, lower := Region(left, top, columns, h1), Region(left, top + h1, columns, h2);
      var whole := Region(left, top, columns, h1 + h2);
      && RecolorRegion(src, RecolorRegion(src, dst, upper, width, height), lower, width, height)
         == RecolorRegion(src, dst, whole, width, height)
      && RecolorRegion(src, RecolorRegion(src, dst, lower, width, height), upper, width, height)
         == RecolorRegion(src, dst, whole, width, height)
  {
    var upper, lower := Region(left, top, columns, h1), Region(left, top + h1, columns, h2);
    var whole := Region(left, top, columns, h1 + h2);
    forall x, y | 0 <= x < width && 0 <= y < height
      ensures Covers(whole, width, height, x, y) <==> Covers(upper, width, height, x, y) || Covers(lower, width, height, x, y)
    {
      BandsCover(left, columns, top, h1, h2, width, height, x, y);
    }
    RegionsCompose(src, dst, upper, lower, whole, width, height);
    RegionsCompose(src, dst, lower, upper, whole, width, height);
  }

  // ----- The buffer operations -----

  /** How a call ends: normally, or with the exception a read outside the image throws. */
  datatype Status = Done | CoordinateOutOfBounds

  /** Store one packed pixel into the image. */
  method SetRGB(image: array2<bv32>, x: int32, y: int32, rgb: bv32)
    requires 0 <= x < image.Length0 && 0 <= y < image.Length1
    modifies image
    ensures image[x, y] == rgb
    ensures forall i, j | 0 <= i < image.Length0 && 0 <= j < image.Length1 && (i != x || j != y) ::
      image[i, j] == old(image[i, j])
  {
    image[x, y] := rgb;
  }

  /** Recolour the pixel (x, y) of src into the same position of dst. */
  method RecolorPixel(src: array2<bv32>, dst: array2<bv32>, x: int32, y: int32) returns (status: Status)
    requires dst.Length0 == src.Length0 && dst.Length1 == src.Length1
    modifies dst
    ensures status == Done <==> 0 <= x < src.Length0 && 0 <= y < src.Length1
    ensures status == Done ==> dst[x, y] == RecolorRGB(old(src[x, y]))
    ensures forall i, j | 0 <= i < dst.Length0 && 0 <= j < dst.Length1 && (status != Done || i != x || j != y) ::
      dst[i, j] == old(dst[i, j])
  {
    if !(0 <= x < src.Length0 && 0 <= y < src.Length1) {
      return CoordinateOutOfBounds;
    }
    var rgb := src[x, y];
    var red, green, blue := GetRed(rgb), GetGreen(rgb), GetBlue(rgb);
    var newColor := Recolor(Color(red, green, blue));
    assert IsChannelColor(newColor);
    var newRGB := CreateRGBFromColors(newColor.red, newColor.green, newColor.blue);
    SetRGB(dst, x, y, newRGB);
    return Done;
  }

  /**
   * The cells the loops have written once they reach the pixel (x, y), when
   * columns start at left and every column runs from top up to rowEnd.
   */
  predicate VisitedBefore(left: int, top: int, rowEnd: int, x: int, y: int, i: int, j: int) {
    (left <= i < x && top <= j < rowEnd) || (i == x && top <= j < y)
  }

  /** A buffer whose cells agree with the image g. */
  lemma ContentsAre(a: array2<bv32>, g: Grid)
    requires IsImage(g, a.Length0, a.Length1)
    requires forall i, j | 0 <= i < a.Length0 && 0 <= j < a.Length1 :: a[i, j] == g[i][j]
    ensures Contents(a) == g
  {
    GridsEqual(Contents(a), g, a.Length0, a.Length1);
  }

  /** Once the loops are past the region, the buffer holds exactly the overlay. */
  lemma RegionReached(a: array2<bv32>, recolored: Grid, dst: Grid, r: Region, x: int)
    requires IsImage(recolored, a.Length0, a.Length1) && IsImage(dst, a.Length0, a.Length1)
    requires ColumnEnd(r, a.Length0) <= x && (x == r.left || x == ColumnEnd(r, a.Length0))
    requires forall i, j | 0 <= i < a.Length0 && 0 <= j < a.Length1 ::
      a[i, j] == if VisitedBefore(r.left, r.top, RowEnd(r, a.Length1), x, r.top, i, j) then recolored[i][j] else dst[i][j]
    ensures Contents(a) == Overlay(recolored, dst, r, a.Length0, a.Length1)
  {
    ContentsAre(a, Overlay(recolored, dst, r, a.Length0, a.Length1));
  }

  /**
   * Recolour every pixel with leftCorner <= x < leftCorner + width and
   * topCorner <= y < topCorner + height that lies inside the source image,
   * column by column.
   */
  method RecolorImage(src: array2<bv32>, dst: array2<bv32>,
                      leftCorner: int32, topCorner: int32, width: int32, height: int32)
    returns (status: Status)
    requires src != dst
    requires dst.Length0 == src.Length0 && dst.Length1 == src.Length1
    requires src.Length0 <= MaxInt32 && src.Length1 <= MaxInt32
    modifies dst
    ensures status == Done <==> !Faults(Region(leftCorner, topCorner, width, height), src.Length0, src.Length1)
    ensures status == Done ==>
      Contents(dst) == RecolorRegion(old(Contents(src)), old(Contents(dst)),
                                     Region(leftCorner, topCorner, width, height), src.Length0, src.Length1)
    ensures status != Done ==> Contents(dst) == old(Contents(dst))
    ensures Contents(src) == old(Contents(src))
  {
    ghost var r := Region(leftCorner, topCorner, width, height);
    ghost var w, h := src.Length0, src.Length1;
    ghost var src0, dst0 := Contents(src), Contents(dst);
    ghost var recolored := RecolorAll(src0, w, h);
    ghost var colEnd, rowEnd := ColumnEnd(r, w), RowEnd(r, h);
    var x := leftCorner;
    while x < AddInt32(leftCorner, width) && x < src.Length0
      invariant leftCorner <= x && (x == leftCorner || x <= colEnd)
      invariant x > leftCorner && topCorner < rowEnd ==> leftCorner >= 0 && topCorner >= 0
      invariant forall i, j | 0 <= i < w && 0 <= j < h ::
        dst[i, j] == if VisitedBefore(leftCorner, topCorner, rowEnd, x, topCorner, i, j) then recolored[i][j] else dst0[i][j]
      decreases w - x
    {
      var y := topCorner;
      while y < AddInt32(topCorner, height) && y < src.Length1
        invariant topCorner <= y && (y == topCorner || y <= rowEnd)
        invariant y > topCorner ==> x >= 0 && topCorner >= 0
        invariant forall i, j | 0 <= i < w && 0 <= j < h ::
          dst[i, j] == if VisitedBefore(leftCorner, topCorner, rowEnd, x, y, i, j) then recolored[i][j] else dst0[i][j]
        decreases h - y
      {
        status := RecolorPixel(src, dst, x, y);
        if status != Done {
          // If any pixel the loops would visit lies outside the image, so does the
          // first one, (leftCorner, topCorner); reading it throws before anything is written.
          ContentsAre(dst, dst0);
          return;
        }
        RecolorAllAt(src0, w, h, x, y);
        y := y + 1;
      }
      x := x + 1;
    }
    RegionReached(dst, recolored, dst0, r, x);
    return Done;
  }
}
