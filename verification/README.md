# Recolouring grey pixels of an image region

This project models `ImageProcessing`. That is the Java class that recolours a
rectangular region of an image. It reads each pixel of the region from the
original image, splits the packed 32-bit ARGB value into red, green and blue,
and applies the colour rule. If every two of the three channels are less
than 30 apart, the pixel is a shade of grey and gets a warm tint: red + 10, capped
at 255; green − 80 and blue − 20, floored at 0. Any other pixel keeps its
channels. The new channels are packed back with alpha forced to `0xFF`, and
the pixel is written at the same coordinates of the result image.

The model has four modules:

- `JavaInt` (`java_int.dfy`) holds Java's 32-bit `int` and its wrap-around
  addition. The region's loop bounds `leftCorner + width` and
  `topCorner + height` are Java int sums.
- `PixelCodec` (`pixel_codec.dfy`) holds `getRed`, `getGreen`, `getBlue` and
  `createRGBFromColors` on a pixel modelled as `bv32`, together with
  `Unpack`/`Pack` between a pixel and its `Color`.
- `ColorRule` (`color_rule.dfy`) holds `isShadeOfGray` and the grey/non-grey
  branch of `recolorPixel`, as functions on integers and on `Color`.
- `ImageProcessing` (`image_processing.dfy`) holds the buffer operations.
  `SetRGB`, `RecolorPixel` and `RecolorImage` are methods over `array2<bv32>`
  indexed `[x, y]`. Their specification functions work on `Grid` values:
  `RecolorRGB` for one pixel, `RecolorRegion` for the image after a region is
  recoloured. A read outside the original image makes Java throw. The model
  returns this as `Status.CoordinateOutOfBounds`.

Both loops of `recolorImage` start at the region's corner and are bounded above
by the image size. So if any pixel the loops would visit lies outside the
image, so does the first one, `(leftCorner, topCorner)`, and reading it throws
before anything is written. The model therefore promises: on a fault nothing
has been written. Otherwise the result image equals `RecolorRegion` of the old
images.

## Model

| member | source | states |
|---|---|---|
| JavaInt.AddInt32 | src/ImageProcessing.java:23-24 | A Java int sum: it is the true sum when that fits in 32 bits, and is shifted by 2^32 when it overflows in either direction. |
| PixelCodec.GetRed | src/ImageProcessing.java:158-165 | The red channel is always an 8-bit intensity in 0..255. |
| PixelCodec.GetGreen | src/ImageProcessing.java:143-150 | The green channel is always in 0..255. |
| PixelCodec.GetBlue | src/ImageProcessing.java:128-135 | The blue channel is always in 0..255. |
| PixelCodec.ChannelPositions | src/ImageProcessing.java:128-165 | The getters read exactly bits 16-23, 8-15 and 0-7. Placing the three channels back at those positions rebuilds the pixel minus its alpha byte. |
| PixelCodec.ChannelsIgnoreAlpha | src/ImageProcessing.java:128-165 | Replacing the alpha byte changes none of the three channels. |
| PixelCodec.CreateRGBFromColors | src/ImageProcessing.java:106-120 | The alpha byte of the result is always `0xFF`, whatever the inputs. For channels in 0..255 the three getters give back exactly the inputs. |
| PixelCodec.PackUnpack | src/ImageProcessing.java:106-165 | `createRGBFromColors(getRed(v), getGreen(v), getBlue(v)) == v \| 0xFF000000` for every 32-bit pixel v. |
| PixelCodec.Unpack | src/ImageProcessing.java:128-165 | The three channels of any pixel form a colour whose channels are all in 0..255. |
| PixelCodec.Pack | src/ImageProcessing.java:106-120 | Packing a colour with channels in 0..255 and unpacking it again gives back the same colour. |
| PixelCodec.PackUnpackColor | src/ImageProcessing.java:106-165 | Unpacking a pixel and packing it again gives the pixel with alpha forced to `0xFF`. |
| ColorRule.IsShadeOfGray | src/ImageProcessing.java:87-95 | A pixel is grey exactly when all three pairwise channel differences are below 30 in absolute value: red-green, red-blue and green-blue. `GraySpread` is its reference definition. |
| ColorRule.GraySpread | src/ImageProcessing.java:87-95 | A pixel is a shade of grey exactly when the largest channel exceeds the smallest by less than 30. This is an independent reference definition. |
| ColorRule.GraySymmetric | src/ImageProcessing.java:87-95 | Swapping any two channels does not change whether a pixel is grey, so no permutation of the channels does either. |
| ColorRule.Recolor | src/ImageProcessing.java:50-58 | A non-grey colour is returned unchanged. A grey colour with channels in 0..255 gets red raised by 10, or capped at 255. Green is lowered by 80 and blue by 20, or floored at 0. Channels in 0..255 stay in 0..255. |
| ColorRule.RecolorIdempotentOffGray | src/ImageProcessing.java:54-58 | Applying the rule to a non-grey colour twice is the same as applying it once. |
| ColorRule.RecolorExamples | src/ImageProcessing.java:50-58 | (200, 200, 200) becomes (210, 120, 180), and (10, 200, 30) is unchanged. |
| ImageProcessing.RecolorRGB | src/ImageProcessing.java:40-60 | The packed pixel written for a source pixel is opaque, and its channels are the colour rule applied to the source's channels. A non-grey pixel is written back as itself with alpha forced to `0xFF`. |
| ImageProcessing.RecolorRegionAt | src/ImageProcessing.java:21-28 | After a region is recoloured, each covered cell holds the recoloured source pixel and every other cell keeps the result image's old pixel. |
| ImageProcessing.CoversClippedRectangle | src/ImageProcessing.java:23-24 | When neither corner sum overflows, the covered cells are exactly the rectangle `[left, left + width) × [top, top + height)` clipped to the image. |
| ImageProcessing.WrappedWidthCoversNothing | src/ImageProcessing.java:23 | `1 + Integer.MAX_VALUE` wraps to `Integer.MIN_VALUE`, so a region with left 1 and width `Integer.MAX_VALUE` visits no pixel. |
| ImageProcessing.EmptyRegionIsNoOp | src/ImageProcessing.java:21-28 | A region with width ≤ 0 or height ≤ 0 (without wrap-around) leaves the result image unchanged and cannot fault. So does a region starting at or past the right or bottom edge. |
| ImageProcessing.WholeImageRecolorsAll | src/ImageProcessing.java:21-28 | The region (0, 0, W, H) cannot fault and recolours every pixel. The result does not depend on the result image's old content. |
| ImageProcessing.RecolorRegionIdempotent | src/ImageProcessing.java:21-28 | Recolouring the same region again from the same original image changes nothing more. |
| ImageProcessing.RegionsCompose | src/ImageProcessing.java:21-28 | The normal-path results compose: if region `whole` covers exactly the cells that regions a and b cover together, `RecolorRegion` for b applied over `RecolorRegion` for a equals `RecolorRegion` for `whole`. This says nothing about which calls complete; `BandsCompose` states that for bands. |
| ImageProcessing.BandsCompose | src/ImageProcessing.java:23-25 | The calls on row bands [t, t+h1) and [t+h1, t+h1+h2) over the same columns both complete exactly when the single call on [t, t+h1+h2) completes. The two band calls then give, in either order, the same image as that single call. |
| ImageProcessing.SetRGB | src/ImageProcessing.java:73-75 | The pixel value is stored at (x, y) and every other cell of the image is unchanged. |
| ImageProcessing.RecolorPixel | src/ImageProcessing.java:39-63 | The call completes exactly when (x, y) is inside the original image. It then writes `RecolorRGB` of the original pixel at (x, y) of the result image. Every other cell is unchanged, and on the exception path nothing is written at all. |
| ImageProcessing.RecolorImage | src/ImageProcessing.java:21-28 | The call faults exactly when the region visits a pixel and its first pixel lies before the image origin; nothing is written then. Otherwise the result image becomes `RecolorRegion` of the old images. The original image is never changed. |

## Left out

- `src/Main.java` reads the input file and allocates the result image. File I/O is not modelled. `RecolorImage` requires the result image to have the original's dimensions, as that allocation gives it.
- `src/RecolorTask.java` only stores the six region arguments and calls `recolorImage` on a thread. Threads are not modelled. `BandsCompose` states the sequential fact that makes disjoint row bands independent of each other and of their order.
- Partitioning the image into bands and running them on threads is not modelled. The doc comments of `Main` (src/Main.java:8-9) and `RecolorTask` (src/RecolorTask.java:4-5) speak of multithreading, but no code partitions the image or calls `recolorImage` with bands. The model follows the code.
- `BufferedImage` internals are library code and are not modelled. This covers `getRGB`'s colour-model conversion, `getRaster().setDataElements`, and `ColorModel.getDataElements`, including how a `TYPE_INT_RGB` raster drops alpha. A read is an array read and `SetRGB` an array store of the packed pixel.
- ImageProcessing.RecolorImage: requires the original and the result to be distinct buffers. Java also accepts one image for both; that aliasing is not covered.
- ImageProcessing.RecolorImage: requires equal dimensions, each at most `Integer.MAX_VALUE`. With a smaller result image `setRGB` would throw, and that exception is not modelled.
- ImageProcessing.RecolorPixel: requires a result image of the original's size. Java also accepts a larger result image, and throws in `setRGB` for a smaller one; neither case is modelled.
- ImageProcessing.SetRGB: requires in-bounds coordinates. Its exception for coordinates outside the image is not modelled; `RecolorPixel` only calls it after a successful read of the same coordinates in an image of the same size.
- ColorRule.IsShadeOfGray: takes channel differences on unbounded integers. Java's `int` subtraction and `Math.abs(Integer.MIN_VALUE)` overflow only for arguments far outside 0..255, which `recolorPixel` never passes.
- Exceptions are returned as a `Status` value. Their Java type and message are not modelled.
