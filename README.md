# Eyelid-gap blink classifier, in Dafny

This project models the blink detector of the pigo face-detection library (`core/blinkdet.go`) and the two luma converters it relies on (`core/grayscale.go`), and proves properties of that model.

`BlinkDetector` works in these steps:

1. It cuts a square eye region around a pupil estimate and converts it to grey.
2. It passes the grey region through an external blur and an external Sobel filter.
3. It thresholds the filtered image in place to pure black and white.
4. It calls `detectBlink`. That function casts four rays from the centre of the image: right, left, down and up.
   - Each ray counts the pixels it passes before it meets a white one.
   - Each ray repaints the black pixels it passes red.
5. `detectBlink` zeroes at most one "saturated" counter, computes the ratio of the vertical gap to the horizontal gap, and compares it with 0.44.
6. `BlinkDetector` reports a blink when the ratio does *not* exceed the threshold.

The files:

- `pictures.dfy` (module `Pictures`): the parts of Go's `image` package that the code relies on.
  - `image.NRGBA` is a value `Picture`, with general bounds and row-major pixels. A read outside the bounds yields `color.NRGBA{}` and a write outside the bounds does nothing.
  - The `RGBA()` conversion to 16-bit premultiplied channels is `Channel16`.
  - `image.Rect`, `Rectangle.Intersect` and `SubImage` are modelled, as is `NewNRGBA`.
  - The mutable `Image` class holds a pixel array. Its `Set` and `Pixel` members are stated against the value model.
  - Lemmas describe a column-major sweep of `Set` calls (`Overwrite`). The image converter and the thresholding loop are proved against them.
- `grayscale.dfy` (module `Grayscale`): `RgbToGrayscale`, which writes a flat row-major byte array, and `rgbToGrayscale` (here `RgbToGrayscaleImage`), which writes a grey image over the same bounds.
- `blinkdet.dfy` (module `BlinkDet`): the eye rectangle, the thresholding loop, the four ray loops, the saturation correction, the ratio test and `BlinkDetector` itself.

Numbers:

- Go's floating-point values are exact reals here. The luma weights 0.299, 0.587, 0.114 become the exact rationals 299/1000, 587/1000, 114/1000, and the conversion to `uint8` takes the floor.
- `int(scale*1.5)` truncates toward zero, and Go's integer `/` is modelled as truncating (`BlinkDet.Half`).
- The blur (`stackblur.Run`) and `Sobel` are parameters of `BlinkDetector`: the blur is a function that may fail, the Sobel filter one that may not. They are called with radius 5 and threshold 70.

Behaviour of the code that a reader might not expect, which the model follows as written:

- **Threshold scale.** The threshold compares the 16-bit premultiplied red value from `RGBA()` with 127, not the 8-bit red byte. An opaque pixel therefore turns white as soon as its red byte is non-zero (`BlinkDet.ThresholdOpaque`).
- **Ray ends.** The right and down loops run to `Max.X` and `Max.Y` inclusive, not to the last column and row. So they read one position past the image, and that read yields the zero colour. As a result the right and down counters are never exactly one less than their loop's span (`BlinkDet.LastStepNeverStops`).
- **Down-ray correction.** The consequence for the correction: when `Max.Y` is even and non-negative (for an image with origin 0, when its height is even), the third test (`cy1 == Max.Y/2-1`) can never succeed (`BlinkDet.DownTestUnreachable`). With a non-zero origin the parity of the height does not decide it.
- **No out-of-bounds error.** The code has no check that the eye rectangle overlaps the image. A rectangle that misses the image gives an empty sub-image, and that empty grey picture is handed to the blur (`BlinkDet.RegionOutsideImage`). The only error `BlinkDetector` returns is the blur's.
- **Bounds.** Images need not have their origin at (0, 0). The rays start at `Max/2`, as in the code. Origin-0 facts are stated as lemmas with that precondition.
- **Coordinates counted from 0.** The two converters and BlinkDetector's thresholding loop count x and y from 0, not from the image's `Min`. The rays start at `Max/2`, and the left and up rays stop at `Min.X` and `Min.Y`. For an image whose origin is not (0, 0), the flat converter therefore stores the levels of pixels (x, y) with 0 <= x < Dx and 0 <= y < Dy, some of which lie outside the image and read as the zero colour. The model does the same (`Grayscale.FlatGreys`).

## Model

| member | source | states |
|---|---|---|
| Pictures.Channel16 | core/blinkdet.go:40 | the 16-bit channel `RGBA()` reports for a non-premultiplied byte is at most 0xffff, is v*0x101 for an opaque pixel, and is 0 for a transparent or zero channel |
| Pictures.RedHigh | core/blinkdet.go:67-71 | `r>>8` is at most 255 and is the red byte itself for an opaque pixel |
| Pictures.MakeRect | core/blinkdet.go:18-23 | `image.Rect` orders its corners: the result is well formed and contains exactly the points between the two corners |
| Pictures.Intersect | core/blinkdet.go:25 | the intersection contains exactly the points in both rectangles and is the zero rectangle when empty |
| Pictures.SubImage | core/blinkdet.go:25-26 | the sub-image has the intersected bounds and shows the image's pixels inside them and the zero colour outside |
| Pictures.BlankPicture | core/grayscale.go:29 | `NewNRGBA` gives a picture over the requested bounds whose every pixel is `color.NRGBA{}` |
| Pictures.At | core/blinkdet.go:38 | `NRGBA.At` reads the zero colour outside the bounds; inside, `AtSetPixel` and `AtBuild` give its value |
| Pictures.SetPixel | core/blinkdet.go:46 | `NRGBA.Set` keeps the bounds; `AtSetPixel` states which pixel changes |
| Pictures.AtSetPixel | core/blinkdet.go:46 | after `Set(x, y, c)` the pixel at (x, y) is c when (x, y) is in bounds, and every other pixel is unchanged |
| Pictures.Image.Blank | core/grayscale.go:29 | `image.NewNRGBA` as a fresh mutable image: its contents are `BlankPicture` of the bounds |
| Pictures.Image.Of | core/blinkdet.go:33 | the fresh `*image.NRGBA` the Sobel filter returns: a new mutable image whose contents are the given picture |
| Pictures.Image.Set | core/blinkdet.go:46 | the in-place `Set` changes the image exactly as the value-level `SetPixel` says |
| Pictures.Image.Pixel | core/blinkdet.go:38 | `At` on the mutable image reads the pixel of its current contents |
| Grayscale.Luma | core/grayscale.go:16-20 | the weighted sum over 256, floored, on exact rationals; `LumaRange` and `LumaMonotone` state its range and monotonicity |
| Grayscale.GreyLevel | core/grayscale.go:15-20 | the grey level of one pixel from its `RGBA()` channels, a byte by `LumaRange`; `GreyLevelOfGrey` shows grey input is kept |
| Grayscale.GreyColor | core/grayscale.go:34-35 | `color.Gray{Y: v}` as stored in an NRGBA buffer; `GreyPictureIsGrey` states what the image converter writes with it |
| Grayscale.LumaRange | core/grayscale.go:16-20 | with 16-bit inputs the weighted sum divided by 256 is between 0 and 255 |
| Grayscale.LumaMonotone | core/grayscale.go:16-20 | the grey level never drops when any of r, g, b grows |
| Grayscale.GreyLevelOfGrey | core/grayscale.go:32-34 | an opaque grey pixel of level v converts to level v |
| Grayscale.FlatGreys | core/grayscale.go:10-11 | the flat grey slice has length rows*cols (Dy*Dx of the source bounds) |
| Grayscale.RgbToGrayscale | core/grayscale.go:9-24 | returns a fresh slice whose contents are exactly `FlatGreys(src)`: the grey levels of pixels (x, y) counted from 0, row by row, which are the source's own pixels only when its origin is 0 |
| Grayscale.FlatGreysAt | core/grayscale.go:13-16 | pixel (x, y), counted from 0, is at index y*cols+x, inside the slice, and holds that pixel's grey level |
| Grayscale.FlatIndexDistinct | core/grayscale.go:13-16 | distinct pixels are written at distinct indices, so each index is written exactly once |
| Grayscale.GreyPicture | core/grayscale.go:29 | the grey image has exactly the source's bounds |
| Grayscale.GreyPictureIsGrey | core/grayscale.go:30-36 | every pixel of the grey image with 0 <= x < Max.X and 0 <= y < Max.Y is opaque grey at the source pixel's grey level |
| Grayscale.ConvertersAgree | core/grayscale.go:9-39 | for a source with origin 0 the flat converter's entry for (x, y) equals the level of pixel (x, y) of the grey image |
| Grayscale.RgbToGrayscaleImage | core/grayscale.go:27-39 | fills a fresh image, column by column with `Set`, whose contents are exactly the grey picture of the source |
| BlinkDet.Trunc | core/blinkdet.go:19-22 | `int(v)` truncates toward zero: the result is within one of v, on v's side of zero |
| BlinkDet.HalfSize | core/blinkdet.go:19-22 | for a non-negative scale k is non-negative and is the floor of 1.5*scale |
| BlinkDet.EyeRect | core/blinkdet.go:18-23 | the eye rectangle is well formed and contains exactly the points with col-abs(k) <= x < col+abs(k) and row-abs(k) <= y < row+abs(k) |
| BlinkDet.EyeRectSymmetric | core/blinkdet.go:18-23 | the eye rectangle is centred on the pupil on both axes with side twice abs(k), and for a non-negative scale it is [col-k, col+k) x [row-k, row+k) |
| BlinkDet.RegionOutsideImage | core/blinkdet.go:25-31 | an eye rectangle disjoint from the image gives an empty sub-image and an empty grey picture for the blur |
| BlinkDet.Threshold | core/blinkdet.go:39-45 | the closure returns exactly white or exactly black; `BinarizeTwoLevel` and `ThresholdOpaque` say which |
| BlinkDet.ThresholdOpaque | core/blinkdet.go:39-45 | an opaque pixel thresholds to white iff its red byte is non-zero and to black iff it is zero |
| BlinkDet.Binarize | core/blinkdet.go:36-48 | thresholding keeps the image's bounds |
| BlinkDet.BinarizeTwoLevel | core/blinkdet.go:36-48 | every visited pixel becomes exactly white or exactly black, white iff its 16-bit red value exceeds 127, and every other pixel is unchanged |
| BlinkDet.BinarizeWhole | core/blinkdet.go:36-48 | when the loop bounds are the image's own bounds the whole image is two-level |
| BlinkDet.BinarizeInPlace | core/blinkdet.go:36-48 | the in-place nested loop leaves exactly the thresholded picture |
| BlinkDet.Half | core/blinkdet.go:60 | Go's `/2` truncates toward zero: 2h <= a <= 2h+1 for a >= 0 and 2h-1 <= a <= 2h for a < 0 |
| BlinkDet.RightRay | core/blinkdet.go:66 | the loop starts at (Max.X/2, Max.Y/2) and runs iteration t exactly while x = startX+t <= Max.X |
| BlinkDet.LeftRay | core/blinkdet.go:79 | the loop starts at (Max.X/2-1, Max.Y/2) and runs iteration t exactly while x = startX-1-t >= Min.X |
| BlinkDet.DownRay | core/blinkdet.go:92 | the loop starts at (Max.X/2, Max.Y/2+1) and runs iteration t exactly while y = startY+1+t <= Max.Y |
| BlinkDet.UpRay | core/blinkdet.go:105 | the loop starts at (Max.X/2, Max.Y/2-1) and runs iteration t exactly while y = startY-1-t >= Min.Y |
| BlinkDet.Stops | core/blinkdet.go:71-73 | the break test `r>>8 == 255`; `CountIsFirstStop` states what it makes of the counter |
| BlinkDet.Count | core/blinkdet.go:66-114 | the counter a ray loop leaves, `cx1++` and its kin after the break test; `CountIsFirstStop` states its value |
| BlinkDet.CountFrom | core/blinkdet.go:66-114 | a ray counts at most the number of iterations it has left |
| BlinkDet.CountIsFirstStop | core/blinkdet.go:66-114 | a counter is k iff the first k visited pixels have a red byte other than 255 and the pixel after them (if the loop gets there) has red byte 255; the stopping pixel is not counted |
| BlinkDet.Repaint | core/blinkdet.go:69 | the repainted colour has red 255 and alpha 255 |
| BlinkDet.RepaintOpaque | core/blinkdet.go:68-70 | on an opaque pixel the repaint sets red to 255 and keeps green and blue |
| BlinkDet.Paint | core/blinkdet.go:66-114 | the picture after a loop's conditional `Set` on its first c positions, bounds kept; `AtPaint` and `PaintStep` state its pixels |
| BlinkDet.AtPaint | core/blinkdet.go:66-114 | after a ray, exactly the visited in-bounds pixels whose red byte was 0 are repainted; all others are unchanged |
| BlinkDet.PaintStep | core/blinkdet.go:66-75 | one iteration reads a not-yet-painted pixel and performs the conditional `Set` |
| BlinkDet.CastRay | core/blinkdet.go:66-114 | the loop returns the counter of the unpainted picture and leaves the picture with exactly that many positions painted |
| BlinkDet.RaysDisjoint | core/blinkdet.go:60-114 | no pixel lies on two of the four paths |
| BlinkDet.PaintedCounts | core/blinkdet.go:66-114 | each loop, run after the earlier ones have painted, counts what it would count on the original picture |
| BlinkDet.Measure | core/blinkdet.go:60-114 | each of the four counters is at most the number of iterations of its loop |
| BlinkDet.CounterBounds | core/blinkdet.go:66-114 | with origin 0: cx1 <= Max.X-startX+1, cx2 <= startX, cy1 <= Max.Y-startY, cy2 <= startY |
| BlinkDet.LastStepNeverStops | core/blinkdet.go:66-101 | the right and down loops never stop on their last position, which lies outside the image, so their counter is never their span minus one |
| BlinkDet.DownTestUnreachable | core/blinkdet.go:92-123 | for an even Max.Y >= 0 the down counter never equals Max.Y/2-1 |
| BlinkDet.Saturate | core/blinkdet.go:119-127 | the correction never increases a counter; `SaturateZeroesFirstSaturated` states exactly which one it zeroes |
| BlinkDet.SaturateZeroesFirstSaturated | core/blinkdet.go:119-127 | the correction zeroes exactly the first saturated counter in the order cx1, cx2, cy1, cy2, leaves the rest untouched and changes at most one |
| BlinkDet.AspectRatio | core/blinkdet.go:134-141 | the ratio is never negative |
| BlinkDet.ZeroSpan | core/blinkdet.go:136-147 | cx1+cx2 == 0 gives ratio 0 and a false result for any threshold >= 0, whatever cy1 and cy2 are |
| BlinkDet.RatioExceeds | core/blinkdet.go:139-147 | for th >= 0 the ratio exceeds th iff cx > 0, cy > 0 and cy > th*cx; a ratio equal to the threshold does not exceed it |
| BlinkDet.ReferenceThreshold | core/blinkdet.go:139-147 | with th = 0.44 the test is cx > 0 and 100*cy > 44*cx on integers |
| BlinkDet.Overlay | core/blinkdet.go:56-114 | the painted picture keeps the image's bounds |
| BlinkDet.OverlayAt | core/blinkdet.go:66-114 | after the four loops exactly the visited pixels whose red byte was 0 are repainted; pixels off the paths are unchanged |
| BlinkDet.OverlayOfTwoLevel | core/blinkdet.go:66-114 | on a black-and-white picture the visited black pixels turn red (255,0,0,255) and nothing else changes |
| BlinkDet.Opens | core/blinkdet.go:60-147 | what `detectBlink` returns for a picture; `RatioExceeds`, `ZeroSpan` and `SaturateZeroesFirstSaturated` characterise it and `DetectBlink` is held to it |
| BlinkDet.Decide | core/blinkdet.go:119-147 | the correction, sums and ratio test return whether the corrected ratio exceeds th |
| BlinkDet.DetectBlink | core/blinkdet.go:56-148 | returns whether the corrected ratio of the picture exceeds th and leaves the four paths painted |
| BlinkDet.BlinkDetector | core/blinkdet.go:17-54 | when the blur fails: nil, false and the blur's error; otherwise a fresh image holding the painted, thresholded Sobel output, no error, and blink == not (ratio > 0.44) |
| BlinkDet.DetectorOutputColours | core/blinkdet.go:33-52 | when the Sobel output has the eye region's size and origin 0, every pixel of the returned image is white, black or red, and red exactly where a ray passed over black |

## Left out

- Floating point: the luma sums (`float64` in `RgbToGrayscale`, `float32` in `rgbToGrayscale`), `puploc.Scale*1.5` and the ratio `float64(cy)/float64(cx)` are exact reals. Rounding differences near integer or threshold boundaries are not modelled.
- `stackblur.Run` and `Sobel` are external. They are given as function parameters: the blur may fail with an error string, the Sobel filter always succeeds. Their kernels are not modelled.
- BlinkDet.BlinkDetector: the blur and Sobel parameters are unconstrained functions, more general than real filters, which keep the picture's dimensions. No property of the model depends on their shape; `BlinkDet.DetectorOutputColours` takes "same size, origin 0" as a precondition where it matters.
- `fmt.Println` diagnostics (`Blink detected`, the counters, the ratio) are output only and are not modelled.
- Go type assertions that panic on a foreign image type (`img.(SubImager)`, `subImg.(*image.NRGBA)`, `blur.(*image.NRGBA)`) are not modelled. The model's images are `image.NRGBA` throughout.
- Grayscale.RgbToGrayscale: the source may be any `image.Image` in Go, but the model takes an `image.NRGBA` picture.
- BlinkDet.BlinkDetector: Go's `SubImage` shares pixel memory with the input image, but the model takes a value copy. Nothing is written to the sub-image, so only aliasing between the Sobel output and other images is lost; the model allocates the Sobel output fresh.
- Go's `int` is 64 bits wide; the model's integers are unbounded. Counters and coordinates of any real image stay far from overflow.
- The `Perturbs` field of the pupil estimate is carried but not read by the core.
- The pupil localizer glue (`examples/blinkdet/puploc.go`) and the browser start-up (`wasm/wasm.go`) are not part of this model.
