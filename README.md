# Higher-order image processing over an RGB raster

This project models `src/imageProcessingHOF.ts`, a small library of
higher-order traversals over an RGB image, and proves what each traversal
does to the pixels.

The library has three layers:

- **Traversals.** `imageMap` applies a pixel function everywhere. `mapLine`
  rewrites one row in place. `imageMapCoord` writes `func(original, x, y)`
  at every coordinate. `imageMapIf` applies a pixel function where a
  predicate of the original image holds.
- **Regions.** `mapWindow` covers an inclusive rectangle. `makeBorder`
  covers the band of width `thickness` along the edges.
- **Effects.** `dimCenter` floors each channel times 0.8 where its distance
  test holds. `isGrayish` bounds the channel spread by 85. `makeGrayish`
  averages the channels of non-grayish pixels.

Files and modules:

- `colors.dfy`, module `Colors`: the `Color` datatype (three real channels)
  and the per-pixel functions `IsGrayish`, `Dim`, `Averaged` and `Desaturated`.
- `rasters.dfy`, module `Rasters`: a pixel grid as a value (`Grid`, with
  `g[y][x]` the pixel in column x of row y). It holds one specification
  function per traversal and region, and lemmas relating them.
- `effects.dfy`, module `Effects`: specification functions for `dimCenter`
  and `makeGrayish` as the code has them, and beside each the behaviour its
  test and name call for. For `dimCenter` the test at
  src/imageProcessingHOF.test.ts:130-140 fixes the dimmed interior. For
  `makeGrayish` the tests use only black and white images, which the code
  already handles, so the corrected definition follows the function's name
  and its 1x1 branch. Lemmas show inputs where code and intent differ.
- `image.dfy`, module `Images`: the `Image` collaborator as a class with
  constant `width` and `height` and a `rows` field. Besides the object
  invariant `Valid()` and a constructor, its members are `GetPixel`,
  `SetPixel` and `Copy`, the three operations the library calls.
- `hof.dfy`, module `ImageProcessingHof`: one method per exported
  operation on images: all of the library's exported functions except
  `isGrayish`. `isGrayish` works on a single pixel, without loops or state,
  so it is the function `Colors.IsGrayish`. Each method is written the way
  the source is. The loops copy
  first and then call `SetPixel`. The one-line delegations call
  `ImageMapIf` or `ImageMapCoord`. Each method's `ensures` ties the result's
  pixels to the specification function of the input's pixels. Each also
  states whether the result is a fresh object and whether the input is
  unchanged.

Callbacks are Dafny function values. A pixel function has type
`Color -> Color`. The coordinate callbacks (`cond` of `imageMapIf` and
`func` of `imageMapCoord`) receive a snapshot of the original image's pixels
and the coordinates, with type `(Grid, int, int) --> T`. The source always
passes them the original, unwritten image (src/imageProcessingHOF.ts:27,
:38). `DefinedOn(fn, g)` says a callback accepts every in-bounds coordinate.

Where the code and the documented intent differ, the model follows the code:

- `dimCenter` dims the pixels where `distToEdge < thickness`. That is the
  first `2 * thickness` columns and rows and the last `2 * thickness - 1`
  (x < 2t, x > w - 2t, y < 2t or y > h - 2t), not the centre.
- `makeGrayish` changes nothing on any image other than 1x1.

Both cases are listed under "Findings". The library methods `DimCenter` and
`MakeGrayish` keep the behaviour of the code. The corrected definitions
stand beside them with their intended properties proved.

## Model

| member | source | states |
|---|---|---|
| `Colors.Max3` | src/imageProcessingHOF.ts:92 | the result is one of the three channels and no channel exceeds it (`Math.max(...p)`) |
| `Colors.Min3` | src/imageProcessingHOF.ts:93 | the result is one of the three channels and no channel is below it (`Math.min(...p)`) |
| `Colors.IsGrayish` | src/imageProcessingHOF.ts:91-95 | a pixel is grayish iff every two of its channels are within 85 of each other, i.e. max minus min is at most 85 |
| `Colors.FloorOf` | src/imageProcessingHOF.ts:87 | `Math.floor`: the result is an integer, at most v and more than v - 1 |
| `Colors.Dim` | src/imageProcessingHOF.ts:87 | each channel of the result is the integer floor of the channel times 0.8 |
| `Colors.Averaged` | src/imageProcessingHOF.ts:101 | three equal channels whose sum is the original sum, lying between the smallest and largest original channel |
| `Colors.Desaturated` | src/imageProcessingHOF.ts:111-118 | the result is grayish; a grayish pixel is returned as it is; a non-grayish one gets three equal channels with the same sum |
| `Colors.DimDarkens` | src/imageProcessingHOF.ts:87 | for non-negative channels, dimming gives channels between 0 and the original |
| `Colors.DimWhite` | src/imageProcessingHOF.test.ts:134 | dimming [255,255,255] gives [204,204,204] |
| `Colors.GrayishExamples` | src/imageProcessingHOF.test.ts:143-157 | gray, black and white are grayish; the six full-spread primaries and secondaries are not |
| `Colors.DesaturatedIdempotent` | src/imageProcessingHOF.ts:111-118 | applying the makeGrayish pixel function twice equals applying it once |
| `Colors.DesaturatedInRange` | src/imageProcessingHOF.test.ts:167-170 | the makeGrayish pixel function keeps channels within any range holding the original channels, e.g. [0, 255] |
| `Rasters.Mapped` | src/imageProcessingHOF.ts:3-12 | same shape as the input; pixel (x, y) is f of the input pixel (x, y) |
| `Rasters.MappedLine` | src/imageProcessingHOF.ts:14-21 | same shape; pixels of row lineNo become f of themselves, every other pixel is unchanged; an out-of-range lineNo changes nothing |
| `Rasters.MappedCoord` | src/imageProcessingHOF.ts:23-31 | same shape; pixel (x, y) is func(original grid, x, y) |
| `Rasters.MappedIf` | src/imageProcessingHOF.ts:33-39 | same shape; pixel (x, y) is f(original pixel) where cond(original, x, y) holds, the original pixel elsewhere |
| `Rasters.Chosen` | src/imageProcessingHOF.ts:38 | the coordinate function imageMapIf passes to imageMapCoord: defined at every in-bounds coordinate where cond is, giving f of the original pixel where cond holds and the original pixel elsewhere |
| `Rasters.InInterval` | src/imageProcessingHOF.ts:49 | `interval[0] <= v && interval[1] >= v` with JavaScript's `undefined` comparisons: true iff the array has at least two elements and v lies in [interval[0], interval[1]] |
| `Rasters.InWindow` | src/imageProcessingHOF.ts:49 | the mapWindow condition: defined everywhere, true iff both intervals have at least two elements and (x, y) lies in the inclusive window they give |
| `Rasters.Windowed` | src/imageProcessingHOF.ts:41-52 | same shape; f is applied exactly at xMin <= x <= xMax and yMin <= y <= yMax (inclusive), other pixels unchanged; an interval with fewer than two elements changes no pixel |
| `Rasters.InBorder` | src/imageProcessingHOF.ts:58 | the makeBorder test `x < t \|\| y < t \|\| x >= w - t \|\| y >= h - t` holds iff the pixel is not in the interior t <= x < w - t, t <= y < h - t |
| `Rasters.BorderCond` | src/imageProcessingHOF.ts:58 | the makeBorder test as a coordinate condition: defined everywhere, true iff (x, y) is outside the interior t <= x < w - t, t <= y < h - t |
| `Rasters.Bordered` | src/imageProcessingHOF.ts:54-64 | same shape; pixels with t <= x < w - t and t <= y < h - t are unchanged, all others become f of the original pixel |
| `Rasters.MappedIfAlwaysIsMapped` | src/imageProcessingHOF.ts:33-39 | imageMapIf with a condition true everywhere equals imageMap |
| `Rasters.MappedIfNeverIsIdentity` | src/imageProcessingHOF.test.ts:85-96 | imageMapIf with a condition false everywhere returns the input's pixels |
| `Rasters.MappedCoordIdentity` | src/imageProcessingHOF.test.ts:14-22 | imageMapCoord with the identity coordinate function returns the input's pixels |
| `Rasters.MappedCoordOfPixelFn` | src/imageProcessingHOF.ts:23-31 | imageMapCoord with a function of the pixel at (x, y) alone equals imageMap of that pixel function |
| `Rasters.WindowedWholeIsMapped` | src/imageProcessingHOF.test.ts:99-105 | the window [0, w-1] x [0, h-1] gives the same pixels as imageMap |
| `Rasters.WindowedEmptyIsIdentity` | src/imageProcessingHOF.ts:49 | an inverted interval, or one with fewer than two elements, selects no pixel, so mapWindow returns the input's pixels |
| `Rasters.BorderedThinIsIdentity` | src/imageProcessingHOF.ts:58 | a thickness of 0 or less selects no pixel, so makeBorder returns the input's pixels |
| `Rasters.BorderedThickIsMapped` | src/imageProcessingHOF.ts:58 | when 2 * thickness >= width or >= height every pixel is in the band, so makeBorder equals imageMap |
| `Rasters.MappedLinesPartial` | src/imageProcessingHOF.ts:14-21 | mapLine on rows 0 .. n-1 in turn maps exactly the pixels of those rows |
| `Rasters.MappedLinesIsMapped` | src/imageProcessingHOF.ts:14-21 | mapLine on every row in turn equals imageMap |
| `Rasters.InvertRedScenario` | src/imageProcessingHOF.test.ts:23-35 | imageMapCoord on a 2x2 red image with channel-wise 255-minus gives [0,255,255] everywhere |
| `Effects.DistToEdge` | src/imageProcessingHOF.ts:84 | `Math.min` of x - t, (w - t) - x, y - t and (h - t) - y: the result is one of the four and at most each of them |
| `Effects.DimCond` | src/imageProcessingHOF.ts:83-86 | the dimCenter condition: defined everywhere, true iff distToEdge < thickness |
| `Effects.NearEdge` | src/imageProcessingHOF.ts:79-85 | distToEdge < thickness iff x < 2t, x > w - 2t, y < 2t or y > h - 2t |
| `Effects.DimmedCenter` | src/imageProcessingHOF.ts:78-89 | same shape; a pixel is dimmed iff x < 2t, x > w - 2t, y < 2t or y > h - 2t, otherwise unchanged |
| `Effects.GrayCond` | src/imageProcessingHOF.ts:110 | the makeGrayish condition: defined at every in-bounds coordinate, true iff the original pixel there is grayish |
| `Effects.MadeGrayish` | src/imageProcessingHOF.ts:97-121 | same shape; on a 1x1 image the pixel becomes grayish (kept if already grayish, else three equal channels of the same sum); on any other image the result equals the input |
| `Effects.MadeGrayishKeepsGrayish` | src/imageProcessingHOF.ts:97-121 | an image whose pixels are all grayish is a fixed point of makeGrayish |
| `Effects.MadeGrayishIdempotent` | src/imageProcessingHOF.ts:97-121 | makeGrayish applied twice equals makeGrayish applied once |
| `Effects.MadeGrayishBlackAndWhite` | src/imageProcessingHOF.test.ts:160-187 | all-black and all-white images of any size come back unchanged, so every pixel has equal channels within [0, 255] |
| `Effects.Interior` | src/imageProcessingHOF.test.ts:135-136 | the region the dimCenter test expects dimmed is exactly the complement of makeBorder's band |
| `Effects.DimmedInterior` | src/imageProcessingHOF.test.ts:130-140 | corrected dimCenter: same shape; pixels in makeBorder's band unchanged, all others dimmed |
| `Effects.DimmedInteriorIsWindowed` | src/imageProcessingHOF.ts:41-52 | corrected dimCenter equals mapWindow over [t, w-t-1] x [t, h-t-1] with the dimming function |
| `Effects.MadeGrayishEverywhere` | src/imageProcessingHOF.ts:108-119 | corrected makeGrayish: every result pixel is grayish; grayish pixels are kept; non-grayish pixels get equal channels of the same sum |
| `Effects.MadeGrayishAgreesOnSingleton` | src/imageProcessingHOF.ts:98-106 | on a 1x1 image the code as written equals the corrected makeGrayish |
| `Effects.DimCenterDimsEdgeNotCentre` | src/imageProcessingHOF.ts:84-85 | on a 4x4 white image with thickness 1, (2,2) stays white and (0,0) becomes [204,204,204] |
| `Effects.DimmedInteriorScenario` | src/imageProcessingHOF.test.ts:130-140 | corrected dimCenter on a 4x4 white image with thickness 1: interior pixels are [204,204,204], corners stay white |
| `Effects.MakeGrayishSkipsLargerImages` | src/imageProcessingHOF.ts:108-119 | as written, a 2x1 red image keeps its non-grayish pixel while a 1x1 red image is desaturated |
| `Images.Image.GetPixel` | src/imageProcessingHOF.ts:7 | `getPixel(x, y)` for in-range coordinates is the pixel in column x of row y |
| `Images.Image.SetPixel` | src/imageProcessingHOF.ts:8 | pixel (x, y) takes the new colour and every other pixel keeps its value |
| `Images.Image.Copy` | src/imageProcessingHOF.ts:4 | a fresh image with the same width, height and pixels |
| `ImageProcessingHof.ImageMap` | src/imageProcessingHOF.ts:3-12 | returns a fresh image of the same dimensions whose pixels are `Mapped` of the input's; the input is unchanged |
| `ImageProcessingHof.MapLine` | src/imageProcessingHOF.ts:14-21 | changes the argument in place to `MappedLine` of its old pixels |
| `ImageProcessingHof.ImageMapCoord` | src/imageProcessingHOF.ts:23-31 | returns a fresh image of the same dimensions whose pixels are `MappedCoord` of the input's; the input is unchanged |
| `ImageProcessingHof.ImageMapIf` | src/imageProcessingHOF.ts:33-39 | returns a fresh image of the same dimensions whose pixels are `MappedIf` of the input's; the input is unchanged |
| `ImageProcessingHof.MapWindow` | src/imageProcessingHOF.ts:41-52 | returns a fresh image of the same dimensions whose pixels are `Windowed` of the input's; the input is unchanged |
| `ImageProcessingHof.MakeBorder` | src/imageProcessingHOF.ts:54-64 | returns a fresh image of the same dimensions whose pixels are `Bordered` of the input's; the input is never mutated |
| `ImageProcessingHof.DimCenter` | src/imageProcessingHOF.ts:78-89 | returns a fresh image of the same dimensions whose pixels are `DimmedCenter` of the input's; the input is unchanged |
| `ImageProcessingHof.MakeGrayish` | src/imageProcessingHOF.ts:97-121 | 1x1: returns the argument itself, its pixel rewritten in place; otherwise a fresh image; either way the pixels are `MadeGrayish` of the input's |

## Left out

- The `Image` class itself (`../include/image.js`) is not part of this model. Only the `width`, `height`, `getPixel`, `setPixel` and `copy` contracts the library relies on are given. Its storage and `Image.create` are left out. `Rasters.Filled` stands in for `Image.create` in the test scenarios.
- A `Color` is a datatype with three channels rather than a JavaScript array. `pixel.map(...)` and `Math.max(...p)` become per-channel expressions over exactly three channels.
- JavaScript floating point is left out. Channels are exact reals, so `Math.floor(channel * 0.8)` and the `/ 3` average are computed exactly, with no IEEE rounding.
- Channel clamping to [0, 255] is left out because the library performs none. No contract assumes channels are in range.
- Coordinates, `lineNo`, `thickness` and interval bounds are integers. Non-integer JavaScript numbers passed as these arguments are not modelled.
- Interval arrays are sequences of integers. The model follows JavaScript for shorter arrays: a missing element reads as `undefined`, every comparison with it is false, and so no pixel is selected. Elements past the second are ignored.
- Coordinate callbacks receive a snapshot of the original pixels rather than the `Image` object. They are pure, so a callback that mutates the image or has other side effects is not modelled.
- The commented-out first version of `dimCenter` (src/imageProcessingHOF.ts:66-77) is dead code and is not modelled.
- The test suite's mocha/jest mechanics are not modelled. Its expectations appear only as lemmas.

## Findings

| source | as written | input that shows it | evidently intended | confidence | as-written member | corrected member |
|---|---|---|---|---|---|---|
| src/imageProcessingHOF.ts:84-85 | dims where distToEdge < thickness: the first 2t columns and rows and the last 2t - 1 (x < 2t, x > w - 2t, y < 2t or y > h - 2t) | 4x4 white image, thickness 1: (2,2) stays [255,255,255] while (0,0) becomes [204,204,204] | dim the interior t <= x < w - t, t <= y < h - t. Only interior pixels are checked by the test at src/imageProcessingHOF.test.ts:135-137; an untouched border comes from the name. The dead version at ts:66-77 used [t, w - t], also dimming column w - t | not executed | `Effects.DimCenterDimsEdgeNotCentre` | `Effects.DimmedInterior` |
| src/imageProcessingHOF.ts:108-119 | the condition selects grayish pixels, but the pixel function changes only non-grayish ones, so no pixel of an image other than 1x1 ever changes | a 2x1 image of [255,0,0] comes back unchanged, while a 1x1 image of [255,0,0] is desaturated | desaturate every non-grayish pixel at every size, as the 1x1 branch already does | not executed | `Effects.MakeGrayishSkipsLargerImages` | `Effects.MadeGrayishEverywhere` |
