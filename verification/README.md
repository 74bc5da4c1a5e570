# Dominant colors and RGB wheel: a Dafny model of the exact logic

The program finds the dominant colours of an image. It offers three quantizers: an eigenvector
split tree in CIELab, k-means in RGB or CIELab, and mean-shift filtering and segmentation. It
shows the resulting palette on an RGB colour wheel, with per-colour percentages, hex codes and
nearest colour names. This project models the part of it that is plain arithmetic and plain
control flow, and proves what that part promises:

- **Colour models** (`color-spaces.cpp`). HSL, HSV, HWB, CMYK, xyY, LMS, the clamped spectral
  polynomial, the wavelength table lookup, and the clamping tail of `XYZtoRGB`. All of them are
  over exact `real` arithmetic (modules `ColorSpaces`, `Hsl`, `Hsv`, `HsvProperties`).
- **Angle helpers** (`angles.cpp`, module `Angles`).
- **The quantizers' discrete skeleton** (`dominant-colors.cpp`).
  - `EigenTree`: the class tree, its leaves in breadth-first order, fresh class ids, the
    partition of a class, and the main split loop.
  - `KMeans`: the k-means write-back.
  - `MeanShift`: the window, averaging and iteration cap of mean-shift filtering.
  - `Segmentation`: the 8-neighbour flood fill of mean-shift segmentation, with its labels,
    region counts and region means.
- **Pixel-grid utilities** (`mat-image-tools.cpp`, module `ImageTools`).
- **Pure logic inside the GUI** (`mainwindow.cpp`, module `Palette`): the colour counts,
  percentages and sort of `Compute`, and the hex text, palette lookup and colour-name search of
  `mousePressEvent`. Also the wheel's own `RGBToHSL`, `RGBMin`/`RGBMax`, the colour-name loader
  and `ChangeBaseDir`.

## Modelling conventions

- **Numbers.**
  - `float`, `double` and `long double` values are Dafny `real`s, so every round trip is stated
    exactly.
  - Where C++ would produce `inf` or `NaN`, the model has an explicit branch: an `Option`, or
    the `Extended` type of `Numeric`.
  - `int` is an unbounded `int`.
  - The C operations are written out: truncation toward zero (`Trunc`), `round` half away from
    zero (`Round`), `fmod` (`Fmod`), and C's `%` on negative dividends (`Palette.CRem`).
  - `& 0xff` is `% 256` on the non-negative values used.
- **Foreign code becomes function parameters.** This covers:
  - the gamma curve of `XYZtoRGB`;
  - `cv::eigen` on a class covariance;
  - `cv::dilate`/`cv::erode`;
  - the shaped (transcendental) `GrayCurve` curves.
- **Images.** An image is a grid `seq<seq<T>>` (module `Grids`). The eigen tree and k-means
  work on the row-major pixel sequence, as every loop there treats one pixel at a time.
- **Square roots.** A distance compared to a bandwidth (`sqrt(d2) < hr`) is stated on the
  square: `hr > 0 && d2 < hr * hr`.
- **Class ids** are `nat`. `dominant-colors.h:22` declares `class_id` as `uchar`, a comment in
  `dominant-colors.cpp` says `int`, and the class map is a 16-bit image.

## Where the code is followed rather than the evident intent

- `HSVtoRGB` with `6 H` outside `[0, 6)` falls to the default branch. That branch sets the three
  channels to 0 but still adds the offset `V - C` afterwards. The result is therefore the gray
  `V - C`, not black; it is black only when `C = V` (`HsvProperties.HsvOutsideSectors`).
- `CopyNonZero`/`CopyNonZeroAlpha` refuse their inputs only when BOTH size and type differ, as
  the literal `and` in the guard says; a first image of another size is laid over the part of
  the second it covers. `ImageTools.Overlay` is the corrected merge. See Findings.
- `Angle::DifferenceRad`/`DifferenceDeg` call an unqualified `abs` on a `long double` in a file
  that includes only `<cmath>`. With the GNU C++ library that call resolves to C's
  `abs(int)`, so the difference is truncated toward zero before its absolute value is taken.
  The model follows that reading (`Angles.IntAbsDiff`). See Findings.
- The colour-name loader leaves the name count one short, as written. See Findings.

## Model

| member | source | states |
|---|---|---|
| Angles.DegRadRoundTrip | angles.cpp:15-23 | radians-to-degrees undoes degrees-to-radians, and the other way round |
| Angles.NormalizedAgree | angles.cpp:25-33 | a normalized angle x is 360 x degrees and 2 Pi x radians, and its radian form is the degree form converted |
| Angles.IntAbsDiff | angles.cpp:37 | the integer `abs` of the difference is the whole part of the distance: at most the distance and less than one below it |
| Angles.DifferenceRad | angles.cpp:35-42 | as written: under a distance of 4 the whole part of the distance (0 to 3, less than one below it); from 4 on Pi minus that whole part, a negative value |
| Angles.DifferenceDeg | angles.cpp:44-51 | as written: a whole number of degrees; the whole part of the distance below 181, and 360 minus it from 181 on |
| Angles.DifferenceSymmetric | angles.cpp:35-51 | both angular differences, as written and corrected, are symmetric in their arguments |
| Angles.DifferenceDegRange | angles.cpp:44-51 | for angles in [0, 360) the degree difference as written is a whole number in [0, 180], less than one degree from the shorter way round |
| Angles.DifferenceDegCorrectedRange | angles.cpp:44-51 | with the floating absolute value, the degree difference of two angles in [0, 360) is the shorter way round: in [0, 180], the distance or 360 minus it, and at most both |
| Angles.DifferenceDegTruncates | angles.cpp:37-46 | counterexample: angles half a degree apart are at distance 0 as written, 0.5 with the floating absolute value |
| Angles.DifferenceRadNegative | angles.cpp:35-42 | counterexample: angles 0 and 3Pi/2 give Pi - 4, negative, where the corrected radian and degree versions give a quarter turn |
| Angles.DifferenceRadCorrectedAgrees | angles.cpp:35-51 | the corrected radian difference lies in [0, Pi] and is the corrected degree difference converted, for angles in [0, 2 Pi) |
| ColorSpaces.ClampCMYK | color-spaces.cpp:900-906 | NaN, -inf and negative values become 0; other values pass unchanged |
| ColorSpaces.CMYKtoRGB | color-spaces.cpp:916-935 | every channel of the result lies in [0, 1], whatever the CMYK input |
| ColorSpaces.CmyToChannel | color-spaces.cpp:922-934 | the clamped channel lies in [0, 1] |
| ColorSpaces.CmyChannel | color-spaces.cpp:908-935 | a channel of a unit colour gives a finite CMY component in [0, 1] that converts back to the channel |
| ColorSpaces.CMYKRoundTrip | color-spaces.cpp:908-935 | for R, G, B in [0, 1], CMYK of the colour exists, lies in [0, 1], and converts back to exactly the colour |
| ColorSpaces.CMYKBlack | color-spaces.cpp:900-914 | black gives K = 1 and C = M = Y = 0 through the NaN guard |
| ColorSpaces.XyYtoXYZ | color-spaces.cpp:719-729 | Y = 0 gives X = Y = Z = 0; otherwise the result keeps the given Y |
| ColorSpaces.XyYBlack | color-spaces.cpp:707-717 | all-zero XYZ gives the D65 white point chromaticity (0.3127, 0.3290) |
| ColorSpaces.XyYDefined | color-spaces.cpp:707-717 | non-negative XYZ has chromaticity x, y in [0, 1] with x + y at most 1 |
| ColorSpaces.XyYRoundTrip | color-spaces.cpp:707-729 | with a non-zero sum and Y, converting to xyY and back gives the XYZ exactly |
| ColorSpaces.LMSLinear | color-spaces.cpp:887-893 | the LMS transform is linear |
| ColorSpaces.LMSRowSums | color-spaces.cpp:887-893 | every row of the LMS matrix sums to 1, so equal-energy white stays white |
| ColorSpaces.SpectralColorToRGB | color-spaces.cpp:314-347 | every channel lies in [0, 1], and wavelengths below 400 or from 700 on give black |
| ColorSpaces.SpectralUnclamped | color-spaces.cpp:314-347 | at every wavelength each polynomial already lies in [0, 1], so the clamps change nothing; red is 0 on [475, 545) and outside [400, 700), green outside [415, 639), blue outside [400, 560) |
| ColorSpaces.FirstRow | color-spaces.cpp:293-312 | the index of the first row with the key, and None exactly when no row has it |
| ColorSpaces.WavelengthLookup | color-spaces.cpp:293-312 | the XYZ of the first table row whose key equals int(w), and (0, 0, 0) when there is none |
| ColorSpaces.XYZtoRGB | color-spaces.cpp:587-623 | every channel of the result lies in [0, 1], whatever the gamma curve computes |
| Hsl.RGBtoHSL | color-spaces.cpp:444-482 | H lies in [0, 1), L = (max + min) / 2, C = max - min, and a gray gives H = S = 0 |
| Hsl.HueBounds | color-spaces.cpp:463-470 | the raw hue in sixths lies in [-1, 5] before wrapping |
| Hsl.SaturationInRange | color-spaces.cpp:444-482 | for a colour of the unit cube S lies in [0, 1] |
| Hsl.HueWrap | color-spaces.cpp:484-490 | a hue argument in [-1, 2] is wrapped once into [0, 1] |
| Hsl.HueToRGBIsRamp | color-spaces.cpp:484-498 | HueToRGB blends its two values by a trapezoid ramp of the wrapped hue |
| Hsl.HSLtoRGB | color-spaces.cpp:500-520 | S = 0 gives the gray (L, L, L) |
| Hsl.Intermediates | color-spaces.cpp:500-520 | from the HSL of a non-gray colour, the two intermediate values are the colour's max and min |
| Hsl.HslRoundTrip | color-spaces.cpp:444-520 | for every colour of the unit cube, HSLtoRGB(RGBtoHSL(c)) is c exactly |
| Hsv.RGBtoHSV | color-spaces.cpp:354-389 | H lies in [0, 1), V = max, C = max - min, and a gray gives H = S = 0 |
| Hsv.HsvHueBounds | color-spaces.cpp:361-366 | the raw hue in degrees lies in [-60, 300] before wrapping |
| Hsv.HsvSaturationInRange | color-spaces.cpp:354-389 | for a colour of the unit cube S lies in [0, 1], and is (max - min) / max when max > 0 |
| HsvProperties.HsvToRgbRange | color-spaces.cpp:391-437 | for H in [0, 1) and S, V in [0, 1], the result's max is V, its min is V - V S, and it lies in the unit cube |
| HsvProperties.HsvRoundTrip | color-spaces.cpp:354-437 | for every colour of the unit cube, HSVtoRGB(RGBtoHSV(c)) is c exactly |
| HsvProperties.HsvOutsideSectors | color-spaces.cpp:428-436 | a hue whose sector lies outside [0, 6) gives the gray V - C, which is black only when C = V |
| HsvProperties.HwbOfRgb | color-spaces.cpp:527-540 | whiteness is the min and blackness is 1 - max, both in [0, 1] with W + B at most 1, and the hue is the HSV hue |
| Hsv.HWBtoHSV | color-spaces.cpp:542-548 | as written: undefined (division by zero) exactly when B = 1; otherwise H is kept and V = 1 - B |
| Hsv.HWBtoRGB | color-spaces.cpp:550-555 | as written: undefined exactly when B = 1 |
| Hsv.HSVtoHWB | color-spaces.cpp:527-533 | the hue is kept, the whiteness is V minus the chroma and the blackness 1 - V, so the two leave exactly the chroma to 1 |
| HsvProperties.HwbInUnit | color-spaces.cpp:527-533 | for every S and V in [0, 1], whiteness and blackness lie in [0, 1] and add up to at most 1 |
| HsvProperties.HwbHsvInverse | color-spaces.cpp:527-548 | HWBtoHSV undoes HSVtoHWB whenever V is not 0 |
| HsvProperties.HwbRoundTrip | color-spaces.cpp:535-555 | through HWB, every non-black colour of the cube comes back exactly, and black only with the corrected conversion |
| HsvProperties.HwbBlackLost | color-spaces.cpp:542-555 | counterexample: black goes to HWB (0, 0, 1), which HWBtoRGB cannot bring back |
| Hsv.HWBtoHSVCorrected | color-spaces.cpp:542-548 | agrees with HWBtoHSV whenever B is not 1, and gives V = S = 0 for B = 1 |
| EigenTree.ClassStats | dominant-colors.cpp:87-126 | a class has no statistics exactly when it has no pixel; otherwise its mean times its pixel count is its colour sum |
| EigenTree.SameClassStats | dominant-colors.cpp:87-126 | the statistics of a class depend only on which pixels belong to it |
| EigenTree.Bfs | dominant-colors.cpp:28-48 | the breadth-first scan returns only nodes without two children |
| EigenTree.LeafList | dominant-colors.cpp:28-48 | the reference leaf list of a tree is non-empty and holds only leaves |
| EigenTree.LeavesAreLeafList | dominant-colors.cpp:28-48 | GetLeaves returns exactly the leaves of the tree, as a multiset |
| EigenTree.MaxId | dominant-colors.cpp:65-85 | the largest id in the tree, which is one of its ids |
| EigenTree.GetNextClassId | dominant-colors.cpp:65-85 | 1 + the largest id: larger than every id, so neither it nor the next id is taken |
| EigenTree.PartitionLabels | dominant-colors.cpp:128-177 | a pixel of the node's class goes to nextid if its projection is at most the mean's, else to nextid + 1; other pixels keep their class |
| EigenTree.PartitionCounts | dominant-colors.cpp:128-177 | the two new classes split the node's class between them, and every other class keeps its pixel count |
| EigenTree.GraftLeaves | dominant-colors.cpp:144-148 | grafting the two children onto a leaf replaces that leaf by the two new leaves and keeps the other leaves |
| EigenTree.MaxAbove | dominant-colors.cpp:204-234 | the first index of strictly maximal value above the start value, or None when none is above it |
| EigenTree.ScanIsFirstMax | dominant-colors.cpp:215-231 | the scan keeps the first strictly maximal value |
| EigenTree.GetMaxEigenValueNode | dominant-colors.cpp:204-234 | a root without branches is returned itself; otherwise the first leaf in breadth-first order whose top eigenvalue is the largest and above -1, or the root when no leaf has one above -1 |
| EigenTree.MaxEigenNodeIsLeaf | dominant-colors.cpp:204-234 | when some leaf's top eigenvalue exceeds -1, the chosen node is one of the leaves and its eigenvalue is at least that leaf's |
| EigenTree.GetDominantColors | dominant-colors.cpp:50-63 | one mean per leaf, in the order of GetLeaves |
| EigenTree.QuantizedPixelIsLeafMean | dominant-colors.cpp:179-202 | a class id gets the mean of the leaf with that id, and zero when no leaf has it |
| EigenTree.GetQuantizedImage | dominant-colors.cpp:179-202 | every pixel gets the colour of its class, pixel by pixel |
| EigenTree.StartInv | dominant-colors.cpp:241-249 | the start (root id 1, class map all 1) is a one-leaf tree holding the statistics of all pixels |
| EigenTree.RoundInv | dominant-colors.cpp:251-256 | one split keeps ids distinct, every pixel in a leaf's class and every leaf's statistics current, and adds one leaf |
| EigenTree.QuantizedIsClassMean | dominant-colors.cpp:179-202 | in any reachable state, a pixel's quantized colour is the mean of its class |
| EigenTree.DominantColorsEigenCIELab | dominant-colors.cpp:236-261 | max(nb_colors, 1) leaf colours for a non-empty image, and every pixel replaced by the mean of its class |
| KMeans.WriteBack | dominant-colors.cpp:278-282 | output row i is center indices[i] |
| KMeans.RoundHalfEven | dominant-colors.cpp:284-285 | the rounding used by convertTo is within one half of its argument |
| KMeans.RoundHalfEvenTies | dominant-colors.cpp:284-285 | ties go to the even neighbour |
| KMeans.SaturateByteNearest | dominant-colors.cpp:284-285 | the saturated byte is the nearest byte inside [0, 255], 0 below 0 and 255 above 255 |
| KMeans.PixelRoundTrip | dominant-colors.cpp:270-285 | a byte pixel converted to floats and back is unchanged |
| KMeans.DominantColorsKMeansRGB | dominant-colors.cpp:267-290 | the palette is the centres, and pixel i is centre indices[i] saturated to bytes |
| KMeans.KMeansImageOfByteCenters | dominant-colors.cpp:278-285 | with byte-valued centres the written image is exactly the centres by index |
| KMeans.DominantColorsKMeansCIELAB | dominant-colors.cpp:292-315 | the palette is the centres, and Lab pixel i is centre indices[i] |
| MeanShift.FilterWindow | dominant-colors.cpp:412-415 | the window is clipped to the image |
| MeanShift.WindowOfWholeBandwidth | dominant-colors.cpp:412-415 | for a whole bandwidth the window is rows [max(i - hs, 0), min(i + hs, ROWS)) and columns likewise, and holds (i, j) when hs is at least 1 |
| MeanShift.WinSum | dominant-colors.cpp:420-430 | the points counted over the first rows of the window are at most those rows times the window's width |
| MeanShift.WinSumBounds | dominant-colors.cpp:420-430 | the accumulated positions lie inside the window: their sums lie between the count times the first and the last row and column |
| MeanShift.ShiftStepInWindow | dominant-colors.cpp:420-432 | the mean of the accepted points lies inside the window, or the step is undefined when none is accepted |
| MeanShift.Iterate | dominant-colors.cpp:417-435 | at most 5 steps; an early stop only when the colour or spatial shift is at most 0.3, and going on after the first step only when both shifts of that step exceed 0.3 |
| MeanShift.IterateTrace | dominant-colors.cpp:417-435 | the loop follows the mean-shift path; every step after which it went on moved the point more than both tolerances, and a stop before the fifth step is NaN or a small move |
| MeanShift.IterateInWindow | dominant-colors.cpp:417-435 | every defined iterate lies inside the window |
| MeanShift.FilteredPixel | dominant-colors.cpp:411-437 | for every pixel: 1 to 5 steps, each step it went on after exceeded both tolerances, an early stop is NaN or a small move, and a defined result lies in the window |
| MeanShift.FilterPixel | dominant-colors.cpp:411-437 | the filtered point of one pixel, after 1 to 5 steps |
| MeanShift.FilterRow | dominant-colors.cpp:411-438 | every pixel of row i gets the colour of its own filtered point |
| MeanShift.MeanShiftFilteringCIELab | dominant-colors.cpp:393-440 | every pixel is replaced by the colour of its own filtered point |
| MeanShift.NonPositiveBandwidth | dominant-colors.cpp:425-431 | with a colour bandwidth of 0 or less no point is accepted, so the first step divides by zero |
| Segmentation.NeighbourIndex | dominant-colors.cpp:328 | every 8-neighbour is one of the eight offsets of dxdy |
| Segmentation.OffsetsAreNeighbours | dominant-colors.cpp:328 | the eight offsets are exactly the 8-neighbourhood |
| Segmentation.Mark | dominant-colors.cpp:496 | labelling a pixel changes that pixel's label and no other |
| Segmentation.UnlabeledMark | dominant-colors.cpp:490-496 | labelling an unlabelled pixel lowers the count of unlabelled pixels by one |
| Segmentation.PushKeeps | dominant-colors.cpp:487-503 | pushing a close unlabelled neighbour keeps the region a distinct chain from the seed, with exactly its pixels relabelled |
| Segmentation.ExpandCell | dominant-colors.cpp:487-505 | after the eight neighbours of a popped pixel, every one is labelled or too far from the seed, and the sum holds the region's colours |
| Segmentation.GrowRegion | dominant-colors.cpp:480-506 | the grown region starts at the seed, is a chain of distinct close pixels, is closed under close unlabelled neighbours, and its count and sum are its size and colour sum |
| Segmentation.RegionClosed | dominant-colors.cpp:482-506 | once every member has been expanded, the region is closed |
| Segmentation.AddRegion | dominant-colors.cpp:470-510 | adding a grown region to the segmentation keeps every invariant, with the new label at the seed |
| Segmentation.Paint | dominant-colors.cpp:516-526 | every pixel gets the mode of its label |
| Segmentation.Visit | dominant-colors.cpp:469-511 | visiting a pixel keeps the segmentation and the counts, and leaves the pixel labelled |
| Segmentation.MeanShiftSegmentationCIELab | dominant-colors.cpp:442-535 | every pixel is labelled, MemberModeCount[k] is the size of region k, and every pixel's output is the mean colour of its region |
| Segmentation.Unsegmented | dominant-colors.cpp:461-466 | the all -1 label grid is the empty segmentation |
| Segmentation.Painted | dominant-colors.cpp:507-526 | painting modes that are region means gives every pixel the mean colour of its region |
| Segmentation.Partition | dominant-colors.cpp:468-513 | after the raster scan, a pixel is in region k exactly when its label is k |
| Segmentation.SeedsInRasterOrder | dominant-colors.cpp:468-471 | labels are handed out in raster order of their seeds |
| ImageTools.ElementSide | mat-image-tools.cpp:239-241 | no element for a size of 0 or less; otherwise an odd side of at least 3 whose half-width is the size |
| ImageTools.MorphPixels | mat-image-tools.cpp:234-262 | dilation and erosion alike return the source for a size of 0 or less, otherwise apply the operation with an odd element whose half-width is the size |
| ImageTools.ShiftFrame | mat-image-tools.cpp:268-288 | shift_up gives dest(y, x) = src(y + n, x) for y < rows - n and zero below, and likewise in the other directions; a shift beyond the frame is refused |
| ImageTools.ShiftUpThenDown | mat-image-tools.cpp:268-288 | shifting up then down by n restores every row from the n-th on and zeroes the first n |
| ImageTools.ShiftRightThenLeft | mat-image-tools.cpp:268-288 | shifting right then left by n restores the first cols - n columns and zeroes the rest |
| ImageTools.ShiftByZero | mat-image-tools.cpp:268-288 | a shift by 0 is the identity |
| ImageTools.GuardLetsDifferentSizesThrough | mat-image-tools.cpp:321-338 | counterexample: images of different sizes and equal type pass the guard, and source1's pixels fall outside the result |
| ImageTools.CorrectedGuardWritesInside | mat-image-tools.cpp:323 | with the corrected guard, every pixel of source1 falls inside the result |
| ImageTools.MergeLoop | mat-image-tools.cpp:326-335 | a copy of source2 where every pixel source1 covers takes source1's value unless it is transparent; pixels source1 does not cover keep source2's |
| ImageTools.OverlayAsWritten | mat-image-tools.cpp:321-357 | empty exactly when size AND type both differ; otherwise source1 over the part of source2 it covers |
| ImageTools.Overlay | mat-image-tools.cpp:321-357 | corrected guard: empty exactly when size OR type differs; otherwise each pixel is source1's if it is non-zero, else source2's |
| ImageTools.GuardsAgree | mat-image-tools.cpp:323 | the corrected guard refuses all the written one refuses; on images of one size and type both pass, no write leaves the result and the merge is the plain overlay |
| ImageTools.SmallerImagePassesAsWritten | mat-image-tools.cpp:323 | a 1 x 1 source1 of the same type passes the written guard and is laid over the top left pixel of a 2 x 2 source2; the corrected guard refuses it |
| ImageTools.CopyNonZero | mat-image-tools.cpp:321-338 | as written: empty only when size and type both differ; otherwise source1's pixel where it covers source2 and is not (0, 0, 0), else source2's |
| ImageTools.CopyNonZeroAlpha | mat-image-tools.cpp:340-357 | the same with four-channel pixels and the guard at line 342 |
| ImageTools.TintPixel | mat-image-tools.cpp:615-665 | every channel is the raw tint clamped to [0, 255] |
| ImageTools.AnaglyphTint | mat-image-tools.cpp:607-669 | the tint applied pixel by pixel |
| ImageTools.TintColorIdentity | mat-image-tools.cpp:619-625 | tint_color reproduces the input |
| ImageTools.TintGrayIsGray | mat-image-tools.cpp:626-631 | tint_gray yields R = G = B |
| ImageTools.DuboisClamps | mat-image-tools.cpp:650-663 | the Dubois matrix can go negative, and the clamp brings it to 0 |
| ImageTools.UnpackPack | mat-image-tools.cpp:673-683 | the 24-bit key of a pixel is in [0, 2^24) and unpacks to the pixel |
| ImageTools.PackInjective | mat-image-tools.cpp:673-683 | two pixels have the same key exactly when they are equal |
| ImageTools.CountRGBUniqueValues | mat-image-tools.cpp:673-683 | the number of distinct colours, between 1 and the pixel count for a non-empty image |
| ImageTools.GrayCurve | mat-image-tools.cpp:469-499 | curve_linear, a zero range and an unknown curve return the colour unchanged |
| ImageTools.GradientFlat | mat-image-tools.cpp:518-521 | every masked pixel gets the begin colour, the others are unchanged |
| ImageTools.GradientLinearWrites | mat-image-tools.cpp:522-541 | only masked pixels inside the area change; there C <= C1 gives the begin colour and C >= C2 the end colour |
| ImageTools.LinearValueBetween | mat-image-tools.cpp:536-540 | with the linear curve, the value between the points lies between the two colours |
| ImageTools.GradientFillGray | mat-image-tools.cpp:508-541 | an unknown gradient type leaves the image unchanged |
| Palette.RGBMin | mainwindow.cpp:310-318 | the minimum of the three inputs, whatever the comment says |
| Palette.RGBMax | mainwindow.cpp:320-328 | the maximum of the three inputs, whatever the comment says |
| Palette.MinMaxAgree | mainwindow.cpp:310-328 | RGBMin and RGBMax agree with the reference min and max of three |
| Palette.CRem | mainwindow.cpp:346-353 | C's % on int: the Euclidean remainder for a non-negative dividend, and in (-n, 0] for a negative one |
| Palette.WheelDegrees | mainwindow.cpp:343-353 | the wheel hue is a whole degree in [0, 360) |
| Palette.WheelHueFloorsHsvHue | mainwindow.cpp:343-353 | for a non-gray colour, the wheel hue is the HSV hue in degrees truncated |
| Palette.RGBToHSL | mainwindow.cpp:330-372 | H = (h + 90) / 360 is in [0.25, 1.25) with h a whole degree; black gives S = L = 0; a gray gives S = r and L = 0; otherwise S = (r + g + b) / 3 and L = max |
| Palette.CountColour | mainwindow.cpp:414-419 | the number of quantized pixels equal to the colour |
| Palette.Percentage | mainwindow.cpp:420 | count / total, in [0, 1] when the count is at most the total, and NaN for an empty image |
| Palette.MeasurePalette | mainwindow.cpp:414-421 | every palette entry gets its exact count and its count / total |
| Palette.Insert | mainwindow.cpp:424 | inserting into a palette sorted by count keeps it sorted and adds exactly the entry |
| Palette.SortByCount | mainwindow.h:97 | counts end non-increasing, and the palette is a permutation of the input |
| Palette.ComputePalette | mainwindow.cpp:414-424 | the measured palette, sorted by non-increasing count, as a permutation |
| Palette.FindInPalette | mainwindow.cpp:202-212 | the first palette entry of the picked colour, and None exactly when no entry among the first nb has it |
| Palette.HexValue | mainwindow.cpp:198 | the packed value is in [0, 2^24) |
| Palette.HexValueInjective | mainwindow.cpp:198 | two byte triples have the same hex value exactly when they are equal |
| Palette.HexTextShape | mainwindow.cpp:198-199 | "#" then 6 zero-padded upper-case hex digits that read back as the packed value |
| Palette.HexTextInjective | mainwindow.cpp:198-199 | two byte triples have the same hex text exactly when they are equal |
| Palette.Base16Parse | mainwindow.cpp:198 | the lower-case base-16 text of a number reads back as the number |
| Palette.Distance2 | mainwindow.cpp:220 | the squared RGB distance is non-negative, and zero exactly for equal colours |
| Palette.NearestName | mainwindow.cpp:215-239 | an exact match wins at its first index; otherwise the first index of minimal distance below 1000000 among the first nb names; Exact exactly when some searched name has the colour |
| Palette.LoadNamesAsWritten | mainwindow.cpp:86-105 | as written: the count is the number of lines read minus one |
| Palette.LastNameNeverSearched | mainwindow.cpp:86-105 | counterexample: a one-line names file is never searched, so its own colour finds no name |
| Palette.LoadNames | mainwindow.cpp:86-105 | corrected: the count is the number of lines read |
| Palette.EveryLoadedNameSearched | mainwindow.cpp:215-239 | with the corrected loader, every loaded colour finds an exact name at or before its own line |
| Palette.PickName | mainwindow.cpp:215-239 | the name search over every loaded name |
| Palette.LastIndexIn | mainwindow.cpp:254-257 | the last position holding one of the characters, and None exactly when there is none |
| Palette.StripExtension | mainwindow.cpp:254-255 | everything from the last '.' removed, and the path unchanged without a '.' |
| Palette.ChangeBaseDir | mainwindow.cpp:252-268 | undefined exactly when the stripped path has no separator; otherwise basedir ends with the last '/' or '\\', basefile has no separator, and basedir + basefile is the stripped path |

## Left out

- Transcendental colour maths (sRGB gamma, cube roots, square roots, trigonometry, CIEDE2000,
  Lab/Luv conversions) cannot be written in exact `real` arithmetic. Gamma and the shaped gray
  curves are function parameters.
- Foreign OpenCV and Qt code is left out: `cv::kmeans`, `cv::eigen`, `dilate`/`erode`,
  `setTo`, the Mat/QImage converters and `split`/`merge`. The k-means labels and centres, the
  eigen decomposition and the morphology operators are parameters.
- File I/O (colour-names file, images, ini settings) and the GUI (window, wheel and palette
  drawing, mouse picking, timers) are left out. The names file comes in as already-parsed
  lines, so `stoi` and the line splitting are not modelled.
- Floating-point widths, rounding error and `int` overflow are not modelled: all arithmetic is
  exact.
- EigenTree.DominantColorsEigenCIELab: the leaf count and "every pixel gets its class mean"
  are proved for a non-empty image and an eigen oracle whose top eigenvalues exceed -1, as a
  covariance's do. Without that hypothesis only the shape of the result is stated.
- EigenTree.GetMaxEigenValueNode: the eigenvalue of a class is read from a parameter, so
  "always a leaf" needs an eigenvalue above -1 (MaxEigenNodeIsLeaf); without one the root
  comes back, as the source's initial `-1` maximum makes it.
- EigenTree.ClassStats: the covariance is computed in exact arithmetic. The `float` matrix of
  `GetClassMeanCov` and its rounding are not modelled.
- MeanShift.MeanShiftFilteringCIELab: the value of the averaged point and its convergence are
  not stated beyond the window bound. A colour distance below `hr` is stated on squares.
- Segmentation.MeanShiftSegmentationCIELab: colour distances are compared on squares, so a
  NaN colour is not modelled.
- ImageTools.GradientFillGray: the double-linear and radial gradient types are not modelled
  and are excluded by its precondition. The area is assumed to lie inside the image, where
  the source would read outside the `Mat`.
- ImageTools.CopyNonZero: the reinterpretation of a Mat of another type as `Vec3b` is not
  modelled; the pixels are given as `Vec3b`. A first image with a non-transparent pixel
  outside the second makes the source write outside the result (undefined behaviour); the
  precondition excludes that case. The same holds for CopyNonZeroAlpha with `Vec4b`.
- Angles.DifferenceRad: the conversion of the `long double` difference to `int` for C's
  `abs(int)` is undefined outside the `int` range; the model truncates without bound. The same
  holds for Angles.DifferenceDeg.
- ImageTools.TintPixel: the tint weights are exact reals, so a weighted sum that `double`
  arithmetic would put just across a rounding tie is not modelled.
- Palette.SortByCount: `std::sort` does not promise an order among equal counts. The model
  keeps equal counts in input order, and its contract states only sortedness and permutation.
- Palette.MeasurePalette: swatch channels are bytes; the `round` of the k-means centres in
  `Compute` before counting is not modelled.
- Palette.NearestName: `pow` on `double` converted to `int` is modelled as the exact integer
  square. The source's uninitialised `index` (no name at all, or every distance at least
  1000000) is the `NoMatch` answer.
- Palette.ChangeBaseDir: `substr(npos)` throwing `std::out_of_range` when there is no
  separator is the `None` answer. A '.' inside a directory name is stripped, as the source does.
- The percentage text of `mousePressEvent` (two decimals and "%") and the palette drawing are
  not modelled.

## Findings

| source | as written | input that shows it | evidently intended | confidence | as-written member | corrected member |
|---|---|---|---|---|---|---|
| angles.cpp:37 | unqualified `abs` on a `long double` with only `<cmath>` included resolves to C's `abs(int)` and truncates the difference (line 46 likewise) | angles 0.5 and 0 give a degree difference of 0 | the floating absolute value (`std::abs`/`fabsl`) | medium, not executed | Angles.DifferenceDegTruncates | Angles.DifferenceDegCorrectedRange |
| angles.cpp:38-39 | a difference above Pi becomes `Pi - angle`, which is negative | angles 0 and 3Pi/2 give Pi - 4 | `2 Pi - angle`, as `DifferenceDeg` does with `360 - angle` | high, not executed | Angles.DifferenceRadNegative | Angles.DifferenceRadCorrectedAgrees |
| color-spaces.cpp:546 | `S = 1 - w / (1 - b)` divides by zero for b = 1 | black: RGBtoHWB gives (0, 0, 1) and HWBtoRGB gives NaN | b = 1 is black whatever w (S = 0, V = 0) | high, not executed | HsvProperties.HwbBlackLost | HsvProperties.HwbRoundTrip |
| mat-image-tools.cpp:323 | the guard refuses only when size AND type both differ (line 342 likewise) | a 2 x 2 source1 over a 1 x 1 source2 of the same type passes the guard and writes outside the result | refuse when size OR type differs | high, not executed | ImageTools.GuardLetsDifferentSizesThrough | ImageTools.CorrectedGuardWritesInside |
| mainwindow.cpp:86-105 | the name count starts at -1 and is incremented before each store, ending at lines - 1; the search runs `n < nb_color_names` | a one-line names file: its colour is never found | the count equals the number of names loaded | high, not executed | Palette.LastNameNeverSearched | Palette.EveryLoadedNameSearched |
