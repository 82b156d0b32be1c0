# Pixel algorithms of an iris-biometrics image workbench, in Dafny

The repository is a browser workbench for eye images. Its `src/utils/`
directory holds the algorithms that work on RGBA pixel buffers
(`Uint8ClampedArray`, row-major, four samples per pixel):

- point operations and binarisers;
- grey-level morphology;
- 3x3 convolution filters;
- a crosshair overlay;
- two thinning (skeletonisation) algorithms: an anchored-erosion
  hit-and-miss thinning and the KMM lookup-table thinning;
- pupil localisation, by a chamfer distance transform and by dark-pixel
  projections;
- the iris boundary profile, built from the mean red level of growing rings;
- the iris code: its sign-bit layout, resampling, and the comparison of two
  codes by circular-shift Hamming distance.

This project models those algorithms and proves their properties. There is
one Dafny module per source file, plus a shared `Pixels` module:

| module | file | source |
|---|---|---|
| `Pixels` | `pixels.dfy` | byte type, typed-array store conversion, JavaScript `Math.round` and `%`, RGBA index arithmetic |
| `Manipulate` | `manipulate.dfy` | `src/utils/manipulate.ts` |
| `Morphology` | `morphology.dfy` | `src/utils/morphology.ts` |
| `Filter` | `filter.dfy` | `src/utils/filter.ts` |
| `Draw` | `draw.dfy` | `drawCrosshair` of `src/utils/draw.ts` |
| `PupilDistance` | `distance.dfy` | `distanceTransform`, `calculateP`, `getPupil` of `src/utils/pupil.ts` |
| `PupilProjection` | `projection.dfy` | `detectPupilWithProjections` and its helpers in `src/utils/pupil.ts` |
| `Iris` | `iris.dfy` | `src/utils/iris.ts` |
| `IrisCode` | `iriscode.dfy` | the integer parts of `src/utils/irisCode.ts` |
| `Skeleton` | `skeleton.dfy` | binary-image helpers and hit-and-miss thinning of `src/utils/skeletonization.ts` |
| `Kmm` | `kmm.dfy` | KMM thinning of `src/utils/skeletonization.ts` |

The model follows the shape of each piece of source code:

- Loops become methods with `while` or `for` loops. Each one is proved
  equal to a specification function of its inputs, and lemmas state what
  that function means.
- Expression code becomes functions.
- Code that changes a buffer in place keeps an `array` with a `modifies`
  clause. These are the filters, `distanceTransform`'s distance map, and
  the KMM bitmap, which is an `array2`.
- Numbers are exact: `int` for the integer algorithms and `real` for
  means, thresholds, distances and the filters' kernel weights, which the
  user may edit to any number.
- A store into a `Uint8ClampedArray` is written out as `Pixels.ClampRound`
  (clamp to [0, 255], then round half to even). For integers it is
  `Pixels.Clamp`.
- Where the source divides by zero and gets NaN or an infinity, the model
  takes the branch that value leads to, and says so at the definition.
- JavaScript's truncating `%` is `Pixels.JsRem`. `Math.round` is
  `Pixels.JsRound`.

## Model

| member | source | states |
|---|---|---|
| Pixels.ClampRound | src/utils/filter.ts:40-42 | storing a number into a clamped byte array gives 0 at or below 0, 255 at or above 255, and otherwise a byte within 0.5 of the number; an exact tie between two bytes goes to the even one |
| Pixels.ClampRoundMonotone | src/utils/filter.ts:40-42 | the clamped-array store is monotone |
| Pixels.JsRound | src/utils/iris.ts:11-12 | `Math.round` gives the integer n with n - 0.5 <= r < n + 0.5 (ties go up) |
| Pixels.JsRem | src/utils/irisCode.ts:324 | JavaScript `%` agrees with the mathematical remainder on a non-negative dividend, is congruent to the dividend modulo n, takes the dividend's sign (never positive for a negative dividend) and always lies strictly between -n and n |
| Manipulate.GrayscaleIdempotent | src/utils/manipulate.ts:1-4 | grayscale gives three equal channels, each the RGB mean, and applying it again changes nothing |
| Manipulate.NegativeInvolution | src/utils/manipulate.ts:28-32 | negating a colour twice gives the colour back |
| Manipulate.BrightnessAndContrastNeutral | src/utils/manipulate.ts:6-26 | brightness 100 and contrast 100 are the identity, and mid-grey 128 is a fixed point of every contrast |
| Manipulate.BinarizationTies | src/utils/manipulate.ts:34-39 | the per-pixel binarisation gives black exactly when the mean is below the threshold and white otherwise, so a tie gives white |
| Manipulate.BinarizeClampedArray | src/utils/manipulate.ts:41-64 | the loop computes the binarised buffer of the input and threshold |
| Manipulate.BinarizedValues | src/utils/manipulate.ts:49-61 | the buffer binariser keeps the length and alpha, and sets R, G, B to 255 exactly when the pixel mean exceeds the threshold and to 0 otherwise (a tie gives 0, the opposite of the per-pixel binarisation) |
| Manipulate.BinarizeIdempotent | src/utils/manipulate.ts:41-64 | binarising twice at a threshold in [0, 255) gives the same buffer as binarising once |
| Manipulate.NegateClampedArray | src/utils/manipulate.ts:119-130 | the loop computes the negated buffer |
| Manipulate.NegatedInvolution | src/utils/manipulate.ts:119-130 | negating a buffer twice gives it back, and alpha is never changed |
| Morphology.ApplyOp | src/utils/morphology.ts:1-6 | the four operations map a buffer to one of the same length |
| Morphology.FoldTapsCharacterised | src/utils/morphology.ts:30-44 | the kernel accumulator is at least as extreme as every active in-image tap visited so far, and equals either its seed (255 for erosion, 0 for dilation) or one such tap |
| Morphology.ExtremeDominatesTap | src/utils/morphology.ts:27-50 | the stored sample is at most (erosion) or at least (dilation) every active in-image tap of the kernel |
| Morphology.ExtremeAttained | src/utils/morphology.ts:27-50 | the stored sample is the seed or the value of one of the taps, so it is the minimum or maximum over the taps |
| Morphology.MorphedAt | src/utils/morphology.ts:27-50 | sample c of pixel (y, x) of the result, alpha included, is the extremum over that pixel's taps |
| Morphology.ErodeBelowDilateAbove | src/utils/morphology.ts:32-43 | with a non-zero kernel centre, erosion never raises and dilation never lowers a sample |
| Morphology.MorphedMonotone | src/utils/morphology.ts:32-43 | erosion and dilation are monotone: a pointwise smaller buffer gives a pointwise smaller result |
| Morphology.DefaultSquareKernelSymmetric | src/utils/morphology.ts:8-12 | the default 3x3 kernel has an active centre and symmetric support |
| Morphology.OpenedBelow | src/utils/morphology.ts:96-104 | for a kernel with symmetric support, opening never raises a sample |
| Morphology.ClosedAbove | src/utils/morphology.ts:106-114 | for a kernel with symmetric support, closing never lowers a sample |
| Morphology.MirrorTap | src/utils/morphology.ts:32-42 | with a kernel symmetric about its centre, if pixel (y, x) reads the in-image pixel under cell (ty, tx), then that pixel reads (y, x) under the mirrored cell; this is why an opening stays below and a closing above its input |
| Morphology.TapExtreme | src/utils/morphology.ts:30-44 | the kernel loops compute the extremum over the taps of one sample |
| Morphology.MorphologyPass | src/utils/morphology.ts:27-50 | the pixel loops build the eroded or dilated buffer |
| Morphology.ErodeBuffer | src/utils/morphology.ts:14-53 | `erode` returns the eroded buffer |
| Morphology.DilateBuffer | src/utils/morphology.ts:55-93 | `dilate` returns the dilated buffer |
| Morphology.OpenBuffer | src/utils/morphology.ts:96-104 | `open` is dilation of the erosion |
| Morphology.CloseBuffer | src/utils/morphology.ts:106-114 | `close` is erosion of the dilation |
| Filter.FilteredAt | src/utils/filter.ts:24-42 | after a pass, an RGB sample of an interior pixel holds the stored kernel-weighted window sum read from the snapshot; every other sample is unchanged |
| Filter.FilterKeepsBorderAndAlpha | src/utils/filter.ts:24-25 | a pass keeps the length, and only RGB samples of interior pixels can change, so border rows, border columns and alpha are untouched |
| Filter.DefaultKernels | src/utils/filter.ts:8-12 | the three default kernels are 3x3, with sums 9, 16 and 1 |
| Filter.AverageWindow | src/utils/filter.ts:30-36 | over the default average kernel (lines 8-12) the window sum of an interior pixel is the plain sum of the nine pixels of its 3x3 neighbourhood |
| Filter.GaussianWindow | src/utils/filter.ts:71-77 | over the default Gaussian kernel (lines 49-53) the window sum is the 1-2-1 weighted sum of the 3x3 neighbourhood: edges twice, the centre four times |
| Filter.SharpenWindow | src/utils/filter.ts:111-117 | over the default sharpen kernel (lines 90-94) the window sum is five times the centre minus its four direct neighbours; the corners do not count |
| Filter.AverageDefaultStores | src/utils/filter.ts:14-47 | the default average filter stores the rounded mean of the nine neighbours |
| Filter.GaussianDefaultStores | src/utils/filter.ts:55-88 | the default Gaussian filter stores the rounded 1-2-1 weighted mean of the neighbourhood |
| Filter.SharpenDefaultStores | src/utils/filter.ts:96-128 | the default sharpen filter stores the clamped, rounded value 5c - n - w - e - s, with no division |
| Filter.UniformStore | src/utils/filter.ts:40-42 | over a channel that is constant v, the store of a window sum is v itself, for a non-zero kernel sum when dividing and a kernel sum of 1 for sharpen |
| Filter.ConstantImageFixed | src/utils/filter.ts:14-47 | an image whose channels are each constant is left unchanged by an average or Gaussian pass with a square kernel of non-zero sum, and by a sharpen pass with a square kernel summing to 1 |
| Filter.WeightedSums | src/utils/filter.ts:30-37 | the kernel loops compute the three channel window sums over the snapshot |
| Filter.FilterInPlace | src/utils/filter.ts:20-46 | for any real kernel weights, the loop nest leaves the buffer equal to the filtered snapshot, whatever the scan order |
| Filter.ApplyAverageFilter | src/utils/filter.ts:14-47 | for any real kernel weights, the average filter changes the buffer in place to the filtered one (sum divided by the kernel sum, then clamped and rounded) and returns the same buffer |
| Filter.ApplyGaussianFilter | src/utils/filter.ts:55-88 | for any real kernel weights, the Gaussian filter changes the buffer in place to the filtered one (sum divided by the kernel sum, then clamped and rounded) and returns the same buffer |
| Filter.ApplySharpenFilter | src/utils/filter.ts:96-128 | for any real kernel weights, the sharpen filter changes the buffer in place to the filtered one (raw sum, clamped and rounded) and returns the same buffer |
| Draw.DrawRow | src/utils/draw.ts:12-20 | the horizontal loop paints exactly the pixels of row centerY with x in [centerX - size, centerX + size] and x < width whose index lands in the buffer; every other sample keeps its value |
| Draw.DrawColumn | src/utils/draw.ts:22-30 | the vertical loop adds exactly the pixels y * width + centerX with y in [centerY - size, centerY + size] and 0 <= y < height |
| Draw.ColumnStep | src/utils/draw.ts:22-30 | admitting one more row to the vertical loop adds exactly that row's pixel on the centre column |
| Draw.DrawCrosshair | src/utils/draw.ts:1-33 | the result is a fresh copy of the input with the crosshair painted in the clamped colour |
| Draw.CrosshairShape | src/utils/draw.ts:12-30 | with the centre column inside the image, a pixel is painted exactly when it is on the centre row within size columns of the centre, or on the centre column within size rows of it |
| Draw.CrosshairIdempotent | src/utils/draw.ts:12-30 | drawing the same crosshair twice gives the buffer of drawing it once |
| PupilDistance.InitialMap | src/utils/pupil.ts:18-26 | the initial distance map has one entry per pixel |
| PupilDistance.ForwardStepBounds | src/utils/pupil.ts:28-44 | one forward-pass update keeps foreground pixels at 0 and every other pixel in [1, INF] |
| PupilDistance.ForwardValueRange | src/utils/pupil.ts:30-42 | a background cell keeps distance 0; a foreground cell gets a distance between 1 and the cap |
| PupilDistance.BackwardValueRange | src/utils/pupil.ts:46-59 | a backward update never raises a distance and does not take a positive one below 1 |
| PupilDistance.BackwardStepBounds | src/utils/pupil.ts:46-59 | one backward-pass update keeps foreground pixels at 0 and every other pixel in [1, INF] |
| PupilDistance.ForwardBounds | src/utils/pupil.ts:28-44 | the forward pass keeps foreground pixels at 0 and every other pixel in [1, INF] |
| PupilDistance.BackwardBounds | src/utils/pupil.ts:46-59 | the backward pass keeps foreground pixels at 0 and every other pixel in [1, INF] |
| PupilDistance.DistanceMapBounds | src/utils/pupil.ts:9-59 | after both passes a pixel is at distance 0 exactly when one of its colour samples exceeds 128; every other pixel is at a distance in [1, INF] with INF = w + h |
| PupilDistance.MaxFiniteBounds | src/utils/pupil.ts:61-66 | the maximum is at least every finite distance and is either 0 or one of them |
| PupilDistance.DistanceTransformedSamples | src/utils/pupil.ts:68-81 | the output keeps alpha and gives the three colour samples of a pixel one grey level, which is 0 for an INF distance and 255 for a foreground pixel when the maximum distance is positive |
| PupilDistance.ForegroundMatrix | src/utils/pupil.ts:9-16 | the first loop holds 255 exactly on the foreground pixels and 0 elsewhere |
| PupilDistance.InitialDistanceMap | src/utils/pupil.ts:18-26 | the second loop builds the map with 0 on the foreground and INF elsewhere |
| PupilDistance.ForwardStep | src/utils/pupil.ts:30-42 | one forward update changes only its own pixel, to the smaller of INF and one more than the west, north-west, north and north-east neighbours (0 stays 0) |
| PupilDistance.ForwardPass | src/utils/pupil.ts:28-44 | the forward raster loop applies the forward update to every pixel in order |
| PupilDistance.BackwardStep | src/utils/pupil.ts:47-58 | one backward update changes only its own pixel, to the smaller of its value and one more than the east, south-west, south and south-east neighbours |
| PupilDistance.BackwardPass | src/utils/pupil.ts:46-59 | the backward raster loop applies the backward update to every pixel in reverse order |
| PupilDistance.MaxDistance | src/utils/pupil.ts:61-66 | the loop finds the largest finite distance, or 0 |
| PupilDistance.DistanceTransform | src/utils/pupil.ts:4-82 | `distanceTransform` returns the normalised distance image of the input |
| PupilDistance.RedSumBounds | src/utils/pupil.ts:84-94 | the sum of the red samples of n pixels lies in [0, 255 n] |
| PupilDistance.MeanRedBounds | src/utils/pupil.ts:84-94 | the mean red level of a non-empty image is defined and lies in [0, 255] |
| PupilDistance.CalculateP | src/utils/pupil.ts:84-94 | `calculateP` is the red sum over w * h, undefined (NaN) for an empty image |
| PupilDistance.ApplyOpsSnoc | src/utils/pupil.ts:111-126 | the operation list is applied in order: a longer list is the last operation applied to the result of the shorter one |
| PupilDistance.ApplyOpsAppend | src/utils/pupil.ts:111-126 | running two lists one after the other is running their concatenation |
| PupilDistance.PupilMaskWithoutOps | src/utils/pupil.ts:105-109 | with no operations the mask is the re-binarised distance image, whose colour samples are all 0 or 255 |
| PupilDistance.ApplyOperation | src/utils/pupil.ts:112-125 | each list entry dispatches to its matching morphology function |
| PupilDistance.ApplyOperations | src/utils/pupil.ts:111-126 | the operation loop applies the morphological operations in list order, as the fold `ApplyOps` |
| PupilDistance.GetPupil | src/utils/pupil.ts:96-129 | `getPupil` binarises at P / Xl, distance-transforms, re-binarises at the threshold and applies the operations in list order |
| PupilProjection.Projections | src/utils/pupil.ts:136-149 | the counting loop gives each row and each column the number of its pixels with red below 128, in two distinct fresh arrays |
| PupilProjection.DarkCountsAgree | src/utils/pupil.ts:136-149 | both projections sum to the same total, the number of dark pixels |
| PupilProjection.RowCountBounds | src/utils/pupil.ts:136-149 | a row count is at most the width, and 0 exactly when the row has no dark pixel |
| PupilProjection.ColCountBounds | src/utils/pupil.ts:136-149 | a column count is at most the height, and 0 exactly when the column has no dark pixel |
| PupilProjection.ClipProjection | src/utils/pupil.ts:151-163 | each clipping loop zeroes, in place, the counts above 80% of the shorter side |
| PupilProjection.ClippedProperties | src/utils/pupil.ts:151-163 | clipping keeps the length; a count at most the limit is kept and one above it becomes 0; clipping twice is clipping once |
| PupilProjection.ApplyMovingAverage | src/utils/pupil.ts:211-228 | the loop gives each entry the mean of the input over its clipped window, which always holds the entry itself |
| PupilProjection.SmoothedBounds | src/utils/pupil.ts:211-228 | smoothing keeps the length, and every smoothed value lies between the least and the greatest input value |
| PupilProjection.SmoothedNarrowWindow | src/utils/pupil.ts:211-228 | a window of fewer than two samples leaves the projection unchanged |
| PupilProjection.RunEnd | src/utils/pupil.ts:236-247 | a run starting at i ends at the first index whose value is not above the threshold |
| PupilProjection.FindDensityRegions | src/utils/pupil.ts:230-258 | the state machine returns the maximal runs above the threshold, given by an independent recursive definition |
| PupilProjection.RegionsShape | src/utils/pupil.ts:230-258 | the regions are maximal runs above the threshold with their exact sums, in order and at least one index apart; they cover every value above it; there are none exactly when no value is above it |
| PupilProjection.LongRegions | src/utils/pupil.ts:265 | the filter keeps exactly the regions with end - start >= 5 |
| PupilProjection.FirstBest | src/utils/pupil.ts:270-283 | the chosen index has the greatest quality (mean times size capped at 50), and every earlier region has strictly less |
| PupilProjection.BestRegion | src/utils/pupil.ts:260-286 | no region is chosen exactly when the list is empty; with no long region the first one is chosen; otherwise a long region of greatest quality, the first such in the filtered list (FirstBest) |
| PupilProjection.FindBestRegion | src/utils/pupil.ts:260-286 | the loop computes that choice |
| PupilProjection.SelectCircle | src/utils/pupil.ts:165-208 | the code after the smoothing detects from the two smoothed projections |
| PupilProjection.DetectPupilWithProjections | src/utils/pupil.ts:131-209 | `detectPupilWithProjections` returns the detection of the buffer |
| PupilProjection.CentreInside | src/utils/pupil.ts:184-185 | the rounded middle of a band lies inside the band |
| PupilProjection.DecideSound | src/utils/pupil.ts:184-206 | a circle kept from two bands is centred inside both, has a non-negative radius and half-extents within a factor of two, and lies at least half a radius from every border |
| PupilProjection.DetectionSound | src/utils/pupil.ts:165-208 | a detected circle is centred on a row and a column whose smoothed projections exceed 10, comes from one region of each axis with half-extents within a factor of two, and lies at least half a radius from every border |
| PupilProjection.DetectionDecided | src/utils/pupil.ts:171-189 | a detection found regions on both axes and is the decision on the two best ones |
| PupilProjection.BestIsMaximal | src/utils/pupil.ts:260-286 | the best region of a non-empty region list is one of the maximal runs |
| PupilProjection.NoBandNoPupil | src/utils/pupil.ts:171-182 | with no smoothed value above 10 on one axis, nothing is detected |
| PupilProjection.NoDarkPixelNoPupil | src/utils/pupil.ts:131-182 | an image without a dark pixel yields no pupil |
| Iris.GetMeanPixelValueInCircle | src/utils/iris.ts:1-32 | the loops compute the mean red value over the lattice points of the annulus around the rounded centre inside the image, or none when there is no such point |
| Iris.ScanRow | src/utils/iris.ts:20-28 | the inner loop accumulates the sum and count of one row of the scanned box |
| Iris.ColsAccBounds | src/utils/iris.ts:20-28 | a row's count is non-negative and its sum lies between 0 and 255 per point |
| Iris.ColsAccEmpty | src/utils/iris.ts:20-28 | a row's count is 0 exactly when no point of its span lies in the annulus |
| Iris.RowsAccBounds | src/utils/iris.ts:19-29 | the box's count is non-negative and its sum lies between 0 and 255 per point |
| Iris.RowsAccEmpty | src/utils/iris.ts:19-29 | the box's count is 0 exactly when no point of the box lies in the annulus |
| Iris.CircleMeanBounds | src/utils/iris.ts:31 | the mean of a non-empty annulus lies in [0, 255] |
| Iris.CircleMeanNoneIff | src/utils/iris.ts:1-32 | null is returned exactly when no pixel of the image lies in the annulus around the rounded centre |
| Iris.ListOfMeanPixelValuesInEyeStartingFromPupil | src/utils/iris.ts:34-92 | the list has one entry for each radius 1, 1 + step, ... (0, step, ... for discs) below the eye radius, each entry the one its radius defines |
| Iris.MeanListPrefix | src/utils/iris.ts:46-67 | a shorter list is a prefix of a longer one, so each entry depends on earlier radii only |
| Iris.MeanListEntry | src/utils/iris.ts:46-88 | entry k is the mean of its annulus [i - 1, i] (or disc [0, i]) where that has points, and otherwise repeats entry k - 1, or is 0 for the first |
| Iris.MeanListBounds | src/utils/iris.ts:46-88 | every entry lies in [0, 255] |
| Iris.BestJump | src/utils/iris.ts:101-119 | the choice is absent exactly when there is no candidate index; otherwise it is a candidate in [1, n) with the largest jump, and every earlier candidate has a strictly smaller jump |
| Iris.FindLargestJumps | src/utils/iris.ts:99 | a list shorter than 2 gives no jumps; a longer one always gives a pupil jump |
| Iris.LargestJumpsProperties | src/utils/iris.ts:101-119 | the pupil jump is the first index of the largest jump; the iris jump is the first index of the largest jump beyond the threshold radius, and absent exactly when no index is beyond it |
| IrisCode.CountDifferences | src/utils/irisCode.ts:318-331 | the two inner loops count the cells that differ at one shift, read circularly |
| IrisCode.CreateIrisComparisonReport | src/utils/irisCode.ts:300-373 | the comparison computes the report of the two codes and the threshold, or its error |
| IrisCode.DifferencesBound | src/utils/irisCode.ts:318-331 | at most rows x cols cells differ |
| IrisCode.ShiftDistanceBounds | src/utils/irisCode.ts:332 | the distance at a shift is undefined exactly when the code has no cell, and otherwise lies in [0, 1] |
| IrisCode.BestShiftProperties | src/utils/irisCode.ts:315-337 | the running minimum is in [0, 1] and at most every defined distance so far; either it is still the initial (1.0, 0) and no distance is below 1, or it is the distance of its shift, strictly below every earlier shift's distance |
| IrisCode.ComparisonReport | src/utils/irisCode.ts:312-368 | an error exactly for codes of different shape or two empty codes; otherwise the distance is in [0, 1] and at most the distance at every shift in [-8, 8]; it is a match exactly below the threshold; the shift is the earliest one reaching the distance; when no shift gets below 1 the report is exactly distance 1 at shift 0 |
| IrisCode.SelfComparison | src/utils/irisCode.ts:318-337 | a code with a non-empty first row compared with itself is at distance 0, a match exactly when the threshold is positive; the other rows may have any length |
| IrisCode.RowDifferencesSymmetric | src/utils/irisCode.ts:324-326 | a row differs in as many cells at shift s as the swapped row at shift -s |
| IrisCode.DifferencesSymmetric | src/utils/irisCode.ts:318-331 | the two codes differ in as many cells at shift s as the swapped codes at -s |
| IrisCode.ComparisonSymmetric | src/utils/irisCode.ts:315-337 | comparing two same-shape codes in either order gives the same distance |
| IrisCode.ComplexToPart | src/utils/irisCode.ts:201-205 | the first bit is 1 exactly for a real part <= 0 and the second exactly for a negative imaginary part; both are 0 or 1 |
| IrisCode.AssembleIrisCode | src/utils/irisCode.ts:264-291 | the segment loop fills a fresh 16 x 128 matrix with the sign bits of the responses |
| IrisCode.IrisCodeLayout | src/utils/irisCode.ts:264-291 | the code is 16 x 128 bits; row 2s holds the real and row 2s + 1 the imaginary sign bits of segment s |
| IrisCode.AssembledCodesCompare | src/utils/irisCode.ts:312-337 | two assembled codes always compare without error; a code is at distance 0 from itself; the distance does not depend on the order |
| IrisCode.SegmentsTile | src/utils/irisCode.ts:269-270 | the row ranges of the eight segments are consecutive and stay inside the normalised image |
| IrisCode.RedRow | src/utils/irisCode.ts:274-278 | a row of segment data is nw samples long and holds the red sample of each pixel of that image row |
| IrisCode.SegmentData | src/utils/irisCode.ts:268-280 | segment s reads exactly the rows from its start up to the next segment's start, each the red channel of that image row, and ends inside the image |
| IrisCode.Resampled | src/utils/irisCode.ts:173-179 | the resampled list always has 128 entries |
| IrisCode.ResampleMeans | src/utils/irisCode.ts:173-179 | the loop builds the resampled list |
| IrisCode.ResampleIndexProperties | src/utils/irisCode.ts:173-179 | for a non-empty list the index min(floor(k n / 128), n - 1) is floor(k n / 128) itself, inside the list and non-decreasing in k |
| IrisCode.ResampledEntries | src/utils/irisCode.ts:173-179 | entry k of a non-empty list's resample is meanList[floor(k n / 128)] |
| Skeleton.ToBinaryImage | src/utils/skeletonization.ts:1-13 | the loops build the binary image of the buffer |
| Skeleton.BinaryImageProperties | src/utils/skeletonization.ts:1-13 | the binary image has height rows of width cells, each 0 or 255, and a cell is 0 exactly when the RGB mean is below 128 |
| Skeleton.FromBinaryImage | src/utils/skeletonization.ts:15-29 | the loops build the buffer of the image |
| Skeleton.FromBinaryLayout | src/utils/skeletonization.ts:15-29 | the buffer has 4 w h samples; pixel (i, j) carries the stored cell value on R, G and B, and 255 on alpha |
| Skeleton.BinaryRoundTrip | src/utils/skeletonization.ts:1-29 | writing a 0/255 image to a buffer and binarising it again gives the image back |
| Skeleton.Negate | src/utils/skeletonization.ts:31-33 | negation keeps the number of rows and every row's length |
| Skeleton.NegateProperties | src/utils/skeletonization.ts:31-33 | the negation is a 0/255 image that is 0 exactly where the input is not, keeps the dimensions, and is an involution on 0/255 images |
| Skeleton.PadImage | src/utils/skeletonization.ts:35-52 | the loops build the framed image |
| Skeleton.Cropped | src/utils/skeletonization.ts:418-425 | cropping a frame of pad cells shrinks each side by 2 pad |
| Skeleton.PaddedProperties | src/utils/skeletonization.ts:35-52 | the padded image is (h + 2 pad) x (w + 2 pad), holds value outside the inner window, and cropping the frame gives the image back |
| Skeleton.FirstZeroInRow | src/utils/skeletonization.ts:55-57 | the first 0 of a row from a column on, or none when the rest of the row has no 0 |
| Skeleton.FirstZeroFrom | src/utils/skeletonization.ts:55-57 | the first 0 cell in row-major order, or none when there is none |
| Skeleton.ErosionPad | src/utils/skeletonization.ts:61 | the frame is at least every offset of the element from its anchor |
| Skeleton.ErosionRep | src/utils/skeletonization.ts:54-89 | the counting loops and the final comparison build the eroded image |
| Skeleton.ErodedMeaning | src/utils/skeletonization.ts:54-89 | the erosion has the input's size and values 0 and 255 only, and a pixel is 0 exactly when every 0 cell of the element, placed by its anchor, lands on a 0 pixel of the image |
| Skeleton.HitAndMiss | src/utils/skeletonization.ts:91-104 | the transform combines the two erosions |
| Skeleton.HitAndMissMeaning | src/utils/skeletonization.ts:91-104 | a pixel matches exactly when the object element fits the 0 pixels and the background element fits the 0 pixels of the negated image |
| Skeleton.ElementFacts | src/utils/skeletonization.ts:114-204 | the sixteen elements are 3 x 3, each object element has its centre set, and the representative point anchors at the centre |
| Skeleton.ThinStep | src/utils/skeletonization.ts:210-211 | a rotation step keeps the image size |
| Skeleton.ThinStepPixel | src/utils/skeletonization.ts:210-211 | a rotation step turns exactly the matched foreground pixels into background and changes nothing else |
| Skeleton.ThinStepBinary | src/utils/skeletonization.ts:210-211 | a rotation step keeps the image 0/255 |
| Skeleton.ThinRoundsPixel | src/utils/skeletonization.ts:209-212 | over the rotation steps of an iteration, a pixel only turns from foreground into background |
| Skeleton.ApplyRotation | src/utils/skeletonization.ts:210-211 | one rotation step: the hit-and-miss result of rotation i, with every matched pixel set to background, equals the step function `ThinStep` |
| Skeleton.ThinIteration | src/utils/skeletonization.ts:209-212 | the loop over the eight rotations yields the eight rounds `ThinRounds(img, 8)` |
| Skeleton.IterateThinning | src/utils/skeletonization.ts:206-213 | the outer loop leaves an image of the input's size, the input thinned max(0, numIter) times; a negative count runs no iteration |
| Skeleton.ThinnedPixel | src/utils/skeletonization.ts:206-213 | after any number of iterations the foreground is a subset of the original one and every changed pixel is background |
| Skeleton.ThinnedBinary | src/utils/skeletonization.ts:206-213 | the thinned image is 0/255 |
| Skeleton.MorphologicalThinning | src/utils/skeletonization.ts:106-216 | the thinning returns the buffer of the binary image thinned numIter times (not at all when numIter <= 0) |
| Skeleton.ThinningOutput | src/utils/skeletonization.ts:106-216 | every output pixel is opaque, grey, black or white, and black only where the input pixel was dark |
| Kmm.Ravel | src/utils/skeletonization.ts:218-231 | the neighbourhood has the eight neighbours |
| Kmm.RavelCell | src/utils/skeletonization.ts:218-231 | each neighbour sits at its clockwise position, set exactly when it is non-zero |
| Kmm.CalculateNeighborhoodValue | src/utils/skeletonization.ts:237-246 | the loop sums the weights of the set neighbours |
| Kmm.WeightsArePowers | src/utils/skeletonization.ts:233-235 | the weights are 2^0 .. 2^7 |
| Kmm.NeighborhoodCode | src/utils/skeletonization.ts:233-246 | the code is a byte, and two neighbourhoods get the same code exactly when they are equal |
| Kmm.CountTrueFull | src/utils/skeletonization.ts:248-254 | all eight neighbours are set exactly when the count of set ones is 8 |
| Kmm.FewNeighbours | src/utils/skeletonization.ts:237-246 | with at most one set neighbour the code is 0 or a single weight |
| Kmm.SomeNeighbourUnset | src/utils/skeletonization.ts:248-254 | fewer than eight of the neighbours are set exactly when some neighbour cell is 0, both directions |
| Kmm.TwoThreeMeaning | src/utils/skeletonization.ts:248-262 | isTwo holds exactly for a set centre with some neighbour 0; isThree exactly for a centre 2 with the four direct neighbours set |
| Kmm.RulesNeedCentre | src/utils/skeletonization.ts:248-313 | every rule needs a set centre |
| Kmm.SingleBitsUnlisted | src/utils/skeletonization.ts:264-313 | neither 0 nor any single weight is in the isFour table or the deletion table |
| Kmm.EndPointsKept | src/utils/skeletonization.ts:264-313 | a pixel with at most one set neighbour is never marked 4 and never deleted |
| Kmm.PatchRuled | src/utils/skeletonization.ts:315-339 | the marking pass keeps the image size |
| Kmm.ApplyPatchRule | src/utils/skeletonization.ts:315-339 | the loops fill a fresh copy of the bitmap in which every interior cell is decided from the unmodified input |
| Kmm.PatchRuledProperties | src/utils/skeletonization.ts:315-339 | the marking pass leaves the border alone, changes a cell only to the marker and only where its patch satisfies the rule, and with a non-zero marker keeps the set of non-zero cells |
| Kmm.DeleteScan | src/utils/skeletonization.ts:341-358 | the deletion scan keeps the image size |
| Kmm.ApplyDeletePatchRule | src/utils/skeletonization.ts:341-358 | the loops clear in place, in raster order, each interior cell whose patch (reading the cells already cleared) satisfies the rule |
| Kmm.DeleteScanClears | src/utils/skeletonization.ts:341-358 | the deletion pass only writes 0 and never touches the border |
| Kmm.FoursCleared | src/utils/skeletonization.ts:398-404 | clearing the 4s keeps the image size |
| Kmm.ClearFours | src/utils/skeletonization.ts:398-404 | the loop sets the cells that hold 4 to 0 and leaves the rest |
| Kmm.SetOnes | src/utils/skeletonization.ts:409-415 | the loop sets every non-zero cell to 1 |
| Kmm.PadImage2D | src/utils/skeletonization.ts:360-377 | the loops build the framed bitmap |
| Kmm.StartBitmap | src/utils/skeletonization.ts:384-389 | the starting bitmap is (h + 2) x (w + 2) |
| Kmm.KmmStep | src/utils/skeletonization.ts:392-415 | one loop body computes one iteration on a fresh bitmap of the same size |
| Kmm.CropToMask | src/utils/skeletonization.ts:418-425 | the loop drops the frame and maps every set cell to 255 |
| Kmm.Iterate | src/utils/skeletonization.ts:391-416 | the loop runs the iteration numIter times (not at all when numIter <= 0) |
| Kmm.KmmThinning | src/utils/skeletonization.ts:379-428 | the thinning returns the buffer of the negated, cropped bitmap after the iterations |
| Kmm.MarkingPasses | src/utils/skeletonization.ts:393-396 | the three marking passes keep the support and a 0 border |
| Kmm.ClearingPasses | src/utils/skeletonization.ts:398-407 | clearing the 4s and the two deletion passes only clear cells, and keep a 0 border |
| Kmm.IterationProperties | src/utils/skeletonization.ts:392-415 | after an iteration every cell is 0 or 1, no 0 cell has become set, and a 0 border stays 0 |
| Kmm.IteratedProperties | src/utils/skeletonization.ts:391-416 | after n > 0 iterations every cell is 0 or 1; after any number no 0 cell has become set and a 0 border stays 0 |
| Kmm.StartBitmapProperties | src/utils/skeletonization.ts:384-389 | the starting bitmap has a 0 frame and is set exactly where the input pixel is dark |
| Kmm.KmmOutput | src/utils/skeletonization.ts:418-427 | every output pixel is opaque, grey, black or white, and black only where the input pixel was dark |
| Kmm.CroppedPixel | src/utils/skeletonization.ts:418-427 | cropping the frame, masking and negating yields an h x w image of 0 and 255 only, whose pixel is black only where the starting bitmap is set one cell down and right |
| Kmm.NoIterations | src/utils/skeletonization.ts:379-428 | with no iterations the output is the binarised input |

## Left out

- Default argument values are not modelled: every operation takes all of
  its arguments. The defaults are the crosshair colour [255, 0, 0, 255],
  10 KMM iterations, the binarisation threshold 128, the comparison
  threshold 0.2, a thresholdRadius of 1.3 times the pupil radius, rings
  with step 1, and each filter's default kernel. The user interface relies
  on the default crosshair colour, which the model takes as an argument.
- The user interface and its I/O are not part of this model. This covers the
  React components, image loading, canvas drawing, `localStorage` and the
  `console.log` calls in `src/utils/pupil.ts`.
- `daugmanNormalizeIris` (src/utils/irisCode.ts:17-139) is left out: it uses
  trigonometry on floating-point numbers.
- `gaborFunFactor` (src/utils/irisCode.ts:182-199) is left out: it uses
  `exp`, `cos` and `sin`. Its complex responses are an input of
  `IrisCode.AssembleIrisCode`.
- The Gaussian weights of `gaussianWeightedMean` (src/utils/irisCode.ts:141-170)
  are left out. Only its resampling loop is modelled.
- `irisCodeToCrispImage` and the canvas drawing of the comparison report
  (src/utils/irisCode.ts:207-236, 339-363) are canvas output and are left out.
- `drawCircle` (src/utils/draw.ts:35-66) is left out: it uses trigonometry.
- `normalizeClampedArray` and `contrastStretch` (src/utils/manipulate.ts:66-117)
  are left out: they use `Math.sqrt` and `Float32Array`.
- Numbers are exact rationals, not IEEE doubles. Intermediate rounding of
  means, quotients and thresholds is not modelled. A NaN or an infinity
  appears only where the source divides by zero, as the explicit branch it
  leads to.
- PupilDistance.FirstThreshold uses 255 where `getPupil` divides by zero:
  for Xl = 0, or an empty image whose mean red level is NaN. The source's
  +Infinity or NaN threshold and 255 both binarise every pixel to 0, since
  no mean compares greater.
- The `Uint32Array` distance map of `distanceTransform` never overflows,
  since every distance is at most w + h. It is modelled as `int`.
- Iris.ListOfMeanPixelValuesInEyeStartingFromPupil requires step > 0 unless
  the eye radius is at most the first radius (1 for rings, 0 for discs). In
  that case the loop never runs and the list is empty for every step. With
  step <= 0 and a larger eye radius the source loop does not terminate.
- PupilProjection.ApplyMovingAverage takes the window size as a natural
  number. The source is called with 3.
- The filters require a kernel of at most three rows, each at least as long
  as the number of rows. With larger kernels the source reads outside the
  snapshot. The morphology operations require a rectangular, non-empty
  kernel.
- Draw.DrawCrosshair requires a buffer of exactly 4 w h samples and a colour
  of four entries.
- Iris.BestJump: the stable descending sort followed by taking the first
  element is modelled as the earliest index of the largest jump, which is
  what a stable sort yields.
- IrisCode.ComparisonSymmetric and IrisCode.AssembledCodesCompare require
  rectangular codes with at least 8 columns. With fewer columns a shifted
  column index can go negative, where the source reads `undefined`; the
  comparison is modelled for that case but symmetry is not claimed.
- Skeleton.MorphologicalThinning and the other image functions require
  rectangular images. Skeleton.MorphologicalThinning requires height > 0
  when numIter > 0: the source throws a TypeError on an empty image
  (`image[0].length`), which is not modelled.
- Kmm.KmmThinning requires height > 0, for the same TypeError in
  `padImage2D`.
- Kmm.ApplyPatchRule and Kmm.ApplyDeletePatchRule take the rule as a value
  of the `Kmm.Rule` datatype, naming one of the five predicates of the
  source, rather than as a function value.
- Skeleton.ErosionRep requires rectangular, non-empty structuring elements
  and anchor images, as all of those in the source are.
