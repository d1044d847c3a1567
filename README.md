# Spheroid processor: a verified model of the segmentation core

`SpheroidProcessor` analyses a microscope image of a tumour spheroid. It finds the
spheroid in a greyscale image and splits it into a dark **core** and the lighter
**border** around it. It returns three masks (spheroid, core, border) and their pixel
counts. This project models the processor's decision logic in Dafny:

- the processor object and its state (`original_image`, `gray_image`,
  `enhanced_image`, `results`, `crop_offset`);
- `load_image`, and the guard that returns `{}` before any image is loaded;
- the crop: percentages become a clamped pixel rectangle; an invalid crop falls back to
  the whole image;
- the intensity stretch, the polarity flip (invert when the mean exceeds 127), the
  saturating edge add, and the binarisation;
- the contour choice: the first largest contour whose area is at least `min_area`;
- the core threshold: numpy's linear-interpolation percentile over the raw
  intensities inside the spheroid, followed by a strict `<` test;
- the largest-component pick, then the core/border split with `bitwise_and` and a
  saturating `subtract`;
- placing the cropped masks back on full-size canvases, the pixel counts, the results
  dictionary and the empty results.

The OpenCV algorithms are parameters of the model. The denoiser, CLAHE, Canny,
dilation, morphology, contour finding, contour area, contour filling, component
labelling, grey conversion and outline drawing are fields of the `Vision.Vision`
record. The predicate `Vision.Sound` states the only facts the surrounding code relies
on; each operation requires only the parts it needs:

- outputs keep the input's size and stay in 0..255;
- a filled contour is a 0/255 mask;
- morphology of an empty mask is empty;
- a component labelling gives label 0 exactly on the zero pixels.

Everything around these calls follows the code as written, with two exceptions,
both listed under "## Left out": the cropped masks and their outlines are placed at
the intended corner (see "Findings"), and arithmetic is exact rather than floating
point.

The model is laid out as follows:

- `raster.dfy`: rasters as rectangular `seq<seq<int>>` and numpy's pointwise
  operations on them (`zeros_like`, `m[cond] = 255`, `255 - g`, `cv2.add`,
  `cv2.subtract`, `bitwise_and`, `threshold`), plus counting.
- `canvas.dfy`: numpy slice assignment into a zero canvas. It includes numpy's clipping
  of slices at the array edge and its broadcast rule: an axis of length 1 may be
  written into a slice of any length, including 0.
- `crop.dfy`: the crop rectangle, the working raster and `crop_offset`.
- `preprocess.dfy`: the stretch, the polarity flip, edge augmentation and the binary
  mask.
- `select.dfy`: first-largest selection.
- `percentile.dfy`: `np.percentile`.
- `segment.dfy`: the spheroid/core/border split.
- `processor.dfy`: the processor class, `process_spheroid` and the results.

Where the source builds masks by writing into a zero array, a method performs those
writes into an `array2` and is proved equal to the function that specifies it:

- `Segmentation.MarkWhere` for `m[cond] = 255`;
- `Canvas.PlaceOnCanvas` for the canvas slice assignment.

The class methods update their fields, and their contracts state the whole new state.

Where the project's documentation and the code disagree, the model follows the code.
The one exception is the last item:

- A failed `load_image` sets `original_image` to `None` but keeps the previous
  `gray_image`. A later `process_spheroid` then still works on the old grey image.
- An invalid crop leaves `crop_offset` as it was. The attribute is not set in the
  constructor; `None` models "not yet set".
- `core_percentile = 100` does not put every spheroid pixel in the core. Pixels at the
  maximum intensity fail the strict `<` and stay in the border.
- The results store the edge-augmented raster under `enhanced_image`. The attribute
  `enhanced_image` keeps the raster from before edge augmentation.
- The empty results are returned but not stored in `results`.
- Without an original picture, the overlay has the size of the cropped masks, not of
  the image.
- Placing the masks back after a crop uses an offset recomputed without clamping. This
  is wrong in two cases; see "Findings". Here the model departs from the code: it uses
  the intended placement and keeps the placement as written beside it.

## Model

| member | source | states |
|---|---|---|
| Raster.Zeros | src/spheroid_processor.py:288 | `np.zeros_like`: a mask of the given size whose every sample is 0 |
| Raster.MaskOf | src/spheroid_processor.py:212-213 | writing 255 through a condition into zeros gives a 0/255 mask that is non-zero exactly where the condition holds |
| Raster.Invert | src/spheroid_processor.py:145 | every inverted sample plus the original sample is 255 |
| Raster.SatAdd | src/spheroid_processor.py:157 | `cv2.add` gives the sum, or 255 when the sum overflows; never more than 255 |
| Raster.SatSub | src/spheroid_processor.py:233 | `cv2.subtract` gives the difference, or 0 when it would be negative |
| Raster.AndByte | src/spheroid_processor.py:230 | on mask values, the bitwise and is 255 exactly when both are 255 |
| Raster.BitAnd | src/spheroid_processor.py:230 | on two masks, the result is a mask that is non-zero exactly where both are |
| Raster.Binarize | src/spheroid_processor.py:160 | a 0/255 mask that is 255 exactly where the sample exceeds the threshold |
| Raster.CountPartition | src/spheroid_processor.py:268-270 | when two masks partition a third, their pixel counts add up to its count |
| Raster.CountSubset | src/spheroid_processor.py:213 | a mask inside another counts no more pixels |
| Raster.CountZero | src/spheroid_processor.py:295-297 | an all-zero raster counts 0 pixels |
| Raster.CountPositive | src/spheroid_processor.py:268-269 | `np.count_nonzero` (`Count`) is positive once any sample is non-zero; with `CountZero`, it is 0 exactly on an all-zero raster |
| Raster.SumInvert | src/spheroid_processor.py:141-145 | inverting n samples turns their sum s into 255 n - s |
| Canvas.SliceLen | src/spheroid_processor.py:249-251 | numpy's clipped slice length: the full length when the slice ends inside the axis, the rest of the axis (`n - start`) when it starts inside and runs past the end, 0 when it starts at or past the end |
| Canvas.FitsWindow | src/spheroid_processor.py:249-251 | numpy's broadcast rule (`Fits`, `Broadcasts`) on the window: a window inside the canvas always fits; a mask of more than one row or column whose window sticks out on that axis never does; a single pixel fits at any offset |
| Canvas.Paste | src/spheroid_processor.py:243-251 | the slice write succeeds exactly when numpy's broadcast rule (`Fits`) allows it; the canvas then holds the mask inside the window and 0 elsewhere (`Placed`) |
| Canvas.PlaceOnCanvas | src/spheroid_processor.py:243-251 | the element-by-element write into a zero array produces exactly `Paste` |
| Canvas.PasteAtOrigin | src/spheroid_processor.py:249-251 | a full-size mask written at the origin comes back unchanged |
| Canvas.PasteInsideRegion | src/spheroid_processor.py:249-251 | inside the canvas, a non-zero canvas pixel lies in the window and equals the mask pixel it came from |
| Canvas.PasteKeepsCount | src/spheroid_processor.py:249-251 | a mask written wholly inside the canvas keeps its pixel count |
| Canvas.PastBelowEdgeIsEmpty | src/spheroid_processor.py:239-251 | a one-row mask written at a row at or past the edge is accepted by numpy and leaves the canvas all zero |
| Canvas.PastBeyondEdgeIsEmpty | src/spheroid_processor.py:239-251 | a one-column mask written at a column at or past the edge is accepted by numpy and leaves the canvas all zero |
| Canvas.FullSizeAtOffsetFails | src/spheroid_processor.py:239-251 | a full-size mask written at a non-zero offset does not fit, so numpy raises |
| Crop.PixelOf | src/spheroid_processor.py:88-91 | `int(n * p / 100)`: the floor of the scaled percentage, at most `n` for a percentage of at most 100 |
| Crop.CropRegion | src/spheroid_processor.py:83-97 | invalid exactly when a start is not below its end; otherwise 0 <= x1 < x2 <= w and 0 <= y1 < y2 <= h; starts and ends inside the image kept as requested; a start at or past the edge clamped to the last row or column; an end past the edge clamped to the edge; an end that floors to at most its start giving an extent of one pixel |
| Crop.CropGrid | src/spheroid_processor.py:100 | the cut-out has the rectangle's size and holds the image's pixels shifted by its corner |
| Crop.Working | src/spheroid_processor.py:78-106 | the whole grey image without a crop or with an invalid one, otherwise a raster of the rectangle's size |
| Crop.NextCropOffset | src/spheroid_processor.py:78-106 | `crop_offset` becomes (0, 0) without a crop, stays unchanged for an invalid crop, and becomes the clamped rectangle's corner `(x1, y1)`, a point inside the image, for a valid one |
| Crop.Offset | src/spheroid_processor.py:239-240 | the unclamped placement offset (computed again for the outlines at lines 316-317): (0, 0) without a crop; for starts of at most 100 % it lies within the image's extent; on each axis where it is inside the image it equals the clamped rectangle's corner |
| Crop.OffsetMatchesCropOffset | src/spheroid_processor.py:239-240 | for a valid crop starting inside the image, the placement offset equals the recorded `crop_offset` |
| Crop.ClampedStartDiverges | src/spheroid_processor.py:239-240 | a crop starting at 100 % keeps the last column while the placement offset points one column past the image |
| Crop.FullCropIsWholeImage | src/spheroid_processor.py:88-100 | bounds 0-100 % on both axes select the whole image at offset (0, 0) |
| Percentiles.Sort | src/spheroid_processor.py:209 | the sorted sample is ordered and a permutation of the sample |
| Percentiles.SortEnds | src/spheroid_processor.py:209 | the sorted sample starts with the minimum and ends with the maximum |
| Percentiles.Interpolate | src/spheroid_processor.py:209 | linear interpolation at a virtual index of a sorted sample lies between the two neighbouring order statistics and is exactly the lower one at a whole index |
| Percentiles.Percentile | src/spheroid_processor.py:209 | numpy's linear percentile lies between the sample's minimum and maximum; the 0th is the minimum and the 100th the maximum |
| Percentiles.InterpolateMonotone | src/spheroid_processor.py:209 | interpolation in a sorted sample never decreases as the fractional index grows |
| Percentiles.PercentileMonotone | src/spheroid_processor.py:207-209 | a higher percentile is never smaller, so a lower `core_percentile` gives a lower threshold |
| Preprocess.GridMin | src/spheroid_processor.py:117 | a lower bound of every sample that some sample attains |
| Preprocess.GridMax | src/spheroid_processor.py:118 | an upper bound of every sample that some sample attains |
| Preprocess.StretchValue | src/spheroid_processor.py:122 | the truncated stretch maps into 0..255, the minimum to 0 and the maximum to 255 |
| Preprocess.StretchMonotone | src/spheroid_processor.py:122 | the stretch keeps the order of samples |
| Preprocess.Normalize | src/spheroid_processor.py:115-126 | when max > min, the minimum samples become 0 and the maximum samples 255, and the size and 8-bit range are kept; a flat raster passes through unchanged |
| Preprocess.NormalizePreservesOrder | src/spheroid_processor.py:115-124 | normalisation keeps the order of any two samples |
| Preprocess.Polarity | src/spheroid_processor.py:141-145 | the polarity step keeps the size and the 8-bit range |
| Preprocess.PolarityMean | src/spheroid_processor.py:141-145 | the raster is inverted exactly when its mean exceeds 127, and afterwards its mean is below 128 |
| Preprocess.Enhance | src/spheroid_processor.py:108-147 | the enhanced raster has the working raster's size and stays in 0..255 |
| Preprocess.Augment | src/spheroid_processor.py:149-157 | without edge sensitivity the raster is unchanged; with it, no sample decreases and none exceeds 255 |
| Preprocess.Detect | src/spheroid_processor.py:159-171 | the cleaned binary mask has the working raster's size |
| Select.FirstLargest | src/spheroid_processor.py:180-186 | None exactly when no area reaches `min_area`; otherwise an index whose area reaches it, no valid area is larger, and every earlier valid area is strictly smaller (first wins ties) |
| Select.FirstArgmax | src/spheroid_processor.py:226 | `np.argmax`: no element is larger, and every earlier element is strictly smaller |
| Segmentation.Areas | src/spheroid_processor.py:180 | one area per contour, in list order |
| Segmentation.ChooseSpheroid | src/spheroid_processor.py:173-190 | None exactly when every contour's area is below `min_area` (including no contour at all); otherwise a 0/255 mask of the binary mask's size |
| Segmentation.ValuesLength | src/spheroid_processor.py:202-205 | one intensity is collected per spheroid pixel, so the collection is empty exactly when the mask is |
| Segmentation.ValuesComplete | src/spheroid_processor.py:202 | every spheroid pixel's intensity is among the collected ones (`SpheroidValues`) |
| Segmentation.ValuesSound | src/spheroid_processor.py:202 | every collected intensity is the intensity of some spheroid pixel |
| Segmentation.ThresholdWithinSpheroid | src/spheroid_processor.py:202-209 | every spheroid pixel's intensity lies between the smallest and largest collected intensity, both of which some spheroid pixel attains, and the core threshold lies between them |
| Segmentation.CoreCondition | src/spheroid_processor.py:213 | `(spheroid_mask > 0) & (gray < threshold)` is a condition shaped like the spheroid mask; what it selects is stated by `RawCoreInsideSpheroid` |
| Segmentation.LabelIs | src/spheroid_processor.py:227 | `labels == k` holds exactly at the pixels labelled k |
| Segmentation.Smooth | src/spheroid_processor.py:216-218 | the smoothed core has the raw core's size and stays in 0..255 |
| Segmentation.LargestLabel | src/spheroid_processor.py:224-226 | a foreground label of maximal area, the first of them on ties |
| Segmentation.KeepLargest | src/spheroid_processor.py:223-227 | empty when there is no foreground label; otherwise non-zero exactly on the largest component |
| Segmentation.CoreOf | src/spheroid_processor.py:211-230 | the core is a mask of the working size that lies inside the spheroid |
| Segmentation.Segment | src/spheroid_processor.py:173-233 | no split exactly when no contour reaches `min_area` or the chosen contour fills no pixel |
| Segmentation.MarkWhere | src/spheroid_processor.py:212-213 | writing 255 element by element through a condition into a zero array gives `MaskOf` |
| Segmentation.KeepLargestMask | src/spheroid_processor.py:223-227 | marking the largest component in a zero array gives `KeepLargest` |
| Segmentation.CoreMask | src/spheroid_processor.py:211-230 | the core computed with in-place writes equals `CoreOf` |
| Segmentation.SplitMasks | src/spheroid_processor.py:173-233 | the split as the source performs it, with in-place writes, equals `Segment` |
| Segmentation.RawCoreInsideSpheroid | src/spheroid_processor.py:211-213 | the raw core holds exactly the spheroid pixels strictly below the threshold, so it lies inside the spheroid and counts no more pixels |
| Segmentation.RawCoreMonotone | src/spheroid_processor.py:207-213 | "lower = smaller darker core" for the raw core: every raw-core pixel at a percentile is a raw-core pixel at any higher one, and the raw core counts no more pixels |
| Segmentation.PercentileZeroRawCoreEmpty | src/spheroid_processor.py:209-213 | with `core_percentile = 0` the raw core is empty |
| Segmentation.PercentileHundredKeepsBrightest | src/spheroid_processor.py:209-213 | with `core_percentile = 100` a spheroid pixel at the maximum intensity stays out of the raw core |
| Segmentation.CoreBorderPartition | src/spheroid_processor.py:232-233 | subtracting a core that lies inside the spheroid gives a border mask; core and border partition the spheroid, and their counts add up to its count |
| Segmentation.SegmentPartition | src/spheroid_processor.py:229-233 | a found split has three masks of the working size; core and border partition the spheroid, and their counts add up to its positive count |
| Segmentation.EmptyRawCoreAllBorder | src/spheroid_processor.py:215-233 | an empty raw core yields an empty core, and the border is the whole spheroid |
| Segmentation.ZeroCoreAllBorder | src/spheroid_processor.py:233 | subtracting an all-zero core counts no core pixel and leaves the spheroid as the border |
| Segmentation.PercentileZeroCore | src/spheroid_processor.py:209-233 | the core of a spheroid at `core_percentile = 0` is empty and the border is the whole spheroid |
| Segmentation.PercentileZeroAllBorder | src/spheroid_processor.py:209-233 | with `core_percentile = 0` a found spheroid has an empty core and is all border |
| Processor.GrayOf | src/spheroid_processor.py:28-31 | the grey image is an 8-bit raster of the picture's size |
| Processor.GrayToBgr | src/spheroid_processor.py:306-307 | the colour copy of a grey picture has its size and stays in 0..255 |
| Processor.ColourZeros | src/spheroid_processor.py:303-304 | a zero colour raster of the requested size |
| Processor.EmptyResults | src/spheroid_processor.py:286-298 | all three masks are zero and shaped like the grey image, all counts are 0, `binary_output` is the spheroid mask, and the overlay is the original (or the zero mask without one) |
| Processor.CreateOverlay | src/spheroid_processor.py:300-317 | a colour raster of the original's size, or of the cropped masks' size without an original |
| Processor.Cleaned | src/spheroid_processor.py:77-171 | the cleaned binary mask has the working raster's size |
| Processor.Found | src/spheroid_processor.py:173-233 | a found split has masks of the working size; core and border partition the spheroid, and their counts add up to its positive count |
| Processor.PasteAll | src/spheroid_processor.py:243-251 | the three writes succeed together exactly when numpy's broadcast rule allows the window |
| Processor.PasteAllShaped | src/spheroid_processor.py:243-251 | written masks are canvas-size masks in which core and border still partition the spheroid |
| Processor.Corner | src/spheroid_processor.py:94-103 | the origin without a crop or with an invalid one; for a valid crop exactly the clamped rectangle's corner `(x1, y1)` recorded as `crop_offset`, a point inside the image, which is the source's placement offset whenever the crop starts inside the image |
| Processor.WholeWorkingAtOrigin | src/spheroid_processor.py:83-106 | when the working raster is the whole image its corner is the origin |
| Processor.PlaceAsWritten | src/spheroid_processor.py:236-261 | without a crop the masks are used unchanged |
| Processor.CornerPlacement | src/spheroid_processor.py:236-251 | written at the corner, the masks always fit, stay shaped, keep every count, and come back unchanged when the working raster is the whole image |
| Processor.Place | src/spheroid_processor.py:236-261 | full-size masks in which core and border partition the spheroid, every count kept, unchanged when the working raster is the whole image |
| Processor.PlaceAtCorner | src/spheroid_processor.py:236-251 | each placed mask holds the working raster's mask at `Corner` and is 0 everywhere else |
| Processor.MasksAtCropOffset | src/spheroid_processor.py:236-251 | for a valid crop, `crop_offset` (set at line 103) is set, and each placed mask holds the working raster's mask at `crop_offset` and is 0 everywhere else |
| Processor.PlacementAgreesInside | src/spheroid_processor.py:239-251 | when the crop starts inside the image, the placement as written succeeds and equals `Place` |
| Processor.InvalidCropRaises | src/spheroid_processor.py:236-251 | as written, an invalid crop with a non-zero offset makes the write raise; `Place` returns the masks unchanged |
| Processor.StartPastEdgeLosesMasks | src/spheroid_processor.py:239-251 | as written, a valid crop whose horizontal or vertical start is at or past the edge yields all-zero full masks; `Place` keeps the counts |
| Processor.Report | src/spheroid_processor.py:173-284 | never the not-loaded outcome |
| Processor.Analyse | src/spheroid_processor.py:77-284 | never the not-loaded outcome |
| Processor.CropStep | src/spheroid_processor.py:77-106 | the working raster and the new `crop_offset` are `Working` and `NextCropOffset` |
| Processor.PlaceMasks | src/spheroid_processor.py:236-251 | the three in-place canvas writes produce `Place` |
| Processor.PasteMasks | src/spheroid_processor.py:243-251 | the three in-place writes in turn, stopping at the first that numpy refuses, produce `PasteAll` |
| Processor.FindSpheroid | src/spheroid_processor.py:149-233 | returns `Found` and the augmented raster |
| Processor.Conclude | src/spheroid_processor.py:236-284 | the empty results, or the placed masks with overlay and counts: exactly `Report` |
| Processor.Assemble | src/spheroid_processor.py:236-284 | the placed masks, overlay, counts and results dictionary of a found split: exactly `Report` |
| Processor.NoSpheroidExactly | src/spheroid_processor.py:173-205 | full results come back exactly when a spheroid is found; otherwise the empty results come back, exactly when no contour reaches `min_area` or the chosen contour fills no pixel |
| Processor.SegmentedResults | src/spheroid_processor.py:263-284 | full-size masks in which core and border partition the spheroid; `binary_output` is `spheroid_mask`; each count is its mask's count; total = core + border > 0; `enhanced_image` is the augmented raster; the overlay has the original's size |
| Processor.SameWorkingSameSplit | src/spheroid_processor.py:108-233 | the crop reaches enhancement and detection only through the working raster |
| Processor.WholeImageCropIsNoCrop | src/spheroid_processor.py:78-106 | a crop whose working raster is the whole image gives the same outcome as no crop |
| Processor.ReportIgnoresWholeCrop | src/spheroid_processor.py:236-265 | once the split is known, a crop whose working raster is the whole image places the masks and the outlines as no crop does |
| Processor.FullCropIsNoCrop | src/spheroid_processor.py:88-100 | bounds of 0-100 % on both axes give the same outcome as no crop |
| Processor.InvalidCropIsNoCrop | src/spheroid_processor.py:83-85 | with the intended placement, an invalid crop gives the same outcome as no crop (as written, the placement raises instead: `InvalidCropRaises`) |
| Parameters.DefaultsValid | src/spheroid_processor.py:37-47 | the default arguments are valid: `core_percentile` 50 and no crop |
| Processor.DefaultCall | src/spheroid_processor.py:37-47 | with the default arguments the whole grey image is analysed, and the empty results come back exactly when no contour reaches an area of 100 or the chosen contour fills no pixel |
| Processor.SpheroidProcessor.constructor | src/spheroid_processor.py:14-18 | nothing loaded, no enhanced raster, no results, no crop offset |
| Processor.SpheroidProcessor.LoadImage | src/spheroid_processor.py:20-35 | succeeds exactly when decoding succeeded; the original is always replaced, the grey image only on success; nothing else changes |
| Processor.SpheroidProcessor.Prepare | src/spheroid_processor.py:77-147 | sets `crop_offset` by `NextCropOffset` and `enhanced_image` to the enhanced working raster; nothing else changes |
| Processor.SpheroidProcessor.Record | src/spheroid_processor.py:272-284 | stores the results and changes nothing else |
| Processor.SpheroidProcessor.ProcessSpheroid | src/spheroid_processor.py:37-284 | `{}` and no change before a load; otherwise the outcome is `Analyse` (with the intended placement after a crop), `enhanced_image` and `crop_offset` are updated, and `results` is replaced only when full results come back |

## Left out

- The OpenCV algorithms (denoising, CLAHE, Canny, dilation, morphology, contour finding, contour area, contour filling, component labelling, grey conversion, outline drawing) are parameters. Only the facts in `Vision.Sound` are assumed about them.
- Image decoding is left out. `SpheroidProcessor.LoadImage` takes the decoder's answer as a parameter. The `try`/`except` around the decoder is left out because the model's decoder does not raise.
- Floating point is not modelled. Percentages, the stretch, the mean test and the percentile use exact integers and reals; truncations to `uint8` and `int()` are floors. Crop percentages are taken to be non-negative.
- `core_percentile` outside 0..100 is excluded by `Parameters.ValidParams`. `np.percentile` raises on it only once a spheroid has been found (src/spheroid_processor.py:209); the model does not capture that a call finding no spheroid returns the empty results even for such a percentile.
- Processor.Place, Processor.Corner, Processor.CreateOverlay, Processor.Report, Processor.Analyse and Processor.SpheroidProcessor.ProcessSpheroid: use the intended placement after a crop (the clamped corner `crop_offset`), not the unclamped offset the code computes; the placement as written is `Processor.PlaceAsWritten`, and the two agree whenever the crop starts inside the image (`Processor.PlacementAgreesInside`). The outlines are likewise drawn at the clamped corner; the drawing as written is not modelled separately.
- Processor.CreateOverlay: does not model the colours, thickness or order of the drawn outlines; the drawing is the `drawOutlines` parameter.
- Segmentation.RawCoreMonotone: only the raw core is proved to grow with `core_percentile`; the final core is not, because the smoothing and the largest-component pick that follow are OpenCV parameters and need not be monotone.
- Preprocess.Enhance, Preprocess.Detect and Segmentation.Smooth: only the size and range facts of the OpenCV calls are stated, because their algorithms are parameters.
- The application window, the file dialogs and the writing of output files are not part of this model.

## Findings

| source | as written | input that shows it | evidently intended | confidence | as-written member | corrected member |
|---|---|---|---|---|---|---|
| src/spheroid_processor.py:83-85, 236-251 | an invalid crop uses the whole image, but the placement still shifts the full-size masks by the start offset | crop (50, 10, 0, 100) on a 4 x 4 image in which a spheroid is found: the 4-column masks are written at column 2, and numpy raises a shape error | the invalid crop is ignored, as the code's own fallback says: the masks are used at the origin | not executed | Processor.InvalidCropRaises | Processor.Place |
| src/spheroid_processor.py:94-97, 239-251 | a valid crop whose horizontal (vertical) start is 100 % or more is clamped to the last column (row), but its masks are written at the unclamped column w (row h) | crop (100, 150, 0, 100), or (0, 100, 100, 150), on any image in which a spheroid is found: the one-column (one-row) masks broadcast into an empty slice, so all full masks are zero while the counts are positive | the masks are placed at the clamped corner recorded as `crop_offset` | not executed | Processor.StartPastEdgeLosesMasks | Processor.Place |
