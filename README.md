# NDVI tree-crown detection: pixel-grid bookkeeping

This project models, in Dafny, the grid bookkeeping that `process_image` in
`mask.py` does around its image-processing library stages. It covers:

- the vegetation threshold `ndvi > τ`;
- the rasterisation of the traced crown contours into a boundary mask;
- the painting of that mask in the boundary colour and its recovery by `np.any` over channels;
- the composition of the final mask, 255 on filled pixels and 0 on boundary pixels;
- the isolated-pixel correction `correct_isolated_black_pixels`;
- the overlay produced by `np.where`;
- the crown count;
- the helper `enforce_edge_connectivity`, which is defined in the source but never called.

The code that works in place is modelled in place on `array2`:

- `IsolatedPixels.CorrectIsolatedBlackPixels` makes real zero-padded copies, as `np.pad` does, and takes every decision from them.
- `EdgeConnectivity.EnforceEdgeConnectivity` runs the four border steps in order.
- `Boundary.RasteriseBoundaries` loops over crowns, contours and points.
- `Composition.ComposeFinalMask` does the two masked assignments.

Each of these methods is specified by a function on raster values (`Grids.Grid<T>`, rows of pixels). The properties are proved as lemmas about those functions. `Pipeline.ProcessLabels` chains the steps in the source's order.

Modules and files:

| file | module | part of mask.py |
|---|---|---|
| grids.dfy | Grids | raster values, `uint8`/`uint16` pixel types, array snapshots |
| threshold.dfy | Threshold | line 116 |
| boundary.dfy | Boundary | lines 131-143 |
| composition.dfy | Composition | lines 128-159 |
| isolated.dfy | IsolatedPixels | lines 81-97 |
| edges.dfy | EdgeConnectivity | lines 75-80 |
| crowns.dfy | CrownCount | line 176 |
| pipeline.dfy | Pipeline | lines 128-176 |

Inputs and modelling choices:

- The library stages are inputs: the vegetation mask after the morphological opening, the label map, the contours of every label (already rounded to integers, with the label they belong to) and the hole-filling function.
- The global state shared between callbacks is passed as explicit parameters.
- Index values are exact `real`s.
- The composite `R_I` holds `uint16` channels and the final mask `uint8` values.

The crown count is labelled "Total number of distinct tree crown boundaries" (mask.py:176) but computed as `len(np.unique(labels)) - 1`, which is one short when no pixel is background. The model keeps both: `CrownCount.CrownCountAsWritten` is the value as written, `CrownCount.CrownCount` the number of distinct non-zero labels, and `Pipeline.ProcessLabels` returns the first as `reported` and the second as `count` (see Findings).

Other places where the code does less than the rest of the system describes, and the model follows the code:

- The code does not special-case an empty vegetation mask.
- The code does not guard constant bands.
- The code corrects isolated pixels with an explicit double loop over a padded snapshot. The model keeps that loop and proves it equal to the vectorised 3×3-convolution formulation (`IsolatedPixels.ConvolutionAgreesWithLoop`).

## Model

| member | source | states |
|---|---|---|
| IsolatedPixels.Corrected | mask.py:87-97 | the value of one correction pass: a pixel becomes 255 exactly when it is 0, its zero-padded 3×3 window is all 0 and its vegetation pixel is set; otherwise it keeps its value (computed by its body, stated by the lemmas below); its contract keeps the shape |
| IsolatedPixels.CorrectIsolatedBlackPixels | mask.py:81-97 | the new final mask is one correction pass over the old one, read from a snapshot; the vegetation mask is not written |
| IsolatedPixels.Pad | mask.py:83-84 | the copy is two pixels larger in each dimension, holds the original shifted by one and the fill value on the frame |
| IsolatedPixels.CorrectRow | mask.py:88-97 | one row of the pass sets to 255 exactly the pixels of that row passing the three tests on the snapshot, and leaves everything else |
| IsolatedPixels.DecisionIsFlips | mask.py:90-95 | the three tests on the padded copies (centre black, 3×3 window black, vegetation set) are the tests on the unpadded rasters |
| IsolatedPixels.CorrectedChangesExactlyFlips | mask.py:90-97 | a pixel changes exactly when the three tests hold on the input, and then becomes 255 |
| IsolatedPixels.CorrectedOnlyFillsBackground | mask.py:90-97 | the pass only turns 0 into 255; non-zero pixels are untouched |
| IsolatedPixels.CorrectedKeepsBinary | mask.py:97 | a {0, 255} mask stays {0, 255} |
| IsolatedPixels.BackgroundAfterWasBackground | mask.py:90-97 | a pixel that is 0 after the pass was 0 before it, padding included |
| IsolatedPixels.NoPatchableHoleRemains | mask.py:87-97 | after the pass no pixel passes the three tests |
| IsolatedPixels.CorrectedIdempotent | mask.py:87-97 | a second pass over the corrected mask changes nothing |
| IsolatedPixels.WindowClearIffSumZero | mask.py:92-93 | a zero-padded 3×3 window of non-negative pixels is all 0 exactly when its sum is 0 |
| IsolatedPixels.ConvolutionAgreesWithLoop | mask.py:87-97 | the vectorised pass (window sum zero, pixel zero, vegetation set) equals the loop's pass on every input |
| EdgeConnectivity.EnforcedEdges | mask.py:75-80 | the value of the four steps: row 0 OR row 1, then row H-1 OR row H-2, then column 0 OR column 1, then column W-1 OR column W-2, each on the result of the previous step, stopping after the row steps when W < 2 and before any step when H < 2 (computed by its body, stated by the lemmas below); its contract keeps the dimensions |
| EdgeConnectivity.EnforceEdgeConnectivity | mask.py:75-80 | succeeds exactly when the mask has at least two rows and two columns, and the new mask is the four steps in order (only the row steps when there are fewer than two columns, nothing when there are fewer than two rows) |
| EdgeConnectivity.OrRowInPlace | mask.py:76-77 | one row step in place: row dst becomes dst OR src, nothing else changes |
| EdgeConnectivity.OrColumnInPlace | mask.py:78-79 | one column step in place: column dst becomes dst OR src, nothing else changes |
| EdgeConnectivity.EdgesChangeOnlyBorder | mask.py:75-80 | cells off row 0, row H-1, column 0 and column W-1 keep their value |
| EdgeConnectivity.EdgesOnlyAdd | mask.py:75-80 | a true cell stays true, so cells only change from false to true |
| EdgeConnectivity.EdgesContainNeighbours | mask.py:75-80 | afterwards row 0 covers row 1, row H-1 covers row H-2, column 0 covers column 1 and column W-1 covers column W-2 |
| EdgeConnectivity.OrRowIntoCovered | mask.py:76-77 | a row step whose destination already covers its source is the identity |
| EdgeConnectivity.OrColumnIntoCovered | mask.py:78-79 | a column step whose destination already covers its source is the identity |
| EdgeConnectivity.EdgesIdempotent | mask.py:75-80 | running the operation twice gives the same mask as once |
| Boundary.Clip | mask.py:141-142 | the clipped coordinate lies in [0, hi] and is the value of that range nearest to the input |
| Boundary.Cell | mask.py:140-142 | a point marks an in-bounds pixel, the point itself when it already lies inside |
| Boundary.MarkContour | mask.py:139-143 | after marking one contour a pixel is true exactly when it was true before or some point of the contour clips to it |
| Boundary.RasteriseBoundaries | mask.py:131-143 | after the loop a pixel is true exactly when it was true before or some point drawn for a non-zero label clips to it |
| Boundary.CellsInBounds | mask.py:141-143 | every marked pixel lies in [0, H-1] × [0, W-1] |
| Boundary.CellsOfConcat | mask.py:139-143 | the pixels marked by two point lists in turn are the union of the pixels each list marks |
| Boundary.CellsOfSingleton | mask.py:143 | one point marks exactly its clipped pixel |
| Boundary.ContourPointsContain | mask.py:139-143 | every point of every contour is visited |
| Boundary.ContourPointsFrom | mask.py:139-143 | every visited point belongs to one of the contours |
| Boundary.NonZeroCrownPointsDrawn | mask.py:132-143 | every point of every contour of every crown with a non-zero label is drawn |
| Boundary.DrawnPointsFromNonZeroCrowns | mask.py:132-134 | every drawn point belongs to a contour of a crown with a non-zero label, so label 0 contributes nothing |
| Composition.Painted | mask.py:145-146 | `boundary_colored`: the colour on every true pixel of the mask and (0, 0, 0) elsewhere; its contract keeps the shape, and MaskFromPaintedIsBoundary states the cell values |
| Composition.MaskFromColored | mask.py:147 | `mask_from_boundary_colored`: a pixel is true exactly when some channel is non-zero; its contract keeps the shape |
| Composition.MaskFromPaintedIsBoundary | mask.py:145-147 | painting a mask in any colour with a non-zero channel and applying `any(channel != 0)` gives the mask back |
| Composition.MaskFromBoundaryColored | mask.py:129-147 | `mask_from_boundary_colored` equals `boundary_mask` for the colour (255, 255, 0) |
| Composition.Overlay | mask.py:159 | `np.where(boundary_colored != 0, boundary_colored, original)`, channel by channel through `Composition.Select`: each channel of the painting where it is non-zero, of the original elsewhere; its contract keeps the shape, and OverlayPixels states the pixel values |
| Composition.FinalMaskOf | mask.py:152-154 | the final mask before correction: 0 on boundary pixels, else 255 on filled pixels, else 0; its contract keeps the shape, and FinalMaskValues states the pixel values |
| Composition.OverlayPixels | mask.py:159 | off the boundary the overlay is the original composite; on it red and green are 255 and blue keeps the original value |
| Composition.FinalMaskValues | mask.py:152-154 | the final mask is in {0, 255}; a pixel is 255 exactly when it is filled and not on a boundary |
| Composition.ComposeFinalMask | mask.py:152-154 | the two masked assignments into a zeroed array yield the final mask of the filled regions and the boundary |
| Threshold.VegetationMask | mask.py:116 | `ndvi > ndvi_threshold`: a pixel is vegetation exactly when its index exceeds the threshold; its contract keeps the shape, and the monotonicity lemmas below state its behaviour |
| Threshold.ThresholdMonotone | mask.py:116 | raising the threshold never turns a non-vegetation pixel into vegetation |
| Threshold.CountRowMonotone | mask.py:116 | a row true wherever another is has at least as many true pixels |
| Threshold.CountTrueMonotone | mask.py:116 | a mask true wherever another is has at least as many true pixels |
| Threshold.ThresholdCountMonotone | mask.py:116 | the number of vegetation pixels at a higher threshold is at most that at a lower one |
| Threshold.CountRowNone | mask.py:116 | a row with no true pixel counts zero |
| Threshold.ThresholdAboveAllIsEmpty | mask.py:116 | a threshold at or above every index value gives an empty vegetation mask |
| CrownCount.LabelValues | mask.py:176 | the set of `np.unique(labels)`: every pixel's label is in it and everything in it is some pixel's label |
| CrownCount.CrownCountAsWritten | mask.py:176 | `len(np.unique(labels)) - 1` as displayed; it lies between -1 and the number of distinct non-zero labels, so it never overcounts |
| CrownCount.CrownCount | mask.py:176 | the number of distinct non-zero labels, at most the number of distinct labels |
| CrownCount.AsWrittenAgreesIffBackground | mask.py:176 | `len(np.unique(labels)) - 1` equals the number of distinct non-zero labels exactly when label 0 occurs, and is one less otherwise |
| CrownCount.CrownCountZeroIffAllBackground | mask.py:176 | the count is zero exactly when every pixel is background |
| CrownCount.AsWrittenMissesFullyCoveredFrame | mask.py:176 | on the one-pixel label map [[1]] the crown count is 1 and the count as written is 0 |
| CrownCount.CrownCountIgnoresLabelIdentity | mask.py:176 | relabelling by an injective map that fixes 0 keeps the count |
| CrownCount.MappedCardinality | mask.py:176 | an injective image of a finite label set has the same size |
| Pipeline.ProcessLabels | mask.py:128-176 | boundary mask = pixels hit by drawn points; final mask = one correction pass over (filled, not boundary), in {0, 255}; overlay as in OverlayPixels; `count` = distinct non-zero labels; `reported` = `len(np.unique(labels)) - 1` as displayed, equal to `count` exactly when label 0 occurs |

## Left out

- The GUI (window, sliders, entries, buttons, `select_file`, `mainloop`, label updates) is event wiring with no grid logic.
- File I/O is not modelled: `tiff.imread`, and `save_image`, `delete_file` and `manual_rename` with `cv2.imwrite`, `shutil.move`, `os.remove` and `os.makedirs`.
- The matplotlib display is not modelled.
- Floating-point numerics are not modelled: the min-max normalisation of lines 59-60 and 64-66, the percentile `stretch_band`, the `/255.0` scaling and the index formula with `1e-10`. The divisions at lines 59, 65 and 73 are unguarded, so a constant band divides by zero there. Index values enter the model as exact reals, without NaN.
- The library stages are inputs and are not modelled: `morphology.erosion`/`dilation`, `distance_transform_edt`, `gaussian`, `h_maxima`, `measure.label`, `watershed`, `measure.find_contours`, `np.round` and `binary_fill_holes`.
- The global state shared between callbacks (`file_path`, the threshold, sigma, h and the mask buffers) is passed as explicit parameters.
- `enforce_edge_connectivity` is modelled even though `process_image` never calls it, so `Pipeline.ProcessLabels` does not call it either.
- Boundary.RasteriseBoundaries: requires a raster with at least one row and one column. On an empty raster, `np.clip(…, 0, -1)` yields -1 and the write raises IndexError. `find_contours` yields no points there, so the source never reaches that case.
- Boundary.RasteriseBoundaries: the crowns are any sequence of (label, contours). The model does not tie them to the sorted `np.unique(labels)` order. The resulting mask does not depend on the order.
- IsolatedPixels.CorrectIsolatedBlackPixels: requires the vegetation mask to have the final mask's shape. In the source both always come from the same image. With other shapes numpy would misalign or raise IndexError.

## Findings

| source | as written | input that shows it | evidently intended | confidence | as-written member | corrected member |
|---|---|---|---|---|---|---|
| mask.py:176 | the crown count is `len(np.unique(labels)) - 1`, subtracting one for a background label whether or not it occurs | a label map with no background pixel, e.g. `[[1]]` (vegetation covering the whole frame): one crown, reported as 0 (an empty map would give -1, but an empty image fails earlier, at `N.min()` on mask.py:59) | the number of distinct non-zero labels | medium; not executed | CrownCount.AsWrittenMissesFullyCoveredFrame | CrownCount.CrownCount |
