# Adaptive histogram equalization engine, modelled in Dafny

This project models the equalization engine of an 8-bit grey-scale image
processing library and proves properties of the model. The engine has three
parts.

- **Helper functions.** These compute the 256-bin histogram of an image, the
  inclusive prefix sum (`cumsum`), and the histogram-equalization table
  `round((C[v] - C[0]) / (N - C[0]) * 255)`. Here `C` is the cumulative count
  and `N` the pixel count.
- **Global equalization.** Every pixel goes through the table of the whole
  image.
- **Adaptive equalization.** The image is cut into regions of `h` rows by `w`
  columns, listed in row-major order, and each region gets its own table. The
  engine then rebuilds the image in one of two ways:
  - *without interpolation*: each region goes through its own table;
  - *with interpolation*: pixels are swept row by row. Two counters walk the
    list of region centres. Region centres and the outer band of half a region
    are looked up directly. Other pixels blend the tables of the four centres
    around them, choosing the quadrant by four successive `if` tests.

Arithmetic is exact. Each table entry and each blend is one rational number,
rounded half to even as `np.round` does (`Rounding.RoundHalfEven`). An image
is a rectangular `seq<seq<Pixel>>` with `Pixel` in 0..255.

The source is mostly imperative, and so is the model:
- the histogram and `cumsum` loops are methods with loop invariants;
- the two reconstructors fill a fresh `array2` that starts at zero, as
  `zeros_like` does;
- the table dictionary is filled in a loop. It is a value
  `TransformDict(keys, tables)`: the keys in insertion order plus a map.

Each method is proved against a specification function:
- `HelperFunctions.Histogram` and `HelperFunctions.PrefixSums` for the loops;
- `NoInterp.NoInterpPixel` for the reconstructor without interpolation;
- `Adaptive.AdaptivePixel` for the interpolated one, defined through
  `Interpolation.InterpolatedPixel`.

The properties the engine promises are lemmas about those functions.

Errors follow Python's evaluation of `m % h == 0 and n % w == 0`, which
stops at the first false operand:
- `h == 0`, or `w == 0` once `m % h == 0`, raises `ZeroDivisionError`,
  modelled as `ZeroDivision`;
- otherwise a size that does not divide fails the `assert`, modelled as
  `DimensionMismatch`. This includes `w == 0` when `m % h != 0`, since `n % w`
  is then never evaluated.

Each reconstructor returns `Err` exactly in those cases.

## Model

| member | source | states |
|---|---|---|
| Images.Slice | adaptive_hist_eq.py:29 | `img[r0:r0+h, c0:c0+w]` has `h` rows of `w` pixels, and pixel (a, b) of the slice is pixel (r0+a, c0+b) of the image |
| Rounding.RoundHalfEven | helper_functions.py:63 | the result is within half of `num/den`, and an exact tie goes to the even integer (`np.round`) |
| Rounding.RoundExact | helper_functions.py:63 | an integer-valued quotient rounds to itself |
| Rounding.RoundMonotone | helper_functions.py:63 | rounding with a positive denominator keeps order |
| Rounding.RoundWithin | adaptive_hist_eq.py:162 | a quotient between two integers rounds to a value between them |
| Rounding.RoundNegate | adaptive_hist_eq.py:162 | negating both numerator and denominator leaves the rounded quotient unchanged |
| Rounding.RoundExactNegative | adaptive_hist_eq.py:162 | an exact multiple of a negative divisor, such as the signed box area, rounds to its quotient |
| HelperFunctions.Histogram | helper_functions.py:14-20 | the histogram has exactly 256 bins |
| HelperFunctions.HistogramCounts | helper_functions.py:17-20 | bin `v` is the number of pixels with value `v` |
| HelperFunctions.HistogramSum | helper_functions.py:15-20 | the bins sum to the number of pixels |
| HelperFunctions.ImageHistogram | helper_functions.py:6-22 | the loop over the flattened image leaves the histogram of the image in the zero-initialised bins |
| HelperFunctions.PrefixSumsRecurrence | helper_functions.py:36-40 | `b[0] == a[0]` and `b[k] == b[k-1] + a[k]` |
| HelperFunctions.PrefixSumsLast | helper_functions.py:39-40 | the last prefix sum is the sum of the input |
| HelperFunctions.PrefixSumsMonotone | helper_functions.py:39-40 | the prefix sums of a non-negative input never decrease |
| HelperFunctions.CumSum | helper_functions.py:26-42 | on a non-empty input, the loop appending running totals returns the prefix sums, one per input element |
| HelperFunctions.HistogramPrefixCounts | helper_functions.py:57-61 | the cumulative histogram at `v` counts the pixels at most `v` |
| HelperFunctions.CountAtMostAll | helper_functions.py:61 | every pixel is counted at level `v` exactly when no pixel exceeds `v` |
| HelperFunctions.CdfFacts | helper_functions.py:57-61 | with a nonzero pixel, `C[0]` is below the pixel count, `C` is non-decreasing, and `C[255]` is the pixel count |
| HelperFunctions.Level | helper_functions.py:63 | the entry is 0 at `C[0]` and 255 at the pixel count |
| HelperFunctions.EqualizationTransform | helper_functions.py:46-65 | the table has 256 entries, each in [0, 255] |
| HelperFunctions.TransformEndpoints | helper_functions.py:59-63 | the table sends 0 to 0 and 255 to 255 |
| HelperFunctions.TransformMonotone | helper_functions.py:61-63 | the table is non-decreasing |
| HelperFunctions.TransformTopLevel | helper_functions.py:63 | a level no pixel exceeds, such as the largest level present, goes to 255 |
| GlobalHistEq.PerformGlobalHistEqualization | global_hist_eq.py:5-20 | the output has the input's shape |
| GlobalHistEq.GlobalPixel | global_hist_eq.py:14-16 | each output pixel is the whole-image table's entry for the input pixel |
| GlobalHistEq.GlobalPreservesOrder | global_hist_eq.py:14-16 | if `img[p] <= img[q]` then `out[p] <= out[q]` |
| GlobalHistEq.GlobalKeepsBlack | global_hist_eq.py:16 | input 0 maps to 0 |
| GlobalHistEq.GlobalBrightestToWhite | global_hist_eq.py:16 | the largest intensity present maps to 255 |
| Regions.DimensionCheck | adaptive_hist_eq.py:86 | the check passes exactly when both sizes are positive and divide the image; `ZeroDivision` is raised exactly when Python's `%` reaches a zero size |
| Regions.RangeSteps | adaptive_hist_eq.py:22 | `range(lo, lo + q*step, step)` has `q` entries, and entry `k` is `lo + k*step` |
| Regions.RowMajorLength | adaptive_hist_eq.py:22 | the nested comprehension has `|rows| * |cols|` entries |
| Regions.RowMajorAt | adaptive_hist_eq.py:22 | entry `k` of the nested comprehension pairs row `k / |cols|` with column `k % |cols|` |
| Regions.RegionStartsAt | adaptive_hist_eq.py:22 | the region list has `(m/h)*(n/w)` entries in row-major order, and entry `k` starts at `((k / nh) * h, (k % nh) * w)` |
| Regions.RegionStartsLength | adaptive_hist_eq.py:58 | the region list has one entry per grid cell |
| Regions.RegionStartAt | adaptive_hist_eq.py:58 | entry `k` of the region list starts at `((k / nh) * h, (k % nh) * w)` |
| Regions.RegionStartOfCell | adaptive_hist_eq.py:58 | grid cell `(r, c)` is entry `r * nh + c` of the region list, which starts at `(r*h, c*w)` |
| Regions.RegionsTile | adaptive_hist_eq.py:22-35 | every pixel lies in exactly one region of the list, the one at its region index |
| Regions.PixelCell | adaptive_hist_eq.py:22 | every pixel lies in grid cell `(i / h, j / w)` |
| Regions.RegionIndexBound | adaptive_hist_eq.py:22 | a pixel's region index is a position of the region list |
| Regions.InRegionCell | adaptive_hist_eq.py:29 | a pixel lies in the region of cell (r, c) exactly when `(i / h, j / w) == (r, c)` |
| Regions.CenterOfCell | adaptive_hist_eq.py:65-66 | the centre `(start_h + h//2, start_w + w//2)` of every region lies in the image and in its own region |
| Regions.CellOfCenter | adaptive_hist_eq.py:65-66 | every centre is the centre of the cell `(row / h, col / w)` |
| Regions.CenterRank | adaptive_hist_eq.py:61-69 | region `k` of the list has a centre that no other region shares |
| Regions.RegionSlice | adaptive_hist_eq.py:29 | the slice of a grid cell has `h` rows of `w` pixels |
| Regions.RegionSliceAt | adaptive_hist_eq.py:29 | pixel (a, b) of cell (r, c) is pixel `(r*h + a, c*w + b)` of the image |
| Regions.RegionFits | adaptive_hist_eq.py:29 | the slice bounds of every cell lie inside the image |
| Regions.RegionTable | adaptive_hist_eq.py:31 | each region's table has 256 entries |
| Regions.TableAt | adaptive_hist_eq.py:69 | the table stored under a centre has 256 entries |
| NoInterp.WriteRegion | adaptive_hist_eq.py:34-35 | the slice assignment writes `table[region[a][b]]` into the block and changes no other cell |
| NoInterp.AdaptiveHistEqNoInterp | adaptive_hist_eq.py:6-37 | fails exactly when the size check fails, with the same error; otherwise the output has the input's shape and `out[i][j]` is the entry for `img[i][j]` in the table of region `(i/h, j/w)` |
| NoInterp.EqualizeRegion | adaptive_hist_eq.py:24-35 | after the pass for region `k`, the pixels of the first `k + 1` regions hold their results and every other pixel is still 0 |
| NoInterp.EqualizeCell | adaptive_hist_eq.py:26-35 | slicing the region at `regions[k]`, building its table and assigning the result back gives every pixel of that region its own region's entry and leaves every other pixel as it was |
| NoInterp.CellIndex | adaptive_hist_eq.py:22-29 | a pixel lies in the region starting at `(r*h, c*w)` exactly when its region index is `r * nh + c` |
| NoInterp.CellEntry | adaptive_hist_eq.py:29-32 | a pixel of the region starting at `(r*h, c*w)` lies in grid cell `(r, c)`, and its entry in the region slice is its own value |
| NoInterp.NoInterpWholeImageIsGlobal | adaptive_hist_eq.py:22-37 | with one region covering the image, the output equals global equalization |
| NoInterp.NoInterpOrderWithinRegion | adaptive_hist_eq.py:31-32 | inside one region the output keeps the order of grey levels |
| RegionTransforms.FilledNone | adaptive_hist_eq.py:60 | the empty dictionary holds the first zero regions |
| RegionTransforms.InsertNextCenter | adaptive_hist_eq.py:65-69 | the centre of region `k` is new, and storing its table extends the dictionary by exactly that key |
| RegionTransforms.StartTable | adaptive_hist_eq.py:62-68 | region `k` fits in the image, and its table is the one stored under its centre |
| RegionTransforms.FilledAll | adaptive_hist_eq.py:61-71 | once all regions are stored, the keys are exactly the centres, listed once each in region-list order |
| RegionTransforms.GetEqualizationTransformOfRegions | adaptive_hist_eq.py:41-71 | fails exactly when the size check fails; otherwise there is one key per region, key `k` is the centre of region `k`, every centre is a key, and each key maps to its region's table |
| Interpolation.LastMatchingQuadrant | adaptive_hist_eq.py:128-154 | the last of the four inclusive tests to match wins: the pixel is up-left exactly when `i < ch && j < cw`, and likewise for the other three quadrants |
| Interpolation.QuadrantBox | adaptive_hist_eq.py:128-154 | the four corners form a box one region high and one region wide with the centre at the quadrant's corner |
| Interpolation.QuadrantBoxIsCellBox | adaptive_hist_eq.py:128-154 | every quadrant box is spanned by the centres of a 2 by 2 block of grid cells |
| Interpolation.WeightsSumToArea | adaptive_hist_eq.py:160-162 | the four weights sum to the signed box area `(c22[0]-c11[0])*(c22[1]-c11[1])` |
| Interpolation.WeightSigns | adaptive_hist_eq.py:160-162 | for a pixel in the box, the area is negative and every weight has its sign |
| Interpolation.Blend | adaptive_hist_eq.py:160-162 | the blend lies between the smallest and the largest of T11..T22 |
| Interpolation.BlendBounds | adaptive_hist_eq.py:160-162 | `temp` divided by the signed area, for a pixel in the box, rounds to a value between the smallest and the largest of T11..T22 |
| Interpolation.BlendAtCorner | adaptive_hist_eq.py:160-162 | at corner `center11` the blend is T11 |
| Interpolation.AxisSpan | adaptive_hist_eq.py:115 | along one axis, a coordinate more than half a region from both edges lies between two adjacent centres |
| Interpolation.InnerBox | adaptive_hist_eq.py:115-154 | an inner pixel lies in the box of its quadrant, and all four corners are region centres |
| Interpolation.CellBoxCenters | adaptive_hist_eq.py:128-159 | the four corners of the box of a 2 by 2 block of grid cells are region centres, so all four lookups find a key |
| Interpolation.InterpolatedDirect | adaptive_hist_eq.py:111-116 | a centre pixel and every pixel of the outer band take the entry of the selected centre's table |
| Interpolation.DirectIsRegionTable | adaptive_hist_eq.py:111-116 | with the cursor on region row `r`, a centre or band pixel takes the entry of the table of grid cell `(r, j / w)` |
| Interpolation.InterpolatedInner | adaptive_hist_eq.py:118-162 | any other pixel is the blend of its four corner tables, between their smallest and largest entry |
| Adaptive.ColumnCounterClosedForm | adaptive_hist_eq.py:103-104 | after the test at column `j`, `region_counter - row_counter` is `j / w` |
| Adaptive.RowCounterClosedForm | adaptive_hist_eq.py:167-171 | while row `i` is swept, `row_counter / nh` is 0 for `i = 0` and `(i - 1) / h` otherwise |
| Adaptive.CursorRowFits | adaptive_hist_eq.py:109 | the cursor's region row is a grid row whose rows reach row `i` |
| Adaptive.CursorIndex | adaptive_hist_eq.py:109 | `centers[region_counter]` is in range and is the centre of region row `CursorRow(h, i)`, column `j / w` |
| Adaptive.QuadrantCorners | adaptive_hist_eq.py:128-154 | the four successive `if` tests leave the box of the last matching quadrant |
| Adaptive.BlendEntries | adaptive_hist_eq.py:160-162 | `temp` and the rounded quotient, term by term, are the blend |
| Adaptive.EqualizePixel | adaptive_hist_eq.py:107-162 | the loop body computes the interpolated pixel for the selected centre |
| Adaptive.InnerPixel | adaptive_hist_eq.py:118-162 | for an inner pixel, the quadrant tests, the four lookups and the rounded blend give the interpolated pixel |
| Adaptive.ServePixel | adaptive_hist_eq.py:107-162 | with the counters at their closed form, the loop body computes the output pixel |
| Adaptive.StorePixel | adaptive_hist_eq.py:107-162 | one pass of the inner loop writes the output pixel at (i, j) and changes no other cell |
| Adaptive.SweepRow | adaptive_hist_eq.py:101-162 | the inner loop fills row `i` with its output pixels and changes no other row |
| Adaptive.PerformAdaptiveEqualizationTransform | adaptive_hist_eq.py:75-173 | fails exactly when the size check fails; otherwise the output has the input's shape and every pixel is `AdaptivePixel`, the interpolated value at the cursors' centre |
| CursorFinding.CorrectedRowCounterClosedForm | adaptive_hist_eq.py:167-171 | a row counter advanced after the last row of each band stands on region row `i / h` |
| CursorFinding.OwnRowFits | adaptive_hist_eq.py:109 | region row `i / h` is a grid row whose rows reach row `i` |
| CursorFinding.CorrectedDirectIsOwnRegion | adaptive_hist_eq.py:111-116 | with the corrected cursor, every centre and band pixel takes its own region's entry, as without interpolation |
| CursorFinding.AdaptiveMatchesCorrectedOffRowStart | adaptive_hist_eq.py:167-171 | on row 0 and on rows not a multiple of `h`, the source's output equals the corrected output |
| CursorFinding.CursorOffRowStart | adaptive_hist_eq.py:167-171 | on row 0 and on rows not a multiple of `h`, the cursor stands on region row `i / h` |
| CursorFinding.CursorOnRowStart | adaptive_hist_eq.py:167-171 | on row `k*h`, `k >= 1`, the cursor stands on region row `k - 1` |
| CursorFinding.SameBoxOnRowStart | adaptive_hist_eq.py:128-154 | on row `k*h` the lower quadrant of the centre above and the upper quadrant of the pixel's own centre give the same box |
| CursorFinding.AdaptiveMatchesCorrectedInner | adaptive_hist_eq.py:118-162 | every inner pixel has the same output under both cursors |
| CursorFinding.AdaptiveBandOnRowStart | adaptive_hist_eq.py:111-116 | as written, a band pixel of row `k*h` takes the entry of region row `CursorRow(h, i) = k - 1`, the region above its own |
| CursorFinding.RowStartCounterexample | adaptive_hist_eq.py:167-171 | on a 4 by 4 image with 2 by 2 regions, pixel (2, 0) is 255 as written and 64 in its own region |
| CursorFinding.TableOfOnes | helper_functions.py:63 | the table of a region of four 1s sends level 1 to 255 |
| CursorFinding.TableOfLowerLeft | helper_functions.py:63 | the table of the region [[1, 2], [2, 2]] sends level 1 to 64 |

## Left out

- Floating point: `hist/(m*n)`, the float `cumsum` of the normalised histogram, `(cdf - cdf[0])/(1 - cdf[0])` and `(1/area) * temp` are exact rationals here, rounded once, half to even. When a float sum lands just beside an exact half, `np.round` can round the other way.
- The all-zero region: the table divides by zero and yields NaN, and the `uint8` cast of NaN is left out. Every operation that builds a table requires a nonzero pixel (`Regions.RegionsNonDegenerate`, `HasNonzeroPixel`).
- Adaptive.PerformAdaptiveEqualizationTransform: requires even `h` and `w` once the sizes divide the image. Even sizes are enough for all four table lookups of every inner pixel to find a key, but they are not necessary. With some odd sizes, an inner pixel's quadrant test picks a centre beyond the grid and the source raises `KeyError`; that error path is not modelled. The requires also excludes odd sizes on which the source runs without error. Examples are `h = 1`, where the lagging row cursor keeps every box inside the grid, and an image with a single region row or column of odd size, where every pixel lies in the outer band and nothing is blended. The model says nothing about the output on those inputs.
- HelperFunctions.CumSum: requires a non-empty input. On an empty one the source's `next` raises `StopIteration`; that path is not modelled.
- Negative region sizes: sizes are `nat`. Python's `%` and `range` with negative sizes are not modelled.
- Images with zero rows and a nonzero width: a sequence of rows cannot express them, so such an image has width 0 here.
- `np.round` and `astype(np.uint8)` applied to table entries: every entry is an integer in [0, 255], so both are the identity and are not written out.
- numpy `flatten`, `reshape`, slicing and slice assignment are written as index arithmetic over sequences and a 2-D array.
- Dictionary hashing: the dictionary is a list of keys in insertion order plus a map, and `transforms_dict.keys()` is that list.
- The image's dtype: pixels are integers in 0..255, and `zeros_like` gives a zero array of the same shape.
- demo.py (file I/O, colour conversion, plotting) is not part of this model.

## Findings

| source | as written | input that shows it | evidently intended | confidence | as-written member | corrected member |
|---|---|---|---|---|---|---|
| adaptive_hist_eq.py:169-171 | the row cursor advances after row `i` when `i > 0 and i % h == 0`, so rows `k*h` (k >= 1) are still served by region row `k - 1`; their outer band pixels take the table of the region above | 4 by 4 image `[[1,1,1,1],[1,1,1,1],[1,2,1,1],[2,2,1,1]]` with `h = w = 2`: pixel (2, 0) is a left band pixel of the lower left region, and it gets 255 from the upper left region's table instead of 64 from its own | the cursor moves to the next band of regions with the first row of that band (region row `i / h`), so every band pixel takes its own region's table | not executed | CursorFinding.RowStartCounterexample | CursorFinding.CorrectedDirectIsOwnRegion |
