# Photometry engine of the ACN C source, in Dafny

This project models the numerical core of `centroid.c`. That is the part of the
astronomical photometry tool that works on a square cutout of a FITS frame.
The cutout holds `boxdims * boxdims` intensities, stored row by row, around a
guessed star position `(xpos, ypos)`. The core has four steps:

- **centroid** thresholds the cutout into a 0/1 mask and counts the set cells (N).
  - It sums `rowcounter * row` into By and `colcounter * column` into Bx.
  - It returns `(Bx/N + xpos - boxdims/2, By/N + ypos - boxdims/2)`.
- **skybackground** first refuses a box whose half-width is below the outer sky radius.
  - The radii are `annulus = radius + 10` and `dannulus = annulus + 15`.
  - It collects, in row-major order, every cell with `annulus + 0.5 < dist < dannulus - 0.5`.
  - It sorts them with `compare_doubles` and returns their median, averaging the two central samples for an even count.
- **calc_magnitude**, up to the net intensity, weights every cell by its distance from the centre.
  - `Npix` is the sum of the weights and `S` the weighted sum of intensities.
  - The net intensity is `I = S - skyB * Npix`.
- **file_select** is the directory-scan filter. It keeps the entries whose name, from its last '.', is exactly `.fits`. It always rejects `.` and `..`.

The modules follow that structure:

- `Outcomes` holds the failure kinds, `Result`, `Option` and `Point`.
- `Geometry` holds the cutout, frame coordinates and the distance of `euclidian_dist`.
- `Ordering` holds `compare_doubles`, the sort standing in for `qsort`, and the median.
- `CentroidEstimator`, `SkyBackgroundEstimator` and `AperturePhotometer` hold the three estimators.
- `FileFilter` holds `file_select`.

The loops of the C functions are methods with loop invariants. Each method is
proved against a specification function that is defined row by row in
row-major order. The lemmas about those functions carry the properties:

- the bounds of the marginal sums and of the centroid;
- soundness and completeness of the sky samples;
- the median's position among the samples;
- `I` as a sum of per-pixel excesses;
- the growth of the aperture sums with the radius.

Dafny's reals have no square root, so every comparison on `dist` is made on the
squared distance. `Geometry.SqrtFree` shows that this gives the same answer for
every distance.

## Model

| member | source | states |
|---|---|---|
| Geometry.SquaredDistance | ACN-C-Source/src/centroid.c:358-360 | the squared distance from a frame pixel to the centre is non-negative and zero at the centre |
| Geometry.SqrtFree | ACN-C-Source/src/centroid.c:201-206 | for every distance d >= 0, `d < b`, `d <= b` and `d > b` hold exactly when the corresponding test on d*d holds |
| Geometry.SquareOrder | ACN-C-Source/src/centroid.c:358-360 | squaring keeps the order (strict and non-strict) of non-negative distances |
| Geometry.CellInGrid | ACN-C-Source/src/centroid.c:326 | the index `ii*boxdims+b` of row ii, column b lies inside the `boxdims*boxdims` buffer |
| Geometry.RowMajor | ACN-C-Source/src/centroid.c:326 | buffer index `ii*boxdims+b` holds exactly row ii, column b (quotient and remainder by boxdims) |
| CentroidEstimator.CountAbove | ACN-C-Source/src/centroid.c:327-329 | the number of intensities above the threshold never exceeds the number of cells |
| CentroidEstimator.RowCount | ACN-C-Source/src/centroid.c:323-331 | rowcounter over the first b columns is at most b |
| CentroidEstimator.ColCount | ACN-C-Source/src/centroid.c:340-345 | colcounter over the first b rows is at most b |
| CentroidEstimator.CountPrefixStep | ACN-C-Source/src/centroid.c:327-329 | visiting one more cell adds exactly its mask bit to pixelmaskcounter |
| CentroidEstimator.CountWithinRow | ACN-C-Source/src/centroid.c:324-331 | within row ii, pixelmaskcounter grows by exactly the row's rowcounter |
| CentroidEstimator.CountByRows | ACN-C-Source/src/centroid.c:322-336 | the cells of the first i rows hold as many set bits as the rows' rowcounters together |
| CentroidEstimator.CountIsRowTotal | ACN-C-Source/src/centroid.c:322-336 | N (pixelmaskcounter) is the sum of all rowcounters |
| CentroidEstimator.ColTotalStep | ACN-C-Source/src/centroid.c:339-347 | adding one more row to every colcounter adds that row's rowcounter to the column total |
| CentroidEstimator.ColumnsMatchRows | ACN-C-Source/src/centroid.c:339-347 | the colcounters of the column pass add up to the same N as the rowcounters of the row pass |
| CentroidEstimator.ColTotalNoRows | ACN-C-Source/src/centroid.c:339-347 | with no row read, every colcounter is zero |
| CentroidEstimator.MomentStep | ACN-C-Source/src/centroid.c:335 | adding `counter * index` with index <= top keeps a moment within (cells counted) * top |
| CentroidEstimator.RowMomentBound | ACN-C-Source/src/centroid.c:335 | By <= (set cells) * (boxdims-1) |
| CentroidEstimator.ColMomentBound | ACN-C-Source/src/centroid.c:346 | Bx <= (set cells) * (boxdims-1) |
| CentroidEstimator.MomentBounds | ACN-C-Source/src/centroid.c:335-347 | By and Bx both lie in [0, N*(boxdims-1)] |
| CentroidEstimator.MeanBound | ACN-C-Source/src/centroid.c:349-350 | By/N and Bx/N lie in [0, boxdims-1] whenever N > 0 |
| CentroidEstimator.MaskRow | ACN-C-Source/src/centroid.c:324-334 | one row of the first pass sets each mask cell to the cell's bit, adds the row's set cells to pixelmaskcounter and yields rowcounter |
| CentroidEstimator.MaskRows | ACN-C-Source/src/centroid.c:320-336 | the mask holds each cell's bit (1 iff readval > threshold), the counter equals N and By is the row moment |
| CentroidEstimator.MaskColumns | ACN-C-Source/src/centroid.c:339-347 | reading the mask at `ii+boxdims*b`, Bx is the column moment of the thresholded grid |
| CentroidEstimator.Centroid | ACN-C-Source/src/centroid.c:310-355 | fails (NoSourceDetected) iff no cell is above the threshold; otherwise returns (Bx/N + xpos - boxdims/2, By/N + ypos - boxdims/2), which lies within the frame coordinates of the box |
| SkyBackgroundEstimator.RingTestAgrees | ACN-C-Source/src/centroid.c:206 | the squared ring test holds iff annulus+0.5 < dist < dannulus-0.5, with annulus = radius+10 and dannulus = annulus+15 |
| SkyBackgroundEstimator.RowSamples | ACN-C-Source/src/centroid.c:195-215 | a row's ring samples over b columns number at most b |
| SkyBackgroundEstimator.RingSamples | ACN-C-Source/src/centroid.c:193-216 | Npix, the number of samples over r rows, is at most r*boxdims (at most boxdims*boxdims in all) |
| SkyBackgroundEstimator.RowSamplesSound | ACN-C-Source/src/centroid.c:195-210 | every sample of a row is the value of a ring cell of that row |
| SkyBackgroundEstimator.RowSamplesComplete | ACN-C-Source/src/centroid.c:195-210 | every ring cell of a row contributes its value |
| SkyBackgroundEstimator.RingSamplesSound | ACN-C-Source/src/centroid.c:193-216 | every sample is the value of a cell strictly inside the ring |
| SkyBackgroundEstimator.RingSamplesComplete | ACN-C-Source/src/centroid.c:193-216 | every cell strictly inside the ring contributes its value |
| SkyBackgroundEstimator.MedianWithinSamples | ACN-C-Source/src/centroid.c:218-224 | the median is at least one sample and at most another: it lies between the smallest and the largest sample |
| SkyBackgroundEstimator.CollectRow | ACN-C-Source/src/centroid.c:195-215 | one row of the sampling loop appends exactly that row's ring samples to dpix |
| SkyBackgroundEstimator.CollectRingSamples | ACN-C-Source/src/centroid.c:184-216 | the first Npix cells of dpix are exactly the ring samples in row-major order |
| SkyBackgroundEstimator.SkyBackground | ACN-C-Source/src/centroid.c:165-236 | fails (BoxTooSmall) iff dannulus > boxdims/2; fails (EmptyAnnulus) iff the box fits but no cell is in the ring; otherwise returns the median of the sorted ring samples |
| SkyBackgroundEstimator.MedianOfSorted | ACN-C-Source/src/centroid.c:220-224 | the even/odd index formulas read the median of the sorted prefix dpix[0..Npix) |
| Ordering.CompareDoubles | ACN-C-Source/src/centroid.c:362-382 | returns 1 iff x > y, -1 iff x < y, 0 iff x == y |
| Ordering.CompareDoublesIsOrder | ACN-C-Source/src/centroid.c:362-382 | the comparator is antisymmetric, agrees with <= and is transitive, so qsort's order is the ascending order |
| Ordering.ConsSorted | ACN-C-Source/src/centroid.c:218 | putting a value no larger than the head in front keeps a sorted sequence sorted |
| Ordering.Insert | ACN-C-Source/src/centroid.c:218 | inserting into sorted samples gives a sorted permutation of the samples plus the new value |
| Ordering.InsertBehindHead | ACN-C-Source/src/centroid.c:218 | inserting behind the head keeps the result sorted and a permutation |
| Ordering.Sort | ACN-C-Source/src/centroid.c:218 | the reference sort is sorted and a permutation of its input |
| Ordering.SortedHeadIsMin | ACN-C-Source/src/centroid.c:218 | the first element of a sorted arrangement is its minimum |
| Ordering.SortedUnique | ACN-C-Source/src/centroid.c:218 | two sorted permutations of the same samples are equal, so any correct sort (qsort included) yields the same order |
| Ordering.Median | ACN-C-Source/src/centroid.c:220-224 | the even/odd median of sorted samples lies between the first and the last sample |
| Ordering.CountAtMost | ACN-C-Source/src/centroid.c:220-224 | the number of samples at most a value never exceeds the number of samples |
| Ordering.CountAtLeast | ACN-C-Source/src/centroid.c:220-224 | the number of samples at least a value never exceeds the number of samples |
| Ordering.CountAtMostPrefix | ACN-C-Source/src/centroid.c:220-224 | a sorted prefix bounded by v gives at least that many samples <= v |
| Ordering.CountAtLeastSuffix | ACN-C-Source/src/centroid.c:220-224 | a suffix bounded below by v gives at least that many samples >= v |
| Ordering.CountInsert | ACN-C-Source/src/centroid.c:218 | inserting a value changes the counts by exactly that value's contribution |
| Ordering.CountSort | ACN-C-Source/src/centroid.c:218 | sorting keeps the number of samples at most and at least any value |
| Ordering.MedianSplitsSorted | ACN-C-Source/src/centroid.c:220-224 | at least half of the sorted samples are <= the median and at least half are >= it |
| Ordering.MedianSplitsSamples | ACN-C-Source/src/centroid.c:218-224 | at least half of the (unsorted) samples are <= their median and at least half are >= it |
| Ordering.Swap | ACN-C-Source/src/centroid.c:218 | exchanging two cells of the prefix keeps everything else and the prefix's multiset |
| Ordering.SortPrefix | ACN-C-Source/src/centroid.c:218 | qsort on the first Npix cells: they end sorted, are a permutation of what they were, and the rest of the buffer is unchanged |
| AperturePhotometer.TruncToInt | ACN-C-Source/src/centroid.c:249 | the conversion of a double into the int `mask` truncates toward zero |
| AperturePhotometer.MaskWeight | ACN-C-Source/src/centroid.c:268-275 | the int mask is 1 iff dist <= radius-0.5 and 0 otherwise, including on the edge dist == radius |
| AperturePhotometer.CoverageWeight | ACN-C-Source/src/centroid.c:265-275 | the fractional weight lies in [0,1], is 1 iff dist <= radius-0.5 and is 0 iff dist >= radius+0.5 |
| AperturePhotometer.CoverageNonincreasing | ACN-C-Source/src/centroid.c:275 | a farther cell never gets a larger fractional weight |
| AperturePhotometer.MaskUndercounts | ACN-C-Source/src/centroid.c:268-275 | the int mask is never above the fractional weight and differs from it exactly strictly between radius-0.5 and radius+0.5 |
| AperturePhotometer.EdgeCellDropped | ACN-C-Source/src/centroid.c:268-269 | at dist = radius = 3 the int mask is 0 while the intended weight is 0.5 |
| AperturePhotometer.CellWeightAgrees | ACN-C-Source/src/centroid.c:263-275 | for every distance, the weight decided on the squared distance equals the int mask of the cascade |
| AperturePhotometer.CellWeightGrows | ACN-C-Source/src/centroid.c:270-273 | a larger radius never lowers a cell's weight |
| AperturePhotometer.RowWeights | ACN-C-Source/src/centroid.c:258-277 | a row's weights over b columns are b values, each 0 or 1 |
| AperturePhotometer.WeightRows | ACN-C-Source/src/centroid.c:256-285 | the weights of r rows are r*boxdims values, each 0 or 1 |
| AperturePhotometer.WeightGrid | ACN-C-Source/src/centroid.c:254-285 | there is one 0/1 weight per cell of the cutout |
| AperturePhotometer.RowWeightAt | ACN-C-Source/src/centroid.c:277 | position j of a row's weights is the weight of column j |
| AperturePhotometer.WeightAt | ACN-C-Source/src/centroid.c:277 | position `ii*boxdims+b` of the weights is the weight of row ii, column b |
| AperturePhotometer.SumsAppend | ACN-C-Source/src/centroid.c:278-281 | one more cell adds its weight to Npix and, for weight 1, its value to S |
| AperturePhotometer.ScaleByBit | ACN-C-Source/src/centroid.c:281 | value * mask is the value for mask 1 and 0 for mask 0 |
| AperturePhotometer.AreaBound | ACN-C-Source/src/centroid.c:278 | Npix lies between 0 and the number of cells |
| AperturePhotometer.NetAdds | ACN-C-Source/src/centroid.c:286 | S - skyB*Npix is additive over disjoint groups of cells |
| AperturePhotometer.NetIsExcess | ACN-C-Source/src/centroid.c:286 | I = S - skyB*Npix equals the sum of (value - skyB) over the cells with mask 1 |
| AperturePhotometer.NetOfSums | ACN-C-Source/src/centroid.c:286 | given Npix and S as summed, S - skyB*Npix is the summed excess over the sky |
| AperturePhotometer.AreaMonotone | ACN-C-Source/src/centroid.c:278 | raising weights cell by cell never lowers Npix |
| AperturePhotometer.ExcessMonotone | ACN-C-Source/src/centroid.c:286 | raising 0/1 weights never lowers I when no cell is below the sky level |
| AperturePhotometer.RowWeightsGrow | ACN-C-Source/src/centroid.c:270-273 | within a row, a larger radius never lowers any weight |
| AperturePhotometer.WeightsGrow | ACN-C-Source/src/centroid.c:270-273 | over the grid, a larger radius never lowers any weight |
| AperturePhotometer.ApertureGrows | ACN-C-Source/src/centroid.c:268-286 | a larger radius never lowers Npix, and never lowers I when no pixel is below the sky level |
| AperturePhotometer.AddCell | ACN-C-Source/src/centroid.c:278-281 | `Npix += mask; S += value*mask` extends the sums by exactly one cell |
| AperturePhotometer.ApertureCell | ACN-C-Source/src/centroid.c:260-281 | one pass of the inner loop body adds the cell at row ii, column b, with its mask, to Npix and S |
| AperturePhotometer.AccumulateRow | ACN-C-Source/src/centroid.c:258-284 | one row of the loops extends Npix and S by exactly that row's cells |
| AperturePhotometer.Accumulate | ACN-C-Source/src/centroid.c:256-285 | after the loops, Npix is the sum of the weights and S the sum of the intensities with weight 1 |
| AperturePhotometer.CalcMagnitude | ACN-C-Source/src/centroid.c:243-286 | returns Npix, S and I = S - skyB*Npix, where I is the summed excess over skyB of the cells inside radius - 0.5 |
| FileFilter.LastIndexOf | ACN-C-Source/src/centroid.c:393 | strrchr: None iff the character does not occur, otherwise an index holding it with no occurrence after it |
| FileFilter.FileSelect | ACN-C-Source/src/centroid.c:386-396 | an accepted name is neither "." nor ".." and contains a '.' |
| FileFilter.FileSelectIsFitsExtension | ACN-C-Source/src/centroid.c:386-396 | the filter accepts a name iff it ends in ".fits" (so "a.fits.gz" is rejected and ".fits" accepted) |

## Left out

- `main`, the CFITSIO reads, `scandir` over the directory, and the file and console I/O are not part of this model. The cutout is a parameter.
- The printed report and the magnitude `-2.5 * log10(I) + C` of calc_magnitude (centroid.c:287-288) are left out. Dafny's reals have no logarithm, so the model stops at `I`.
- Floating point is modelled by exact reals. This covers the `float` accumulators By and Bx, the `float` dist, annulus and dannulus, and the `double` sums. Rounding and overflow are not modelled. The integer index arithmetic is exact.
- The `malloc`/`free` of the buffers and the `bail` on a failed allocation are not modelled. The mask buffer `bpix` is allocated but never written in skybackground and calc_magnitude, so it is not modelled there.
- SkyBackgroundEstimator.SkyBackground: `bail` ends the process when the box is too small, and this model returns `Err(BoxTooSmall)` instead.
- SkyBackgroundEstimator.SkyBackground: with no ring sample the C code reads `dpix[-1]`, and this model returns `Err(EmptyAnnulus)` instead.
- CentroidEstimator.Centroid: with no cell above the threshold the C code divides 0 by 0, and this model returns `Err(NoSourceDetected)` instead.
- CentroidEstimator.Centroid: the C function writes the centroid through `x` and `y`, and its `int` return value (`return *x,*y`) is not modelled.
- Ordering.SortPrefix: `qsort`'s own algorithm is not modelled. A selection sort stands in for it, and `Ordering.SortedUnique` shows that every correct sort leaves the same order, so the median is the same.
- The C functions are split into methods along their loops, one for the whole function and one per row or cell, so that each proof stays small. The computation and its order are the same.
- AperturePhotometer.CalcMagnitude: computes with the weight as written. `mask` is an `int` (centroid.c:249), so the half weight on the edge and the partial weight `radius + 0.5 - dist` truncate to 0 (`MaskWeight`). A cell counts fully for dist <= radius - 0.5 and not at all otherwise.
  - The fractional weight the comments describe is modelled as `CoverageWeight`. `MaskUndercounts` and `EdgeCellDropped` state where the two differ, e.g. dist = radius = 3 gives 0 instead of 0.5.
  - The loops are not modelled with the fractional weight, because it needs the distance itself and Dafny's reals have no square root.
- The driver keeps `radius = 18` for later slices of a data cube. With it, skybackground's box check (dannulus = 43) fails for every box narrower than 86 pixels. The driver is not part of this model.

