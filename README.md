# r5-statistics: confidence band and spectrograph grid

A Dafny model of the two numeric transforms inside the r5-statistics
integration-results viewer. Both start from a matrix of simulated
iterations × minutes whose entries are per-minute increments of
accessibility (opportunity counts, modelled as naturals), and both first
turn every iteration's row into a running sum.

- **Confidence band** (`ConfidencePlot.getDataWithConfidenceBand`): over the
  first `min(data[0].length, 120)` minutes, for every minute from 1 on, the
  cross-iteration values are sorted with JavaScript's default `sort()` and
  three order statistics are picked: the value at `floor(n*0.5)`, `lower`
  at `floor(p_lo*n)` and `upper` at `ceil(p_hi*n)`. The band can then be
  recentred on the median or re-expressed as a fraction of it.
- **Spectrograph grid** (the data half of `Spectrograph.drawCanvas`): the
  first `count` iterations are summed over exactly 120 minutes, the largest
  cumulative value is tracked, and every (iteration, minute) value
  increments one cell of a 500 × 120 row-major `Uint16Array`, at row
  `499 - floor(c/max*499)`, while the largest cell count seen is tracked.

Modules:

- `Accumulate` (accumulate.dfy): the running-sum recurrence both
  components use, its closed form as a prefix sum, monotonicity.
- `SortOrder` (sort_order.dfy): total orders on naturals, a reference
  insertion sort `SortBy`, the in-place sort `SortInPlace` over an
  `array<nat>`, and uniqueness of a sorted permutation. Uniqueness means
  the model does not depend on which algorithm the JavaScript engine uses.
- `DefaultSort` (default_sort.dfy): the order of `Array.prototype.sort()`
  without a comparator on naturals, that is code-unit order on decimal
  strings. It is a total order, and 10 sorts before 9.
- `ConfidencePlot` (confidence_plot.dfy): index arithmetic, JavaScript
  subtraction and division on band fields, the band as specification
  functions, and the component's loops as methods proved equal to them.
- `Spectrograph` (spectrograph.dfy): slice, running sums with the
  maximum, row mapping, the binning loops over an `array<int>` standing for
  the `Uint16Array`, and mass conservation of the grid.
- `Arith` (arith.dfy): floor-division facts shared by the index and row
  lemmas.

Percentiles are exact rationals `num/den` with `0 < num < den`. The
results page passes 0.025 and 0.975 (`LOWER_DEFAULT`, `UPPER_DEFAULT`
= 1/40 and 39/40). The sort is a parameter `le` of the confidence-band
methods. The component as written is `GetDataAsWritten`, which passes
`DefaultSortLe`.

The upper index is not clamped in lib/confidence-plot.js:59. When it is
`n` the array read gives `undefined`, and the model returns `Undefined` in
that field (`BandAt`).

## Model

| member | source | states |
|---|---|---|
| Accumulate.Cum | lib/confidence-plot.js:36-41 | the running sum at minute m: `data[i][0]` at 0, then the previous sum plus `data[i][m]` (the same recurrence is lib/spectrograph.js:40-45); it is at least the minute's own increment |
| Accumulate.CumIsPrefixSum | lib/confidence-plot.js:36-43 | the running sum at minute m equals the plain sum of increments 0..m |
| Accumulate.CumMonotone | lib/confidence-plot.js:39-42 | with non-negative increments a cumulative row never decreases from one minute to a later one |
| Accumulate.CumRow | lib/confidence-plot.js:36-43 | the row built by the recurrence has exactly `len` entries, entry m being the running sum at m |
| Accumulate.CumulativeRowsShape | lib/confidence-plot.js:34-43 | one row per iteration with exactly `minutes` entries; entry 0 is `data[i][0]`, entry m is entry m-1 plus `data[i][m]`; rows never decrease |
| Accumulate.FirstMinuteRows | lib/confidence-plot.js:36 | every iteration's row starts as the one-element list of its first increment, the running sums of one minute (the same loop is lib/spectrograph.js:40) |
| SortOrder.NumericIsTotalOrder | lib/confidence-plot.js:56 | numeric order (the intended comparator) is a total order |
| SortOrder.Insert | lib/confidence-plot.js:56 | insertion adds exactly one copy of x and keeps a sorted list sorted |
| SortOrder.SortBy | lib/confidence-plot.js:56 | the reference sort is a permutation of its input and is sorted under any total order |
| SortOrder.SortedPermutationUnique | lib/confidence-plot.js:56 | two sorted permutations of the same multiset under a total order are equal |
| SortOrder.InsertLast | lib/confidence-plot.js:56 | moving `a[i]` left makes `a[..i+1]` sorted, keeps the array's multiset and leaves `a[i+1..]` as it was |
| SortOrder.SortInPlace | lib/confidence-plot.js:56 | the in-place sort leaves the array sorted, a permutation of the original, and equal to the reference sort |
| DefaultSort.DefaultSortLe | lib/confidence-plot.js:56 | the comparison `sort()` makes without a comparator: code-unit order of the two decimal strings; reflexive, and numeric on single digits |
| DefaultSort.DecimalString | lib/confidence-plot.js:56 | the string form is non-empty, all digits, has two or more digits exactly for n ≥ 10, and starts with '0' only for 0 |
| DefaultSort.DecimalStringRoundTrip | lib/confidence-plot.js:56 | the string form spells n in base 10: reading its digits back gives n |
| DefaultSort.DecimalStringInjective | lib/confidence-plot.js:56 | distinct naturals have distinct string forms (from the round trip) |
| DefaultSort.DefaultSortIsTotalOrder | lib/confidence-plot.js:56 | the default sort's string order on naturals is total, antisymmetric and transitive |
| DefaultSort.TenSortsBeforeNine | lib/confidence-plot.js:56 | the default order is not numeric: 10 comes before 9 and not the reverse |
| ConfidencePlot.Minutes | lib/confidence-plot.js:32 | `min(data[0].length, 120)`: at most both, and equal to one of them |
| ConfidencePlot.BandAt | lib/confidence-plot.js:57-61 | the entry `{ value, upper, lower, minute }` picked from a sorted column: value and lower always numbers; upper is the value at the ceiling index, or `undefined` exactly when that index is one past the end (n*(1-p_hi) < 1), since nothing clamps it |
| ConfidencePlot.ConfidenceBand | lib/confidence-plot.js:46-62 | the band before the post-pass: `minutes - 1` entries (none for zero minutes), entry k being minute k+1 picked from that minute's sorted column |
| ConfidencePlot.Normalised | lib/confidence-plot.js:64-79 | the post-pass on one entry: recentring if `recenter`, else percentage if `percentage`, else unchanged; the minute is always kept and the value becomes 0 under either flag |
| ConfidencePlot.MedianIndex | lib/confidence-plot.js:57 | `floor(n*0.5)` is a valid index of a non-empty column |
| ConfidencePlot.LowerIndex | lib/confidence-plot.js:58 | `floor(p_lo*n)` is a valid index of a non-empty column |
| ConfidencePlot.UpperIndex | lib/confidence-plot.js:59 | `ceil(p_hi*n)` never exceeds n, so it is at most one past the end |
| ConfidencePlot.IndicesAreFloorAndCeiling | lib/confidence-plot.js:58-59 | the lower index is floor(p_lo*n) and the upper index is ceil(p_hi*n) |
| ConfidencePlot.IndicesInRange | lib/confidence-plot.js:57-59 | for n ≥ 1 the median and lower indices are below n; the upper index is at most n, and equals n iff n*(1-p_hi) < 1 |
| ConfidencePlot.DefaultUpperPastEnd | lib/confidence-plot.js:59 | at p_hi = 0.975 the upper index falls past the end iff fewer than 40 iterations are plotted |
| ConfidencePlot.LowerBelowMedian | lib/confidence-plot.js:57-58 | p_lo ≤ 1/2 puts the lower index at or below the median index |
| ConfidencePlot.MedianBelowUpper | lib/confidence-plot.js:57-59 | 1/2 ≤ p_hi puts the median index at or below the upper index |
| ConfidencePlot.IndicesOrdered | lib/confidence-plot.js:57-59 | p_lo ≤ 1/2 ≤ p_hi gives lower index ≤ median index ≤ upper index |
| ConfidencePlot.Minus | lib/confidence-plot.js:67-68 | JavaScript `a - v`: a number stays a number with `r + v == a`; an infinity stays the same infinity; `undefined` and NaN become NaN |
| ConfidencePlot.Divide | lib/confidence-plot.js:74-76 | JavaScript `a / v`: exact quotient for v ≠ 0; for v = 0 never a finite number, NaN exactly for 0/0 |
| ConfidencePlot.Recentred | lib/confidence-plot.js:65-70 | value becomes 0, minute kept, width `upper - lower` kept, `lower ≤ 0` iff lower was ≤ value and `0 ≤ upper` iff value was ≤ upper; an undefined upper becomes NaN |
| ConfidencePlot.AsPercentage | lib/confidence-plot.js:71-78 | value becomes 0; with a non-zero median each bound becomes (bound - value)/value exactly; with a zero median neither bound is a finite number |
| ConfidencePlot.CumulativeSums | lib/confidence-plot.js:34-43 | the push loops build exactly the cumulative matrix of the first `minutes` minutes |
| ConfidencePlot.ExtendRows | lib/confidence-plot.js:40-42 | one round of the outer loop appends the running sum at `minute` to every row, giving each row its first minute+1 running sums |
| ConfidencePlot.BandForMinute | lib/confidence-plot.js:49-61 | gathering a minute's column into an array, sorting it in place and picking three entries yields that minute's band entry over the sorted column |
| ConfidencePlot.ExtractBand | lib/confidence-plot.js:46-62 | the per-minute loop yields the band entries of minutes 1 .. minutes-1 in order |
| ConfidencePlot.NormaliseBand | lib/confidence-plot.js:64-79 | the field-by-field post-pass equals recentring (if `recenter`), else percentage (if `percentage`), else identity, entry by entry |
| ConfidencePlot.GetDataWithConfidenceBand | lib/confidence-plot.js:29-82 | for any total-order comparator the result is the normalised band of the sorted columns |
| ConfidencePlot.GetDataAsWritten | lib/confidence-plot.js:29-82 | the component with its comparator-less `sort()` returns the normalised band under the decimal-string order |
| ConfidencePlot.BandPicksFromColumn | lib/confidence-plot.js:49-59 | value, lower and (when defined) upper are each some iteration's cumulative value at that minute |
| ConfidencePlot.BandOrderedBy | lib/confidence-plot.js:56-59 | in a column sorted by `le`, lower ≼ value and, when the upper index is in range, value ≼ upper, in the sort's own order |
| ConfidencePlot.NumericBandOrdered | lib/confidence-plot.js:56-70 | sorted numerically, lower ≤ value ≤ upper, and recentred lower ≤ 0 ≤ upper |
| ConfidencePlot.DefaultSortBreaksBand | lib/confidence-plot.js:56-70 | with the default sort, columns [9, 10] give lower 10 above value 9, and the recentred lower is +1 |
| ConfidencePlot.NumericSortKeepsBand | lib/confidence-plot.js:56-59 | with numeric order the same columns give lower 9, value 10 |
| ConfidencePlot.ModePrecedence | lib/confidence-plot.js:65-79 | `recenter` wins over `percentage`; with neither flag the band is returned unchanged |
| Spectrograph.JsMax | lib/spectrograph.js:67 | `Math.max(maxPixelValue, cell)`: NaN stays NaN, otherwise the larger of the two |
| Spectrograph.Row | lib/spectrograph.js:60 | `yPixel = 499 - floor(c/max*499)`, never past the last row |
| Spectrograph.BinnedGrid | lib/spectrograph.js:54-69 | the final `Uint16Array`: 60000 cells, each the hit count of its cell modulo 2^16, all zero when the maximum is 0 |
| Spectrograph.SliceLength | lib/spectrograph.js:31-33 | the slice keeps min(count, data.length) iterations |
| Spectrograph.RowInCanvas | lib/spectrograph.js:54-61 | for 0 ≤ c ≤ max, max > 0, the row lies in [0, 499] and the flat index in [0, 60000) |
| Spectrograph.RowEnds | lib/spectrograph.js:51-53 | the maximum lands in row 0 and zero in row 499 |
| Spectrograph.RowMonotone | lib/spectrograph.js:51-60 | a larger cumulative value never lands in a larger row number |
| Spectrograph.Hits | lib/spectrograph.js:58-61 | the number of the first n iterations landing in a cell is at most n |
| Spectrograph.Cell | lib/spectrograph.js:54-61 | a cell holds its hit count modulo 2^16, always within the `Uint16Array` range |
| Spectrograph.AppendMinute | lib/spectrograph.js:44-48 | one minute appended to every row, the maximum grown to bound the new values and equal to one of them if it changed |
| Spectrograph.CumulativeWithMax | lib/spectrograph.js:36-49 | the cumulative matrix over 120 minutes; maxAccessibility bounds minutes 1..119 and minute 0, equals some value of minutes 1..119, and is 0 with no iterations |
| Spectrograph.BinValue | lib/spectrograph.js:60-67 | one increment moves the grid and running maximum from the state after the previous value to the state after this one |
| Spectrograph.BinIteration | lib/spectrograph.js:58-69 | binning all 120 minutes of one iteration advances the binning invariant by one iteration |
| Spectrograph.CellsAfterStep | lib/spectrograph.js:61 | incrementing the addressed cell modulo 2^16 turns the grid for the values so far into the grid including this one |
| Spectrograph.CellStep | lib/spectrograph.js:60-61 | binning one value changes exactly one cell, the one at its row and minute, which goes up by one modulo 2^16 |
| Spectrograph.NoWrapBelowRange | lib/spectrograph.js:54-61 | below 65536 iterations the addressed cell is below 65535 before the increment, so the increment does not wrap |
| Spectrograph.MaxAfterStep | lib/spectrograph.js:67 | after one cell changes, the updated running maximum still bounds every cell and, without a wrap, is still some cell's value |
| Spectrograph.BinGrid | lib/spectrograph.js:54-69 | each cell is its hit count modulo 2^16 (zero everywhere when max is 0); with max 0, maxPixelValue is 0 when there are no iterations and NaN otherwise; with max > 0 it bounds every cell and, below 65536 iterations, equals one |
| Spectrograph.ColumnMass | lib/spectrograph.js:58-61 | every one of n iterations lands in exactly one of the 500 rows of each minute |
| Spectrograph.GridColumnIsHits | lib/spectrograph.js:54-61 | below the wrap point each column of the grid sums to its hit counts |
| Spectrograph.GridCellIsHits | lib/spectrograph.js:54-61 | below the wrap point a cell of the binned grid is exactly its hit count |
| Spectrograph.GridColumnMass | lib/spectrograph.js:54-69 | below the wrap point every minute column of the grid sums to the number of iterations |
| Spectrograph.UnhitCellStaysZero | lib/spectrograph.js:54-61 | a cell no iteration's value maps to stays 0 |
| Spectrograph.GridTotalMass | lib/spectrograph.js:54-69 | below the wrap point the whole grid sums to iterations × 120 |
| Spectrograph.DrawCanvasData | lib/spectrograph.js:29-69 | iterations is the slice length; maxAccessibility bounds all values, is attained, and is 0 with no iterations; the grid is the binned grid (all zero when max is 0); with max > 0, maxPixelValue bounds every cell at any iteration count and, below 65536 iterations, equals one; below 65536 iterations columns sum to iterations and the grid to iterations × 120 |

## Left out

- Canvas painting, the chroma-js colour scale and `putImageData` (lib/spectrograph.js:71-85): drawing through a foreign library.
- The React `render` methods, the iteration slider and component state (lib/spectrograph.js:10-23, lib/confidence-plot.js:7-10): UI only; `count` is a parameter.
- The metrics-graphics chart call and its `*1.25` axis bounds (lib/confidence-plot.js:11-27): rendering configuration through a foreign library.
- The unused `log` helper (lib/spectrograph.js:88-90) and the `console.log` on an undefined cell (lib/spectrograph.js:63-65): neither changes the data; the read-back of an undefined cell is modelled through `maxPixelValue` becoming NaN.
- lib/integration-results.js (fetch from S3, routing between the views) and lib/index.js (DOM bootstrap): I/O. Their bounds 0.025/0.975 appear only as `LOWER_DEFAULT` and `UPPER_DEFAULT`.
- IEEE-754 rounding of `p*n` and `c/max*499`: the model computes these exactly with integers and rationals, so it does not reproduce a float result that lands just below an integer. Band values are exact reals, not doubles.
- The running sums in both components are doubles in JavaScript, exact only up to 2^53; the model's sums are unbounded naturals and never round.
- `DecimalString` is the plain numeral, which is what `String(n)` gives for every integer up to 2^53. Above that, JavaScript prints the shortest digits that round back to the double and pads them with zeros (2^64 prints as 18446744073709552000), and from 10^21 it uses exponent notation; neither is modelled.
- Band entries are immutable values, and the post-pass rebuilds each one. Aliasing of the datum objects is not modelled; none is observable here.
- ConfidencePlot.GetDataWithConfidenceBand: requires non-empty data because `data[0].length` throws a TypeError on an empty list; rows shorter than `minutes` (which the JavaScript would turn into NaN sums) are excluded by a requires; lower and upper bounds are restricted to fractions strictly between 0 and 1.
- Spectrograph.DrawCanvasData: requires each kept row to have 120 increments (a shorter row gives NaN sums in the JavaScript); `count` is a natural, so a NaN slider value is not modelled.
- Spectrograph.BinGrid: that maxPixelValue equals some final cell, and the mass-conservation sums, are stated only below 65536 iterations. Past the `Uint16Array` wrap, a cell can reach 65535 and wrap to 0, leaving the running maximum above every final cell.
- Spectrograph.DrawCanvasData: that maxPixelValue equals some cell, and that each column sums to the iteration count and the grid to iterations × 120, are stated only below 65536 iterations, for the same wrap reason; the bound of maxPixelValue over every cell holds at any count.

## Findings

| source | as written | input that shows it | evidently intended | confidence | as-written member | corrected member |
|---|---|---|---|---|---|---|
| lib/confidence-plot.js:56 | `valuesThisMinute.sort()` with no comparator orders numbers by their decimal strings | two iterations whose cumulative values at minute 1 are 9 and 10 (increments `[[9, 0], [10, 0]]`): sorted as [10, 9], so lower = 10 > value = 9, and recentred lower = +1 | sort ascending numerically (`sort((a, b) => a - b)`), so lower ≤ value ≤ upper and, recentred, lower ≤ 0 ≤ upper | high, not executed | ConfidencePlot.DefaultSortBreaksBand | ConfidencePlot.NumericBandOrdered |
