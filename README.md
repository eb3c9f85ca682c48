# Licence-plate edge pipeline and plate tools, modelled in Dafny

This project models the pixel-level core of a licence-plate reader written in
Python with numpy and scipy. Two files are covered.

- `EdgeData.py` is the edge pipeline:
  - `sobel` computes a gradient magnitude and a quantised direction for every pixel.
  - `nonmax_supp` thins the magnitudes along the gradient direction.
  - `hysteresis` and its helper `hystConnect` keep strong edges and the weak pixels linked to them, using an explicit stack.
  - `edge_dilation` grows edges for a number of generations.
- `PlateTools.py` holds the plate helpers:
  - `filter_ratio` keeps the connected components whose bounding box has the wanted height-to-width ratio.
  - `threshold` binarises an image around the mean of one sample row.
  - `count_comps` counts the component labels along one row.
  - `segment` cuts a plate into character chunks from a column histogram of bright pixels.

An image is a `Grid`, a rectangular `seq<seq<int>>` indexed `g[x][y]`, where
`x` is the row (numpy axis 0) and `y` is the column. Each function is
modelled in the form the Python code has:

- `sobel`, `nonmax_supp`, `hysteresis`, `hystConnect`, `edge_dilation` and
  `threshold` rewrite numpy matrices cell by cell. They are Dafny methods
  that write an `array2<int>` with the same loops.
- `segment` fills the array `bar` in a loop and then runs a scan loop over it.
- `filter_ratio` appends to a list in a loop over the labels. It is a method
  whose list is a `seq<Box>`.
- `count_comps` is a single expression, so it is the function
  `Candidates.CountComps`.

Each method is proved against a specification function on grid values
(`MagAt`, `Suppressed`, `Linked`, `Dilate`, `Candidates`, `Binary`,
`Segments`, ...). The properties the code promises are then proved about
those functions as lemmas. Inputs that the Python code copies before changing
them, or only reads, are Dafny values, so the caller's grid cannot change.

Modules:

- `Grids`: grids, matrix contents (`Cells`), single-cell update, `copy()`.
- `Gradient`: `sobel`.
- `Suppression`: `nonmax_supp`.
- `Hysteresis`: `hysteresis` and `hystConnect`.
- `Dilation`: `edge_dilation`.
- `Labelling`: the contract of `ndimage.label` and `ndimage.find_objects`.
- `Candidates`: `filter_ratio` and `count_comps`.
- `Thresholding`: `threshold`.
- `Segmentation`: `segment`.

`ndimage.label` is a library call. Its result is a parameter that satisfies
`Labelling.IsLabelling`:

- background pixels get 0 and the others labels `1..k`;
- two foreground pixels share a label exactly when a 4-connected path of foreground pixels joins them;
- every label `1..k` is used;
- labels are numbered in row-major order of first encounter: every smaller label occurs before any pixel of a larger one.

The code calls `ndimage.label` with its default structuring element, which is
4-connectivity, so the model uses 4-connectivity and not 8-connectivity.
These conditions determine the labelling: `Labelling.LabellingUnique` proves
that two labellings of the same image are equal. So the boxes `filter_ratio`
returns, and their order, depend on the image alone.

In `nonmax_supp`, the `else` branch (direction 135) compares `(x + 1, y + 1)`
with `(x - 1, y - 1)`, the same pair as direction 45, although the comment at
EdgeData.py:134 names the north-east and south-west neighbours. The model
follows the code.

## Model

| member | source | states |
|---|---|---|
| Grids.ToMatrix | EdgeData.py:24 | `copy()`: a fresh matrix of the grid's shape holding exactly the grid's values |
| Grids.ItemSet | EdgeData.py:225 | `itemset`: the matrix changes in the one given cell, to the given value, and nowhere else |
| Gradient.Weight | EdgeData.py:61-62 | the weight at offset `(n, m)` is the kernel entry at row `n` and column `m`, with a negative index counted from the end, as numpy's `item` reads it |
| Gradient.Partial | EdgeData.py:59-62 | the running value of `sum_x` / `sum_y` just before the loops visit offset `(n, m)` |
| Gradient.Convolve | EdgeData.py:59-62 | after the loops, the sum is the nine weights times the nine pixels of the 3x3 block around `(x, y)` |
| Gradient.UniformNeighbourhood | EdgeData.py:28-29 | each kernel's nine weights sum to 0, so a uniform neighbourhood gives `sum_x == sum_y == 0`, magnitude 0 and direction 90 |
| Gradient.ISqrt | EdgeData.py:65 | the result is the integer square root: `r*r <= n < (r+1)*(r+1)` |
| Gradient.DoubleRootBounds | EdgeData.py:65 | the root of `n` is twice the root of `n / 4`, or one more |
| Gradient.Magnitude | EdgeData.py:65-74 | the stored magnitude lies in `0..255`; below 255 it is the truncated Euclidean norm of the two sums, and it is 255 exactly when the norm is at least 255 |
| Gradient.Bucket | EdgeData.py:87-97 | the result is one of 0, 45, 90, 135; for an angle in `[-180, 180]` it is within 22.5 degrees of the angle, modulo 180 |
| Gradient.Direction | EdgeData.py:82-97 | the direction is one of 0, 45, 90, 135; it is 90 whenever `sum_x == 0`, whatever `sum_y` is, and the bucket of the angle otherwise |
| Gradient.MagAt | EdgeData.py:54-74 | a pixel's magnitude is in `0..255`, and 0 on the border rows and columns |
| Gradient.DirAt | EdgeData.py:54-100 | a pixel's direction is one of 0, 45, 90, 135, and keeps the initial 0 on the border |
| Gradient.WeightedSums | EdgeData.py:59-62 | the `n`/`m` loops leave `sum_x` and `sum_y` equal to the two kernel sums at the pixel, with the kernel indices wrapped as numpy wraps `-1` |
| Gradient.SobelPixel | EdgeData.py:50-100 | one visit writes the pixel's magnitude and direction, gives 0 on the border, and changes no other cell |
| Gradient.SobelRow | EdgeData.py:49-100 | after a row, each of its cells holds its magnitude and direction, the other rows are unchanged, and the running maximum covers the row and is attained at an interior pixel unless it is 0 |
| Gradient.Sobel | EdgeData.py:18-103 | every cell of `mags` and `dirs` holds its pixel's magnitude and direction; `max_mag` lies in `0..255`, bounds every magnitude, and is 0 or the magnitude of some interior pixel |
| Suppression.Compared | EdgeData.py:121-136 | the two compared cells face each other across `(x, y)`: on the same row for 0, on the same column for 90, and on the main diagonal for every other value, so 135 compares the same pair as 45 |
| Suppression.Suppressed | EdgeData.py:115-142 | each output cell is its input value or 0, and border cells keep their input value |
| Suppression.Seen | EdgeData.py:117-136 | a neighbour is read with its suppressed value if the row-major pass has visited it already, and with its input value otherwise; either way it is its input value or 0 |
| Suppression.SuppressedAtMost | EdgeData.py:141-142 | on non-negative magnitudes the output is pointwise between 0 and the input |
| Suppression.LocalMaxKept | EdgeData.py:141-142 | a pixel at least as large as both compared input neighbours is kept, whatever happened to the neighbours visited earlier |
| Suppression.SurvivorIsLocalMax | EdgeData.py:141-142 | an interior pixel that survives is at least as large as both compared neighbours in the output |
| Suppression.SuppressRow | EdgeData.py:116-142 | after interior row `x`, the rows up to `x` hold their suppressed values and the later rows their input values |
| Suppression.NonMaxSupp | EdgeData.py:110-144 | every cell of the result is the suppressed value of the pass, in place and in row-major order; the caller's grid is a value and is not changed |
| Hysteresis.Linked | EdgeData.py:155-204 | a pixel is an edge when some walk through in-grid 8-neighbours above 100 leads to it from a pixel of magnitude at least 180 |
| Hysteresis.SeedLinked | EdgeData.py:164-167 | every pixel with magnitude at least 180 is an edge |
| Hysteresis.LinkedAboveLow | EdgeData.py:201 | every edge pixel has magnitude above 100 |
| Hysteresis.ClosedGrow | EdgeData.py:201-204 | marking more cells keeps a cell's neighbourhood closed |
| Hysteresis.PoppedCells | EdgeData.py:185 | after a pop, every cell that was on the stack is the popped cell or still on the stack |
| Hysteresis.PopKeepsClosure | EdgeData.py:185-204 | after popping a cell and closing it, every marked cell is on the stack, among the cells just pushed, or closed |
| Hysteresis.PushShrinks | EdgeData.py:184-204 | each pass of the stack loop marks a new cell, or marks nothing and pushes nothing, so the stack loop terminates |
| Hysteresis.ClosedContainsPath | EdgeData.py:162-204 | a set holding every seed and closed under the growth step holds every pixel of every hysteresis walk |
| Hysteresis.ChainExtend | EdgeData.py:201-204 | a walk to a cell, followed by a step to a neighbour above the threshold, is a walk to that neighbour |
| Hysteresis.ReachesLinked | EdgeData.py:164-204 | a pixel reached from a seed through pixels above 100 is an edge |
| Hysteresis.ReachNeighbours | EdgeData.py:188-204 | the neighbours a popped cell marks are reached from the start cell |
| Hysteresis.LinkedMarked | EdgeData.py:162-204 | a set holding every seed and closed under the growth step holds every edge pixel |
| Hysteresis.LinkedBounds | EdgeData.py:159-203 | pixels of magnitude at least 180 are edges, and edge pixels have magnitude above 100 |
| Hysteresis.MarkCell | EdgeData.py:201-204 | a neighbour above the threshold becomes marked; it is pushed exactly when it was not marked before, so each cell is pushed at most once |
| Hysteresis.MarkRow | EdgeData.py:193-204 | every in-grid cell of one row of the 3x3 block above the threshold ends up marked; the newly marked cells are exactly those pushed, all neighbours above the threshold |
| Hysteresis.MarkNeighbours | EdgeData.py:188-204 | after the `i`/`j` loops, the popped cell is closed; the newly marked cells are exactly those pushed, all neighbours above the threshold |
| Hysteresis.HystConnect | EdgeData.py:177-204 | when the stack is empty, every marked cell is closed and every newly marked cell is reached from the start cell; `edges` holds 255 exactly on the marked cells |
| Hysteresis.Hysteresis | EdgeData.py:155-169 | the result is 255 exactly on the pixels linked to a seed of magnitude at least 180 through pixels above 100, and 0 elsewhere; every seed is 255 and every 255 pixel has magnitude above 100 |
| Dilation.Spreads | EdgeData.py:223 | a pixel spreads in generation `i` when its value is at least `256 - i` |
| Dilation.Visit | EdgeData.py:223-231 | one visit changes at most one cell, a zero 4-neighbour of the pixel, to `255 - i`; that cell is the first zero one in the order up `(x-1, y)`, left `(x, y-1)`, down `(x+1, y)`, right `(x, y+1)`; for `i != 255` it changes something exactly when the pixel is at least `256 - i` and has a zero 4-neighbour |
| Dilation.RowPrefix | EdgeData.py:222-231 | part of a row's pass only fills zero cells, with `255 - i` |
| Dilation.PassPrefix | EdgeData.py:221-231 | the first rows of a generation only fill zero cells, with `255 - i` |
| Dilation.Pass | EdgeData.py:220-231 | a generation only fills zero cells with `255 - i`; for `1 <= i <= 255` the cells that spread are the same after the pass as before, so cells written in generation `i` do not spread in it |
| Dilation.Dilate | EdgeData.py:220-231 | generations `1..num` applied in turn; the result has the input's shape |
| Dilation.DilateZero | EdgeData.py:217-220 | with `num = 0` the result equals the input |
| Dilation.DilateFillsZeros | EdgeData.py:220-231 | non-zero cells keep their value; a changed cell was zero and now holds a value in `255 - num .. 254` |
| Dilation.DilateMonotone | EdgeData.py:220-231 | every non-zero cell after `m` generations keeps its value after `n >= m` generations |
| Dilation.DilateCountMonotone | EdgeData.py:220-231 | the number of non-zero cells never decreases as `num` grows |
| Dilation.VisitCell | EdgeData.py:223-231 | the body of the `y` loop changes the matrix exactly as `Visit` says |
| Dilation.DilateRow | EdgeData.py:222-231 | the `y` loop over one row changes the matrix as the row's pass says |
| Dilation.DilatePass | EdgeData.py:221-231 | the `x`/`y` loops of one generation change the matrix as `Pass` says |
| Dilation.EdgeDilation | EdgeData.py:215-232 | the result has the input's shape and holds `num` generations of dilation of the input, which is not modified |
| Labelling.IsLabelling | PlateTools.py:26 | what `ndimage.label` returns: 0 exactly on the background, labels `1..k` all used, equal labels exactly on 4-connected pixels, labels numbered in row-major order of first encounter |
| Labelling.FirstPixelLabelledOne | PlateTools.py:26 | the first foreground pixel in row-major order carries label 1 |
| Labelling.EarlierLabel | PlateTools.py:26 | a label below that of a pixel occurs at an earlier foreground pixel |
| Labelling.SameComponent | PlateTools.py:26 | pixels that share a label in one labelling of an image share a label in any other |
| Labelling.LabelsAgree | PlateTools.py:26 | two labellings of the same image give every pixel the same label |
| Labelling.LabelNotBelow | PlateTools.py:26 | when the earlier pixels agree, a pixel's label in one labelling is not below its label in another |
| Labelling.LabelCountAtMost | PlateTools.py:26 | equal labellings of an image use the same largest label |
| Labelling.LabellingUnique | PlateTools.py:26 | `ndimage.label` is determined by the image: two labellings of it are equal and have the same count |
| Labelling.FirstRowFinds | PlateTools.py:33 | the first-row search stops at a row holding the label and skips only rows without it |
| Labelling.LastRowFinds | PlateTools.py:33 | the last-row search stops at a row holding the label and skips only rows without it |
| Labelling.FirstColFinds | PlateTools.py:33 | the first-column search stops at a column holding the label and skips only columns without it |
| Labelling.LastColFinds | PlateTools.py:33 | the last-column search stops at a column holding the label and skips only columns without it |
| Labelling.BoxBounds | PlateTools.py:33 | for a label that is present, the first row and column are at most the last ones, and all lie in the grid |
| Labelling.TightBox | PlateTools.py:33 | `find_objects(labeled == l)[0]` lies in the grid and is at least one pixel high and wide |
| Labelling.TightBoxIsTight | PlateTools.py:33 | the box holds every pixel of the label, and each of its four sides touches such a pixel, so no smaller box holds them all |
| Candidates.Ratio | PlateTools.py:35-36 | the ratio times the box's width is its height |
| Candidates.Fits | PlateTools.py:37 | the ratio lies strictly between `ratio - epsilon` and `ratio + epsilon` |
| Candidates.Accepted | PlateTools.py:31-38 | every accepted label is in `1..n` and its tight box has a ratio strictly within `epsilon` of `ratio` |
| Candidates.AcceptedMembers | PlateTools.py:31-38 | a label is accepted exactly when it is in `1..n` and its box's ratio fits |
| Candidates.AscendingAppend | PlateTools.py:38 | appending a value above every element keeps a list strictly increasing |
| Candidates.AcceptedAscending | PlateTools.py:31-38 | the accepted labels are strictly increasing, so each component yields at most one box |
| Candidates.Candidates | PlateTools.py:31-38 | every candidate box is at least one pixel wide and has a height-to-width ratio strictly within `epsilon` of `ratio` |
| Candidates.CandidatesOfAccepted | PlateTools.py:31-38 | the candidates are exactly the tight boxes of the accepted labels, one per label and in label order |
| Candidates.FilterRatio | PlateTools.py:20-40 | the returned list is the candidate boxes over all labels; every box is at least one pixel wide and fits the ratio; `edges` is a value and is not changed |
| Candidates.CandidatesDetermined | PlateTools.py:26-38 | every labelling of `edges` gives the same candidate boxes in the same order |
| Candidates.DistinctBounds | PlateTools.py:87 | a row has at most as many distinct values as cells, and at least one when it is not empty |
| Candidates.CountComps | PlateTools.py:84-87 | the count is at most the row length, and at least 1 when the row is not empty |
| Candidates.CountCompsComponents | PlateTools.py:84-87 | the count is the number of components meeting the row, plus one when the row has a background pixel |
| Thresholding.Average | PlateTools.py:58-61 | `avg` is the floor of the row's mean: `w * avg <= sum < w * (avg + 1)` |
| Thresholding.CountBelow | PlateTools.py:65-70 | the number of cells below the average is at most the row length |
| Thresholding.SumBelow | PlateTools.py:58-61 | a row whose cells are all below `t` sums to at most `w * t - w` |
| Thresholding.NotAllBelowAverage | PlateTools.py:58-61 | some cell of a non-empty row is at least the row's average |
| Thresholding.CountBelowMissesOne | PlateTools.py:65-70 | one cell not below `t` leaves at most `w - 1` cells below it |
| Thresholding.CountBelowAverage | PlateTools.py:58-70 | at most `w - 1` sample-row cells fall below the average |
| Thresholding.SampleAverage | PlateTools.py:58-61 | the sum loop and the division give the floor of the sample row's mean |
| Thresholding.Binary | PlateTools.py:67-72 | a cell becomes 255 exactly when it is below the average, and 0 otherwise |
| Thresholding.ThresholdColumn | PlateTools.py:66-72 | after column `x`, the columns up to `x` are binarised and the others untouched; `total` grows by 255 exactly when the sample-row cell of column `x` is below the average |
| Thresholding.Threshold | PlateTools.py:52-74 | every output cell is 255 when the input cell is below the sample row's average and 0 otherwise; `total` is 255 times the number of sample-row cells below it, and lies in `0 .. 255 * (w - 1)` |
| Segmentation.Bright | PlateTools.py:107 | a pixel is bright when it exceeds `255 * 0.95` |
| Segmentation.BrightFrom243 | PlateTools.py:107 | on integer pixels, brighter than `255 * 0.95` means at least 243 |
| Segmentation.ColumnCount | PlateTools.py:105-108 | a column's bright-pixel count is at most the number of rows counted |
| Segmentation.Histogram | PlateTools.py:101-109 | `bar` has one entry per column, each the number of bright pixels in that column |
| Segmentation.Step | PlateTools.py:118-122 | one column either emits the open run `(begin, z)` and closes it, opens a run at `z`, or changes nothing; only an open run is emitted, an open run never closes without being emitted, a run opens only at a full column, and a run is emitted only at a gap column once wider than `min_width` |
| Segmentation.ScanUpTo | PlateTools.py:112-122 | the scan state after the first `n` columns |
| Segmentation.Segments | PlateTools.py:112-124 | the chunks emitted once every column is scanned |
| Segmentation.ScanUpToInv | PlateTools.py:117-122 | after each column, an open run begins at a full column after every emitted chunk, and the emitted chunks are well formed and ordered |
| Segmentation.SegmentsWellFormed | PlateTools.py:112-124 | every chunk `(b, e)` has `e - b > min_width`, `bar[b] > 4` and `bar[e] <= 4`; chunks come left to right, each begin after the previous end |
| Segmentation.NarrowGapKeepsRun | PlateTools.py:118 | a gap column that arrives while the open run is not yet wider than `min_width` does not close the run |
| Segmentation.WideGapClosesRun | PlateTools.py:118-120 | a gap column that arrives while the open run is wider than `min_width` appends `(begin, z)` to the chunks and closes the run |
| Segmentation.FullOpensRun | PlateTools.py:121-122 | a full column with no run open opens a run at that column and emits nothing |
| Segmentation.QuietColumn | PlateTools.py:117-122 | a full column inside an open run, or a gap column with no run open, leaves the scan state unchanged |
| Segmentation.OpenRunDropped | PlateTools.py:116-124 | a run still open after the last column is not emitted: every chunk ends before it began |
| Segmentation.ColumnCounts | PlateTools.py:101-109 | the histogram loop fills `bar` with the bright-pixel count of every column |
| Segmentation.Segment | PlateTools.py:98-124 | the returned chunks are those of the begin/close scan over the column histogram of the image |

## Left out

- The progress output of `sobel` (EdgeData.py:34-47, 101) writes to standard output and is not modelled.
- `sharpen` (PlateTools.py) opens, filters and saves image files through PIL, so it is not modelled.
- `main.py` is a script of file and OCR input and output, and it is not part of this model.
- `math.degrees(math.atan2(sum_y, sum_x))` is floating point. It is the parameter `atan2Deg`, and only the bucketing of its value follows the code.
- `math.sqrt` is modelled as the integer square root. That is what remains once the magnitude is stored into the integer matrix `mags`.
- Gradient.Sobel: `max_mag` is modelled as the largest integer magnitude, the floor of the source's floating-point maximum, because the model has no floating point.
- Gradient.Sobel: `mags` is a copy of an 8-bit image, but the model does not bound pixel values or wrap the stored values. Magnitudes lie in `0..255` anyway.
- Numpy's wrap-around of negative indices is modelled for the kernel reads (`Gradient.Weight`). Every other index the modelled code reads is in range.
- `ndimage.label` and `ndimage.find_objects` are given by their contract (`Labelling.IsLabelling`, `Labelling.TightBox`), not by scipy's algorithm.
- Candidates.FilterRatio takes the labelling as a parameter rather than calling `ndimage.label`.
- Candidates.CountComps takes the labelling as a parameter rather than calling `ndimage.label`.
- Candidates.Ratio: the ratio and `epsilon` are exact reals, so IEEE rounding of `h1 / float(w1)` is not modelled.
- Hysteresis.HystConnect: the set of marked cells is a ghost set that `edges` encodes. The model states closure and reachability, not the exact order in which cells are visited.
- Hysteresis.Hysteresis: `edges` starts as a float matrix of zeros, modelled as integers.
- Dilation.Visit: the "changes exactly when" half is stated for generations `i != 255` only. Generation 255 writes 0, which leaves the grid unchanged.
- Dilation.Pass: the "same cells spread" half is stated for `1 <= i <= 255` only. There the spreading bound `256 - i` is at least 1, so a zero cell does not spread, and neither does the `255 - i` written into it. From generation 256 on a zero cell would spread before it is filled and not after.
- Thresholding.Threshold requires a non-empty sample row inside the image. For other rows numpy wraps negative indices or raises an error, and an empty row divides by zero.
- Candidates.CountComps requires its row to lie inside the image, for the same reason.
- Thresholding.Average: Python 2 integer division floors. For the positive width it agrees with Dafny's `/`.
- Segmentation.Bright compares exactly with the real `255 * 0.95`, so floating-point rounding is not modelled. On integers this means at least 243.
- Segmentation.Segment: `min_width` is an exact real. The only caller passes the float `.05 * target.shape[1]` (main.py:246-247), and IEEE rounding of that product is not modelled.
