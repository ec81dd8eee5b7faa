# rio-diff pixel comparison, modelled in Dafny

rio-diff compares two raster files: a *base* raster and a *test* raster. This project models the
comparison engine in `rio_diff/compare.py`, which has three parts:

- **`calc_diff`** walks the bands of the base raster. Within each band it walks the band's block
  windows. For each window it:
  - masks the nodata cells of each side as missing;
  - takes the signed difference base - test;
  - optionally writes that difference into a `(bands, height, width)` buffer that starts at zero;
  - accumulates three running values: the number of cells that fail numpy's `isclose` rule, the
    largest finite |difference|, and the NaN-skipping sum of squared differences.

  At the end of each band it emits one `PixelDiffStats` record.
- **`is_compatible_rasters`** is the gate that decides whether the pixel comparison runs.
- **`compare_rasters`** builds one (equal, base, test) record per raster property. It attaches the
  per-band statistics only when the gate lets the pair through.

The raster library is abstracted away. An open dataset is a value (`Models.Dataset`) with these
parts:

- the properties `read_raster_props` collects;
- the per-band nodata tuple;
- every band's pixels as a grid of reals;
- every band's block windows;
- the remaining profile entries.

A missing (NaN) cell is `None`.

The modules follow the structure of the program:

- `Models` (`models.dfy`) holds the value types of `rio_diff/models.py`.
- `Pixels` (`pixels.dfy`) holds the per-cell semantics (mask, subtract, `isclose`). It also holds
  the three reductions over a list of cells, and the cells of windows and grids.
- `BandDiff` (`band_diff.dfy`) holds `calc_diff`. It is imperative, like the source:
  - `CalcDiff` loops over the bands.
  - `DiffBand` loops over the windows of one band.
  - `DiffWindow` is one pass of that loop.
  - `WriteWindow` is the slice assignment into the `array3` buffer.

  Each method is proved against a specification function. `BandStats` gives a band's record.
  `Fold` gives the running values after k windows. `BufferAfter` gives the buffer contents after
  k windows of the current band.
- `BandProperties` (`band_properties.dfy`) states what a band's record means when the block windows
  partition the band.
- `Compare` (`compare.dfy`) holds the gate (as written and as documented) and `compare_rasters`.
  It also has the end-to-end lemmas.

`calc_diff` needs the test raster to serve every read made with the base raster's band indices and
windows (`BandDiff.TestCoversBase`). This means at least as many bands and, when the base has a band
at all, at least the base's height and width. That is weaker than equal shape, so it also covers the
larger test rasters that the gate lets through. A base without bands makes no read, so any test
raster serves it.

`compare_rasters` returns a `Result`, and the file digests are parameters. When the gate passes a
pair that `calc_diff` cannot compare, the model returns an error value:

- `Failure(MissingBand)` when the test raster has fewer bands than the base. The program fails here
  too: at the first missing band, `test_ds.nodatavals[bidx - 1]` (`rio_diff/compare.py:80`) indexes
  past the end of the test raster's nodata tuple.
- `Failure(SmallerExtent)` when the test raster has the bands but a smaller height or width. What
  the program does then depends on the raster library and numpy, which are not part of this model
  (see "Left out").

Where the documentation and the code disagree, the model follows the code:

- The `calc_diff` docstring says the first raster is subtracted from the second. The code
  computes base - test (`rio_diff/compare.py:96`), and so does the model.
- The `is_compatible_rasters` docstring lists four criteria to consider. The code joins them with
  `or` (`rio_diff/compare.py:36-41`). The model keeps the `or` in `Compare.IsCompatibleRasters`
  and states the all-match reading separately (see Findings).
- `rio_diff/models.py` does not define `PixelDiffStats`, although `rio_diff/compare.py:111` uses
  it. The model defines it from the fields given at `rio_diff/compare.py:111-117`.
- `rio_diff/models.py` types `RasterDiff.pixel_values` as `bool`, but it is assigned a list or
  `None` (`rio_diff/compare.py:134-136`). The model types it `Option<seq<PixelDiffStats>>`.
- `rio_diff/models.py` types `RasterProps.metadata` as a list, but `read_raster_props` stores a
  tag dictionary there. The model uses `map<string, string>`.

## Model

| member | source | states |
|---|---|---|
| Pixels.Mask | rio_diff/compare.py:86-94 | a cell becomes missing exactly when the band has a nodata value and the cell equals it; otherwise it keeps its value |
| Pixels.Subtract | rio_diff/compare.py:96 | the difference is present exactly when both sides are, and then base = test + difference |
| Pixels.IsClose | rio_diff/compare.py:102 | a cell missing on one side only is never close; two missing cells are close iff `equal_nan`; equal present values are close under non-negative tolerances; with rtol = 0 closeness is abs(a - b) <= atol |
| Pixels.CloseAtCharacterization | rio_diff/compare.py:86-102 | a cell is close iff both sides are present and `abs(b - t) <= atol + rtol * abs(t)`, or both are nodata and `equal_nan` holds; a cell missing on one side is never close; the difference is present iff both sides are, and is then b - t |
| Pixels.ExactCloseIsEqual | rio_diff/compare.py:50-52 | under the default tolerances (rtol = atol = 0, equal_nan), two masked cells are close exactly when they are equal, two missing cells included |
| Pixels.NotCloseCount | rio_diff/compare.py:102-103 | the count of non-close cells is at most the number of cells |
| Pixels.NotCloseCountZeroIff | rio_diff/compare.py:102-103 | the count is zero iff every cell is close |
| Pixels.SquaredSum | rio_diff/compare.py:109 | the NaN-skipping sum of squares is never negative |
| Pixels.SquaredSumZeroIff | rio_diff/compare.py:109 | the sum of squares is zero iff every cell present on both sides has a zero difference |
| Pixels.SquareFacts | rio_diff/compare.py:109 | one term of the sum is non-negative, and zero iff the difference is missing or zero |
| Pixels.MaxAbsDiff | rio_diff/compare.py:105-107 | the running maximum of the finite abs(difference) is never negative |
| Pixels.MaxAbsDiffBounds | rio_diff/compare.py:105-107 | the maximum bounds abs(difference) at every cell present on both sides, and it is 0 or attained at such a cell |
| Pixels.HasFiniteIff | rio_diff/compare.py:105-106 | `diff_finite.size > 0` iff some cell of the window is present on both sides |
| Pixels.MaxAbsDiffWithoutFinite | rio_diff/compare.py:105-107 | a window without a finite difference has maximum 0, so skipping it leaves the running maximum unchanged |
| Pixels.NotCloseCountConcat | rio_diff/compare.py:103 | counting window by window adds up to counting the windows' cells together |
| Pixels.SquaredSumConcat | rio_diff/compare.py:109 | summing window by window adds up to summing the windows' cells together |
| Pixels.MaxAbsDiffConcat | rio_diff/compare.py:107 | the maximum over two windows is the larger of the two maxima |
| Pixels.AccumulateWindow | rio_diff/compare.py:102-109 | folding one window into running values that hold the reductions over the earlier cells yields the reductions over the earlier cells and the window's cells |
| Pixels.NotCloseCountPermutation | rio_diff/compare.py:103 | the count of non-close cells depends only on the multiset of cells, not on the window order |
| Pixels.SquaredSumPermutation | rio_diff/compare.py:109 | the sum of squares depends only on the multiset of cells |
| Pixels.RowCellsMembers | rio_diff/compare.py:99-100 | a row slice holds exactly the pixels of that row in the column range |
| Pixels.BlockCellsMembers | rio_diff/compare.py:99-100 | a block holds exactly the pixels inside the rectangle |
| Pixels.WindowCellsMembers | rio_diff/compare.py:99-100 | a window's cells are exactly the pixels at its row and column offsets within its height and width |
| Pixels.CellsOfMembers | rio_diff/compare.py:82 | a cell is visited by the window loop iff some block window holds it |
| Pixels.CoveredIsMember | rio_diff/compare.py:82 | a pixel is covered by the windows iff it is among their cells |
| Pixels.CoveredStep | rio_diff/compare.py:98-100 | the next window adds exactly its own pixels to the covered pixels |
| Pixels.CellsOfStep | rio_diff/compare.py:82 | the cells of k + 1 windows are the cells of k windows followed by the next window's |
| BandDiff.NodataFor | rio_diff/compare.py:79-80 | the nodata value of band bidx is the band's entry of `nodatavals` when the tuple has entries, and the dataset's `nodata` otherwise |
| BandDiff.WindowCellsInPair | rio_diff/compare.py:83-84 | every read the window loop makes lies inside both bands when the test raster covers the base |
| BandDiff.WindowInPair | rio_diff/compare.py:83-84 | the reads of the k-th window lie inside both bands |
| BandDiff.TotalPixels | rio_diff/compare.py:72 | `total_pixels` is positive, so every division by it is defined |
| BandDiff.MakeStats | rio_diff/compare.py:111-117 | the record keeps the count, the pixel total and the maximum; `diff_percent` * total = 100 * `diff_count`; the squared RMSE * total = the sum of squares, and it is non-negative when the sum is |
| BandDiff.BandStats | rio_diff/compare.py:74-117 | a band's record has `total_count` = width * height, a `diff_count` no larger than the number of cells the windows visit, and a non-negative `max_diff` and squared RMSE, whatever the windows |
| BandDiff.DiffRasterCell | rio_diff/compare.py:64-100 | a cell of the final difference raster is 0 where no window of its band covers it; where one does, it is missing exactly when either side equals its band's nodata value, and otherwise holds base - test of the raw pixel values |
| BandDiff.BandsStats | rio_diff/compare.py:111-117 | the result has one record per band, and entry i is band i + 1's record |
| BandDiff.WriteWindow | rio_diff/compare.py:98-100 | the slice assignment turns the buffer after k windows of the band into the buffer after k + 1 windows: the window's cells of plane bidx - 1 now hold base - test, and every other cell is unchanged |
| BandDiff.BufferStart | rio_diff/compare.py:70 | the zero-filled buffer is the buffer before any window is written |
| BandDiff.BufferBandDone | rio_diff/compare.py:82-100 | once all of a band's windows are written, the band's plane is finished and the next plane is still untouched |
| BandDiff.BufferFinished | rio_diff/compare.py:64-100 | once every band is done, each cell holds base - test where a window of its band covers it (missing where either side is) and 0 elsewhere |
| BandDiff.Fold | rio_diff/compare.py:75-109 | the running maximum and the running sum of squares after any number of windows are non-negative |
| BandDiff.FoldIsReduction | rio_diff/compare.py:75-109 | after k windows, the running values are the non-close count, the largest finite abs(difference) and the sum of squares over the cells of those k windows |
| BandDiff.DiffWindow | rio_diff/compare.py:82-109 | one pass of the window loop takes the running values from those after k windows to those after k + 1 windows, and advances the buffer by one window |
| BandDiff.DiffBand | rio_diff/compare.py:74-117 | with the accumulators reset to zero, the band loop produces exactly the band's record, and leaves the band's plane of the buffer finished |
| BandDiff.CalcDiff | rio_diff/compare.py:46-124 | `calc_diff` returns the records of bands 1..count in order. Without a path it allocates no buffer and no profile. With a path, the profile is the base profile with dtype float32 and no nodata, and the fresh (count, height, width) buffer holds the difference raster |
| BandProperties.DiffCountOverGrid | rio_diff/compare.py:111-113 | under a partition, `total_count` is width * height whatever is missing, `diff_count` counts the non-close pixels of the grid once each, and `diff_count <= total_count` |
| BandProperties.DiffCountZeroIff | rio_diff/compare.py:102-103 | under a partition, `diff_count` is zero iff every pixel of the band is close |
| BandProperties.DiffPercentBounds | rio_diff/compare.py:114 | `diff_percent` lies in [0, 100], and is 0 iff nothing differs and 100 iff every pixel differs |
| BandProperties.MaxDiffOverGrid | rio_diff/compare.py:105-115 | under a partition, `max_diff` is non-negative, bounds abs(base - test) at every pixel present on both sides, and is 0 or attained at such a pixel |
| BandProperties.MeanSquaredDiffOverGrid | rio_diff/compare.py:109-116 | under a partition, the squared RMSE is the sum of squares over the grid divided by the pixel count; it is non-negative, and zero iff that sum is |
| BandProperties.MeanSquaredDiffZeroIff | rio_diff/compare.py:109-116 | the squared RMSE is zero iff every pixel present on both sides has base = test |
| BandProperties.SelfComparisonIsZero | rio_diff/compare.py:74-117 | a band compared with itself, with non-negative tolerances and `equal_nan`, has `diff_count` 0, `diff_percent` 0, `max_diff` 0 and RMSE 0, whatever its windows |
| BandProperties.DiffRasterUnderTiling | rio_diff/compare.py:98-100 | under a partition, every cell of the difference raster holds base - test of its band |
| Compare.IncompatibleOnlyWhenAllDiffer | rio_diff/compare.py:36-43 | the gate as written returns false exactly when shape, band count, transform and CRS all differ |
| Compare.IsCompatibleRasters | rio_diff/compare.py:36-43 | the gate as written (any one of shape, band count, transform or CRS equal) passes every pair the documented gate passes |
| Compare.IsCompatibleAllMatch | rio_diff/compare.py:27-33 | the documented gate (all four equal) only passes pairs whose test raster can serve every read `calc_diff` makes |
| Compare.GatesSymmetric | rio_diff/compare.py:26-43 | both gates are symmetric in their two rasters |
| Compare.Report | rio_diff/compare.py:138-200 | each of the twelve records holds the base and test values and says equal exactly when they are equal; `pixel_values` is passed through |
| Compare.CompareWith | rio_diff/compare.py:134-200 | with a given gate: the comparison fails iff the gate passes on a pair the test cannot serve, with `MissingBand` iff the test has fewer bands; otherwise the records are exact and `pixel_values` is present iff the gate passes, holding one exact-tolerance record per base band |
| Compare.CompareRasters | rio_diff/compare.py:127-200 | `compare_rasters` as written: it fails only when the `or` gate passes on a pair the test cannot serve, with `MissingBand` iff the test has fewer bands; otherwise every record's `equal` is base = test, and `pixel_values` is None iff `is_compatible_rasters` is false |
| Compare.CompareRastersAllMatch | rio_diff/compare.py:127-200 | with the documented gate, `compare_rasters` never fails, and its pixel statistics are present exactly for pairs with equal shape, band count, transform and CRS |
| Compare.ZeroDiffCountIffSamePixels | rio_diff/compare.py:134-136 | in the report of `compare_rasters`, a band has `diff_count` 0 iff every pixel has the same masked value on both sides (under a partition) |
| Compare.SelfComparison | rio_diff/compare.py:127-200 | a raster compared with itself: every record says equal, and `pixel_values` holds one all-zero record per band |
| Compare.NoBandsNeverFail | rio_diff/compare.py:74 | a base raster without bands is compared with any test raster without failing, and its pixel statistics, when the gate passes, are empty |
| Compare.OrGateAdmitsMissingBand | rio_diff/compare.py:36-43 | the gate as written passes a two-band 2 x 2 raster against a one-band 2 x 2 raster of the same CRS and transform, and `compare_rasters` then fails with `MissingBand`; the all-match gate rejects the pair and the report has no pixel statistics |

## Left out

- Raster I/O is not modelled. Opening files, `read`, `block_windows`, `profile`, `tags`, `stats`,
  `nodatavals`, `mkdir` and writing the difference raster are foreign calls. A dataset is a value
  carrying what those calls return. `BandDiff.CalcDiff` returns the buffer and its profile instead
  of writing them.
- MD5 hashing (`rio_diff/utils.py`) is not modelled. The two digests are parameters of
  `Compare.CompareRasters`.
- `read_raster_props` is not modelled: the properties are a field of the dataset. `main.py` and
  `rio_diff/scripts/cli.py` (the command line and its printing) are not part of this model.
- Floating point is not modelled. Pixel values and statistics are exact reals. float32 rounding,
  the `float32` cast of masked bands and numpy integer wrap-around on unmasked integer bands are
  left out.
- NaN is not modelled as a value. Missing cells are `None`, so a NaN already stored in a band
  without a nodata value is not represented.
- Compare.SelfComparison: NaN nodata values and NaN band statistics are outside the model. With a
  NaN nodata value the program masks nothing (`arr_base == nd_base` is false for NaN at
  `rio_diff/compare.py:87`), and a raster compared with itself gets `nodata.equal = False`, because
  NaN is not equal to NaN (`rio_diff/compare.py:165`). NaN statistics make `stats.equal` false in
  the same way. The lemma says every record is equal, which holds only for NaN-free properties.
- BandDiff.DiffBand: the record's last field is the mean squared difference (the RMSE squared).
  The square root is not modelled.
- Compare.CompareRasters, Compare.CompareWith, Compare.OrGateAdmitsMissingBand: a failure is an
  error value, not an exception. For a test raster with fewer bands, `Failure(MissingBand)` stands
  for the `IndexError` at `rio_diff/compare.py:80`. For a test raster with all the bands but a
  smaller height or width, the model returns `Failure(SmallerExtent)`. The program's real behaviour
  there is not modelled. The raster library may crop the window. numpy may then broadcast a 1 x 1
  block against the base block, so every base pixel is compared with one test pixel. Or numpy may
  raise `ValueError` at line 96.
- A test raster larger than the base is read on the base's windows, as in the source. The grid
  properties in `BandProperties` assume that a band's block windows partition it
  (`BandTiled`). The raster library guarantees this, but the model takes it as a hypothesis.

## Findings

| source | as written | input that shows it | evidently intended | confidence | as-written member | corrected member |
|---|---|---|---|---|---|---|
| rio_diff/compare.py:36-41 | the pair is compatible when ANY of shape, band count, transform or CRS match | a two-band 2 x 2 base and a one-band 2 x 2 test with the same CRS and transform: the gate passes on shape, and at band 2 `test_ds.nodatavals[1]` (line 80) is out of range | all four criteria of the docstring (lines 27-33) must match | not executed | Compare.OrGateAdmitsMissingBand | Compare.CompareRastersAllMatch |
