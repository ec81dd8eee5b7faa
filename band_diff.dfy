/** `calc_diff`: band after band, window after window, the accumulation of the pixel
    statistics of the base raster against the test raster, and the optional in-memory
    difference raster. */
module BandDiff {
  import opened Models
  import opened Pixels

  /** The test raster can serve every read `calc_diff` makes with the base raster's band
      indices and windows: it has at least as many bands and, when the base has a band to
      read at all, at least the base's extent. */
  predicate TestCoversBase(base: Dataset, test: Dataset) {
    && WellFormed(base) && WellFormed(test)
    && test.props.bands >= base.props.bands
    && (base.props.bands > 0 ==> test.props.height >= base.props.height && test.props.width >= base.props.width)
  }

  /** The nodata value in force for band `bidx`: the band's own entry of `nodatavals`, or the
      dataset's `nodata` when that tuple is empty. */
  function NodataFor(ds: Dataset, bidx: nat): (nd: Option<real>)
    requires WellFormed(ds) && 1 <= bidx <= ds.props.bands
    ensures |ds.nodatavals| > 0 ==> nd == ds.nodatavals[bidx - 1]
    ensures |ds.nodatavals| == 0 ==> nd == ds.props.nodata
  {
    if |ds.nodatavals| > 0 then ds.nodatavals[bidx - 1] else ds.props.nodata
  }

  function PairAt(base: Dataset, test: Dataset, bidx: nat): BandPair
    requires TestCoversBase(base, test) && 1 <= bidx <= base.props.bands
  {
    BandPair(base.pixels[bidx - 1], test.pixels[bidx - 1], NodataFor(base, bidx), NodataFor(test, bidx))
  }

  lemma CellInPair(base: Dataset, test: Dataset, bidx: nat, c: Cell)
    requires TestCoversBase(base, test) && 1 <= bidx <= base.props.bands
    requires c.row < base.props.height && c.col < base.props.width
    ensures InPair(PairAt(base, test, bidx), c)
  {
    assert IsGrid(base.pixels[bidx - 1], base.props.height, base.props.width);
    assert IsGrid(test.pixels[bidx - 1], test.props.height, test.props.width);
  }

  lemma CellsInPair(base: Dataset, test: Dataset, bidx: nat, cells: seq<Cell>)
    requires TestCoversBase(base, test) && 1 <= bidx <= base.props.bands
    requires forall c :: c in cells ==> c.row < base.props.height && c.col < base.props.width
    ensures AllInPair(PairAt(base, test, bidx), cells)
  {
    forall c | c in cells ensures InPair(PairAt(base, test, bidx), c) {
      CellInPair(base, test, bidx, c);
    }
  }

  /** Every cell of the base band's block windows lies inside both bands. */
  lemma WindowCellsInPair(base: Dataset, test: Dataset, bidx: nat)
    requires TestCoversBase(base, test) && 1 <= bidx <= base.props.bands
    ensures AllInPair(PairAt(base, test, bidx), CellsOf(base.blockWindows[bidx - 1]))
  {
    var ws := base.blockWindows[bidx - 1];
    CellsOfMembers(ws);
    forall c | c in CellsOf(ws) ensures c.row < base.props.height && c.col < base.props.width {
      var k :| 0 <= k < |ws| && InWindow(ws[k], c.row, c.col);
      assert WindowWithin(ws[k], base.props.height, base.props.width);
    }
    CellsInPair(base, test, bidx, CellsOf(ws));
  }

  /** One cell of `arr_diff` for band `bidx`. */
  function DiffCell(base: Dataset, test: Dataset, bidx: nat, r: nat, c: nat): Option<real>
    requires TestCoversBase(base, test) && 1 <= bidx <= base.props.bands
    requires r < base.props.height && c < base.props.width
  {
    CellInPair(base, test, bidx, Cell(r, c));
    DiffAt(PairAt(base, test, bidx), Cell(r, c))
  }

  /** One cell of `close_mask` for band `bidx`. */
  predicate CloseCell(base: Dataset, test: Dataset, bidx: nat, tol: Tolerance, r: nat, c: nat)
    requires TestCoversBase(base, test) && 1 <= bidx <= base.props.bands
    requires r < base.props.height && c < base.props.width
  {
    CellInPair(base, test, bidx, Cell(r, c));
    CloseAt(PairAt(base, test, bidx), tol, Cell(r, c))
  }

  /** The masked base and test values of one pixel of band `bidx` agree (both missing counts
      as agreeing). */
  predicate SamePixel(base: Dataset, test: Dataset, bidx: nat, r: nat, c: nat)
    requires TestCoversBase(base, test) && 1 <= bidx <= base.props.bands
    requires r < base.props.height && c < base.props.width
  {
    CellInPair(base, test, bidx, Cell(r, c));
    BaseAt(PairAt(base, test, bidx), Cell(r, c)) == TestAt(PairAt(base, test, bidx), Cell(r, c))
  }

  /** The record `calc_diff` appends for one band. */
  function MakeStats(diffCount: nat, totalCount: nat, maxDiff: real, sumSquaredDiff: real): (s: PixelDiffStats)
    requires totalCount > 0
    ensures s.diffCount == diffCount && s.totalCount == totalCount && s.maxDiff == maxDiff
    ensures s.diffPercent * totalCount as real == 100.0 * diffCount as real
    ensures s.meanSquaredDiff * totalCount as real == sumSquaredDiff
    ensures sumSquaredDiff >= 0.0 ==> s.meanSquaredDiff >= 0.0
  {
    PixelDiffStats(
      diffCount,
      totalCount,
      (diffCount as real / totalCount as real) * 100.0,
      maxDiff,
      sumSquaredDiff / totalCount as real)
  }

  function TotalPixels(ds: Dataset): (n: nat)
    requires WellFormed(ds)
    ensures n > 0
  {
    PositiveProduct(ds.props.width, ds.props.height);
    ds.props.width * ds.props.height
  }

  lemma PositiveProduct(a: nat, b: nat)
    requires a >= 1 && b >= 1
    ensures a * b >= 1
  {
  }

  /** The statistics of band `bidx`: the three reductions over the cells of the base band's
      block windows, in window order, over the band's whole pixel count. */
  function BandStats(base: Dataset, test: Dataset, bidx: nat, tol: Tolerance): (s: PixelDiffStats)
    requires TestCoversBase(base, test) && 1 <= bidx <= base.props.bands
    ensures s.totalCount == base.props.width * base.props.height
    ensures s.diffCount <= |CellsOf(base.blockWindows[bidx - 1])|
    ensures s.maxDiff >= 0.0 && s.meanSquaredDiff >= 0.0
  {
    var p := PairAt(base, test, bidx);
    var cells := CellsOf(base.blockWindows[bidx - 1]);
    WindowCellsInPair(base, test, bidx);
    MakeStats(NotCloseCount(p, tol, cells), TotalPixels(base), MaxAbsDiff(p, cells), SquaredSum(p, cells))
  }

  /** The records of bands 1..n, in band order. */
  function BandsStats(base: Dataset, test: Dataset, tol: Tolerance, n: nat): (r: seq<PixelDiffStats>)
    requires TestCoversBase(base, test) && n <= base.props.bands
    ensures |r| == n
    ensures forall i :: 0 <= i < n ==> r[i] == BandStats(base, test, i + 1, tol)
  {
    if n == 0 then [] else BandsStats(base, test, tol, n - 1) + [BandStats(base, test, n, tol)]
  }

  /** The difference raster's cell (b, r, c) once every band is done: the difference where a
      block window of band b + 1 covers the cell, the initial zero elsewhere. */
  function DiffRasterCell(base: Dataset, test: Dataset, b: nat, r: nat, c: nat): (d: Option<real>)
    requires TestCoversBase(base, test) && b < base.props.bands
    requires r < base.props.height && c < base.props.width
    ensures !Covered(base.blockWindows[b], r, c) ==> d == Some(0.0)
    ensures Covered(base.blockWindows[b], r, c) ==>
              (d.None? <==> NodataFor(base, b + 1) == Some(base.pixels[b][r][c])
                            || NodataFor(test, b + 1) == Some(test.pixels[b][r][c]))
    ensures Covered(base.blockWindows[b], r, c) && d.Some? ==>
              d.value == base.pixels[b][r][c] - test.pixels[b][r][c]
  {
    CellInPair(base, test, b + 1, Cell(r, c));
    if Covered(base.blockWindows[b], r, c) then DiffCell(base, test, b + 1, r, c) else Some(0.0)
  }

  predicate BufferShape(diffData: array3<Option<real>>, base: Dataset) {
    && diffData.Length0 == base.props.bands
    && diffData.Length1 == base.props.height
    && diffData.Length2 == base.props.width
  }

  /** Band index `doneBands` (0-based) is the band in progress and `k` a count of its windows. */
  predicate InProgress(base: Dataset, doneBands: nat, k: nat) {
    doneBands < |base.blockWindows| ==> k <= |base.blockWindows[doneBands]|
  }

  /** The buffer's cell (b, r, c) once planes 0..doneBands - 1 are finished and the first `k`
      block windows of plane doneBands have been written. */
  function PendingCell(base: Dataset, test: Dataset, doneBands: nat, k: nat, b: nat, r: nat, c: nat): Option<real>
    requires TestCoversBase(base, test) && InProgress(base, doneBands, k) && b < base.props.bands
    requires r < base.props.height && c < base.props.width
  {
    if b < doneBands then DiffRasterCell(base, test, b, r, c)
    else if b == doneBands && Covered(base.blockWindows[b][..k], r, c) then DiffCell(base, test, b + 1, r, c)
    else Some(0.0)
  }

  ghost predicate BufferAfter(diffData: array3<Option<real>>, base: Dataset, test: Dataset, doneBands: nat, k: nat)
    reads diffData
    requires TestCoversBase(base, test) && InProgress(base, doneBands, k) && BufferShape(diffData, base)
  {
    forall b, r, c {:trigger PendingCell(base, test, doneBands, k, b, r, c)} ::
      0 <= b < diffData.Length0 && 0 <= r < diffData.Length1 && 0 <= c < diffData.Length2 ==>
        diffData[b, r, c] == PendingCell(base, test, doneBands, k, b, r, c)
  }

  /** `diff_data[bidx - 1, window rows, window columns] = arr_diff` for the k-th block window
      of band `bidx`: the buffer then holds the differences of that window as well. */
  method WriteWindow(diffData: array3<Option<real>>, base: Dataset, test: Dataset, bidx: nat, k: nat)
    requires TestCoversBase(base, test) && 1 <= bidx <= base.props.bands && BufferShape(diffData, base)
    requires k < |base.blockWindows[bidx - 1]|
    requires BufferAfter(diffData, base, test, bidx - 1, k)
    modifies diffData
    ensures BufferAfter(diffData, base, test, bidx - 1, k + 1)
  {
    var windows := base.blockWindows[bidx - 1];
    var w := windows[k];
    assert WindowWithin(w, base.props.height, base.props.width);
    forall r: nat, c: nat | w.rowOff <= r < w.rowOff + w.height && w.colOff <= c < w.colOff + w.width {
      diffData[bidx - 1, r, c] := DiffCell(base, test, bidx, r, c);
    }
    forall b, r, c | 0 <= b < diffData.Length0 && 0 <= r < diffData.Length1 && 0 <= c < diffData.Length2
      ensures diffData[b, r, c] == PendingCell(base, test, bidx - 1, k + 1, b, r, c)
    {
      CoveredStep(windows, k, r, c);
      assert old(diffData[b, r, c]) == PendingCell(base, test, bidx - 1, k, b, r, c);
    }
  }

  /** A band whose windows are all written is a finished band. */
  lemma BufferBandDone(diffData: array3<Option<real>>, base: Dataset, test: Dataset, bidx: nat)
    requires TestCoversBase(base, test) && 1 <= bidx <= base.props.bands && BufferShape(diffData, base)
    requires BufferAfter(diffData, base, test, bidx - 1, |base.blockWindows[bidx - 1]|)
    ensures BufferAfter(diffData, base, test, bidx, 0)
  {
    var windows := base.blockWindows[bidx - 1];
    assert windows[..|windows|] == windows;
    forall b, r, c | 0 <= b < diffData.Length0 && 0 <= r < diffData.Length1 && 0 <= c < diffData.Length2
      ensures diffData[b, r, c] == PendingCell(base, test, bidx, 0, b, r, c)
    {
      assert diffData[b, r, c] == PendingCell(base, test, bidx - 1, |windows|, b, r, c);
    }
  }

  /** The freshly allocated all-zero buffer: no band is done yet. */
  lemma BufferStart(diffData: array3<Option<real>>, base: Dataset, test: Dataset)
    requires TestCoversBase(base, test) && BufferShape(diffData, base)
    requires forall b, r, c :: 0 <= b < diffData.Length0 && 0 <= r < diffData.Length1 && 0 <= c < diffData.Length2 ==>
      diffData[b, r, c] == Some(0.0)
    ensures BufferAfter(diffData, base, test, 0, 0)
  {
    forall b, r, c | 0 <= b < diffData.Length0 && 0 <= r < diffData.Length1 && 0 <= c < diffData.Length2
      ensures diffData[b, r, c] == PendingCell(base, test, 0, 0, b, r, c)
    {
      assert base.blockWindows[b][..0] == [];
    }
  }

  /** Once every band is done, each cell holds the difference raster's value. */
  lemma BufferFinished(diffData: array3<Option<real>>, base: Dataset, test: Dataset)
    requires TestCoversBase(base, test) && BufferShape(diffData, base)
    requires BufferAfter(diffData, base, test, base.props.bands, 0)
    ensures forall b, r, c :: 0 <= b < diffData.Length0 && 0 <= r < diffData.Length1 && 0 <= c < diffData.Length2 ==>
      diffData[b, r, c] == DiffRasterCell(base, test, b, r, c)
  {
    forall b, r, c | 0 <= b < diffData.Length0 && 0 <= r < diffData.Length1 && 0 <= c < diffData.Length2
      ensures diffData[b, r, c] == DiffRasterCell(base, test, b, r, c)
    {
      assert diffData[b, r, c] == PendingCell(base, test, base.props.bands, 0, b, r, c);
    }
  }

  /** The three running values of the band loop. */
  datatype Accumulators = Accumulators(diffCount: nat, maxDiff: real, sumSquaredDiff: real)

  /** The cells of the k-th block window of band `bidx` lie in both bands. */
  lemma WindowInPair(base: Dataset, test: Dataset, bidx: nat, k: nat)
    requires TestCoversBase(base, test) && 1 <= bidx <= base.props.bands
    requires k < |base.blockWindows[bidx - 1]|
    ensures AllInPair(PairAt(base, test, bidx), WindowCells(base.blockWindows[bidx - 1][k]))
  {
    assert WindowWithin(base.blockWindows[bidx - 1][k], base.props.height, base.props.width);
    WindowCellsMembers(base.blockWindows[bidx - 1][k]);
    CellsInPair(base, test, bidx, WindowCells(base.blockWindows[bidx - 1][k]));
  }

  /** The accumulators after the first k block windows of band `bidx`, each window folded in
      the way the band loop does it: add its non-close count, raise the maximum only when the
      window has a finite difference, add its sum of squares. */
  function Fold(base: Dataset, test: Dataset, bidx: nat, tol: Tolerance, k: nat): (acc: Accumulators)
    requires TestCoversBase(base, test) && 1 <= bidx <= base.props.bands
    requires k <= |base.blockWindows[bidx - 1]|
    ensures acc.maxDiff >= 0.0 && acc.sumSquaredDiff >= 0.0
  {
    if k == 0 then Accumulators(0, 0.0, 0.0)
    else
      var acc := Fold(base, test, bidx, tol, k - 1);
      var p, cells := PairAt(base, test, bidx), WindowCells(base.blockWindows[bidx - 1][k - 1]);
      WindowInPair(base, test, bidx, k - 1);
      Accumulators(
        acc.diffCount + NotCloseCount(p, tol, cells),
        if HasFinite(p, cells) then Max(acc.maxDiff, MaxAbsDiff(p, cells)) else acc.maxDiff,
        acc.sumSquaredDiff + SquaredSum(p, cells))
  }

  /** After k windows the accumulators hold the three reductions over the cells of those
      windows: window-by-window accumulation loses and double-counts nothing. */
  lemma {:induction false} FoldIsReduction(base: Dataset, test: Dataset, bidx: nat, tol: Tolerance, k: nat)
    requires TestCoversBase(base, test) && 1 <= bidx <= base.props.bands
    requires k <= |base.blockWindows[bidx - 1]|
    ensures AllInPair(PairAt(base, test, bidx), CellsOf(base.blockWindows[bidx - 1][..k]))
    ensures var acc := Fold(base, test, bidx, tol, k);
            Accumulated(PairAt(base, test, bidx), tol, CellsOf(base.blockWindows[bidx - 1][..k]),
                        acc.diffCount, acc.maxDiff, acc.sumSquaredDiff)
  {
    var ws := base.blockWindows[bidx - 1];
    var p := PairAt(base, test, bidx);
    if k == 0 {
      assert ws[..0] == [];
    } else {
      FoldIsReduction(base, test, bidx, tol, k - 1);
      var acc := Fold(base, test, bidx, tol, k - 1);
      CellsOfStep(ws, k - 1);
      WindowInPair(base, test, bidx, k - 1);
      AccumulateWindow(p, tol, CellsOf(ws[..k - 1]), WindowCells(ws[k - 1]),
                       acc.diffCount, acc.maxDiff, acc.sumSquaredDiff);
    }
  }

  /** One pass of the window loop: mask both sides of the k-th block window of band `bidx`,
      take the difference, write it into plane bidx - 1 of the buffer when there is one, and
      add the window's non-close count, maximum finite |difference| and sum of squares to the
      running values. */
  method DiffWindow(base: Dataset, test: Dataset, bidx: nat, tol: Tolerance, k: nat,
                    diffData: array3?<Option<real>>, diffCount: nat, maxDiff: real, sumSquaredDiff: real)
    returns (diffCount': nat, maxDiff': real, sumSquaredDiff': real)
    requires TestCoversBase(base, test) && 1 <= bidx <= base.props.bands
    requires k < |base.blockWindows[bidx - 1]|
    requires Accumulators(diffCount, maxDiff, sumSquaredDiff) == Fold(base, test, bidx, tol, k)
    requires diffData != null ==> BufferShape(diffData, base) && BufferAfter(diffData, base, test, bidx - 1, k)
    modifies diffData
    ensures Accumulators(diffCount', maxDiff', sumSquaredDiff') == Fold(base, test, bidx, tol, k + 1)
    ensures diffData != null ==> BufferAfter(diffData, base, test, bidx - 1, k + 1)
  {
    var p := PairAt(base, test, bidx);
    var cells := WindowCells(base.blockWindows[bidx - 1][k]);
    WindowInPair(base, test, bidx, k);
    if diffData != null {
      WriteWindow(diffData, base, test, bidx, k);
    }
    diffCount' := diffCount + NotCloseCount(p, tol, cells);
    maxDiff' := maxDiff;
    if HasFinite(p, cells) {
      maxDiff' := Max(maxDiff, MaxAbsDiff(p, cells));
    }
    sumSquaredDiff' := sumSquaredDiff + SquaredSum(p, cells);
  }

  /** The body of the band loop: reset the accumulators, run every block window of the band
      through `DiffWindow`, then turn the totals into the band's record. */
  method DiffBand(base: Dataset, test: Dataset, bidx: nat, tol: Tolerance, diffData: array3?<Option<real>>)
    returns (stats: PixelDiffStats)
    requires TestCoversBase(base, test) && 1 <= bidx <= base.props.bands
    requires diffData != null ==> BufferShape(diffData, base) && BufferAfter(diffData, base, test, bidx - 1, 0)
    modifies diffData
    ensures stats == BandStats(base, test, bidx, tol)
    ensures diffData != null ==> BufferAfter(diffData, base, test, bidx, 0)
  {
    var diffCount: nat := 0;
    var maxDiff := 0.0;
    var sumSquaredDiff := 0.0;
    var windows := base.blockWindows[bidx - 1];
    var k := 0;
    while k < |windows|
      invariant 0 <= k <= |windows|
      invariant Accumulators(diffCount, maxDiff, sumSquaredDiff) == Fold(base, test, bidx, tol, k)
      invariant diffData != null ==> BufferAfter(diffData, base, test, bidx - 1, k)
    {
      diffCount, maxDiff, sumSquaredDiff := DiffWindow(base, test, bidx, tol, k, diffData, diffCount, maxDiff, sumSquaredDiff);
      k := k + 1;
    }
    FoldIsReduction(base, test, bidx, tol, k);
    assert windows[..k] == windows;
    if diffData != null {
      BufferBandDone(diffData, base, test, bidx);
    }
    stats := MakeStats(diffCount, TotalPixels(base), maxDiff, sumSquaredDiff);
  }

  /** `calc_diff`: one record per band of the base raster, in band order, and, when a path
      for the difference raster is given, the (bands, height, width) buffer of base - test
      (missing where either side is missing, zero outside every window) with the profile it
      would be written with: the base profile with dtype float32 and no nodata value. */
  method CalcDiff(base: Dataset, test: Dataset, rtol: real, atol: real, equalNan: bool,
                  diffRasterPath: Option<string>)
    returns (bandsStats: seq<PixelDiffStats>, diffData: array3?<Option<real>>, diffProfile: Option<Profile>)
    requires TestCoversBase(base, test)
    ensures bandsStats == BandsStats(base, test, Tolerance(rtol, atol, equalNan), base.props.bands)
    ensures diffRasterPath.None? ==> diffData == null && diffProfile.None?
    ensures diffRasterPath.Some? ==>
      && diffProfile == Some(ProfileOf(base).(dtype := "float32", nodata := None))
      && diffData != null && fresh(diffData) && BufferShape(diffData, base)
      && forall b, r, c :: 0 <= b < diffData.Length0 && 0 <= r < diffData.Length1 && 0 <= c < diffData.Length2 ==>
           diffData[b, r, c] == DiffRasterCell(base, test, b, r, c)
  {
    var tol := Tolerance(rtol, atol, equalNan);
    bandsStats := [];
    diffData := null;
    diffProfile := None;
    if diffRasterPath.Some? {
      diffProfile := Some(ProfileOf(base).(dtype := "float32", nodata := None));
      diffData := new Option<real>[base.props.bands, base.props.height, base.props.width]((b, r, c) => Some(0.0));
      BufferStart(diffData, base, test);
    }
    var bidx := 1;
    while bidx <= base.props.bands
      invariant 1 <= bidx <= base.props.bands + 1
      invariant bandsStats == BandsStats(base, test, tol, bidx - 1)
      invariant diffRasterPath.None? ==> diffData == null
      invariant diffRasterPath.Some? ==> diffData != null && fresh(diffData) && BufferShape(diffData, base)
      invariant diffData != null ==> BufferShape(diffData, base) && BufferAfter(diffData, base, test, bidx - 1, 0)
    {
      var stats := DiffBand(base, test, bidx, tol, diffData);
      bandsStats := bandsStats + [stats];
      bidx := bidx + 1;
    }
    if diffData != null {
      BufferFinished(diffData, base, test);
    }
  }
}
