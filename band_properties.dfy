/** What the per-band statistics of `calc_diff` mean for the whole band, when the block
    windows of the band tile its grid (every pixel in exactly one window), as the raster
    library's block windows do. */
module BandProperties {
  import opened Models
  import opened Pixels
  import opened BandDiff

  /** The block windows of band `bidx` of `ds` tile its grid. */
  ghost predicate BandTiled(ds: Dataset, bidx: nat)
    requires 1 <= bidx <= |ds.blockWindows|
  {
    Partitions(ds.blockWindows[bidx - 1], ds.props.height, ds.props.width)
  }

  lemma GridCellsInPair(base: Dataset, test: Dataset, bidx: nat)
    requires TestCoversBase(base, test) && 1 <= bidx <= base.props.bands
    ensures AllInPair(PairAt(base, test, bidx), GridCells(base.props.height, base.props.width))
  {
    BlockCellsMembers(0, 0, base.props.height, base.props.width);
    CellsInPair(base, test, bidx, GridCells(base.props.height, base.props.width));
  }

  /** Under tiling, a cell is a cell of the windows exactly when it is a cell of the grid. */
  lemma TiledMembers(ws: seq<Window>, height: nat, width: nat, c: Cell)
    requires Partitions(ws, height, width)
    ensures c in CellsOf(ws) <==> c.row < height && c.col < width
  {
    assert c in CellsOf(ws) <==> c in multiset(CellsOf(ws));
    assert c in GridCells(height, width) <==> c in multiset(GridCells(height, width));
    BlockCellsMembers(0, 0, height, width);
  }

  lemma GridMembers(height: nat, width: nat, r: nat, c: nat)
    ensures Cell(r, c) in GridCells(height, width) <==> r < height && c < width
  {
    BlockCellsMembers(0, 0, height, width);
  }

  /** `diff_count` counts the pixels of the band that are not close, each once, so it is at
      most `total_count`, the band's pixel count. */
  lemma DiffCountOverGrid(base: Dataset, test: Dataset, bidx: nat, tol: Tolerance)
    requires TestCoversBase(base, test) && 1 <= bidx <= base.props.bands && BandTiled(base, bidx)
    ensures AllInPair(PairAt(base, test, bidx), GridCells(base.props.height, base.props.width))
    ensures var s := BandStats(base, test, bidx, tol);
            var grid := GridCells(base.props.height, base.props.width);
            && s.totalCount == |grid| == base.props.height * base.props.width
            && AllInPair(PairAt(base, test, bidx), grid)
            && s.diffCount == NotCloseCount(PairAt(base, test, bidx), tol, grid)
            && s.diffCount <= s.totalCount
  {
    var p := PairAt(base, test, bidx);
    var grid := GridCells(base.props.height, base.props.width);
    WindowCellsInPair(base, test, bidx);
    GridCellsInPair(base, test, bidx);
    NotCloseCountPermutation(p, tol, CellsOf(base.blockWindows[bidx - 1]), grid);
  }

  /** `diff_count` is zero exactly when every pixel of the band is close. */
  lemma DiffCountZeroIff(base: Dataset, test: Dataset, bidx: nat, tol: Tolerance)
    requires TestCoversBase(base, test) && 1 <= bidx <= base.props.bands && BandTiled(base, bidx)
    ensures BandStats(base, test, bidx, tol).diffCount == 0 <==>
              forall r: nat, c: nat | r < base.props.height && c < base.props.width :: CloseCell(base, test, bidx, tol, r, c)
  {
    var p := PairAt(base, test, bidx);
    var grid := GridCells(base.props.height, base.props.width);
    DiffCountOverGrid(base, test, bidx, tol);
    var n := NotCloseCount(p, tol, grid);
    NotCloseCountZeroIff(p, tol, grid);
    if n == 0 {
      forall r: nat, c: nat | r < base.props.height && c < base.props.width
        ensures CloseCell(base, test, bidx, tol, r, c)
      {
        GridMembers(base.props.height, base.props.width, r, c);
      }
    } else {
      var cell :| cell in grid && !CloseAt(p, tol, cell);
      GridMembers(base.props.height, base.props.width, cell.row, cell.col);
      assert !CloseCell(base, test, bidx, tol, cell.row, cell.col);
    }
  }

  /** `diff_percent` is a percentage: between 0 and 100, zero exactly when no pixel differs
      and 100 exactly when every pixel does. */
  lemma DiffPercentBounds(base: Dataset, test: Dataset, bidx: nat, tol: Tolerance)
    requires TestCoversBase(base, test) && 1 <= bidx <= base.props.bands && BandTiled(base, bidx)
    ensures var s := BandStats(base, test, bidx, tol);
            && 0.0 <= s.diffPercent <= 100.0
            && (s.diffPercent == 0.0 <==> s.diffCount == 0)
            && (s.diffPercent == 100.0 <==> s.diffCount == s.totalCount)
  {
    DiffCountOverGrid(base, test, bidx, tol);
    var s := BandStats(base, test, bidx, tol);
    PercentBounds(s.diffCount, s.totalCount);
  }

  lemma PercentBounds(part: nat, whole: nat)
    requires 0 < whole && part <= whole
    ensures 0.0 <= (part as real / whole as real) * 100.0 <= 100.0
    ensures (part as real / whole as real) * 100.0 == 0.0 <==> part == 0
    ensures (part as real / whole as real) * 100.0 == 100.0 <==> part == whole
  {
    var x, w := part as real, whole as real;
    var q := x / w;
    assert q * w == x;
    assert 0.0 <= q by {
      if q < 0.0 { NegativeTimesPositive(q, w); }
    }
    assert q <= 1.0 by {
      if q > 1.0 { AboveOneTimesPositive(q, w); }
    }
  }

  lemma NegativeTimesPositive(q: real, w: real)
    requires q < 0.0 && w > 0.0
    ensures q * w < 0.0
  {
  }

  lemma AboveOneTimesPositive(q: real, w: real)
    requires q > 1.0 && w > 0.0
    ensures q * w > w
  {
    assert (q - 1.0) * w > 0.0;
  }

  /** `max_diff` is the largest absolute difference over the pixels present on both sides,
      and zero when there is none. */
  lemma MaxDiffOverGrid(base: Dataset, test: Dataset, bidx: nat, tol: Tolerance)
    requires TestCoversBase(base, test) && 1 <= bidx <= base.props.bands && BandTiled(base, bidx)
    ensures var m := BandStats(base, test, bidx, tol).maxDiff;
            && m >= 0.0
            && (forall r: nat, c: nat | r < base.props.height && c < base.props.width && DiffCell(base, test, bidx, r, c).Some? ::
                  Abs(DiffCell(base, test, bidx, r, c).value) <= m)
            && (m == 0.0 || exists r: nat, c: nat | r < base.props.height && c < base.props.width ::
                  DiffCell(base, test, bidx, r, c).Some? && Abs(DiffCell(base, test, bidx, r, c).value) == m)
  {
    var p := PairAt(base, test, bidx);
    var ws := base.blockWindows[bidx - 1];
    var m := BandStats(base, test, bidx, tol).maxDiff;
    WindowCellsInPair(base, test, bidx);
    assert m == MaxAbsDiff(p, CellsOf(ws));
    MaxAbsDiffBounds(p, CellsOf(ws));
    forall r: nat, c: nat | r < base.props.height && c < base.props.width && DiffCell(base, test, bidx, r, c).Some?
      ensures Abs(DiffCell(base, test, bidx, r, c).value) <= m
    {
      TiledMembers(ws, base.props.height, base.props.width, Cell(r, c));
    }
    if m != 0.0 {
      var cell :| cell in CellsOf(ws) && DiffAt(p, cell).Some? && Abs(DiffAt(p, cell).value) == m;
      TiledMembers(ws, base.props.height, base.props.width, cell);
      assert DiffCell(base, test, bidx, cell.row, cell.col) == DiffAt(p, cell);
    }
  }

  /** `meanSquaredDiff` (the square of the reported RMSE) is the sum of squared differences
      over the band's pixels divided by the band's pixel count; it is never negative, and zero
      exactly when that sum is. */
  lemma MeanSquaredDiffOverGrid(base: Dataset, test: Dataset, bidx: nat, tol: Tolerance)
    requires TestCoversBase(base, test) && 1 <= bidx <= base.props.bands && BandTiled(base, bidx)
    ensures AllInPair(PairAt(base, test, bidx), GridCells(base.props.height, base.props.width))
    ensures var s := BandStats(base, test, bidx, tol);
            var grid := GridCells(base.props.height, base.props.width);
            && AllInPair(PairAt(base, test, bidx), grid)
            && s.meanSquaredDiff == SquaredSum(PairAt(base, test, bidx), grid) / s.totalCount as real
            && s.meanSquaredDiff >= 0.0
            && (s.meanSquaredDiff == 0.0 <==> SquaredSum(PairAt(base, test, bidx), grid) == 0.0)
  {
    var p := PairAt(base, test, bidx);
    var grid := GridCells(base.props.height, base.props.width);
    var s := BandStats(base, test, bidx, tol);
    WindowCellsInPair(base, test, bidx);
    GridCellsInPair(base, test, bidx);
    var cells := CellsOf(base.blockWindows[bidx - 1]);
    SquaredSumPermutation(p, cells, grid);
    var sum := SquaredSum(p, grid);
    assert s.totalCount == TotalPixels(base);
    assert s.meanSquaredDiff == sum / s.totalCount as real;
    QuotientFacts(s.meanSquaredDiff, sum, s.totalCount);
  }

  lemma QuotientFacts(q: real, x: real, n: nat)
    requires n > 0 && x >= 0.0 && q == x / n as real
    ensures q >= 0.0
    ensures q == 0.0 <==> x == 0.0
  {
  }

  /** `meanSquaredDiff` is zero exactly when every pixel present on both sides has a zero
      difference. */
  lemma MeanSquaredDiffZeroIff(base: Dataset, test: Dataset, bidx: nat, tol: Tolerance)
    requires TestCoversBase(base, test) && 1 <= bidx <= base.props.bands && BandTiled(base, bidx)
    ensures BandStats(base, test, bidx, tol).meanSquaredDiff == 0.0 <==>
              forall r: nat, c: nat | r < base.props.height && c < base.props.width && DiffCell(base, test, bidx, r, c).Some? ::
                DiffCell(base, test, bidx, r, c).value == 0.0
  {
    var p := PairAt(base, test, bidx);
    var grid := GridCells(base.props.height, base.props.width);
    var s := BandStats(base, test, bidx, tol);
    MeanSquaredDiffOverGrid(base, test, bidx, tol);
    var sum := SquaredSum(p, grid);
    SquaredSumZeroIff(p, grid);
    if sum == 0.0 {
      forall r: nat, c: nat | r < base.props.height && c < base.props.width && DiffCell(base, test, bidx, r, c).Some?
        ensures DiffCell(base, test, bidx, r, c).value == 0.0
      {
        GridMembers(base.props.height, base.props.width, r, c);
      }
    } else {
      var cell :| cell in grid && DiffAt(p, cell).Some? && DiffAt(p, cell).value != 0.0;
      GridMembers(base.props.height, base.props.width, cell.row, cell.col);
      assert DiffCell(base, test, bidx, cell.row, cell.col) == DiffAt(p, cell);
    }
  }

  /** A band compared with itself under non-negative tolerances and `equal_nan` has no
      differing pixel, a zero maximum and a zero mean square; no tiling is needed. */
  lemma SelfComparisonIsZero(ds: Dataset, bidx: nat, rtol: real, atol: real)
    requires WellFormed(ds) && 1 <= bidx <= ds.props.bands
    requires rtol >= 0.0 && atol >= 0.0
    ensures var s := BandStats(ds, ds, bidx, Tolerance(rtol, atol, true));
            s.diffCount == 0 && s.diffPercent == 0.0 && s.maxDiff == 0.0 && s.meanSquaredDiff == 0.0
  {
    var tol := Tolerance(rtol, atol, true);
    var p := PairAt(ds, ds, bidx);
    var cells := CellsOf(ds.blockWindows[bidx - 1]);
    WindowCellsInPair(ds, ds, bidx);
    forall c | c in cells ensures CloseAt(p, tol, c) && (DiffAt(p, c).Some? ==> DiffAt(p, c).value == 0.0) {
      assert p.base == p.test && p.ndBase == p.ndTest;
    }
    NotCloseCountZeroIff(p, tol, cells);
    SquaredSumZeroIff(p, cells);
    MaxAbsDiffBounds(p, cells);
  }

  /** Under tiling, every cell of the difference raster of band b + 1 holds base - test. */
  lemma DiffRasterUnderTiling(base: Dataset, test: Dataset, b: nat, r: nat, c: nat)
    requires TestCoversBase(base, test) && b < base.props.bands && BandTiled(base, b + 1)
    requires r < base.props.height && c < base.props.width
    ensures DiffRasterCell(base, test, b, r, c) == DiffCell(base, test, b + 1, r, c)
  {
    CoveredIsMember(base.blockWindows[b], r, c);
    TiledMembers(base.blockWindows[b], base.props.height, base.props.width, Cell(r, c));
  }
}
