/** Per-pixel semantics of the comparison (nodata masking, signed difference, numpy's
    `isclose` rule) and the three reductions `calc_diff` accumulates over the cells of a
    band: the count of cells that are not close, the maximum finite absolute difference
    and the NaN-skipping sum of squared differences. */
module Pixels {
  import opened Models

  /** The tolerance arguments of `calc_diff`. */
  datatype Tolerance = Tolerance(rtol: real, atol: real, equalNan: bool)

  /** The two bands compared at one band index, each with the nodata value in force for it. */
  datatype BandPair = BandPair(base: Grid, test: Grid, ndBase: Option<real>, ndTest: Option<real>)

  function Abs(x: real): real {
    if x < 0.0 then -x else x
  }

  function Max(x: real, y: real): real {
    if x < y then y else x
  }

  /** A cell equal to the band's nodata value becomes missing (NaN in the source). */
  function Mask(v: real, nodata: Option<real>): (m: Option<real>)
    ensures m.None? <==> nodata == Some(v)
    ensures m.Some? ==> m.value == v
  {
    if nodata.Some? && v == nodata.value then None else Some(v)
  }

  /** base - test; a missing operand gives a missing difference. */
  function Subtract(a: Option<real>, b: Option<real>): (d: Option<real>)
    ensures d.Some? <==> a.Some? && b.Some?
    ensures d.Some? ==> a.value == b.value + d.value
  {
    if a.Some? && b.Some? then Some(a.value - b.value) else None
  }

  /** numpy's `isclose(a, b, rtol, atol, equal_nan)`: |a - b| <= atol + rtol * |b| for two
      values, `equal_nan` for two missing cells, never for one missing cell. */
  predicate IsClose(a: Option<real>, b: Option<real>, tol: Tolerance): (close: bool)
    ensures a.Some? != b.Some? ==> !close
    ensures a.None? && b.None? ==> (close <==> tol.equalNan)
    ensures a.Some? && b.Some? && a.value == b.value && tol.rtol >= 0.0 && tol.atol >= 0.0 ==> close
    ensures a.Some? && b.Some? && tol.rtol == 0.0 ==> (close <==> Abs(a.value - b.value) <= tol.atol)
  {
    match (a, b)
    case (Some(x), Some(y)) => Abs(x - y) <= tol.atol + tol.rtol * Abs(y)
    case (None, None) => tol.equalNan
    case _ => false
  }

  /** Real multiplication, kept behind a function so that the solver treats a square as
      one term. */
  function Mul(a: real, b: real): real {
    a * b
  }

  /** numpy's `nansum` term: a missing difference contributes nothing. */
  function SquareOrZero(d: Option<real>): real {
    if d.Some? then Mul(d.value, d.value) else 0.0
  }

  predicate InBand(g: Grid, c: Cell) {
    c.row < |g| && c.col < |g[c.row]|
  }

  predicate InPair(p: BandPair, c: Cell) {
    InBand(p.base, c) && InBand(p.test, c)
  }

  predicate AllInPair(p: BandPair, cells: seq<Cell>) {
    forall c :: c in cells ==> InPair(p, c)
  }

  function BaseAt(p: BandPair, c: Cell): Option<real>
    requires InPair(p, c)
  {
    Mask(p.base[c.row][c.col], p.ndBase)
  }

  function TestAt(p: BandPair, c: Cell): Option<real>
    requires InPair(p, c)
  {
    Mask(p.test[c.row][c.col], p.ndTest)
  }

  /** The cell of `arr_diff`. */
  function DiffAt(p: BandPair, c: Cell): Option<real>
    requires InPair(p, c)
  {
    Subtract(BaseAt(p, c), TestAt(p, c))
  }

  /** The cell of `close_mask`. */
  predicate CloseAt(p: BandPair, tol: Tolerance, c: Cell)
    requires InPair(p, c)
  {
    IsClose(BaseAt(p, c), TestAt(p, c), tol)
  }

  /** The closeness of one cell in terms of the raw pixel values and the nodata values:
      present on both sides and within tolerance, or missing on both sides under
      `equal_nan`; a cell missing on one side only is never close. */
  lemma CloseAtCharacterization(p: BandPair, tol: Tolerance, c: Cell)
    requires InPair(p, c)
    ensures var b, t := p.base[c.row][c.col], p.test[c.row][c.col];
            var missingB := p.ndBase.Some? && b == p.ndBase.value;
            var missingT := p.ndTest.Some? && t == p.ndTest.value;
            CloseAt(p, tol, c) <==>
              || (!missingB && !missingT && Abs(b - t) <= tol.atol + tol.rtol * Abs(t))
              || (missingB && missingT && tol.equalNan)
    ensures DiffAt(p, c).Some? <==> BaseAt(p, c).Some? && TestAt(p, c).Some?
    ensures DiffAt(p, c).Some? ==> DiffAt(p, c).value == p.base[c.row][c.col] - p.test[c.row][c.col]
  {
  }

  /** With zero tolerances and `equal_nan`, the tolerances `compare_rasters` uses, two cells
      are close exactly when their masked values are equal (two missing cells included). */
  lemma ExactCloseIsEqual(a: Option<real>, b: Option<real>)
    ensures IsClose(a, b, Tolerance(0.0, 0.0, true)) <==> a == b
  {
    if a.Some? && b.Some? {
      assert Abs(a.value - b.value) <= 0.0 <==> a.value == b.value;
    }
  }

  // ---------------------------------------------------------------------------
  // Reductions over a list of cells
  // ---------------------------------------------------------------------------

  /** `np.sum(~close_mask)`: how many of the cells are not close. */
  function NotCloseCount(p: BandPair, tol: Tolerance, cells: seq<Cell>): (n: nat)
    requires AllInPair(p, cells)
    ensures n <= |cells|
  {
    if |cells| == 0 then 0
    else (if CloseAt(p, tol, cells[0]) then 0 else 1) + NotCloseCount(p, tol, cells[1..])
  }

  /** No cell is counted exactly when every cell is close. */
  lemma {:induction false} NotCloseCountZeroIff(p: BandPair, tol: Tolerance, cells: seq<Cell>)
    requires AllInPair(p, cells)
    ensures NotCloseCount(p, tol, cells) == 0 <==> forall c :: c in cells ==> CloseAt(p, tol, c)
  {
    if |cells| > 0 {
      NotCloseCountZeroIff(p, tol, cells[1..]);
      assert cells == [cells[0]] + cells[1..];
    }
  }

  /** `nansum(arr_diff ** 2)`: squared differences of the cells present on both sides. */
  function SquaredSum(p: BandPair, cells: seq<Cell>): (s: real)
    requires AllInPair(p, cells)
    ensures s >= 0.0
  {
    if |cells| == 0 then 0.0
    else
      SquareFacts(DiffAt(p, cells[0]));
      SquareOrZero(DiffAt(p, cells[0])) + SquaredSum(p, cells[1..])
  }

  /** The sum of squares is zero exactly when every cell present on both sides has a zero
      difference. */
  lemma {:induction false} SquaredSumZeroIff(p: BandPair, cells: seq<Cell>)
    requires AllInPair(p, cells)
    ensures SquaredSum(p, cells) == 0.0 <==> forall c :: c in cells && DiffAt(p, c).Some? ==> DiffAt(p, c).value == 0.0
  {
    if |cells| > 0 {
      SquaredSumZeroIff(p, cells[1..]);
      SquareFacts(DiffAt(p, cells[0]));
      assert cells == [cells[0]] + cells[1..];
    }
  }

  lemma SquareFacts(d: Option<real>)
    ensures SquareOrZero(d) >= 0.0
    ensures SquareOrZero(d) == 0.0 <==> d.None? || d.value == 0.0
  {
    if d.Some? {
      var x := d.value;
      if x > 0.0 { ProductOfPositives(x, x); } else if x < 0.0 { ProductOfNegatives(x, x); }
    }
  }

  lemma ProductOfPositives(a: real, b: real)
    requires a > 0.0 && b > 0.0
    ensures Mul(a, b) > 0.0
  {
  }

  lemma ProductOfNegatives(a: real, b: real)
    requires a < 0.0 && b < 0.0
    ensures Mul(a, b) > 0.0
  {
  }

  /** The running maximum of the finite |arr_diff|, starting from zero. */
  function MaxAbsDiff(p: BandPair, cells: seq<Cell>): (m: real)
    requires AllInPair(p, cells)
    ensures m >= 0.0
  {
    if |cells| == 0 then 0.0
    else
      var rest := MaxAbsDiff(p, cells[1..]);
      var d := DiffAt(p, cells[0]);
      if d.Some? && rest < Abs(d.value) then Abs(d.value) else rest
  }

  /** The maximum bounds the absolute difference of every cell present on both sides, and
      it is zero or attained by such a cell. */
  lemma {:induction false} MaxAbsDiffBounds(p: BandPair, cells: seq<Cell>)
    requires AllInPair(p, cells)
    ensures forall c :: c in cells && DiffAt(p, c).Some? ==> Abs(DiffAt(p, c).value) <= MaxAbsDiff(p, cells)
    ensures MaxAbsDiff(p, cells) == 0.0 ||
            exists c :: c in cells && DiffAt(p, c).Some? && Abs(DiffAt(p, c).value) == MaxAbsDiff(p, cells)
  {
    if |cells| > 0 {
      MaxAbsDiffBounds(p, cells[1..]);
      assert cells == [cells[0]] + cells[1..];
    }
  }

  /** Whether any cell has a finite difference (`diff_finite.size > 0`). */
  predicate HasFinite(p: BandPair, cells: seq<Cell>)
    requires AllInPair(p, cells)
  {
    |cells| > 0 && (DiffAt(p, cells[0]).Some? || HasFinite(p, cells[1..]))
  }

  /** A finite difference exists exactly when some cell is present on both sides. */
  lemma {:induction false} HasFiniteIff(p: BandPair, cells: seq<Cell>)
    requires AllInPair(p, cells)
    ensures HasFinite(p, cells) <==> exists c :: c in cells && DiffAt(p, c).Some?
  {
    if |cells| > 0 {
      HasFiniteIff(p, cells[1..]);
      assert cells == [cells[0]] + cells[1..];
    }
  }

  lemma {:induction false} NotCloseCountConcat(p: BandPair, tol: Tolerance, s: seq<Cell>, t: seq<Cell>)
    requires AllInPair(p, s) && AllInPair(p, t)
    ensures AllInPair(p, s + t)
    ensures NotCloseCount(p, tol, s + t) == NotCloseCount(p, tol, s) + NotCloseCount(p, tol, t)
    decreases |s|
  {
    if |s| > 0 {
      assert (s + t)[1..] == s[1..] + t;
      NotCloseCountConcat(p, tol, s[1..], t);
    } else {
      assert s + t == t;
    }
  }

  lemma {:induction false} SquaredSumConcat(p: BandPair, s: seq<Cell>, t: seq<Cell>)
    requires AllInPair(p, s) && AllInPair(p, t)
    ensures AllInPair(p, s + t)
    ensures SquaredSum(p, s + t) == SquaredSum(p, s) + SquaredSum(p, t)
    decreases |s|
  {
    if |s| > 0 {
      assert (s + t)[1..] == s[1..] + t;
      SquaredSumConcat(p, s[1..], t);
    } else {
      assert s + t == t;
    }
  }

  lemma {:induction false} MaxAbsDiffConcat(p: BandPair, s: seq<Cell>, t: seq<Cell>)
    requires AllInPair(p, s) && AllInPair(p, t)
    ensures AllInPair(p, s + t)
    ensures MaxAbsDiff(p, s + t) == Max(MaxAbsDiff(p, s), MaxAbsDiff(p, t))
    decreases |s|
  {
    if |s| > 0 {
      assert (s + t)[1..] == s[1..] + t;
      MaxAbsDiffConcat(p, s[1..], t);
    } else {
      assert s + t == t;
    }
  }

  /** Without a finite difference the maximum is zero, so the source's guard on
      `diff_finite.size > 0` does not change the running maximum. */
  lemma {:induction false} MaxAbsDiffWithoutFinite(p: BandPair, cells: seq<Cell>)
    requires AllInPair(p, cells)
    requires !HasFinite(p, cells)
    ensures MaxAbsDiff(p, cells) == 0.0
  {
    if |cells| > 0 {
      MaxAbsDiffWithoutFinite(p, cells[1..]);
    }
  }

  /** The three running accumulators of a band hold the reductions over the cells seen so far. */
  predicate Accumulated(p: BandPair, tol: Tolerance, cells: seq<Cell>, count: nat, maxDiff: real, sumSq: real)
    requires AllInPair(p, cells)
  {
    && count == NotCloseCount(p, tol, cells)
    && maxDiff == MaxAbsDiff(p, cells)
    && sumSq == SquaredSum(p, cells)
  }

  /** Folding one more window into the accumulators the way the band loop does (add the
      count, raise the maximum only when the window has a finite difference, add the sum of
      squares) yields the reductions over the cells seen so far followed by the window's. */
  lemma AccumulateWindow(p: BandPair, tol: Tolerance, done: seq<Cell>, cells: seq<Cell>,
                         count: nat, maxDiff: real, sumSq: real)
    requires AllInPair(p, done) && AllInPair(p, cells)
    requires Accumulated(p, tol, done, count, maxDiff, sumSq)
    ensures AllInPair(p, done + cells)
    ensures Accumulated(p, tol, done + cells, count + NotCloseCount(p, tol, cells),
                        if HasFinite(p, cells) then Max(maxDiff, MaxAbsDiff(p, cells)) else maxDiff,
                        sumSq + SquaredSum(p, cells))
  {
    NotCloseCountConcat(p, tol, done, cells);
    MaxAbsDiffConcat(p, done, cells);
    SquaredSumConcat(p, done, cells);
    if !HasFinite(p, cells) {
      MaxAbsDiffWithoutFinite(p, cells);
    }
  }

  /** The count of cells that are not close depends only on the multiset of cells. */
  lemma {:induction false} NotCloseCountPermutation(p: BandPair, tol: Tolerance, s: seq<Cell>, t: seq<Cell>)
    requires AllInPair(p, s)
    requires multiset(s) == multiset(t)
    ensures AllInPair(p, t)
    ensures NotCloseCount(p, tol, s) == NotCloseCount(p, tol, t)
    decreases |s|
  {
    SameMembers(p, s, t);
    if |s| == 0 {
      assert |t| == |multiset(t)| == 0;
    } else {
      var x := s[0];
      assert x in multiset(t);
      var i :| 0 <= i < |t| && t[i] == x;
      MultisetRemove(s, t, i);
      NotCloseCountPermutation(p, tol, s[1..], t[..i] + t[i + 1..]);
      NotCloseCountRemove(p, tol, t, i);
    }
  }

  lemma NotCloseCountRemove(p: BandPair, tol: Tolerance, t: seq<Cell>, i: nat)
    requires AllInPair(p, t) && i < |t|
    ensures AllInPair(p, t[..i] + t[i + 1..])
    ensures NotCloseCount(p, tol, t)
         == NotCloseCount(p, tol, t[..i] + t[i + 1..]) + (if CloseAt(p, tol, t[i]) then 0 else 1)
  {
    assert t == t[..i] + ([t[i]] + t[i + 1..]);
    assert ([t[i]] + t[i + 1..])[1..] == t[i + 1..];
    SliceMembers(p, t, i);
    NotCloseCountConcat(p, tol, t[..i], [t[i]] + t[i + 1..]);
    NotCloseCountConcat(p, tol, t[..i], t[i + 1..]);
  }

  /** The sum of squared differences depends only on the multiset of cells. */
  lemma {:induction false} SquaredSumPermutation(p: BandPair, s: seq<Cell>, t: seq<Cell>)
    requires AllInPair(p, s)
    requires multiset(s) == multiset(t)
    ensures AllInPair(p, t)
    ensures SquaredSum(p, s) == SquaredSum(p, t)
    decreases |s|
  {
    SameMembers(p, s, t);
    if |s| == 0 {
      assert |t| == |multiset(t)| == 0;
    } else {
      var x := s[0];
      assert x in multiset(t);
      var i :| 0 <= i < |t| && t[i] == x;
      MultisetRemove(s, t, i);
      SquaredSumPermutation(p, s[1..], t[..i] + t[i + 1..]);
      SquaredSumRemove(p, t, i);
    }
  }

  lemma SquaredSumRemove(p: BandPair, t: seq<Cell>, i: nat)
    requires AllInPair(p, t) && i < |t|
    ensures AllInPair(p, t[..i] + t[i + 1..])
    ensures SquaredSum(p, t) == SquaredSum(p, t[..i] + t[i + 1..]) + SquareOrZero(DiffAt(p, t[i]))
  {
    assert t == t[..i] + ([t[i]] + t[i + 1..]);
    assert ([t[i]] + t[i + 1..])[1..] == t[i + 1..];
    SliceMembers(p, t, i);
    SquaredSumConcat(p, t[..i], [t[i]] + t[i + 1..]);
    SquaredSumConcat(p, t[..i], t[i + 1..]);
  }

  lemma SameMembers(p: BandPair, s: seq<Cell>, t: seq<Cell>)
    requires AllInPair(p, s)
    requires multiset(s) == multiset(t)
    ensures AllInPair(p, t)
  {
    forall c | c in t ensures InPair(p, c) {
      assert c in multiset(t);
    }
  }

  lemma SliceMembers(p: BandPair, t: seq<Cell>, i: nat)
    requires AllInPair(p, t) && i < |t|
    ensures AllInPair(p, t[..i]) && AllInPair(p, t[i + 1..]) && AllInPair(p, [t[i]] + t[i + 1..])
    ensures AllInPair(p, t[..i] + t[i + 1..])
  {
    assert t == t[..i] + [t[i]] + t[i + 1..];
  }

  lemma MultisetRemove<T>(s: seq<T>, t: seq<T>, i: nat)
    requires multiset(s) == multiset(t)
    requires |s| > 0 && i < |t| && t[i] == s[0]
    ensures multiset(s[1..]) == multiset(t[..i] + t[i + 1..])
  {
    var x := s[0];
    assert s == [x] + s[1..];
    assert t == t[..i] + [x] + t[i + 1..];
    calc {
      multiset(s[1..]);
      multiset(s) - multiset{x};
      multiset(t) - multiset{x};
      multiset(t[..i]) + multiset{x} + multiset(t[i + 1..]) - multiset{x};
      multiset(t[..i]) + multiset(t[i + 1..]);
      multiset(t[..i] + t[i + 1..]);
    }
  }

  // ---------------------------------------------------------------------------
  // Cells of windows and of the whole grid
  // ---------------------------------------------------------------------------

  predicate InWindow(w: Window, r: nat, c: nat) {
    w.rowOff <= r < w.rowOff + w.height && w.colOff <= c < w.colOff + w.width
  }

  /** The cells of `height` rows times `width` columns from (rowOff, colOff), row-major. */
  function BlockCells(rowOff: nat, colOff: nat, height: nat, width: nat): (cells: seq<Cell>)
    ensures |cells| == height * width
  {
    if height == 0 then []
    else BlockCells(rowOff, colOff, height - 1, width) + RowCells(rowOff + height - 1, colOff, width)
  }

  function RowCells(row: nat, colOff: nat, width: nat): (cells: seq<Cell>)
    ensures |cells| == width
  {
    if width == 0 then [] else RowCells(row, colOff, width - 1) + [Cell(row, colOff + width - 1)]
  }

  /** A row's cells are the pixels of that row in the column range, and no others. */
  lemma {:induction false} RowCellsMembers(row: nat, colOff: nat, width: nat)
    ensures forall c :: c in RowCells(row, colOff, width) <==> c.row == row && colOff <= c.col < colOff + width
  {
    if width > 0 {
      RowCellsMembers(row, colOff, width - 1);
    }
  }

  /** A block's cells are the pixels inside the block, and no others. */
  lemma {:induction false} BlockCellsMembers(rowOff: nat, colOff: nat, height: nat, width: nat)
    ensures forall c :: c in BlockCells(rowOff, colOff, height, width) <==>
      InWindow(Window(rowOff, colOff, height, width), c.row, c.col)
  {
    if height > 0 {
      BlockCellsMembers(rowOff, colOff, height - 1, width);
      RowCellsMembers(rowOff + height - 1, colOff, width);
    }
  }

  function WindowCells(w: Window): seq<Cell> {
    BlockCells(w.rowOff, w.colOff, w.height, w.width)
  }

  lemma WindowCellsMembers(w: Window)
    ensures forall c :: c in WindowCells(w) <==> InWindow(w, c.row, c.col)
  {
    BlockCellsMembers(w.rowOff, w.colOff, w.height, w.width);
  }

  function GridCells(height: nat, width: nat): seq<Cell> {
    BlockCells(0, 0, height, width)
  }

  /** The cells of a window sequence, window after window. */
  function CellsOf(ws: seq<Window>): seq<Cell> {
    if |ws| == 0 then [] else CellsOf(ws[..|ws| - 1]) + WindowCells(ws[|ws| - 1])
  }

  /** A cell is among the cells of a window sequence exactly when some window holds it. */
  lemma {:induction false} CellsOfMembers(ws: seq<Window>)
    ensures forall c :: c in CellsOf(ws) <==> exists k :: 0 <= k < |ws| && InWindow(ws[k], c.row, c.col)
  {
    if |ws| > 0 {
      var init := ws[..|ws| - 1];
      CellsOfMembers(init);
      WindowCellsMembers(ws[|ws| - 1]);
      assert forall k :: 0 <= k < |init| ==> init[k] == ws[k];
    }
  }

  /** Some window of `ws` holds the pixel (r, c). */
  predicate Covered(ws: seq<Window>, r: nat, c: nat) {
    |ws| > 0 && (Covered(ws[..|ws| - 1], r, c) || InWindow(ws[|ws| - 1], r, c))
  }

  /** Being covered is being among the cells of the windows. */
  lemma {:induction false} CoveredIsMember(ws: seq<Window>, r: nat, c: nat)
    ensures Covered(ws, r, c) <==> Cell(r, c) in CellsOf(ws)
  {
    if |ws| > 0 {
      CoveredIsMember(ws[..|ws| - 1], r, c);
      WindowCellsMembers(ws[|ws| - 1]);
    }
  }

  /** Adding the next window of a prefix covers exactly that window's pixels more. */
  lemma CoveredStep(ws: seq<Window>, k: nat, r: nat, c: nat)
    requires k < |ws|
    ensures Covered(ws[..k + 1], r, c) <==> Covered(ws[..k], r, c) || InWindow(ws[k], r, c)
  {
    assert ws[..k + 1][..k] == ws[..k];
  }

  /** Windows partition a `height` x `width` grid when their cells are the grid's cells,
      each exactly once. */
  predicate Partitions(ws: seq<Window>, height: nat, width: nat) {
    multiset(CellsOf(ws)) == multiset(GridCells(height, width))
  }

  lemma CellsOfStep(ws: seq<Window>, k: nat)
    requires k < |ws|
    ensures CellsOf(ws[..k + 1]) == CellsOf(ws[..k]) + WindowCells(ws[k])
  {
    assert ws[..k + 1][..k] == ws[..k];
  }
}
