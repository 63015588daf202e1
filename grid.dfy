/** Balanced partitioning of a matrix into a grid of cells and per-cell
    aggregation (grid.h): `DivCeil`, the per-axis cell geometry, the
    splitter `CellSplitter` with its specification `Split`, and the median
    aggregator `CellMedian` with its specification `CellMedianOf`. */
module Grid {
  import opened Matrices
  import opened Sorting

  // ---------------------------------------------------------------------
  // Ceiling division
  // ---------------------------------------------------------------------

  /** `x / y` rounded up, for positive operands: the least `r` with `x <= r * y`. */
  function DivCeil(x: int, y: int): (r: int)
    requires x > 0 && y > 0
    ensures (r - 1) * y < x <= r * y
  {
    var q := (x - 1) / y;
    assert q * y <= x - 1 < (q + 1) * y;
    1 + q
  }

  /** No integer smaller than `DivCeil(x, y)` reaches `x` when multiplied by `y`.
      A corollary of the ensures of `DivCeil`, spelled out as the "least" reading. */
  lemma DivCeilLeast(x: int, y: int, k: int)
    requires x > 0 && y > 0 && x <= k * y
    ensures DivCeil(x, y) <= k
  {
    var r := DivCeil(x, y);
    if k < r {
      MulMonotone(k, r - 1, y);
    }
  }

  // ---------------------------------------------------------------------
  // Per-axis geometry
  // ---------------------------------------------------------------------

  /** How one axis of `matrixLen` samples is cut into `gridLen` cells:
      the first `numCeil` cells are `ceil` long, the rest `floor` long. */
  datatype AxisSplit = AxisSplit(ceil: int, floor: int, numCeil: int)

  function SplitAxis(matrixLen: int, gridLen: int): (a: AxisSplit)
    requires 1 <= gridLen <= matrixLen
    ensures 1 <= a.floor <= a.ceil <= a.floor + 1
    ensures 0 <= a.numCeil < gridLen
    ensures a.numCeil == 0 <==> a.ceil == a.floor
    ensures a.numCeil * a.ceil + (gridLen - a.numCeil) * a.floor == matrixLen
  {
    var ceil := DivCeil(matrixLen, gridLen);
    var floor := matrixLen / gridLen;
    var numCeil := matrixLen - gridLen * floor;
    FloorFacts(matrixLen, gridLen);
    CeilFacts(matrixLen, gridLen, ceil, floor, numCeil);
    AxisSplit(ceil, floor, numCeil)
  }

  lemma FloorFacts(matrixLen: int, gridLen: int)
    requires 1 <= gridLen <= matrixLen
    ensures 1 <= matrixLen / gridLen
    ensures 0 <= matrixLen - gridLen * (matrixLen / gridLen) < gridLen
  {
    var floor := matrixLen / gridLen;
    if floor < 1 {
      MulMonotone(floor, 0, gridLen);
    }
  }

  lemma CeilFacts(matrixLen: int, gridLen: int, ceil: int, floor: int, numCeil: int)
    requires 1 <= gridLen && 1 <= floor
    requires (ceil - 1) * gridLen < matrixLen <= ceil * gridLen
    requires matrixLen == gridLen * floor + numCeil && 0 <= numCeil < gridLen
    ensures floor <= ceil <= floor + 1
    ensures numCeil == 0 <==> ceil == floor
    ensures numCeil * ceil + (gridLen - numCeil) * floor == matrixLen
  {
    assert (ceil - 1) * gridLen < (floor + 1) * gridLen by {
      assert gridLen * floor + numCeil < (floor + 1) * gridLen;
    }
    MulCancelLess(ceil - 1, floor + 1, gridLen);
    assert floor * gridLen < (ceil + 1) * gridLen by {
      assert ceil * gridLen < (ceil + 1) * gridLen;
    }
    MulCancelLess(floor, ceil + 1, gridLen);
    if numCeil == 0 {
      MulCancelLess(ceil - 1, floor, gridLen);
    } else {
      assert numCeil * ceil == numCeil * floor + numCeil;
    }
  }

  lemma MulMonotone(a: int, b: int, c: int)
    requires a <= b && 0 <= c
    ensures a * c <= b * c
  {
  }

  lemma MulCancelLess(a: int, b: int, c: int)
    requires c > 0 && a * c < b * c
    ensures a < b
  {
    if a >= b { MulMonotone(b, a, c); }
  }

  /** Length of cell `i` along an axis: ceil-sized cells come first. */
  function CellSize(a: AxisSplit, i: int): int {
    if i < a.numCeil then a.ceil else a.floor
  }

  /** Start of cell `i` along an axis: the sum of the sizes of cells `0 .. i-1`,
      in closed form. */
  function CellOffset(a: AxisSplit, i: int): int {
    i * a.floor + (if i < a.numCeil then i else a.numCeil)
  }

  /** The shape every `SplitAxis` result has, without the arithmetic that
      produced it. */
  predicate WellFormed(a: AxisSplit) {
    1 <= a.floor && 0 <= a.numCeil && (a.numCeil > 0 ==> a.ceil == a.floor + 1)
  }

  /** A corollary of the ensures of `SplitAxis`, restated through `WellFormed`
      for the offset lemmas below. */
  lemma SplitAxisWellFormed(matrixLen: int, gridLen: int)
    requires 1 <= gridLen <= matrixLen
    ensures WellFormed(SplitAxis(matrixLen, gridLen))
  {
  }

  lemma OffsetStep(a: AxisSplit, i: int)
    requires WellFormed(a) && 0 <= i
    ensures CellOffset(a, i + 1) == CellOffset(a, i) + CellSize(a, i)
  {
    assert (i + 1) * a.floor == i * a.floor + a.floor;
  }

  /** The sizes of cells `0 .. i-1` added up one by one, as the running
      offset of the splitter accumulates them. */
  function SizesBefore(a: AxisSplit, i: nat): int {
    if i == 0 then 0 else SizesBefore(a, i - 1) + CellSize(a, i - 1)
  }

  /** The closed-form offset of cell `i` is the running sum of the sizes of
      the cells before it. */
  lemma {:induction false} OffsetIsSumOfSizes(a: AxisSplit, i: nat)
    requires WellFormed(a)
    ensures CellOffset(a, i) == SizesBefore(a, i)
  {
    if i > 0 {
      OffsetIsSumOfSizes(a, i - 1);
      OffsetStep(a, i - 1);
    }
  }

  lemma OffsetMonotone(a: AxisSplit, i: int, j: int)
    requires WellFormed(a) && 0 <= i <= j
    ensures 0 <= CellOffset(a, i) <= CellOffset(a, j)
  {
    MulMonotone(0, i, a.floor);
    MulMonotone(i, j, a.floor);
  }

  /** Cell sizes along an axis differ by at most one, and a later cell is
      never larger than an earlier one. */
  lemma SizesBalanced(matrixLen: int, gridLen: int, i: int, j: int)
    requires 1 <= gridLen <= matrixLen && 0 <= i <= j < gridLen
    ensures var a := SplitAxis(matrixLen, gridLen);
      1 <= CellSize(a, j) <= CellSize(a, i) <= CellSize(a, j) + 1
  {
  }

  /** The cells of an axis end exactly at its length: nothing is left over. */
  lemma AxisEnd(matrixLen: int, gridLen: int)
    requires 1 <= gridLen <= matrixLen
    ensures CellOffset(SplitAxis(matrixLen, gridLen), gridLen) == matrixLen
  {
    var a := SplitAxis(matrixLen, gridLen);
    SumOfSizes(gridLen, a.ceil, a.floor, a.numCeil, matrixLen);
  }

  lemma SumOfSizes(gridLen: int, ceil: int, floor: int, numCeil: int, matrixLen: int)
    requires numCeil * ceil + (gridLen - numCeil) * floor == matrixLen
    requires 0 <= numCeil && (numCeil > 0 ==> ceil == floor + 1)
    ensures gridLen * floor + numCeil == matrixLen
  {
    assert (gridLen - numCeil) * floor == gridLen * floor - numCeil * floor;
    if numCeil > 0 {
      assert numCeil * ceil == numCeil * floor + numCeil;
    }
  }

  /** Cell `i` is non-empty, starts where cell `i - 1` ends and stays inside the axis. */
  lemma AxisCell(matrixLen: int, gridLen: int, i: int)
    requires 1 <= gridLen <= matrixLen && 0 <= i < gridLen
    ensures var a := SplitAxis(matrixLen, gridLen);
      0 <= CellOffset(a, i) && 1 <= CellSize(a, i) &&
      CellOffset(a, i) + CellSize(a, i) == CellOffset(a, i + 1) <= matrixLen
  {
    var a := SplitAxis(matrixLen, gridLen);
    SplitAxisWellFormed(matrixLen, gridLen);
    OffsetStep(a, i);
    OffsetMonotone(a, i, i + 1);
    OffsetMonotone(a, i + 1, gridLen);
    AxisEnd(matrixLen, gridLen);
  }

  /** Distinct cells of an axis do not overlap: an earlier cell ends before a
      later one starts. */
  lemma AxisDisjoint(matrixLen: int, gridLen: int, i: int, j: int)
    requires 1 <= gridLen <= matrixLen && 0 <= i < j < gridLen
    ensures var a := SplitAxis(matrixLen, gridLen);
      CellOffset(a, i) + CellSize(a, i) <= CellOffset(a, j)
  {
    var a := SplitAxis(matrixLen, gridLen);
    SplitAxisWellFormed(matrixLen, gridLen);
    OffsetStep(a, i);
    OffsetMonotone(a, i + 1, j);
  }

  /** The cell of an axis that holds position `p`. */
  function AxisCellOf(matrixLen: int, gridLen: int, p: int): (i: int)
    requires 1 <= gridLen <= matrixLen && 0 <= p < matrixLen
    ensures 0 <= i < gridLen
    ensures var a := SplitAxis(matrixLen, gridLen);
      CellOffset(a, i) <= p < CellOffset(a, i) + CellSize(a, i)
  {
    var a := SplitAxis(matrixLen, gridLen);
    SplitAxisWellFormed(matrixLen, gridLen);
    AxisEnd(matrixLen, gridLen);
    var boundary := a.numCeil * a.ceil;
    if p < boundary then
      var i := p / a.ceil;
      InCeilPart(a, p, i);
      i
    else
      var q := (p - boundary) / a.floor;
      InFloorPart(a, gridLen, p, q);
      a.numCeil + q
  }

  lemma InCeilPart(a: AxisSplit, p: int, i: int)
    requires WellFormed(a) && 0 <= p < a.numCeil * a.ceil && i == p / a.ceil
    ensures 0 <= i < a.numCeil
    ensures CellOffset(a, i) <= p < CellOffset(a, i) + CellSize(a, i)
  {
    DivBounds(p, a.ceil);
    MulCancelLess(i, a.numCeil, a.ceil);
    Distribute(i, a.floor);
  }

  lemma InFloorPart(a: AxisSplit, gridLen: int, p: int, q: int)
    requires WellFormed(a) && a.numCeil * a.ceil <= p < CellOffset(a, gridLen) && a.numCeil <= gridLen
    requires q == (p - a.numCeil * a.ceil) / a.floor
    ensures 0 <= q && a.numCeil + q < gridLen
    ensures CellOffset(a, a.numCeil + q) <= p < CellOffset(a, a.numCeil + q) + CellSize(a, a.numCeil + q)
  {
    var n, f := a.numCeil, a.floor;
    var boundary := n * a.ceil;
    CeilBlock(n, a.ceil, f);
    DivBounds(p - boundary, f);
    assert CellOffset(a, gridLen) == gridLen * f + n;
    SubDistribute(gridLen, n, f);
    MulCancelLess(q, gridLen - n, f);
    AddDistribute(n, q, f);
  }

  /** Euclidean division brackets its dividend. */
  lemma DivBounds(x: int, d: int)
    requires 0 <= x && 0 < d
    ensures 0 <= x / d
    ensures (x / d) * d <= x < (x / d + 1) * d
  {
  }

  lemma CeilBlock(n: int, c: int, f: int)
    requires 0 <= n && (n > 0 ==> c == f + 1)
    ensures n * c == n * f + n
  {
  }

  lemma Distribute(i: int, f: int)
    ensures i * (f + 1) == i * f + i
  {
  }

  lemma SubDistribute(g: int, n: int, f: int)
    ensures (g - n) * f == g * f - n * f
  {
  }

  lemma AddDistribute(n: int, q: int, f: int)
    ensures (n + q) * f == n * f + q * f
  {
  }

  // ---------------------------------------------------------------------
  // Cells of the grid
  // ---------------------------------------------------------------------

  /** The caller's demand on `cellSplitter`: a valid matrix at least as wide
      and as high as the grid of cells, which has at least one cell. */
  predicate GridFits(m: Matrix, gridWidth: int, gridHeight: int) {
    m.Valid() && 1 <= gridWidth <= m.width && 1 <= gridHeight <= m.height
  }

  /** The rectangle of cell `(gx, gy)`: every cell the splitter hands to the
      aggregator is non-empty and inside the matrix. */
  function CellRect(m: Matrix, gridWidth: int, gridHeight: int, gx: int, gy: int): (r: Rect)
    requires GridFits(m, gridWidth, gridHeight)
    requires 0 <= gx < gridWidth && 0 <= gy < gridHeight
    ensures InBounds(m, r)
  {
    var ax := SplitAxis(m.width, gridWidth);
    var ay := SplitAxis(m.height, gridHeight);
    AxisCell(m.width, gridWidth, gx);
    AxisCell(m.height, gridHeight, gy);
    Rect(CellOffset(ax, gx), CellOffset(ay, gy), CellSize(ax, gx), CellSize(ay, gy))
  }

  /** Cover: every sample of the matrix lies in some cell. */
  lemma CellsCover(m: Matrix, gridWidth: int, gridHeight: int, x: int, y: int)
    requires GridFits(m, gridWidth, gridHeight)
    requires 0 <= x < m.width && 0 <= y < m.height
    ensures exists gx, gy :: 0 <= gx < gridWidth && 0 <= gy < gridHeight &&
                             CellRect(m, gridWidth, gridHeight, gx, gy).Contains(x, y)
  {
    var gx := AxisCellOf(m.width, gridWidth, x);
    var gy := AxisCellOf(m.height, gridHeight, y);
    assert CellRect(m, gridWidth, gridHeight, gx, gy).Contains(x, y);
  }

  /** No overlap: a sample lies in at most one cell. */
  lemma CellsDisjoint(m: Matrix, gridWidth: int, gridHeight: int,
                      gx: int, gy: int, gx': int, gy': int, x: int, y: int)
    requires GridFits(m, gridWidth, gridHeight)
    requires 0 <= gx < gridWidth && 0 <= gy < gridHeight
    requires 0 <= gx' < gridWidth && 0 <= gy' < gridHeight
    requires CellRect(m, gridWidth, gridHeight, gx, gy).Contains(x, y)
    requires CellRect(m, gridWidth, gridHeight, gx', gy').Contains(x, y)
    ensures gx == gx' && gy == gy'
  {
    if gx < gx' { AxisDisjoint(m.width, gridWidth, gx, gx'); }
    if gx' < gx { AxisDisjoint(m.width, gridWidth, gx', gx); }
    if gy < gy' { AxisDisjoint(m.height, gridHeight, gy, gy'); }
    if gy' < gy { AxisDisjoint(m.height, gridHeight, gy', gy); }
  }

  // ---------------------------------------------------------------------
  // The splitter
  // ---------------------------------------------------------------------

  /** A caller-supplied reduction of the rectangle `(x0, y0, width, height)`
      of a matrix to one integer. */
  type Aggregator = (Matrix, int, int, int, int) --> int

  /** `func` accepts every non-empty in-bounds rectangle of `m`. */
  ghost predicate AcceptsCells(m: Matrix, func: Aggregator) {
    forall x0, y0, width, height :: InBounds(m, Rect(x0, y0, width, height)) ==>
      func.requires(m, x0, y0, width, height)
  }

  /** The aggregate of cell `(gx, gy)`. */
  function CellValue(m: Matrix, gridWidth: int, gridHeight: int, func: Aggregator, gx: int, gy: int): int
    requires GridFits(m, gridWidth, gridHeight) && AcceptsCells(m, func)
    requires 0 <= gx < gridWidth && 0 <= gy < gridHeight
  {
    var r := CellRect(m, gridWidth, gridHeight, gx, gy);
    func(m, r.x0, r.y0, r.width, r.height)
  }

  /** The aggregates of grid row `gy`, left to right. */
  function RowValues(m: Matrix, gridWidth: int, gridHeight: int, func: Aggregator, gy: int): (s: seq<int>)
    requires GridFits(m, gridWidth, gridHeight) && AcceptsCells(m, func)
    requires 0 <= gy < gridHeight
    ensures |s| == gridWidth
  {
    seq(gridWidth, gx requires 0 <= gx < gridWidth => CellValue(m, gridWidth, gridHeight, func, gx, gy))
  }

  /** The aggregates of the first `rows` grid rows, in row-major order. */
  function SplitRows(m: Matrix, gridWidth: int, gridHeight: int, func: Aggregator, rows: int): (s: seq<int>)
    requires GridFits(m, gridWidth, gridHeight) && AcceptsCells(m, func)
    requires 0 <= rows <= gridHeight
    ensures |s| == rows * gridWidth
    decreases rows
  {
    if rows == 0 then []
    else SplitRows(m, gridWidth, gridHeight, func, rows - 1) + RowValues(m, gridWidth, gridHeight, func, rows - 1)
  }

  /** What `cellSplitter` returns: one aggregate per cell, in row-major order. */
  function Split(m: Matrix, gridWidth: int, gridHeight: int, func: Aggregator): (s: seq<int>)
    requires GridFits(m, gridWidth, gridHeight) && AcceptsCells(m, func)
    ensures |s| == gridWidth * gridHeight
  {
    SplitRows(m, gridWidth, gridHeight, func, gridHeight)
  }

  /** Entry `gy * gridWidth + gx` of the result is the aggregate of cell `(gx, gy)`. */
  lemma {:induction false} SplitAt(m: Matrix, gridWidth: int, gridHeight: int, func: Aggregator, gx: int, gy: int)
    requires GridFits(m, gridWidth, gridHeight) && AcceptsCells(m, func)
    requires 0 <= gx < gridWidth && 0 <= gy < gridHeight
    ensures 0 <= gy * gridWidth + gx < gridWidth * gridHeight
    ensures Split(m, gridWidth, gridHeight, func)[gy * gridWidth + gx] ==
            CellValue(m, gridWidth, gridHeight, func, gx, gy)
  {
    SplitRowsAt(m, gridWidth, gridHeight, func, gridHeight, gx, gy);
  }

  lemma {:induction false} SplitRowsAt(m: Matrix, gridWidth: int, gridHeight: int, func: Aggregator,
                                       rows: int, gx: int, gy: int)
    requires GridFits(m, gridWidth, gridHeight) && AcceptsCells(m, func)
    requires 0 <= gx < gridWidth && 0 <= gy < rows <= gridHeight
    ensures 0 <= gy * gridWidth + gx < rows * gridWidth
    ensures SplitRows(m, gridWidth, gridHeight, func, rows)[gy * gridWidth + gx] ==
            CellValue(m, gridWidth, gridHeight, func, gx, gy)
    decreases rows
  {
    assert (rows - 1) * gridWidth == rows * gridWidth - gridWidth;
    if gy < rows - 1 {
      SplitRowsAt(m, gridWidth, gridHeight, func, rows - 1, gx, gy);
    } else {
      assert gy * gridWidth == rows * gridWidth - gridWidth;
    }
  }

  /** `cellSplitter`: walks the grid row by row and column by column, keeping
      the running matrix offsets, and collects `func` of every cell. */
  method CellSplitter(m: Matrix, gridWidth: int, gridHeight: int, func: Aggregator) returns (values: seq<int>)
    requires GridFits(m, gridWidth, gridHeight) && AcceptsCells(m, func)
    ensures values == Split(m, gridWidth, gridHeight, func)
  {
    values := [];

    var ceilY := DivCeil(m.height, gridHeight);
    var floorY := m.height / gridHeight;
    var numCeilY := m.height - gridHeight * floorY;

    var ceilX := DivCeil(m.width, gridWidth);
    var floorX := m.width / gridWidth;
    var numCeilX := m.width - gridWidth * floorX;

    ghost var ax := SplitAxis(m.width, gridWidth);
    ghost var ay := SplitAxis(m.height, gridHeight);
    assert ax == AxisSplit(ceilX, floorX, numCeilX);
    assert ay == AxisSplit(ceilY, floorY, numCeilY);

    var matrixY := 0;
    for gridY := 0 to gridHeight
      invariant matrixY == CellOffset(ay, gridY)
      invariant values == SplitRows(m, gridWidth, gridHeight, func, gridY)
    {
      var currentCellHeight := if gridY < numCeilY then ceilY else floorY;
      AxisCell(m.height, gridHeight, gridY);
      assert currentCellHeight > 0;

      var matrixX := 0;
      for gridX := 0 to gridWidth
        invariant matrixX == CellOffset(ax, gridX)
        invariant values == SplitRows(m, gridWidth, gridHeight, func, gridY) +
                            RowValues(m, gridWidth, gridHeight, func, gridY)[..gridX]
      {
        var currentCellWidth := if gridX < numCeilX then ceilX else floorX;
        AxisCell(m.width, gridWidth, gridX);
        assert currentCellWidth > 0;
        assert Rect(matrixX, matrixY, currentCellWidth, currentCellHeight) ==
               CellRect(m, gridWidth, gridHeight, gridX, gridY);

        values := values + [func(m, matrixX, matrixY, currentCellWidth, currentCellHeight)];
        matrixX := matrixX + currentCellWidth;
      }
      AxisEnd(m.width, gridWidth);
      assert matrixX == m.width;
      assert RowValues(m, gridWidth, gridHeight, func, gridY)[..gridWidth] ==
             RowValues(m, gridWidth, gridHeight, func, gridY);
      matrixY := matrixY + currentCellHeight;
    }
    AxisEnd(m.height, gridHeight);
    assert matrixY == m.height;
  }

  // ---------------------------------------------------------------------
  // The median aggregator
  // ---------------------------------------------------------------------

  /** Integer division truncating toward zero, as C++ `/` on `int`: the
      remainder has the sign of the dividend and is smaller than the divisor. */
  function TruncDiv(a: int, b: int): (q: int)
    requires b > 0
    ensures a >= 0 ==> 0 <= a - q * b < b
    ensures a < 0 ==> -b < a - q * b <= 0
  {
    if a >= 0 then a / b else -((-a) / b)
  }

  /** The median of an ascending, non-empty sequence: its middle element when
      the length is odd, else the truncated mean of the two middle elements.
      It lies between the two middle elements. */
  function MiddleOf(sorted: seq<int>): (r: int)
    requires |sorted| > 0 && Ascending(sorted)
    ensures sorted[(|sorted| - 1) / 2] <= r <= sorted[|sorted| / 2]
  {
    var n := |sorted|;
    if n % 2 == 1 then sorted[n / 2]
    else
      var lo, hi := sorted[n / 2 - 1], sorted[n / 2];
      var q := TruncDiv(lo + hi, 2);
      assert lo <= q <= hi by {
        if lo + hi >= 0 { assert 0 <= lo + hi - 2 * q < 2; }
        else { assert -2 < lo + hi - 2 * q <= 0; }
      }
      q
  }

  /** The median of a non-empty sequence of samples: the middle of their
      ascending order. Some sample is at most the median and some sample is
      at least the median; for an odd count the median is a sample. */
  function Median(samples: seq<int>): (r: int)
    requires |samples| > 0
    ensures exists i :: 0 <= i < |samples| && samples[i] <= r
    ensures exists i :: 0 <= i < |samples| && r <= samples[i]
    ensures |samples| % 2 == 1 ==> r in samples
  {
    var sorted := Sort(samples);
    var n := |sorted|;
    assert sorted[(n - 1) / 2] in multiset(samples);
    assert sorted[n / 2] in multiset(samples);
    MiddleOf(sorted)
  }

  /** The median depends only on the multiset of samples: the middle of ANY
      ascending arrangement of them is the median, whatever sort produced it. */
  lemma MedianOfAnySort(samples: seq<int>, t: seq<int>)
    requires |samples| > 0
    requires Ascending(t) && multiset(t) == multiset(samples)
    ensures |t| == |samples|
    ensures Median(samples) == MiddleOf(t)
  {
    assert |t| == |multiset(t)| == |samples|;
    SortedUnique(t, Sort(samples));
  }

  /** `cellMedian`: the median of the samples of a non-empty in-bounds
      rectangle. It lies between the least and the greatest sample of the
      rectangle, and is one of them when the count is odd. */
  function CellMedianOf(m: Matrix, x0: int, y0: int, width: int, height: int): (r: int)
    requires InBounds(m, Rect(x0, y0, width, height))
    ensures exists x, y :: x0 <= x < x0 + width && y0 <= y < y0 + height && m.At(x, y) <= r
    ensures exists x, y :: x0 <= x < x0 + width && y0 <= y < y0 + height && r <= m.At(x, y)
    ensures (width * height) % 2 == 1 ==>
            exists x, y :: x0 <= x < x0 + width && y0 <= y < y0 + height && m.At(x, y) == r
  {
    CellMedianBounds(m, x0, y0, width, height);
    Median(CellSamples(m, x0, y0, width, height))
  }

  /** The proof step behind the ensures of `CellMedianOf`: the median's bounds,
      moved from sample indices to matrix positions by `CellSamplesMembers`. */
  lemma CellMedianBounds(m: Matrix, x0: int, y0: int, width: int, height: int)
    requires InBounds(m, Rect(x0, y0, width, height))
    ensures var r := Median(CellSamples(m, x0, y0, width, height));
      (exists x, y :: x0 <= x < x0 + width && y0 <= y < y0 + height && m.At(x, y) <= r) &&
      (exists x, y :: x0 <= x < x0 + width && y0 <= y < y0 + height && r <= m.At(x, y)) &&
      ((width * height) % 2 == 1 ==>
         exists x, y :: x0 <= x < x0 + width && y0 <= y < y0 + height && m.At(x, y) == r)
  {
    var samples := CellSamples(m, x0, y0, width, height);
    var r := Median(samples);
    var i :| 0 <= i < |samples| && samples[i] <= r;
    var j :| 0 <= j < |samples| && r <= samples[j];
    CellSamplesMembers(m, x0, y0, width, height, samples[i]);
    CellSamplesMembers(m, x0, y0, width, height, samples[j]);
    CellSamplesMembers(m, x0, y0, width, height, r);
  }

  /** On a single sample the median is that sample. */
  lemma MedianOfOneSample(m: Matrix, x: int, y: int)
    requires m.Valid() && 0 <= x < m.width && 0 <= y < m.height
    ensures CellMedianOf(m, x, y, 1, 1) == m.At(x, y)
  {
    var samples := CellSamples(m, x, y, 1, 1);
    CellSamplesAt(m, x, y, 1, 1, 0, 0);
    assert samples == [m.At(x, y)];
    MedianOfAnySort(samples, samples);
  }

  /** `cellMedian` as the source runs it: the nested loops append the samples
      row by row, the vector is sorted, and the middle is read off. The
      result is the middle of every ascending arrangement of the samples. */
  method CellMedian(m: Matrix, x0: int, y0: int, width: int, height: int) returns (r: int)
    requires InBounds(m, Rect(x0, y0, width, height))
    ensures r == CellMedianOf(m, x0, y0, width, height)
    ensures forall t :: Ascending(t) && multiset(t) == multiset(CellSamples(m, x0, y0, width, height)) ==>
              |t| > 0 && r == MiddleOf(t)
  {
    var values: seq<int> := [];
    for y := 0 to height
      invariant values == CellSamples(m, x0, y0, width, y)
    {
      for x := 0 to width
        invariant values == CellSamples(m, x0, y0, width, y) + m.rows[y0 + y][x0 .. x0 + x]
      {
        values := values + [m.At(x0 + x, y0 + y)];
      }
    }
    ghost var samples := values;
    MulMonotone(1, height, width);
    assert |samples| > 0;

    values := Sort(values);

    if |values| % 2 == 1 {
      r := values[|values| / 2];
    } else {
      r := TruncDiv(values[|values| / 2 - 1] + values[|values| / 2], 2);
    }
    MiddleOfSortIsMedian(samples, values, r);
  }

  /** What `CellMedian` reads off its sorted samples is their median, and the
      middle of every other ascending arrangement of them. */
  lemma MiddleOfSortIsMedian(samples: seq<int>, sorted: seq<int>, r: int)
    requires |samples| > 0 && sorted == Sort(samples)
    requires if |sorted| % 2 == 1 then r == sorted[|sorted| / 2]
             else r == TruncDiv(sorted[|sorted| / 2 - 1] + sorted[|sorted| / 2], 2)
    ensures r == Median(samples)
    ensures forall t :: Ascending(t) && multiset(t) == multiset(samples) ==> |t| > 0 && r == MiddleOf(t)
  {
    ReadsOffMiddle(sorted, r);
    MedianOfAnySort(samples, sorted);
    MedianOfEveryArrangement(samples);
  }

  /** Proof step only: unfolds `MiddleOf` apart from the context of
      `MiddleOfSortIsMedian`, where doing it inline is costly. */
  lemma ReadsOffMiddle(sorted: seq<int>, r: int)
    requires |sorted| > 0 && Ascending(sorted)
    requires if |sorted| % 2 == 1 then r == sorted[|sorted| / 2]
             else r == TruncDiv(sorted[|sorted| / 2 - 1] + sorted[|sorted| / 2], 2)
    ensures r == MiddleOf(sorted)
  {
  }

  /** The median is the middle of every ascending arrangement of the samples. */
  lemma MedianOfEveryArrangement(samples: seq<int>)
    requires |samples| > 0
    ensures forall t :: Ascending(t) && multiset(t) == multiset(samples) ==>
              |t| > 0 && Median(samples) == MiddleOf(t)
  {
    forall t | Ascending(t) && multiset(t) == multiset(samples)
      ensures |t| > 0 && Median(samples) == MiddleOf(t)
    {
      MedianOfAnySort(samples, t);
    }
  }

  // ---------------------------------------------------------------------
  // One sample per cell
  // ---------------------------------------------------------------------

  /** `func` reduces a single sample to that sample. */
  ghost predicate KeepsSingleSamples(m: Matrix, func: Aggregator)
    requires AcceptsCells(m, func)
  {
    forall x, y :: InBounds(m, Rect(x, y, 1, 1)) ==> func(m, x, y, 1, 1) == m.At(x, y)
  }

  /** With as many cells as samples, every cell is one sample, and an
      aggregator that keeps single samples returns the matrix itself in
      row-major order. */
  lemma PassThrough(m: Matrix, func: Aggregator)
    requires m.Valid() && AcceptsCells(m, func) && KeepsSingleSamples(m, func)
    ensures Split(m, m.width, m.height, func) == CellSamples(m, 0, 0, m.width, m.height)
  {
    PassThroughRows(m, func, m.height);
  }

  lemma {:induction false} PassThroughRows(m: Matrix, func: Aggregator, rows: int)
    requires m.Valid() && AcceptsCells(m, func) && KeepsSingleSamples(m, func)
    requires 0 <= rows <= m.height
    ensures SplitRows(m, m.width, m.height, func, rows) == CellSamples(m, 0, 0, m.width, rows)
    decreases rows
  {
    if rows > 0 {
      PassThroughRows(m, func, rows - 1);
      var gy := rows - 1;
      var row := RowValues(m, m.width, m.height, func, gy);
      forall gx | 0 <= gx < m.width
        ensures row[gx] == m.rows[gy][gx]
      {
        UnitCell(m, gx, gy);
      }
      assert row == m.rows[gy][0 .. m.width];
    }
  }

  /** With one cell per sample, cell `(gx, gy)` is the sample at `(gx, gy)`. */
  lemma UnitCell(m: Matrix, gx: int, gy: int)
    requires m.Valid() && 0 <= gx < m.width && 0 <= gy < m.height
    ensures CellRect(m, m.width, m.height, gx, gy) == Rect(gx, gy, 1, 1)
  {
    AxisOfUnitCells(m.width);
    AxisOfUnitCells(m.height);
  }

  /** As many cells as samples along an axis: every cell is one sample long. */
  lemma AxisOfUnitCells(len: int)
    requires 1 <= len
    ensures SplitAxis(len, len) == AxisSplit(1, 1, 0)
  {
    var a := SplitAxis(len, len);
    MulMonotone(1, a.floor, len - a.numCeil);
    MulMonotone(a.floor, a.ceil, a.numCeil);
    assert len * a.floor <= len;
    if a.floor > 1 {
      MulMonotone(2, a.floor, len);
    }
    assert a.numCeil * (a.ceil - 1) == 0;
  }

  /** The median aggregator keeps single samples, so splitting a matrix into
      one cell per sample with it returns the samples unchanged. */
  lemma MedianPassThrough(m: Matrix)
    requires m.Valid()
    ensures Split(m, m.width, m.height, CellMedianOf) == CellSamples(m, 0, 0, m.width, m.height)
  {
    forall x, y | 0 <= x < m.width && 0 <= y < m.height
      ensures CellMedianOf(m, x, y, 1, 1) == m.At(x, y)
    {
      MedianOfOneSample(m, x, y);
    }
    PassThrough(m, CellMedianOf);
  }
}
