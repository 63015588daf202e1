/** The read-only grid of integer samples that the partitioner and the
    aggregators borrow: a width, a height and row-major rows of samples,
    addressed as `At(x, y)` (column `x`, row `y`), like the `operator()(x, y)`
    of the matrix types the C++ templates are instantiated with. */
module Matrices {

  datatype Matrix = Matrix(width: int, height: int, rows: seq<seq<int>>)
  {
    /** The dimensions are positive and every row holds `width` samples. */
    predicate Valid() {
      0 < width && 0 < height && |rows| == height &&
      forall y :: 0 <= y < |rows| ==> |rows[y]| == width
    }

    function At(x: int, y: int): int
      requires Valid() && 0 <= x < width && 0 <= y < height
    {
      rows[y][x]
    }
  }

  /** An axis-aligned sub-rectangle: origin `(x0, y0)`, extent `width` by `height`. */
  datatype Rect = Rect(x0: int, y0: int, width: int, height: int)
  {
    predicate Contains(x: int, y: int) {
      x0 <= x < x0 + width && y0 <= y < y0 + height
    }
  }

  /** `r` is non-empty and lies inside `m`: the region an aggregator may be
      asked about. */
  predicate InBounds(m: Matrix, r: Rect) {
    m.Valid() && 0 <= r.x0 && 0 <= r.y0 && 0 < r.width && 0 < r.height &&
    r.x0 + r.width <= m.width && r.y0 + r.height <= m.height
  }

  /** The samples of rectangle `(x0, y0, width, height)` in row-major order:
      the first `height` rows of the region, each left to right. */
  function CellSamples(m: Matrix, x0: int, y0: int, width: int, height: int): (s: seq<int>)
    requires InBounds(m, Rect(x0, y0, width, 1)) && 0 <= height && y0 + height <= m.height
    ensures |s| == width * height
    decreases height
  {
    if height == 0 then []
    else CellSamples(m, x0, y0, width, height - 1) + m.rows[y0 + height - 1][x0 .. x0 + width]
  }

  /** Row-major indexing: sample `(x, y)` of the region sits at `y * width + x`. */
  lemma {:induction false} CellSamplesAt(m: Matrix, x0: int, y0: int, width: int, height: int, x: int, y: int)
    requires InBounds(m, Rect(x0, y0, width, 1)) && 0 <= height && y0 + height <= m.height
    requires 0 <= x < width && 0 <= y < height
    ensures 0 <= y * width + x < width * height
    ensures CellSamples(m, x0, y0, width, height)[y * width + x] == m.At(x0 + x, y0 + y)
  {
    var prefix := CellSamples(m, x0, y0, width, height - 1);
    assert |prefix| == width * (height - 1) == width * height - width;
    if y < height - 1 {
      CellSamplesAt(m, x0, y0, width, height - 1, x, y);
    } else {
      assert y * width == width * height - width;
    }
  }

  /** Every sample of the region occurs in `CellSamples`, and nothing else does. */
  lemma {:induction false} CellSamplesMembers(m: Matrix, x0: int, y0: int, width: int, height: int, v: int)
    requires InBounds(m, Rect(x0, y0, width, 1)) && 0 <= height && y0 + height <= m.height
    ensures v in CellSamples(m, x0, y0, width, height) <==>
            exists x, y :: x0 <= x < x0 + width && y0 <= y < y0 + height && m.At(x, y) == v
  {
    if height > 0 {
      var prefix := CellSamples(m, x0, y0, width, height - 1);
      var row := m.rows[y0 + height - 1][x0 .. x0 + width];
      assert CellSamples(m, x0, y0, width, height) == prefix + row;
      CellSamplesMembers(m, x0, y0, width, height - 1, v);
      if v in row {
        var k :| 0 <= k < |row| && row[k] == v;
        assert m.At(x0 + k, y0 + height - 1) == v;
      }
      if exists x, y :: x0 <= x < x0 + width && y0 <= y < y0 + height && m.At(x, y) == v {
        var x, y :| x0 <= x < x0 + width && y0 <= y < y0 + height && m.At(x, y) == v;
        if y == y0 + height - 1 {
          assert row[x - x0] == v;
        } else {
          assert v in prefix;
        }
      }
    }
  }
}
