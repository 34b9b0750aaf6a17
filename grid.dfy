/** Row-major addressing of a `width x height` pixel grid stored in a
    one-dimensional buffer: cell `(x, y)` lives at index `y*width + x`. */
module Grid {

  /** Index of column `x` of row `y`. */
  function Index(width: nat, x: nat, y: nat): nat
  {
    y * width + x
  }

  /** Index of a cell that lies in the grid, hence below `width*height`. */
  function Cell(width: nat, height: nat, x: nat, y: nat): (k: nat)
    requires x < width && y < height
    ensures k < width * height
  {
    IndexBound(width, height, x, y);
    Index(width, x, y)
  }

  /** Every cell of the grid has an index below `width*height`. */
  lemma IndexBound(width: nat, height: nat, x: nat, y: nat)
    requires x < width && y < height
    ensures y * width + x < width * height
    ensures Index(width, x, y) < Index(width, 0, height)
  {
    calc {
      y * width + x;
    <
      y * width + width;
    ==
      (y + 1) * width;
    <=
      { MulMonotone(y + 1, height, width); }
      height * width;
    }
  }

  /** Row `y` of the grid ends at `(y+1)*width`, within the grid. */
  lemma RowBound(width: nat, height: nat, y: nat)
    requires y < height
    ensures Index(width, width, y) == Index(width, 0, y + 1)
    ensures Index(width, 0, y + 1) <= width * height
  {
    MulMonotone(y + 1, height, width);
  }

  /** Every cell of the rows above row `y` comes before that row. */
  lemma RowsBefore(width: nat, y: nat)
    ensures forall i, j :: 0 <= i < width && 0 <= j < y ==> Index(width, i, j) < Index(width, 0, y)
  {
    forall i, j | 0 <= i < width && 0 <= j < y
      ensures Index(width, i, j) < Index(width, 0, y)
    {
      IndexBound(width, y, i, j);
    }
  }

  lemma MulMonotone(a: nat, b: nat, c: nat)
    requires a <= b
    ensures a * c <= b * c
  {
  }

  /** Distinct cells have distinct indices. */
  lemma IndexInjective(width: nat, x1: nat, y1: nat, x2: nat, y2: nat)
    requires x1 < width && x2 < width
    requires y1 * width + x1 == y2 * width + x2
    ensures x1 == x2 && y1 == y2
  {
    if y1 < y2 {
      MulMonotone(y1 + 1, y2, width);
      assert false;
    } else if y2 < y1 {
      MulMonotone(y2 + 1, y1, width);
      assert false;
    }
  }

  /** The cell at index `y*width + x` is recovered by division and remainder. */
  lemma Coordinates(width: nat, x: nat, y: nat)
    requires x < width
    ensures Index(width, x, y) / width == y
    ensures Index(width, x, y) % width == x
  {
    var i := Index(width, x, y);
    var q, r := i / width, i % width;
    assert i == q * width + r;
    if q < y {
      MulMonotone(q + 1, y, width);
      assert false;
    } else if y < q {
      MulMonotone(y + 1, q, width);
      assert false;
    }
  }
}
