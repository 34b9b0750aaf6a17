/** The three generators of main.rs that paint every cell of a
    `width x height` grid from a rule on its coordinates: diagonal stripes,
    a checkerboard and a filled circle. Each overwrites the cells
    `0 .. width*height` of the buffer in place, row by row, and leaves any
    longer tail of the buffer alone. */
module Patterns {

  import Grid

  /** The walk shared by the three generators: rows `y` in order, within
      a row columns `x` in order, the cell at `y*width + x` receiving
      `colour(x, y)`. Cells from `width*height` on are not touched. */
  method PaintGrid(pixels: array<bv32>, width: nat, height: nat, colour: (nat, nat) -> bv32)
    requires width * height <= pixels.Length
    modifies pixels
    ensures forall x, y :: 0 <= x < width && 0 <= y < height ==>
      pixels[Grid.Cell(width, height, x, y)] == colour(x, y)
    ensures forall k :: width * height <= k < pixels.Length ==> pixels[k] == old(pixels[k])
  {
    var y := 0;
    while y < height
      invariant 0 <= y <= height
      invariant Painted(pixels[..], old(pixels[..]), width, height, y, colour)
    {
      Grid.RowBound(width, height, y);
      ghost var before := pixels[..];
      PaintRow(pixels, width, y, y * width, colour);
      RowPainted(before, pixels[..], old(pixels[..]), width, height, y, y * width, colour);
      y := y + 1;
    }
    AllPainted(pixels[..], old(pixels[..]), width, height, colour);
  }

  /** The inner loop of the generators: columns `x` in order, the cell at
      `row + x` receiving `colour(x, y)`; nothing outside the row changes. */
  method PaintRow(pixels: array<bv32>, width: nat, y: nat, row: nat, colour: (nat, nat) -> bv32)
    requires row + width <= pixels.Length
    modifies pixels
    ensures forall i :: 0 <= i < width ==> pixels[row + i] == colour(i, y)
    ensures forall k :: 0 <= k < row ==> pixels[k] == old(pixels[k])
    ensures forall k :: row + width <= k < pixels.Length ==> pixels[k] == old(pixels[k])
  {
    var x := 0;
    while x < width
      invariant 0 <= x <= width
      invariant forall i :: 0 <= i < x ==> pixels[row + i] == colour(i, y)
      invariant forall k :: 0 <= k < row ==> pixels[k] == old(pixels[k])
      invariant forall k :: row + x <= k < pixels.Length ==> pixels[k] == old(pixels[k])
    {
      pixels[row + x] := colour(x, y);
      x := x + 1;
    }
  }

  /** After `y` rows of `PaintGrid`: those rows hold their colours and
      every cell from row `y` on still holds its original value. */
  ghost predicate Painted(a: seq<bv32>, original: seq<bv32>, width: nat, height: nat, y: nat,
                          colour: (nat, nat) -> bv32)
  {
    width * height <= |a| == |original| && y <= height &&
    (forall i, j :: 0 <= i < width && 0 <= j < y ==> a[Grid.Cell(width, height, i, j)] == colour(i, j)) &&
    (forall k :: y * width <= k < |a| ==> a[k] == original[k])
  }

  /** Once every row is painted, each cell holds its colour and the tail
      from `width*height` on is as it was. */
  lemma AllPainted(a: seq<bv32>, original: seq<bv32>, width: nat, height: nat, colour: (nat, nat) -> bv32)
    requires Painted(a, original, width, height, height, colour)
    ensures forall x, y :: 0 <= x < width && 0 <= y < height ==> a[Grid.Cell(width, height, x, y)] == colour(x, y)
    ensures forall k :: width * height <= k < |a| ==> a[k] == original[k]
  {
  }

  /** Painting row `y` after rows `0 .. y` extends `Painted` by one row. */
  lemma RowPainted(before: seq<bv32>, after: seq<bv32>, original: seq<bv32>,
                   width: nat, height: nat, y: nat, row: nat, colour: (nat, nat) -> bv32)
    requires y < height && Painted(before, original, width, height, y, colour)
    requires row == y * width && |after| == |before| && row + width <= |after|
    requires forall k :: 0 <= k < row ==> after[k] == before[k]
    requires forall i :: 0 <= i < width ==> after[row + i] == colour(i, y)
    requires forall k :: row + width <= k < |after| ==> after[k] == before[k]
    ensures Painted(after, original, width, height, y + 1, colour)
  {
    Grid.RowBound(width, height, y);
    Grid.RowsBefore(width, y);
    forall i, j | 0 <= i < width && 0 <= j < y + 1
      ensures after[Grid.Cell(width, height, i, j)] == colour(i, j)
    {
      if j < y {
        assert Grid.Cell(width, height, i, j) < y * width;
      }
    }
  }

  // ---------------------------------------------------------------------
  // Stripes
  // ---------------------------------------------------------------------

  /** Colour of cell `(x, y)` in the stripes pattern: the band index
      `(x + y) / tileSize` decides, even bands taking the background. */
  function StripeColour(x: nat, y: nat, tileSize: nat, foreground: bv32, background: bv32): bv32
    requires tileSize > 0
  {
    if ((x + y) / tileSize) % 2 == 0 then background else foreground
  }

  /** `stripes_pattern`: paints every cell of the grid by `StripeColour`.
      A zero `tileSize` is a division by zero as soon as a cell is visited,
      so it is allowed only on a grid without cells. */
  method StripesPattern(pixels: array<bv32>, width: nat, height: nat, tileSize: nat,
                        foreground: bv32, background: bv32)
    requires width * height <= pixels.Length
    requires tileSize > 0 || width == 0 || height == 0
    modifies pixels
    ensures forall x, y :: 0 <= x < width && 0 <= y < height ==>
      pixels[Grid.Cell(width, height, x, y)] == StripeColour(x, y, tileSize, foreground, background)
    ensures forall k :: width * height <= k < pixels.Length ==> pixels[k] == old(pixels[k])
  {
    PaintGrid(pixels, width, height, (x: nat, y: nat) =>
      if tileSize == 0 then background else StripeColour(x, y, tileSize, foreground, background));
  }

  /** Moving `tileSize` cells further along a 45-degree line runs into
      the neighbouring band, which has the other colour. */
  lemma StripesAlternate(x: nat, y: nat, tileSize: nat, foreground: bv32, background: bv32)
    requires tileSize > 0
    ensures StripeColour(x + tileSize, y, tileSize, foreground, background) ==
      if StripeColour(x, y, tileSize, foreground, background) == background then foreground else background
    ensures StripeColour(x, y + tileSize, tileSize, foreground, background) ==
      StripeColour(x + tileSize, y, tileSize, foreground, background)
  {
    DivStep(x + y, tileSize);
    assert x + tileSize + y == x + y + tileSize;
  }

  /** Bands repeat every `2*tileSize` cells. */
  lemma StripesPeriodic(x: nat, y: nat, tileSize: nat, foreground: bv32, background: bv32)
    requires tileSize > 0
    ensures StripeColour(x + 2 * tileSize, y, tileSize, foreground, background) ==
      StripeColour(x, y, tileSize, foreground, background)
  {
    StripesAlternate(x, y, tileSize, foreground, background);
    StripesAlternate(x + tileSize, y, tileSize, foreground, background);
  }

  /** The colour is constant along each anti-diagonal `x + y = c`, and
      every cell holds one of the two colours. */
  lemma StripesAntiDiagonal(x1: nat, y1: nat, x2: nat, y2: nat, tileSize: nat,
                            foreground: bv32, background: bv32)
    requires tileSize > 0
    requires x1 + y1 == x2 + y2
    ensures StripeColour(x1, y1, tileSize, foreground, background) ==
      StripeColour(x2, y2, tileSize, foreground, background)
    ensures StripeColour(x1, y1, tileSize, foreground, background) in {foreground, background}
  {
  }

  // ---------------------------------------------------------------------
  // Checkerboard
  // ---------------------------------------------------------------------

  /** Colour of cell `(x, y)` in the checker pattern: tile `(x / tileSize,
      y / tileSize)` takes the background when its coordinates sum to an
      even number. */
  function CheckerColour(x: nat, y: nat, tileSize: nat, foreground: bv32, background: bv32): bv32
    requires tileSize > 0
  {
    if (x / tileSize + y / tileSize) % 2 == 0 then background else foreground
  }

  /** `checker_pattern`: paints every cell of the grid by `CheckerColour`,
      with the same condition on `tileSize` as `StripesPattern`. */
  method CheckerPattern(pixels: array<bv32>, width: nat, height: nat, tileSize: nat,
                        foreground: bv32, background: bv32)
    requires width * height <= pixels.Length
    requires tileSize > 0 || width == 0 || height == 0
    modifies pixels
    ensures forall x, y :: 0 <= x < width && 0 <= y < height ==>
      pixels[Grid.Cell(width, height, x, y)] == CheckerColour(x, y, tileSize, foreground, background)
    ensures forall k :: width * height <= k < pixels.Length ==> pixels[k] == old(pixels[k])
  {
    PaintGrid(pixels, width, height, (x: nat, y: nat) =>
      if tileSize == 0 then background else CheckerColour(x, y, tileSize, foreground, background));
  }

  /** Cell (0, 0) is background, the board is symmetric under swapping
      `x` and `y`, and every cell holds one of the two colours. */
  lemma CheckerOriginAndTranspose(x: nat, y: nat, tileSize: nat, foreground: bv32, background: bv32)
    requires tileSize > 0
    ensures CheckerColour(0, 0, tileSize, foreground, background) == background
    ensures CheckerColour(x, y, tileSize, foreground, background) ==
      CheckerColour(y, x, tileSize, foreground, background)
    ensures CheckerColour(x, y, tileSize, foreground, background) in {foreground, background}
  {
  }

  /** All cells of one `tileSize x tileSize` tile share a colour. */
  lemma CheckerTile(x1: nat, y1: nat, x2: nat, y2: nat, tileSize: nat,
                    foreground: bv32, background: bv32)
    requires tileSize > 0
    requires x1 / tileSize == x2 / tileSize && y1 / tileSize == y2 / tileSize
    ensures CheckerColour(x1, y1, tileSize, foreground, background) ==
      CheckerColour(x2, y2, tileSize, foreground, background)
  {
  }

  /** The horizontally and the vertically adjacent tile have the other colour. */
  lemma CheckerAlternate(x: nat, y: nat, tileSize: nat, foreground: bv32, background: bv32)
    requires tileSize > 0
    ensures CheckerColour(x + tileSize, y, tileSize, foreground, background) ==
      if CheckerColour(x, y, tileSize, foreground, background) == background then foreground else background
    ensures CheckerColour(x, y + tileSize, tileSize, foreground, background) ==
      if CheckerColour(x, y, tileSize, foreground, background) == background then foreground else background
  {
    DivStep(x, tileSize);
    DivStep(y, tileSize);
  }

  /** An 8x8 board with 4x4 tiles is a 2x2 grid of tiles, background in
      the top-left and bottom-right quarters. */
  lemma CheckerEightByEight(x: nat, y: nat, foreground: bv32, background: bv32)
    requires x < 8 && y < 8 && foreground != background
    ensures CheckerColour(x, y, 4, foreground, background) == background <==> ((x < 4) <==> (y < 4))
  {
    assert x / 4 == if x < 4 then 0 else 1;
    assert y / 4 == if y < 4 then 0 else 1;
  }

  /** Adding the divisor to the dividend adds one to the quotient. */
  lemma DivStep(a: nat, d: nat)
    requires d > 0
    ensures (a + d) / d == a / d + 1
  {
    var q, r := a / d, a % d;
    assert a + d == Grid.Index(d, r, q + 1);
    Grid.Coordinates(d, r, q + 1);
  }

  // ---------------------------------------------------------------------
  // Filled circle
  // ---------------------------------------------------------------------

  /** Whether the centre of cell `(x, y)` lies in the disc of radius
      `radius` around the middle of the grid, tested in doubled integer
      coordinates: the cell centre `(2x+1, 2y+1)` against the grid centre
      `(width, height)` and the doubled radius. */
  predicate InDisc(x: int, y: int, width: int, height: int, radius: int)
  {
    WithinRadius(width - x * 2 - 1, height - y * 2 - 1, radius * 2)
  }

  /** The offset `(dx, dy)` is at most `r` long. */
  predicate WithinRadius(dx: int, dy: int, r: int)
  {
    dx * dx + dy * dy <= r * r
  }

  /** Colour of cell `(x, y)` in the filled circle: inside is background. */
  function SolidColour(x: int, y: int, width: int, height: int, radius: int,
                       foreground: bv32, background: bv32): bv32
  {
    if InDisc(x, y, width, height, radius) then background else foreground
  }

  /** The sizes for which no `i32` operation of `solid_circle` overflows. */
  predicate I32Safe(width: nat, height: nat, radius: nat)
  {
    width * width + height * height < 0x8000_0000 && (radius * 2) * (radius * 2) < 0x8000_0000
  }

  /** Whether `v` is a value of Rust's `i32`. */
  predicate IsI32(v: int)
  {
    -0x8000_0000 <= v < 0x8000_0000
  }

  /** Under `I32Safe` every intermediate value of the per-cell test lies in
      the `i32` range, so the mathematical test is the one the source runs. */
  lemma SolidFitsI32(x: nat, y: nat, width: nat, height: nat, radius: nat)
    requires I32Safe(width, height, radius)
    requires x < width && y < height
    ensures IsI32(radius) && IsI32(radius * 2) && IsI32((radius * 2) * (radius * 2))
    ensures IsI32(width) && IsI32(x) && IsI32(x * 2) && IsI32(width - x * 2)
    ensures IsI32(height) && IsI32(y) && IsI32(y * 2) && IsI32(height - y * 2)
    ensures var dx, dy := width - x * 2 - 1, height - y * 2 - 1;
      IsI32(dx) && IsI32(dy) && IsI32(dx * dx) && IsI32(dy * dy) && IsI32(dx * dx + dy * dy)
  {
    OffsetFits(x, width);
    OffsetFits(y, height);
    SquareFits(radius * 2);
  }

  /** A natural number whose square is an `i32` value is one itself. */
  lemma SquareFits(a: nat)
    requires a * a < 0x8000_0000
    ensures IsI32(a) && IsI32(a * a)
  {
    if a > 0 {
      Grid.MulMonotone(1, a, a);
    }
  }

  /** For a coordinate `x` below `size` with `size * size` in range, the
      doubled coordinate, the offset `size - 2x - 1` and its square
      (at most `size * size`) are `i32` values. */
  lemma OffsetFits(x: nat, size: nat)
    requires x < size && size * size < 0x8000_0000
    ensures IsI32(size) && IsI32(x * 2) && IsI32(size - x * 2) && IsI32(size - x * 2 - 1)
    ensures 0 <= (size - x * 2 - 1) * (size - x * 2 - 1) <= size * size
  {
    if size >= 0x1_0000 {
      Grid.MulMonotone(0x1_0000, size, 0x1_0000);
      Grid.MulMonotone(0x1_0000, size, size);
      assert false;
    }
    SquareBound(size - x * 2 - 1, size);
  }

  lemma SquareBound(a: int, b: nat)
    requires Abs(a) <= b
    ensures 0 <= a * a <= b * b
  {
    var m := Abs(a);
    assert a * a == m * m;
    Grid.MulMonotone(m, b, m);
    Grid.MulMonotone(m, b, b);
  }

  /** `solid_circle`: paints every cell of the grid by `SolidColour`. */
  method SolidCircle(pixels: array<bv32>, width: nat, height: nat, radius: nat,
                     foreground: bv32, background: bv32)
    requires width * height <= pixels.Length
    requires I32Safe(width, height, radius)
    modifies pixels
    ensures forall x, y :: 0 <= x < width && 0 <= y < height ==>
      pixels[Grid.Cell(width, height, x, y)] == SolidColour(x, y, width, height, radius, foreground, background)
    ensures forall k :: width * height <= k < pixels.Length ==> pixels[k] == old(pixels[k])
  {
    var cx := width;
    var cy := height;
    var r := radius * 2;
    PaintGrid(pixels, width, height, (x: nat, y: nat) =>
      var dx := cx - x * 2 - 1;
      var dy := cy - y * 2 - 1;
      if dx * dx + dy * dy <= r * r then background else foreground);
  }

  /** The integer test is exactly "the cell centre `(x + 1/2, y + 1/2)` is
      within distance `radius` of the grid centre `(width/2, height/2)`". */
  lemma InDiscIsEuclidean(x: int, y: int, width: int, height: int, radius: int)
    ensures InDisc(x, y, width, height, radius) <==>
      Square((x as real + 0.5) - (width as real) / 2.0) +
      Square((y as real + 0.5) - (height as real) / 2.0) <= Square(radius as real)
  {
    HalvedCompare(width - x * 2 - 1, height - y * 2 - 1, radius * 2,
                  (x as real + 0.5) - (width as real) / 2.0,
                  (y as real + 0.5) - (height as real) / 2.0,
                  radius as real);
  }

  function Square(e: real): real
  {
    e * e
  }

  /** Halving every side of the comparison `dx^2 + dy^2 <= r^2` (up to
      sign) keeps it. */
  lemma HalvedCompare(dx: int, dy: int, r: int, ex: real, ey: real, er: real)
    requires ex == -(dx as real) / 2.0 && ey == -(dy as real) / 2.0 && er == (r as real) / 2.0
    ensures WithinRadius(dx, dy, r) <==> Square(ex) + Square(ey) <= Square(er)
  {
    HalfSquare(dx, ex);
    HalfSquare(dy, ey);
    HalfSquare(r, er);
    QuarterSum(dx * dx, dy * dy, r * r, ex * ex, ey * ey, er * er);
  }

  /** A value that is half of an integer `d` up to sign squares to `d*d/4`. */
  lemma HalfSquare(d: int, e: real)
    requires e == (d as real) / 2.0 || e == -(d as real) / 2.0
    ensures e * e == ((d * d) as real) / 4.0
  {
  }

  /** Comparing `a + b` with `c` is comparing their quarters. */
  lemma QuarterSum(a: int, b: int, c: int, qa: real, qb: real, qc: real)
    requires qa == (a as real) / 4.0 && qb == (b as real) / 4.0 && qc == (c as real) / 4.0
    ensures a + b <= c <==> qa + qb <= qc
  {
  }

  /** The filled circle is mirror-symmetric about the grid's vertical and
      horizontal centre lines. */
  lemma SolidMirror(x: int, y: int, width: int, height: int, radius: int)
    ensures InDisc(width - 1 - x, y, width, height, radius) == InDisc(x, y, width, height, radius)
    ensures InDisc(x, height - 1 - y, width, height, radius) == InDisc(x, y, width, height, radius)
  {
    var dx := width - x * 2 - 1;
    var dy := height - y * 2 - 1;
    assert width - (width - 1 - x) * 2 - 1 == -dx;
    assert height - (height - 1 - y) * 2 - 1 == -dy;
    assert (-dx) * (-dx) == dx * dx;
    assert (-dy) * (-dy) == dy * dy;
  }

  /** A cell at least as close to the centre on both axes as a cell inside
      the disc is inside it too: the disc has no holes. */
  lemma SolidCloserIsInside(x1: int, y1: int, x2: int, y2: int, width: int, height: int, radius: int)
    requires InDisc(x1, y1, width, height, radius)
    requires Abs(width - x2 * 2 - 1) <= Abs(width - x1 * 2 - 1)
    requires Abs(height - y2 * 2 - 1) <= Abs(height - y1 * 2 - 1)
    ensures InDisc(x2, y2, width, height, radius)
  {
    CloserWithin(width - x1 * 2 - 1, height - y1 * 2 - 1, width - x2 * 2 - 1, height - y2 * 2 - 1, radius * 2);
  }

  /** An offset no longer than a within-radius offset on either axis is
      within the radius. */
  lemma CloserWithin(dx1: int, dy1: int, dx2: int, dy2: int, r: int)
    requires WithinRadius(dx1, dy1, r)
    requires Abs(dx2) <= Abs(dx1) && Abs(dy2) <= Abs(dy1)
    ensures WithinRadius(dx2, dy2, r)
  {
    SquareBound(dx2, Abs(dx1));
    SquareBound(dy2, Abs(dy1));
    assert Abs(dx1) * Abs(dx1) == dx1 * dx1;
    assert Abs(dy1) * Abs(dy1) == dy1 * dy1;
  }

  function Abs(a: int): nat
  {
    if a < 0 then -a else a
  }
}
