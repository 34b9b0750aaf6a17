# Midpoint circle visualisation — a Dafny model

The program renders square or rectangular images into a flat buffer of
packed `0x00RRGGBB` colours (`u32`), cell `(x, y)` at index `y*width + x`,
and saves them as binary PPM ("P6") files. This project models its core,
`main.rs`:

- `write_as_ppm` (module `Ppm`, file `ppm.dfy`): the bytes a successful
  write emits — the ASCII header `P6\n<width> <height> 255\n`, then red,
  green, blue of every grid pixel in row-major order. The nested loops are
  the methods `WritePixels` / `WriteRow`, proved to produce the pure
  encoding `Image`; the layout of `Image`, the channel pack/unpack round
  trips and the decimal round trip of the header are lemmas. A 2×2 buffer
  of `0x123456` is worked out to its 23 bytes.
- `stripes_pattern`, `checker_pattern`, `solid_circle` (module `Patterns`,
  file `patterns.dfy`): methods over an `array<bv32>` with the source's
  row/column loops (`PaintGrid` / `PaintRow`). Each method's postcondition
  says that every grid cell holds a pure colour function of its coordinates
  and that the buffer past `width*height` is unchanged. The colour functions
  then get their lemmas: alternation and periodicity of stripes, constant
  anti-diagonals, checker tiles and transpose symmetry, the disc test being
  the Euclidean "cell centre within `radius` of the grid centre", mirror
  symmetry and hole-freeness of the disc, and freedom from `i32` overflow.
- `hollow_circle` (module `HollowCircle`, file `hollow_circle.dfy`): the
  midpoint circle algorithm, with its `f32` loop variables held doubled as
  integers (`x2 = 2x`, `y2 = 2y`, both exact because `x` is whole and `y`
  a half-integer). The loop states are the pure sequence `Trace`. The
  method fills the buffer, runs the `while x <= y` loop with the eight
  writes, and is proved to produce `HollowImage`: foreground exactly at
  the eight reflections of every traced point that passes the guard. The
  `assert!(width == height)` becomes the result `ok`. On a square grid of
  side `n` the lemmas show:
  - all eight writes are inside the buffer;
  - the ring is closed under the transpose and under `r -> n - r`,
    `c -> n - c`. These reflections are about index `n`, not `n - 1`, so
    row 0 and column 0 are never drawn.
  - each traced point is the last one inside the circle on its column;
  - consecutive traced points are 8-neighbours.

Module `Grid` (`grid.dfy`) holds the row-major index arithmetic shared by
all three.

## Model

| member | source | states |
|---|---|---|
| Grid.Cell | main.rs:21 | the index `y*width + x` of a grid cell is below `width*height`, so every cell access of the loops is in bounds |
| Grid.IndexInjective | main.rs:21 | distinct cells of the grid map to distinct buffer indices |
| Grid.Coordinates | main.rs:21 | the cell is recovered from its index by division and remainder by `width` |
| Ppm.Rgb | main.rs:25-27 | exactly three bytes are written per pixel |
| Ppm.PackChannels | main.rs:25-27 | repacking the three extracted channels gives the pixel's low 24 bits |
| Ppm.ChannelsOfPack | main.rs:25-27 | extracting the channels of a packed colour gives back red, green and blue |
| Ppm.ChannelIgnoresHighBits | main.rs:25-27 | the bits above bit 23 of a pixel never reach the file |
| Ppm.Decimal | main.rs:15 | a dimension prints as a non-empty string of digits with no leading zero |
| Ppm.DecimalRoundTrip | main.rs:15 | reading the printed digits gives the dimension back |
| Ppm.Ascii | main.rs:15 | the header text is emitted as one byte per character, its ASCII code |
| Ppm.Header | main.rs:15 | the header bytes are the ASCII codes of `P6\n<width> <height> 255\n` |
| Ppm.PixelBytesLayout | main.rs:17-34 | the pixel records take three bytes per pixel, record `i` at `3i..3i+2` holding red, green, blue |
| Ppm.PixelBytesExtend | main.rs:25-32 | emitting one more pixel appends its three bytes, nothing else |
| Ppm.ImageAt | main.rs:21-32 | grid pixel `i` is channel `k` at byte offset `|header| + 3i + k` |
| Ppm.ImageLayout | main.rs:15-34 | the file is the header, then exactly `3*width*height` bytes, the byte for pixel `(x, y)` channel `k` at `|header| + 3*(y*width + x) + k` |
| Ppm.WriteAsPpm | main.rs:12-36 | the emitted bytes are the header followed by the PPM encoding of the `width*height` grid pixels |
| Ppm.WritePixels | main.rs:17-34 | the row loop emits the records of pixels `0 .. width*height` in order |
| Ppm.WriteRow | main.rs:19-33 | the column loop appends the records of one row's pixels in order |
| Ppm.SmallRgb | main.rs:25-27 | the pixel `0x123456` is written as bytes 12 34 56 |
| Ppm.SmallHeader | main.rs:15 | the header of a 2×2 image is `P6\n2 2 255\n` |
| Ppm.SmallBody | main.rs:17-32 | four pixels `0x123456` give 12 34 56 four times |
| Ppm.SmallImage | main.rs:12-36 | the whole 23-byte file for a 2×2 buffer of `0x123456` |
| Patterns.PaintGrid | main.rs:40-53 | after the row loop every grid cell `(x, y)` holds `colour(x, y)` and the buffer past `width*height` is unchanged |
| Patterns.PaintRow | main.rs:42-52 | the column loop sets cell `row + x` to `colour(x, y)` for each column and changes nothing outside that row |
| Patterns.RowPainted | main.rs:40-53 | painting row `y` after rows `0 .. y-1` leaves rows `0 .. y` painted and the rest untouched |
| Patterns.StripesPattern | main.rs:38-54 | every grid cell takes the background when `((x + y) / tile_size) % 2 == 0`, the foreground otherwise; cells past the grid unchanged |
| Patterns.StripesAlternate | main.rs:44 | `tile_size` steps right or down from a cell reach the opposite colour, and both steps give the same colour |
| Patterns.StripesPeriodic | main.rs:44 | the stripes repeat every `2*tile_size` cells |
| Patterns.StripesAntiDiagonal | main.rs:44-51 | cells with the same `x + y` share a colour, which is the foreground or the background |
| Patterns.CheckerPattern | main.rs:56-72 | every grid cell takes the background when `(x / tile_size + y / tile_size) % 2 == 0`, the foreground otherwise; cells past the grid unchanged |
| Patterns.CheckerOriginAndTranspose | main.rs:62-69 | the top-left cell is background, the board is symmetric under swapping `x` and `y`, and every cell is foreground or background |
| Patterns.CheckerTile | main.rs:62 | all cells of one tile share a colour |
| Patterns.CheckerAlternate | main.rs:62-69 | the tile to the right and the tile below have the opposite colour |
| Patterns.CheckerEightByEight | main.rs:62-69 | an 8×8 board with 4×4 tiles is background exactly in its top-left and bottom-right quarters |
| Patterns.SolidCircle | main.rs:74-97 | every grid cell takes the background when `dx*dx + dy*dy <= r*r` with `dx = width - 2x - 1`, `dy = height - 2y - 1`, `r = 2*radius`, the foreground otherwise; cells past the grid unchanged |
| Patterns.SolidFitsI32 | main.rs:76-87 | for the sizes allowed, every `i32` value the per-cell test computes is in range, so no operation overflows |
| Patterns.InDiscIsEuclidean | main.rs:84-87 | the integer test holds exactly when the cell centre `(x + 1/2, y + 1/2)` is within `radius` of the grid centre `(width/2, height/2)` |
| Patterns.SolidMirror | main.rs:84-87 | the disc is mirror-symmetric about the vertical and the horizontal centre line (`x -> width - 1 - x`, `y -> height - 1 - y`) |
| Patterns.SolidCloserIsInside | main.rs:84-87 | a cell no farther from the centre on either axis than an inside cell is inside: the disc has no holes |
| HollowCircle.Octant | main.rs:108-141 | the loop states from `(x, y)` on: `x` grows by one per state, `y` never grows from one state to the next nor exceeds its start, and every state has `x <= y` |
| HollowCircle.StepY2 | main.rs:136-140 | after `x` grows, `y` stays or drops by exactly one |
| HollowCircle.OctantStep | main.rs:111-141 | the defining unfolding of `Octant` for one iteration (a helper, not a property): the state is visited, then the loop continues from `x + 1` and the stepped `y` |
| HollowCircle.OctantHalfIntegers | main.rs:108-140 | from a whole `x` and a half-integer `y`, every loop state keeps a whole `x` and a half-integer `y` |
| HollowCircle.OctantOnCircle | main.rs:136-140 | every traced point is inside the circle and the point above it is outside: `x² + y² <= r² < x² + (y + 1)²` |
| HollowCircle.TraceOnCircle | main.rs:105-140 | the same for the whole trace started at `x = 0`, `y = r - 1/2` |
| HollowCircle.OctantConnected | main.rs:136-140 | consecutive traced points are 8-neighbours: `x` grows by one, `y` stays or drops by one |
| HollowCircle.PlottedStep | main.rs:111-134 | an iteration plots its point's pixel when the point passes the guard, then the later pixels |
| HollowCircle.TraceAdvance | main.rs:111-134 | the pixels still to come advance with the loop; a pixel plotted on a square grid of side `n` has `n/2 <= dx <= dy < n` |
| HollowCircle.PlottedInOctant | main.rs:113-121 | on a square grid every plotted pixel has `n/2 <= dx <= dy < n`, and pixels are plotted only when `n >= 2` |
| HollowCircle.ReflectionsInGrid | main.rs:123-133 | each of the eight cells written for an octant pixel lies in the grid, off row 0 and column 0 |
| HollowCircle.ReflectionIndicesInGrid | main.rs:123-133 | each of the eight buffer indices written is below `n*n` |
| HollowCircle.ReflectionsSymmetric | main.rs:123-133 | the eight cells are closed under the transpose and the reflections `r -> n - r`, `c -> n - c` (about `n`, not `n - 1`) |
| HollowCircle.RingIndicesSnoc | main.rs:123-133 | plotting one more pixel adds exactly its eight indices to the written set |
| HollowCircle.RingSymmetric | main.rs:123-133 | the cells written for any sequence of pixels are closed under the same three maps |
| HollowCircle.RingInGrid | main.rs:111-133 | every cell written for the whole trace lies in the grid, off row 0 and column 0 |
| HollowCircle.IndexWrittenIffCell | main.rs:123-133 | a grid cell's index is written exactly when the cell is one of the reflections written |
| HollowCircle.HollowCell | main.rs:101-133 | a cell of the final square image is foreground exactly when it is one of the written reflections |
| HollowCircle.TraceRingSymmetric | main.rs:111-133 | each written cell lies off row 0 and column 0, and its transpose and both reflections are written |
| HollowCircle.HollowSymmetric | main.rs:101-133 | a foreground cell `(row, col)` of the image has `row, col >= 1`, and `(col, row)`, `(n - row, col)`, `(row, n - col)` are foreground too |
| HollowCircle.HollowBorder | main.rs:101-133 | row 0, column 0 and the buffer past `n*n` keep the background |
| HollowCircle.HollowImage | main.rs:101-133 | the final buffer has the buffer's length: foreground at the written indices, background elsewhere |
| HollowCircle.ShowsImage | main.rs:101-133 | a buffer showing the foreground exactly at the written indices of the whole trace is the final image |
| HollowCircle.PaintEight | main.rs:123-133 | the eight foreground assignments add their eight indices to the foreground set, leaving every other cell as it was |
| HollowCircle.PlotReflections | main.rs:120-133 | the writes of one iteration, at the source's eight index expressions, are in bounds and add that pixel's reflections |
| HollowCircle.HollowCircle | main.rs:99-142 | `ok` (no `assert!` failure) holds exactly when the grid is square or no point passes the guard; then the buffer is `HollowImage`, otherwise it is all background, the state at the failed assertion |

## Left out

- `main`, the command-line argument and file creation are not modelled. Neither are a failing or short `file.write` and the `io::Result` error path: `Ppm.WriteAsPpm` returns the bytes a successful run writes.
- Ppm.WriteAsPpm: `file.write` may write fewer bytes than given and the source ignores its count. The model assumes every write is complete.
- Buffers shorter than `width*height` (an index panic in the source) are excluded by a precondition on `Ppm.WriteAsPpm` and the three generators of `Patterns`, not modelled as a panic.
- HollowCircle.HollowCircle: the source fills a buffer of any length and panics only when one of the eight writes falls past its end, which happens only for a point that passes the guard. On a square grid the model nevertheless requires the whole grid to fit in the buffer. A non-square grid is accepted with any buffer length, since its `assert!` fires before any write.
- Patterns.StripesPattern: a zero `tile_size` panics on the first cell visited, so the model requires `tile_size > 0` unless the grid has no cells. The panic itself is not modelled.
- Patterns.CheckerPattern: the same precondition on `tile_size`, for the same reason.
- Patterns.SolidCircle: `i32` overflow and truncating `as i32` casts are not modelled as wrap-around. `I32Safe` requires `width² + height² < 2^31` and `(2*radius)² < 2^31`. That bound is sufficient, not necessary, and `SolidFitsI32` proves that every intermediate value stays in range under it.
- HollowCircle.HollowCircle: `f32` rounding is not modelled. `F32Exact` (all sizes below 1024) marks the range where every value the loop computes is an exact multiple of 1/4, small enough for `f32`. Within that range the loop runs on doubled integers.
- HollowCircle.HollowCircle: the panic of `assert!` is modelled as returning `ok = false` with the buffer as it is at that point, which is all background.
- The header is converted to bytes only over its own alphabet (`P`, newline, space, digits); general string encoding is not modelled.
