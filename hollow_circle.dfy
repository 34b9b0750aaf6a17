/** `hollow_circle` of main.rs: the midpoint circle algorithm. The buffer
    is cleared to the background, then the first octant of a circle of
    radius `radius` around the grid centre is traced with a `while x <= y`
    loop, and each traced point that falls on the grid is written in the
    foreground at its eight reflections.

    The source keeps `x` and `y` in `f32` variables that only ever hold
    whole or half-integer values (`x = i`, `y = radius - 1/2 - j`). Here
    both are kept doubled, as integers: `x2 = 2*x`, `y2 = 2*y`. In these
    terms the traced point `(px, py) = (width/2 + x, height/2 + y)` is
    `2*px = width + x2`, `2*py = height + y2`, its pixel is
    `((width + x2) / 2, (height + y2) / 2)` (truncating a non-negative
    `f32` is the floor), the loop test `x <= y` is `x2 <= y2`, and the step
    test `x*x + y*y > r*r` is `x2*x2 + y2*y2 > 4*r*r`. */
module HollowCircle {

  import Grid

  /** The loop state at the head of one iteration, both coordinates doubled. */
  datatype Step = Step(x2: int, y2: int)

  /** A pixel, column `dx` and row `dy` of the grid. */
  datatype Pixel = Pixel(dx: int, dy: int)

  /** The dimensions for which every `f32` value the loop computes is an
      exact multiple of 1/4 below 2^22, so that `f32` arithmetic is exact
      and the doubled-integer model computes what the source computes. */
  predicate F32Exact(width: nat, height: nat, radius: nat)
  {
    width < 1024 && height < 1024 && radius < 1024
  }

  // ---------------------------------------------------------------------
  // The traced octant
  // ---------------------------------------------------------------------

  /** The loop states visited from `(x2, y2)` on, in order. The loop runs
      while `x <= y`; each iteration adds one to `x`, then takes one from
      `y` when the point has left the circle. `x` counts up in steps of one
      and `y` never grows. */
  function Octant(radius: nat, x2: int, y2: int): (steps: seq<Step>)
    requires x2 >= 0
    ensures forall k :: 0 <= k < |steps| ==>
      steps[k].x2 == x2 + 2 * k && steps[k].x2 <= steps[k].y2 <= y2
    ensures forall k :: 0 < k < |steps| ==> steps[k].y2 <= steps[k - 1].y2
    decreases y2 - x2 + 2
  {
    if x2 > y2 then []
    else
      [Step(x2, y2)] + Octant(radius, x2 + 2, StepY2(radius, x2 + 2, y2))
  }

  /** The step test, run after `x` has grown: `y` drops by one when the
      point `(x, y)` lies outside the circle. */
  function StepY2(radius: nat, x2: int, y2: int): (next: int)
    ensures next == y2 || next == y2 - 2
  {
    if x2 * x2 + y2 * y2 > 4 * radius * radius then y2 - 2 else y2
  }

  /** All loop states of one call: `x = 0`, `y = radius - 1/2` at the start. */
  function Trace(radius: nat): seq<Step>
  {
    Octant(radius, 0, 2 * radius - 1)
  }

  /** One iteration: the state `(x2, y2)` is visited, then the loop goes on
      from `x2 + 2` and from `y2 - 2` or `y2` as the step test says. */
  lemma OctantStep(radius: nat, x2: int, y2: int)
    requires 0 <= x2 <= y2
    ensures Octant(radius, x2, y2) == [Step(x2, y2)] + Octant(radius, x2 + 2, StepY2(radius, x2 + 2, y2))
  {
  }

  /** Started from a whole `x` and a half-integer `y`, every loop state has
      a whole `x` and a half-integer `y`: these are the only values the
      source's `f32` variables take, so doubling them loses nothing. */
  lemma {:induction false} OctantHalfIntegers(radius: nat, x2: int, y2: int)
    requires x2 >= 0 && x2 % 2 == 0 && y2 % 2 == 1
    ensures forall s :: s in Octant(radius, x2, y2) ==> s.x2 % 2 == 0 && s.y2 % 2 == 1
    decreases y2 - x2 + 2
  {
    if x2 <= y2 {
      var nx2 := x2 + 2;
      var ny2 := StepY2(radius, nx2, y2);
      OctantHalfIntegers(radius, nx2, ny2);
    }
  }

  /** The arithmetic of one step: a point inside the circle whose upper
      neighbour is outside keeps that property after the step. */
  lemma StepStaysOnCircle(x2: int, y2: int, rr: int)
    requires 0 <= x2 <= y2
    requires x2 * x2 + y2 * y2 <= rr < x2 * x2 + (y2 + 2) * (y2 + 2)
    ensures var ny2 := if (x2 + 2) * (x2 + 2) + y2 * y2 > rr then y2 - 2 else y2;
      (x2 + 2 <= ny2 ==> (x2 + 2) * (x2 + 2) + ny2 * ny2 <= rr) &&
      rr < (x2 + 2) * (x2 + 2) + (ny2 + 2) * (ny2 + 2)
  {
    var nx2 := x2 + 2;
    assert nx2 * nx2 == x2 * x2 + 4 * x2 + 4;
    if nx2 * nx2 + y2 * y2 > rr {
      var ny2 := y2 - 2;
      assert ny2 + 2 == y2;
      if nx2 <= ny2 {
        assert ny2 * ny2 == y2 * y2 - 4 * y2 + 4;
      }
    } else {
      assert (y2 + 2) * (y2 + 2) >= y2 * y2;
    }
  }

  /** Each traced point is the last one on its column inside the circle:
      `x^2 + y^2 <= r^2 < x^2 + (y + 1)^2`, i.e. `y` is the largest
      half-integer with the point still inside the circle. */
  lemma {:induction false} OctantOnCircle(radius: nat, x2: int, y2: int)
    requires x2 >= 0
    requires x2 <= y2 ==> x2 * x2 + y2 * y2 <= 4 * radius * radius
    requires 4 * radius * radius < x2 * x2 + (y2 + 2) * (y2 + 2)
    ensures forall s :: s in Octant(radius, x2, y2) ==>
      s.x2 * s.x2 + s.y2 * s.y2 <= 4 * radius * radius < s.x2 * s.x2 + (s.y2 + 2) * (s.y2 + 2)
    decreases y2 - x2 + 2
  {
    if x2 <= y2 {
      var ny2 := StepY2(radius, x2 + 2, y2);
      StepStaysOnCircle(x2, y2, 4 * radius * radius);
      OctantOnCircle(radius, x2 + 2, ny2);
      OctantStep(radius, x2, y2);
    }
  }

  /** The whole trace hugs the circle (see `OctantOnCircle`). */
  lemma TraceOnCircle(radius: nat)
    ensures forall s :: s in Trace(radius) ==>
      s.x2 * s.x2 + s.y2 * s.y2 <= 4 * radius * radius < s.x2 * s.x2 + (s.y2 + 2) * (s.y2 + 2)
  {
    var y2 := 2 * radius - 1;
    assert (y2 + 2) * (y2 + 2) == 4 * radius * radius + 4 * radius + 1;
    if 0 <= y2 {
      assert y2 * y2 == 4 * radius * radius - 4 * radius + 1;
    }
    OctantOnCircle(radius, 0, y2);
  }

  /** Consecutive traced points are neighbours: `x` grows by one and `y`
      stays or drops by one, so the octant is an 8-connected path. */
  lemma {:induction false} OctantConnected(radius: nat, x2: int, y2: int)
    requires x2 >= 0
    ensures forall k :: 0 <= k < |Octant(radius, x2, y2)| - 1 ==>
      Octant(radius, x2, y2)[k + 1].x2 == Octant(radius, x2, y2)[k].x2 + 2 &&
      Octant(radius, x2, y2)[k + 1].y2 in {Octant(radius, x2, y2)[k].y2, Octant(radius, x2, y2)[k].y2 - 2}
    decreases y2 - x2 + 2
  {
    var steps := Octant(radius, x2, y2);
    if x2 <= y2 {
      var nx2 := x2 + 2;
      var ny2 := StepY2(radius, nx2, y2);
      var rest := Octant(radius, nx2, ny2);
      OctantConnected(radius, nx2, ny2);
      assert steps == [Step(x2, y2)] + rest;
      forall k | 0 <= k < |steps| - 1
        ensures steps[k + 1].x2 == steps[k].x2 + 2 && steps[k + 1].y2 in {steps[k].y2, steps[k].y2 - 2}
      {
        if k > 0 {
          assert steps[k] == rest[k - 1] && steps[k + 1] == rest[k];
        } else {
          assert steps[1] == rest[0];
        }
      }
    }
  }

  // ---------------------------------------------------------------------
  // Plotted pixels
  // ---------------------------------------------------------------------

  /** The guard of the source: the traced point lies in `[0, width) x [0, height)`. */
  predicate OnCanvas(width: nat, height: nat, s: Step)
  {
    0 <= width + s.x2 < 2 * width && 0 <= height + s.y2 < 2 * height
  }

  /** The pixel of a traced point: `(px as usize, py as usize)`. */
  function PixelOf(width: nat, height: nat, s: Step): Pixel
  {
    Pixel((width + s.x2) / 2, (height + s.y2) / 2)
  }

  /** The pixels plotted for a sequence of loop states (those passing the guard). */
  function Plotted(width: nat, height: nat, steps: seq<Step>): seq<Pixel>
  {
    if steps == [] then []
    else
      var s := steps[|steps| - 1];
      Plotted(width, height, steps[..|steps| - 1]) + (if OnCanvas(width, height, s) then [PixelOf(width, height, s)] else [])
  }

  lemma {:induction false} PlottedAppend(width: nat, height: nat, a: seq<Step>, b: seq<Step>)
    ensures Plotted(width, height, a + b) == Plotted(width, height, a) + Plotted(width, height, b)
    decreases |b|
  {
    if b != [] {
      var front := b[..|b| - 1];
      assert (a + b)[..|a + b| - 1] == a + front;
      PlottedAppend(width, height, a, front);
    } else {
      assert a + b == a;
    }
  }

  /** One iteration of the loop plots the pixel of its state, when the
      state passes the guard, then the rest of the octant's pixels. */
  lemma PlottedStep(width: nat, height: nat, radius: nat, x2: int, y2: int)
    requires 0 <= x2 <= y2
    ensures Plotted(width, height, Octant(radius, x2, y2)) ==
      (if OnCanvas(width, height, Step(x2, y2)) then [PixelOf(width, height, Step(x2, y2))] else []) +
      Plotted(width, height, Octant(radius, x2 + 2, StepY2(radius, x2 + 2, y2)))
  {
    OctantStep(radius, x2, y2);
    PlottedAppend(width, height, [Step(x2, y2)], Octant(radius, x2 + 2, StepY2(radius, x2 + 2, y2)));
    assert [Step(x2, y2)][..0] == [];
  }

  /** One turn of the tracing loop: the pixels still to come are the
      current point's pixel, if it passes the guard, then those of the
      next loop state; a pixel of a square grid lies in the grid's octant. */
  lemma TraceAdvance(width: nat, height: nat, radius: nat, x2: int, y2: int,
                     all: seq<Pixel>, pts: seq<Pixel>)
    requires 0 <= x2 <= y2
    requires all == pts + Plotted(width, height, Octant(radius, x2, y2))
    ensures OnCanvas(width, height, Step(x2, y2)) ==>
      all == (pts + [PixelOf(width, height, Step(x2, y2))]) +
        Plotted(width, height, Octant(radius, x2 + 2, StepY2(radius, x2 + 2, y2)))
    ensures !OnCanvas(width, height, Step(x2, y2)) ==>
      all == pts + Plotted(width, height, Octant(radius, x2 + 2, StepY2(radius, x2 + 2, y2)))
    ensures OnCanvas(width, height, Step(x2, y2)) && width == height && all == Plotted(width, height, Trace(radius)) ==>
      var p := PixelOf(width, height, Step(x2, y2));
      2 <= width && width / 2 <= p.dx <= p.dy < width
  {
    var later := Plotted(width, height, Octant(radius, x2 + 2, StepY2(radius, x2 + 2, y2)));
    PlottedStep(width, height, radius, x2, y2);
    if OnCanvas(width, height, Step(x2, y2)) {
      var p := PixelOf(width, height, Step(x2, y2));
      AppendAssoc(pts, [p], later);
      assert all[|pts|] == p;
      PlottedInOctant(width, radius);
    } else {
      assert [] + later == later;
    }
  }

  lemma AppendAssoc<T>(a: seq<T>, b: seq<T>, c: seq<T>)
    ensures a + (b + c) == (a + b) + c
  {
  }

  /** Every plotted pixel comes from a traced point that passed the guard. */
  lemma {:induction false} PlottedWitness(width: nat, height: nat, steps: seq<Step>, p: Pixel) returns (j: nat)
    requires p in Plotted(width, height, steps)
    ensures j < |steps| && OnCanvas(width, height, steps[j]) && p == PixelOf(width, height, steps[j])
  {
    var front := steps[..|steps| - 1];
    if p in Plotted(width, height, front) {
      j := PlottedWitness(width, height, front, p);
      assert steps[j] == front[j];
    } else {
      j := |steps| - 1;
    }
  }

  /** On a square grid of side `n`, every plotted pixel has `n/2 <= dx <=
      dy < n`, and a plotted pixel exists only when `n >= 2`. */
  lemma PlottedInOctant(n: nat, radius: nat)
    ensures forall p :: p in Plotted(n, n, Trace(radius)) ==> 2 <= n && n / 2 <= p.dx <= p.dy < n
  {
    forall p | p in Plotted(n, n, Trace(radius))
      ensures 2 <= n && n / 2 <= p.dx <= p.dy < n
    {
      var j := PlottedWitness(n, n, Trace(radius), p);
    }
  }

  // ---------------------------------------------------------------------
  // The eight reflections
  // ---------------------------------------------------------------------

  /** The eight cells `(row, col)` the source writes for pixel `p` on a grid
      of side `n`, in the order of its eight assignments. */
  function Reflections(n: int, p: Pixel): set<(int, int)>
  {
    {(p.dy, p.dx), (p.dx, p.dy),
     (n - p.dy, p.dx), (p.dy, n - p.dx),
     (p.dx, n - p.dy), (n - p.dx, p.dy),
     (n - p.dx, n - p.dy), (n - p.dy, n - p.dx)}
  }

  /** The buffer indices of the eight assignments for pixel `p`, as the
      source writes them on a `width x height` grid. */
  function ReflectionIndices(width: int, height: int, p: Pixel): set<int>
  {
    {p.dy * width + p.dx, p.dx * width + p.dy,
     (height - p.dy) * width + p.dx, p.dy * width + (width - p.dx),
     p.dx * width + (height - p.dy), (width - p.dx) * width + p.dy,
     (width - p.dx) * width + (height - p.dy), (height - p.dy) * width + (width - p.dx)}
  }

  /** The eight indices, given their values. */
  lemma ReflectionIndicesAre(width: int, height: int, p: Pixel, k1: int, k2: int, k3: int, k4: int,
                             k5: int, k6: int, k7: int, k8: int)
    requires k1 == p.dy * width + p.dx && k2 == p.dx * width + p.dy
    requires k3 == (height - p.dy) * width + p.dx && k4 == p.dy * width + (width - p.dx)
    requires k5 == p.dx * width + (height - p.dy) && k6 == (width - p.dx) * width + p.dy
    requires k7 == (width - p.dx) * width + (height - p.dy) && k8 == (height - p.dy) * width + (width - p.dx)
    ensures ReflectionIndices(width, height, p) == {k1, k2, k3, k4, k5, k6, k7, k8}
  {
  }

  /** For a pixel of the octant, each reflection is a cell of the grid
      outside row 0 and column 0. */
  lemma ReflectionsInGrid(n: nat, p: Pixel)
    requires 2 <= n && n / 2 <= p.dx < n && n / 2 <= p.dy < n
    ensures forall c :: c in Reflections(n, p) ==> 1 <= c.0 < n && 1 <= c.1 < n
  {
  }

  /** Hence each of the eight writes of the source is in bounds. */
  lemma ReflectionIndicesInGrid(n: nat, p: Pixel)
    requires 2 <= n && n / 2 <= p.dx < n && n / 2 <= p.dy < n
    ensures 0 <= p.dy * n + p.dx < n * n && 0 <= p.dx * n + p.dy < n * n
    ensures 0 <= (n - p.dy) * n + p.dx < n * n && 0 <= p.dy * n + (n - p.dx) < n * n
    ensures 0 <= p.dx * n + (n - p.dy) < n * n && 0 <= (n - p.dx) * n + p.dy < n * n
    ensures 0 <= (n - p.dx) * n + (n - p.dy) < n * n && 0 <= (n - p.dy) * n + (n - p.dx) < n * n
  {
    Grid.IndexBound(n, n, p.dx, p.dy);
    Grid.IndexBound(n, n, p.dy, p.dx);
    Grid.IndexBound(n, n, p.dx, n - p.dy);
    Grid.IndexBound(n, n, n - p.dx, p.dy);
    Grid.IndexBound(n, n, n - p.dy, p.dx);
    Grid.IndexBound(n, n, p.dy, n - p.dx);
    Grid.IndexBound(n, n, n - p.dy, n - p.dx);
    Grid.IndexBound(n, n, n - p.dx, n - p.dy);
  }

  /** The set of reflections is closed under the transpose `(r, c) ->
      (c, r)` and under the reflections `(r, c) -> (n - r, c)` and `(r, c)
      -> (r, n - c)`; note these reflect about `n`, not `n - 1`. */
  lemma ReflectionsSymmetric(n: int, p: Pixel, c: (int, int))
    requires c in Reflections(n, p)
    ensures (c.1, c.0) in Reflections(n, p) && (n - c.0, c.1) in Reflections(n, p) && (c.0, n - c.1) in Reflections(n, p)
  {
  }

  /** All cells written for a sequence of plotted pixels. */
  function Ring(n: int, pts: seq<Pixel>): set<(int, int)>
  {
    if pts == [] then {} else Ring(n, pts[..|pts| - 1]) + Reflections(n, pts[|pts| - 1])
  }

  /** All buffer indices written for a sequence of plotted pixels. */
  function RingIndices(width: int, height: int, pts: seq<Pixel>): set<int>
  {
    if pts == [] then {} else RingIndices(width, height, pts[..|pts| - 1]) + ReflectionIndices(width, height, pts[|pts| - 1])
  }

  /** One more plotted pixel adds its eight indices. */
  lemma RingIndicesSnoc(width: int, height: int, pts: seq<Pixel>, p: Pixel)
    ensures RingIndices(width, height, pts + [p]) == RingIndices(width, height, pts) + ReflectionIndices(width, height, p)
  {
    assert (pts + [p])[..|pts|] == pts;
  }

  /** The index of each reflection is among the indices written for it. */
  lemma ReflectionIndexOf(n: int, p: Pixel, k: int) returns (c: (int, int))
    requires k in ReflectionIndices(n, n, p)
    ensures c in Reflections(n, p) && k == c.0 * n + c.1
  {
    if k == p.dy * n + p.dx { c := (p.dy, p.dx); }
    else if k == p.dx * n + p.dy { c := (p.dx, p.dy); }
    else if k == (n - p.dy) * n + p.dx { c := (n - p.dy, p.dx); }
    else if k == p.dy * n + (n - p.dx) { c := (p.dy, n - p.dx); }
    else if k == p.dx * n + (n - p.dy) { c := (p.dx, n - p.dy); }
    else if k == (n - p.dx) * n + p.dy { c := (n - p.dx, p.dy); }
    else if k == (n - p.dx) * n + (n - p.dy) { c := (n - p.dx, n - p.dy); }
    else { c := (n - p.dy, n - p.dx); }
  }

  /** The index `row*n + col` of each reflection is among its eight indices. */
  lemma CellIndexOf(n: int, p: Pixel, c: (int, int))
    requires c in Reflections(n, p)
    ensures c.0 * n + c.1 in ReflectionIndices(n, n, p)
  {
    var ks := ReflectionIndices(n, n, p);
    if c == (p.dy, p.dx) { assert p.dy * n + p.dx in ks; }
    else if c == (p.dx, p.dy) { assert p.dx * n + p.dy in ks; }
    else if c == (n - p.dy, p.dx) { assert (n - p.dy) * n + p.dx in ks; }
    else if c == (p.dy, n - p.dx) { assert p.dy * n + (n - p.dx) in ks; }
    else if c == (p.dx, n - p.dy) { assert p.dx * n + (n - p.dy) in ks; }
    else if c == (n - p.dx, p.dy) { assert (n - p.dx) * n + p.dy in ks; }
    else if c == (n - p.dx, n - p.dy) { assert (n - p.dx) * n + (n - p.dy) in ks; }
    else { assert (n - p.dy) * n + (n - p.dx) in ks; }
  }

  /** Each reflection of each plotted pixel is written. */
  lemma {:induction false} RingHas(n: int, pts: seq<Pixel>, i: nat, c: (int, int))
    requires i < |pts| && c in Reflections(n, pts[i])
    ensures c in Ring(n, pts)
  {
    var front := pts[..|pts| - 1];
    if i < |front| {
      assert pts[i] == front[i];
      RingHas(n, front, i, c);
    }
  }

  /** ... and so is its index. */
  lemma {:induction false} RingIndexHas(n: int, pts: seq<Pixel>, i: nat, c: (int, int))
    requires i < |pts| && c in Reflections(n, pts[i])
    ensures c.0 * n + c.1 in RingIndices(n, n, pts)
  {
    var front := pts[..|pts| - 1];
    if i < |front| {
      assert pts[i] == front[i];
      RingIndexHas(n, front, i, c);
    } else {
      CellIndexOf(n, pts[i], c);
    }
  }

  /** Each written cell is a reflection of some plotted pixel. */
  lemma {:induction false} RingWitness(n: int, pts: seq<Pixel>, c: (int, int)) returns (i: nat)
    requires c in Ring(n, pts)
    ensures i < |pts| && c in Reflections(n, pts[i])
  {
    var front := pts[..|pts| - 1];
    if c in Ring(n, front) {
      i := RingWitness(n, front, c);
      assert pts[i] == front[i];
    } else {
      i := |pts| - 1;
    }
  }

  /** Each written index is the index `row*n + col` of a written cell. */
  lemma {:induction false} RingIndexWitness(n: int, pts: seq<Pixel>, k: int) returns (c: (int, int))
    requires k in RingIndices(n, n, pts)
    ensures c in Ring(n, pts) && k == c.0 * n + c.1
  {
    var front := pts[..|pts| - 1];
    if k in RingIndices(n, n, front) {
      c := RingIndexWitness(n, front, k);
    } else {
      c := ReflectionIndexOf(n, pts[|pts| - 1], k);
    }
  }

  /** The written cells are closed under the transpose and under the
      reflections about `n`, as the cells of each pixel are. */
  lemma RingSymmetric(n: int, pts: seq<Pixel>, c: (int, int))
    requires c in Ring(n, pts)
    ensures (c.1, c.0) in Ring(n, pts) && (n - c.0, c.1) in Ring(n, pts) && (c.0, n - c.1) in Ring(n, pts)
  {
    var i := RingWitness(n, pts, c);
    ReflectionsSymmetric(n, pts[i], c);
    RingHas(n, pts, i, (c.1, c.0));
    RingHas(n, pts, i, (n - c.0, c.1));
    RingHas(n, pts, i, (c.0, n - c.1));
  }

  /** On a square grid every written cell lies in the grid, off row 0 and
      column 0, so every index the source writes is below `n*n`. */
  lemma RingInGrid(n: nat, radius: nat)
    ensures forall c :: c in Ring(n, Plotted(n, n, Trace(radius))) ==> 1 <= c.0 < n && 1 <= c.1 < n
  {
    var pts := Plotted(n, n, Trace(radius));
    PlottedInOctant(n, radius);
    forall c | c in Ring(n, pts)
      ensures 1 <= c.0 < n && 1 <= c.1 < n
    {
      var i := RingWitness(n, pts, c);
      ReflectionsInGrid(n, pts[i]);
    }
  }

  // ---------------------------------------------------------------------
  // The rendered buffer
  // ---------------------------------------------------------------------

  /** The buffer a successful call leaves: foreground at every written
      index, background everywhere else, including past `width*height`. */
  function HollowImage(length: nat, width: nat, height: nat, radius: nat,
                       foreground: bv32, background: bv32): (image: seq<bv32>)
    ensures |image| == length
  {
    var written := RingIndices(width, height, Plotted(width, height, Trace(radius)));
    seq(length, k requires 0 <= k < length => if k in written then foreground else background)
  }

  /** For a grid cell, its index is written exactly when the cell is. */
  lemma IndexWrittenIffCell(n: nat, radius: nat, row: nat, col: nat)
    requires row < n && col < n
    ensures Grid.Index(n, col, row) in RingIndices(n, n, Plotted(n, n, Trace(radius))) <==>
      (row, col) in Ring(n, Plotted(n, n, Trace(radius)))
  {
    if Grid.Index(n, col, row) in RingIndices(n, n, Plotted(n, n, Trace(radius))) {
      WrittenIndexIsCell(n, radius, row, col);
    }
    if (row, col) in Ring(n, Plotted(n, n, Trace(radius))) {
      CellIndexIsWritten(n, radius, row, col);
    }
  }

  lemma WrittenIndexIsCell(n: nat, radius: nat, row: nat, col: nat)
    requires row < n && col < n
    requires Grid.Index(n, col, row) in RingIndices(n, n, Plotted(n, n, Trace(radius)))
    ensures (row, col) in Ring(n, Plotted(n, n, Trace(radius)))
  {
    var pts := Plotted(n, n, Trace(radius));
    RingInGrid(n, radius);
    var c := RingIndexWitness(n, pts, Grid.Index(n, col, row));
    Grid.IndexInjective(n, col, row, c.1, c.0);
    assert c == (row, col);
  }

  lemma CellIndexIsWritten(n: nat, radius: nat, row: nat, col: nat)
    requires (row, col) in Ring(n, Plotted(n, n, Trace(radius)))
    ensures Grid.Index(n, col, row) in RingIndices(n, n, Plotted(n, n, Trace(radius)))
  {
    var pts := Plotted(n, n, Trace(radius));
    var i := RingWitness(n, pts, (row, col));
    RingIndexHas(n, pts, i, (row, col));
  }

  /** A grid cell of a square image is foreground exactly when the cell is
      among the reflections written (the colours being distinct). */
  lemma HollowCell(length: nat, n: nat, radius: nat, foreground: bv32, background: bv32,
                   row: nat, col: nat)
    requires n * n <= length && row < n && col < n && foreground != background
    ensures HollowImage(length, n, n, radius, foreground, background)[Grid.Cell(n, n, col, row)] == foreground
      <==> (row, col) in Ring(n, Plotted(n, n, Trace(radius)))
  {
    IndexWrittenIffCell(n, radius, row, col);
  }

  /** The drawn ring is symmetric: a foreground cell `(row, col)` of a
      square image lies off row 0 and column 0, and its transpose and its
      reflections `(n - row, col)` and `(row, n - col)` are foreground too. */
  lemma HollowSymmetric(length: nat, n: nat, radius: nat, foreground: bv32, background: bv32,
                        row: nat, col: nat)
    requires n * n <= length && row < n && col < n && foreground != background
    requires HollowImage(length, n, n, radius, foreground, background)[Grid.Cell(n, n, col, row)] == foreground
    ensures 1 <= row && 1 <= col
    ensures HollowImage(length, n, n, radius, foreground, background)[Grid.Cell(n, n, row, col)] == foreground
    ensures HollowImage(length, n, n, radius, foreground, background)[Grid.Cell(n, n, col, n - row)] == foreground
    ensures HollowImage(length, n, n, radius, foreground, background)[Grid.Cell(n, n, n - col, row)] == foreground
  {
    HollowCell(length, n, radius, foreground, background, row, col);
    TraceRingSymmetric(n, radius, (row, col));
    HollowCell(length, n, radius, foreground, background, col, row);
    HollowCell(length, n, radius, foreground, background, n - row, col);
    HollowCell(length, n, radius, foreground, background, row, n - col);
  }

  /** The cells written for the whole trace lie off row 0 and column 0,
      and come with their transpose and their two reflections. */
  lemma TraceRingSymmetric(n: nat, radius: nat, c: (int, int))
    requires c in Ring(n, Plotted(n, n, Trace(radius)))
    ensures 1 <= c.0 < n && 1 <= c.1 < n
    ensures (c.1, c.0) in Ring(n, Plotted(n, n, Trace(radius)))
    ensures (n - c.0, c.1) in Ring(n, Plotted(n, n, Trace(radius)))
    ensures (c.0, n - c.1) in Ring(n, Plotted(n, n, Trace(radius)))
  {
    RingInGrid(n, radius);
    RingSymmetric(n, Plotted(n, n, Trace(radius)), c);
  }

  /** Row 0 and column 0 of a square image keep the background, and so
      does everything past the grid. */
  lemma HollowBorder(length: nat, n: nat, radius: nat, foreground: bv32, background: bv32, i: nat)
    requires n * n <= length && i < n
    ensures HollowImage(length, n, n, radius, foreground, background)[Grid.Cell(n, n, i, 0)] == background
    ensures HollowImage(length, n, n, radius, foreground, background)[Grid.Cell(n, n, 0, i)] == background
    ensures forall k :: n * n <= k < length ==> HollowImage(length, n, n, radius, foreground, background)[k] == background
  {
    var pts := Plotted(n, n, Trace(radius));
    RingInGrid(n, radius);
    IndexWrittenIffCell(n, radius, 0, i);
    IndexWrittenIffCell(n, radius, i, 0);
    forall k | n * n <= k < length
      ensures k !in RingIndices(n, n, pts)
    {
      if k in RingIndices(n, n, pts) {
        var c := RingIndexWitness(n, pts, k);
        Grid.IndexBound(n, n, c.1, c.0);
      }
    }
  }

  /** Buffer `a` holds the foreground exactly at the indices `written`. */
  predicate Shows(a: seq<bv32>, written: set<int>, foreground: bv32, background: bv32)
  {
    forall k :: 0 <= k < |a| ==> a[k] == if k in written then foreground else background
  }

  /** A buffer showing exactly the written indices of the whole trace is
      the rendered image. */
  lemma ShowsImage(a: seq<bv32>, width: nat, height: nat, radius: nat, foreground: bv32, background: bv32)
    requires Shows(a, RingIndices(width, height, Plotted(width, height, Trace(radius))), foreground, background)
    ensures a == HollowImage(|a|, width, height, radius, foreground, background)
  {
  }

  // ---------------------------------------------------------------------
  // The algorithm
  // ---------------------------------------------------------------------

  /** Eight assignments of the foreground: afterwards the buffer shows the
      foreground at the eight indices as well. */
  method PaintEight(pixels: array<bv32>, k1: nat, k2: nat, k3: nat, k4: nat, k5: nat, k6: nat, k7: nat, k8: nat,
                    foreground: bv32, background: bv32, ghost written: set<int>)
    requires k1 < pixels.Length && k2 < pixels.Length && k3 < pixels.Length && k4 < pixels.Length
    requires k5 < pixels.Length && k6 < pixels.Length && k7 < pixels.Length && k8 < pixels.Length
    requires Shows(pixels[..], written, foreground, background)
    modifies pixels
    ensures Shows(pixels[..], written + {k1, k2, k3, k4, k5, k6, k7, k8}, foreground, background)
  {
    ghost var before := pixels[..];
    pixels[k1] := foreground;
    pixels[k2] := foreground;
    pixels[k3] := foreground;
    pixels[k4] := foreground;
    pixels[k5] := foreground;
    pixels[k6] := foreground;
    pixels[k7] := foreground;
    pixels[k8] := foreground;
    forall k | 0 <= k < pixels.Length
      ensures pixels[k] == if k in written + {k1, k2, k3, k4, k5, k6, k7, k8} then foreground else background
    {
      if k !in {k1, k2, k3, k4, k5, k6, k7, k8} {
        assert pixels[k] == before[k];
      }
    }
  }

  /** The eight assignments of one iteration, for pixel `p` of a square
      grid: they add the eight reflections to the written indices. */
  method PlotReflections(pixels: array<bv32>, width: nat, height: nat, p: Pixel,
                         foreground: bv32, background: bv32, ghost written: set<int>)
    requires width == height && 2 <= width && width / 2 <= p.dx <= p.dy < width
    requires width * height <= pixels.Length
    requires Shows(pixels[..], written, foreground, background)
    modifies pixels
    ensures Shows(pixels[..], written + ReflectionIndices(width, height, p), foreground, background)
  {
    ReflectionIndicesInGrid(width, p);
    var k1, k2 := p.dy * width + p.dx, p.dx * width + p.dy;
    var k3, k4 := (height - p.dy) * width + p.dx, p.dy * width + (width - p.dx);
    var k5, k6 := p.dx * width + (height - p.dy), (width - p.dx) * width + p.dy;
    var k7, k8 := (width - p.dx) * width + (height - p.dy), (height - p.dy) * width + (width - p.dx);
    ReflectionIndicesAre(width, height, p, k1, k2, k3, k4, k5, k6, k7, k8);
    PaintEight(pixels, k1, k2, k3, k4, k5, k6, k7, k8, foreground, background, written);
  }

  /** `hollow_circle`. The result `ok` is false where the source's
      `assert!(width == height)` fails: on a non-square grid, the first time
      a traced point passes the guard (after the fill, before any other
      write). A non-square grid on which no point passes the guard is only
      filled, whatever the buffer's length; a square grid must fit in the
      buffer. */
  method HollowCircle(pixels: array<bv32>, width: nat, height: nat, radius: nat,
                      foreground: bv32, background: bv32) returns (ok: bool)
    requires width == height ==> width * height <= pixels.Length
    requires F32Exact(width, height, radius)
    modifies pixels
    ensures ok <==> width == height || Plotted(width, height, Trace(radius)) == []
    ensures ok ==> pixels[..] == HollowImage(pixels.Length, width, height, radius, foreground, background)
    ensures !ok ==> forall k :: 0 <= k < pixels.Length ==> pixels[k] == background
  {
    forall k | 0 <= k < pixels.Length {
      pixels[k] := background;
    }
    ghost var all := Plotted(width, height, Trace(radius));
    ghost var pts: seq<Pixel> := [];
    var x2, y2 := 0, 2 * radius - 1;
    while x2 <= y2
      invariant x2 >= 0
      invariant all == pts + Plotted(width, height, Octant(radius, x2, y2))
      invariant width != height ==> pts == []
      invariant Shows(pixels[..], RingIndices(width, height, pts), foreground, background)
      decreases y2 - x2
    {
      var step := Step(x2, y2);
      TraceAdvance(width, height, radius, x2, y2, all, pts);
      if OnCanvas(width, height, step) {
        var p := PixelOf(width, height, step);
        if width != height {
          ok := false;
          return;
        }
        PlotReflections(pixels, width, height, p, foreground, background, RingIndices(width, height, pts));
        RingIndicesSnoc(width, height, pts, p);
        pts := pts + [p];
      }
      x2 := x2 + 2;
      y2 := StepY2(radius, x2, y2);
    }
    ok := true;
    assert all == pts;
    ShowsImage(pixels[..], width, height, radius, foreground, background);
  }
}
