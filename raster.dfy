/** The paint model of the editor as values: what one `setCellValue` call and one `drawLine` call do
    to a grid, and the cells the line walk visits. */
module Raster {
  import opened Types
  import opened Constants

  /** A grid cell, column `x` and row `y`. */
  datatype Point = Point(x: int, y: int)

  /** The four orthogonal neighbour offsets, in the order the source visits them. */
  const Neighbors: seq<(int, int)> := [(0, 1), (0, -1), (1, 0), (-1, 0)]

  /** The position of offset (dx, dy) among the neighbour offsets, or -1 for any other offset. */
  function NeighborIndex(dx: int, dy: int): (k: int)
    ensures -1 <= k < 4
    ensures k >= 0 ==> Neighbors[k] == (dx, dy)
    ensures k == -1 ==> (dx, dy) !in Neighbors
  {
    if (dx, dy) == (0, 1) then 0
    else if (dx, dy) == (0, -1) then 1
    else if (dx, dy) == (1, 0) then 2
    else if (dx, dy) == (-1, 0) then 3
    else -1
  }

  /** Cell (x, y) of `g` replaced by `v`. */
  function Set(g: Grid, x: int, y: int, v: int): (h: Grid)
    requires Shaped(g) && InBounds(x, y)
    ensures Shaped(h)
    ensures h[y][x] == v
    ensures forall cy, cx :: InBounds(cx, cy) && (cx, cy) != (x, y) ==> h[cy][cx] == g[cy][cx]
  {
    g[y := g[y][x := v]]
  }

  /** The bleed of the first `k` neighbours of (x, y): neighbour n, when it lies on the grid and the
      oracle says `coin(n)`, gains one unit of density, clamped at MaxDensity. */
  function BleedUpTo(g: Grid, x: int, y: int, coin: nat -> bool, k: nat): (h: Grid)
    requires Shaped(g) && k <= 4
    ensures Shaped(h)
  {
    if k == 0 then g
    else BleedOne(BleedUpTo(g, x, y, coin, k - 1), x, y, coin, k - 1)
  }

  /** The bleed of neighbour k alone. */
  function BleedOne(g: Grid, x: int, y: int, coin: nat -> bool, k: nat): (h: Grid)
    requires Shaped(g) && k < 4
    ensures Shaped(h)
  {
    var nx, ny := x + Neighbors[k].0, y + Neighbors[k].1;
    if InBounds(nx, ny) && coin(k) then Set(g, nx, ny, Min(g[ny][nx] + 1, MaxDensity)) else g
  }

  /** `setCellValue(x, y, increment)` with the bleed decisions taken from `coin`. */
  function Paint(g: Grid, x: int, y: int, increment: int, coin: nat -> bool): (h: Grid)
    requires Shaped(g)
    ensures Shaped(h)
  {
    if !InBounds(x, y) || g[y][x] >= MaxDensity then g
    else BleedUpTo(Set(g, x, y, Min(g[y][x] + increment, MaxDensity)), x, y, coin, 4)
  }

  /** Cell (cx, cy) after a paint at (x, y) that passed the guards, stated cell by cell. */
  function CellAfterPaint(g: Grid, x: int, y: int, increment: int, coin: nat -> bool, cx: int, cy: int): int
    requires Shaped(g) && InBounds(x, y) && InBounds(cx, cy)
  {
    var n := NeighborIndex(cx - x, cy - y);
    if (cx, cy) == (x, y) then Min(g[y][x] + increment, MaxDensity)
    else if n >= 0 && coin(n) then Min(g[cy][cx] + 1, MaxDensity)
    else g[cy][cx]
  }

  lemma {:induction false} BleedUpToCell(g: Grid, x: int, y: int, coin: nat -> bool, k: nat, cx: int, cy: int)
    requires Shaped(g) && k <= 4 && InBounds(cx, cy)
    ensures var n := NeighborIndex(cx - x, cy - y);
      BleedUpTo(g, x, y, coin, k)[cy][cx] ==
        if 0 <= n < k && coin(n) then Min(g[cy][cx] + 1, MaxDensity) else g[cy][cx]
  {
    if k > 0 {
      BleedUpToCell(g, x, y, coin, k - 1, cx, cy);
      BleedOneCell(BleedUpTo(g, x, y, coin, k - 1), x, y, coin, k - 1, cx, cy);
    }
  }

  /** Neighbour k's bleed touches only that neighbour, raising it exactly when its coin is true. */
  lemma BleedOneCell(g: Grid, x: int, y: int, coin: nat -> bool, k: nat, cx: int, cy: int)
    requires Shaped(g) && k < 4 && InBounds(cx, cy)
    ensures BleedOne(g, x, y, coin, k)[cy][cx] ==
      if NeighborIndex(cx - x, cy - y) == k && coin(k) then Min(g[cy][cx] + 1, MaxDensity) else g[cy][cx]
  {
    var n := NeighborIndex(cx - x, cy - y);
    assert (cx - x, cy - y) == Neighbors[k] <==> n == k;
  }

  /** One paint call: out of range or at full density nothing changes at all; otherwise the target
      becomes min(current + increment, MaxDensity), each neighbour n on the grid gains one clamped
      unit exactly when coin(n) holds, and every other cell keeps its value. */
  lemma PaintEffect(g: Grid, x: int, y: int, increment: int, coin: nat -> bool)
    requires Shaped(g)
    ensures !InBounds(x, y) || g[y][x] >= MaxDensity ==> Paint(g, x, y, increment, coin) == g
    ensures InBounds(x, y) && g[y][x] < MaxDensity ==>
      forall cy, cx :: InBounds(cx, cy) ==>
        Paint(g, x, y, increment, coin)[cy][cx] == CellAfterPaint(g, x, y, increment, coin, cx, cy)
  {
    if InBounds(x, y) && g[y][x] < MaxDensity {
      var s := Set(g, x, y, Min(g[y][x] + increment, MaxDensity));
      forall cy, cx | InBounds(cx, cy)
        ensures Paint(g, x, y, increment, coin)[cy][cx] == CellAfterPaint(g, x, y, increment, coin, cx, cy)
      {
        BleedUpToCell(s, x, y, coin, 4, cx, cy);
      }
    }
  }

  /** `h` is `g` with no cell lowered. */
  predicate Dominates(h: Grid, g: Grid)
    requires Shaped(h) && Shaped(g)
  {
    forall y, x :: 0 <= y < GridHeight && 0 <= x < GridWidth ==> g[y][x] <= h[y][x]
  }

  /** With a non-negative increment a paint call keeps every cell in [0, MaxDensity] and lowers none;
      each neighbour either keeps its value or becomes min(value + 1, MaxDensity). */
  lemma PaintKeepsBoundsAndGrows(g: Grid, x: int, y: int, increment: int, coin: nat -> bool)
    requires Shaped(g) && Bounded(g) && increment >= 0
    ensures Bounded(Paint(g, x, y, increment, coin))
    ensures Dominates(Paint(g, x, y, increment, coin), g)
    ensures forall cy, cx :: InBounds(cx, cy) && NeighborIndex(cx - x, cy - y) >= 0 ==>
      Paint(g, x, y, increment, coin)[cy][cx] in {g[cy][cx], Min(g[cy][cx] + 1, MaxDensity)}
  {
    PaintEffect(g, x, y, increment, coin);
  }

  /** The grid after painting `pts` in order, the n-th paint taking its bleed from `bleed(n, _)`. */
  function PaintAlong(g: Grid, pts: seq<Point>, bleed: (nat, nat) -> bool): (h: Grid)
    requires Shaped(g)
    ensures Shaped(h)
  {
    if |pts| == 0 then g
    else
      var n := |pts| - 1;
      Paint(PaintAlong(g, pts[..n], bleed), pts[n].x, pts[n].y, 1, (k: nat) => bleed(n, k))
  }

  /** Any sequence of unit paints keeps every cell in [0, MaxDensity] and lowers none. */
  lemma {:induction false} PaintAlongKeepsBoundsAndGrows(g: Grid, pts: seq<Point>, bleed: (nat, nat) -> bool)
    requires Shaped(g) && Bounded(g)
    ensures Bounded(PaintAlong(g, pts, bleed))
    ensures Dominates(PaintAlong(g, pts, bleed), g)
  {
    if |pts| > 0 {
      var n := |pts| - 1;
      var mid := PaintAlong(g, pts[..n], bleed);
      PaintAlongKeepsBoundsAndGrows(g, pts[..n], bleed);
      PaintKeepsBoundsAndGrows(mid, pts[n].x, pts[n].y, 1, (k: nat) => bleed(n, k));
    }
  }

  /** Painting one more point paints it on top of the grid the earlier points left. */
  lemma PaintAlongSnoc(g: Grid, pts: seq<Point>, p: Point, bleed: (nat, nat) -> bool)
    requires Shaped(g)
    ensures PaintAlong(g, pts + [p], bleed) == Paint(PaintAlong(g, pts, bleed), p.x, p.y, 1, (k: nat) => bleed(|pts|, k))
  {
    assert (pts + [p])[..|pts|] == pts;
  }

  // ---------------------------------------------------------------------------------------------
  // The line walk of `drawLine`

  /** The two sampled points a line joins. */
  datatype Segment = Segment(x0: int, y0: int, x1: int, y1: int)
  {
    function Dx(): (d: int) ensures d >= 0 { Abs(x1 - x0) }
    function Dy(): (d: int) ensures d >= 0 { Abs(y1 - y0) }
    function Sx(): int { if x0 < x1 then 1 else -1 }
    function Sy(): int { if y0 < y1 then 1 else -1 }
    /** How far column x lies from x0 in the direction of x1. */
    function StepsX(x: int): int { if x0 < x1 then x - x0 else x0 - x }
    /** How far row y lies from y0 in the direction of y1. */
    function StepsY(y: int): int { if y0 < y1 then y - y0 else y0 - y }
  }

  /** The loop variables of the walk: the current cell and the error term. */
  datatype Walker = Walker(x: int, y: int, err: int)

  function Start(s: Segment): Walker
  {
    Walker(s.x0, s.y0, s.Dx() - s.Dy())
  }

  predicate AtEnd(s: Segment, w: Walker)
  {
    w.x == s.x1 && w.y == s.y1
  }

  /** One iteration's update of the loop variables after the current cell is painted. */
  function Step(s: Segment, w: Walker): Walker
  {
    var e2 := 2 * w.err;
    var x, errX := if e2 > -s.Dy() then w.x + s.Sx() else w.x, if e2 > -s.Dy() then w.err - s.Dy() else w.err;
    var y, errY := if e2 < s.Dx() then w.y + s.Sy() else w.y, if e2 < s.Dx() then errX + s.Dx() else errX;
    Walker(x, y, errY)
  }

  /** The error term after i steps along x and j steps along y: each x step subtracts dy, each
      y step adds dx. */
  function ErrAfter(dx: int, dy: int, i: nat, j: nat): int
    decreases i + j
  {
    if i > 0 then ErrAfter(dx, dy, i - 1, j) - dy
    else if j > 0 then ErrAfter(dx, dy, 0, j - 1) + dx
    else dx - dy
  }

  /** In closed form it is the error of the diagonal neighbour ahead: dx * (1 + j) - dy * (1 + i). */
  lemma {:induction false} ErrAfterClosedForm(dx: int, dy: int, i: nat, j: nat)
    ensures ErrAfter(dx, dy, i, j) == dx * (1 + j) - dy * (1 + i)
    decreases i + j
  {
    if i > 0 {
      ErrAfterClosedForm(dx, dy, i - 1, j);
      assert dy * (1 + i) == dy * (1 + (i - 1)) + dy;
    } else if j > 0 {
      ErrAfterClosedForm(dx, dy, 0, j - 1);
      assert dx * (1 + j) == dx * (1 + (j - 1)) + dx;
    }
  }

  /** The walk invariant: the cell lies between the endpoints, the error term is that of the
      diagonal neighbour ahead, and it stays in a band that makes the major axis step every time. */
  predicate Inv(s: Segment, w: Walker)
  {
    var i, j, dx, dy := s.StepsX(w.x), s.StepsY(w.y), s.Dx(), s.Dy();
    && 0 <= i <= dx && 0 <= j <= dy
    && w.err == ErrAfter(dx, dy, i, j)
    && (dx + dy > 0 && dx >= dy ==> -dy < 2 * w.err < 3 * dx - 2 * dy)
    && (dx + dy > 0 && dy >= dx ==> 2 * dx - 3 * dy < 2 * w.err < dx)
  }

  /** Cells left to visit on the major axis. */
  function Remaining(s: Segment, w: Walker): int
  {
    if s.Dx() >= s.Dy() then s.Dx() - s.StepsX(w.x) else s.Dy() - s.StepsY(w.y)
  }

  function Measure(s: Segment, w: Walker): int
  {
    (s.Dx() - s.StepsX(w.x)) + (s.Dy() - s.StepsY(w.y))
  }

  lemma MulMono(a: int, b: int, c: int)
    requires a >= 0 && b <= c
    ensures a * b <= a * c
  {
  }

  lemma StartInv(s: Segment)
    ensures Inv(s, Start(s))
  {
  }

  /** On the end column, short of the end row, the error term is at most -dy: x no longer moves.
      On the end row, short of the end column, it is at least dx: y no longer moves. */
  lemma EndLineFacts(dx: int, dy: int, i: int, j: int, err: int)
    requires 0 <= i <= dx && 0 <= j <= dy
    requires err == dx * (1 + j) - dy * (1 + i)
    ensures i == dx && j < dy ==> err <= -dy
    ensures j == dy && i < dx ==> err >= dx
  {
    if i == dx && j < dy {
      MulMono(dx, 1 + j, dy);
      assert dy * (1 + i) == dy + dy * dx;
    }
    if j == dy && i < dx {
      MulMono(dy, 1 + i, dx);
      assert dx * (1 + j) == dx + dx * dy;
    }
  }

  /** The error-term identity survives a step that advances i by a and j by b. */
  lemma IdentityStep(dx: int, dy: int, i: int, j: int, err: int, a: int, b: int)
    requires err == dx * (1 + j) - dy * (1 + i)
    requires a in {0, 1} && b in {0, 1}
    ensures err - a * dy + b * dx == dx * (1 + (j + b)) - dy * (1 + (i + a))
  {
    assert dx * (1 + (j + b)) == dx * (1 + j) + dx * b;
    assert dy * (1 + (i + a)) == dy * (1 + i) + dy * a;
  }

  /** The error term after a step is again the closed form for the advanced step counts, and it
      stays in the band. */
  lemma StepKeepsInv(s: Segment, w: Walker)
    requires Inv(s, w) && !AtEnd(s, w)
    ensures Inv(s, Step(s, w))
  {
    StepKeepsErr(s, w);
    StepKeepsBand(s, w);
  }

  lemma StepKeepsErr(s: Segment, w: Walker)
    requires Inv(s, w) && !AtEnd(s, w)
    ensures var w', dx, dy := Step(s, w), s.Dx(), s.Dy();
      && 0 <= s.StepsX(w'.x) <= dx && 0 <= s.StepsY(w'.y) <= dy
      && w'.err == ErrAfter(dx, dy, s.StepsX(w'.x), s.StepsY(w'.y))
  {
    var i, j, dx, dy := s.StepsX(w.x), s.StepsY(w.y), s.Dx(), s.Dy();
    ErrAfterClosedForm(dx, dy, i, j);
    EndLineFacts(dx, dy, i, j, w.err);
    var e2 := 2 * w.err;
    var a, b := if e2 > -dy then 1 else 0, if e2 < dx then 1 else 0;
    IdentityStep(dx, dy, i, j, w.err, a, b);
    ErrAfterClosedForm(dx, dy, i + a, j + b);
    var w' := Step(s, w);
    assert w'.err == w.err - a * dy + b * dx;
    assert s.StepsX(w'.x) == i + a && s.StepsY(w'.y) == j + b;
  }

  lemma StepKeepsBand(s: Segment, w: Walker)
    requires Inv(s, w) && !AtEnd(s, w)
    ensures var w', dx, dy := Step(s, w), s.Dx(), s.Dy();
      && (dx + dy > 0 && dx >= dy ==> -dy < 2 * w'.err < 3 * dx - 2 * dy)
      && (dx + dy > 0 && dy >= dx ==> 2 * dx - 3 * dy < 2 * w'.err < dx)
  {
    var i, j, dx, dy := s.StepsX(w.x), s.StepsY(w.y), s.Dx(), s.Dy();
    ErrAfterClosedForm(dx, dy, i, j);
    EndLineFacts(dx, dy, i, j, w.err);
  }

  /** A step moves each coordinate by at most a unit toward its endpoint, not both by zero, and
      always along the major axis. */
  lemma StepMoves(s: Segment, w: Walker)
    requires Inv(s, w) && !AtEnd(s, w)
    ensures Step(s, w).x in {w.x, w.x + s.Sx()} && Step(s, w).y in {w.y, w.y + s.Sy()}
    ensures Point(Step(s, w).x, Step(s, w).y) != Point(w.x, w.y)
    ensures s.Dx() >= s.Dy() ==> Step(s, w).x == w.x + s.Sx()
    ensures s.Dy() >= s.Dx() ==> Step(s, w).y == w.y + s.Sy()
    ensures 0 <= Measure(s, Step(s, w)) < Measure(s, w)
    ensures Remaining(s, Step(s, w)) == Remaining(s, w) - 1
  {
    var i, j, dx, dy := s.StepsX(w.x), s.StepsY(w.y), s.Dx(), s.Dy();
    ErrAfterClosedForm(dx, dy, i, j);
    EndLineFacts(dx, dy, i, j, w.err);
  }

  /** The cells the walk paints from state w onward, ending with the endpoint. */
  function LineFrom(s: Segment, w: Walker): (pts: seq<Point>)
    requires Inv(s, w)
    ensures |pts| >= 1 && pts[0] == Point(w.x, w.y)
    decreases Measure(s, w)
  {
    if AtEnd(s, w) then [Point(w.x, w.y)]
    else
      StepKeepsInv(s, w);
      StepMoves(s, w);
      [Point(w.x, w.y)] + LineFrom(s, Step(s, w))
  }

  /** The cells `drawLine(x0, y0, x1, y1)` paints, in order. */
  function Line(s: Segment): seq<Point>
  {
    StartInv(s);
    LineFrom(s, Start(s))
  }

  /** `Line` seen from the loop: cell t is the loop's position after t iterations, and the loop
      breaks exactly after painting the last cell. */
  lemma LineAt(s: Segment, t: nat)
    requires t < |Line(s)|
    ensures Line(s)[t] == Point(Walk(s, Start(s), t).x, Walk(s, Start(s), t).y)
    ensures AtEnd(s, Walk(s, Start(s), t)) <==> t == |Line(s)| - 1
  {
    StartInv(s);
    LineFromAt(s, Start(s), t);
  }

  /** The loop state after t iterations from w. */
  function Walk(s: Segment, w: Walker, t: nat): Walker
    decreases t
  {
    if t == 0 then w else Walk(s, Step(s, w), t - 1)
  }

  /** One more iteration is one more step at the end. */
  lemma {:induction false} WalkSucc(s: Segment, w: Walker, t: nat)
    ensures Walk(s, w, t + 1) == Step(s, Walk(s, w, t))
    decreases t
  {
    if t > 0 {
      WalkSucc(s, Step(s, w), t - 1);
    }
  }

  /** The t-th cell the walk paints is where the loop stands after t iterations, that state keeps
      the invariant, and it is the endpoint exactly at the last cell. */
  lemma {:induction false} LineFromAt(s: Segment, w: Walker, t: nat)
    requires Inv(s, w) && t < |LineFrom(s, w)|
    ensures Inv(s, Walk(s, w, t))
    ensures LineFrom(s, w)[t] == Point(Walk(s, w, t).x, Walk(s, w, t).y)
    ensures AtEnd(s, Walk(s, w, t)) <==> t == |LineFrom(s, w)| - 1
    decreases t
  {
    if !AtEnd(s, w) {
      StepKeepsInv(s, w);
      StepMoves(s, w);
      assert LineFrom(s, w) == [Point(w.x, w.y)] + LineFrom(s, Step(s, w));
      if t > 0 {
        LineFromAt(s, Step(s, w), t - 1);
      }
    }
  }

  lemma {:induction false} LineFromEndsAndLength(s: Segment, w: Walker)
    requires Inv(s, w)
    ensures LineFrom(s, w)[|LineFrom(s, w)| - 1] == Point(s.x1, s.y1)
    ensures |LineFrom(s, w)| == Remaining(s, w) + 1
    decreases Measure(s, w)
  {
    if !AtEnd(s, w) {
      StepKeepsInv(s, w);
      StepMoves(s, w);
      LineFromEndsAndLength(s, Step(s, w));
    } else {
      assert s.StepsX(w.x) == s.Dx() && s.StepsY(w.y) == s.Dy();
    }
  }

  /** Consecutive cells of `pts` touch (8-connected), are distinct, and each coordinate only ever
      moves toward the segment's endpoint. */
  predicate Connected(s: Segment, pts: seq<Point>)
  {
    forall k :: 0 <= k < |pts| - 1 ==>
      && pts[k + 1].x in {pts[k].x, pts[k].x + s.Sx()}
      && pts[k + 1].y in {pts[k].y, pts[k].y + s.Sy()}
      && pts[k + 1] != pts[k]
  }

  lemma {:induction false} LineFromConnected(s: Segment, w: Walker)
    requires Inv(s, w)
    ensures Connected(s, LineFrom(s, w))
    ensures forall k :: 0 <= k < |LineFrom(s, w)| ==>
      s.StepsX(w.x) <= s.StepsX(LineFrom(s, w)[k].x) <= s.Dx() &&
      s.StepsY(w.y) <= s.StepsY(LineFrom(s, w)[k].y) <= s.Dy()
    decreases Measure(s, w)
  {
    if !AtEnd(s, w) {
      StepKeepsInv(s, w);
      StepMoves(s, w);
      var w' := Step(s, w);
      LineFromConnected(s, w');
      var rest := LineFrom(s, w');
      assert LineFrom(s, w) == [Point(w.x, w.y)] + rest;
      assert rest[0] == Point(w'.x, w'.y);
    }
  }

  /** Along the major axis the k-th cell lies exactly k units from the start. */
  lemma {:induction false} LineFromMajorAxis(s: Segment, w: Walker)
    requires Inv(s, w)
    ensures s.Dx() >= s.Dy() ==> forall k :: 0 <= k < |LineFrom(s, w)| ==>
      s.StepsX(LineFrom(s, w)[k].x) == s.StepsX(w.x) + k
    ensures s.Dy() >= s.Dx() ==> forall k :: 0 <= k < |LineFrom(s, w)| ==>
      s.StepsY(LineFrom(s, w)[k].y) == s.StepsY(w.y) + k
    decreases Measure(s, w)
  {
    if !AtEnd(s, w) {
      StepKeepsInv(s, w);
      StepMoves(s, w);
      var w' := Step(s, w);
      LineFromMajorAxis(s, w');
      assert LineFrom(s, w) == [Point(w.x, w.y)] + LineFrom(s, w');
    }
  }

  function Max(a: int, b: int): int
  {
    if a < b then b else a
  }

  /** The walk starts at (x0, y0), ends at (x1, y1), visits exactly max(|dx|, |dy|) + 1 cells,
      and is 8-connected with each coordinate moving monotonically toward its endpoint. */
  lemma LineShape(s: Segment)
    ensures Line(s)[0] == Point(s.x0, s.y0)
    ensures Line(s)[|Line(s)| - 1] == Point(s.x1, s.y1)
    ensures |Line(s)| == Max(s.Dx(), s.Dy()) + 1
    ensures Connected(s, Line(s))
  {
    StartInv(s);
    LineFromEndsAndLength(s, Start(s));
    LineFromConnected(s, Start(s));
  }

  /** For horizontal, vertical and 45-degree segments the walk visits exactly the cells on the
      segment, one per unit step. */
  lemma LineStraight(s: Segment)
    ensures s.Dy() == 0 ==> Line(s) == seq(s.Dx() + 1, (k: int) => Point(s.x0 + s.Sx() * k, s.y0))
    ensures s.Dx() == 0 ==> Line(s) == seq(s.Dy() + 1, (k: int) => Point(s.x0, s.y0 + s.Sy() * k))
    ensures s.Dx() == s.Dy() ==>
      Line(s) == seq(s.Dx() + 1, (k: int) => Point(s.x0 + s.Sx() * k, s.y0 + s.Sy() * k))
  {
    if s.Dy() == 0 {
      LineHorizontal(s);
    }
    if s.Dx() == 0 {
      LineVertical(s);
    }
    if s.Dx() == s.Dy() {
      LineDiagonal(s);
    }
  }

  /** The step counts of cell k of the line: the major axis has made k steps, and neither axis
      has passed its endpoint. */
  lemma LineSteps(s: Segment, k: int)
    requires 0 <= k < |Line(s)|
    ensures |Line(s)| == Max(s.Dx(), s.Dy()) + 1
    ensures 0 <= s.StepsX(Line(s)[k].x) <= s.Dx() && 0 <= s.StepsY(Line(s)[k].y) <= s.Dy()
    ensures s.Dx() >= s.Dy() ==> s.StepsX(Line(s)[k].x) == k
    ensures s.Dy() >= s.Dx() ==> s.StepsY(Line(s)[k].y) == k
  {
    StartInv(s);
    LineFromEndsAndLength(s, Start(s));
    LineFromConnected(s, Start(s));
    LineFromMajorAxis(s, Start(s));
  }

  lemma LineHorizontal(s: Segment)
    requires s.Dy() == 0
    ensures Line(s) == seq(s.Dx() + 1, (k: int) => Point(s.x0 + s.Sx() * k, s.y0))
  {
    var straight := seq(s.Dx() + 1, (k: int) => Point(s.x0 + s.Sx() * k, s.y0));
    LineSteps(s, 0);
    forall k | 0 <= k < |straight|
      ensures Line(s)[k] == straight[k]
    {
      LineSteps(s, k);
    }
  }

  lemma LineVertical(s: Segment)
    requires s.Dx() == 0
    ensures Line(s) == seq(s.Dy() + 1, (k: int) => Point(s.x0, s.y0 + s.Sy() * k))
  {
    var straight := seq(s.Dy() + 1, (k: int) => Point(s.x0, s.y0 + s.Sy() * k));
    LineSteps(s, 0);
    forall k | 0 <= k < |straight|
      ensures Line(s)[k] == straight[k]
    {
      LineSteps(s, k);
    }
  }

  lemma LineDiagonal(s: Segment)
    requires s.Dx() == s.Dy()
    ensures Line(s) == seq(s.Dx() + 1, (k: int) => Point(s.x0 + s.Sx() * k, s.y0 + s.Sy() * k))
  {
    var straight := seq(s.Dx() + 1, (k: int) => Point(s.x0 + s.Sx() * k, s.y0 + s.Sy() * k));
    LineSteps(s, 0);
    forall k | 0 <= k < |straight|
      ensures Line(s)[k] == straight[k]
    {
      LineSteps(s, k);
    }
  }
}
