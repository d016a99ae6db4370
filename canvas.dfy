/** The drawing session of the editor: the live density grid, changed in place, the bounded undo
    history of grid snapshots, and the stroke state (drawing flag, last sampled cell, and the
    publishing and exporting guards). */
module Canvas {
  import opened Types
  import opened Constants
  import opened Raster
  import AsciiArt

  const HistoryLimit: int := 50

  /** `[...history.slice(-49), snapshot]`: append, keeping only the latest HistoryLimit entries. */
  function PushBounded(history: seq<Grid>, snapshot: Grid): (h: seq<Grid>)
    ensures |h| == Min(|history|, HistoryLimit - 1) + 1
    ensures |h| <= HistoryLimit
    ensures h[|h| - 1] == snapshot
    ensures h[..|h| - 1] == history[|history| - (|h| - 1)..]
  {
    (if |history| <= HistoryLimit - 1 then history else history[|history| - (HistoryLimit - 1)..]) + [snapshot]
  }

  /** Every snapshot has the grid's shape and valid densities. */
  predicate Snapshots(history: seq<Grid>)
  {
    forall i :: 0 <= i < |history| ==> Shaped(history[i]) && Bounded(history[i])
  }

  /** Pushing a well-formed snapshot keeps every snapshot well formed. */
  lemma PushKeepsSnapshots(history: seq<Grid>, snapshot: Grid)
    requires Snapshots(history) && Shaped(snapshot) && Bounded(snapshot)
    ensures Snapshots(PushBounded(history, snapshot))
  {
    var h := PushBounded(history, snapshot);
    forall i | 0 <= i < |h|
      ensures Shaped(h[i]) && Bounded(h[i])
    {
      if i < |h| - 1 {
        assert h[i] == h[..|h| - 1][i] == history[|history| - (|h| - 1) + i];
      }
    }
  }

  /** Undoing right after a push gets the snapshot back and leaves the history as it was, save for
      the oldest entry when the push had to evict it. */
  lemma PushThenPop(history: seq<Grid>, snapshot: Grid)
    ensures var h := PushBounded(history, snapshot);
      h[|h| - 1] == snapshot &&
      (|history| < HistoryLimit ==> h[..|h| - 1] == history) &&
      (|history| >= HistoryLimit ==> h[..|h| - 1] == history[|history| - (HistoryLimit - 1)..])
  {
  }

  /** The grid stored in a row-major two-dimensional array, as a value. */
  function ToGrid(a: array2<int>): (g: Grid)
    reads a
    ensures |g| == a.Length0
    ensures forall y :: 0 <= y < a.Length0 ==> |g[y]| == a.Length1
  {
    seq(a.Length0, (y: int) requires 0 <= y < a.Length0 reads a =>
      seq(a.Length1, (x: int) requires 0 <= x < a.Length1 reads a => a[y, x]))
  }

  lemma ToGridAt(a: array2<int>)
    ensures forall y, x :: 0 <= y < a.Length0 && 0 <= x < a.Length1 ==> ToGrid(a)[y][x] == a[y, x]
  {
  }

  lemma GridExt(g: Grid, h: Grid)
    requires Shaped(g) && Shaped(h)
    requires forall y, x :: 0 <= y < GridHeight && 0 <= x < GridWidth ==> g[y][x] == h[y][x]
    ensures g == h
  {
    forall y | 0 <= y < GridHeight ensures g[y] == h[y] {
      assert forall x :: 0 <= x < GridWidth ==> g[y][x] == h[y][x];
    }
  }

  /** The cells a pointer move paints: the line from the last sampled cell, or just the new cell
      when there is none. */
  function StrokeCells(last: Option<Point>, p: Point): (pts: seq<Point>)
    ensures |pts| >= 1
    ensures pts[0] == (if last.Some? then last.value else p)
    ensures pts[|pts| - 1] == p
  {
    if last.Some? then (LineShape(Segment(last.value.x, last.value.y, p.x, p.y));
                        Line(Segment(last.value.x, last.value.y, p.x, p.y)))
    else [p]
  }

  /** `CHAR_MAP[Math.min(density, MAX_DENSITY)]`: the glyph the PNG export draws for a density. */
  function ExportGlyph(d: int): string
    requires d >= 0
  {
    CharMap[Min(d, MaxDensity)]
  }

  /** Export and screen choose the same glyph for every density, because MaxDensity is the last
      index of the table. */
  lemma GlyphParity(d: int)
    requires d >= 0
    ensures ExportGlyph(d) == AsciiArt.Glyph(d)
  {
  }

  /** The glyphs the export draws, with the column and row each is drawn at: every cell whose glyph
      is not the blank. */
  function ExportedGlyphs(g: Grid): set<(int, int, string)>
    requires Shaped(g) && AsciiArt.NonNegative(g)
  {
    set y, x | 0 <= y < GridHeight && 0 <= x < GridWidth && ExportGlyph(g[y][x]) != " " ::
      (x, y, ExportGlyph(g[y][x]))
  }

  /** The export draws a glyph for a cell exactly when its density is positive, and the glyph it
      draws is the one the screen shows. */
  lemma ExportSkipsExactlyBlank(g: Grid)
    requires Shaped(g) && AsciiArt.NonNegative(g)
    ensures forall y, x :: InBounds(x, y) ==> ((x, y, ExportGlyph(g[y][x])) in ExportedGlyphs(g) <==> g[y][x] > 0)
    ensures forall t :: t in ExportedGlyphs(g) ==> InBounds(t.0, t.1) && t.2 == AsciiArt.Glyph(g[t.1][t.0])
  {
    forall y, x | InBounds(x, y) ensures ExportGlyph(g[y][x]) == " " <==> g[y][x] == 0 {
      AsciiArt.GlyphBlankIffZero(g[y][x]);
    }
  }

  /** The tail of one `drawLine` iteration: the two guarded error-term updates, each moving one
      coordinate a unit toward its endpoint. */
  method Advance(ghost s: Segment, dx: int, dy: int, sx: int, sy: int, x: int, y: int, err: int)
    returns (x': int, y': int, err': int)
    requires dx == s.Dx() && dy == s.Dy() && sx == s.Sx() && sy == s.Sy()
    ensures Walker(x', y', err') == Step(s, Walker(x, y, err))
  {
    x', y', err' := x, y, err;
    var e2 := 2 * err;
    if e2 > -dy {
      err' := err' - dy;
      x' := x' + sx;
    }
    if e2 < dx {
      err' := err' + dx;
      y' := y' + sy;
    }
  }

  class Editor {
    /** The live grid: row y, column x. */
    var grid: array2<int>
    /** The live grid as a value. */
    ghost var cells: Grid
    /** Snapshots taken at each stroke start, most recent last. */
    var history: seq<Grid>
    var isDrawing: bool
    var isPublishing: bool
    var isExporting: bool
    /** The cell of the last sample of the current stroke. */
    var lastCoords: Option<Point>

    /** The grid has the fixed shape, `cells` is its contents and holds valid densities, and the
        history holds at most HistoryLimit snapshots, each of the same kind. */
    ghost predicate Valid()
      reads this, grid
    {
      && grid.Length0 == GridHeight && grid.Length1 == GridWidth
      && Shaped(cells) && Bounded(cells)
      && (forall y, x :: 0 <= y < GridHeight && 0 <= x < GridWidth ==> grid[y, x] == cells[y][x])
      && |history| <= HistoryLimit && Snapshots(history)
    }

    /** Publishing or exporting: drawing and undo are refused. */
    predicate Busy()
      reads this
    {
      isPublishing || isExporting
    }

    /** Only the grid's contents changed: the array, the history and the stroke state are kept. */
    twostate predicate OnlyCellsChanged()
      reads this
    {
      && grid == old(grid) && history == old(history) && isDrawing == old(isDrawing)
      && isPublishing == old(isPublishing) && isExporting == old(isExporting)
      && lastCoords == old(lastCoords)
    }

    constructor ()
      ensures Valid() && fresh(grid)
      ensures forall y, x :: InBounds(x, y) ==> cells[y][x] == 0
      ensures history == [] && !isDrawing && !isPublishing && !isExporting && lastCoords == None
    {
      grid := new int[GridHeight, GridWidth]((y: int, x: int) => 0);
      cells := seq(GridHeight, (y: int) => seq(GridWidth, (x: int) => 0));
      history := [];
      isDrawing, isPublishing, isExporting := false, false, false;
      lastCoords := None;
    }

    /** `gridRef.current.map(row => [...row])`: a row-by-row copy of the live grid. */
    method Snapshot() returns (copy: Grid)
      requires Valid()
      ensures copy == cells
    {
      copy := ToGrid(grid);
      ToGridAt(grid);
      GridExt(copy, cells);
    }

    /** `gridRef.current[y][x] = v`. */
    method WriteCell(x: int, y: int, v: int)
      requires Valid() && InBounds(x, y) && 0 <= v <= MaxDensity
      modifies this, grid
      ensures Valid() && OnlyCellsChanged()
      ensures cells == Set(old(cells), x, y, v)
    {
      grid[y, x] := v;
      cells := Set(cells, x, y, v);
    }

    /** The callback of `neighbors.forEach` for neighbour k: a neighbour on the grid whose coin
        comes up gains one unit, clamped at MaxDensity. */
    method BleedNeighbour(x: int, y: int, coin: nat -> bool, k: nat)
      requires Valid() && k < 4
      modifies this, grid
      ensures Valid() && OnlyCellsChanged()
      ensures cells == BleedOne(old(cells), x, y, coin, k)
    {
      var nx, ny := x + Neighbors[k].0, y + Neighbors[k].1;
      if 0 <= nx < GridWidth && 0 <= ny < GridHeight {
        if coin(k) {
          WriteCell(nx, ny, Min(grid[ny, nx] + 1, MaxDensity));
        }
      }
    }

    /** The `neighbors.forEach` of `setCellValue`, over the four neighbours in order. */
    method BleedNeighbours(x: int, y: int, coin: nat -> bool)
      requires Valid()
      modifies this, grid
      ensures Valid() && OnlyCellsChanged()
      ensures cells == BleedUpTo(old(cells), x, y, coin, 4)
    {
      for k := 0 to 4
        invariant Valid() && OnlyCellsChanged()
        invariant cells == BleedUpTo(old(cells), x, y, coin, k)
      {
        BleedNeighbour(x, y, coin, k);
      }
    }

    /** `setCellValue`: the grid becomes the value model's Paint of the old grid. */
    method SetCellValue(x: int, y: int, increment: int, coin: nat -> bool)
      requires Valid() && increment >= 0
      modifies this, grid
      ensures Valid() && OnlyCellsChanged()
      ensures cells == Paint(old(cells), x, y, increment, coin)
      ensures Dominates(cells, old(cells))
    {
      ghost var g := cells;
      if 0 <= x < GridWidth && 0 <= y < GridHeight {
        var current := grid[y, x];
        if current < MaxDensity {
          WriteCell(x, y, Min(current + increment, MaxDensity));
          BleedNeighbours(x, y, coin);
        }
      }
      PaintKeepsBoundsAndGrows(g, x, y, increment, coin);
    }

    /** The next paint of a walk: with the grid holding the paints of the first n cells of `pts`,
        painting cell n with paint index n leaves the paints of the first n + 1 cells. */
    method PaintNext(ghost g0: Grid, ghost pts: seq<Point>, n: nat, p: Point, bleed: (nat, nat) -> bool)
      requires Valid() && Shaped(g0) && n < |pts| && pts[n] == p
      requires cells == PaintAlong(g0, pts[..n], bleed)
      modifies this, grid
      ensures Valid() && OnlyCellsChanged()
      ensures cells == PaintAlong(g0, pts[..n + 1], bleed)
    {
      SetCellValue(p.x, p.y, 1, (k: nat) => bleed(n, k));
      PaintAlongSnoc(g0, pts[..n], p, bleed);
      assert pts[..n] + [p] == pts[..n + 1];
    }

    /** `drawLine`: paints the cells of the walk from (x0, y0) to (x1, y1) in order, the n-th paint
        taking its bleed decisions from `bleed(n, _)`. */
    method DrawLine(x0: int, y0: int, x1: int, y1: int, bleed: (nat, nat) -> bool)
      requires Valid()
      modifies this, grid
      ensures Valid() && OnlyCellsChanged()
      ensures cells == PaintAlong(old(cells), Line(Segment(x0, y0, x1, y1)), bleed)
    {
      ghost var s := Segment(x0, y0, x1, y1);
      ghost var line := Line(s);
      var dx: int := Abs(x1 - x0);
      var dy: int := Abs(y1 - y0);
      var sx := if x0 < x1 then 1 else -1;
      var sy := if y0 < y1 then 1 else -1;
      var err := dx - dy;
      var n := 0;
      var x, y := x0, y0;
      while true
        invariant Valid() && OnlyCellsChanged()
        invariant 0 <= n < |line|
        invariant Walker(x, y, err) == Walk(s, Start(s), n)
        invariant cells == PaintAlong(old(cells), line[..n], bleed)
        decreases |line| - n
      {
        LineAt(s, n);
        PaintNext(old(cells), line, n, Point(x, y), bleed);
        if x == x1 && y == y1 {
          assert line[..n + 1] == line;
          break;
        }
        WalkSucc(s, Start(s), n);
        x, y, err := Advance(s, dx, dy, sx, sy, x, y, err);
        n := n + 1;
      }
    }

    /** `handlePointerDown`: unless busy, push a snapshot of the grid, start drawing, and paint the
        sampled cell when there is one. */
    method PointerDown(coords: Option<Point>, coin: nat -> bool)
      requires Valid()
      modifies this, grid
      ensures Valid() && grid == old(grid)
      ensures isPublishing == old(isPublishing) && isExporting == old(isExporting)
      ensures old(Busy()) ==>
        (cells == old(cells) && history == old(history) &&
         isDrawing == old(isDrawing) && lastCoords == old(lastCoords))
      ensures !old(Busy()) ==> history == PushBounded(old(history), old(cells)) && isDrawing
      ensures !old(Busy()) && coords.Some? ==>
        cells == Paint(old(cells), coords.value.x, coords.value.y, 1, coin) && lastCoords == coords
      ensures !old(Busy()) && coords.None? ==> cells == old(cells) && lastCoords == old(lastCoords)
      ensures Dominates(cells, old(cells))
    {
      if isPublishing || isExporting {
        return;
      }
      var copy := Snapshot();
      PushKeepsSnapshots(history, copy);
      history := PushBounded(history, copy);
      isDrawing := true;
      if coords.Some? {
        SetCellValue(coords.value.x, coords.value.y, 1, coin);
        lastCoords := coords;
      }
    }

    /** `handlePointerMove`: while drawing and not busy, paint from the last sampled cell to the new
        one and remember the new one. */
    method PointerMove(coords: Option<Point>, bleed: (nat, nat) -> bool)
      requires Valid()
      modifies this, grid
      ensures Valid() && grid == old(grid)
      ensures history == old(history) && isDrawing == old(isDrawing)
      ensures isPublishing == old(isPublishing) && isExporting == old(isExporting)
      ensures !old(isDrawing) || old(Busy()) || coords.None? ==>
        cells == old(cells) && lastCoords == old(lastCoords)
      ensures old(isDrawing) && !old(Busy()) && coords.Some? ==>
        cells == PaintAlong(old(cells), StrokeCells(old(lastCoords), coords.value), bleed) &&
        lastCoords == coords
      ensures Dominates(cells, old(cells))
    {
      if !isDrawing || isPublishing || isExporting {
        return;
      }
      ghost var g := cells;
      if coords.Some? {
        var p := coords.value;
        if lastCoords.Some? {
          DrawLine(lastCoords.value.x, lastCoords.value.y, p.x, p.y, bleed);
        } else {
          SetCellValue(p.x, p.y, 1, (k: nat) => bleed(0, k));
          assert StrokeCells(lastCoords, p) == [p];
        }
        PaintAlongKeepsBoundsAndGrows(g, StrokeCells(lastCoords, p), bleed);
        lastCoords := coords;
      }
    }

    /** `handlePointerUp` (also pointer-leave): the stroke ends. */
    method PointerUp()
      requires Valid()
      modifies this
      ensures Valid() && grid == old(grid) && cells == old(cells) && history == old(history)
      ensures isPublishing == old(isPublishing) && isExporting == old(isExporting)
      ensures !isDrawing && lastCoords == None
    {
      isDrawing := false;
      lastCoords := None;
    }

    /** `handleUndo`: unless the history is empty or the session busy, the grid becomes a fresh copy
        of the latest snapshot, which leaves the history. */
    method Undo()
      requires Valid()
      modifies this
      ensures Valid()
      ensures isDrawing == old(isDrawing) && lastCoords == old(lastCoords)
      ensures isPublishing == old(isPublishing) && isExporting == old(isExporting)
      ensures |old(history)| == 0 || old(Busy()) ==>
        grid == old(grid) && cells == old(cells) && history == old(history)
      ensures |old(history)| > 0 && !old(Busy()) ==>
        fresh(grid) && cells == old(history)[|old(history)| - 1] &&
        history == old(history)[..|old(history)| - 1]
    {
      if |history| == 0 || isPublishing || isExporting {
        return;
      }
      var previous := history[|history| - 1];
      grid := new int[GridHeight, GridWidth]((y: int, x: int) requires 0 <= y < GridHeight && 0 <= x < GridWidth =>
        previous[y][x]);
      cells := previous;
      history := history[..|history| - 1];
    }

    /** The keyboard shortcut: Ctrl or Cmd together with 'z' undoes. */
    method KeyDown(commandKey: bool, key: string)
      requires Valid()
      modifies this
      ensures Valid()
      ensures isDrawing == old(isDrawing) && lastCoords == old(lastCoords)
      ensures isPublishing == old(isPublishing) && isExporting == old(isExporting)
      ensures !(commandKey && key == "z") ==> grid == old(grid) && cells == old(cells) && history == old(history)
      ensures commandKey && key == "z" && (|old(history)| == 0 || old(Busy())) ==>
        grid == old(grid) && cells == old(cells) && history == old(history)
      ensures commandKey && key == "z" && |old(history)| > 0 && !old(Busy()) ==>
        cells == old(history)[|old(history)| - 1] && history == old(history)[..|old(history)| - 1]
    {
      if commandKey && key == "z" {
        Undo();
      }
    }

    /** `handlePublish`, up to the deferred save: unless busy, enter the publishing state and hand
        over the grid to save. */
    method Publish() returns (toSave: Option<Grid>)
      requires Valid()
      modifies this
      ensures Valid() && grid == old(grid) && cells == old(cells) && history == old(history)
      ensures isExporting == old(isExporting) && isDrawing == old(isDrawing) && lastCoords == old(lastCoords)
      ensures old(Busy()) ==> toSave == None && isPublishing == old(isPublishing)
      ensures !old(Busy()) ==> toSave == Some(cells) && isPublishing
    {
      if isPublishing || isExporting {
        return None;
      }
      isPublishing := true;
      var copy := Snapshot();
      toSave := Some(copy);
    }

    /** `downloadPng` up to its first await: refuse when an export is already running, otherwise mark
        the session as exporting. */
    method BeginExport() returns (started: bool)
      requires Valid()
      modifies this
      ensures Valid() && grid == old(grid) && cells == old(cells) && history == old(history)
      ensures isPublishing == old(isPublishing) && isDrawing == old(isDrawing) && lastCoords == old(lastCoords)
      ensures started == !old(isExporting) && isExporting
    {
      if isExporting {
        return false;
      }
      isExporting := true;
      started := true;
    }

    /** The `finally` of `downloadPng`: the session is no longer exporting. */
    method EndExport()
      requires Valid()
      modifies this
      ensures Valid() && grid == old(grid) && cells == old(cells) && history == old(history)
      ensures isPublishing == old(isPublishing) && isDrawing == old(isDrawing) && lastCoords == old(lastCoords)
      ensures !isExporting
    {
      isExporting := false;
    }
  }

  /** Snapshot, paint, undo: a whole stroke followed by an undo puts back every cell, and when the
      history was not full it puts back the history too. */
  method StrokeThenUndo(e: Editor, down: Option<Point>, moves: seq<Option<Point>>, coin: nat -> bool,
                        bleed: (nat, nat) -> bool)
    requires e.Valid() && !e.Busy()
    modifies e, e.grid
    ensures e.Valid()
    ensures e.cells == old(e.cells)
    ensures |old(e.history)| < HistoryLimit ==> e.history == old(e.history)
  {
    ghost var g := e.cells;
    ghost var h := e.history;
    e.PointerDown(down, coin);
    var i := 0;
    while i < |moves|
      invariant e.Valid() && !e.Busy() && e.grid == old(e.grid)
      invariant e.history == PushBounded(h, g)
    {
      e.PointerMove(moves[i], bleed);
      i := i + 1;
    }
    e.PointerUp();
    e.Undo();
  }
}
