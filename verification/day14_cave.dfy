/** Day 14, first half: the cave grid, its coordinate offset and the rock
    segments drawn into it (day-14/src/main.rs). Coordinates are unbounded
    integers rather than `i64`; an index that `as usize` would wrap round is
    reported as out of the grid. */
module Day14Cave {
  import opened Wrappers

  datatype Material = Air | Rock | SandAtRest

  /** `Material::is_empty`. */
  predicate IsEmpty(m: Material)
  {
    m == Air
  }

  /** World coordinates `(x, y)`, with `y` growing downwards. */
  type Coords = (int, int)
  /** Grid indices `(column, row)`. */
  type GridPosition = (nat, nat)
  type LineSegment = (Coords, Coords)

  const SandOrigin: Coords := (500, 0)

  /** The cave: rows of materials, the world coordinates of the grid's
      corners, and the grain of sand in flight, if any. `maxY` is the floor's
      row, two below the lowest rock. */
  datatype Cave = Cave(grid: seq<seq<Material>>, minX: int, minY: int, maxX: int, maxY: int,
                       grain: Option<GridPosition>)

  /** `ordered`: the bounds of the inclusive range between `a` and `b`. */
  function Ordered(a: nat, b: nat): (r: (nat, nat))
    ensures r.0 <= r.1
    ensures (r.0 == a && r.1 == b) || (r.0 == b && r.1 == a)
  {
    if a <= b then (a, b) else (b, a)
  }

  /** `i` lies in `ordered(a, b)` exactly when it lies between `a` and `b`,
      whichever is larger. */
  lemma OrderedMembers(a: nat, b: nat, i: nat)
    ensures Ordered(a, b).0 <= i <= Ordered(a, b).1 <==> a <= i <= b || b <= i <= a
  {
  }

  /** Number of columns of `min_x..=max_x`. */
  function Width(minX: int, maxX: int): nat
  {
    if maxX < minX then 0 else maxX - minX + 1
  }

  predicate InGrid(grid: seq<seq<Material>>, p: GridPosition)
  {
    p.1 < |grid| && p.0 < |grid[p.1]|
  }

  /** Both grids have the same rows of the same lengths. */
  predicate SameShape(a: seq<seq<Material>>, b: seq<seq<Material>>)
  {
    |a| == |b| && forall y :: 0 <= y < |a| ==> |a[y]| == |b[y]|
  }

  /** The last row is solid rock. */
  predicate FloorIsRock(grid: seq<seq<Material>>)
  {
    |grid| > 0 && RowIsRock(grid[|grid| - 1])
  }

  predicate RowIsRock(row: seq<Material>)
  {
    forall x :: 0 <= x < |row| ==> row[x] == Rock
  }

  /** `Cave::new`: one row per `y` from `min_y` to the floor at `max_y + 2`,
      one column per `x` from `min_x` to `max_x`, air everywhere except the
      floor. Without a single row, taking the floor panics. */
  function NewCave(min: Coords, max: Coords): (r: Result<Cave>)
    ensures r.Err? <==> min.1 > max.1 + 2
    ensures r.Ok? ==>
      var c := r.value;
      && c == Cave(c.grid, min.0, min.1, max.0, max.1 + 2, None)
      && |c.grid| == max.1 + 3 - min.1
      && (forall y :: 0 <= y < |c.grid| ==> |c.grid[y]| == Width(min.0, max.0))
      && (forall y, x :: 0 <= y < |c.grid| - 1 && 0 <= x < |c.grid[y]| ==> c.grid[y][x] == Air)
      && FloorIsRock(c.grid)
  {
    var maxY := max.1 + 2;
    if min.1 > maxY then Err("no floor row")
    else
      var rows := maxY - min.1 + 1;
      Ok(Cave(seq(rows, y => seq(Width(min.0, max.0), x => if y == rows - 1 then Rock else Air)),
              min.0, min.1, max.0, maxY, None))
  }

  /** `coords_to_indices`: subtract the grid's corner. A coordinate left of or
      above the corner has no index. */
  function CoordsToIndices(cave: Cave, c: Coords): (r: Option<GridPosition>)
    ensures r.Some? <==> c.0 >= cave.minX && c.1 >= cave.minY
    ensures r.Some? ==> r.value.0 + cave.minX == c.0 && r.value.1 + cave.minY == c.1
  {
    if c.0 < cave.minX || c.1 < cave.minY then None
    else Some((c.0 - cave.minX, c.1 - cave.minY))
  }

  /** The world coordinates of a grid position. */
  function World(cave: Cave, p: GridPosition): Coords
  {
    (p.0 + cave.minX, p.1 + cave.minY)
  }

  /** Converting a grid position to world coordinates and back gives the
      position again. */
  lemma IndicesRoundTrip(cave: Cave, p: GridPosition)
    ensures CoordsToIndices(cave, World(cave, p)) == Some(p)
  {
  }

  /** The material at world coordinates, if they fall inside the grid. */
  function MaterialAt(cave: Cave, c: Coords): (r: Option<Material>)
    ensures r.Some? <==> CoordsToIndices(cave, c).Some? && InGrid(cave.grid, CoordsToIndices(cave, c).value)
  {
    match CoordsToIndices(cave, c)
    case None => None
    case Some(p) => if InGrid(cave.grid, p) then Some(cave.grid[p.1][p.0]) else None
  }

  /** `has_sand_resting_at_origin`; indexing outside the grid panics. */
  function HasSandRestingAtOrigin(cave: Cave): (r: Result<bool>)
    ensures r.Err? <==> MaterialAt(cave, SandOrigin).None?
    ensures r.Ok? ==> (r.value <==> MaterialAt(cave, SandOrigin) == Some(SandAtRest))
  {
    match CoordsToIndices(cave, SandOrigin)
    case None => Err("origin outside the cave")
    case Some(p) =>
      if !InGrid(cave.grid, p) then Err("origin outside the cave")
      else Ok(cave.grid[p.1][p.0] == SandAtRest)
  }

  /** `add_sand`: only with no grain in flight, and only onto air. */
  function AddSand(cave: Cave, location: Coords): (r: Result<Cave>)
    ensures r.Ok? <==> cave.grain.None? && MaterialAt(cave, location) == Some(Air)
    ensures r.Ok? ==> r.value == cave.(grain := CoordsToIndices(cave, location))
  {
    if cave.grain.Some? then Err("a grain is already falling")
    else
      match CoordsToIndices(cave, location)
      case None => Err("location outside the cave")
      case Some(p) =>
        if !InGrid(cave.grid, p) then Err("location outside the cave")
        else if cave.grid[p.1][p.0] != Air then Err("location is not air")
        else Ok(cave.(grain := Some(p)))
  }

  // ---------------------------------------------------------------------------
  // Rock segments.

  predicate Between(a: int, b: int, i: int)
  {
    a <= i <= b || b <= i <= a
  }

  /** The world points of an axis-aligned segment, endpoints included. A
      diagonal segment has none. */
  predicate OnSegment(line: LineSegment, w: Coords)
  {
    var ((x0, y0), (x1, y1)) := line;
    (x0 == x1 && w.0 == x0 && Between(y0, y1, w.1))
    || (y0 == y1 && w.1 == y0 && Between(x0, x1, w.0))
  }

  predicate Diagonal(line: LineSegment)
  {
    line.0.0 != line.1.0 && line.0.1 != line.1.1
  }

  /** What `fill_line_segment` needs to finish: an axis-aligned segment all
      of whose points lie in the grid. */
  ghost predicate Fillable(cave: Cave, line: LineSegment)
  {
    && !Diagonal(line)
    && CoordsToIndices(cave, line.0).Some? && CoordsToIndices(cave, line.1).Some?
    && forall p: GridPosition :: OnSegment(line, World(cave, p)) ==> InGrid(cave.grid, p)
  }

  /** `after` is `before` with exactly the cells of the segment turned to
      rock. */
  predicate Filled(before: Cave, line: LineSegment, after: Cave)
  {
    && after == before.(grid := after.grid)
    && SameShape(after.grid, before.grid)
    && forall y, x :: 0 <= y < |before.grid| && 0 <= x < |before.grid[y]| ==>
         after.grid[y][x] == if OnSegment(line, World(before, (x, y))) then Rock else before.grid[y][x]
  }

  /** The loop of a vertical segment: rock into column `x` from row `lo` to
      row `hi`; the first row outside the grid panics. */
  method FillColumn(grid: seq<seq<Material>>, x: nat, lo: nat, hi: nat) returns (r: Result<seq<seq<Material>>>)
    requires lo <= hi
    ensures r.Err? <==> exists y :: lo <= y <= hi && !InGrid(grid, (x, y))
    ensures r.Ok? ==> SameShape(r.value, grid)
    ensures r.Ok? ==> forall y, c :: 0 <= y < |grid| && 0 <= c < |grid[y]| ==>
      r.value[y][c] == if c == x && lo <= y <= hi then Rock else grid[y][c]
  {
    var g := grid;
    var y := lo;
    while y <= hi
      invariant lo <= y <= hi + 1
      invariant SameShape(g, grid)
      invariant forall k :: lo <= k < y ==> InGrid(grid, (x, k))
      invariant forall k, c :: 0 <= k < |grid| && 0 <= c < |grid[k]| ==>
        g[k][c] == if c == x && lo <= k < y then Rock else grid[k][c]
    {
      if !InGrid(g, (x, y)) {
        return Err("index out of bounds");
      }
      g := g[y := g[y][x := Rock]];
      y := y + 1;
    }
    return Ok(g);
  }

  /** The loop of a horizontal segment: rock into row `y` from column `lo`
      to column `hi`; the first column outside the grid panics. */
  method FillRow(grid: seq<seq<Material>>, y: nat, lo: nat, hi: nat) returns (r: Result<seq<seq<Material>>>)
    requires lo <= hi
    ensures r.Err? <==> exists x :: lo <= x <= hi && !InGrid(grid, (x, y))
    ensures r.Ok? ==> SameShape(r.value, grid)
    ensures r.Ok? ==> forall k, c :: 0 <= k < |grid| && 0 <= c < |grid[k]| ==>
      r.value[k][c] == if k == y && lo <= c <= hi then Rock else grid[k][c]
  {
    var g := grid;
    var x := lo;
    while x <= hi
      invariant lo <= x <= hi + 1
      invariant SameShape(g, grid)
      invariant forall c :: lo <= c < x ==> InGrid(grid, (c, y))
      invariant forall k, c :: 0 <= k < |grid| && 0 <= c < |grid[k]| ==>
        g[k][c] == if k == y && lo <= c < x then Rock else grid[k][c]
    {
      if !InGrid(g, (x, y)) {
        return Err("index out of bounds");
      }
      g := g[y := g[y][x := Rock]];
      x := x + 1;
    }
    return Ok(g);
  }

  /** `fill_line_segment`: a vertical segment first, then a horizontal one;
      a diagonal segment is unimplemented. It succeeds exactly when the
      segment is fillable, and then turns exactly its cells to rock. */
  method FillLineSegment(cave: Cave, line: LineSegment) returns (r: Result<Cave>)
    ensures r.Err? <==> !Fillable(cave, line)
    ensures r.Ok? ==> Filled(cave, line, r.value)
  {
    var i0 := CoordsToIndices(cave, line.0);
    var i1 := CoordsToIndices(cave, line.1);
    if i0.None? || i1.None? {
      // `as usize` wraps the negative offset round to an index past the grid.
      return Err("index out of bounds");
    }
    var (x0, y0) := i0.value;
    var (x1, y1) := i1.value;
    if x0 == x1 {
      r := FillVertical(cave, line);
    } else if y0 == y1 {
      r := FillHorizontal(cave, line);
    } else {
      return Err("diagonal line");
    }
  }

  /** The vertical branch of `fill_line_segment`. */
  method FillVertical(cave: Cave, line: LineSegment) returns (r: Result<Cave>)
    requires CoordsToIndices(cave, line.0).Some? && CoordsToIndices(cave, line.1).Some?
    requires CoordsToIndices(cave, line.0).value.0 == CoordsToIndices(cave, line.1).value.0
    ensures r.Err? <==> !Fillable(cave, line)
    ensures r.Ok? ==> Filled(cave, line, r.value)
  {
    var (x0, y0) := CoordsToIndices(cave, line.0).value;
    var (x1, y1) := CoordsToIndices(cave, line.1).value;
    var (lo, hi) := Ordered(y0, y1);
    var g := FillColumn(cave.grid, x0, lo, hi);
    SegmentCells(cave, line);
    if g.Err? {
      var y :| lo <= y <= hi && !InGrid(cave.grid, (x0, y));
      assert OnSegment(line, World(cave, (x0, y)));
      return Err(g.reason);
    }
    r := Ok(cave.(grid := g.value));
  }

  /** The horizontal branch of `fill_line_segment`. */
  method FillHorizontal(cave: Cave, line: LineSegment) returns (r: Result<Cave>)
    requires CoordsToIndices(cave, line.0).Some? && CoordsToIndices(cave, line.1).Some?
    requires CoordsToIndices(cave, line.0).value.1 == CoordsToIndices(cave, line.1).value.1
    ensures r.Err? <==> !Fillable(cave, line)
    ensures r.Ok? ==> Filled(cave, line, r.value)
  {
    var (x0, y0) := CoordsToIndices(cave, line.0).value;
    var (x1, y1) := CoordsToIndices(cave, line.1).value;
    var (lo, hi) := Ordered(x0, x1);
    var g := FillRow(cave.grid, y0, lo, hi);
    SegmentCells(cave, line);
    if g.Err? {
      var x :| lo <= x <= hi && !InGrid(cave.grid, (x, y0));
      assert OnSegment(line, World(cave, (x, y0)));
      return Err(g.reason);
    }
    r := Ok(cave.(grid := g.value));
  }

  /** In grid indices, the segment's cells are one column or one row
      between the converted endpoints. */
  lemma SegmentCells(cave: Cave, line: LineSegment)
    requires CoordsToIndices(cave, line.0).Some? && CoordsToIndices(cave, line.1).Some?
    ensures var (x0, y0) := CoordsToIndices(cave, line.0).value;
      var (x1, y1) := CoordsToIndices(cave, line.1).value;
      forall p: GridPosition {:trigger World(cave, p)} :: OnSegment(line, World(cave, p)) <==>
        (x0 == x1 && p.0 == x0 && Between(y0, y1, p.1)) || (y0 == y1 && p.1 == y0 && Between(x0, x1, p.0))
  {
  }

  /** `Fillable` looks only at the grid's shape and corner. */
  lemma FillableShape(a: Cave, b: Cave, line: LineSegment)
    requires b == a.(grid := b.grid) && SameShape(b.grid, a.grid)
    ensures Fillable(a, line) <==> Fillable(b, line)
  {
    assert forall p: GridPosition :: InGrid(a.grid, p) <==> InGrid(b.grid, p);
  }

  /** The segments of all paths, in the order `add_rocks` draws them. */
  function Flatten(paths: seq<seq<LineSegment>>): (segs: seq<LineSegment>)
    ensures forall i, j :: 0 <= i < |paths| && 0 <= j < |paths[i]| ==> paths[i][j] in segs
    ensures forall k :: 0 <= k < |segs| ==> exists i :: 0 <= i < |paths| && segs[k] in paths[i]
  {
    if |paths| == 0 then []
    else
      var init := paths[..|paths| - 1];
      var r := Flatten(init) + paths[|paths| - 1];
      assert forall i :: 0 <= i < |init| ==> paths[i] == init[i];
      r
  }

  /** Some segment passes through `w`. */
  predicate Covered(segs: seq<LineSegment>, w: Coords)
  {
    exists k :: 0 <= k < |segs| && OnSegment(segs[k], w)
  }

  lemma CoveredStep(segs: seq<LineSegment>, i: nat, w: Coords)
    requires i < |segs|
    ensures Covered(segs[..i + 1], w) <==> Covered(segs[..i], w) || OnSegment(segs[i], w)
  {
    var next := segs[..i + 1];
    if Covered(next, w) && !OnSegment(segs[i], w) {
      var k :| 0 <= k < |next| && OnSegment(next[k], w);
      assert segs[..i][k] == next[k];
    }
    if Covered(segs[..i], w) {
      var k :| 0 <= k < i && OnSegment(segs[..i][k], w);
      assert next[k] == segs[..i][k];
    }
    if OnSegment(segs[i], w) {
      assert next[i] == segs[i];
    }
  }

  ghost predicate AllFillable(cave: Cave, segs: seq<LineSegment>)
  {
    forall k :: 0 <= k < |segs| ==> Fillable(cave, segs[k])
  }

  /** The loops of `add_rocks` over the segments in drawing order. It fails
      exactly when some segment is not fillable, and otherwise turns to
      rock exactly the cells some segment passes through. */
  method AddSegments(cave: Cave, segs: seq<LineSegment>) returns (r: Result<Cave>)
    ensures r.Err? <==> !AllFillable(cave, segs)
    ensures r.Ok? ==> Drawn(cave, segs, r.value)
  {
    var c := cave;
    var i := 0;
    while i < |segs|
      invariant 0 <= i <= |segs|
      invariant forall k :: 0 <= k < i ==> Fillable(cave, segs[k])
      invariant Drawn(cave, segs[..i], c)
    {
      FillableShape(cave, c, segs[i]);
      var next := FillLineSegment(c, segs[i]);
      if next.Err? {
        return Err(next.reason);
      }
      DrawnStep(cave, segs, i, c, next.value);
      c := next.value;
      i := i + 1;
    }
    assert segs[..i] == segs;
    return Ok(c);
  }

  /** `after` is `before` with exactly the cells some segment passes
      through turned to rock. */
  predicate Drawn(before: Cave, segs: seq<LineSegment>, after: Cave)
  {
    && after == before.(grid := after.grid)
    && SameShape(after.grid, before.grid)
    && forall y, x :: 0 <= y < |before.grid| && 0 <= x < |before.grid[y]| ==>
         after.grid[y][x] == if Covered(segs, World(before, (x, y))) then Rock else before.grid[y][x]
  }

  lemma DrawnStep(cave: Cave, segs: seq<LineSegment>, i: nat, c: Cave, next: Cave)
    requires i < |segs| && Drawn(cave, segs[..i], c) && Filled(c, segs[i], next)
    ensures Drawn(cave, segs[..i + 1], next)
  {
    forall y, x | 0 <= y < |cave.grid| && 0 <= x < |cave.grid[y]|
      ensures next.grid[y][x] == if Covered(segs[..i + 1], World(cave, (x, y))) then Rock else cave.grid[y][x]
    {
      CoveredStep(segs, i, World(cave, (x, y)));
    }
  }

  /** `add_rocks`: every segment of every path in turn. */
  method AddRocks(cave: Cave, paths: seq<seq<LineSegment>>) returns (r: Result<Cave>)
    ensures r.Err? <==> !AllFillable(cave, Flatten(paths))
    ensures r.Ok? ==> Drawn(cave, Flatten(paths), r.value)
  {
    r := AddSegments(cave, Flatten(paths));
  }

  /** The smallest and largest corners seen so far. */
  function Expand(b: (Coords, Coords), p: Coords): (r: (Coords, Coords))
    ensures Within(r, p)
    ensures forall q :: Within(b, q) ==> Within(r, q)
  {
    ((Min(b.0.0, p.0), Min(b.0.1, p.1)), (Max(b.1.0, p.0), Max(b.1.1, p.1)))
  }

  function Min(a: int, b: int): int { if a <= b then a else b }
  function Max(a: int, b: int): int { if a <= b then b else a }

  predicate Within(b: (Coords, Coords), p: Coords)
  {
    b.0.0 <= p.0 <= b.1.0 && b.0.1 <= p.1 <= b.1.1
  }

  /** The bounds computed at the start of `main`: from the sand's origin,
      widened by both ends of every segment. */
  function Bounds(segs: seq<LineSegment>): (r: (Coords, Coords))
    ensures Within(r, SandOrigin)
    ensures forall k :: 0 <= k < |segs| ==> Within(r, segs[k].0) && Within(r, segs[k].1)
  {
    if |segs| == 0 then (SandOrigin, SandOrigin)
    else
      var last := segs[|segs| - 1];
      var b := Bounds(segs[..|segs| - 1]);
      assert forall k :: 0 <= k < |segs| - 1 ==> segs[k] == segs[..|segs| - 1][k];
      Expand(Expand(b, last.0), last.1)
  }

  /** A cave built from those bounds has room for every axis-aligned
      segment, so drawing the rocks cannot fail for lack of space. */
  lemma BoundsFit(segs: seq<LineSegment>, k: nat)
    requires k < |segs| && !Diagonal(segs[k])
    ensures NewCave(Bounds(segs).0, Bounds(segs).1).Ok?
    ensures Fillable(NewCave(Bounds(segs).0, Bounds(segs).1).value, segs[k])
  {
    var b := Bounds(segs);
    assert Within(b, segs[k].0) && Within(b, segs[k].1);
    WithinFits(b.0, b.1, segs[k]);
  }

  /** A cave spanning two corners holds every axis-aligned segment whose
      ends lie between them. */
  lemma WithinFits(lo: Coords, hi: Coords, line: LineSegment)
    requires Within((lo, hi), line.0) && Within((lo, hi), line.1) && !Diagonal(line)
    ensures NewCave(lo, hi).Ok?
    ensures Fillable(NewCave(lo, hi).value, line)
  {
    var cave := NewCave(lo, hi).value;
    forall p: GridPosition | OnSegment(line, World(cave, p))
      ensures InGrid(cave.grid, p)
    {
      assert lo.1 <= World(cave, p).1 <= hi.1;
      assert lo.0 <= World(cave, p).0 <= hi.0;
    }
  }
}
