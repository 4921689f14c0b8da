/** Day 14, second half: falling sand, the growth of the cave sideways, and
    the grain-counting loop of `main` (day-14/src/main.rs). */
module Day14Sand {
  import opened Wrappers
  import opened Day14Cave

  /** What every cave of the simulation keeps: a non-empty rectangle whose
      columns match `min_x..=max_x` and rows `min_y..=max_y`, a floor of solid
      rock, and a grain in flight that sits on air above the floor. */
  predicate Valid(cave: Cave)
  {
    var g := cave.grid;
    && |g| >= 1 && |g[0]| >= 1
    && (forall y :: 0 <= y < |g| ==> |g[y]| == |g[0]|)
    && cave.maxX - cave.minX + 1 == |g[0]|
    && cave.maxY - cave.minY + 1 == |g|
    && FloorIsRock(g)
    && (cave.grain.Some? ==>
          var (x, y) := cave.grain.value;
          y < |g| - 1 && x < |g[0]| && g[y][x] == Air)
  }

  datatype MoveInto = EmptySquare(to: GridPosition) | RestingPosition(at: GridPosition) | LeftAbyss | RightAbyss

  /** `_try_move_sand`: straight down, else down-left, else down-right, else
      rest; an abyss is reported before looking past either edge. The
      `expect`, the floor assertion and out-of-range indexing panic. */
  function TryMoveSand(cave: Cave): (r: Result<MoveInto>)
    ensures Valid(cave) && cave.grain.Some? ==> r.Ok?
    ensures r.Ok? ==>
      && cave.grain.Some?
      && var (x, y) := cave.grain.value;
      && y + 1 < |cave.grid| && x < |cave.grid[y + 1]|
      && var below := cave.grid[y + 1];
      // Falling straight down comes first.
      && (IsEmpty(below[x]) <==> r.value == EmptySquare((x, y + 1)))
      && (r.value.EmptySquare? ==> r.value.to.1 == y + 1 && r.value.to.0 < |below| && IsEmpty(below[r.value.to.0]))
      // At the left edge the grain would fall off.
      && (r.value == LeftAbyss <==> !IsEmpty(below[x]) && x == 0)
      && (r.value.EmptySquare? && r.value.to.0 + 1 == x <==>
            !IsEmpty(below[x]) && x > 0 && IsEmpty(below[x - 1]))
      // So would it at the right edge.
      && (r.value == RightAbyss <==>
            !IsEmpty(below[x]) && x > 0 && !IsEmpty(below[x - 1]) && x == |cave.grid[0]| - 1)
      && (r.value.EmptySquare? && r.value.to.0 == x + 1 <==>
            !IsEmpty(below[x]) && x > 0 && !IsEmpty(below[x - 1]) && x != |cave.grid[0]| - 1
            && x + 1 < |below| && IsEmpty(below[x + 1]))
      // Otherwise the grain rests where it is, all three cells below taken.
      && (r.value.RestingPosition? ==>
            r.value.at == (x, y) && 0 < x && x + 1 < |below|
            && !IsEmpty(below[x - 1]) && !IsEmpty(below[x]) && !IsEmpty(below[x + 1]))
  {
    match cave.grain
    case None => Err("should only simulate with sand")
    case Some((x, y)) =>
      if y + 1 >= |cave.grid| then Err("sand below the infinite floor")
      else if x >= |cave.grid[y + 1]| then Err("index out of bounds")
      else if IsEmpty(cave.grid[y + 1][x]) then Ok(EmptySquare((x, y + 1)))
      else if x == 0 then Ok(LeftAbyss)
      else if IsEmpty(cave.grid[y + 1][x - 1]) then Ok(EmptySquare((x - 1, y + 1)))
      else if x == |cave.grid[0]| - 1 then Ok(RightAbyss)
      else if x + 1 >= |cave.grid[y + 1]| then Err("index out of bounds")
      else if IsEmpty(cave.grid[y + 1][x + 1]) then Ok(EmptySquare((x + 1, y + 1)))
      else Ok(RestingPosition((x, y)))
  }

  /** The grain comes to rest: the cell becomes sand and no grain is in
      flight. */
  function Rest(cave: Cave, p: GridPosition): (r: Cave)
    requires InGrid(cave.grid, p)
    ensures r.grain.None? && SameShape(r.grid, cave.grid)
    ensures forall y, x :: 0 <= y < |cave.grid| && 0 <= x < |cave.grid[y]| ==>
      r.grid[y][x] == if (x, y) == p then SandAtRest else cave.grid[y][x]
  {
    cave.(grain := None, grid := cave.grid[p.1 := cave.grid[p.1][p.0 := SandAtRest]])
  }

  /** The `LeftAbyss` arm: a column of air in front of every row, rock in
      the floor's, the grain one column further right and `min_x` one
      less. */
  function GrowLeft(cave: Cave): Cave
    requires |cave.grid| > 0 && cave.grain.Some?
  {
    var g := seq(|cave.grid|, i requires 0 <= i < |cave.grid| => [Air] + cave.grid[i]);
    var last := |g| - 1;
    var (x, y) := cave.grain.value;
    cave.(grid := g[last := g[last][0 := Rock]], grain := Some((x + 1, y)), minX := cave.minX - 1)
  }

  /** The `RightAbyss` arm: a column of air after every row, rock in the
      floor's, and `max_x` one more. */
  function GrowRight(cave: Cave): Cave
    requires |cave.grid| > 0
  {
    var g := seq(|cave.grid|, i requires 0 <= i < |cave.grid| => cave.grid[i] + [Air]);
    var last := |g| - 1;
    cave.(grid := g[last := g[last][|g[last]| - 1 := Rock]], maxX := cave.maxX + 1)
  }

  /** `simulate_one`. */
  function SimulateOne(cave: Cave): (r: Result<Cave>)
    ensures TryMoveSand(cave).Err? ==> r.Err?
  {
    match TryMoveSand(cave)
    case Err(e) => Err(e)
    case Ok(EmptySquare(p)) => Ok(cave.(grain := Some(p)))
    case Ok(RestingPosition(p)) =>
      if InGrid(cave.grid, p) then Ok(Rest(cave, p)) else Err("index out of bounds")
    case Ok(LeftAbyss) => Ok(GrowLeft(cave))
    case Ok(RightAbyss) => Ok(GrowRight(cave))
  }

  /** The world coordinates of the grain in flight. */
  function GrainAt(cave: Cave): Coords
    requires cave.grain.Some?
  {
    World(cave, cave.grain.value)
  }

  /** Growing to the left keeps every world coordinate on the same
      material, keeps the grain where it was in the world, and adds one
      column at `min_x - 1` that is air above the floor. */
  lemma GrowLeftKeepsWorld(cave: Cave)
    requires Valid(cave) && cave.grain.Some?
    ensures var grown := GrowLeft(cave);
      && Valid(grown)
      && grown.minX == cave.minX - 1 && grown.maxX == cave.maxX && grown.minY == cave.minY
      && GrainAt(grown) == GrainAt(cave)
      && (forall c :: MaterialAt(cave, c).Some? ==> MaterialAt(grown, c) == MaterialAt(cave, c))
      && (forall y: nat :: y < |cave.grid| ==>
            MaterialAt(grown, World(grown, (0, y))) == Some(if y == |cave.grid| - 1 then Rock else Air))
  {
    GrowLeftValid(cave);
    GrowLeftSame(cave);
    GrowLeftColumn(cave);
  }

  lemma GrowLeftValid(cave: Cave)
    requires Valid(cave) && cave.grain.Some?
    ensures Valid(GrowLeft(cave))
  {
    var grown := GrowLeft(cave);
    var g := cave.grid;
    var last := |g| - 1;
    forall y | 0 <= y < |grown.grid|
      ensures |grown.grid[y]| == |g[0]| + 1
    {
    }
    var (x, y) := cave.grain.value;
    assert grown.grid[y][x + 1] == g[y][x];
    assert FloorIsRock(grown.grid) by {
      forall x | 0 <= x < |grown.grid[last]|
        ensures grown.grid[last][x] == Rock
      {
        if x > 0 {
          assert grown.grid[last][x] == g[last][x - 1];
        }
      }
    }
  }

  lemma GrowLeftSame(cave: Cave)
    requires Valid(cave) && cave.grain.Some?
    ensures forall c :: MaterialAt(cave, c).Some? ==> MaterialAt(GrowLeft(cave), c) == MaterialAt(cave, c)
  {
    var grown := GrowLeft(cave);
    forall c | MaterialAt(cave, c).Some?
      ensures MaterialAt(grown, c) == MaterialAt(cave, c)
    {
      var p := CoordsToIndices(cave, c).value;
      assert CoordsToIndices(grown, c) == Some((p.0 + 1, p.1));
      assert grown.grid[p.1][p.0 + 1] == cave.grid[p.1][p.0];
    }
  }

  lemma GrowLeftColumn(cave: Cave)
    requires Valid(cave) && cave.grain.Some?
    ensures var grown := GrowLeft(cave);
      forall y: nat :: y < |cave.grid| ==>
        MaterialAt(grown, World(grown, (0, y))) == Some(if y == |cave.grid| - 1 then Rock else Air)
  {
    var grown := GrowLeft(cave);
    forall y: nat | y < |cave.grid|
      ensures MaterialAt(grown, World(grown, (0, y))) == Some(if y == |cave.grid| - 1 then Rock else Air)
    {
      IndicesRoundTrip(grown, (0, y));
    }
  }

  /** Growing to the right keeps every world coordinate on the same
      material and the grain where it was, and adds one column at
      `max_x + 1` that is air above the floor. */
  lemma GrowRightKeepsWorld(cave: Cave)
    requires Valid(cave)
    ensures var grown := GrowRight(cave);
      && Valid(grown)
      && grown.minX == cave.minX && grown.maxX == cave.maxX + 1 && grown.minY == cave.minY
      && grown.grain == cave.grain
      && (forall c :: MaterialAt(cave, c).Some? ==> MaterialAt(grown, c) == MaterialAt(cave, c))
      && World(grown, (|cave.grid[0]|, 0)).0 == grown.maxX
      && (forall y: nat :: y < |cave.grid| ==>
            MaterialAt(grown, World(grown, (|cave.grid[0]|, y))) == Some(if y == |cave.grid| - 1 then Rock else Air))
  {
    GrowRightValid(cave);
    GrowRightSame(cave);
    GrowRightColumn(cave);
  }

  lemma GrowRightValid(cave: Cave)
    requires Valid(cave)
    ensures Valid(GrowRight(cave))
  {
    var grown := GrowRight(cave);
    var width := |cave.grid[0]|;
    var last := |cave.grid| - 1;
    forall y | 0 <= y < |grown.grid|
      ensures |grown.grid[y]| == width + 1
    {
    }
    if cave.grain.Some? {
      var (x, y) := cave.grain.value;
      assert grown.grid[y][x] == cave.grid[y][x];
    }
    assert FloorIsRock(grown.grid) by {
      forall x | 0 <= x < |grown.grid[last]|
        ensures grown.grid[last][x] == Rock
      {
        if x < width {
          assert grown.grid[last][x] == cave.grid[last][x];
        }
      }
    }
  }

  lemma GrowRightSame(cave: Cave)
    requires Valid(cave)
    ensures forall c :: MaterialAt(cave, c).Some? ==> MaterialAt(GrowRight(cave), c) == MaterialAt(cave, c)
  {
    var grown := GrowRight(cave);
    forall c | MaterialAt(cave, c).Some?
      ensures MaterialAt(grown, c) == MaterialAt(cave, c)
    {
      var p := CoordsToIndices(cave, c).value;
      assert CoordsToIndices(grown, c) == Some(p);
      assert grown.grid[p.1][p.0] == cave.grid[p.1][p.0];
    }
  }

  lemma GrowRightColumn(cave: Cave)
    requires Valid(cave)
    ensures var grown := GrowRight(cave);
      forall y: nat :: y < |cave.grid| ==>
        MaterialAt(grown, World(grown, (|cave.grid[0]|, y))) == Some(if y == |cave.grid| - 1 then Rock else Air)
  {
    var grown := GrowRight(cave);
    var width := |cave.grid[0]|;
    forall y: nat | y < |cave.grid|
      ensures MaterialAt(grown, World(grown, (width, y))) == Some(if y == |cave.grid| - 1 then Rock else Air)
    {
      IndicesRoundTrip(grown, (width, y));
      assert |grown.grid[y]| == width + 1;
    }
  }

  /** One step of a valid cave with a grain in flight succeeds and gives a
      valid cave: in particular the grain never reaches the floor row. */
  lemma SimulateKeepsValid(cave: Cave)
    requires Valid(cave) && cave.grain.Some?
    ensures SimulateOne(cave).Ok? && Valid(SimulateOne(cave).value)
  {
    match TryMoveSand(cave).value
    case EmptySquare(p) =>
      assert IsEmpty(cave.grid[p.1][p.0]);
    case RestingPosition(p) =>
    case LeftAbyss => GrowLeftValid(cave);
    case RightAbyss => GrowRightValid(cave);
  }

  // ---------------------------------------------------------------------------
  // Counting the sand at rest.

  function SandIn(m: Material): nat
  {
    if m == SandAtRest then 1 else 0
  }

  function CountRow(row: seq<Material>): nat
  {
    if |row| == 0 then 0 else CountRow(row[..|row| - 1]) + SandIn(row[|row| - 1])
  }

  /** The number of cells holding sand at rest. */
  function CountSand(grid: seq<seq<Material>>): nat
  {
    if |grid| == 0 then 0 else CountSand(grid[..|grid| - 1]) + CountRow(grid[|grid| - 1])
  }

  lemma {:induction false} CountRowUpdate(row: seq<Material>, x: nat, m: Material)
    requires x < |row|
    ensures CountRow(row[x := m]) + SandIn(row[x]) == CountRow(row) + SandIn(m)
  {
    var last := |row| - 1;
    var row' := row[x := m];
    if x < last {
      assert row'[..last] == row[..last][x := m];
      CountRowUpdate(row[..last], x, m);
    } else {
      assert row'[..last] == row[..last];
    }
  }

  lemma {:induction false} CountSandUpdate(grid: seq<seq<Material>>, y: nat, row: seq<Material>)
    requires y < |grid|
    ensures CountSand(grid[y := row]) + CountRow(grid[y]) == CountSand(grid) + CountRow(row)
  {
    var last := |grid| - 1;
    var grid' := grid[y := row];
    if y < last {
      assert grid'[..last] == grid[..last][y := row];
      CountSandUpdate(grid[..last], y, row);
    } else {
      assert grid'[..last] == grid[..last];
    }
  }

  lemma {:induction false} CountRowPrepend(m: Material, row: seq<Material>)
    ensures CountRow([m] + row) == SandIn(m) + CountRow(row)
    decreases |row|
  {
    if |row| > 0 {
      var last := |row| - 1;
      assert ([m] + row)[..last + 1] == [m] + row[..last];
      CountRowPrepend(m, row[..last]);
    } else {
      assert [m] + row == [m];
      assert [m][..0] == [];
    }
  }

  lemma CountRowAppend(row: seq<Material>, m: Material)
    ensures CountRow(row + [m]) == CountRow(row) + SandIn(m)
  {
    assert (row + [m])[..|row|] == row;
  }

  /** Grids whose rows hold equally much sand hold equally much sand. */
  lemma {:induction false} CountSandRows(a: seq<seq<Material>>, b: seq<seq<Material>>)
    requires |a| == |b| && forall i :: 0 <= i < |a| ==> CountRow(a[i]) == CountRow(b[i])
    ensures CountSand(a) == CountSand(b)
  {
    if |a| > 0 {
      var last := |a| - 1;
      CountSandRows(a[..last], b[..last]);
    }
  }

  /** Resting adds one grain of sand; growing adds none. */
  lemma SimulateCount(cave: Cave)
    requires Valid(cave) && cave.grain.Some?
    ensures SimulateOne(cave).Ok?
    ensures CountSand(SimulateOne(cave).value.grid)
      == CountSand(cave.grid) + (if SimulateOne(cave).value.grain.None? then 1 else 0)
  {
    SimulateKeepsValid(cave);
    match TryMoveSand(cave).value
    case EmptySquare(p) =>
    case RestingPosition(p) =>
      RestCount(cave, p);
    case LeftAbyss =>
      GrowLeftCount(cave);
    case RightAbyss =>
      GrowRightCount(cave);
  }

  lemma RestCount(cave: Cave, p: GridPosition)
    requires InGrid(cave.grid, p) && cave.grid[p.1][p.0] != SandAtRest
    ensures CountSand(Rest(cave, p).grid) == CountSand(cave.grid) + 1
  {
    var g := cave.grid;
    CountRowUpdate(g[p.1], p.0, SandAtRest);
    CountSandUpdate(g, p.1, g[p.1][p.0 := SandAtRest]);
  }

  /** The column of air and the rock added on the left hold no sand. */
  lemma GrowLeftCount(cave: Cave)
    requires |cave.grid| > 0 && cave.grain.Some?
    ensures CountSand(GrowLeft(cave).grid) == CountSand(cave.grid)
  {
    var g := cave.grid;
    var last := |g| - 1;
    var grown := GrowLeft(cave).grid;
    forall i | 0 <= i < |g|
      ensures CountRow(grown[i]) == CountRow(g[i])
    {
      CountRowPrepend(Air, g[i]);
      if i == last {
        CountRowUpdate([Air] + g[i], 0, Rock);
      }
    }
    CountSandRows(grown, g);
  }

  /** The column of air and the rock added on the right hold no sand. */
  lemma GrowRightCount(cave: Cave)
    requires |cave.grid| > 0
    ensures CountSand(GrowRight(cave).grid) == CountSand(cave.grid)
  {
    var g := cave.grid;
    var last := |g| - 1;
    var grown := GrowRight(cave).grid;
    forall i | 0 <= i < |g|
      ensures CountRow(grown[i]) == CountRow(g[i])
    {
      CountRowAppend(g[i], Air);
      if i == last {
        CountRowUpdate(g[i] + [Air], |g[i]|, Rock);
      }
    }
    CountSandRows(grown, g);
  }

  // ---------------------------------------------------------------------------
  // The loops of `main`. Whether the grain always comes to rest is not
  // proved here: every step spends one unit of `fuel`.

  /** `simulate_until_rest`: step until the grain rests. */
  method SimulateUntilRest(cave: Cave, fuel: nat) returns (r: Result<Cave>, left: nat)
    requires Valid(cave)
    ensures left <= fuel
    ensures r.Ok? && cave.grain.Some? ==> left < fuel
    ensures r.Err? ==> left == 0
    ensures r.Ok? ==> Valid(r.value) && r.value.grain.None?
    ensures r.Ok? ==> CountSand(r.value.grid) == CountSand(cave.grid) + (if cave.grain.Some? then 1 else 0)
  {
    if cave.grain.None? {
      return Ok(cave), fuel;
    }
    var c := cave;
    left := fuel;
    while c.grain.Some?
      invariant Valid(c) && left <= fuel
      invariant c.grain.None? ==> left < fuel
      invariant CountSand(c.grid) == CountSand(cave.grid) + (if c.grain.Some? then 0 else 1)
      decreases left
    {
      if left == 0 {
        return Err("out of fuel"), 0;
      }
      SimulateKeepsValid(c);
      SimulateCount(c);
      c := SimulateOne(c).value;
      left := left - 1;
    }
    return Ok(c), left;
  }

  /** The `while` loop of `main`: drop grains from the origin until one
      rests there. The count is the number of grains added to the sand at
      rest, and the loop ends with sand at the origin. */
  method CountGrains(cave: Cave, fuel: nat) returns (r: Result<(nat, Cave)>)
    requires Valid(cave) && cave.grain.None?
    ensures r.Ok? ==>
      var (n, c) := r.value;
      && Valid(c) && MaterialAt(c, SandOrigin) == Some(SandAtRest)
      && CountSand(c.grid) == CountSand(cave.grid) + n
  {
    var c := cave;
    var n := 0;
    var left := fuel;
    while true
      invariant Valid(c) && c.grain.None?
      invariant CountSand(c.grid) == CountSand(cave.grid) + n
      decreases left
    {
      var resting := HasSandRestingAtOrigin(c);
      if resting.Err? {
        return Err(resting.reason);
      }
      if resting.value {
        return Ok((n, c));
      }
      var dropped := AddSand(c, SandOrigin);
      if dropped.Err? {
        return Err(dropped.reason);
      }
      var settled, rest := SimulateUntilRest(dropped.value, left);
      if settled.Err? {
        return Err(settled.reason);
      }
      c, left := settled.value, rest;
      n := n + 1;
    }
  }

  /** `main` after parsing: the bounds, the cave, the rocks and the count.
      The answer is the number of cells holding sand at rest in the final
      cave, whose origin holds sand. */
  method Solve(paths: seq<seq<LineSegment>>, fuel: nat) returns (r: Result<(nat, Cave)>)
    ensures r.Ok? ==>
      var (n, c) := r.value;
      && Valid(c) && MaterialAt(c, SandOrigin) == Some(SandAtRest)
      && n == CountSand(c.grid)
  {
    var drawn := DrawRocks(paths);
    if drawn.Err? {
      return Err(drawn.reason);
    }
    r := CountGrains(drawn.value, fuel);
  }

  /** The cave `main` builds before dropping sand: bounds, an empty cave
      and the rocks. It starts valid and without sand. */
  method DrawRocks(paths: seq<seq<LineSegment>>) returns (r: Result<Cave>)
    ensures r.Err? <==> !AllFillable(NewCave(Bounds(Flatten(paths)).0, Bounds(Flatten(paths)).1).value, Flatten(paths))
    ensures r.Ok? ==> Valid(r.value) && r.value.grain.None? && CountSand(r.value.grid) == 0
  {
    var (lo, hi) := Bounds(Flatten(paths));
    var cave := NewCave(lo, hi).value;
    r := AddRocks(cave, paths);
    if r.Ok? {
      DrawnValid(lo, hi, Flatten(paths), r.value);
    }
  }

  /** Rocks drawn into a new cave leave it valid and without sand. */
  lemma DrawnValid(lo: Coords, hi: Coords, segs: seq<LineSegment>, after: Cave)
    requires lo.0 <= hi.0 && lo.1 <= hi.1
    requires Drawn(NewCave(lo, hi).value, segs, after)
    ensures Valid(after) && after.grain.None? && CountSand(after.grid) == 0
  {
    var cave := NewCave(lo, hi).value;
    var g := after.grid;
    assert forall y :: 0 <= y < |g| ==> |g[y]| == |g[0]|;
    assert FloorIsRock(g) by {
      DrawnFloor(cave, segs, after);
    }
    assert CountSand(g) == 0 by {
      DrawnNoSand(cave, segs, after);
    }
  }

  /** Drawing rock over a rock floor leaves it rock. */
  lemma DrawnFloor(cave: Cave, segs: seq<LineSegment>, after: Cave)
    requires FloorIsRock(cave.grid) && Drawn(cave, segs, after)
    ensures FloorIsRock(after.grid)
  {
    var last := |cave.grid| - 1;
    forall x | 0 <= x < |after.grid[last]|
      ensures after.grid[last][x] == Rock
    {
      assert cave.grid[last][x] == Rock;
    }
  }

  /** Drawing rock into a cave without sand adds no sand. */
  lemma DrawnNoSand(cave: Cave, segs: seq<LineSegment>, after: Cave)
    requires forall y, x :: 0 <= y < |cave.grid| && 0 <= x < |cave.grid[y]| ==> cave.grid[y][x] != SandAtRest
    requires Drawn(cave, segs, after)
    ensures CountSand(after.grid) == 0
  {
    NoSandCount(after.grid);
  }

  lemma {:induction false} NoSandCount(grid: seq<seq<Material>>)
    requires forall y, x :: 0 <= y < |grid| && 0 <= x < |grid[y]| ==> grid[y][x] != SandAtRest
    ensures CountSand(grid) == 0
  {
    if |grid| > 0 {
      var last := |grid| - 1;
      NoSandRow(grid[last]);
      NoSandCount(grid[..last]);
    }
  }

  lemma {:induction false} NoSandRow(row: seq<Material>)
    requires forall x :: 0 <= x < |row| ==> row[x] != SandAtRest
    ensures CountRow(row) == 0
  {
    if |row| > 0 {
      NoSandRow(row[..|row| - 1]);
    }
  }
}
