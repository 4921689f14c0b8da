/** Day 8: which trees of a height grid can be seen from outside the grid
    (day-8/src/main.rs). Reading the digit grid and the display loop are
    left out. */
module Day08Visibility {

  /** Rows of tree heights, `grid[y][x]`. */
  type Grid = seq<seq<nat>>

  datatype Visibility = Unknown | Visible | Hidden

  /** `main` reads `trees[0].len()` and writes to columns `0` and
      `width - 1` of every row, so the grid has a row and a column; all rows
      have the width of the first. */
  predicate Rectangular(g: Grid)
  {
    |g| > 0 && |g[0]| > 0 && forall y :: 0 <= y < |g| ==> |g[y]| == |g[0]|
  }

  predicate InGrid(g: Grid, x: nat, y: nat)
  {
    Rectangular(g) && y < |g| && x < |g[0]|
  }

  /** Every tree strictly above (x, y) in its column is shorter. */
  predicate ClearAbove(g: Grid, x: nat, y: nat)
    requires InGrid(g, x, y)
  {
    forall y2 :: 0 <= y2 < y ==> g[y2][x] < g[y][x]
  }

  predicate ClearBelow(g: Grid, x: nat, y: nat)
    requires InGrid(g, x, y)
  {
    forall y2 :: y < y2 < |g| ==> g[y2][x] < g[y][x]
  }

  predicate ClearLeft(g: Grid, x: nat, y: nat)
    requires InGrid(g, x, y)
  {
    forall x2 :: 0 <= x2 < x ==> g[y][x2] < g[y][x]
  }

  predicate ClearRight(g: Grid, x: nat, y: nat)
    requires InGrid(g, x, y)
  {
    forall x2 :: x < x2 < |g[0]| ==> g[y][x2] < g[y][x]
  }

  /** Seen from outside: clear in at least one of the four directions. */
  predicate SeenFromOutside(g: Grid, x: nat, y: nat)
    requires InGrid(g, x, y)
  {
    ClearAbove(g, x, y) || ClearBelow(g, x, y) || ClearLeft(g, x, y) || ClearRight(g, x, y)
  }

  predicate OnBorder(g: Grid, x: nat, y: nat)
    requires InGrid(g, x, y)
  {
    y == 0 || y == |g| - 1 || x == 0 || x == |g[0]| - 1
  }

  /** What `main` records for a cell: border trees are marked visible
      outright, interior trees by the four checks. */
  function Expected(g: Grid, x: nat, y: nat): Visibility
    requires InGrid(g, x, y)
  {
    if OnBorder(g, x, y) || SeenFromOutside(g, x, y) then Visible else Hidden
  }

  /** The border shortcut agrees with the general rule: a border tree is
      clear towards its own edge, so a tree is marked visible exactly when
      it is seen from outside. */
  lemma ExpectedIsSeen(g: Grid, x: nat, y: nat)
    requires InGrid(g, x, y)
    ensures Expected(g, x, y) == Visible <==> SeenFromOutside(g, x, y)
    ensures Expected(g, x, y) != Unknown
  {
  }

  /** `check_above`: searches the column above for a tree at least as
      tall. */
  method CheckAbove(x: nat, y: nat, g: Grid) returns (r: bool)
    requires InGrid(g, x, y)
    ensures r <==> ClearAbove(g, x, y)
  {
    var y2 := 0;
    while y2 < y
      invariant y2 <= y
      invariant forall k :: 0 <= k < y2 ==> g[k][x] < g[y][x]
    {
      if g[y2][x] >= g[y][x] {
        return false;
      }
      y2 := y2 + 1;
    }
    return true;
  }

  /** `check_below`. */
  method CheckBelow(x: nat, y: nat, g: Grid) returns (r: bool)
    requires InGrid(g, x, y)
    ensures r <==> ClearBelow(g, x, y)
  {
    var y2 := y + 1;
    while y2 < |g|
      invariant y + 1 <= y2 <= |g|
      invariant forall k :: y < k < y2 ==> g[k][x] < g[y][x]
    {
      if g[y2][x] >= g[y][x] {
        return false;
      }
      y2 := y2 + 1;
    }
    return true;
  }

  /** `check_left`. */
  method CheckLeft(x: nat, y: nat, g: Grid) returns (r: bool)
    requires InGrid(g, x, y)
    ensures r <==> ClearLeft(g, x, y)
  {
    var x2 := 0;
    while x2 < x
      invariant x2 <= x
      invariant forall k :: 0 <= k < x2 ==> g[y][k] < g[y][x]
    {
      if g[y][x2] >= g[y][x] {
        return false;
      }
      x2 := x2 + 1;
    }
    return true;
  }

  /** `check_right`: the width is taken from the first row. */
  method CheckRight(x: nat, y: nat, g: Grid) returns (r: bool)
    requires InGrid(g, x, y)
    ensures r <==> ClearRight(g, x, y)
  {
    var width := |g[0]|;
    var x2 := x + 1;
    while x2 < width
      invariant x + 1 <= x2 <= width
      invariant forall k :: x < k < x2 ==> g[y][k] < g[y][x]
    {
      if g[y][x2] >= g[y][x] {
        return false;
      }
      x2 := x2 + 1;
    }
    return true;
  }

  predicate SameShape(viz: seq<seq<Visibility>>, g: Grid)
    requires Rectangular(g)
  {
    |viz| == |g| && forall y :: 0 <= y < |viz| ==> |viz[y]| == |g[0]|
  }

  /** One cell write `viz[y][x] = v`; every other cell is unchanged. */
  function SetCell(viz: seq<seq<Visibility>>, x: nat, y: nat, v: Visibility): (r: seq<seq<Visibility>>)
    requires y < |viz| && x < |viz[y]|
    ensures |r| == |viz| && forall k :: 0 <= k < |r| ==> |r[k]| == |viz[k]|
    ensures r[y][x] == v
    ensures forall k, j :: 0 <= k < |r| && 0 <= j < |r[k]| && (k, j) != (y, x) ==> r[k][j] == viz[k][j]
  {
    viz[y := viz[y][x := v]]
  }

  /** The marking loops of `main`: top and bottom rows, then the first and
      last column of every row, then every interior cell from the four
      checks. Every cell ends up as `Expected` says, so none is left
      `Unknown`. */
  method MarkVisibility(g: Grid) returns (viz: seq<seq<Visibility>>)
    requires Rectangular(g)
    ensures SameShape(viz, g)
    ensures forall y, x :: 0 <= y < |g| && 0 <= x < |g[0]| ==> viz[y][x] == Expected(g, x, y)
  {
    var width, height := |g[0]|, |g|;
    viz := seq(height, _ => seq(width, _ => Unknown));

    // Top and bottom.
    var x := 0;
    while x < width
      invariant x <= width
      invariant SameShape(viz, g)
      invariant forall k, j :: 0 <= k < height && 0 <= j < width ==>
        viz[k][j] == (if (k == 0 || k == height - 1) && j < x then Visible else Unknown)
    {
      viz := SetCell(viz, x, 0, Visible);
      viz := SetCell(viz, x, height - 1, Visible);
      x := x + 1;
    }

    // Left and right.
    var y := 0;
    while y < height
      invariant y <= height
      invariant SameShape(viz, g)
      invariant forall k, j :: 0 <= k < height && 0 <= j < width ==>
        viz[k][j] == (if k == 0 || k == height - 1 || (k < y && (j == 0 || j == width - 1)) then Visible else Unknown)
    {
      viz := SetCell(viz, 0, y, Visible);
      viz := SetCell(viz, width - 1, y, Visible);
      y := y + 1;
    }

    // Interior.
    y := 1;
    while y < height - 1
      invariant 1 <= y <= if height >= 2 then height - 1 else 1
      invariant SameShape(viz, g)
      invariant forall k, j :: 0 <= k < height && 0 <= j < width ==>
        viz[k][j] == (if OnBorder(g, j, k) || k < y then Expected(g, j, k) else Unknown)
    {
      viz := MarkRow(g, viz, y);
      y := y + 1;
    }
  }

  /** One interior row of the marking loop: each interior cell gets the
      verdict of the four checks. */
  method MarkRow(g: Grid, viz: seq<seq<Visibility>>, y: nat) returns (viz': seq<seq<Visibility>>)
    requires Rectangular(g) && 1 <= y < |g| - 1 && SameShape(viz, g)
    requires forall k, j :: 0 <= k < |g| && 0 <= j < |g[0]| ==>
      viz[k][j] == (if OnBorder(g, j, k) || k < y then Expected(g, j, k) else Unknown)
    ensures SameShape(viz', g)
    ensures forall k, j :: 0 <= k < |g| && 0 <= j < |g[0]| ==>
      viz'[k][j] == (if OnBorder(g, j, k) || k <= y then Expected(g, j, k) else Unknown)
  {
    viz' := viz;
    var x := 1;
    while x < |g[0]| - 1
      invariant 1 <= x <= if |g[0]| >= 2 then |g[0]| - 1 else 1
      invariant SameShape(viz', g)
      invariant forall k, j :: 0 <= k < |g| && 0 <= j < |g[0]| ==>
        viz'[k][j] == (if OnBorder(g, j, k) || k < y || (k == y && j < x) then Expected(g, j, k) else Unknown)
    {
      var v := CheckCell(x, y, g);
      viz' := SetCell(viz', x, y, v);
      x := x + 1;
    }
  }

  /** The four checks of an interior cell, each one run. */
  method CheckCell(x: nat, y: nat, g: Grid) returns (v: Visibility)
    requires InGrid(g, x, y) && !OnBorder(g, x, y)
    ensures v == Expected(g, x, y)
  {
    var visible := false;
    var above := CheckAbove(x, y, g);
    visible := visible || above;
    var below := CheckBelow(x, y, g);
    visible := visible || below;
    var right := CheckRight(x, y, g);
    visible := visible || right;
    var left := CheckLeft(x, y, g);
    visible := visible || left;
    v := if visible then Visible else Hidden;
  }

  function CountRow(row: seq<Visibility>): nat
    ensures CountRow(row) <= |row|
  {
    if |row| == 0 then 0 else CountRow(row[..|row| - 1]) + (if row[|row| - 1] == Visible then 1 else 0)
  }

  /** Reference count: the visible cells of every row. */
  function CountVisible(viz: seq<seq<Visibility>>): nat
  {
    if |viz| == 0 then 0 else CountVisible(viz[..|viz| - 1]) + CountRow(viz[|viz| - 1])
  }

  /** The final sum of per-row filtered counts. */
  method TreesVisible(viz: seq<seq<Visibility>>) returns (n: nat)
    ensures n == CountVisible(viz)
  {
    n := 0;
    var y := 0;
    while y < |viz|
      invariant y <= |viz|
      invariant n == CountVisible(viz[..y])
    {
      var row := viz[y];
      var c := 0;
      var x := 0;
      while x < |row|
        invariant x <= |row|
        invariant c == CountRow(row[..x])
      {
        assert row[..x + 1][..x] == row[..x];
        if row[x] == Visible {
          c := c + 1;
        }
        x := x + 1;
      }
      assert row[..x] == row;
      assert viz[..y + 1][..y] == viz[..y];
      n := n + c;
      y := y + 1;
    }
    assert viz[..y] == viz;
  }

  /** `main`: mark the grid, then count the visible trees. */
  method CountSeen(g: Grid) returns (n: nat, viz: seq<seq<Visibility>>)
    requires Rectangular(g)
    ensures SameShape(viz, g)
    ensures forall y, x :: 0 <= y < |g| && 0 <= x < |g[0]| ==>
      (viz[y][x] == Visible <==> SeenFromOutside(g, x, y))
    ensures n == CountVisible(viz)
  {
    viz := MarkVisibility(g);
    forall y, x | 0 <= y < |g| && 0 <= x < |g[0]|
      ensures viz[y][x] == Visible <==> SeenFromOutside(g, x, y)
    {
      ExpectedIsSeen(g, x, y);
    }
    n := TreesVisible(viz);
  }
}
