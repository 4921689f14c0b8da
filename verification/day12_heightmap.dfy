/** Day 12, part one: the heightmap, its tiles and the climbing graph built
    from it (day-12/src/main.rs). Reading the map is left out: the tiles
    are given as a grid, and the tile pattern only admits the letters `a` to
    `z`, which the `Letter` type records. */
module Day12Heightmap {
  import opened Wrappers
  import opened Arithmetic

  type Letter = c: char | 'a' <= c <= 'z' witness 'a'

  datatype Tile = Elevation(letter: Letter) | Start | End

  /** `Tile::height`: the elevation letter's distance from `a`; the start
      sits at `a` and the end at `z`. */
  function Height(t: Tile): (h: int)
    ensures 0 <= h <= 25
    ensures t.Elevation? ==> h == t.letter as int - 'a' as int
  {
    var base: char := match t
      case Elevation(c) => c
      case Start => 'a'
      case End => 'z';
    base as int - 'a' as int
  }

  /** The start is as low as `a` and the end as high as `z`; heights
      follow the alphabet. */
  lemma HeightLevels(c: Letter, d: Letter)
    ensures Height(Start) == Height(Elevation('a')) == 0
    ensures Height(End) == Height(Elevation('z')) == 25
    ensures Height(Elevation(c)) < Height(Elevation(d)) <==> c < d
  {
  }

  /** `Tile::can_climb_to`: any fall, or a climb of exactly one. */
  function CanClimbTo(from: Tile, to: Tile): bool
  {
    if Height(from) >= Height(to) then true else Height(to) - Height(from) == 1
  }

  /** A step is allowed exactly when it rises by at most one. */
  lemma ClimbRule(from: Tile, to: Tile)
    ensures CanClimbTo(from, to) <==> Height(to) <= Height(from) + 1
  {
  }

  /** Climbing is not symmetric: `c` can fall to `a`, but `a` cannot climb
      to `c`. */
  lemma ClimbNotSymmetric()
    ensures CanClimbTo(Elevation('c'), Elevation('a'))
    ensures !CanClimbTo(Elevation('a'), Elevation('c'))
  {
  }

  /** Rows of tiles, `hm[y][x]`. */
  type Heightmap = seq<seq<Tile>>

  type Coords = (nat, nat)

  /** `get_tile`: `None` off the map, including past the end of a short
      row. */
  function GetTile(hm: Heightmap, x: nat, y: nat): (r: Option<Tile>)
    ensures r.Some? <==> y < |hm| && x < |hm[y]|
    ensures r.Some? ==> r.value == hm[y][x]
  {
    if y < |hm| && x < |hm[y]| then Some(hm[y][x]) else None
  }

  /** Row-major order: earlier rows first, then earlier columns. */
  predicate Before(a: Coords, b: Coords)
  {
    a.1 < b.1 || (a.1 == b.1 && a.0 < b.0)
  }

  /** `c` is the first cell holding `t` in row-major order. */
  predicate FirstTile(hm: Heightmap, t: Tile, c: Coords)
  {
    && c.1 < |hm| && c.0 < |hm[c.1]| && hm[c.1][c.0] == t
    && forall y, x :: 0 <= y < |hm| && 0 <= x < |hm[y]| && Before((x, y), c) ==> hm[y][x] != t
  }

  /** There is at most one first cell holding a tile. */
  lemma FirstTileUnique(hm: Heightmap, t: Tile, a: Coords, b: Coords)
    requires FirstTile(hm, t, a) && FirstTile(hm, t, b)
    ensures a == b
  {
  }

  /** `find_start` and `find_end`: the first cell holding `t` in row-major
      order; the search panics when there is none. */
  method FindTile(hm: Heightmap, t: Tile) returns (r: Result<Coords>)
    ensures r.Err? <==> forall y, x :: 0 <= y < |hm| && 0 <= x < |hm[y]| ==> hm[y][x] != t
    ensures r.Ok? ==> r.value.1 < |hm| && r.value.0 < |hm[r.value.1]| && hm[r.value.1][r.value.0] == t
    ensures r.Ok? ==> forall y, x :: 0 <= y < |hm| && 0 <= x < |hm[y]| && Before((x, y), r.value) ==> hm[y][x] != t
  {
    var y := 0;
    while y < |hm|
      invariant y <= |hm|
      invariant forall y2, x2 :: 0 <= y2 < y && 0 <= x2 < |hm[y2]| ==> hm[y2][x2] != t
    {
      var x := 0;
      while x < |hm[y]|
        invariant x <= |hm[y]|
        invariant forall x2 :: 0 <= x2 < x ==> hm[y][x2] != t
      {
        if hm[y][x] == t {
          return Ok((x, y));
        }
        x := x + 1;
      }
      y := y + 1;
    }
    return Err("not found");
  }

  method FindStart(hm: Heightmap) returns (r: Result<Coords>)
    ensures r.Err? <==> forall y, x :: 0 <= y < |hm| && 0 <= x < |hm[y]| ==> hm[y][x] != Start
    ensures r.Ok? ==> r.value.1 < |hm| && r.value.0 < |hm[r.value.1]| && hm[r.value.1][r.value.0] == Start
    ensures r.Ok? ==> FirstTile(hm, Start, r.value)
  {
    r := FindTile(hm, Start);
  }

  method FindEnd(hm: Heightmap) returns (r: Result<Coords>)
    ensures r.Err? <==> forall y, x :: 0 <= y < |hm| && 0 <= x < |hm[y]| ==> hm[y][x] != End
    ensures r.Ok? ==> r.value.1 < |hm| && r.value.0 < |hm[r.value.1]| && hm[r.value.1][r.value.0] == End
    ensures r.Ok? ==> FirstTile(hm, End, r.value)
  {
    r := FindTile(hm, End);
  }

  // ---------------------------------------------------------------------------
  // Node numbering.

  /** `coords_to_index`: row-major numbering with the graph's width. */
  function CoordsToIndex(width: nat, c: Coords): nat
  {
    c.0 + width * c.1
  }

  /** `index_to_coords`; dividing by a zero width panics. */
  function IndexToCoords(width: nat, i: nat): Coords
    requires width > 0
  {
    (i % width, i / width)
  }

  /** Numbering a cell inside the width and decoding it gives the cell
      back. */
  lemma CoordsRoundTrip(width: nat, x: nat, y: nat)
    requires x < width
    ensures IndexToCoords(width, CoordsToIndex(width, (x, y))) == (x, y)
  {
    ModUnique(x + width * y, width, y, x);
  }

  /** Decoding an index and numbering the result gives the index back. */
  lemma IndexRoundTrip(width: nat, i: nat)
    requires width > 0
    ensures IndexToCoords(width, i).0 < width
    ensures CoordsToIndex(width, IndexToCoords(width, i)) == i
  {
  }

  /** Distinct cells inside the width get distinct numbers. */
  lemma CoordsInjective(width: nat, a: Coords, b: Coords)
    requires a.0 < width && b.0 < width
    ensures CoordsToIndex(width, a) == CoordsToIndex(width, b) <==> a == b
  {
    CoordsRoundTrip(width, a.0, a.1);
    CoordsRoundTrip(width, b.0, b.1);
  }

  // ---------------------------------------------------------------------------
  // The graph.

  /** All rows as long as the first; `build_graph` asserts there is a
      row. */
  predicate Rectangular(hm: Heightmap)
  {
    |hm| > 0 && forall y :: 0 <= y < |hm| ==> |hm[y]| == |hm[0]|
  }

  /** The four orthogonal neighbours. */
  predicate Orthogonal(a: Coords, b: Coords)
  {
    (a.0 == b.0 && (b.1 + 1 == a.1 || b.1 == a.1 + 1))
    || (a.1 == b.1 && (b.0 + 1 == a.0 || b.0 == a.0 + 1))
  }

  /** The edge to `to`, numbered with `width`, when it is on the map and
      `from` can climb to it. */
  function EdgeTo(hm: Heightmap, width: nat, from: Tile, to: Coords): seq<nat>
  {
    match GetTile(hm, to.0, to.1)
    case Some(t) => if CanClimbTo(from, t) then [CoordsToIndex(width, to)] else []
    case None => []
  }

  /** The adjacency list of cell (x, y): above, left, right, below, each
      when it exists and can be climbed to. */
  function Neighbours(hm: Heightmap, width: nat, x: nat, y: nat): seq<nat>
    requires y < |hm| && x < |hm[y]|
  {
    var tile := hm[y][x];
    (if y > 0 then EdgeTo(hm, width, tile, (x, y - 1)) else [])
    + (if x > 0 then EdgeTo(hm, width, tile, (x - 1, y)) else [])
    + EdgeTo(hm, width, tile, (x + 1, y))
    + EdgeTo(hm, width, tile, (x, y + 1))
  }

  /** The adjacency lists of the first `rows` rows, one per cell in
      row-major order. */
  function Adjacency(hm: Heightmap, width: nat, rows: nat): seq<seq<nat>>
    requires rows <= |hm|
  {
    if rows == 0 then []
    else Adjacency(hm, width, rows - 1) + RowAdjacency(hm, width, rows - 1, |hm[rows - 1]|)
  }

  /** The adjacency lists of the first `n` cells of row `y`. */
  function RowAdjacency(hm: Heightmap, width: nat, y: nat, n: nat): (r: seq<seq<nat>>)
    requires y < |hm| && n <= |hm[y]|
    ensures |r| == n
  {
    if n == 0 then [] else RowAdjacency(hm, width, y, n - 1) + [Neighbours(hm, width, n - 1, y)]
  }

  /** Entry `x` of a row's lists is the adjacency list of cell (x, y). */
  lemma {:induction false} RowAdjacencyAt(hm: Heightmap, width: nat, y: nat, n: nat, x: nat)
    requires y < |hm| && x < n <= |hm[y]|
    ensures RowAdjacency(hm, width, y, n)[x] == Neighbours(hm, width, x, y)
  {
    if x < n - 1 {
      RowAdjacencyAt(hm, width, y, n - 1, x);
    }
  }

  datatype Graph = Graph(width: nat, height: nat, adjacency: seq<seq<nat>>)

  /** Every edge leads to a node of the graph. */
  predicate ValidGraph(adjacency: seq<seq<nat>>)
  {
    forall u, j :: 0 <= u < |adjacency| && 0 <= j < |adjacency[u]| ==> adjacency[u][j] < |adjacency|
  }

  /** `build_graph`: panics on an empty map, otherwise visits every cell
      in row-major order and pushes its adjacency list. */
  method BuildGraph(hm: Heightmap) returns (r: Result<Graph>)
    ensures r.Err? <==> |hm| == 0
    ensures r.Ok? ==> r.value.width == |hm[0]| && r.value.height == |hm|
    ensures r.Ok? ==> r.value.adjacency == Adjacency(hm, |hm[0]|, |hm|)
  {
    if |hm| == 0 {
      return Err("empty heightmap");
    }
    var width := |hm[0]|;
    var adjacency: seq<seq<nat>> := [];
    var y := 0;
    while y < |hm|
      invariant y <= |hm|
      invariant adjacency == Adjacency(hm, width, y)
    {
      adjacency := PushRow(hm, width, y, adjacency);
      assert adjacency == Adjacency(hm, width, y + 1);
      y := y + 1;
    }
    r := Ok(Graph(width, |hm|, adjacency));
  }

  /** The inner loop of `build_graph`: push the adjacency list of every
      cell of row `y`, left to right. */
  method PushRow(hm: Heightmap, width: nat, y: nat, adjacency: seq<seq<nat>>) returns (r: seq<seq<nat>>)
    requires y < |hm|
    ensures r == adjacency + RowAdjacency(hm, width, y, |hm[y]|)
  {
    r := adjacency;
    var x := 0;
    while x < |hm[y]|
      invariant x <= |hm[y]|
      invariant r == adjacency + RowAdjacency(hm, width, y, x)
    {
      r := r + [Neighbours(hm, width, x, y)];
      x := x + 1;
    }
  }

  lemma {:induction false} AdjacencyLength(hm: Heightmap, rows: nat)
    requires Rectangular(hm) && rows <= |hm|
    ensures |Adjacency(hm, |hm[0]|, rows)| == |hm[0]| * rows
  {
    if rows > 0 {
      AdjacencyLength(hm, rows - 1);
      assert |hm[0]| * rows == |hm[0]| * (rows - 1) + |hm[0]|;
    }
  }

  /** On a rectangular map the entry at `coords_to_index((x, y))` is the
      adjacency list of cell (x, y). */
  lemma {:induction false} AdjacencyAt(hm: Heightmap, rows: nat, x: nat, y: nat)
    requires Rectangular(hm) && rows <= |hm| && y < rows && x < |hm[0]|
    ensures CoordsToIndex(|hm[0]|, (x, y)) < |Adjacency(hm, |hm[0]|, rows)|
    ensures Adjacency(hm, |hm[0]|, rows)[CoordsToIndex(|hm[0]|, (x, y))] == Neighbours(hm, |hm[0]|, x, y)
  {
    var w := |hm[0]|;
    if y == rows - 1 {
      AdjacencyAtLastRow(hm, rows, x);
    } else {
      var prev := Adjacency(hm, w, rows - 1);
      var i := CoordsToIndex(w, (x, y));
      assert i < |prev| by {
        AdjacencyLength(hm, rows - 1);
        IndexBelow(w, x, y, rows - 1);
      }
      assert Adjacency(hm, w, rows)[i] == prev[i] by {
        assert Adjacency(hm, w, rows) == prev + RowAdjacency(hm, w, rows - 1, |hm[rows - 1]|);
      }
      AdjacencyAt(hm, rows - 1, x, y);
    }
  }

  /** The entries of the last row built come after all earlier rows. */
  lemma AdjacencyAtLastRow(hm: Heightmap, rows: nat, x: nat)
    requires Rectangular(hm) && 0 < rows <= |hm| && x < |hm[0]|
    ensures CoordsToIndex(|hm[0]|, (x, rows - 1)) < |Adjacency(hm, |hm[0]|, rows)|
    ensures Adjacency(hm, |hm[0]|, rows)[CoordsToIndex(|hm[0]|, (x, rows - 1))] == Neighbours(hm, |hm[0]|, x, rows - 1)
  {
    var w := |hm[0]|;
    var y := rows - 1;
    var prev := Adjacency(hm, w, y);
    var row := RowAdjacency(hm, w, y, |hm[y]|);
    assert Adjacency(hm, w, rows) == prev + row;
    assert |prev| == w * y by {
      AdjacencyLength(hm, y);
    }
    assert CoordsToIndex(w, (x, y)) == |prev| + x;
    RowAdjacencyAt(hm, w, y, |hm[y]|, x);
  }

  /** Cells of the rows above row `n` come before it in row-major order. */
  lemma IndexBelow(w: nat, x: nat, y: nat, n: nat)
    requires x < w && y < n
    ensures x + w * y < w * n
  {
    var k := n - y;
    assert w * n == w * y + w * k by {
      assert n == y + k;
    }
    assert k * w >= w by {
      MulAtLeast(k, w);
    }
  }

  /** On a rectangular map the list has one entry per cell, and the entry at
      `coords_to_index((x, y))` is the adjacency list of cell (x, y). */
  lemma AdjacencyIndex(hm: Heightmap)
    requires Rectangular(hm)
    ensures |Adjacency(hm, |hm[0]|, |hm|)| == |hm[0]| * |hm|
    ensures forall y, x :: 0 <= y < |hm| && 0 <= x < |hm[0]| ==>
      && CoordsToIndex(|hm[0]|, (x, y)) < |Adjacency(hm, |hm[0]|, |hm|)|
      && Adjacency(hm, |hm[0]|, |hm|)[CoordsToIndex(|hm[0]|, (x, y))] == Neighbours(hm, |hm[0]|, x, y)
  {
    AdjacencyLength(hm, |hm|);
    forall y, x | 0 <= y < |hm| && 0 <= x < |hm[0]|
      ensures && CoordsToIndex(|hm[0]|, (x, y)) < |Adjacency(hm, |hm[0]|, |hm|)|
              && Adjacency(hm, |hm[0]|, |hm|)[CoordsToIndex(|hm[0]|, (x, y))] == Neighbours(hm, |hm[0]|, x, y)
    {
      AdjacencyAt(hm, |hm|, x, y);
    }
  }

  /** What an `EdgeTo` list holds. */
  lemma EdgeToMembers(hm: Heightmap, width: nat, from: Tile, to: Coords, d: nat)
    ensures d in EdgeTo(hm, width, from, to) <==>
      to.1 < |hm| && to.0 < |hm[to.1]| && CanClimbTo(from, hm[to.1][to.0]) && d == CoordsToIndex(width, to)
  {
  }

  /** The four candidate neighbours in the order `build_graph` tries
      them. */
  function Candidates(x: nat, y: nat): seq<Coords>
  {
    (if y > 0 then [(x, y - 1)] else []) + (if x > 0 then [(x - 1, y)] else []) + [(x + 1, y), (x, y + 1)]
  }

  /** An index is an edge of (x, y) exactly when it numbers a candidate on
      the map that (x, y) can climb to. */
  lemma NeighboursMembers(hm: Heightmap, width: nat, x: nat, y: nat, d: nat)
    requires y < |hm| && x < |hm[y]|
    ensures d in Neighbours(hm, width, x, y) <==>
      exists c :: c in Candidates(x, y) && c.1 < |hm| && c.0 < |hm[c.1]|
        && CanClimbTo(hm[y][x], hm[c.1][c.0]) && d == CoordsToIndex(width, c)
  {
    if d in Neighbours(hm, width, x, y) {
      var c := EdgeSource(hm, width, x, y, d);
    }
    if exists c :: c in Candidates(x, y) && c.1 < |hm| && c.0 < |hm[c.1]|
        && CanClimbTo(hm[y][x], hm[c.1][c.0]) && d == CoordsToIndex(width, c) {
      var c :| c in Candidates(x, y) && c.1 < |hm| && c.0 < |hm[c.1]|
        && CanClimbTo(hm[y][x], hm[c.1][c.0]) && d == CoordsToIndex(width, c);
      EdgeFromCandidate(hm, width, x, y, c, d);
    }
  }

  /** The candidate an edge of (x, y) comes from. */
  lemma EdgeSource(hm: Heightmap, width: nat, x: nat, y: nat, d: nat) returns (c: Coords)
    requires y < |hm| && x < |hm[y]| && d in Neighbours(hm, width, x, y)
    ensures c in Candidates(x, y) && c.1 < |hm| && c.0 < |hm[c.1]|
      && CanClimbTo(hm[y][x], hm[c.1][c.0]) && d == CoordsToIndex(width, c)
  {
    var tile := hm[y][x];
    var above := if y > 0 then EdgeTo(hm, width, tile, (x, y - 1)) else [];
    var left := if x > 0 then EdgeTo(hm, width, tile, (x - 1, y)) else [];
    if d in above {
      c := (x, y - 1);
    } else if d in left {
      c := (x - 1, y);
    } else if d in EdgeTo(hm, width, tile, (x + 1, y)) {
      c := (x + 1, y);
    } else {
      c := (x, y + 1);
    }
    EdgeToMembers(hm, width, tile, c, d);
  }

  /** A climbable candidate of (x, y) is an edge of it. */
  lemma EdgeFromCandidate(hm: Heightmap, width: nat, x: nat, y: nat, c: Coords, d: nat)
    requires y < |hm| && x < |hm[y]| && c in Candidates(x, y) && c.1 < |hm| && c.0 < |hm[c.1]|
    requires CanClimbTo(hm[y][x], hm[c.1][c.0]) && d == CoordsToIndex(width, c)
    ensures d in Neighbours(hm, width, x, y)
  {
    EdgeToMembers(hm, width, hm[y][x], c, d);
  }

  /** The candidates are exactly the orthogonal neighbours. */
  lemma CandidatesOrthogonal(x: nat, y: nat, c: Coords)
    ensures c in Candidates(x, y) <==> Orthogonal((x, y), c)
  {
  }

  /** Every edge of a cell leads to an orthogonal neighbour on the map that
      the cell can climb to. */
  lemma NeighbourEdgeOut(hm: Heightmap, x: nat, y: nat, d: nat)
    requires Rectangular(hm) && y < |hm| && x < |hm[0]|
    requires d in Neighbours(hm, |hm[0]|, x, y)
    ensures var c := IndexToCoords(|hm[0]|, d);
      c.1 < |hm| && Orthogonal((x, y), c) && CanClimbTo(hm[y][x], hm[c.1][c.0])
      && d == CoordsToIndex(|hm[0]|, c)
  {
    var w := |hm[0]|;
    NeighboursMembers(hm, w, x, y, d);
    var c :| c in Candidates(x, y) && c.1 < |hm| && c.0 < |hm[c.1]|
      && CanClimbTo(hm[y][x], hm[c.1][c.0]) && d == CoordsToIndex(w, c);
    CoordsRoundTrip(w, c.0, c.1);
    CandidatesOrthogonal(x, y, c);
  }

  /** Every orthogonal neighbour on the map that a cell can climb to has an
      edge, and no other does. */
  lemma NeighbourEdgeIn(hm: Heightmap, x: nat, y: nat, x2: nat, y2: nat)
    requires Rectangular(hm) && y < |hm| && x < |hm[0]| && y2 < |hm| && x2 < |hm[0]|
    requires Orthogonal((x, y), (x2, y2))
    ensures CoordsToIndex(|hm[0]|, (x2, y2)) in Neighbours(hm, |hm[0]|, x, y) <==> CanClimbTo(hm[y][x], hm[y2][x2])
  {
    var w := |hm[0]|;
    var d := CoordsToIndex(w, (x2, y2));
    NeighboursMembers(hm, w, x, y, d);
    CandidatesOrthogonal(x, y, (x2, y2));
    if d in Neighbours(hm, w, x, y) {
      var c :| c in Candidates(x, y) && c.1 < |hm| && c.0 < |hm[c.1]|
        && CanClimbTo(hm[y][x], hm[c.1][c.0]) && d == CoordsToIndex(w, c);
      CoordsInjective(w, c, (x2, y2));
    }
  }

  /** The edges of a cell are exactly its orthogonal neighbours on the map
      that it can climb to: every edge leads to such a neighbour, and every
      such neighbour has an edge. */
  lemma NeighbourEdges(hm: Heightmap, x: nat, y: nat)
    requires Rectangular(hm) && y < |hm| && x < |hm[0]|
    ensures forall d :: d in Neighbours(hm, |hm[0]|, x, y) ==>
      var c := IndexToCoords(|hm[0]|, d);
      c.1 < |hm| && Orthogonal((x, y), c) && CanClimbTo(hm[y][x], hm[c.1][c.0])
      && d == CoordsToIndex(|hm[0]|, c)
    ensures forall x2, y2 :: 0 <= y2 < |hm| && 0 <= x2 < |hm[0]| && Orthogonal((x, y), (x2, y2)) ==>
      (CoordsToIndex(|hm[0]|, (x2, y2)) in Neighbours(hm, |hm[0]|, x, y) <==> CanClimbTo(hm[y][x], hm[y2][x2]))
  {
    forall d | d in Neighbours(hm, |hm[0]|, x, y)
      ensures var c := IndexToCoords(|hm[0]|, d);
        c.1 < |hm| && Orthogonal((x, y), c) && CanClimbTo(hm[y][x], hm[c.1][c.0])
        && d == CoordsToIndex(|hm[0]|, c)
    {
      NeighbourEdgeOut(hm, x, y, d);
    }
    forall x2, y2 | 0 <= y2 < |hm| && 0 <= x2 < |hm[0]| && Orthogonal((x, y), (x2, y2))
      ensures CoordsToIndex(|hm[0]|, (x2, y2)) in Neighbours(hm, |hm[0]|, x, y) <==> CanClimbTo(hm[y][x], hm[y2][x2])
    {
      NeighbourEdgeIn(hm, x, y, x2, y2);
    }
  }

  /** A cell number below `width * height` decodes to a cell on a map of
      that size. */
  lemma IndexInGrid(width: nat, height: nat, i: nat)
    requires width > 0 && i < width * height
    ensures IndexToCoords(width, i).1 < height
  {
    var c := IndexToCoords(width, i);
    IndexRoundTrip(width, i);
    assert width * c.1 <= i;
    assert (height - c.1) * width > 0;
  }

  /** Every edge of a graph built from a rectangular map leads to a node of
      the graph. */
  lemma BuiltGraphValid(hm: Heightmap)
    requires Rectangular(hm)
    ensures ValidGraph(Adjacency(hm, |hm[0]|, |hm|))
  {
    var w := |hm[0]|;
    var adj := Adjacency(hm, w, |hm|);
    AdjacencyIndex(hm);
    forall u, j | 0 <= u < |adj| && 0 <= j < |adj[u]| ensures adj[u][j] < |adj| {
      IndexInGrid(w, |hm|, u);
      IndexRoundTrip(w, u);
      var c := IndexToCoords(w, u);
      assert adj[u] == Neighbours(hm, w, c.0, c.1);
      var d := adj[u][j];
      NeighbourEdgeOut(hm, c.0, c.1, d);
      var e := IndexToCoords(w, d);
      AdjacencyAt(hm, |hm|, e.0, e.1);
    }
  }
}
