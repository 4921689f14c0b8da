/** Day 9: a two-knot rope whose tail follows its head
    (day-9/src/main.rs). Parsing the movements and `World::print` are left
    out; coordinates are unbounded integers rather than `i32`. */
module Day09Rope {
  import opened Wrappers

  datatype Direction = Right | Up | Down | Left

  /** One parsed movement; the step count matches `\d+`, so it is never
      negative. */
  datatype Movement = Movement(direction: Direction, steps: nat)

  /** Screen coordinates: `x` grows to the right, `y` grows downwards. */
  datatype Pos = Pos(x: int, y: int)

  datatype World = World(width: int, height: int, start: Pos, head: Pos, tail: Pos)

  function Abs(v: int): nat
  {
    if v < 0 then -v else v
  }

  function Sign(v: int): int
  {
    if v > 0 then 1 else if v < 0 then -1 else 0
  }

  /** The unit displacement of a direction; `Up` decreases `y`. */
  function Unit(d: Direction): (r: Pos)
    ensures Abs(r.x) + Abs(r.y) == 1
    ensures d == Right <==> r.x == 1
    ensures d == Left <==> r.x == -1
    ensures d == Up <==> r.y == -1
    ensures d == Down <==> r.y == 1
  {
    match d
    case Right => Pos(1, 0)
    case Up => Pos(0, -1)
    case Down => Pos(0, 1)
    case Left => Pos(-1, 0)
  }

  /** The position `n` unit steps from `p` in direction `d`. */
  function Advance(p: Pos, d: Direction, n: int): (r: Pos)
    ensures r.x == p.x + n * Unit(d).x && r.y == p.y + n * Unit(d).y
  {
    match d
    case Right => Pos(p.x + n, p.y)
    case Up => Pos(p.x, p.y - n)
    case Down => Pos(p.x, p.y + n)
    case Left => Pos(p.x - n, p.y)
  }

  /** Steps in one direction add up. */
  lemma AdvanceAdds(p: Pos, d: Direction, a: int, b: int)
    ensures Advance(Advance(p, d, a), d, b) == Advance(p, d, a + b)
  {
    match d
    case Right =>
    case Up =>
    case Down =>
    case Left =>
  }

  predicate Inside(w: World, p: Pos)
  {
    0 <= p.x < w.width && 0 <= p.y < w.height
  }

  /** `move_head_once`: one step, then the four bound assertions, modelled
      as an error. */
  function MoveHeadOnce(w: World, d: Direction): (r: Result<World>)
    ensures r.Ok? <==> Inside(w, Advance(w.head, d, 1))
    ensures r.Ok? ==> r.value == w.(head := Advance(w.head, d, 1))
  {
    var p := Advance(w.head, d, 1);
    if 0 <= p.x && p.x < w.width && 0 <= p.y && p.y < w.height then Ok(w.(head := p))
    else Err("head left the world")
  }

  /** Within one step of each other on both axes (including overlap). */
  predicate Touching(a: Pos, b: Pos)
  {
    Abs(a.x - b.x) <= 1 && Abs(a.y - b.y) <= 1
  }

  /** `move_tail_once`: a touching tail stays; otherwise it moves one unit
      towards the head on every axis where they differ. */
  function MoveTailOnce(head: Pos, tail: Pos): (r: Pos)
    ensures Touching(head, tail) ==> r == tail
    ensures !Touching(head, tail) ==>
      r == Pos(tail.x + Sign(head.x - tail.x), tail.y + Sign(head.y - tail.y))
    ensures Abs(r.x - tail.x) <= 1 && Abs(r.y - tail.y) <= 1
  {
    var dx := tail.x - head.x;
    var dy := tail.y - head.y;
    if Abs(dx) <= 1 && Abs(dy) <= 1 then tail
    else
      var x := if dx > 0 then tail.x - 1 else if dx < 0 then tail.x + 1 else tail.x;
      var y := if dy > 0 then tail.y - 1 else if dy < 0 then tail.y + 1 else tail.y;
      Pos(x, y)
  }

  /** A touching tail is still touching after one head step and the tail's
      reaction: the rope never comes apart. */
  lemma TailKeepsUp(head: Pos, tail: Pos, d: Direction)
    requires Touching(head, tail)
    ensures Touching(Advance(head, d, 1), MoveTailOnce(Advance(head, d, 1), tail))
  {
  }

  /** One step of the main loop: move the head, then the tail. */
  function StepOnce(w: World, d: Direction): (r: Result<World>)
    ensures r.Ok? <==> Inside(w, Advance(w.head, d, 1))
    ensures r.Ok? ==> r.value.head == Advance(w.head, d, 1)
    ensures r.Ok? ==> r.value.tail == MoveTailOnce(r.value.head, w.tail)
    ensures r.Ok? ==> r.value.width == w.width && r.value.height == w.height && r.value.start == w.start
  {
    match MoveHeadOnce(w, d)
    case Err(e) => Err(e)
    case Ok(w1) => Ok(w1.(tail := MoveTailOnce(w1.head, w1.tail)))
  }

  /** `for _ in 0..m.steps`. */
  function RunSteps(w: World, d: Direction, n: nat): Result<World>
    decreases n
  {
    if n == 0 then Ok(w)
    else
      match StepOnce(w, d)
      case Err(e) => Err(e)
      case Ok(w1) => RunSteps(w1, d, n - 1)
  }

  /** The movement loop of `main`, from movement `k` on. */
  function Run(w: World, ms: seq<Movement>, k: nat): Result<World>
    decreases |ms| - k
  {
    if k >= |ms| then Ok(w)
    else
      match RunSteps(w, ms[k].direction, ms[k].steps)
      case Err(e) => Err(e)
      case Ok(w1) => Run(w1, ms, k + 1)
  }

  /** A run keeps the rope together: a world whose tail touches its head
      still has that property after any number of steps. */
  lemma {:induction false} RunStepsKeepsTouching(w: World, d: Direction, n: nat)
    requires Touching(w.head, w.tail)
    ensures RunSteps(w, d, n).Ok? ==> Touching(RunSteps(w, d, n).value.head, RunSteps(w, d, n).value.tail)
    decreases n
  {
    if n > 0 {
      var r := StepOnce(w, d);
      if r.Ok? {
        TailKeepsUp(w.head, w.tail, d);
        RunStepsKeepsTouching(r.value, d, n - 1);
      }
    }
  }

  lemma {:induction false} RunKeepsTouching(w: World, ms: seq<Movement>, k: nat)
    requires Touching(w.head, w.tail)
    ensures Run(w, ms, k).Ok? ==> Touching(Run(w, ms, k).value.head, Run(w, ms, k).value.tail)
    decreases |ms| - k
  {
    if k < |ms| {
      var r := RunSteps(w, ms[k].direction, ms[k].steps);
      RunStepsKeepsTouching(w, ms[k].direction, ms[k].steps);
      if r.Ok? {
        RunKeepsTouching(r.value, ms, k + 1);
      }
    }
  }

  // ---------------------------------------------------------------------------
  // `World::from_bounds`.

  /** The head's displacement from the start after the movements `ms`. */
  function Displacement(ms: seq<Movement>): Pos
  {
    if |ms| == 0 then Pos(0, 0)
    else
      var m := ms[|ms| - 1];
      Advance(Displacement(ms[..|ms| - 1]), m.direction, m.steps)
  }

  /** The loop variables of `from_bounds`: the half-open ranges
      `min_width..max_width` and `min_height..max_height` and the position
      `(x, y)` after each whole movement. */
  datatype Bounds = Bounds(minX: int, maxX: int, minY: int, maxY: int, x: int, y: int)

  function Track(ms: seq<Movement>): Bounds
  {
    if |ms| == 0 then Bounds(0, 1, 0, 1, 0, 0)
    else
      var b := Track(ms[..|ms| - 1]);
      var m := ms[|ms| - 1];
      var d := m.steps;
      var x := match m.direction case Right => b.x + d case Left => b.x - d case _ => b.x;
      var y := match m.direction case Up => b.y - d case Down => b.y + d case _ => b.y;
      var maxX := if x >= b.maxX then x + 1 else b.maxX;
      var minX := if x < b.minX then x else b.minX;
      var maxY := if y >= b.maxY then y + 1 else b.maxY;
      var minY := if y < b.minY then y else b.minY;
      Bounds(minX, maxX, minY, maxY, x, y)
  }

  /** One movement widens the ranges, if at all, just enough to contain
      the position it ends at. */
  lemma TrackGrows(ms: seq<Movement>)
    requires |ms| > 0
    ensures var b, b' := Track(ms[..|ms| - 1]), Track(ms);
      b'.minX <= b.minX && b.maxX <= b'.maxX && b'.minY <= b.minY && b.maxY <= b'.maxY
      && b'.minX <= b'.x < b'.maxX && b'.minY <= b'.y < b'.maxY
  {
  }

  /** The tracked position moves with the head. */
  lemma TrackFollows(ms: seq<Movement>)
    requires |ms| > 0
    requires Track(ms[..|ms| - 1]).x == Displacement(ms[..|ms| - 1]).x
    requires Track(ms[..|ms| - 1]).y == Displacement(ms[..|ms| - 1]).y
    ensures Track(ms).x == Displacement(ms).x && Track(ms).y == Displacement(ms).y
  {
  }

  /** The ranges only grow, always contain the origin, and contain every
      position reached at the end of a movement. */
  lemma {:induction false} TrackBounds(ms: seq<Movement>)
    ensures Track(ms).x == Displacement(ms).x && Track(ms).y == Displacement(ms).y
    ensures Track(ms).minX <= 0 < Track(ms).maxX && Track(ms).minY <= 0 < Track(ms).maxY
    ensures forall k :: 0 <= k <= |ms| ==>
      Track(ms).minX <= Displacement(ms[..k]).x < Track(ms).maxX &&
      Track(ms).minY <= Displacement(ms[..k]).y < Track(ms).maxY
  {
    if |ms| > 0 {
      var init := ms[..|ms| - 1];
      TrackBounds(init);
      TrackGrows(ms);
      TrackFollows(ms);
      forall k | 0 <= k <= |ms|
        ensures Track(ms).minX <= Displacement(ms[..k]).x < Track(ms).maxX
        ensures Track(ms).minY <= Displacement(ms[..k]).y < Track(ms).maxY
      {
        if k < |ms| {
          assert ms[..k] == init[..k];
        } else {
          assert ms[..k] == ms;
        }
      }
    } else {
      assert ms[..0] == ms;
    }
  }

  /** `from_bounds`: the start is shifted so that the ranges begin at zero,
      and head and tail both begin at the start. */
  function FromBounds(ms: seq<Movement>): (w: World)
    ensures w.width >= 1 && w.height >= 1
    ensures w.head == w.start && w.tail == w.start
    ensures Inside(w, w.start)
  {
    var b := Track(ms);
    TrackBounds(ms);
    var start := Pos(0 - b.minX, 0 - b.minY);
    World(b.maxX - b.minX, b.maxY - b.minY, start, start, start)
  }

  /** The head after `j` steps of movement `i`, relative to position `p`. */
  function Visited(p: Pos, ms: seq<Movement>, i: nat, j: int): Pos
    requires i < |ms|
  {
    var d := Displacement(ms[..i]);
    Advance(Pos(p.x + d.x, p.y + d.y), ms[i].direction, j)
  }

  /** Every position the head passes through, not only the ends of the
      movements, lies inside the world `from_bounds` computes: a straight
      movement stays between two tracked end positions. */
  lemma PathInside(ms: seq<Movement>, i: nat, j: nat)
    requires i < |ms| && j <= ms[i].steps
    ensures Inside(FromBounds(ms), Visited(FromBounds(ms).start, ms, i, j))
  {
    TrackBounds(ms);
    assert ms[..i + 1][..i] == ms[..i];
  }

  lemma {:induction false} RunStepsFollows(w: World, d: Direction, n: nat)
    requires forall j :: 1 <= j <= n ==> Inside(w, Advance(w.head, d, j))
    ensures RunSteps(w, d, n).Ok?
    ensures RunSteps(w, d, n).value.head == Advance(w.head, d, n)
    ensures RunSteps(w, d, n).value.width == w.width && RunSteps(w, d, n).value.height == w.height
    ensures RunSteps(w, d, n).value.start == w.start
    decreases n
  {
    if n > 0 {
      assert Inside(w, Advance(w.head, d, 1));
      var w1 := StepOnce(w, d).value;
      forall j | 1 <= j <= n - 1 ensures Inside(w1, Advance(w1.head, d, j)) {
        AdvanceAdds(w.head, d, 1, j);
      }
      RunStepsFollows(w1, d, n - 1);
    }
  }

  lemma {:induction false} RunFollows(w: World, ms: seq<Movement>, k: nat)
    requires k <= |ms|
    requires w.start == FromBounds(ms).start && w.width == FromBounds(ms).width && w.height == FromBounds(ms).height
    requires w.head == Pos(w.start.x + Displacement(ms[..k]).x, w.start.y + Displacement(ms[..k]).y)
    ensures Run(w, ms, k).Ok?
    decreases |ms| - k
  {
    if k < |ms| {
      var m := ms[k];
      forall j | 1 <= j <= m.steps ensures Inside(w, Advance(w.head, m.direction, j)) {
        PathInside(ms, k, j);
      }
      RunStepsFollows(w, m.direction, m.steps);
      var w1 := RunSteps(w, m.direction, m.steps).value;
      assert ms[..k + 1][..k] == ms[..k];
      RunFollows(w1, ms, k + 1);
    }
  }

  /** The whole simulation of `main` never trips the assertions of
      `move_head_once` on the world `from_bounds` builds, and the rope stays
      together throughout. */
  lemma SimulationInBounds(ms: seq<Movement>)
    ensures Run(FromBounds(ms), ms, 0).Ok?
    ensures Touching(Run(FromBounds(ms), ms, 0).value.head, Run(FromBounds(ms), ms, 0).value.tail)
  {
    var w := FromBounds(ms);
    assert ms[..0] == [];
    RunFollows(w, ms, 0);
    RunKeepsTouching(w, ms, 0);
  }
}
