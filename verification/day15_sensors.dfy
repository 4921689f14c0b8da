/** Day 15, part 1: sensors, the beacons closest to them, and how many
    positions of one row cannot hold a beacon (day-15/src/main.rs).
    Integers are unbounded rather than `i64`. */
module Day15Sensors {
  import opened Wrappers
  import Day15Ranges

  datatype Point = Point(x: int, y: int)

  /** A sensor and the beacon closest to it. */
  datatype Sensor = Sensor(location: Point, closestBeacon: Point)

  /** The smallest box holding a set of points, corners included. */
  datatype Bounds = Bounds(minX: int, minY: int, maxX: int, maxY: int)

  /** `LINE`, the row the puzzle asks about. */
  const Line: int := 2000000

  function Abs(v: int): nat
  {
    if v < 0 then -v else v
  }

  /** Taxicab distance. */
  function Distance(a: Point, b: Point): nat
  {
    Abs(a.x - b.x) + Abs(a.y - b.y)
  }

  /** `Sensor::manhattan_radius`: how far the sensor sees, the distance to
      its closest beacon. */
  function ManhattanRadius(s: Sensor): (r: nat)
    ensures r == Distance(s.closestBeacon, s.location)
  {
    Distance(s.location, s.closestBeacon)
  }

  /** The sensor would have seen a beacon at `p`: no other beacon can sit
      there. */
  predicate Senses(s: Sensor, p: Point)
  {
    Distance(s.location, p) <= ManhattanRadius(s)
  }

  /** `Sensor::range_at`: the columns of row `y` the sensor sees, as a
      half-open range; `0..0` when the row lies beyond its radius. */
  function RangeAt(s: Sensor, y: int): (r: Day15Ranges.Range)
    ensures forall x :: Day15Ranges.InRange(r, x) <==> Senses(s, Point(x, y))
    ensures Abs(s.location.y - y) > ManhattanRadius(s) ==> r == Day15Ranges.Range(0, 0)
    ensures Abs(s.location.y - y) <= ManhattanRadius(s) ==>
      r.start <= s.location.x < r.end && r.start + r.end == 2 * s.location.x + 1
  {
    var difference := Abs(s.location.y - y);
    if difference > ManhattanRadius(s) then
      Day15Ranges.Range(0, 0)
    else
      var lower := s.location.x - (ManhattanRadius(s) - difference);
      var upper := s.location.x + (ManhattanRadius(s) - difference) + 1;
      Day15Ranges.Range(lower, upper)
  }

  // ---------------------------------------------------------------------------
  // Bounds.

  predicate Within(b: Bounds, p: Point)
  {
    b.minX <= p.x <= b.maxX && b.minY <= p.y <= b.maxY
  }

  /** Box `outer` holds box `inner`. */
  predicate Encloses(outer: Bounds, inner: Bounds)
  {
    outer.minX <= inner.minX && inner.maxX <= outer.maxX
    && outer.minY <= inner.minY && inner.maxY <= outer.maxY
  }

  /** `Bounds::new`: the box holding a single point, and nothing else. */
  function NewBounds(p: Point): (b: Bounds)
    ensures forall q :: Within(b, q) <==> q == p
  {
    Bounds(p.x, p.y, p.x, p.y)
  }

  /** `Bounds::expand`: grow the box just enough to hold `p`. */
  function Expand(b: Bounds, p: Point): (r: Bounds)
    ensures Within(r, p) && Encloses(r, b)
    ensures forall c :: Encloses(c, b) && Within(c, p) ==> Encloses(c, r)
  {
    Bounds(
      if b.minX <= p.x then b.minX else p.x,
      if b.minY <= p.y then b.minY else p.y,
      if b.maxX >= p.x then b.maxX else p.x,
      if b.maxY >= p.y then b.maxY else p.y)
  }

  /** Every sensor and every closest beacon lies in the box. */
  predicate HoldsAll(b: Bounds, sensors: seq<Sensor>)
  {
    forall i :: 0 <= i < |sensors| ==>
      Within(b, sensors[i].location) && Within(b, sensors[i].closestBeacon)
  }

  /** The loop of `main` that expands the bounds by each sensor and then
      by its beacon. */
  function ExpandAll(b: Bounds, sensors: seq<Sensor>): Bounds
    decreases |sensors|
  {
    if |sensors| == 0 then b
    else ExpandAll(Expand(Expand(b, sensors[0].location), sensors[0].closestBeacon), sensors[1..])
  }

  /** The expanded box holds the start box and every point, and any box
      that holds them holds it. */
  lemma {:induction false} ExpandAllLeast(b: Bounds, sensors: seq<Sensor>)
    ensures Encloses(ExpandAll(b, sensors), b)
    ensures HoldsAll(ExpandAll(b, sensors), sensors)
    ensures forall c :: Encloses(c, b) && HoldsAll(c, sensors) ==> Encloses(c, ExpandAll(b, sensors))
    decreases |sensors|
  {
    if |sensors| > 0 {
      var next := Expand(Expand(b, sensors[0].location), sensors[0].closestBeacon);
      var tail := sensors[1..];
      ExpandAllLeast(next, tail);
      var r := ExpandAll(next, tail);
      forall i | 0 <= i < |sensors|
        ensures Within(r, sensors[i].location) && Within(r, sensors[i].closestBeacon)
      {
        if i > 0 {
          assert sensors[i] == tail[i - 1];
        }
      }
      forall c | Encloses(c, b) && HoldsAll(c, sensors)
        ensures Encloses(c, r)
      {
        assert HoldsAll(c, tail) by {
          forall i | 0 <= i < |tail|
            ensures Within(c, tail[i].location) && Within(c, tail[i].closestBeacon)
          {
            assert tail[i] == sensors[i + 1];
          }
        }
      }
    }
  }

  /** The bounds `main` computes first; indexing the first sensor panics
      when there is none. */
  function SensorBounds(sensors: seq<Sensor>): (r: Result<Bounds>)
    ensures r.Err? <==> |sensors| == 0
    ensures r.Ok? ==> HoldsAll(r.value, sensors)
    ensures r.Ok? ==> forall c :: HoldsAll(c, sensors) ==> Encloses(c, r.value)
  {
    if |sensors| == 0 then
      Err("index out of bounds: no sensors")
    else
      var start := NewBounds(sensors[0].location);
      ExpandAllLeast(start, sensors);
      Ok(ExpandAll(start, sensors))
  }

  // ---------------------------------------------------------------------------
  // The row count.

  /** The columns of row `y` some sensor sees. */
  function Seen(sensors: seq<Sensor>, y: int): set<int>
  {
    if |sensors| == 0 then {}
    else
      var r := RangeAt(sensors[|sensors| - 1], y);
      Seen(sensors[..|sensors| - 1], y) + Day15Ranges.Interval(r.start, r.end)
  }

  lemma {:induction false} SeenMembers(sensors: seq<Sensor>, y: int, x: int)
    ensures x in Seen(sensors, y) <==>
      exists i :: 0 <= i < |sensors| && Senses(sensors[i], Point(x, y))
  {
    if |sensors| > 0 {
      var init := sensors[..|sensors| - 1];
      SeenMembers(init, y, x);
      SeenLast(sensors, y, x);
      SensesLast(sensors, Point(x, y));
    }
  }

  /** The last sensor adds exactly the columns it sees. */
  lemma SeenLast(sensors: seq<Sensor>, y: int, x: int)
    requires |sensors| > 0
    ensures x in Seen(sensors, y) <==>
      x in Seen(sensors[..|sensors| - 1], y) || Senses(sensors[|sensors| - 1], Point(x, y))
  {
    var r := RangeAt(sensors[|sensors| - 1], y);
    assert x in Day15Ranges.Interval(r.start, r.end) <==> Day15Ranges.InRange(r, x);
  }

  /** Some sensor sees `p` when one before the last does or the last does. */
  lemma SensesLast(sensors: seq<Sensor>, p: Point)
    requires |sensors| > 0
    ensures var init := sensors[..|sensors| - 1];
      (exists i :: 0 <= i < |sensors| && Senses(sensors[i], p)) <==>
      (exists i :: 0 <= i < |init| && Senses(init[i], p)) || Senses(sensors[|sensors| - 1], p)
  {
    var init := sensors[..|sensors| - 1];
    if exists i :: 0 <= i < |sensors| && Senses(sensors[i], p) {
      var i :| 0 <= i < |sensors| && Senses(sensors[i], p);
      if i < |init| {
        assert init[i] == sensors[i];
      }
    }
    if exists i :: 0 <= i < |init| && Senses(init[i], p) {
      var i :| 0 <= i < |init| && Senses(init[i], p);
      assert init[i] == sensors[i];
    }
  }

  /** The columns of row `y` that hold a closest beacon. */
  function BeaconsOn(sensors: seq<Sensor>, y: int): set<int>
  {
    if |sensors| == 0 then {}
    else
      var b := sensors[|sensors| - 1].closestBeacon;
      BeaconsOn(sensors[..|sensors| - 1], y) + if b.y == y then {b.x} else {}
  }

  lemma {:induction false} BeaconsOnMembers(sensors: seq<Sensor>, y: int, x: int)
    ensures x in BeaconsOn(sensors, y) <==>
      exists i :: 0 <= i < |sensors| && sensors[i].closestBeacon == Point(x, y)
  {
    if |sensors| > 0 {
      var init := sensors[..|sensors| - 1];
      BeaconsOnMembers(init, y, x);
      if exists i :: 0 <= i < |sensors| && sensors[i].closestBeacon == Point(x, y) {
        var i :| 0 <= i < |sensors| && sensors[i].closestBeacon == Point(x, y);
        if i < |init| {
          assert init[i] == sensors[i];
        }
      }
      if exists i :: 0 <= i < |init| && init[i].closestBeacon == Point(x, y) {
        var i :| 0 <= i < |init| && init[i].closestBeacon == Point(x, y);
        assert init[i] == sensors[i];
      }
    }
  }

  /** Every closest beacon is seen by its own sensor, so the beacons of a
      row are among the columns seen. */
  lemma BeaconsSeen(sensors: seq<Sensor>, y: int)
    ensures BeaconsOn(sensors, y) <= Seen(sensors, y)
  {
    forall x | x in BeaconsOn(sensors, y)
      ensures x in Seen(sensors, y)
    {
      BeaconsOnMembers(sensors, y, x);
      var i :| 0 <= i < |sensors| && sensors[i].closestBeacon == Point(x, y);
      assert Senses(sensors[i], Point(x, y));
      SeenMembers(sensors, y, x);
    }
  }

  /** The puzzle's answer as a set: the columns of row `y` that some sensor
      sees and that hold no beacon. */
  function NoBeacon(sensors: seq<Sensor>, y: int): (s: set<int>)
  {
    Seen(sensors, y) - BeaconsOn(sensors, y)
  }

  lemma NoBeaconMembers(sensors: seq<Sensor>, y: int, x: int)
    ensures x in NoBeacon(sensors, y) <==>
      && (exists i :: 0 <= i < |sensors| && Senses(sensors[i], Point(x, y)))
      && !(exists i :: 0 <= i < |sensors| && sensors[i].closestBeacon == Point(x, y))
  {
    SeenMembers(sensors, y, x);
    BeaconsOnMembers(sensors, y, x);
  }

  /** The loop of `main` on row `y`: add each sensor's range and collect
      the beacon columns of the row; the result is the coverage less the
      number of beacons, which is the number of columns that cannot hold
      a beacon. */
  method CountNoBeacon(sensors: seq<Sensor>, y: int) returns (count: int)
    ensures count == |Seen(sensors, y)| - |BeaconsOn(sensors, y)|
    ensures count == |NoBeacon(sensors, y)|
  {
    var ranges := Day15Ranges.New();
    var beacons: set<int> := {};
    for i := 0 to |sensors|
      invariant Day15Ranges.Valid(ranges)
      invariant forall v :: Day15Ranges.Covers(ranges, v) <==> v in Seen(sensors[..i], y)
      invariant beacons == BeaconsOn(sensors[..i], y)
    {
      var range := RangeAt(sensors[i], y);
      ranges := Day15Ranges.Add(ranges, range);
      if sensors[i].closestBeacon.y == y {
        beacons := beacons + {sensors[i].closestBeacon.x};
      }
      forall v
        ensures Day15Ranges.Covers(ranges, v) <==> v in Seen(sensors[..i + 1], y)
      {
        SeenPrefix(sensors, i, y, v);
      }
      BeaconsOnPrefix(sensors, i, y);
    }
    assert sensors[..|sensors|] == sensors;
    assert Day15Ranges.CoveredSet(ranges) == Seen(sensors, y) by {
      Day15Ranges.CoverageCount(ranges);
    }
    Day15Ranges.CoverageCount(ranges);
    BeaconsSeen(sensors, y);
    SubsetDifference(Seen(sensors, y), beacons);
    count := Day15Ranges.Coverage(ranges) - |beacons|;
  }

  /** One more sensor of the prefix adds the columns it sees. */
  lemma SeenPrefix(sensors: seq<Sensor>, i: int, y: int, v: int)
    requires 0 <= i < |sensors|
    ensures v in Seen(sensors[..i + 1], y) <==>
      v in Seen(sensors[..i], y) || Day15Ranges.InRange(RangeAt(sensors[i], y), v)
  {
    assert sensors[..i + 1][..i] == sensors[..i];
    var r := RangeAt(sensors[i], y);
    assert v in Day15Ranges.Interval(r.start, r.end) <==> Day15Ranges.InRange(r, v);
  }

  /** One more sensor of the prefix adds its beacon's column when the
      beacon is on the row. */
  lemma BeaconsOnPrefix(sensors: seq<Sensor>, i: int, y: int)
    requires 0 <= i < |sensors|
    ensures var b := sensors[i].closestBeacon;
      BeaconsOn(sensors[..i + 1], y) == BeaconsOn(sensors[..i], y) + if b.y == y then {b.x} else {}
  {
    assert sensors[..i + 1][..i] == sensors[..i];
  }

  lemma SubsetDifference(a: set<int>, b: set<int>)
    requires b <= a
    ensures |a - b| == |a| - |b|
  {
    assert a == (a - b) + b;
  }

  /** `main`: the bounds (which panic without sensors), then the count on
      row `Line`. */
  method Solve(sensors: seq<Sensor>) returns (r: Result<(Bounds, int)>)
    ensures r.Err? <==> |sensors| == 0
    ensures r.Ok? ==> HoldsAll(r.value.0, sensors)
    ensures r.Ok? ==> forall c :: HoldsAll(c, sensors) ==> Encloses(c, r.value.0)
    ensures r.Ok? ==> r.value.1 == |NoBeacon(sensors, Line)|
  {
    var bounds := SensorBounds(sensors);
    if bounds.Err? {
      return Err(bounds.reason);
    }
    var count := CountNoBeacon(sensors, Line);
    r := Ok((bounds.value, count));
  }
}
