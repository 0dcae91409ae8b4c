/**
 * The road topology engine of checks/road_qc/engine.py: dangle detection
 * over a spatial hash of endpoints, disconnected roads derived from the
 * dangles, and self-intersection detection by orientation tests between
 * non-adjacent segments. Coordinates are exact reals.
 */
module RoadEngine {
  import opened Basics
  import opened SpatialIndexing

  /** A projected `(x, y)` coordinate pair. */
  datatype Point = Point(x: real, y: real)

  /** The floor of the hash cell size: `max(tolerance, 1e-9)`. */
  const MinCell: real := 1e-9

  /** `_grid_key`: the hash cell containing `(x, y)`. */
  function GridKey(x: real, y: real, cell: real): (k: Cell)
    requires cell > 0.0
    ensures (k.0 as real) * cell <= x < (k.0 as real + 1.0) * cell
    ensures (k.1 as real) * cell <= y < (k.1 as real + 1.0) * cell
  {
    (FloorDiv(x, cell), FloorDiv(y, cell))
  }

  /** The hash cell size used for a snap tolerance. */
  function CellFor(tolerance: real): (cell: real)
    ensures cell > 0.0 && cell >= tolerance
  {
    Max(tolerance, MinCell)
  }

  /** One `(road_fid, x, y, endpoint_index)` entry. */
  datatype Endpoint = Endpoint(fid: int, x: real, y: real, index: int)

  /** The endpoints of one road, numbered in list order. */
  function RoadEndpoints(fid: int, pts: seq<Point>): seq<Endpoint> {
    seq(|pts|, i requires 0 <= i < |pts| => Endpoint(fid, pts[i].x, pts[i].y, i))
  }

  /** `all_eps`: the endpoints of every road listed in `keys`, road by road. */
  function AllEndpoints(keys: seq<int>, items: map<int, seq<Point>>): seq<Endpoint>
    requires forall i :: 0 <= i < |keys| ==> keys[i] in items
  {
    if keys == [] then []
    else AllEndpoints(keys[..|keys| - 1], items) + RoadEndpoints(keys[|keys| - 1], items[keys[|keys| - 1]])
  }

  /**
   * The flattened list holds exactly the input endpoints: entry
   * `(fid, x, y, i)` occurs iff `(x, y)` is point `i` of road `fid`.
   */
  lemma {:induction false} EndpointsFaithful(keys: seq<int>, items: map<int, seq<Point>>, e: Endpoint)
    requires forall i :: 0 <= i < |keys| ==> keys[i] in items
    ensures e in AllEndpoints(keys, items) <==>
      e.fid in keys && 0 <= e.index < |items[e.fid]| && items[e.fid][e.index] == Point(e.x, e.y)
  {
    if keys != [] {
      var front, last := keys[..|keys| - 1], keys[|keys| - 1];
      EndpointsFaithful(front, items, e);
      assert keys == front + [last];
      var road := RoadEndpoints(last, items[last]);
      if e in road {
        var i := PositionOf(road, e);
      }
      if e.fid == last && 0 <= e.index < |items[e.fid]| && items[e.fid][e.index] == Point(e.x, e.y) {
        assert road[e.index] == e;
      }
    }
  }

  /** Squared distance `(x - ox)**2 + (y - oy)**2`. */
  function DistSq(x: real, y: real, ox: real, oy: real): (d: real)
    ensures d >= 0.0
  {
    (x - ox) * (x - ox) + (y - oy) * (y - oy)
  }

  /** Cells within the 3×3 block centred on `b`. */
  predicate Adjacent(a: Cell, b: Cell) {
    -1 <= a.0 - b.0 <= 1 && -1 <= a.1 - b.1 <= 1
  }

  /**
   * What the 3×3 search finds for `e`: an endpoint of another road, hashed
   * into a neighbouring cell, within squared distance `tolSq`.
   */
  ghost predicate Connected(all: seq<Endpoint>, e: Endpoint, cell: real, tolSq: real)
    requires cell > 0.0
  {
    exists o :: o in all && o.fid != e.fid
      && Adjacent(GridKey(o.x, o.y, cell), GridKey(e.x, e.y, cell))
      && DistSq(e.x, e.y, o.x, o.y) <= tolSq
  }

  /** The entries of `eps` that `Connected` rejects, in order. */
  ghost function KeepDangles(eps: seq<Endpoint>, all: seq<Endpoint>, cell: real, tolSq: real): seq<Endpoint>
    requires cell > 0.0
  {
    if eps == [] then []
    else
      var last := eps[|eps| - 1];
      KeepDangles(eps[..|eps| - 1], all, cell, tolSq) + (if Connected(all, last, cell, tolSq) then [] else [last])
  }

  /** The dangles `find_dangles` reports for `roads` and `tolerance`. */
  ghost function Dangles(roads: Dict<seq<Point>>, tolerance: real): seq<Endpoint>
    requires roads.Wf()
  {
    var all := AllEndpoints(roads.keys, roads.items);
    KeepDangles(all, all, CellFor(tolerance), tolerance * tolerance)
  }

  /** The kept entries are those of `eps` without a connection, and there are no more of them. */
  lemma {:induction false} KeepDanglesMembers(eps: seq<Endpoint>, all: seq<Endpoint>, cell: real, tolSq: real)
    requires cell > 0.0
    ensures |KeepDangles(eps, all, cell, tolSq)| <= |eps|
    ensures forall e :: e in KeepDangles(eps, all, cell, tolSq) <==> e in eps && !Connected(all, e, cell, tolSq)
  {
    if eps != [] {
      var front := eps[..|eps| - 1];
      KeepDanglesMembers(front, all, cell, tolSq);
      assert eps == front + [eps[|eps| - 1]];
    }
  }

  /** A product of positive reals is positive. */
  lemma MulPositive(a: real, b: real)
    requires a > 0.0 && b > 0.0
    ensures a * b > 0.0
  {
  }

  /** Squares are strictly monotone on non-negative values. */
  lemma SquareMonotone(x: real, y: real)
    requires x > y && y >= 0.0
    ensures x * x > y * y
  {
    MulPositive(x - y, x + y);
    assert x * x - y * y == (x - y) * (x + y);
  }

  /** `a * a <= t * t` with `t >= 0` bounds `a` by `t` on both sides. */
  lemma SquareBound(a: real, t: real)
    requires t >= 0.0 && a * a <= t * t
    ensures -t <= a <= t
  {
    if a > t {
      SquareMonotone(a, t);
    }
    if a < -t {
      SquareMonotone(-a, t);
    }
  }

  /** Division by a positive `c` distributes over subtraction. */
  lemma DivSub(a: real, b: real, c: real)
    requires c > 0.0
    ensures a / c - b / c == (a - b) / c
  {
  }

  /** Dividing by a positive `c` maps `[-c, c]` into `[-1, 1]`. */
  lemma DivBound(d: real, c: real)
    requires c > 0.0 && -c <= d <= c
    ensures -1.0 <= d / c <= 1.0
  {
    assert c / c == 1.0;
    assert (c - d) / c >= 0.0;
    DivSub(c, d, c);
    assert (d + c) / c >= 0.0;
    DivSub(d + c, c, c);
  }

  /** Values at most `cell` apart lie in the same or neighbouring bands. */
  lemma CloseBands(u: real, v: real, cell: real)
    requires cell > 0.0 && -cell <= u - v <= cell
    ensures -1 <= FloorDiv(u, cell) - FloorDiv(v, cell) <= 1
  {
    DivSub(u, v, cell);
    DivBound(u - v, cell);
  }

  /**
   * The 3×3 search is complete: with `0 <= tolerance <= cell`, two points
   * within the tolerance hash into neighbouring cells.
   */
  lemma CloseMeansAdjacent(x: real, y: real, ox: real, oy: real, tolerance: real, cell: real)
    requires 0.0 <= tolerance <= cell && cell > 0.0
    requires DistSq(x, y, ox, oy) <= tolerance * tolerance
    ensures Adjacent(GridKey(ox, oy, cell), GridKey(x, y, cell))
  {
    SquareBound(x - ox, tolerance);
    SquareBound(y - oy, tolerance);
    CloseBands(ox, x, cell);
    CloseBands(oy, y, cell);
  }

  /**
   * For a non-negative tolerance, an endpoint dangles iff no endpoint of a
   * different road lies within the tolerance.
   */
  lemma DangleIffIsolated(roads: Dict<seq<Point>>, tolerance: real, e: Endpoint)
    requires roads.Wf() && tolerance >= 0.0
    ensures e in Dangles(roads, tolerance) <==>
      && e in AllEndpoints(roads.keys, roads.items)
      && !(exists o :: o in AllEndpoints(roads.keys, roads.items) && o.fid != e.fid
             && DistSq(e.x, e.y, o.x, o.y) <= tolerance * tolerance)
  {
    var all := AllEndpoints(roads.keys, roads.items);
    var cell := CellFor(tolerance);
    KeepDanglesMembers(all, all, cell, tolerance * tolerance);
    forall o | o in all && o.fid != e.fid && DistSq(e.x, e.y, o.x, o.y) <= tolerance * tolerance
      ensures Adjacent(GridKey(o.x, o.y, cell), GridKey(e.x, e.y, cell))
    {
      CloseMeansAdjacent(e.x, e.y, o.x, o.y, tolerance, cell);
    }
  }

  /**
   * Endpoints of the same road never connect: with a single road, every
   * endpoint dangles.
   */
  lemma SingleRoadAllDangle(fid: int, pts: seq<Point>, tolerance: real)
    ensures Dangles(Dict([fid], map[fid := pts]), tolerance) == RoadEndpoints(fid, pts)
  {
    var roads := Dict([fid], map[fid := pts]);
    var all := AllEndpoints(roads.keys, roads.items);
    assert [fid][..0] == [];
    assert all == AllEndpoints([], roads.items) + RoadEndpoints(fid, pts);
    var cell, tolSq := CellFor(tolerance), tolerance * tolerance;
    forall eps | eps <= all
      ensures KeepDangles(eps, all, cell, tolSq) == eps
    {
      KeepAllOfOneRoad(eps, all, fid, cell, tolSq);
    }
    assert all <= all;
  }

  /** Entries whose road is the only one in `all` are all kept. */
  lemma {:induction false} KeepAllOfOneRoad(eps: seq<Endpoint>, all: seq<Endpoint>, fid: int, cell: real, tolSq: real)
    requires cell > 0.0
    requires forall o :: o in all ==> o.fid == fid
    requires forall e :: e in eps ==> e.fid == fid
    ensures KeepDangles(eps, all, cell, tolSq) == eps
  {
    if eps != [] {
      KeepAllOfOneRoad(eps[..|eps| - 1], all, fid, cell, tolSq);
      assert eps == eps[..|eps| - 1] + [eps[|eps| - 1]];
    }
  }

  /** An endpoint of another road within the tolerance connects. */
  lemma ConnectedByDistance(all: seq<Endpoint>, e: Endpoint, o: Endpoint, tolerance: real)
    requires tolerance >= 0.0 && o in all && o.fid != e.fid
    requires DistSq(e.x, e.y, o.x, o.y) <= tolerance * tolerance
    ensures Connected(all, e, CellFor(tolerance), tolerance * tolerance)
  {
    CloseMeansAdjacent(e.x, e.y, o.x, o.y, tolerance, CellFor(tolerance));
  }

  /** `KeepDangles` of a one-entry list. */
  lemma KeepOne(all: seq<Endpoint>, e: Endpoint, cell: real, tolSq: real)
    requires cell > 0.0
    ensures KeepDangles([e], all, cell, tolSq) == if Connected(all, e, cell, tolSq) then [] else [e]
  {
    assert [e][..0] == [];
  }

  /** `KeepDangles` of a list grown by one entry. */
  lemma KeepNext(front: seq<Endpoint>, e: Endpoint, all: seq<Endpoint>, cell: real, tolSq: real)
    requires cell > 0.0
    ensures KeepDangles(front + [e], all, cell, tolSq)
         == KeepDangles(front, all, cell, tolSq) + (if Connected(all, e, cell, tolSq) then [] else [e])
  {
    assert (front + [e])[..|front|] == front;
  }

  /** Four entries of which only the outer two are unconnected keep exactly those two. */
  lemma KeepFirstAndLast(eps: seq<Endpoint>, all: seq<Endpoint>, cell: real, tolSq: real)
    requires cell > 0.0 && |eps| == 4
    requires !Connected(all, eps[0], cell, tolSq) && Connected(all, eps[1], cell, tolSq)
    requires Connected(all, eps[2], cell, tolSq) && !Connected(all, eps[3], cell, tolSq)
    ensures KeepDangles(eps, all, cell, tolSq) == [eps[0], eps[3]]
  {
    var e0, e1, e2, e3 := eps[0], eps[1], eps[2], eps[3];
    KeepOne(all, e0, cell, tolSq);
    KeepNext([e0], e1, all, cell, tolSq);
    KeepNext([e0, e1], e2, all, cell, tolSq);
    KeepNext([e0, e1, e2], e3, all, cell, tolSq);
    assert [e0] + [e1] == [e0, e1];
    assert [e0, e1] + [e2] == [e0, e1, e2];
    assert [e0, e1, e2] + [e3] == eps;
  }

  /** An endpoint with no endpoint of another road within the tolerance does not connect. */
  lemma IsolatedNotConnected(all: seq<Endpoint>, e: Endpoint, tolerance: real)
    requires forall o :: o in all && o.fid != e.fid ==> DistSq(e.x, e.y, o.x, o.y) > tolerance * tolerance
    ensures !Connected(all, e, CellFor(tolerance), tolerance * tolerance)
  {
  }

  /** The endpoints of the two-road example. */
  lemma ExampleEndpoints()
    ensures AllEndpoints([1, 2], map[1 := [Point(0.0, 0.0), Point(1.0, 0.0)], 2 := [Point(1.0, 0.0), Point(3.0, 0.0)]])
         == [Endpoint(1, 0.0, 0.0, 0), Endpoint(1, 1.0, 0.0, 1), Endpoint(2, 1.0, 0.0, 0), Endpoint(2, 3.0, 0.0, 1)]
  {
    var items := map[1 := [Point(0.0, 0.0), Point(1.0, 0.0)], 2 := [Point(1.0, 0.0), Point(3.0, 0.0)]];
    assert [1, 2][..1] == [1] && [1][..0] == [];
    assert AllEndpoints([1], items) == RoadEndpoints(1, items[1]);
  }

  /** Of the four endpoints of the two-road example, the far ends are kept. */
  lemma SharedEndKeep(all: seq<Endpoint>)
    requires |all| == 4
    requires all[0] == Endpoint(1, 0.0, 0.0, 0) && all[1] == Endpoint(1, 1.0, 0.0, 1)
    requires all[2] == Endpoint(2, 1.0, 0.0, 0) && all[3] == Endpoint(2, 3.0, 0.0, 1)
    ensures KeepDangles(all, all, CellFor(0.5), 0.5 * 0.5) == [all[0], all[3]]
  {
    IsolatedNotConnected(all, all[0], 0.5);
    ConnectedByDistance(all, all[1], all[2], 0.5);
    ConnectedByDistance(all, all[2], all[1], 0.5);
    IsolatedNotConnected(all, all[3], 0.5);
    KeepFirstAndLast(all, all, CellFor(0.5), 0.5 * 0.5);
  }

  /**
   * Two roads whose ends meet within the tolerance: A = (0,0)-(1,0) and
   * B = (1,0)-(3,0) with tolerance 0.5 leave exactly the two far ends.
   */
  lemma ExampleSharedEnd()
    ensures Dangles(Dict([1, 2], map[1 := [Point(0.0, 0.0), Point(1.0, 0.0)], 2 := [Point(1.0, 0.0), Point(3.0, 0.0)]]), 0.5)
         == [Endpoint(1, 0.0, 0.0, 0), Endpoint(2, 3.0, 0.0, 1)]
  {
    var all := [Endpoint(1, 0.0, 0.0, 0), Endpoint(1, 1.0, 0.0, 1), Endpoint(2, 1.0, 0.0, 0), Endpoint(2, 3.0, 0.0, 1)];
    ExampleEndpoints();
    SharedEndKeep(all);
  }

  // ----- the hashed dangle search -----

  /** A hashed endpoint `(road_fid, x, y)`. */
  type Stub = (int, real, real)

  /** `t` is an endpoint of a road other than `fid` within squared distance `tolSq` of `(x, y)`. */
  predicate Links(fid: int, x: real, y: real, t: Stub, tolSq: real) {
    t.0 != fid && DistSq(x, y, t.1, t.2) <= tolSq
  }

  /** `grid` hashes exactly the endpoints `eps`, each into the cell holding it. */
  ghost predicate GridHolds(grid: map<Cell, seq<Stub>>, eps: seq<Endpoint>, cell: real)
    requires cell > 0.0
  {
    && (forall k, t :: k in grid && t in grid[k] ==>
          exists e :: e in eps && GridKey(e.x, e.y, cell) == k && t == (e.fid, e.x, e.y))
    && (forall e :: e in eps ==>
          GridKey(e.x, e.y, cell) in grid && (e.fid, e.x, e.y) in grid[GridKey(e.x, e.y, cell)])
  }

  /** Some cell of the 3×3 block around `g` holds an endpoint linked to `(x, y)`. */
  ghost predicate NeighbourIn(grid: map<Cell, seq<Stub>>, fid: int, x: real, y: real, g: Cell, tolSq: real) {
    exists k, t :: k in grid && t in grid[k] && Adjacent(k, g) && Links(fid, x, y, t, tolSq)
  }

  /** The innermost loop: does `bucket` hold an endpoint linked to `(x, y)`? */
  method ScanBucket(bucket: seq<Stub>, fid: int, x: real, y: real, tolSq: real) returns (connected: bool)
    ensures connected <==> exists t :: t in bucket && Links(fid, x, y, t, tolSq)
  {
    connected := false;
    for m := 0 to |bucket|
      invariant forall t :: t in bucket[..m] ==> !Links(fid, x, y, t, tolSq)
    {
      var (ofid, ox, oy) := bucket[m];
      assert bucket[..m + 1] == bucket[..m] + [bucket[m]];
      if ofid == fid {
        continue;
      }
      if DistSq(x, y, ox, oy) <= tolSq {
        connected := true;
        assert bucket[m] in bucket && Links(fid, x, y, bucket[m], tolSq);
        break;
      }
    }
    if !connected {
      assert bucket[..|bucket|] == bucket;
    }
  }

  /** The 3×3 neighbourhood search around cell `g`, stopping at the first link. */
  method SearchNeighbourhood(grid: map<Cell, seq<Stub>>, fid: int, x: real, y: real, g: Cell, tolSq: real)
    returns (connected: bool)
    ensures connected <==> NeighbourIn(grid, fid, x, y, g, tolSq)
  {
    var (gx, gy) := g;
    connected := false;
    for dx := -1 to 2
      invariant !connected
      invariant forall k, t :: k in grid && t in grid[k] && Adjacent(k, g) && k.0 < gx + dx ==>
        !Links(fid, x, y, t, tolSq)
    {
      for dy := -1 to 2
        invariant !connected
        invariant forall k, t ::
          k in grid && t in grid[k] && Adjacent(k, g) && (k.0 < gx + dx || (k.0 == gx + dx && k.1 < gy + dy))
          ==> !Links(fid, x, y, t, tolSq)
      {
        var key := (gx + dx, gy + dy);
        if key !in grid {
          continue;
        }
        connected := ScanBucket(grid[key], fid, x, y, tolSq);
        if connected {
          assert Adjacent(key, g);
          break;
        }
      }
      if connected {
        break;
      }
    }
  }

  /** Over a grid that hashes `all`, the neighbourhood search decides `Connected`. */
  lemma NeighbourMeansConnected(grid: map<Cell, seq<Stub>>, all: seq<Endpoint>, cell: real, e: Endpoint, tolSq: real)
    requires cell > 0.0 && GridHolds(grid, all, cell)
    ensures NeighbourIn(grid, e.fid, e.x, e.y, GridKey(e.x, e.y, cell), tolSq) <==> Connected(all, e, cell, tolSq)
  {
    var g := GridKey(e.x, e.y, cell);
    if NeighbourIn(grid, e.fid, e.x, e.y, g, tolSq) {
      var k, t :| k in grid && t in grid[k] && Adjacent(k, g) && Links(e.fid, e.x, e.y, t, tolSq);
      var o :| o in all && GridKey(o.x, o.y, cell) == k && t == (o.fid, o.x, o.y);
    }
    if Connected(all, e, cell, tolSq) {
      var o :| o in all && o.fid != e.fid
        && Adjacent(GridKey(o.x, o.y, cell), g) && DistSq(e.x, e.y, o.x, o.y) <= tolSq;
      assert Links(e.fid, e.x, e.y, (o.fid, o.x, o.y), tolSq);
    }
  }

  /** Hashing one more endpoint keeps the grid in step with the endpoint list. */
  lemma HashStep(grid: map<Cell, seq<Stub>>, eps: seq<Endpoint>, cell: real, e: Endpoint)
    requires cell > 0.0 && GridHolds(grid, eps, cell)
    ensures GridHolds(grid[GridKey(e.x, e.y, cell) :=
                           (if GridKey(e.x, e.y, cell) in grid then grid[GridKey(e.x, e.y, cell)] else []) + [(e.fid, e.x, e.y)]],
                      eps + [e], cell)
  {
    var key := GridKey(e.x, e.y, cell);
    var grid' := grid[key := (if key in grid then grid[key] else []) + [(e.fid, e.x, e.y)]];
    forall k, t | k in grid' && t in grid'[k]
      ensures exists o :: o in eps + [e] && GridKey(o.x, o.y, cell) == k && t == (o.fid, o.x, o.y)
    {
      if k == key && t == (e.fid, e.x, e.y) {
        assert e in eps + [e];
      } else {
        assert k in grid && t in grid[k];
        var o :| o in eps && GridKey(o.x, o.y, cell) == k && t == (o.fid, o.x, o.y);
        assert o in eps + [e];
      }
    }
  }

  /** Step 1 of `find_dangles`: flatten the endpoints road by road and hash each one. */
  method HashEndpoints(endpointsByRoad: Dict<seq<Point>>, cell: real)
    returns (grid: map<Cell, seq<Stub>>, allEps: seq<Endpoint>)
    requires endpointsByRoad.Wf() && cell > 0.0
    ensures allEps == AllEndpoints(endpointsByRoad.keys, endpointsByRoad.items)
    ensures GridHolds(grid, allEps, cell)
  {
    var keys, items := endpointsByRoad.keys, endpointsByRoad.items;
    grid := map[];
    allEps := [];
    for n := 0 to |keys|
      invariant allEps == AllEndpoints(keys[..n], items)
      invariant GridHolds(grid, allEps, cell)
    {
      var fid := keys[n];
      var pts := items[fid];
      assert keys[..n + 1][..n] == keys[..n];
      ghost var before := allEps;
      for i := 0 to |pts|
        invariant allEps == before + RoadEndpoints(fid, pts[..i])
        invariant GridHolds(grid, allEps, cell)
      {
        var e := Endpoint(fid, pts[i].x, pts[i].y, i);
        assert RoadEndpoints(fid, pts[..i + 1]) == RoadEndpoints(fid, pts[..i]) + [e];
        HashStep(grid, allEps, cell, e);
        allEps := allEps + [e];
        var key := GridKey(e.x, e.y, cell);
        // A missing bucket starts out empty.
        grid := grid[key := (if key in grid then grid[key] else []) + [(fid, e.x, e.y)]];
      }
      assert pts[..|pts|] == pts;
    }
    assert keys[..|keys|] == keys;
  }

  /**
   * `find_dangles`: flattens the endpoints road by road, hashes each into
   * the cell of size `max(tolerance, 1e-9)` holding it, then reports, in
   * that order, every endpoint with no endpoint of another road within the
   * tolerance in its 3×3 neighbourhood.
   */
  method FindDangles(endpointsByRoad: Dict<seq<Point>>, tolerance: real) returns (dangles: seq<Endpoint>)
    requires endpointsByRoad.Wf()
    ensures dangles == Dangles(endpointsByRoad, tolerance)
  {
    var cell := Max(tolerance, MinCell);
    var grid, allEps := HashEndpoints(endpointsByRoad, cell);
    dangles := KeepUnconnected(grid, allEps, cell, tolerance * tolerance);
  }

  /** Step 2 of `find_dangles`: the neighbourhood search for every hashed endpoint, keeping those it fails for. */
  method KeepUnconnected(grid: map<Cell, seq<Stub>>, allEps: seq<Endpoint>, cell: real, tolSq: real)
    returns (dangles: seq<Endpoint>)
    requires cell > 0.0 && GridHolds(grid, allEps, cell)
    ensures dangles == KeepDangles(allEps, allEps, cell, tolSq)
  {
    dangles := [];
    for n := 0 to |allEps|
      invariant dangles == KeepDangles(allEps[..n], allEps, cell, tolSq)
    {
      var e := allEps[n];
      var connected := SearchNeighbourhood(grid, e.fid, e.x, e.y, GridKey(e.x, e.y, cell), tolSq);
      NeighbourMeansConnected(grid, allEps, cell, e, tolSq);
      assert allEps[..n + 1] == allEps[..n] + [e];
      KeepNext(allEps[..n], e, allEps, cell, tolSq);
      if !connected {
        dangles := dangles + [e];
      }
    }
    assert allEps[..|allEps|] == allEps;
  }

  // ----- disconnected roads -----

  /** The number of entries of `ds` on road `fid`. */
  function DangleCount(ds: seq<Endpoint>, fid: int): nat {
    if ds == [] then 0
    else DangleCount(ds[..|ds| - 1], fid) + (if ds[|ds| - 1].fid == fid then 1 else 0)
  }

  lemma {:induction false} CountAppend(a: seq<Endpoint>, b: seq<Endpoint>, fid: int)
    ensures DangleCount(a + b, fid) == DangleCount(a, fid) + DangleCount(b, fid)
  {
    if b != [] {
      CountAppend(a, b[..|b| - 1], fid);
      assert (a + b)[..|a + b| - 1] == a + b[..|b| - 1];
    } else {
      assert a + b == a;
    }
  }

  /** A road contributes one entry per point to its own count and none to others. */
  lemma {:induction false} CountRoad(f: int, pts: seq<Point>, fid: int)
    ensures DangleCount(RoadEndpoints(f, pts), fid) == if f == fid then |pts| else 0
  {
    if pts != [] {
      var n := |pts| - 1;
      CountRoad(f, pts[..n], fid);
      assert RoadEndpoints(f, pts)[..n] == RoadEndpoints(f, pts[..n]);
    }
  }

  /** In the flattened list, a listed road has one entry per point. */
  lemma {:induction false} CountAll(keys: seq<int>, items: map<int, seq<Point>>, fid: int)
    requires forall i :: 0 <= i < |keys| ==> keys[i] in items
    requires NoDup(keys)
    ensures DangleCount(AllEndpoints(keys, items), fid) == if fid in keys then |items[fid]| else 0
  {
    if keys != [] {
      var front, last := keys[..|keys| - 1], keys[|keys| - 1];
      CountAll(front, items, fid);
      CountAppend(AllEndpoints(front, items), RoadEndpoints(last, items[last]), fid);
      CountRoad(last, items[last], fid);
      assert keys == front + [last];
      if last == fid {
        assert fid !in front;
      }
    }
  }

  /**
   * Filtering never raises a road's count, and keeps it whole exactly
   * when none of the road's entries connects.
   */
  lemma {:induction false} CountKept(eps: seq<Endpoint>, all: seq<Endpoint>, cell: real, tolSq: real, fid: int)
    requires cell > 0.0
    ensures DangleCount(KeepDangles(eps, all, cell, tolSq), fid) <= DangleCount(eps, fid)
    ensures DangleCount(KeepDangles(eps, all, cell, tolSq), fid) == DangleCount(eps, fid) <==>
      forall e :: e in eps && e.fid == fid ==> !Connected(all, e, cell, tolSq)
  {
    if eps != [] {
      var front, last := eps[..|eps| - 1], eps[|eps| - 1];
      var kf := KeepDangles(front, all, cell, tolSq);
      CountKept(front, all, cell, tolSq, fid);
      assert eps == front + [last];
      assert forall e :: e in eps <==> e in front || e == last;
      if Connected(all, last, cell, tolSq) {
        assert KeepDangles(eps, all, cell, tolSq) == kf;
      } else {
        var k := KeepDangles(eps, all, cell, tolSq);
        assert k == kf + [last];
        assert k[..|k| - 1] == kf;
      }
    }
  }

  /**
   * A road is listed as disconnected iff every one of its endpoints
   * dangles: its dangle count reaches its endpoint count exactly then.
   */
  lemma DisconnectedIffAllDangle(roads: Dict<seq<Point>>, tolerance: real, fid: int)
    requires roads.Wf() && fid in roads.items
    ensures DangleCount(Dangles(roads, tolerance), fid) >= |roads.items[fid]| <==>
      forall i :: 0 <= i < |roads.items[fid]| ==> RoadEndpoints(fid, roads.items[fid])[i] in Dangles(roads, tolerance)
  {
    var all := AllEndpoints(roads.keys, roads.items);
    var cell, tolSq := CellFor(tolerance), tolerance * tolerance;
    var pts := roads.items[fid];
    CountAll(roads.keys, roads.items, fid);
    CountKept(all, all, cell, tolSq, fid);
    KeepDanglesMembers(all, all, cell, tolSq);
    forall e | e in all && e.fid == fid
      ensures 0 <= e.index < |pts| && e == RoadEndpoints(fid, pts)[e.index]
    {
      EndpointsFaithful(roads.keys, roads.items, e);
    }
    forall i | 0 <= i < |pts|
      ensures RoadEndpoints(fid, pts)[i] in all
    {
      EndpointsFaithful(roads.keys, roads.items, RoadEndpoints(fid, pts)[i]);
    }
  }

  /** The count a dangle-count map gives a road: 0 when the road has no entry. */
  function CountIn(dangleCount: map<int, int>, fid: int): int {
    if fid in dangleCount then dangleCount[fid] else 0
  }

  /** The counting pass of `find_disconnected`: the number of dangles of every road. */
  method CountDangles(dangles: seq<Endpoint>) returns (dangleCount: map<int, int>)
    ensures forall fid :: CountIn(dangleCount, fid) == DangleCount(dangles, fid)
  {
    dangleCount := map[];
    for n := 0 to |dangles|
      invariant forall fid :: CountIn(dangleCount, fid) == DangleCount(dangles[..n], fid)
    {
      var fid := dangles[n].fid;
      assert dangles[..n + 1][..n] == dangles[..n];
      dangleCount := dangleCount[fid := CountIn(dangleCount, fid) + 1];
    }
    assert dangles[..|dangles|] == dangles;
  }

  /** The selection of `find_disconnected`: in order, the roads whose count reaches their endpoint count. */
  method ListDisconnected(keys: seq<int>, items: map<int, seq<Point>>, dangleCount: map<int, int>)
    returns (disconnected: seq<int>)
    requires forall x :: x in keys ==> x in items
    ensures forall fid :: fid in disconnected <==>
      fid in keys && CountIn(dangleCount, fid) >= |items[fid]|
    ensures forall m, n :: 0 <= m < n < |disconnected| ==> Precedes(keys, disconnected[m], disconnected[n])
  {
    disconnected := [];
    // Position in `keys` of each listed road.
    ghost var pos: seq<int> := [];
    for k := 0 to |keys|
      invariant |pos| == |disconnected|
      invariant forall n :: 0 <= n < |disconnected| ==> 0 <= pos[n] < k && keys[pos[n]] == disconnected[n]
      invariant forall m, n :: 0 <= m < n < |disconnected| ==> pos[m] < pos[n]
      invariant forall x :: x in disconnected ==> x in keys && CountIn(dangleCount, x) >= |items[x]|
      invariant forall i :: 0 <= i < k && CountIn(dangleCount, keys[i]) >= |items[keys[i]]| ==>
        keys[i] in disconnected
    {
      var fid := keys[k];
      if CountIn(dangleCount, fid) >= |items[fid]| {
        disconnected := disconnected + [fid];
        pos := pos + [k];
      }
    }
    forall fid | fid in keys && CountIn(dangleCount, fid) >= |items[fid]|
      ensures fid in disconnected
    {
      var i := PositionOf(keys, fid);
    }
    forall m, n | 0 <= m < n < |disconnected|
      ensures Precedes(keys, disconnected[m], disconnected[n])
    {
      assert keys[pos[m]] == disconnected[m] && keys[pos[n]] == disconnected[n];
    }
  }

  /**
   * `find_disconnected`: the dangle list of `find_dangles`, and in input
   * order the roads whose dangle count reaches their endpoint count (so
   * every road with no endpoints).
   */
  method FindDisconnected(endpointsByRoad: Dict<seq<Point>>, tolerance: real)
    returns (disconnected: seq<int>, dangles: seq<Endpoint>)
    requires endpointsByRoad.Wf()
    ensures dangles == Dangles(endpointsByRoad, tolerance)
    ensures forall fid :: fid in disconnected <==>
      fid in endpointsByRoad.items && DangleCount(dangles, fid) >= |endpointsByRoad.items[fid]|
    ensures forall m, n :: 0 <= m < n < |disconnected| ==>
      Precedes(endpointsByRoad.keys, disconnected[m], disconnected[n])
  {
    dangles := FindDangles(endpointsByRoad, tolerance);
    var dangleCount := CountDangles(dangles);
    disconnected := ListDisconnected(endpointsByRoad.keys, endpointsByRoad.items, dangleCount);
  }

  // ----- self-intersections -----

  /** `_cross2d`: the signed area of the parallelogram spanned by OA and OB. */
  function Cross2d(o: Point, a: Point, b: Point): (area: real)
    ensures a == o || b == o || a == b ==> area == 0.0
  {
    (a.x - o.x) * (b.y - o.y) - (a.y - o.y) * (b.x - o.x)
  }

  /** Swapping the two arms flips the sign of the orientation. */
  lemma CrossAntisymmetric(o: Point, a: Point, b: Point)
    ensures Cross2d(o, a, b) == -Cross2d(o, b, a)
  {
  }

  /** `_on_segment`: `q` lies in the bounding box of segment `p`–`r`. */
  predicate OnSegment(p: Point, q: Point, r: Point): (on: bool)
    ensures q == p || q == r ==> on
    ensures p == r ==> (on <==> q == p)
  {
    Min(p.x, r.x) <= q.x <= Max(p.x, r.x) && Min(p.y, r.y) <= q.y <= Max(p.y, r.y)
  }

  /** Opposite strict signs. */
  predicate OppositeSigns(a: real, b: real) {
    (a > 0.0 && b < 0.0) || (a < 0.0 && b > 0.0)
  }

  /**
   * `_segments_cross`: a strict straddle both ways, or an endpoint of one
   * segment collinear with the other and inside its bounding box.
   */
  predicate SegmentsCross(p1: Point, q1: Point, p2: Point, q2: Point): (c: bool)
    ensures p1 == p2 || p1 == q2 || q1 == p2 || q1 == q2 ==> c
  {
    var d1 := Cross2d(p2, q2, p1);
    var d2 := Cross2d(p2, q2, q1);
    var d3 := Cross2d(p1, q1, p2);
    var d4 := Cross2d(p1, q1, q2);
    if OppositeSigns(d1, d2) && OppositeSigns(d3, d4) then true
    else if d1 == 0.0 && OnSegment(p2, p1, q2) then true
    else if d2 == 0.0 && OnSegment(p2, q1, q2) then true
    else if d3 == 0.0 && OnSegment(p1, p2, q1) then true
    else if d4 == 0.0 && OnSegment(p1, q2, q1) then true
    else false
  }

  /** The crossing test does not depend on which segment comes first. */
  lemma SegmentsCrossSymmetric(p1: Point, q1: Point, p2: Point, q2: Point)
    ensures SegmentsCross(p1, q1, p2, q2) == SegmentsCross(p2, q2, p1, q1)
  {
  }

  /** The rejection threshold on the denominator. */
  const ParallelEpsilon: real := 1e-12

  /** The cross product of the two direction vectors, as `_intersection_point` computes it. */
  function Denominator(p1: Point, q1: Point, p2: Point, q2: Point): real {
    (p1.x - q1.x) * (p2.y - q2.y) - (p1.y - q1.y) * (p2.x - q2.x)
  }

  /**
   * `_intersection_point`: none when the directions are (nearly) parallel,
   * otherwise the point where the line through `p1`–`q1` meets the line
   * through `p2`–`q2`.
   */
  function IntersectionPoint(p1: Point, q1: Point, p2: Point, q2: Point): (r: Option<Point>)
    ensures r.None? <==> -ParallelEpsilon < Denominator(p1, q1, p2, q2) < ParallelEpsilon
    ensures r.Some? ==> Cross2d(p1, q1, r.value) == 0.0 && Cross2d(p2, q2, r.value) == 0.0
  {
    var denom := Denominator(p1, q1, p2, q2);
    if -ParallelEpsilon < denom < ParallelEpsilon then None
    else
      var num := (p1.x - p2.x) * (p2.y - q2.y) - (p1.y - p2.y) * (p2.x - q2.x);
      var t := num / denom;
      var pt := Point(p1.x + t * (q1.x - p1.x), p1.y + t * (q1.y - p1.y));
      OnBothLines(p1, q1, p2, q2, num, denom, t, pt);
      Some(pt)
  }

  /** The parametric point `p1 + t (q1 - p1)` with `t = num / denom` lies on both lines. */
  lemma OnBothLines(p1: Point, q1: Point, p2: Point, q2: Point, num: real, denom: real, t: real, pt: Point)
    requires denom == Denominator(p1, q1, p2, q2) && denom != 0.0
    requires num == (p1.x - p2.x) * (p2.y - q2.y) - (p1.y - p2.y) * (p2.x - q2.x)
    requires t == num / denom
    requires pt == Point(p1.x + t * (q1.x - p1.x), p1.y + t * (q1.y - p1.y))
    ensures Cross2d(p1, q1, pt) == 0.0 && Cross2d(p2, q2, pt) == 0.0
  {
    assert t * denom == num;
    assert Cross2d(p1, q1, pt) == t * ((q1.x - p1.x) * (q1.y - p1.y) - (q1.y - p1.y) * (q1.x - p1.x));
    assert Cross2d(p2, q2, pt) == num - t * denom;
  }

  // ----- what a crossing means for the segments themselves -----

  /** The point `p + t (q - p)`: for `0 <= t <= 1`, a point of the closed segment `p`–`q`. */
  function Along(p: Point, q: Point, t: real): Point {
    Point(p.x + t * (q.x - p.x), p.y + t * (q.y - p.y))
  }

  /** `pt` is a point of the closed segment `p`–`q`. */
  ghost predicate OnClosedSegment(p: Point, q: Point, pt: Point) {
    exists t :: 0.0 <= t <= 1.0 && pt == Along(p, q, t)
  }

  /** A coordinate between two values stays within their minimum and maximum. */
  lemma BetweenCoord(a: real, b: real, t: real)
    requires 0.0 <= t <= 1.0
    ensures Min(a, b) <= a + t * (b - a) <= Max(a, b)
  {
    var d := b - a;
    assert t * d + (1.0 - t) * d == d;
    if d >= 0.0 {
      assert t * d >= 0.0 && (1.0 - t) * d >= 0.0;
    } else {
      assert t * d <= 0.0 && (1.0 - t) * d <= 0.0;
    }
  }

  /** Every point of a segment passes `_on_segment`'s box test, interior points included. */
  lemma OnSegmentInterior(p: Point, r: Point, t: real)
    requires 0.0 <= t <= 1.0
    ensures OnSegment(p, Along(p, r, t), r)
  {
    BetweenCoord(p.x, r.x, t);
    BetweenCoord(p.y, r.y, t);
  }

  /** Every point of a segment lies on the segment's line. */
  lemma AlongOnLine(p: Point, q: Point, t: real)
    ensures Cross2d(p, q, Along(p, q, t)) == 0.0
  {
    var vx, vy := q.x - p.x, q.y - p.y;
    assert Cross2d(p, q, Along(p, q, t)) == vx * (t * vy) - vy * (t * vx);
  }

  /** A quotient of a numerator between 0 and the denominator lies in [0, 1]. */
  lemma UnitQuotient(n: real, d: real)
    requires (d > 0.0 && 0.0 <= n <= d) || (d < 0.0 && d <= n <= 0.0)
    ensures 0.0 <= n / d <= 1.0
  {
    if d < 0.0 {
      assert n / d == (-n) / (-d);
    }
  }

  /**
   * On a line through the origin with direction `(vx, vy)`, `vx != 0`, the
   * offset `(wx, wy)` is `t (vx, vy)` for `t = wx / vx`.
   */
  lemma CollinearCoord(vx: real, vy: real, wx: real, wy: real)
    requires vx != 0.0 && vx * wy == vy * wx
    ensures (wx / vx) * vx == wx && (wx / vx) * vy == wy
  {
    var t := wx / vx;
    assert t * vx == wx;
    assert vx * wy == vx * (t * vy);
  }

  /** `pt` on the line of `p`–`q` and inside its box lies on the closed segment. */
  lemma CollinearInBox(p: Point, q: Point, pt: Point)
    requires Cross2d(p, q, pt) == 0.0 && OnSegment(p, pt, q)
    ensures OnClosedSegment(p, q, pt)
  {
    var vx, vy := q.x - p.x, q.y - p.y;
    var wx, wy := pt.x - p.x, pt.y - p.y;
    assert vx * wy == vy * wx;
    if vx != 0.0 {
      CollinearCoord(vx, vy, wx, wy);
      UnitQuotient(wx, vx);
      assert pt == Along(p, q, wx / vx);
    } else if vy != 0.0 {
      CollinearCoord(vy, vx, wy, wx);
      UnitQuotient(wy, vy);
      assert pt == Along(p, q, wy / vy);
    } else {
      assert pt == Along(p, q, 0.0);
    }
  }

  /** Cramer's rule for `t u - s v = w` when `u` and `v` are not parallel. */
  lemma Cramer(ux: real, uy: real, vx: real, vy: real, wx: real, wy: real, t: real, s: real)
    requires vx * uy - vy * ux != 0.0
    requires t * (vx * uy - vy * ux) == vx * wy - vy * wx
    requires s * (vx * uy - vy * ux) == ux * wy - uy * wx
    ensures t * ux - s * vx == wx && t * uy - s * vy == wy
  {
    var k := vx * uy - vy * ux;
    assert (t * ux - s * vx) * k == wx * k by {
      assert (t * ux - s * vx) * k == (t * k) * ux - (s * k) * vx;
    }
    assert (t * uy - s * vy) * k == wy * k by {
      assert (t * uy - s * vy) * k == (t * k) * uy - (s * k) * vy;
    }
  }

  /**
   * The crossing parameters of a strict straddle: `t = d1 / (d1 - d2)` and
   * `s = d3 / (d3 - d4)` lie in [0, 1] when the signs are opposite.
   */
  lemma StraddleParameters(d1: real, d2: real, d3: real, d4: real)
    requires OppositeSigns(d1, d2) && OppositeSigns(d3, d4) && d2 - d1 == d3 - d4
    ensures d2 - d1 != 0.0
    ensures 0.0 <= d1 / (d1 - d2) <= 1.0 && (d1 / (d1 - d2)) * (d2 - d1) == -d1
    ensures 0.0 <= d3 / (d3 - d4) <= 1.0 && (d3 / (d3 - d4)) * (d3 - d4) == d3
  {
    UnitQuotient(d1, d1 - d2);
    UnitQuotient(d3, d3 - d4);
    assert (d1 / (d1 - d2)) * (d1 - d2) == d1;
  }

  /** The orientation values of two segments, in terms of their directions `u`, `v` and the offset `w = p2 - p1`. */
  lemma StraddleAlgebra(p1: Point, q1: Point, p2: Point, q2: Point)
    ensures var ux, uy, vx, vy := q1.x - p1.x, q1.y - p1.y, q2.x - p2.x, q2.y - p2.y;
      var wx, wy := p2.x - p1.x, p2.y - p1.y;
      && Cross2d(p2, q2, p1) == vy * wx - vx * wy
      && Cross2d(p1, q1, p2) == ux * wy - uy * wx
      && Cross2d(p2, q2, q1) - Cross2d(p2, q2, p1) == vx * uy - vy * ux
      && Cross2d(p1, q1, p2) - Cross2d(p1, q1, q2) == vx * uy - vy * ux
  {
    var ux, uy, vx, vy := q1.x - p1.x, q1.y - p1.y, q2.x - p2.x, q2.y - p2.y;
    assert Cross2d(p2, q2, q1) - Cross2d(p2, q2, p1) == vx * (q1.y - p1.y) - vy * (q1.x - p1.x);
    assert Cross2d(p1, q1, p2) - Cross2d(p1, q1, q2) == ux * (p2.y - q2.y) - uy * (p2.x - q2.x);
  }

  /** Two segments that strictly straddle each other's lines meet at a point of both. */
  lemma StraddleMeet(p1: Point, q1: Point, p2: Point, q2: Point)
    requires OppositeSigns(Cross2d(p2, q2, p1), Cross2d(p2, q2, q1))
    requires OppositeSigns(Cross2d(p1, q1, p2), Cross2d(p1, q1, q2))
    ensures exists t, s :: 0.0 <= t <= 1.0 && 0.0 <= s <= 1.0 && Along(p1, q1, t) == Along(p2, q2, s)
  {
    var ux, uy := q1.x - p1.x, q1.y - p1.y;
    var vx, vy := q2.x - p2.x, q2.y - p2.y;
    var wx, wy := p2.x - p1.x, p2.y - p1.y;
    var d1, d2 := Cross2d(p2, q2, p1), Cross2d(p2, q2, q1);
    var d3, d4 := Cross2d(p1, q1, p2), Cross2d(p1, q1, q2);
    StraddleAlgebra(p1, q1, p2, q2);
    StraddleParameters(d1, d2, d3, d4);
    var t, s := d1 / (d1 - d2), d3 / (d3 - d4);
    Cramer(ux, uy, vx, vy, wx, wy, t, s);
    assert Along(p1, q1, t) == Along(p2, q2, s);
  }

  /** `_segments_cross` is sound: crossing segments have a point in common. */
  lemma SegmentsCrossSound(p1: Point, q1: Point, p2: Point, q2: Point)
    requires SegmentsCross(p1, q1, p2, q2)
    ensures exists t, s :: 0.0 <= t <= 1.0 && 0.0 <= s <= 1.0 && Along(p1, q1, t) == Along(p2, q2, s)
  {
    var d1, d2 := Cross2d(p2, q2, p1), Cross2d(p2, q2, q1);
    var d3, d4 := Cross2d(p1, q1, p2), Cross2d(p1, q1, q2);
    assert Along(p1, q1, 0.0) == p1 && Along(p1, q1, 1.0) == q1;
    assert Along(p2, q2, 0.0) == p2 && Along(p2, q2, 1.0) == q2;
    if OppositeSigns(d1, d2) && OppositeSigns(d3, d4) {
      StraddleMeet(p1, q1, p2, q2);
    } else if d1 == 0.0 && OnSegment(p2, p1, q2) {
      CollinearInBox(p2, q2, p1);
      var s :| 0.0 <= s <= 1.0 && p1 == Along(p2, q2, s);
      assert Along(p1, q1, 0.0) == Along(p2, q2, s);
    } else if d2 == 0.0 && OnSegment(p2, q1, q2) {
      CollinearInBox(p2, q2, q1);
      var s :| 0.0 <= s <= 1.0 && q1 == Along(p2, q2, s);
      assert Along(p1, q1, 1.0) == Along(p2, q2, s);
    } else if d3 == 0.0 && OnSegment(p1, p2, q1) {
      CollinearInBox(p1, q1, p2);
      var t :| 0.0 <= t <= 1.0 && p2 == Along(p1, q1, t);
      assert Along(p1, q1, t) == Along(p2, q2, 0.0);
    } else {
      CollinearInBox(p1, q1, q2);
      var t :| 0.0 <= t <= 1.0 && q2 == Along(p1, q1, t);
      assert Along(p1, q1, t) == Along(p2, q2, 1.0);
    }
  }

  /** Two lines that are not parallel meet in at most one point. */
  lemma LinesMeetOnce(p1: Point, q1: Point, p2: Point, q2: Point, a: Point, b: Point)
    requires Denominator(p1, q1, p2, q2) != 0.0
    requires Cross2d(p1, q1, a) == 0.0 && Cross2d(p1, q1, b) == 0.0
    requires Cross2d(p2, q2, a) == 0.0 && Cross2d(p2, q2, b) == 0.0
    ensures a == b
  {
    var ux, uy := q1.x - p1.x, q1.y - p1.y;
    var vx, vy := q2.x - p2.x, q2.y - p2.y;
    var dx, dy := a.x - b.x, a.y - b.y;
    var denom := Denominator(p1, q1, p2, q2);
    assert Cross2d(p1, q1, a) - Cross2d(p1, q1, b) == ux * dy - uy * dx;
    assert Cross2d(p2, q2, a) - Cross2d(p2, q2, b) == vx * dy - vy * dx;
    assert denom == ux * vy - uy * vx;
    assert dx * denom == 0.0 by {
      assert dx * denom == ux * (vy * dx) - vx * (uy * dx);
      assert ux * (vy * dx) == ux * (vx * dy);
      assert vx * (uy * dx) == vx * (ux * dy);
    }
    assert dy * denom == 0.0 by {
      assert dy * denom == vy * (ux * dy) - uy * (vx * dy);
      assert vy * (ux * dy) == vy * (uy * dx);
      assert uy * (vx * dy) == uy * (vy * dx);
    }
  }

  /**
   * `_intersection_point` applied to two crossing segments returns a point
   * of both segments, not merely of their lines.
   */
  lemma CrossingPointOnSegments(p1: Point, q1: Point, p2: Point, q2: Point)
    requires SegmentsCross(p1, q1, p2, q2)
    requires IntersectionPoint(p1, q1, p2, q2).Some?
    ensures OnClosedSegment(p1, q1, IntersectionPoint(p1, q1, p2, q2).value)
    ensures OnClosedSegment(p2, q2, IntersectionPoint(p1, q1, p2, q2).value)
  {
    var pt := IntersectionPoint(p1, q1, p2, q2).value;
    SegmentsCrossSound(p1, q1, p2, q2);
    var t, s :| 0.0 <= t <= 1.0 && 0.0 <= s <= 1.0 && Along(p1, q1, t) == Along(p2, q2, s);
    var x := Along(p1, q1, t);
    AlongOnLine(p1, q1, t);
    AlongOnLine(p2, q2, s);
    LinesMeetOnce(p1, q1, p2, q2, x, pt);
  }

  /** Segment `i` and the non-adjacent segment `j` of `part` cross, and their lines meet at `pt`. */
  predicate CrossesAt(part: seq<Point>, i: int, j: int, pt: Point) {
    && 0 <= i && i + 2 <= j && j + 1 < |part|
    && SegmentsCross(part[i], part[i + 1], part[j], part[j + 1])
    && IntersectionPoint(part[i], part[i + 1], part[j], part[j + 1]) == Some(pt)
  }

  /** The point reported for segment `i`, trying partners from `j` upward. */
  function CrossingFrom(part: seq<Point>, i: int, j: int): Option<Point>
    requires 0 <= i && i + 1 < |part| && 0 <= j
    decreases |part| - j
  {
    if j + 1 >= |part| then None
    else if SegmentsCross(part[i], part[i + 1], part[j], part[j + 1])
         && IntersectionPoint(part[i], part[i + 1], part[j], part[j + 1]).Some?
    then IntersectionPoint(part[i], part[i + 1], part[j], part[j + 1])
    else CrossingFrom(part, i, j + 1)
  }

  /** The point reported for `part`, trying segments from `i` upward. */
  function CrossingInPart(part: seq<Point>, i: int): Option<Point>
    requires 0 <= i
    decreases |part| - i
  {
    if i + 1 >= |part| then None
    else match CrossingFrom(part, i, i + 2)
      case Some(pt) => Some(pt)
      case None => CrossingInPart(part, i + 1)
  }

  /** The point reported for a road: from its first part of at least 4 vertices that has one. */
  function FirstCrossing(parts: seq<seq<Point>>, k: nat): Option<Point>
    decreases |parts| - k
  {
    if k >= |parts| then None
    else if |parts[k]| < 4 then FirstCrossing(parts, k + 1)
    else match CrossingInPart(parts[k], 0)
      case Some(pt) => Some(pt)
      case None => FirstCrossing(parts, k + 1)
  }

  /**
   * `CrossingFrom` finds a crossing iff some later partner crosses; what it
   * finds is the crossing with the least such partner.
   */
  lemma {:induction false} CrossingFromSound(part: seq<Point>, i: int, j: int)
    requires 0 <= i && i + 1 < |part| && i + 2 <= j
    ensures CrossingFrom(part, i, j).Some? ==>
      exists j' :: j <= j' && CrossesAt(part, i, j', CrossingFrom(part, i, j).value)
        && forall j'', pt :: j <= j'' < j' ==> !CrossesAt(part, i, j'', pt)
    ensures CrossingFrom(part, i, j).None? <==> forall j', pt :: j <= j' ==> !CrossesAt(part, i, j', pt)
    decreases |part| - j
  {
    if j + 1 < |part| {
      var p := IntersectionPoint(part[i], part[i + 1], part[j], part[j + 1]);
      if SegmentsCross(part[i], part[i + 1], part[j], part[j + 1]) && p.Some? {
        assert CrossesAt(part, i, j, p.value);
      } else {
        CrossingFromSound(part, i, j + 1);
        forall j', pt | j <= j' && CrossesAt(part, i, j', pt) ensures j + 1 <= j' {
        }
        if CrossingFrom(part, i, j).Some? {
          var v := CrossingFrom(part, i, j).value;
          var j' :| j + 1 <= j' && CrossesAt(part, i, j', v)
            && forall j'', pt :: j + 1 <= j'' < j' ==> !CrossesAt(part, i, j'', pt);
          assert forall j'', pt :: j <= j'' < j' ==> !CrossesAt(part, i, j'', pt);
        }
      }
    }
  }

  /**
   * `CrossingInPart` finds a crossing iff some pair of non-adjacent segments
   * crosses; what it finds is the crossing of the least such pair, segment
   * first, then partner.
   */
  lemma {:induction false} CrossingInPartSound(part: seq<Point>, i: int)
    requires 0 <= i
    ensures CrossingInPart(part, i).Some? ==>
      exists i', j :: i <= i' && CrossesAt(part, i', j, CrossingInPart(part, i).value)
        && (forall i'', j'', pt :: i <= i'' < i' ==> !CrossesAt(part, i'', j'', pt))
        && (forall j'', pt :: j'' < j ==> !CrossesAt(part, i', j'', pt))
    ensures CrossingInPart(part, i).None? <==> forall i', j, pt :: i <= i' ==> !CrossesAt(part, i', j, pt)
    decreases |part| - i
  {
    if i + 1 < |part| {
      CrossingFromSound(part, i, i + 2);
      CrossingInPartSound(part, i + 1);
      forall i', j, pt | i <= i' && CrossesAt(part, i', j, pt) && CrossingFrom(part, i, i + 2).None?
        ensures i + 1 <= i'
      {
      }
      match CrossingFrom(part, i, i + 2)
      case Some(v) =>
        var j :| i + 2 <= j && CrossesAt(part, i, j, v)
          && forall j'', pt :: i + 2 <= j'' < j ==> !CrossesAt(part, i, j'', pt);
        assert forall j'', pt :: j'' < j ==> !CrossesAt(part, i, j'', pt);
      case None =>
        if CrossingInPart(part, i).Some? {
          var v := CrossingInPart(part, i).value;
          var i', j :| i + 1 <= i' && CrossesAt(part, i', j, v)
            && (forall i'', j'', pt :: i + 1 <= i'' < i' ==> !CrossesAt(part, i'', j'', pt))
            && (forall j'', pt :: j'' < j ==> !CrossesAt(part, i', j'', pt));
          assert forall i'', j'', pt :: i <= i'' < i' ==> !CrossesAt(part, i'', j'', pt);
        }
    }
  }

  /**
   * A road gets a point iff one of its parts has two non-adjacent segments
   * that cross with non-parallel lines. The point is where the first such
   * pair meets: in the first part that has one, at the least segment and
   * then the least partner. Parts under 4 vertices have no such pair.
   */
  lemma {:induction false} FirstCrossingSound(parts: seq<seq<Point>>, k: nat)
    ensures FirstCrossing(parts, k).Some? ==>
      exists m, i, j :: k <= m < |parts| && CrossesAt(parts[m], i, j, FirstCrossing(parts, k).value)
        && (forall m'', i'', j'', pt :: k <= m'' < m ==> !CrossesAt(parts[m''], i'', j'', pt))
        && (forall i'', j'', pt :: i'' < i ==> !CrossesAt(parts[m], i'', j'', pt))
        && (forall j'', pt :: j'' < j ==> !CrossesAt(parts[m], i, j'', pt))
    ensures FirstCrossing(parts, k).None? <==>
      forall m, i, j, pt :: k <= m < |parts| ==> !CrossesAt(parts[m], i, j, pt)
    decreases |parts| - k
  {
    if k < |parts| {
      FirstCrossingSound(parts, k + 1);
      CrossingInPartSound(parts[k], 0);
      forall m, i, j, pt | k <= m < |parts| && CrossesAt(parts[m], i, j, pt)
        && (|parts[k]| < 4 || CrossingInPart(parts[k], 0).None?)
        ensures k + 1 <= m
      {
      }
      if |parts[k]| >= 4 && CrossingInPart(parts[k], 0).Some? {
        var v := CrossingInPart(parts[k], 0).value;
        var i, j :| 0 <= i && CrossesAt(parts[k], i, j, v)
          && (forall i'', j'', pt :: 0 <= i'' < i ==> !CrossesAt(parts[k], i'', j'', pt))
          && (forall j'', pt :: j'' < j ==> !CrossesAt(parts[k], i, j'', pt));
        assert forall i'', j'', pt :: i'' < i ==> !CrossesAt(parts[k], i'', j'', pt);
      } else if FirstCrossing(parts, k).Some? {
        var v := FirstCrossing(parts, k).value;
        var m, i, j :| k + 1 <= m < |parts| && CrossesAt(parts[m], i, j, v)
          && (forall m'', i'', j'', pt :: k + 1 <= m'' < m ==> !CrossesAt(parts[m''], i'', j'', pt))
          && (forall i'', j'', pt :: i'' < i ==> !CrossesAt(parts[m], i'', j'', pt))
          && (forall j'', pt :: j'' < j ==> !CrossesAt(parts[m], i, j'', pt));
        assert forall m'', i'', j'', pt :: k <= m'' < m ==> !CrossesAt(parts[m''], i'', j'', pt);
      }
    }
  }

  /** One `(road_fid, ix, iy)` entry. */
  datatype Crossing = Crossing(fid: int, x: real, y: real)

  /** The entries for the roads listed in `keys`, in order. */
  function SelfIntersections(keys: seq<int>, items: map<int, seq<seq<Point>>>): seq<Crossing>
    requires forall i :: 0 <= i < |keys| ==> keys[i] in items
  {
    if keys == [] then []
    else
      var fid := keys[|keys| - 1];
      SelfIntersections(keys[..|keys| - 1], items)
        + match FirstCrossing(items[fid], 0)
          case Some(pt) => [Crossing(fid, pt.x, pt.y)]
          case None => []
  }

  /** Each entry names a listed road, and the entries follow the road order, one at most per road. */
  lemma {:induction false} AtMostOnePerRoad(keys: seq<int>, items: map<int, seq<seq<Point>>>)
    requires forall i :: 0 <= i < |keys| ==> keys[i] in items
    ensures forall c :: c in SelfIntersections(keys, items) ==> c.fid in keys
    ensures forall m, n :: 0 <= m < n < |SelfIntersections(keys, items)| ==>
      Precedes(keys, SelfIntersections(keys, items)[m].fid, SelfIntersections(keys, items)[n].fid)
  {
    if keys != [] {
      var front, fid := keys[..|keys| - 1], keys[|keys| - 1];
      AtMostOnePerRoad(front, items);
      var rs := SelfIntersections(keys, items);
      var before := SelfIntersections(front, items);
      assert keys == front + [fid];
      forall m, n | 0 <= m < n < |rs|
        ensures Precedes(keys, rs[m].fid, rs[n].fid)
      {
        if n < |before| {
          assert rs[m] == before[m] && rs[n] == before[n];
          var a, b :| 0 <= a < b < |front| && front[a] == before[m].fid && front[b] == before[n].fid;
          assert keys[a] == front[a] && keys[b] == front[b];
        } else {
          assert rs[m] == before[m] && rs[n].fid == fid;
          assert rs[m] in before;
          var a := PositionOf(front, rs[m].fid);
          assert keys[a] == rs[m].fid && keys[|keys| - 1] == fid;
        }
      }
    }
  }

  /** The inner loop: the first later partner segment `j` that crosses segment `i`. */
  method ScanSegment(part: seq<Point>, i: int) returns (pt: Option<Point>)
    requires 0 <= i && i + 1 < |part|
    ensures pt == CrossingFrom(part, i, i + 2)
  {
    pt := None;
    var j := i + 2;
    while j < |part| - 1
      invariant i + 2 <= j
      invariant CrossingFrom(part, i, i + 2) == CrossingFrom(part, i, j)
      decreases |part| - j
    {
      if SegmentsCross(part[i], part[i + 1], part[j], part[j + 1]) {
        var p := IntersectionPoint(part[i], part[i + 1], part[j], part[j + 1]);
        if p.Some? {
          pt := p;
          return;
        }
      }
      j := j + 1;
    }
  }

  /** The loop over the segments of one part with at least 4 vertices. */
  method ScanPart(part: seq<Point>) returns (pt: Option<Point>)
    requires |part| >= 4
    ensures pt == CrossingInPart(part, 0)
  {
    pt := None;
    var found := false;
    for i := 0 to |part| - 1
      invariant !found && pt.None?
      invariant CrossingInPart(part, 0) == CrossingInPart(part, i)
    {
      pt := ScanSegment(part, i);
      if pt.Some? {
        found := true;
        break;
      }
    }
  }

  /**
   * `find_self_intersections`: for each road in order, the first crossing
   * of two non-adjacent segments of one of its parts, at most one per road.
   */
  method FindSelfIntersections(verticesByRoad: Dict<seq<seq<Point>>>) returns (results: seq<Crossing>)
    requires verticesByRoad.Wf()
    ensures results == SelfIntersections(verticesByRoad.keys, verticesByRoad.items)
  {
    var keys, items := verticesByRoad.keys, verticesByRoad.items;
    results := [];
    for k := 0 to |keys|
      invariant results == SelfIntersections(keys[..k], items)
    {
      var fid := keys[k];
      var parts := items[fid];
      assert keys[..k + 1][..k] == keys[..k];
      var found := false;
      for m := 0 to |parts|
        invariant !found
        invariant results == SelfIntersections(keys[..k], items)
        invariant FirstCrossing(parts, 0) == FirstCrossing(parts, m)
      {
        var part := parts[m];
        if |part| < 4 {
          continue;
        }
        var pt := ScanPart(part);
        if pt.Some? {
          results := results + [Crossing(fid, pt.value.x, pt.value.y)];
          found := true;
          break;
        }
      }
    }
    assert keys[..|keys|] == keys;
  }

  /** The bow tie (0,0)-(2,2)-(0,2)-(2,0): its first and last segments meet at (1,1). */
  lemma BowTieMeet()
    ensures SegmentsCross(Point(0.0, 0.0), Point(2.0, 2.0), Point(0.0, 2.0), Point(2.0, 0.0))
    ensures IntersectionPoint(Point(0.0, 0.0), Point(2.0, 2.0), Point(0.0, 2.0), Point(2.0, 0.0))
         == Some(Point(1.0, 1.0))
  {
  }

  /** A road of one part whose first crossing is found by segment 0 at partner `j`. */
  lemma ReportedAtFirstSegment(part: seq<Point>, j: int, pt: Point)
    requires |part| >= 4 && 2 <= j && j + 1 < |part|
    requires forall j' :: 2 <= j' < j ==> !SegmentsCross(part[0], part[1], part[j'], part[j' + 1])
    requires SegmentsCross(part[0], part[1], part[j], part[j + 1])
    requires IntersectionPoint(part[0], part[1], part[j], part[j + 1]) == Some(pt)
    ensures FirstCrossing([part], 0) == Some(pt)
  {
    var k := j;
    while k > 2
      invariant 2 <= k <= j
      invariant CrossingFrom(part, 0, k) == Some(pt)
    {
      k := k - 1;
    }
    assert [part][0] == part;
  }

  /** The bow tie crosses itself at (1,1). */
  lemma ExampleBowTie(bowTie: seq<Point>)
    requires |bowTie| == 4 && bowTie[0] == Point(0.0, 0.0) && bowTie[1] == Point(2.0, 2.0)
    requires bowTie[2] == Point(0.0, 2.0) && bowTie[3] == Point(2.0, 0.0)
    ensures FirstCrossing([bowTie], 0) == Some(Point(1.0, 1.0))
  {
    BowTieMeet();
    ReportedAtFirstSegment(bowTie, 2, Point(1.0, 1.0));
  }

  /** In the closed triangle ring (0,0)-(1,0)-(0,1)-(0,0), the first and closing segments meet at the origin. */
  lemma TriangleClosingMeet()
    ensures SegmentsCross(Point(0.0, 0.0), Point(1.0, 0.0), Point(0.0, 1.0), Point(0.0, 0.0))
    ensures IntersectionPoint(Point(0.0, 0.0), Point(1.0, 0.0), Point(0.0, 1.0), Point(0.0, 0.0))
         == Some(Point(0.0, 0.0))
  {
    assert Denominator(Point(0.0, 0.0), Point(1.0, 0.0), Point(0.0, 1.0), Point(0.0, 0.0)) == -1.0;
  }

  /**
   * A closed ring whose last vertex repeats the first is reported at that
   * vertex: the first and last segments are not adjacent by index but
   * share it.
   */
  lemma ExampleClosedRing(ring: seq<Point>)
    requires |ring| == 4 && ring[0] == Point(0.0, 0.0) && ring[1] == Point(1.0, 0.0)
    requires ring[2] == Point(0.0, 1.0) && ring[3] == Point(0.0, 0.0)
    ensures FirstCrossing([ring], 0) == Some(Point(0.0, 0.0))
  {
    assert SegmentsCross(ring[0], ring[1], ring[2], ring[3])
        && IntersectionPoint(ring[0], ring[1], ring[2], ring[3]) == Some(Point(0.0, 0.0)) by { TriangleClosingMeet(); }
    ReportedAtFirstSegment(ring, 2, Point(0.0, 0.0));
  }
}
