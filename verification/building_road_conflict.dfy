// The building–road conflict checker: buildings are indexed on a grid,
// every valid road is buffered once, and each buffer is looked up in the
// index to find the buildings it overlaps by at least a minimum area.

module BuildingRoadConflict {
  import opened Basics
  import opened Geometry
  import opened SpatialIndexing
  import opened SpatialOps
  import BuildingOverlap

  /** One conflict record: a building, the road whose buffer it meets, their intersection and its area. */
  datatype ConflictResult = ConflictResult(
    buildingFid: int,
    roadFid: int,
    conflictGeometry: Geometry,
    conflictArea: real,
    roadBufferDistance: real)

  /**
   * A parameter given as `value or default`: the caller's value unless it
   * is missing or zero, in which case the configured one.
   */
  function OrDefault(value: Option<real>, configured: real): (r: real)
    ensures value.Some? && value.value != 0.0 ==> r == value.value
    ensures value.None? || value.value == 0.0 ==> r == configured
  {
    match value
    case None => configured
    case Some(v) => if v == 0.0 then configured else v
  }

  /**
   * An explicit zero is where this checker's fallback and the overlap
   * checker's differ: there it is kept, here it is replaced.
   */
  lemma ZeroOverride(configured: real)
    requires configured != 0.0
    ensures OrDefault(Some(0.0), configured) == configured
    ensures BuildingOverlap.EffectiveMinArea(Some(0.0), configured) == 0.0
    ensures OrDefault(Some(0.0), configured) != BuildingOverlap.EffectiveMinArea(Some(0.0), configured)
  {
  }

  /** Both fallbacks agree on every value except zero. */
  lemma FallbacksAgree(value: Option<real>, configured: real)
    requires value != Some(0.0)
    ensures OrDefault(value, configured) == BuildingOverlap.EffectiveMinArea(value, configured)
  {
  }

  /**
   * The grid cell size: three times the average building size (at least
   * 10), but never under twice the buffer distance. The average divides by
   * at least 1, so it is defined when no building has an extent.
   */
  function ConflictCellSize(totalWidth: real, totalHeight: real, n: nat, bufferDistance: real): (cs: real)
    ensures cs >= 30.0 && cs >= 2.0 * bufferDistance
    ensures n > 0 ==> cs >= 3.0 * (totalWidth + totalHeight) / (2.0 * n as real)
    ensures n == 0 ==> cs >= 3.0 * (totalWidth + totalHeight) / 2.0
    ensures cs == 30.0 || cs == 2.0 * bufferDistance
      || cs == 3.0 * (totalWidth + totalHeight) / (2.0 * (if n > 0 then n else 1) as real)
  {
    var avgSize := Max((totalWidth + totalHeight) / (2.0 * (if n > 0 then n else 1) as real), 10.0);
    Max(avgSize * 3.0, bufferDistance * 2.0)
  }

  /** A road that gets checked: a valid line whose buffer exists and has an extent. */
  predicate Buffered(p: Provider, road: Geometry, bufferDistance: real) {
    && ValidLine(road)
    && Buffer(p, road, bufferDistance).Some?
    && GetExtent(Buffer(p, road, bufferDistance).value).Some?
  }

  /** A building in conflict with a road: the road is checked and the building meets its buffer. */
  predicate Conflicting(p: Provider, building: Geometry, road: Geometry, bufferDistance: real, minArea: real) {
    && Buffered(p, road, bufferDistance)
    && var buffer := Buffer(p, road, bufferDistance).value;
       MeetsBuffer(p, building, buffer, GetExtent(buffer).value, minArea)
  }

  /** A record for road `roadFid` with buffer `buffer`: a building meeting it, their intersection and its area. */
  ghost predicate ConflictWith(p: Provider, buildings: Dict<Geometry>, roadFid: int, buffer: Geometry,
                               bufferExtent: Box, bufferDistance: real, minArea: real, c: ConflictResult)
  {
    && c.buildingFid in buildings.items && c.roadFid == roadFid
    && MeetsBuffer(p, buildings.items[c.buildingFid], buffer, bufferExtent, minArea)
    && Intersection(p, buildings.items[c.buildingFid], buffer) == Some(c.conflictGeometry)
    && c.conflictArea == Area(c.conflictGeometry)
    && c.roadBufferDistance == bufferDistance
  }

  /** What every record of the search satisfies. */
  ghost predicate IsConflict(p: Provider, buildings: Dict<Geometry>, roads: Dict<Geometry>,
                             bufferDistance: real, minArea: real, c: ConflictResult)
  {
    && c.roadFid in roads.items
    && Buffered(p, roads.items[c.roadFid], bufferDistance)
    && var buffer := Buffer(p, roads.items[c.roadFid], bufferDistance).value;
       ConflictWith(p, buildings, c.roadFid, buffer, GetExtent(buffer).value, bufferDistance, minArea, c)
  }

  /** Some record pairs building `b` with road `r`. */
  ghost predicate HasConflict(results: seq<ConflictResult>, b: int, r: int) {
    exists n :: 0 <= n < |results| && results[n].buildingFid == b && results[n].roadFid == r
  }

  /** No (building, road) pair is recorded twice. */
  ghost predicate UniquePairs(results: seq<ConflictResult>) {
    forall m, n :: 0 <= m < n < |results| ==>
      (results[m].buildingFid, results[m].roadFid) != (results[n].buildingFid, results[n].roadFid)
  }

  /** The buffer of one road and its extent, when the road is checked. */
  method BufferRoad(p: Provider, road: Geometry, bufferDistance: real) returns (r: Option<(Geometry, Box)>)
    ensures r.Some? <==> Buffered(p, road, bufferDistance)
    ensures r.Some? ==>
      r.value.0 == Buffer(p, road, bufferDistance).value && r.value.1 == GetExtent(r.value.0).value
  {
    if !ValidLine(road) {
      return None;
    }
    var b := Buffer(p, road, bufferDistance);
    if b.None? {
      return None;
    }
    var bext := GetExtent(b.value);
    if bext.None? {
      return None;
    }
    return Some((b.value, bext.value));
  }

  /**
   * After `k` roads of the pre-buffering pass: every checked road among
   * them is buffered, in road order (`pos` gives each one's position), and
   * nothing else is.
   */
  ghost predicate BufferedSoFar(p: Provider, roads: Dict<Geometry>, bufferDistance: real, buffered: Dict<Geometry>,
                                bufferedExtents: map<int, Box>, pos: seq<int>, k: int)
    requires roads.Wf()
  {
    && 0 <= k <= |roads.keys|
    && buffered.Wf() && |pos| == |buffered.keys|
    && (forall n :: 0 <= n < |pos| ==> 0 <= pos[n] < k && roads.keys[pos[n]] == buffered.keys[n])
    && (forall m, n :: 0 <= m < n < |pos| ==> pos[m] < pos[n])
    && (forall i :: 0 <= i < k && Buffered(p, roads.items[roads.keys[i]], bufferDistance) ==>
          roads.keys[i] in buffered.items)
    && (forall r :: r in buffered.items ==>
          && r in roads.items && Buffered(p, roads.items[r], bufferDistance)
          && buffered.items[r] == Buffer(p, roads.items[r], bufferDistance).value
          && r in bufferedExtents && bufferedExtents[r] == GetExtent(buffered.items[r]).value)
  }

  /** Road `k` has not been buffered before its turn. */
  lemma NotYetBuffered(p: Provider, roads: Dict<Geometry>, bufferDistance: real, buffered: Dict<Geometry>,
                       bufferedExtents: map<int, Box>, pos: seq<int>, k: int)
    requires roads.Wf() && BufferedSoFar(p, roads, bufferDistance, buffered, bufferedExtents, pos, k)
    requires k < |roads.keys|
    ensures roads.keys[k] !in buffered.items
  {
    if roads.keys[k] in buffered.items {
      var n := PositionOf(buffered.keys, roads.keys[k]);
      assert false;
    }
  }

  /** Road `k` is checked: it is appended with its buffer and extent. */
  lemma BufferStep(p: Provider, roads: Dict<Geometry>, bufferDistance: real, buffered: Dict<Geometry>,
                   bufferedExtents: map<int, Box>, pos: seq<int>, k: int, g: Geometry, e: Box)
    requires roads.Wf() && BufferedSoFar(p, roads, bufferDistance, buffered, bufferedExtents, pos, k)
    requires k < |roads.keys| && Buffered(p, roads.items[roads.keys[k]], bufferDistance)
    requires g == Buffer(p, roads.items[roads.keys[k]], bufferDistance).value && e == GetExtent(g).value
    ensures var fid := roads.keys[k];
      BufferedSoFar(p, roads, bufferDistance, Dict(buffered.keys + [fid], buffered.items[fid := g]),
                    bufferedExtents[fid := e], pos + [k], k + 1)
  {
    var fid := roads.keys[k];
    NotYetBuffered(p, roads, bufferDistance, buffered, bufferedExtents, pos, k);
    AppendKeepsWf(buffered, fid, g);
    var keys' := buffered.keys + [fid];
    var pos' := pos + [k];
    forall n | 0 <= n < |pos'| ensures 0 <= pos'[n] < k + 1 && roads.keys[pos'[n]] == keys'[n] {
      if n < |pos| {
        assert pos'[n] == pos[n] && keys'[n] == buffered.keys[n];
      }
    }
  }

  /** Road `k` is not checked: nothing changes. */
  lemma BufferSkip(p: Provider, roads: Dict<Geometry>, bufferDistance: real, buffered: Dict<Geometry>,
                   bufferedExtents: map<int, Box>, pos: seq<int>, k: int)
    requires roads.Wf() && BufferedSoFar(p, roads, bufferDistance, buffered, bufferedExtents, pos, k)
    requires k < |roads.keys| && !Buffered(p, roads.items[roads.keys[k]], bufferDistance)
    ensures BufferedSoFar(p, roads, bufferDistance, buffered, bufferedExtents, pos, k + 1)
  {
  }

  /**
   * The pre-buffering pass: the buffer and its extent for every checked
   * road, in road order.
   */
  method BufferRoads(p: Provider, roads: Dict<Geometry>, bufferDistance: real)
    returns (buffered: Dict<Geometry>, bufferedExtents: map<int, Box>)
    requires roads.Wf()
    ensures buffered.Wf()
    ensures forall r :: r in roads.items && Buffered(p, roads.items[r], bufferDistance) ==> r in buffered.items
    ensures forall r :: r in buffered.items ==>
      && r in roads.items && Buffered(p, roads.items[r], bufferDistance)
      && buffered.items[r] == Buffer(p, roads.items[r], bufferDistance).value
      && r in bufferedExtents && bufferedExtents[r] == GetExtent(buffered.items[r]).value
    ensures forall i, j :: 0 <= i < j < |buffered.keys| ==> Precedes(roads.keys, buffered.keys[i], buffered.keys[j])
  {
    var keys, items := roads.keys, roads.items;
    buffered := Dict([], map[]);
    bufferedExtents := map[];
    // Position in `keys` of each buffered road.
    ghost var pos: seq<int> := [];
    for k := 0 to |keys|
      invariant BufferedSoFar(p, roads, bufferDistance, buffered, bufferedExtents, pos, k)
    {
      var roadFid := keys[k];
      var b := BufferRoad(p, items[roadFid], bufferDistance);
      if b.Some? {
        BufferStep(p, roads, bufferDistance, buffered, bufferedExtents, pos, k, b.value.0, b.value.1);
        buffered := Dict(buffered.keys + [roadFid], buffered.items[roadFid := b.value.0]);
        bufferedExtents := bufferedExtents[roadFid := b.value.1];
        pos := pos + [k];
      } else {
        BufferSkip(p, roads, bufferDistance, buffered, bufferedExtents, pos, k);
      }
    }
    forall r | r in items && Buffered(p, items[r], bufferDistance) ensures r in buffered.items {
      var i := PositionOf(keys, r);
    }
    forall i, j | 0 <= i < j < |buffered.keys|
      ensures Precedes(keys, buffered.keys[i], buffered.keys[j])
    {
      assert keys[pos[i]] == buffered.keys[i] && keys[pos[j]] == buffered.keys[j];
    }
  }

  /** The tests one candidate building goes through against one road buffer. */
  method CheckCandidate(p: Provider, buildings: Dict<Geometry>, buildingExtents: map<int, Box>, buildingFid: int,
                        roadFid: int, buffered: Geometry, bufferExtent: Box, bufferDistance: real, minArea: real)
    returns (hit: Option<ConflictResult>)
    requires ExtentsOf(buildings, buildingExtents)
    ensures hit.Some? <==>
      buildingFid in buildings.items && MeetsBuffer(p, buildings.items[buildingFid], buffered, bufferExtent, minArea)
    ensures hit.Some? ==>
      && hit.value.buildingFid == buildingFid
      && ConflictWith(p, buildings, roadFid, buffered, bufferExtent, bufferDistance, minArea, hit.value)
  {
    if buildingFid !in buildings.items {
      return None;
    }
    var buildingGeom := buildings.items[buildingFid];
    if !ValidPolygon(buildingGeom) {
      return None;
    }
    if buildingFid !in buildingExtents {
      return None;
    }
    var buildingExtent := buildingExtents[buildingFid];
    if !ExtentsIntersect(bufferExtent, buildingExtent) {
      return None;
    }
    var intersection := Intersection(p, buildingGeom, buffered);
    if intersection.None? {
      return None;
    }
    var conflictArea := Area(intersection.value);
    if conflictArea < minArea {
      return None;
    }
    return Some(ConflictResult(buildingFid, roadFid, intersection.value, conflictArea, bufferDistance));
  }

  /** A pair stays recorded when a record is appended. */
  lemma HasConflictGrows(results: seq<ConflictResult>, c: ConflictResult, b: int, r: int)
    requires HasConflict(results, b, r)
    ensures HasConflict(results + [c], b, r)
  {
    var n :| 0 <= n < |results| && results[n].buildingFid == b && results[n].roadFid == r;
    assert (results + [c])[n] == results[n];
  }

  /**
   * One road: every building the index returns for the buffer's extent is
   * tested; each building meeting the buffer is recorded, once.
   */
  method ConflictsForRoad(p: Provider, buildings: Dict<Geometry>, buildingExtents: map<int, Box>,
                          index: SpatialIndex, roadFid: int, buffered: Geometry, bufferExtent: Box,
                          bufferDistance: real, minArea: real)
    returns (hits: seq<ConflictResult>)
    requires index.Valid() && ExtentsOf(buildings, buildingExtents) && index.extents == buildingExtents
    ensures forall n :: 0 <= n < |hits| ==>
      ConflictWith(p, buildings, roadFid, buffered, bufferExtent, bufferDistance, minArea, hits[n])
    ensures forall m, n :: 0 <= m < n < |hits| ==> hits[m].buildingFid != hits[n].buildingFid
    ensures forall b ::
      b in buildings.items && MeetsBuffer(p, buildings.items[b], buffered, bufferExtent, minArea)
      ==> HasConflict(hits, b, roadFid)
  {
    var candidates := index.QueryByExtent(bufferExtent);
    hits := [];
    // Position in `candidates` of each record's building.
    ghost var pos: seq<int> := [];
    for k := 0 to |candidates|
      invariant |pos| == |hits|
      invariant forall n :: 0 <= n < |hits| ==> 0 <= pos[n] < k && candidates[pos[n]] == hits[n].buildingFid
      invariant forall m, n :: 0 <= m < n < |hits| ==> pos[m] < pos[n]
      invariant forall n :: 0 <= n < |hits| ==>
        ConflictWith(p, buildings, roadFid, buffered, bufferExtent, bufferDistance, minArea, hits[n])
      invariant forall i ::
        0 <= i < k && candidates[i] in buildings.items
        && MeetsBuffer(p, buildings.items[candidates[i]], buffered, bufferExtent, minArea)
        ==> HasConflict(hits, candidates[i], roadFid)
    {
      var hit := CheckCandidate(p, buildings, buildingExtents, candidates[k], roadFid, buffered, bufferExtent,
                                bufferDistance, minArea);
      if hit.Some? {
        forall i |
          0 <= i < k && candidates[i] in buildings.items
          && MeetsBuffer(p, buildings.items[candidates[i]], buffered, bufferExtent, minArea)
          ensures HasConflict(hits + [hit.value], candidates[i], roadFid)
        {
          HasConflictGrows(hits, hit.value, candidates[i], roadFid);
        }
        hits := hits + [hit.value];
        pos := pos + [k];
        assert hits[|hits| - 1] == hit.value;
      }
    }
    forall m, n | 0 <= m < n < |hits| ensures hits[m].buildingFid != hits[n].buildingFid {
      assert candidates[pos[m]] != candidates[pos[n]];
    }
    forall b | b in buildings.items && MeetsBuffer(p, buildings.items[b], buffered, bufferExtent, minArea)
      ensures HasConflict(hits, b, roadFid)
    {
      NoFalseNegatives(index, bufferExtent, b);
      var i := PositionOf(candidates, b);
    }
  }

  // ----- invariants of the road loop -----

  /** Every record is a conflict of a road among the first `k` checked roads. */
  ghost predicate SoundBefore(p: Provider, buildings: Dict<Geometry>, roads: Dict<Geometry>, bufferDistance: real,
                              minArea: real, results: seq<ConflictResult>, keys: seq<int>, k: int)
  {
    && 0 <= k <= |keys|
    && forall n :: 0 <= n < |results| ==>
      && IsConflict(p, buildings, roads, bufferDistance, minArea, results[n])
      && results[n].roadFid in keys[..k]
  }

  /** Records of one road are contiguous, and roads come in the order of `keys`. */
  ghost predicate RoadOrder(results: seq<ConflictResult>, keys: seq<int>) {
    forall m, n :: 0 <= m < n < |results| ==>
      results[m].roadFid == results[n].roadFid || Precedes(keys, results[m].roadFid, results[n].roadFid)
  }

  /** Every conflict of the first `k` checked roads is recorded. */
  ghost predicate CompleteBefore(p: Provider, buildings: Dict<Geometry>, roads: Dict<Geometry>, bufferDistance: real,
                                 minArea: real, results: seq<ConflictResult>, keys: seq<int>, k: int)
  {
    forall i, b :: 0 <= i < k && i < |keys| && keys[i] in roads.items && b in buildings.items
      && Conflicting(p, buildings.items[b], roads.items[keys[i]], bufferDistance, minArea)
      ==> HasConflict(results, b, keys[i])
  }

  /** Appending the records of road `keys[k]` keeps the records sound and their pairs unique. */
  lemma SoundStep(p: Provider, buildings: Dict<Geometry>, roads: Dict<Geometry>, bufferDistance: real,
                  minArea: real, results: seq<ConflictResult>, hits: seq<ConflictResult>, keys: seq<int>, k: int)
    requires 0 <= k < |keys| && NoDup(keys)
    requires keys[k] in roads.items && Buffered(p, roads.items[keys[k]], bufferDistance)
    requires SoundBefore(p, buildings, roads, bufferDistance, minArea, results, keys, k) && UniquePairs(results)
    requires var buffer := Buffer(p, roads.items[keys[k]], bufferDistance).value;
      forall n :: 0 <= n < |hits| ==>
        ConflictWith(p, buildings, keys[k], buffer, GetExtent(buffer).value, bufferDistance, minArea, hits[n])
    requires forall m, n :: 0 <= m < n < |hits| ==> hits[m].buildingFid != hits[n].buildingFid
    ensures SoundBefore(p, buildings, roads, bufferDistance, minArea, results + hits, keys, k + 1)
    ensures UniquePairs(results + hits)
  {
    var all := results + hits;
    assert keys[..k + 1] == keys[..k] + [keys[k]];
    assert keys[k] !in keys[..k];
    forall n | 0 <= n < |all|
      ensures IsConflict(p, buildings, roads, bufferDistance, minArea, all[n]) && all[n].roadFid in keys[..k + 1]
    {
      if n >= |results| {
        assert all[n] == hits[n - |results|];
      }
    }
    forall m, n | 0 <= m < n < |all|
      ensures (all[m].buildingFid, all[m].roadFid) != (all[n].buildingFid, all[n].roadFid)
    {
      if n < |results| {
        assert all[m] == results[m] && all[n] == results[n];
      } else if m < |results| {
        assert all[m].roadFid in keys[..k];
        assert all[n] == hits[n - |results|];
      } else {
        assert all[m] == hits[m - |results|] && all[n] == hits[n - |results|];
      }
    }
  }

  /** Appending the records of road `keys[k]` keeps the road order. */
  lemma OrderStep(p: Provider, buildings: Dict<Geometry>, roads: Dict<Geometry>, bufferDistance: real,
                  minArea: real, results: seq<ConflictResult>, hits: seq<ConflictResult>, keys: seq<int>, k: int)
    requires 0 <= k < |keys|
    requires SoundBefore(p, buildings, roads, bufferDistance, minArea, results, keys, k) && RoadOrder(results, keys)
    requires forall n :: 0 <= n < |hits| ==> hits[n].roadFid == keys[k]
    ensures RoadOrder(results + hits, keys)
  {
    var all := results + hits;
    forall m, n | 0 <= m < n < |all|
      ensures all[m].roadFid == all[n].roadFid || Precedes(keys, all[m].roadFid, all[n].roadFid)
    {
      if n < |results| {
        assert all[m] == results[m] && all[n] == results[n];
      } else if m < |results| {
        assert all[m] == results[m] && all[n] == hits[n - |results|];
        var i := PositionOf(keys[..k], all[m].roadFid);
        assert keys[i] == all[m].roadFid && keys[k] == all[n].roadFid;
      } else {
        assert all[m] == hits[m - |results|] && all[n] == hits[n - |results|];
      }
    }
  }

  /** Appending the records of road `keys[k]` extends completeness to it. */
  lemma CompleteStep(p: Provider, buildings: Dict<Geometry>, roads: Dict<Geometry>, bufferDistance: real,
                     minArea: real, results: seq<ConflictResult>, hits: seq<ConflictResult>, keys: seq<int>, k: int)
    requires 0 <= k < |keys|
    requires CompleteBefore(p, buildings, roads, bufferDistance, minArea, results, keys, k)
    requires keys[k] in roads.items
    requires Buffered(p, roads.items[keys[k]], bufferDistance) ==>
      var buffer := Buffer(p, roads.items[keys[k]], bufferDistance).value;
      forall b :: b in buildings.items && MeetsBuffer(p, buildings.items[b], buffer, GetExtent(buffer).value, minArea)
        ==> HasConflict(hits, b, keys[k])
    ensures CompleteBefore(p, buildings, roads, bufferDistance, minArea, results + hits, keys, k + 1)
  {
    var all := results + hits;
    forall i, b | 0 <= i < k + 1 && i < |keys| && keys[i] in roads.items && b in buildings.items
      && Conflicting(p, buildings.items[b], roads.items[keys[i]], bufferDistance, minArea)
      ensures HasConflict(all, b, keys[i])
    {
      if i < k {
        var n :| 0 <= n < |results| && results[n].buildingFid == b && results[n].roadFid == keys[i];
        assert all[n] == results[n];
      } else {
        var n :| 0 <= n < |hits| && hits[n].buildingFid == b && hits[n].roadFid == keys[k];
        assert all[|results| + n] == hits[n];
      }
    }
  }

  /**
   * `_find_conflicts`: every (building, road) pair in conflict is recorded
   * exactly once, with the buffer distance used; a building may be recorded
   * once per road. Records come road by road, in road order, and nothing
   * else is recorded.
   */
  method FindConflicts(p: Provider, buildings: Dict<Geometry>, roads: Dict<Geometry>, bufferDistance: real,
                       minArea: real)
    returns (results: seq<ConflictResult>)
    requires buildings.Wf() && roads.Wf()
    ensures forall n :: 0 <= n < |results| ==> IsConflict(p, buildings, roads, bufferDistance, minArea, results[n])
    ensures UniquePairs(results)
    ensures forall b, r ::
      b in buildings.items && r in roads.items
      && Conflicting(p, buildings.items[b], roads.items[r], bufferDistance, minArea)
      ==> HasConflict(results, b, r)
    ensures RoadOrder(results, roads.keys)
  {
    var buildingExtents, totalWidth, totalHeight := MeasureExtents(buildings);
    var cellSize := ConflictCellSize(totalWidth, totalHeight, |buildingExtents|, bufferDistance);
    var index := BuildIndex(buildings, cellSize);
    ExtentsUnique(buildings, buildingExtents, index.extents);
    var buffered, bufferedExtents := BufferRoads(p, roads, bufferDistance);
    var keys := buffered.keys;
    results := [];
    for k := 0 to |keys|
      invariant index.Valid() && index.extents == buildingExtents
      invariant SoundBefore(p, buildings, roads, bufferDistance, minArea, results, keys, k)
      invariant UniquePairs(results)
      invariant RoadOrder(results, keys)
      invariant CompleteBefore(p, buildings, roads, bufferDistance, minArea, results, keys, k)
    {
      var roadFid := keys[k];
      var bufferGeom := buffered.items[roadFid];
      var bufferExtent := bufferedExtents[roadFid];
      var hits := ConflictsForRoad(p, buildings, buildingExtents, index, roadFid, bufferGeom, bufferExtent,
                                   bufferDistance, minArea);
      SoundStep(p, buildings, roads, bufferDistance, minArea, results, hits, keys, k);
      OrderStep(p, buildings, roads, bufferDistance, minArea, results, hits, keys, k);
      CompleteStep(p, buildings, roads, bufferDistance, minArea, results, hits, keys, k);
      results := results + hits;
    }
    forall b, r | b in buildings.items && r in roads.items
      && Conflicting(p, buildings.items[b], roads.items[r], bufferDistance, minArea)
      ensures HasConflict(results, b, r)
    {
      var i := PositionOf(keys, r);
    }
    forall m, n | 0 <= m < n < |results|
      ensures results[m].roadFid == results[n].roadFid || Precedes(roads.keys, results[m].roadFid, results[n].roadFid)
    {
      if results[m].roadFid != results[n].roadFid {
        var i, j :| 0 <= i < j < |keys| && keys[i] == results[m].roadFid && keys[j] == results[n].roadFid;
      }
    }
  }

  /**
   * The conflict search as the driver runs it: the buffer distance and
   * minimum area fall back to the configured values when missing or zero,
   * and with no buildings or no roads nothing is searched.
   */
  method CheckConflicts(p: Provider, buildings: Dict<Geometry>, roads: Dict<Geometry>,
                        bufferDistance: Option<real>, minConflictArea: Option<real>,
                        configuredBuffer: real, configuredMinArea: real)
    returns (conflicts: seq<ConflictResult>)
    requires buildings.Wf() && roads.Wf()
    ensures |buildings.keys| == 0 || |roads.keys| == 0 ==> conflicts == []
    ensures forall n :: 0 <= n < |conflicts| ==>
      IsConflict(p, buildings, roads, OrDefault(bufferDistance, configuredBuffer),
                 OrDefault(minConflictArea, configuredMinArea), conflicts[n])
    ensures UniquePairs(conflicts)
    ensures forall b, r ::
      b in buildings.items && r in roads.items
      && Conflicting(p, buildings.items[b], roads.items[r], OrDefault(bufferDistance, configuredBuffer),
                     OrDefault(minConflictArea, configuredMinArea))
      ==> HasConflict(conflicts, b, r)
    ensures RoadOrder(conflicts, roads.keys)
  {
    var effectiveBuffer := OrDefault(bufferDistance, configuredBuffer);
    var effectiveMinArea := OrDefault(minConflictArea, configuredMinArea);
    conflicts := [];
    if |buildings.keys| == 0 || |roads.keys| == 0 {
      return;
    }
    conflicts := FindConflicts(p, buildings, roads, effectiveBuffer, effectiveMinArea);
  }
}
