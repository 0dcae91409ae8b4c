# Spatial QC engine — a Dafny model

This project models the spatial-analysis engine of a GIS quality-control
toolbox. It covers four parts, each over an abstract geometry provider:

- **Grid spatial index** (`core/spatial_ops.py`). `SpatialIndex` maps
  `(col, row)` grid cells to the ids whose bounding box spans them. A cell
  index is `floor(coordinate / cell_size)`. Around it sit the
  bounding-box test `extents_intersect`, the three-way ratio classifier
  `classify_overlap`, and two drivers: `find_pairwise_overlaps` and
  `find_features_intersecting_buffer`.
- **Road topology engine** (`checks/road_qc/engine.py`). It covers:
  - dangle detection over a spatial hash of endpoints, with a 3×3
    neighbourhood search;
  - disconnected roads, derived from the dangle counts;
  - self-intersection detection, using orientation tests between
    non-adjacent segments and a parametric crossing point.
- **Building overlap checker** (`checks/building_overlap.py`). It covers
  the pairwise search `_find_overlaps`, the tallies of
  `_calculate_stats`, and two pure pieces of the driver: the minimum-area
  override, and the UTM zone and EPSG code used for geographic input.
- **Building–road conflict checker**
  (`checks/building_road_conflict.py`). It covers the `ConflictResult`
  record and `_find_conflicts`. That function indexes the buildings with
  a cell size floored by the buffer distance, buffers every valid road
  first, and then queries the index once per buffered road. The model
  also covers the parameter fallback and the early return of
  `check_conflicts`.

Modules, one file each:

- `Basics`: `Option`. `Dict`, an insertion-ordered dictionary: a key
  sequence without repeats plus a map over the same keys. `Precedes`,
  the order of two keys.
- `Geometry`: the provider and the wrappers of `core/geometry.py`.
  - A geometry is `Null`, or a kind, a point count, an area, a length
    and an optional well-formed extent.
  - A `Provider` holds the two raw operations that cannot be seen,
    intersection and buffering.
  - The wrappers (null test, area, extent, polygon and line validation,
    intersection, buffer) are written out on top. Their guarantees are
    therefore theorems: area is never negative, an intersection is
    dropped when its area is not positive, and a buffer by a distance
    ≤ 0 is the input itself.
- `SpatialIndexing`: the grid index as a class. Its fields are `cellSize`,
  `grid`, `geometries` and `extents`.
- `SpatialOps`: the two drivers of `core/spatial_ops.py`. Each has a
  specification predicate for every record, and lemmas for the pair
  bookkeeping.
- `RoadEngine`: the road topology engine. Coordinates are exact reals.
- `BuildingOverlap` and `BuildingRoadConflict`: the two checkers.

Every loop the source runs is a method with its invariants. Each method
is proved against a specification function or predicate, and the
properties of the system are proved about those specifications.

Two behaviours of the code are easy to misread. The model follows the
code:

- Overlap records are not ordered by id. The `(min, max)` pair key at
  `core/spatial_ops.py:267` only stops a pair from being examined twice.
  `fid_a` is the feature that comes first in dictionary order
  (`core/spatial_ops.py:246-308`), whichever id is smaller. The model
  proves exactly that, with `Precedes` inside `SpatialOps.Reported`.
- Closed rings are reported. The docstring of `_segments_cross`
  (`checks/road_qc/engine.py:139`) speaks of segments that "properly"
  intersect. Its collinear-endpoint branches (`engine.py:149-156`) also
  accept two segments that only share an endpoint. A part compares its
  first and last segments (`engine.py:207`), and in a closed ring these
  share the closing vertex. So a closed ring is reported when no earlier
  pair crosses first and its first and closing segments are not parallel.
  It is then reported at the closing vertex, and
  `RoadEngine.ExampleClosedRing` proves this for a triangle. When those
  two segments are collinear, `_intersection_point` finds no point
  (`engine.py:168-170`) and the pair is passed over.

## Model

| member | source | states |
|---|---|---|
| Geometry.Area | core/geometry.py:46-63 | The area is never negative; a positive area comes from a non-null geometry and is its own area. |
| Geometry.GetExtent | core/geometry.py:125-142 | An extent is returned only for a non-null geometry, and it is that geometry's extent. |
| Geometry.Intersection | core/geometry.py:66-96 | An intersection is returned only for two non-null operands; it is non-null with positive area, and it is the provider's intersection. |
| Geometry.Buffer | core/geometry.py:198-221 | Null input gives None; a distance ≤ 0 returns the input unchanged; otherwise the provider's buffer. |
| SpatialIndexing.FloorDiv | core/spatial_ops.py:75-78 | The cell index b of v satisfies b·d ≤ v < (b+1)·d: it is the floor of v / d, for both the grid index and the endpoint hash of checks/road_qc/engine.py:27. |
| SpatialIndexing.FloorDivMonotone | core/spatial_ops.py:75-78 | Cell indices are monotone in the coordinate, so the column and row ranges of a well-formed extent are never empty. |
| SpatialIndexing.ShareCellMeansCommonCell | core/spatial_ops.py:103-113 | Two extents' cell ranges overlap iff some cell is spanned by both. |
| SpatialIndexing.ExtentsIntersect | core/spatial_ops.py:147-166 | Two well-formed boxes pass the test iff they have a point in common, their boundaries included. |
| SpatialIndexing.ExtentsIntersectSymmetric | core/spatial_ops.py:147-166 | The box test is symmetric, and holds iff the closed intervals overlap on both axes. |
| SpatialIndexing.CornerContactIntersects | core/spatial_ops.py:161-166 | Boxes touching only at a corner count as intersecting (the comparisons are strict); boxes with a gap do not. |
| SpatialIndexing.IntersectingExtentsShareCell | core/spatial_ops.py:73-85 | Intersecting well-formed extents span a common grid cell, in either order. |
| SpatialIndexing.Classify | core/spatial_ops.py:169-190 | DUPLICATE iff ratio ≥ duplicate threshold; PARTIAL iff partial ≤ ratio < duplicate; SLIVER iff below both. |
| SpatialIndexing.SetToList | core/spatial_ops.py:118 | The list holds each element of the set exactly once, in no promised order. |
| SpatialIndexing.SpatialIndex.constructor | core/spatial_ops.py:43-53 | A new index has the given cell size and empty grid, geometries and extents, and satisfies the index invariants. |
| SpatialIndexing.SpatialIndex.Insert | core/spatial_ops.py:55-85 | Null or extent-less input leaves the index unchanged. Otherwise it records the geometry and extent, appends the id to the bucket of exactly the cells its extent spans (creating missing ones), leaves every other bucket alone, and keeps the index valid (exact when the id is new). |
| SpatialIndexing.SpatialIndex.AppendToCells | core/spatial_ops.py:73-85 | After the col/row loops, the cells are the old ones plus those the extent spans; spanned buckets gain the id at the end, the rest are unchanged. |
| SpatialIndexing.SpatialIndex.CollectCells | core/spatial_ops.py:103-113 | The collected set is exactly the ids found in the buckets of the cells the extent spans. |
| SpatialIndexing.SpatialIndex.QueryCandidates | core/spatial_ops.py:87-118 | Empty for an id never indexed; otherwise exactly the other ids in the buckets of its cells; no repeats, never the id itself, only indexed ids. |
| SpatialIndexing.SpatialIndex.QueryByExtent | core/spatial_ops.py:120-144 | Exactly the ids in the buckets of the cells the extent spans, without repeats, all indexed. |
| SpatialIndexing.NoFalseNegatives | core/spatial_ops.py:73-144 | An indexed id whose extent intersects a well-formed query extent is found in the query's cells: the extent query returns it, and so does the candidate query of any other id. |
| SpatialIndexing.ExactLookup | core/spatial_ops.py:80-85 | When no id was inserted twice, an id is in a query's cells iff it is indexed and its cell range overlaps the query's. |
| SpatialIndexing.InsertKeepsInvariant | core/spatial_ops.py:70-85 | Recording a geometry with its extent and appending its id to the spanned cells keeps the index invariant, and keeps exactness for a new id. |
| SpatialOps.PairKey | core/spatial_ops.py:267 | The key is the ordered pair of the two ids: smaller first, same elements. |
| SpatialOps.TotalWidth | core/spatial_ops.py:221-229 | The summed widths of the extents are never negative. |
| SpatialOps.TotalHeight | core/spatial_ops.py:221-229 | The summed heights of the extents are never negative. |
| SpatialOps.MeasureExtents | core/spatial_ops.py:220-229 | The map holds exactly the features that have an extent, with that extent; the totals are the sums of widths and heights over them. |
| SpatialOps.PairwiseCellSize | core/spatial_ops.py:234-235 | The cell size is at least 20 and at least twice the average extent side, and is one of the two. |
| SpatialOps.BuildIndex | core/spatial_ops.py:237-239 | Inserting every feature gives a valid, exact index whose extents are exactly the features' extents. |
| SpatialOps.ComparePair | core/spatial_ops.py:272-314 | A record is produced iff the candidate passes every filter and overlaps by at least the minimum area; it then carries the intersection, its area, the ratio against the smaller area and its class. |
| SpatialOps.CompareCandidates | core/spatial_ops.py:263-314 | After one feature's candidates, every new record is sound, its pairs are marked processed, and every overlapping pair with it first in order is found. |
| SpatialOps.SkipFeature | core/spatial_ops.py:250-260 | A feature that fails the polygon, area or extent test adds no record and loses no overlapping pair. |
| SpatialOps.FindPairwiseOverlaps | core/spatial_ops.py:193-314 | Every record is two different features, first one earlier in order, overlapping by ≥ the minimum, with ratio = area / smaller area and its class; no unordered pair twice; every overlapping pair is found (so empty or extent-less input gives nothing). |
| SpatialOps.TestAgainstBuffer | core/spatial_ops.py:342-361 | A hit is returned iff the feature is a valid polygon with an extent meeting the buffer's, and an intersection of at least the minimum area; it carries that intersection and area. |
| SpatialOps.ScanForBuffer | core/spatial_ops.py:342-363 | Every entry is a hit, every feature meeting the buffer is listed, and entries follow the features' order. |
| SpatialOps.FindFeaturesIntersectingBuffer | core/spatial_ops.py:317-363 | Nothing for a null or extent-less buffer; otherwise exactly the features meeting the buffer (valid polygon, area ≥ minimum), with their intersection and area, in input order. |
| RoadEngine.GridKey | checks/road_qc/engine.py:25-27 | The key is the cell whose square contains the point, on both axes. |
| RoadEngine.CellFor | checks/road_qc/engine.py:53 | The hash cell is positive and at least the tolerance. |
| RoadEngine.EndpointsFaithful | checks/road_qc/engine.py:60-62 | An entry (fid, x, y, i) is in the flattened list iff fid is a listed road and (x, y) is its point i. |
| RoadEngine.KeepDanglesMembers | checks/road_qc/engine.py:66-86 | The kept entries are exactly the unconnected ones, and there are no more of them than endpoints. |
| RoadEngine.CloseMeansAdjacent | checks/road_qc/engine.py:53-82 | Two points within the tolerance hash into neighbouring cells, because the cell is at least the tolerance. |
| RoadEngine.DangleIffIsolated | checks/road_qc/engine.py:53-86 | For tolerance ≥ 0, an endpoint dangles iff it is an input endpoint and no endpoint of another road lies at squared distance ≤ tolerance². |
| RoadEngine.SingleRoadAllDangle | checks/road_qc/engine.py:78-79 | With one road, every endpoint dangles, in order: a road's own endpoints never connect. |
| RoadEngine.KeepAllOfOneRoad | checks/road_qc/engine.py:77-79 | Entries checked against endpoints of their own road only are all kept. |
| RoadEngine.ConnectedByDistance | checks/road_qc/engine.py:80-82 | An endpoint of another road within the tolerance connects. |
| RoadEngine.IsolatedNotConnected | checks/road_qc/engine.py:77-86 | An endpoint with every other-road endpoint beyond the tolerance does not connect. |
| RoadEngine.ExampleEndpoints | checks/road_qc/engine.py:60-62 | Roads [(0,0),(1,0)] and [(1,0),(3,0)] flatten to four numbered entries, road by road. |
| RoadEngine.ExampleSharedEnd | checks/road_qc/engine.py:34-88 | For those roads and tolerance 0.5, exactly two dangles: (1,0,0,0) and (2,3,0,1). |
| RoadEngine.ScanBucket | checks/road_qc/engine.py:77-82 | The bucket scan says connected iff the bucket holds an endpoint of another road within the tolerance. |
| RoadEngine.SearchNeighbourhood | checks/road_qc/engine.py:68-84 | The 3×3 search says connected iff some neighbouring bucket holds such an endpoint. |
| RoadEngine.NeighbourMeansConnected | checks/road_qc/engine.py:63-84 | Over a grid that hashes every endpoint, the neighbourhood search decides connection. |
| RoadEngine.HashStep | checks/road_qc/engine.py:62-63 | Appending an endpoint to its cell keeps the grid in step with the flattened list. |
| RoadEngine.HashEndpoints | checks/road_qc/engine.py:56-63 | The list is the flattened endpoints road by road, and the grid hashes exactly them. |
| RoadEngine.KeepUnconnected | checks/road_qc/engine.py:66-86 | Over a grid that hashes every endpoint, the search loop keeps exactly the unconnected endpoints, in order. |
| RoadEngine.FindDangles | checks/road_qc/engine.py:34-88 | The result is the list of dangles of the input at that tolerance, in input order. |
| RoadEngine.CountDangles | checks/road_qc/engine.py:111-113 | The map gives every road its number of dangles (0 when absent). |
| RoadEngine.ListDisconnected | checks/road_qc/engine.py:115-119 | In input order, exactly the listed roads whose count reaches their number of points. |
| RoadEngine.CountKept | checks/road_qc/engine.py:111-118 | Filtering never raises a road's count, and keeps it whole iff none of the road's entries connects. |
| RoadEngine.CountAll | checks/road_qc/engine.py:60-62 | In the flattened list, a listed road has one entry per point and an unlisted road none. |
| RoadEngine.DisconnectedIffAllDangle | checks/road_qc/engine.py:111-118 | A road's dangle count reaches its endpoint count iff every one of its endpoints dangles. |
| RoadEngine.FindDisconnected | checks/road_qc/engine.py:95-120 | Returns the dangle list unchanged, and in input order exactly the roads with every endpoint dangling (so every road with no endpoints). |
| RoadEngine.Cross2d | checks/road_qc/engine.py:127-129 | The signed area is 0 when two of the three points coincide. |
| RoadEngine.OnSegment | checks/road_qc/engine.py:132-135 | Both ends of a segment lie on it; a segment of zero length holds only its own point. |
| RoadEngine.OnSegmentInterior | checks/road_qc/engine.py:132-135 | Every point p + t(r − p) with 0 ≤ t ≤ 1 passes the test, interior points included. |
| RoadEngine.CollinearInBox | checks/road_qc/engine.py:132-135 | Conversely, a point on the segment's line that passes the box test is a point p + t(q − p) of the closed segment, with t in [0, 1]. |
| RoadEngine.CrossAntisymmetric | checks/road_qc/engine.py:127-129 | Swapping the two vectors negates the signed area. |
| RoadEngine.SegmentsCrossSymmetric | checks/road_qc/engine.py:138-158 | The crossing test gives the same answer with the segments swapped. |
| RoadEngine.SegmentsCross | checks/road_qc/engine.py:138-158 | Two segments that share an endpoint always count as crossing, through the collinear-endpoint branches. |
| RoadEngine.SegmentsCrossSound | checks/road_qc/engine.py:138-158 | Soundness: when the test says two segments cross, some point p1 + t(q1 − p1) equals some point p2 + s(q2 − p2), with t and s in [0, 1]. The strict straddle and each of the four collinear-endpoint branches are proved. |
| RoadEngine.CrossingPointOnSegments | checks/road_qc/engine.py:161-172 | For two crossing segments, a point returned by `_intersection_point` lies on both closed segments, not just on their lines. |
| RoadEngine.IntersectionPoint | checks/road_qc/engine.py:161-173 | None iff the denominator is within 1e-12 of 0; otherwise the point lies on both lines. |
| RoadEngine.CrossingFromSound | checks/road_qc/engine.py:207-217 | A point is found from j on iff some later segment crosses segment i with a defined point. The point returned is that of the least such partner: no earlier partner crosses. |
| RoadEngine.CrossingInPartSound | checks/road_qc/engine.py:203-217 | A part yields a point iff some non-adjacent pair (j ≥ i + 2) crosses with a defined point. The point is that of the least such pair, by segment and then by partner. |
| RoadEngine.FirstCrossingSound | checks/road_qc/engine.py:188-217 | A road yields a point iff some part of at least 4 vertices has such a crossing; parts under 4 vertices are skipped. The point is the first crossing only: from the first part that has one, at its least pair. |
| RoadEngine.AtMostOnePerRoad | checks/road_qc/engine.py:193-219 | Every reported road is an input road, and reports come in input road order, so each road is reported at most once. |
| RoadEngine.ScanSegment | checks/road_qc/engine.py:207-217 | The inner loop returns the first crossing point against segments j ≥ i + 2. |
| RoadEngine.ScanPart | checks/road_qc/engine.py:203-217 | The loop over i returns the first crossing point of the part. |
| RoadEngine.FindSelfIntersections | checks/road_qc/engine.py:176-219 | The result is the first crossing of each road, in input road order. |
| RoadEngine.BowTieMeet | checks/road_qc/engine.py:138-173 | The diagonals of the 2×2 square cross, at (1,1). |
| RoadEngine.ReportedAtFirstSegment | checks/road_qc/engine.py:203-217 | If segment 0 first crosses segment j, at a defined point, that point is the road's report. |
| RoadEngine.ExampleBowTie | checks/road_qc/engine.py:176-219 | The path (0,0)-(2,2)-(0,2)-(2,0) is reported at (1,1). |
| RoadEngine.TriangleClosingMeet | checks/road_qc/engine.py:149-173 | The first and closing segments of a triangle ring cross at their shared vertex. |
| RoadEngine.ExampleClosedRing | checks/road_qc/engine.py:207-217 | The closed ring (0,0)-(1,0)-(0,1)-(0,0) is reported at (0,0). |
| BuildingOverlap.FindOverlaps | checks/building_overlap.py:285-397 | Fewer than two geometries give nothing; otherwise the records are sound, no unordered pair twice, and every overlapping pair is found. |
| BuildingOverlap.CountOf | checks/building_overlap.py:471-479 | A class count is 0 iff no record has that class, and it never exceeds the number of records. That the three counts add up to the number of records is BuildingOverlap.ClassesPartition. |
| BuildingOverlap.ClassesPartition | checks/building_overlap.py:474-479 | Duplicates + partials + slivers = number of records. |
| BuildingOverlap.ReportedAreaPositive | checks/building_overlap.py:471-472 | The total area of a non-empty list of search records is positive. |
| BuildingOverlap.CalculateStats | checks/building_overlap.py:458-481 | Each tally is the count of its class (any other class is a sliver), the tallies add up to the record count, and the total is the sum of areas. |
| BuildingOverlap.EffectiveMinArea | checks/building_overlap.py:154-156 | A given value, even 0, is kept; the configured value is used only when none is given. |
| BuildingOverlap.Trunc | checks/building_overlap.py:130 | Truncation toward zero: within 1 below a non-negative input, within 1 above a negative one. |
| BuildingOverlap.UtmZone | checks/building_overlap.py:130 | From 180° W on the zone is at least 1, and up to 180° E it is at most 61. |
| BuildingOverlap.UtmZoneBand | checks/building_overlap.py:130 | From 180° W on, zone z is the 6° band starting at −180 + 6(z−1). |
| BuildingOverlap.UtmZoneRange | checks/building_overlap.py:130 | For −180 ≤ lon < 180 the zone is in 1..60. |
| BuildingOverlap.UtmZoneAtAntimeridian | checks/building_overlap.py:130 | At lon = 180 the formula as written gives zone 61. |
| BuildingOverlap.UtmZoneCorrected | checks/building_overlap.py:130 | Agrees with the formula as written for every lon < 180. |
| BuildingOverlap.UtmZoneCorrectedRange | checks/building_overlap.py:130 | For −180 ≤ lon ≤ 180 the corrected zone is in 1..60. |
| BuildingOverlap.UtmEpsg | checks/building_overlap.py:132-135 | 32600 + zone when lat ≥ 0, else 32700 + zone. |
| BuildingOverlap.ProjectionEpsg | checks/building_overlap.py:126-135 | With the zone formula as written, a centre with −180 ≤ lon < 180 gets 32601..32660 in the north (and on the equator) and 32701..32760 in the south. |
| BuildingOverlap.ProjectionEpsgAtAntimeridian | checks/building_overlap.py:126-135 | As written, a centre at lon = 180 gets 32661 in the north and 32761 in the south. |
| BuildingOverlap.ProjectionEpsgCorrected | checks/building_overlap.py:126-135 | With the corrected zone, the code agrees with the driver's for every lon < 180. |
| BuildingOverlap.ProjectionEpsgCorrectedRange | checks/building_overlap.py:126-135 | With the corrected zone, for a centre on the globe, the code is 32601..32660 in the north (and on the equator) and 32701..32760 in the south. |
| BuildingRoadConflict.OrDefault | checks/building_road_conflict.py:186-187 | A given non-zero value is kept; None or 0 falls back to the configured value. |
| BuildingRoadConflict.ZeroOverride | checks/building_road_conflict.py:186-187 | An explicit 0 is dropped here but kept by the overlap checker's override. |
| BuildingRoadConflict.FallbacksAgree | checks/building_road_conflict.py:186-187 | Apart from an explicit 0, the two fallbacks agree. |
| BuildingRoadConflict.ConflictCellSize | checks/building_road_conflict.py:302-312 | The cell is ≥ 30, ≥ twice the buffer distance, and ≥ three times the average (dividing by max(n, 1)); it is one of those three. |
| BuildingRoadConflict.BufferRoad | checks/building_road_conflict.py:326-335 | A buffer is kept iff the road is a valid line whose buffer exists and has an extent; it is that buffer with its extent. |
| BuildingRoadConflict.BufferRoads | checks/building_road_conflict.py:323-335 | The buffered roads are exactly the checkable ones, each with its buffer and extent, in input order. |
| BuildingRoadConflict.CheckCandidate | checks/building_road_conflict.py:359-392 | A record is produced iff the candidate is a building that meets the buffer; it carries the intersection, its area and the buffer distance. |
| BuildingRoadConflict.ConflictsForRoad | checks/building_road_conflict.py:354-392 | Every record is a conflict with this road, no building twice, and every building meeting the buffer is found. |
| BuildingRoadConflict.FindConflicts | checks/building_road_conflict.py:288-395 | Every record is a conflict of a checked road and a building, no (building, road) pair twice, every conflicting pair found, records grouped by road in road order. |
| BuildingRoadConflict.CheckConflicts | checks/building_road_conflict.py:186-205 | No buildings or no roads give no conflicts; otherwise the conflicts under the falling-back parameters, with all of FindConflicts's guarantees: sound, unique pairs, complete and in road order. |

## Left out

- Reading features, creating the output schema, writing records,
  cleaning up temporary data, and reprojection. These are geodatabase
  side effects (`check_overlaps`, `check_conflicts`, `_create_output_schema`,
  `_write_overlaps`, `_write_conflicts`, `_cleanup_temp`). Only the pure
  pieces of the two drivers are modelled.
- The progress callback and the progress tracker inside the loops, and
  every message. They do not affect results.
- The arcpy geometry methods behind `core/geometry.py`: `intersect`,
  `buffer` and the geometry attributes. They are parameters: the
  `Provider` and the fields of `Geometry`. The `try/except` paths of the
  wrappers, which return the null answer on an exception, are not
  modelled. `geometries_intersect`, `get_line_endpoints` and
  `point_distance` are not used by the core and are not part of this
  model.
- Floating point. Coordinates, areas and ratios are exact reals. The
  constants 1e-9 (minimum hash cell) and 1e-12 (parallel lines) are kept
  as real constants.
- The order of `list(set)` in the two index queries. Python gives no
  order here, so the model returns the elements in an unspecified order.
  Every result is stated for any order.
- Configuration. Thresholds, buffer distances and configured defaults are
  parameters. The configuration module is not part of this model.
- SpatialIndexing.SpatialIndex.constructor: requires a positive cell
  size. With 0 the source fails on division by zero; with a negative size
  its column and row ranges come out empty. All three callers pass at least 20 (core/spatial_ops.py:237, checks/building_overlap.py:318, checks/building_road_conflict.py:313).
- SpatialOps.FindPairwiseOverlaps: the record ratio is not proved to be at
  most 1. That would need the provider to promise that an intersection is
  no larger than either operand.
- BuildingRoadConflict.FindConflicts: `building_extents` is filled twice
  in the source, with the same values both times. The model fills it once.
- RoadEngine.FindSelfIntersections: the `if pt:` test is modelled as
  "a point was computed". A tuple is always truthy, so a crossing at
  (0, 0) is still reported.

## Findings

| source | as written | input that shows it | evidently intended | confidence | as-written member | corrected member |
|---|---|---|---|---|---|---|
| checks/building_overlap.py:130-135 | `int((lon + 180) / 6) + 1` gives zone 61 at longitude 180, and so EPSG 32661 (or 32761), which is not a UTM zone code | a geographic input whose extent centre lies on the antimeridian, lon = 180.0 | longitude 180 belongs to zone 60, the last of the 60 UTM zones | medium; follows from the arithmetic, not executed | BuildingOverlap.ProjectionEpsgAtAntimeridian | BuildingOverlap.ProjectionEpsgCorrectedRange |
