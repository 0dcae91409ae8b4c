/**
 * The two drivers of core/spatial_ops.py built on the grid index: the
 * pairwise polygon overlap search and the search for features meeting a
 * buffer. Also the cell-size policy and index construction they share
 * with the checkers.
 */
module SpatialOps {
  import opened Basics
  import opened Geometry
  import opened SpatialIndexing

  /** `OverlapResult`: one overlapping pair, in the order it was found. */
  datatype OverlapResult = OverlapResult(
    fidA: int, fidB: int, overlapGeometry: Geometry,
    overlapArea: real, overlapRatio: real, overlapType: OverlapType)

  /** `(min(a, b), max(a, b))`: the key of the unordered pair `{a, b}`. */
  function PairKey(a: int, b: int): (k: (int, int))
    ensures k.0 <= k.1 && {k.0, k.1} == {a, b}
  {
    if a <= b then (a, b) else (b, a)
  }

  /** The component of a pair key other than `a`. */
  function Other(k: (int, int), a: int): int {
    if k.0 == a then k.1 else k.0
  }

  /** The checks a feature must pass to be compared: a valid polygon, positive area, an extent. */
  predicate Comparable(g: Geometry) {
    ValidPolygon(g) && Area(g) > 0.0 && GetExtent(g).Some?
  }

  /**
   * Two comparable features whose extents intersect and whose polygon
   * intersection has at least `minArea`.
   */
  predicate Overlapping(p: Provider, ga: Geometry, gb: Geometry, minArea: real) {
    && Comparable(ga) && Comparable(gb)
    && ExtentsIntersect(GetExtent(ga).value, GetExtent(gb).value)
    && Intersection(p, ga, gb).Some?
    && Area(Intersection(p, ga, gb).value) >= minArea
  }

  /**
   * What every overlap record satisfies: two different features, the first
   * earlier in iteration order, overlapping; the record carries their
   * intersection, its area, that area over the smaller feature's area, and
   * the class of that ratio.
   */
  ghost predicate Reported(p: Provider, features: Dict<Geometry>, minArea: real,
                           duplicateThreshold: real, partialThreshold: real, r: OverlapResult)
  {
    && r.fidA in features.items && r.fidB in features.items && r.fidA != r.fidB
    && Precedes(features.keys, r.fidA, r.fidB)
    && var ga, gb := features.items[r.fidA], features.items[r.fidB];
       && Overlapping(p, ga, gb, minArea)
       && Intersection(p, ga, gb) == Some(r.overlapGeometry)
       && r.overlapArea == Area(r.overlapGeometry)
       && r.overlapArea >= minArea && r.overlapArea > 0.0
       && Min(Area(ga), Area(gb)) > 0.0
       && r.overlapRatio == r.overlapArea / Min(Area(ga), Area(gb))
       && r.overlapType == Classify(r.overlapRatio, duplicateThreshold, partialThreshold)
  }

  /** Some record pairs `a` (first) with `b` (second). */
  ghost predicate Found(results: seq<OverlapResult>, a: int, b: int) {
    exists n :: 0 <= n < |results| && results[n].fidA == a && results[n].fidB == b
  }

  /** No unordered pair is reported twice. */
  ghost predicate DistinctPairs(results: seq<OverlapResult>) {
    forall m, n :: 0 <= m < n < |results| ==>
      PairKey(results[m].fidA, results[m].fidB) != PairKey(results[n].fidA, results[n].fidB)
  }

  /** `extents` records exactly the features that have an extent, with that extent. */
  ghost predicate ExtentsOf(features: Dict<Geometry>, extents: map<int, Box>) {
    && (forall x :: x in extents <==> x in features.items && GetExtent(features.items[x]).Some?)
    && (forall x :: x in extents ==> GetExtent(features.items[x]) == Some(extents[x]))
  }

  /** Width of a geometry's extent, 0 without one. */
  function Width(g: Geometry): (w: real)
    ensures w >= 0.0
  {
    match GetExtent(g)
    case Some(e) => e.xmax - e.xmin
    case None => 0.0
  }

  /** Height of a geometry's extent, 0 without one. */
  function Height(g: Geometry): (h: real)
    ensures h >= 0.0
  {
    match GetExtent(g)
    case Some(e) => e.ymax - e.ymin
    case None => 0.0
  }

  /** Total extent width of the features listed in `keys`. */
  function TotalWidth(keys: seq<int>, items: map<int, Geometry>): (w: real)
    requires forall i :: 0 <= i < |keys| ==> keys[i] in items
    ensures w >= 0.0
  {
    if keys == [] then 0.0
    else TotalWidth(keys[..|keys| - 1], items) + Width(items[keys[|keys| - 1]])
  }

  /** Total extent height of the features listed in `keys`. */
  function TotalHeight(keys: seq<int>, items: map<int, Geometry>): (h: real)
    requires forall i :: 0 <= i < |keys| ==> keys[i] in items
    ensures h >= 0.0
  {
    if keys == [] then 0.0
    else TotalHeight(keys[..|keys| - 1], items) + Height(items[keys[|keys| - 1]])
  }

  /** Extending the prefix by one feature adds that feature's width and height. */
  lemma TotalsStep(keys: seq<int>, items: map<int, Geometry>, n: int)
    requires forall i :: 0 <= i < |keys| ==> keys[i] in items
    requires 0 <= n < |keys|
    ensures TotalWidth(keys[..n + 1], items) == TotalWidth(keys[..n], items) + Width(items[keys[n]])
    ensures TotalHeight(keys[..n + 1], items) == TotalHeight(keys[..n], items) + Height(items[keys[n]])
  {
    assert keys[..n + 1][..n] == keys[..n];
  }

  /**
   * The first pass of both checkers: record each feature's extent and sum
   * the widths and heights of those extents.
   */
  method MeasureExtents(features: Dict<Geometry>) returns (extents: map<int, Box>, totalWidth: real, totalHeight: real)
    requires features.Wf()
    ensures ExtentsOf(features, extents)
    ensures totalWidth == TotalWidth(features.keys, features.items)
    ensures totalHeight == TotalHeight(features.keys, features.items)
  {
    var keys, items := features.keys, features.items;
    extents := map[];
    totalWidth, totalHeight := 0.0, 0.0;
    for n := 0 to |keys|
      invariant forall x :: x in extents ==> x in items && GetExtent(items[x]) == Some(extents[x])
      invariant forall i :: 0 <= i < n && GetExtent(items[keys[i]]).Some? ==> keys[i] in extents
      invariant totalWidth == TotalWidth(keys[..n], items)
      invariant totalHeight == TotalHeight(keys[..n], items)
    {
      var fid := keys[n];
      TotalsStep(keys, items, n);
      var extent := GetExtent(items[fid]);
      if extent.Some? {
        var e := extent.value;
        extents := extents[fid := e];
        totalWidth := totalWidth + (e.xmax - e.xmin);
        totalHeight := totalHeight + (e.ymax - e.ymin);
      }
    }
    assert keys[..|keys|] == keys;
    forall x | x in items && GetExtent(items[x]).Some? ensures x in extents {
      var i := PositionOf(keys, x);
    }
  }

  /**
   * Cell size of the pairwise search: twice the average extent side,
   * `(totalWidth + totalHeight) / (2 n)`, floored at 10 map units.
   */
  function PairwiseCellSize(totalWidth: real, totalHeight: real, n: nat): (cs: real)
    requires n > 0
    ensures cs >= 20.0
    ensures cs >= (totalWidth + totalHeight) / (n as real)
    ensures cs == 20.0 || cs == (totalWidth + totalHeight) / (n as real)
  {
    var avgSize := Max((totalWidth + totalHeight) / (2.0 * n as real), 10.0);
    avgSize * 2.0
  }

  /**
   * Inserts every feature, in iteration order, into a fresh index. As the
   * ids are distinct, the index is exact.
   */
  method BuildIndex(features: Dict<Geometry>, cellSize: real) returns (index: SpatialIndex)
    requires features.Wf() && cellSize > 0.0
    ensures fresh(index) && index.cellSize == cellSize
    ensures index.Valid() && index.Exact()
    ensures ExtentsOf(features, index.extents)
  {
    var keys, items := features.keys, features.items;
    index := new SpatialIndex(cellSize);
    for n := 0 to |keys|
      invariant index.Valid() && index.Exact() && index.cellSize == cellSize
      invariant forall x :: x in index.extents <==> x in keys[..n] && GetExtent(items[x]).Some?
      invariant forall x :: x in index.extents ==> GetExtent(items[x]) == Some(index.extents[x])
    {
      var fid := keys[n];
      assert keys[..n + 1] == keys[..n] + [fid];
      assert fid !in keys[..n];
      index.Insert(fid, items[fid]);
    }
    assert keys[..|keys|] == keys;
  }

  // ----- invariants of the pairwise search -----

  /** Every processed pair involves a feature among the first `bound`. */
  ghost predicate MarkedWithin(keys: seq<int>, processed: set<(int, int)>, bound: int)
    requires 0 <= bound <= |keys|
  {
    forall k :: k in processed ==> k.0 in keys[..bound] || k.1 in keys[..bound]
  }

  /**
   * Each of the first `bound` features that passed the checks has marked
   * the pair it forms with every other indexed feature sharing a cell.
   */
  ghost predicate NeighboursMarked(features: Dict<Geometry>, extents: map<int, Box>, cs: real,
                                   processed: set<(int, int)>, bound: int)
    requires cs > 0.0 && 0 <= bound <= |features.keys|
  {
    var keys := features.keys;
    forall i, j :: 0 <= i < bound && 0 <= j < |keys| && keys[i] in features.items
      && Comparable(features.items[keys[i]]) && keys[j] != keys[i]
      && keys[i] in extents && keys[j] in extents
      && ShareCell(extents[keys[i]], extents[keys[j]], cs)
      ==> PairKey(keys[i], keys[j]) in processed
  }

  /** Every overlapping pair whose first feature is among the first `bound` has been reported. */
  ghost predicate CompleteBefore(p: Provider, features: Dict<Geometry>, minArea: real,
                                 results: seq<OverlapResult>, bound: int)
    requires features.Wf()
  {
    var keys := features.keys;
    forall i, j :: 0 <= i < bound && i < j < |keys|
      && Overlapping(p, features.items[keys[i]], features.items[keys[j]], minArea)
      ==> Found(results, keys[i], keys[j])
  }

  /** The record list is sound, free of repeated pairs, and its pairs are marked. */
  ghost predicate SoundResults(p: Provider, features: Dict<Geometry>, minArea: real,
                               duplicateThreshold: real, partialThreshold: real,
                               results: seq<OverlapResult>, processed: set<(int, int)>)
  {
    && (forall n :: 0 <= n < |results| ==>
          Reported(p, features, minArea, duplicateThreshold, partialThreshold, results[n]))
    && DistinctPairs(results)
    && (forall n :: 0 <= n < |results| ==> PairKey(results[n].fidA, results[n].fidB) in processed)
  }

  lemma FoundGrows(results: seq<OverlapResult>, r: OverlapResult, a: int, b: int)
    requires Found(results, a, b)
    ensures Found(results + [r], a, b)
  {
    var n :| 0 <= n < |results| && results[n].fidA == a && results[n].fidB == b;
    assert (results + [r])[n] == results[n];
  }

  lemma CompleteGrows(p: Provider, features: Dict<Geometry>, minArea: real,
                      results: seq<OverlapResult>, r: OverlapResult, bound: int)
    requires features.Wf()
    requires CompleteBefore(p, features, minArea, results, bound)
    ensures CompleteBefore(p, features, minArea, results + [r], bound)
  {
    var keys := features.keys;
    forall i, j | 0 <= i < bound && i < j < |keys|
      && Overlapping(p, features.items[keys[i]], features.items[keys[j]], minArea)
      ensures Found(results + [r], keys[i], keys[j])
    {
      FoundGrows(results, r, keys[i], keys[j]);
    }
  }

  /** Pairs marked since `processedIn` join `fidA` to one of `seen`. */
  ghost predicate NewPairsFrom(processed: set<(int, int)>, processedIn: set<(int, int)>, fidA: int, seen: seq<int>) {
    forall k :: k in processed && k !in processedIn ==> (k.0 == fidA || k.1 == fidA) && Other(k, fidA) in seen
  }

  /** `fidA` has marked its pair with each of `seen`. */
  ghost predicate MarkedAll(processed: set<(int, int)>, fidA: int, seen: seq<int>) {
    forall c :: c in seen ==> PairKey(fidA, c) in processed
  }

  /** The overlapping pairs of `fidA` with later features among `seen` are reported. */
  ghost predicate LaterFound(p: Provider, features: Dict<Geometry>, minArea: real, results: seq<OverlapResult>,
                             idx: int, seen: seq<int>)
    requires features.Wf() && 0 <= idx < |features.keys|
  {
    var keys := features.keys;
    forall j :: idx < j < |keys| && keys[j] in seen
      && Overlapping(p, features.items[keys[idx]], features.items[keys[j]], minArea)
      ==> Found(results, keys[idx], keys[j])
  }

  /**
   * A comparable candidate whose pair was not marked before the scan of
   * `fidA` comes later than `fidA`: an earlier one would have marked it.
   */
  lemma CandidateIsLater(features: Dict<Geometry>, extents: map<int, Box>, cellSize: real,
                         idx: int, fidB: int, processedIn: set<(int, int)>)
    requires features.Wf() && cellSize > 0.0 && ExtentsOf(features, extents)
    requires 0 <= idx < |features.keys| && features.keys[idx] in extents
    requires fidB in extents && fidB != features.keys[idx] && Comparable(features.items[fidB])
    requires ExtentsIntersect(extents[features.keys[idx]], extents[fidB])
    requires NeighboursMarked(features, extents, cellSize, processedIn, idx)
    requires PairKey(features.keys[idx], fidB) !in processedIn
    ensures Precedes(features.keys, features.keys[idx], fidB)
  {
    var keys := features.keys;
    var ib := PositionOf(keys, fidB);
    IntersectingExtentsShareCell(extents[keys[idx]], extents[fidB], cellSize);
    if ib < idx {
      assert false;
    }
  }

  /** Appending a record keeps every earlier report. */
  lemma ReportKeepsFound(p: Provider, features: Dict<Geometry>, minArea: real, results: seq<OverlapResult>,
                         r: OverlapResult, idx: int, seen: seq<int>)
    requires features.Wf() && 0 <= idx < |features.keys|
    requires CompleteBefore(p, features, minArea, results, idx)
    requires LaterFound(p, features, minArea, results, idx, seen)
    ensures CompleteBefore(p, features, minArea, results + [r], idx)
    ensures LaterFound(p, features, minArea, results + [r], idx, seen)
  {
    CompleteGrows(p, features, minArea, results, r, idx);
    var keys := features.keys;
    forall j | idx < j < |keys| && keys[j] in seen
      && Overlapping(p, features.items[keys[idx]], features.items[keys[j]], minArea)
      ensures Found(results + [r], keys[idx], keys[j])
    {
      FoundGrows(results, r, keys[idx], keys[j]);
    }
  }

  /** `seen` grows by a candidate whose pair with the feature at `idx` is settled. */
  lemma LaterFoundExtend(p: Provider, features: Dict<Geometry>, minArea: real, results: seq<OverlapResult>,
                         idx: int, seen: seq<int>, c: int)
    requires features.Wf() && 0 <= idx < |features.keys|
    requires LaterFound(p, features, minArea, results, idx, seen)
    requires forall j :: idx < j < |features.keys| && features.keys[j] == c ==>
      !Overlapping(p, features.items[features.keys[idx]], features.items[c], minArea)
      || Found(results, features.keys[idx], c)
    ensures LaterFound(p, features, minArea, results, idx, seen + [c])
  {
  }

  /**
   * A candidate met when its pair is already marked is not later than the
   * feature at `idx`: marks made before this scan involve an earlier
   * feature, and marks made during it involve an earlier candidate.
   */
  lemma MarkedIsEarlier(keys: seq<int>, idx: int, processed: set<(int, int)>, processedIn: set<(int, int)>,
                        candidates: seq<int>, jj: int)
    requires NoDup(keys) && 0 <= idx < |keys|
    requires NoDup(candidates) && 0 <= jj < |candidates|
    requires MarkedWithin(keys, processedIn, idx)
    requires NewPairsFrom(processed, processedIn, keys[idx], candidates[..jj])
    requires PairKey(keys[idx], candidates[jj]) in processed
    ensures forall j :: idx < j < |keys| ==> keys[j] != candidates[jj]
  {
    var k := PairKey(keys[idx], candidates[jj]);
    if k !in processedIn {
      assert false;
    }
    if keys[idx] in keys[..idx] {
      assert false;
    }
  }

  /** Marking the pair of `fidA` with `c` extends the marking invariants to `seen + [c]`. */
  lemma MarkStep(processed: set<(int, int)>, processedIn: set<(int, int)>, fidA: int, seen: seq<int>, c: int)
    requires NewPairsFrom(processed, processedIn, fidA, seen)
    requires MarkedAll(processed, fidA, seen)
    ensures NewPairsFrom(processed + {PairKey(fidA, c)}, processedIn, fidA, seen + [c])
    ensures MarkedAll(processed + {PairKey(fidA, c)}, fidA, seen + [c])
  {
  }

  /** Marking one more pair keeps the record list sound. */
  lemma SoundMark(p: Provider, features: Dict<Geometry>, minArea: real, duplicateThreshold: real, partialThreshold: real,
                  results: seq<OverlapResult>, processed: set<(int, int)>, k: (int, int))
    requires SoundResults(p, features, minArea, duplicateThreshold, partialThreshold, results, processed)
    ensures SoundResults(p, features, minArea, duplicateThreshold, partialThreshold, results, processed + {k})
  {
  }

  /** A record for a pair marked just now keeps the record list sound. */
  lemma ReportStep(p: Provider, features: Dict<Geometry>, minArea: real, duplicateThreshold: real, partialThreshold: real,
                   results: seq<OverlapResult>, processed: set<(int, int)>, r: OverlapResult)
    requires SoundResults(p, features, minArea, duplicateThreshold, partialThreshold, results, processed)
    requires PairKey(r.fidA, r.fidB) !in processed
    requires Reported(p, features, minArea, duplicateThreshold, partialThreshold, r)
    ensures SoundResults(p, features, minArea, duplicateThreshold, partialThreshold,
                         results + [r], processed + {PairKey(r.fidA, r.fidB)})
  {
    var rs := results + [r];
    assert forall n :: 0 <= n < |results| ==> rs[n] == results[n];
  }

  /** What the scan of the feature at `idx` leaves behind, once every candidate is seen. */
  lemma FinishScan(p: Provider, features: Dict<Geometry>, extents: map<int, Box>, cellSize: real,
                   idx: int, extentA: Box, candidates: seq<int>, minArea: real,
                   processedIn: set<(int, int)>, processed: set<(int, int)>, results: seq<OverlapResult>)
    requires features.Wf() && cellSize > 0.0 && ExtentsOf(features, extents)
    requires 0 <= idx < |features.keys| && features.keys[idx] in extents && extents[features.keys[idx]] == extentA
    requires forall x :: x in candidates <==> x != features.keys[idx] && x in extents && ShareCell(extentA, extents[x], cellSize)
    requires MarkedWithin(features.keys, processedIn, idx)
    requires NeighboursMarked(features, extents, cellSize, processedIn, idx)
    requires processedIn <= processed
    requires NewPairsFrom(processed, processedIn, features.keys[idx], candidates)
    requires MarkedAll(processed, features.keys[idx], candidates)
    requires CompleteBefore(p, features, minArea, results, idx)
    requires LaterFound(p, features, minArea, results, idx, candidates)
    ensures MarkedWithin(features.keys, processed, idx + 1)
    ensures NeighboursMarked(features, extents, cellSize, processed, idx + 1)
    ensures CompleteBefore(p, features, minArea, results, idx + 1)
  {
    var keys, items := features.keys, features.items;
    assert keys[..idx + 1] == keys[..idx] + [keys[idx]];
    // Every later overlapping feature was a candidate.
    forall j | idx < j < |keys| && Overlapping(p, items[keys[idx]], items[keys[j]], minArea)
      ensures keys[j] in candidates
    {
      IntersectingExtentsShareCell(extentA, extents[keys[j]], cellSize);
    }
  }

  /**
   * The tests one candidate pair goes through once it is marked: the
   * second feature must be a valid polygon with positive area and an
   * extent meeting the first's, and their intersection must exist and
   * reach `minOverlapArea`. The record then carries the ratio of the
   * overlap to the smaller feature and its class.
   */
  method ComparePair(p: Provider, fidA: int, geomA: Geometry, areaA: real, extentA: Box,
                     fidB: int, geomB: Geometry, extents: map<int, Box>,
                     minOverlapArea: real, duplicateThreshold: real, partialThreshold: real)
    returns (r: Option<OverlapResult>)
    ensures r.Some? <==>
      && ValidPolygon(geomB) && Area(geomB) > 0.0
      && fidB in extents && ExtentsIntersect(extentA, extents[fidB])
      && Intersection(p, geomA, geomB).Some?
      && Area(Intersection(p, geomA, geomB).value) >= minOverlapArea
    ensures r.Some? ==>
      && r.value.fidA == fidA && r.value.fidB == fidB
      && Intersection(p, geomA, geomB) == Some(r.value.overlapGeometry)
      && r.value.overlapArea == Area(r.value.overlapGeometry)
      && (Min(areaA, Area(geomB)) > 0.0 ==> r.value.overlapRatio == r.value.overlapArea / Min(areaA, Area(geomB)))
      && (Min(areaA, Area(geomB)) <= 0.0 ==> r.value.overlapRatio == 0.0)
      && r.value.overlapType == Classify(r.value.overlapRatio, duplicateThreshold, partialThreshold)
  {
    if !ValidPolygon(geomB) {
      return None;
    }
    var areaB := Area(geomB);
    if areaB <= 0.0 {
      return None;
    }
    if fidB !in extents {
      return None;
    }
    var extentB := extents[fidB];
    if !ExtentsIntersect(extentA, extentB) {
      return None;
    }
    var intersection := Intersection(p, geomA, geomB);
    if intersection.None? {
      return None;
    }
    var overlapArea := Area(intersection.value);
    if overlapArea < minOverlapArea {
      return None;
    }
    var minFeatureArea := Min(areaA, areaB);
    var overlapRatio := if minFeatureArea > 0.0 then overlapArea / minFeatureArea else 0.0;
    var overlapType := Classify(overlapRatio, duplicateThreshold, partialThreshold);
    return Some(OverlapResult(fidA, fidB, intersection.value, overlapArea, overlapRatio, overlapType));
  }

  /**
   * The inner loop of the pairwise search for the feature at position
   * `idx`: each candidate's pair is marked on first sight, and pairs
   * passing every test are reported.
   */
  method CompareCandidates(p: Provider, features: Dict<Geometry>, extents: map<int, Box>, cellSize: real,
                           idx: int, fidA: int, geomA: Geometry, areaA: real, extentA: Box,
                           candidates: seq<int>, minOverlapArea: real,
                           duplicateThreshold: real, partialThreshold: real,
                           processedIn: set<(int, int)>, resultsIn: seq<OverlapResult>)
    returns (processed: set<(int, int)>, results: seq<OverlapResult>)
    requires features.Wf() && cellSize > 0.0 && ExtentsOf(features, extents)
    requires 0 <= idx < |features.keys| && features.keys[idx] == fidA
    requires features.items[fidA] == geomA && Comparable(geomA)
    requires areaA == Area(geomA) && extents[fidA] == extentA
    requires NoDup(candidates)
    requires forall x :: x in candidates <==> x != fidA && x in extents && ShareCell(extentA, extents[x], cellSize)
    requires SoundResults(p, features, minOverlapArea, duplicateThreshold, partialThreshold, resultsIn, processedIn)
    requires MarkedWithin(features.keys, processedIn, idx)
    requires NeighboursMarked(features, extents, cellSize, processedIn, idx)
    requires CompleteBefore(p, features, minOverlapArea, resultsIn, idx)
    ensures SoundResults(p, features, minOverlapArea, duplicateThreshold, partialThreshold, results, processed)
    ensures MarkedWithin(features.keys, processed, idx + 1)
    ensures NeighboursMarked(features, extents, cellSize, processed, idx + 1)
    ensures CompleteBefore(p, features, minOverlapArea, results, idx + 1)
  {
    var keys, items := features.keys, features.items;
    processed, results := processedIn, resultsIn;
    for jj := 0 to |candidates|
      invariant processedIn <= processed
      invariant NewPairsFrom(processed, processedIn, fidA, candidates[..jj])
      invariant MarkedAll(processed, fidA, candidates[..jj])
      invariant SoundResults(p, features, minOverlapArea, duplicateThreshold, partialThreshold, results, processed)
      invariant CompleteBefore(p, features, minOverlapArea, results, idx)
      invariant LaterFound(p, features, minOverlapArea, results, idx, candidates[..jj])
    {
      var fidB := candidates[jj];
      assert candidates[..jj + 1] == candidates[..jj] + [fidB];
      var pairKey := PairKey(fidA, fidB);
      if pairKey in processed {
        MarkedIsEarlier(keys, idx, processed, processedIn, candidates, jj);
        LaterFoundExtend(p, features, minOverlapArea, results, idx, candidates[..jj], fidB);
        assert processed + {pairKey} == processed;
        MarkStep(processed, processedIn, fidA, candidates[..jj], fidB);
        continue;
      }
      ghost var processedBefore := processed;
      MarkStep(processed, processedIn, fidA, candidates[..jj], fidB);
      processed := processed + {pairKey};
      var compared := ComparePair(p, fidA, geomA, areaA, extentA, fidB, items[fidB], extents,
                                  minOverlapArea, duplicateThreshold, partialThreshold);
      if compared.None? {
        SoundMark(p, features, minOverlapArea, duplicateThreshold, partialThreshold, results, processedBefore, pairKey);
        LaterFoundExtend(p, features, minOverlapArea, results, idx, candidates[..jj], fidB);
        continue;
      }
      var r := compared.value;
      CandidateIsLater(features, extents, cellSize, idx, fidB, processedIn);
      assert Reported(p, features, minOverlapArea, duplicateThreshold, partialThreshold, r);
      ReportStep(p, features, minOverlapArea, duplicateThreshold, partialThreshold, results, processedBefore, r);
      ReportKeepsFound(p, features, minOverlapArea, results, r, idx, candidates[..jj]);
      results := results + [r];
      assert results[|results| - 1] == r;
      LaterFoundExtend(p, features, minOverlapArea, results, idx, candidates[..jj], fidB);
    }
    assert candidates[..|candidates|] == candidates;
    FinishScan(p, features, extents, cellSize, idx, extentA, candidates, minOverlapArea,
               processedIn, processed, results);
  }

  /** A feature that fails the checks contributes no marks and no records. */
  lemma SkipFeature(p: Provider, features: Dict<Geometry>, extents: map<int, Box>, cellSize: real,
                    minArea: real, processed: set<(int, int)>, results: seq<OverlapResult>, idx: int)
    requires features.Wf() && cellSize > 0.0 && 0 <= idx < |features.keys|
    requires !Comparable(features.items[features.keys[idx]])
    requires MarkedWithin(features.keys, processed, idx)
    requires NeighboursMarked(features, extents, cellSize, processed, idx)
    requires CompleteBefore(p, features, minArea, results, idx)
    ensures MarkedWithin(features.keys, processed, idx + 1)
    ensures NeighboursMarked(features, extents, cellSize, processed, idx + 1)
    ensures CompleteBefore(p, features, minArea, results, idx + 1)
  {
    assert features.keys[..idx + 1] == features.keys[..idx] + [features.keys[idx]];
  }

  /** Two maps that record the same extents are equal. */
  lemma ExtentsUnique(features: Dict<Geometry>, e1: map<int, Box>, e2: map<int, Box>)
    requires ExtentsOf(features, e1) && ExtentsOf(features, e2)
    ensures e1 == e2
  {
    forall x
      ensures x in e1 <==> x in e2
      ensures x in e1 ==> e1[x] == e2[x]
    {
      if x in e1 {
        assert Some(e1[x]) == GetExtent(features.items[x]) == Some(e2[x]);
      }
    }
  }

  /**
   * `find_pairwise_overlaps`: every pair of comparable features whose
   * extents meet and whose intersection reaches `minOverlapArea` is
   * reported exactly once, ordered as the features are; nothing else is.
   */
  method FindPairwiseOverlaps(p: Provider, features: Dict<Geometry>, minOverlapArea: real,
                              duplicateThreshold: real, partialThreshold: real)
    returns (results: seq<OverlapResult>)
    requires features.Wf()
    ensures forall n :: 0 <= n < |results| ==>
      Reported(p, features, minOverlapArea, duplicateThreshold, partialThreshold, results[n])
    ensures DistinctPairs(results)
    ensures forall i, j ::
      0 <= i < j < |features.keys| &&
      Overlapping(p, features.items[features.keys[i]], features.items[features.keys[j]], minOverlapArea)
      ==> Found(results, features.keys[i], features.keys[j])
  {
    results := [];
    if |features.keys| == 0 {
      return;
    }
    var extents, totalWidth, totalHeight := MeasureExtents(features);
    if |extents| == 0 {
      // No feature has an extent, so none is comparable.
      assert forall x :: x !in extents;
      return;
    }
    var cellSize := PairwiseCellSize(totalWidth, totalHeight, |extents|);
    var sindex := BuildIndex(features, cellSize);
    ExtentsUnique(features, extents, sindex.extents);
    var processedPairs: set<(int, int)> := {};
    var fids := features.keys;
    for idx := 0 to |fids|
      invariant sindex.Valid() && sindex.Exact()
      invariant sindex.extents == extents && sindex.cellSize == cellSize
      invariant SoundResults(p, features, minOverlapArea, duplicateThreshold, partialThreshold, results, processedPairs)
      invariant MarkedWithin(fids, processedPairs, idx)
      invariant NeighboursMarked(features, extents, cellSize, processedPairs, idx)
      invariant CompleteBefore(p, features, minOverlapArea, results, idx)
    {
      var fidA := fids[idx];
      var geomA := features.items[fidA];
      if !ValidPolygon(geomA) {
        SkipFeature(p, features, extents, cellSize, minOverlapArea, processedPairs, results, idx);
        continue;
      }
      var areaA := Area(geomA);
      if areaA <= 0.0 {
        SkipFeature(p, features, extents, cellSize, minOverlapArea, processedPairs, results, idx);
        continue;
      }
      if fidA !in extents {
        SkipFeature(p, features, extents, cellSize, minOverlapArea, processedPairs, results, idx);
        continue;
      }
      var extentA := extents[fidA];
      var candidates := sindex.QueryCandidates(fidA);
      forall x ensures x in candidates <==> x != fidA && x in extents && ShareCell(extentA, extents[x], cellSize) {
        ExactLookup(sindex, extentA, x);
      }
      processedPairs, results := CompareCandidates(p, features, extents, cellSize, idx, fidA, geomA, areaA, extentA,
                                                   candidates, minOverlapArea, duplicateThreshold, partialThreshold,
                                                   processedPairs, results);
    }
  }

  /** One `(fid, intersection_geometry, intersection_area)` entry of the buffer search. */
  datatype BufferHit = BufferHit(fid: int, intersection: Geometry, area: real)

  /**
   * A valid polygon whose extent meets `bufferExtent` and whose
   * intersection with `buffer` has at least `minArea`.
   */
  predicate MeetsBuffer(p: Provider, g: Geometry, buffer: Geometry, bufferExtent: Box, minArea: real) {
    && ValidPolygon(g) && GetExtent(g).Some?
    && ExtentsIntersect(bufferExtent, GetExtent(g).value)
    && Intersection(p, g, buffer).Some?
    && Area(Intersection(p, g, buffer).value) >= minArea
  }

  /** An entry names a feature meeting the buffer and carries its intersection and that area. */
  ghost predicate IsBufferHit(p: Provider, features: Dict<Geometry>, buffer: Geometry, bufferExtent: Box,
                              minArea: real, h: BufferHit)
  {
    && h.fid in features.items
    && MeetsBuffer(p, features.items[h.fid], buffer, bufferExtent, minArea)
    && Intersection(p, features.items[h.fid], buffer) == Some(h.intersection)
    && h.area == Area(h.intersection)
  }

  /** Some entry names `x`. */
  ghost predicate Listed(results: seq<BufferHit>, x: int) {
    exists n :: 0 <= n < |results| && results[n].fid == x
  }

  /** The tests of the buffer search for one feature. */
  method TestAgainstBuffer(p: Provider, fid: int, geom: Geometry, bufferGeometry: Geometry, bufferExtent: Box,
                           minIntersectionArea: real)
    returns (hit: Option<BufferHit>)
    ensures hit.Some? <==> MeetsBuffer(p, geom, bufferGeometry, bufferExtent, minIntersectionArea)
    ensures hit.Some? ==>
      && hit.value.fid == fid
      && Intersection(p, geom, bufferGeometry) == Some(hit.value.intersection)
      && hit.value.area == Area(hit.value.intersection)
  {
    if !ValidPolygon(geom) {
      return None;
    }
    var featExtent := GetExtent(geom);
    if featExtent.None? {
      return None;
    }
    if !ExtentsIntersect(bufferExtent, featExtent.value) {
      return None;
    }
    var intersection := Intersection(p, geom, bufferGeometry);
    if intersection.None? {
      return None;
    }
    var interArea := Area(intersection.value);
    if interArea >= minIntersectionArea {
      return Some(BufferHit(fid, intersection.value, interArea));
    }
    return None;
  }

  /** An entry list stays listing `x` when an entry is appended. */
  lemma ListedGrows(results: seq<BufferHit>, h: BufferHit, x: int)
    requires Listed(results, x)
    ensures Listed(results + [h], x)
  {
    var n :| 0 <= n < |results| && results[n].fid == x;
    assert (results + [h])[n] == results[n];
  }

  /** The scan of `find_features_intersecting_buffer` over all features, against a buffer with an extent. */
  method ScanForBuffer(p: Provider, features: Dict<Geometry>, bufferGeometry: Geometry, bufferExtent: Box,
                       minIntersectionArea: real)
    returns (results: seq<BufferHit>)
    requires features.Wf()
    ensures forall n :: 0 <= n < |results| ==>
      IsBufferHit(p, features, bufferGeometry, bufferExtent, minIntersectionArea, results[n])
    ensures forall x ::
      x in features.items && MeetsBuffer(p, features.items[x], bufferGeometry, bufferExtent, minIntersectionArea)
      ==> Listed(results, x)
    ensures forall m, n :: 0 <= m < n < |results| ==> Precedes(features.keys, results[m].fid, results[n].fid)
  {
    results := [];
    var keys, items := features.keys, features.items;
    // Position in `keys` of each entry's feature.
    ghost var pos: seq<int> := [];
    for k := 0 to |keys|
      invariant |pos| == |results|
      invariant forall n :: 0 <= n < |results| ==> 0 <= pos[n] < k && keys[pos[n]] == results[n].fid
      invariant forall m, n :: 0 <= m < n < |results| ==> pos[m] < pos[n]
      invariant forall n :: 0 <= n < |results| ==>
        IsBufferHit(p, features, bufferGeometry, bufferExtent, minIntersectionArea, results[n])
      invariant forall i ::
        0 <= i < k && MeetsBuffer(p, items[keys[i]], bufferGeometry, bufferExtent, minIntersectionArea)
        ==> Listed(results, keys[i])
    {
      var fid := keys[k];
      var hit := TestAgainstBuffer(p, fid, items[fid], bufferGeometry, bufferExtent, minIntersectionArea);
      if hit.Some? {
        forall i |
          0 <= i < k && MeetsBuffer(p, items[keys[i]], bufferGeometry, bufferExtent, minIntersectionArea)
          ensures Listed(results + [hit.value], keys[i])
        {
          ListedGrows(results, hit.value, keys[i]);
        }
        results := results + [hit.value];
        pos := pos + [k];
        assert results[|results| - 1] == hit.value;
      }
    }
    forall x | x in items && MeetsBuffer(p, items[x], bufferGeometry, bufferExtent, minIntersectionArea)
      ensures Listed(results, x)
    {
      var i := PositionOf(keys, x);
    }
    forall m, n | 0 <= m < n < |results|
      ensures Precedes(keys, results[m].fid, results[n].fid)
    {
      assert keys[pos[m]] == results[m].fid && keys[pos[n]] == results[n].fid;
    }
  }

  /**
   * `find_features_intersecting_buffer`: exactly the features meeting the
   * buffer, once each, in iteration order; nothing for a null buffer or
   * one without an extent.
   */
  method FindFeaturesIntersectingBuffer(p: Provider, features: Dict<Geometry>, bufferGeometry: Geometry,
                                        minIntersectionArea: real)
    returns (results: seq<BufferHit>)
    requires features.Wf()
    ensures GetExtent(bufferGeometry).None? ==> results == []
    ensures GetExtent(bufferGeometry).Some? ==>
      forall n :: 0 <= n < |results| ==>
        IsBufferHit(p, features, bufferGeometry, GetExtent(bufferGeometry).value, minIntersectionArea, results[n])
    ensures GetExtent(bufferGeometry).Some? ==>
      forall x ::
        x in features.items &&
        MeetsBuffer(p, features.items[x], bufferGeometry, GetExtent(bufferGeometry).value, minIntersectionArea)
        ==> Listed(results, x)
    ensures forall m, n :: 0 <= m < n < |results| ==> Precedes(features.keys, results[m].fid, results[n].fid)
  {
    results := [];
    if IsNull(bufferGeometry) {
      return;
    }
    var bufferExtentOpt := GetExtent(bufferGeometry);
    if bufferExtentOpt.None? {
      return;
    }
    results := ScanForBuffer(p, features, bufferGeometry, bufferExtentOpt.value, minIntersectionArea);
  }
}
