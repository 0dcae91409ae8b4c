// The building overlap checker: its pairwise search, the statistics it
// reports, and the small pure pieces of its driver (the minimum-area
// override and the UTM zone used when the input is geographic).

module BuildingOverlap {
  import opened Basics
  import opened Geometry
  import opened SpatialIndexing
  import opened SpatialOps

  /**
   * `_find_overlaps`: nothing for fewer than two features; otherwise the
   * same indexed pairwise search as `find_pairwise_overlaps`, with the
   * configured thresholds.
   */
  method FindOverlaps(p: Provider, geometries: Dict<Geometry>, minArea: real,
                      duplicateRatioMin: real, partialRatioMin: real)
    returns (results: seq<OverlapResult>)
    requires geometries.Wf()
    ensures |geometries.keys| < 2 ==> results == []
    ensures forall n :: 0 <= n < |results| ==>
      Reported(p, geometries, minArea, duplicateRatioMin, partialRatioMin, results[n])
    ensures DistinctPairs(results)
    ensures forall i, j ::
      0 <= i < j < |geometries.keys| &&
      Overlapping(p, geometries.items[geometries.keys[i]], geometries.items[geometries.keys[j]], minArea)
      ==> Found(results, geometries.keys[i], geometries.keys[j])
  {
    results := [];
    if |geometries.keys| < 2 {
      return;
    }
    results := FindPairwiseOverlaps(p, geometries, minArea, duplicateRatioMin, partialRatioMin);
  }

  /** The tallies `_calculate_stats` returns. */
  datatype OverlapStats = OverlapStats(duplicates: nat, partials: nat, slivers: nat, totalArea: real)

  /** How many records carry class `t`. */
  function CountOf(overlaps: seq<OverlapResult>, t: OverlapType): (c: nat)
    ensures c <= |overlaps|
    ensures c == 0 <==> forall n :: 0 <= n < |overlaps| ==> overlaps[n].overlapType != t
  {
    if overlaps == [] then 0
    else (if overlaps[0].overlapType == t then 1 else 0) + CountOf(overlaps[1..], t)
  }

  /** The sum of the records' overlap areas. */
  function AreaSum(overlaps: seq<OverlapResult>): real {
    if overlaps == [] then 0.0 else overlaps[0].overlapArea + AreaSum(overlaps[1..])
  }

  /** Counting over a concatenation adds up. */
  lemma {:induction false} CountOfAppend(a: seq<OverlapResult>, b: seq<OverlapResult>, t: OverlapType)
    ensures CountOf(a + b, t) == CountOf(a, t) + CountOf(b, t)
  {
    if a != [] {
      assert (a + b)[1..] == a[1..] + b;
      CountOfAppend(a[1..], b, t);
    } else {
      assert a + b == b;
    }
  }

  /** Summing over a concatenation adds up. */
  lemma {:induction false} AreaSumAppend(a: seq<OverlapResult>, b: seq<OverlapResult>)
    ensures AreaSum(a + b) == AreaSum(a) + AreaSum(b)
  {
    if a != [] {
      assert (a + b)[1..] == a[1..] + b;
      AreaSumAppend(a[1..], b);
    } else {
      assert a + b == b;
    }
  }

  /** The three classes partition the records. */
  lemma {:induction false} ClassesPartition(overlaps: seq<OverlapResult>)
    ensures CountOf(overlaps, Duplicate) + CountOf(overlaps, Partial) + CountOf(overlaps, Sliver) == |overlaps|
  {
    if overlaps != [] {
      ClassesPartition(overlaps[1..]);
    }
  }

  /** With no negative overlap area among the records, the total is not negative. */
  lemma {:induction false} AreaSumNonNegative(overlaps: seq<OverlapResult>)
    requires forall n :: 0 <= n < |overlaps| ==> overlaps[n].overlapArea >= 0.0
    ensures AreaSum(overlaps) >= 0.0
  {
    if overlaps != [] {
      AreaSumNonNegative(overlaps[1..]);
    }
  }

  /** Every record the pairwise search reports has a positive area, so their total is positive unless there are none. */
  lemma ReportedAreaPositive(p: Provider, features: Dict<Geometry>, minArea: real,
                             duplicateThreshold: real, partialThreshold: real, overlaps: seq<OverlapResult>)
    requires forall n :: 0 <= n < |overlaps| ==>
      Reported(p, features, minArea, duplicateThreshold, partialThreshold, overlaps[n])
    ensures overlaps != [] ==> AreaSum(overlaps) > 0.0
  {
    if overlaps != [] {
      AreaSumNonNegative(overlaps[1..]);
    }
  }

  /**
   * `_calculate_stats`: one pass that adds every area to the total and
   * counts DUPLICATE, PARTIAL and, for any other class, SLIVER.
   */
  method CalculateStats(overlaps: seq<OverlapResult>) returns (stats: OverlapStats)
    ensures stats.duplicates == CountOf(overlaps, Duplicate)
    ensures stats.partials == CountOf(overlaps, Partial)
    ensures stats.slivers == CountOf(overlaps, Sliver)
    ensures stats.duplicates + stats.partials + stats.slivers == |overlaps|
    ensures stats.totalArea == AreaSum(overlaps)
  {
    stats := OverlapStats(0, 0, 0, 0.0);
    for k := 0 to |overlaps|
      invariant stats.duplicates == CountOf(overlaps[..k], Duplicate)
      invariant stats.partials == CountOf(overlaps[..k], Partial)
      invariant stats.slivers == CountOf(overlaps[..k], Sliver)
      invariant stats.totalArea == AreaSum(overlaps[..k])
    {
      var overlap := overlaps[k];
      TallyStep(overlaps, k);
      stats := stats.(totalArea := stats.totalArea + overlap.overlapArea);
      if overlap.overlapType == Duplicate {
        stats := stats.(duplicates := stats.duplicates + 1);
      } else if overlap.overlapType == Partial {
        stats := stats.(partials := stats.partials + 1);
      } else {
        stats := stats.(slivers := stats.slivers + 1);
      }
    }
    assert overlaps[..|overlaps|] == overlaps;
    ClassesPartition(overlaps);
  }

  /** Tallying one more record adds its area, and one to the count of its own class only. */
  lemma TallyStep(overlaps: seq<OverlapResult>, k: nat)
    requires k < |overlaps|
    ensures CountOf(overlaps[..k + 1], Duplicate) == CountOf(overlaps[..k], Duplicate) + (if overlaps[k].overlapType == Duplicate then 1 else 0)
    ensures CountOf(overlaps[..k + 1], Partial) == CountOf(overlaps[..k], Partial) + (if overlaps[k].overlapType == Partial then 1 else 0)
    ensures CountOf(overlaps[..k + 1], Sliver) == CountOf(overlaps[..k], Sliver) + (if overlaps[k].overlapType == Sliver then 1 else 0)
    ensures AreaSum(overlaps[..k + 1]) == AreaSum(overlaps[..k]) + overlaps[k].overlapArea
  {
    assert overlaps[..k + 1] == overlaps[..k] + [overlaps[k]];
    AreaSumAppend(overlaps[..k], [overlaps[k]]);
    CountOfAppend(overlaps[..k], [overlaps[k]], Duplicate);
    CountOfAppend(overlaps[..k], [overlaps[k]], Partial);
    CountOfAppend(overlaps[..k], [overlaps[k]], Sliver);
  }

  /**
   * The minimum overlap area of a run: the caller's value when one is
   * given, even 0, and the configured default only when none is.
   */
  function EffectiveMinArea(minOverlapArea: Option<real>, configured: real): (r: real)
    ensures minOverlapArea.Some? ==> r == minOverlapArea.value
    ensures minOverlapArea.None? ==> r == configured
  {
    match minOverlapArea
    case None => configured
    case Some(v) => v
  }

  /** Python's `int()` on a real: truncation toward zero. */
  function Trunc(x: real): (n: int)
    ensures 0.0 <= x ==> n as real <= x < n as real + 1.0
    ensures x < 0.0 ==> n as real - 1.0 < x <= n as real
  {
    if x >= 0.0 then x.Floor else -((-x).Floor)
  }

  /** The UTM zone of a longitude, as the driver computes it. */
  function UtmZone(lon: real): (z: int)
    ensures -180.0 <= lon ==> 1 <= z
    ensures lon <= 180.0 ==> z <= 61
  {
    Trunc((lon + 180.0) / 6.0) + 1
  }

  /** From 180° west on, the zone is the 6° band holding the longitude, counted from 1. */
  lemma UtmZoneBand(lon: real)
    requires lon >= -180.0
    ensures var z := UtmZone(lon);
      -180.0 + 6.0 * (z - 1) as real <= lon < -180.0 + 6.0 * z as real
  {
    var q := (lon + 180.0) / 6.0;
    assert q * 6.0 == lon + 180.0;
  }

  /** West of the antimeridian the zone is one of the 60 UTM zones. */
  lemma UtmZoneRange(lon: real)
    requires -180.0 <= lon < 180.0
    ensures 1 <= UtmZone(lon) <= 60
  {
    UtmZoneBand(lon);
  }

  /** At longitude 180 exactly the formula gives zone 61, which does not exist. */
  lemma UtmZoneAtAntimeridian()
    ensures UtmZone(180.0) == 61
  {
    assert (180.0 + 180.0) / 6.0 == 60.0;
  }

  /** The zone with longitude 180 folded into zone 60, the zone it borders. */
  function UtmZoneCorrected(lon: real): (z: int)
    ensures lon < 180.0 ==> z == UtmZone(lon)
  {
    var z := UtmZone(lon);
    if z > 60 then 60 else z
  }

  /** On the whole range of longitudes, the corrected zone is one of the 60 UTM zones. */
  lemma UtmZoneCorrectedRange(lon: real)
    requires -180.0 <= lon <= 180.0
    ensures 1 <= UtmZoneCorrected(lon) <= 60
  {
    if lon < 180.0 {
      UtmZoneRange(lon);
    } else {
      UtmZoneAtAntimeridian();
    }
  }

  /** The EPSG code of UTM zone `zone`: 326xx north of the equator (and on it), 327xx south. */
  function UtmEpsg(lat: real, zone: int): (code: int)
    ensures lat >= 0.0 ==> code - 32600 == zone
    ensures lat < 0.0 ==> code - 32700 == zone
  {
    if lat >= 0.0 then 32600 + zone else 32700 + zone
  }

  /**
   * The EPSG code the driver projects to, for the centre of the input's
   * extent, with the zone formula as written.
   */
  function ProjectionEpsg(centerLon: real, centerLat: real): (code: int)
    ensures -180.0 <= centerLon < 180.0 && centerLat >= 0.0 ==> 32601 <= code <= 32660
    ensures -180.0 <= centerLon < 180.0 && centerLat < 0.0 ==> 32701 <= code <= 32760
  {
    UtmEpsg(centerLat, UtmZone(centerLon))
  }

  /** On the antimeridian the driver picks 32661 or 32761, which are not UTM codes. */
  lemma ProjectionEpsgAtAntimeridian(centerLat: real)
    ensures centerLat >= 0.0 ==> ProjectionEpsg(180.0, centerLat) == 32661
    ensures centerLat < 0.0 ==> ProjectionEpsg(180.0, centerLat) == 32761
  {
    UtmZoneAtAntimeridian();
  }

  /** The EPSG code with the corrected zone. */
  function ProjectionEpsgCorrected(centerLon: real, centerLat: real): (code: int)
    ensures centerLon < 180.0 ==> code == ProjectionEpsg(centerLon, centerLat)
  {
    UtmEpsg(centerLat, UtmZoneCorrected(centerLon))
  }

  /** For a centre on the globe, the code is a WGS 84 UTM north (32601–32660) or south (32701–32760) code. */
  lemma ProjectionEpsgCorrectedRange(centerLon: real, centerLat: real)
    requires -180.0 <= centerLon <= 180.0
    ensures centerLat >= 0.0 ==> 32601 <= ProjectionEpsgCorrected(centerLon, centerLat) <= 32660
    ensures centerLat < 0.0 ==> 32701 <= ProjectionEpsgCorrected(centerLon, centerLat) <= 32760
  {
    UtmZoneCorrectedRange(centerLon);
  }
}
