/**
 * The geometry capability the spatial engine consumes.
 *
 * A native geometry is an opaque handle; here it is a value recording the
 * measures the native library reports for it (type, point count, area,
 * length, bounding extent). The two operations that build new geometries,
 * boolean intersection and buffering, are supplied by a `Provider` and are
 * otherwise unconstrained. On top of these sit the defensive wrappers of
 * core/geometry.py: null checks, area with a zero fallback, extent, polygon
 * and line validation, intersection and buffer.
 */
module Geometry {
  import opened Basics

  /** A bounding box `(xmin, ymin, xmax, ymax)`. */
  datatype Extent = Extent(xmin: real, ymin: real, xmax: real, ymax: real)

  predicate WellFormed(e: Extent) {
    e.xmin <= e.xmax && e.ymin <= e.ymax
  }

  /** The extent of a real geometry: its minimum never exceeds its maximum. */
  type Box = e: Extent | WellFormed(e) witness Extent(0.0, 0.0, 0.0, 0.0)

  /** Areas and lengths reported by the native library are never negative. */
  type Measure = r: real | r >= 0.0

  /** The native geometry type names the wrappers inspect. */
  datatype Kind = Polygon | Polyline | Point | Multipoint | Multipatch

  /**
   * `Null` is Python's `None`. For a `Geom`, `extent` is `None` when the
   * native library fails to produce one.
   */
  datatype Geometry =
    | Null
    | Geom(kind: Kind, pointCount: nat, area: Measure, length: Measure, extent: Option<Box>)

  /**
   * The native operations that create geometries. Either may fail, which
   * the wrappers see as `None`. Only polygon-dimension intersection is used.
   */
  datatype Provider = Provider(
    intersect: (Geometry, Geometry) -> Option<Geometry>,
    buffer: (Geometry, real) -> Option<Geometry>)

  /** `is_geometry_null`: missing, without points, a polygon of zero area or a line of zero length. */
  predicate IsNull(g: Geometry) {
    || g.Null?
    || g.pointCount == 0
    || (g.kind == Polygon && g.area == 0.0)
    || (g.kind == Polyline && g.length == 0.0)
  }

  /** `get_geometry_area`: 0 for a null geometry. */
  function Area(g: Geometry): (r: real)
    ensures r >= 0.0
    ensures r > 0.0 ==> !IsNull(g) && r == g.area
  {
    if IsNull(g) then 0.0 else g.area
  }

  /** `get_geometry_extent`: `None` for a null geometry or when the library fails. */
  function GetExtent(g: Geometry): (r: Option<Box>)
    ensures r.Some? ==> !IsNull(g) && r == g.extent
  {
    if IsNull(g) then None else g.extent
  }

  /** `validate_polygon_geometry`: a non-null polygon of positive area. */
  predicate ValidPolygon(g: Geometry) {
    !IsNull(g) && g.kind == Polygon && Area(g) > 0.0
  }

  /** `validate_line_geometry`: a non-null polyline of positive length. */
  predicate ValidLine(g: Geometry) {
    !IsNull(g) && g.kind == Polyline && g.length > 0.0
  }

  /**
   * `get_intersection_geometry` with polygon dimension: `None` for null
   * operands, on failure, for a null result, and for a result without
   * positive area.
   */
  function Intersection(p: Provider, a: Geometry, b: Geometry): (r: Option<Geometry>)
    ensures r.Some? ==> !IsNull(a) && !IsNull(b) && !IsNull(r.value) && Area(r.value) > 0.0
    ensures r.Some? ==> p.intersect(a, b) == r
  {
    if IsNull(a) || IsNull(b) then None
    else match p.intersect(a, b)
      case None => None
      case Some(i) => if IsNull(i) || Area(i) <= 0.0 then None else Some(i)
  }

  /**
   * `buffer_geometry`: `None` for a null input; a non-positive distance
   * returns the input unchanged; otherwise the provider's buffer.
   */
  function Buffer(p: Provider, g: Geometry, distance: real): (r: Option<Geometry>)
    ensures IsNull(g) ==> r == None
    ensures !IsNull(g) && distance <= 0.0 ==> r == Some(g)
    ensures !IsNull(g) && distance > 0.0 ==> r == p.buffer(g, distance)
  {
    if IsNull(g) then None
    else if distance <= 0.0 then Some(g)
    else p.buffer(g, distance)
  }
}
