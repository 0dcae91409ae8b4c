/**
 * The uniform grid index of core/spatial_ops.py and the two pure tests
 * beside it: the bounding-box intersection test and the overlap-ratio
 * classifier.
 */
module SpatialIndexing {
  import opened Basics
  import opened Geometry

  /** A grid cell `(col, row)`. */
  type Cell = (int, int)

  /** Scaling by a positive factor keeps `lo <= q < hi`. */
  lemma Scale(lo: real, q: real, hi: real, c: real)
    requires c > 0.0 && lo <= q < hi
    ensures lo * c <= q * c < hi * c
  {
    assert (q - lo) * c >= 0.0;
    assert (hi - q) * c > 0.0;
  }

  /** A band index `f` with `f <= v / d < f + 1` bounds `v` by multiples of `d`. */
  lemma FloorBand(v: real, d: real, f: int)
    requires d > 0.0
    requires f as real <= v / d < f as real + 1.0
    ensures (f as real) * d <= v < (f as real + 1.0) * d
  {
    var q := v / d;
    var lo, hi := f as real, f as real + 1.0;
    Scale(lo, q, hi, d);
    assert q * d == v;
    assert lo * d <= v;
    assert v < hi * d;
  }

  /**
   * Python's `int(v // d)` for a positive divisor, shared by the grid index
   * and the endpoint hash of the road engine: the index of the band of
   * width `d` holding `v`.
   */
  function FloorDiv(v: real, d: real): (b: int)
    requires d > 0.0
    ensures (b as real) * d <= v < (b as real + 1.0) * d
  {
    FloorBand(v, d, (v / d).Floor);
    (v / d).Floor
  }

  lemma FloorDivMonotone(u: real, v: real, d: real)
    requires d > 0.0 && u <= v
    ensures FloorDiv(u, d) <= FloorDiv(v, d)
  {
    assert u / d <= v / d by {
      assert v / d - u / d == (v - u) / d;
    }
  }

  function ColMin(e: Extent, cs: real): int requires cs > 0.0 { FloorDiv(e.xmin, cs) }
  function ColMax(e: Extent, cs: real): int requires cs > 0.0 { FloorDiv(e.xmax, cs) }
  function RowMin(e: Extent, cs: real): int requires cs > 0.0 { FloorDiv(e.ymin, cs) }
  function RowMax(e: Extent, cs: real): int requires cs > 0.0 { FloorDiv(e.ymax, cs) }

  /** Cell `k` lies in the inclusive col/row ranges an extent spans. */
  predicate Covers(e: Extent, cs: real, k: Cell)
    requires cs > 0.0
  {
    ColMin(e, cs) <= k.0 <= ColMax(e, cs) && RowMin(e, cs) <= k.1 <= RowMax(e, cs)
  }

  /** Some cell is spanned by both extents (closed form). */
  predicate ShareCell(e1: Extent, e2: Extent, cs: real)
    requires cs > 0.0
  {
    && ColMin(e1, cs) <= ColMax(e2, cs) && ColMin(e2, cs) <= ColMax(e1, cs)
    && RowMin(e1, cs) <= RowMax(e2, cs) && RowMin(e2, cs) <= RowMax(e1, cs)
    && ColMin(e1, cs) <= ColMax(e1, cs) && RowMin(e1, cs) <= RowMax(e1, cs)
    && ColMin(e2, cs) <= ColMax(e2, cs) && RowMin(e2, cs) <= RowMax(e2, cs)
  }

  /** The closed form means what it says: a common cell exists. */
  lemma ShareCellMeansCommonCell(e1: Extent, e2: Extent, cs: real)
    requires cs > 0.0
    ensures ShareCell(e1, e2, cs) <==> exists k :: Covers(e1, cs, k) && Covers(e2, cs, k)
  {
    if ShareCell(e1, e2, cs) {
      var k := (if ColMin(e1, cs) <= ColMin(e2, cs) then ColMin(e2, cs) else ColMin(e1, cs),
                if RowMin(e1, cs) <= RowMin(e2, cs) then RowMin(e2, cs) else RowMin(e1, cs));
      assert Covers(e1, cs, k) && Covers(e2, cs, k);
    }
  }

  /**
   * `extents_intersect`: the strict comparisons make boxes that only touch
   * along an edge or at a corner count as intersecting, so two well-formed
   * boxes intersect exactly when they have a point in common.
   */
  predicate ExtentsIntersect(a: Extent, b: Extent): (r: bool)
    ensures WellFormed(a) && WellFormed(b) ==>
      (r <==> exists x, y :: InBox(a, x, y) && InBox(b, x, y))
  {
    var r := !(a.xmax < b.xmin || a.xmin > b.xmax || a.ymax < b.ymin || a.ymin > b.ymax);
    var x, y := Max(a.xmin, b.xmin), Max(a.ymin, b.ymin);
    assert r && WellFormed(a) && WellFormed(b) ==> InBox(a, x, y) && InBox(b, x, y);
    r
  }

  /** The point `(x, y)` lies in the closed box `e`. */
  predicate InBox(e: Extent, x: real, y: real) {
    e.xmin <= x <= e.xmax && e.ymin <= y <= e.ymax
  }

  /** The test is symmetric, and it holds exactly when the closed intervals overlap on both axes. */
  lemma ExtentsIntersectSymmetric(a: Extent, b: Extent)
    ensures ExtentsIntersect(a, b) == ExtentsIntersect(b, a)
    ensures ExtentsIntersect(a, b) <==>
      (a.xmin <= b.xmax && b.xmin <= a.xmax && a.ymin <= b.ymax && b.ymin <= a.ymax)
  {
  }

  /** Two unit squares meeting only at the corner (1, 1) intersect. */
  lemma CornerContactIntersects()
    ensures ExtentsIntersect(Extent(0.0, 0.0, 1.0, 1.0), Extent(1.0, 1.0, 2.0, 2.0))
    ensures !ExtentsIntersect(Extent(0.0, 0.0, 1.0, 1.0), Extent(1.5, 0.0, 2.0, 1.0))
  {
  }

  /**
   * Grid soundness: well-formed extents that intersect always span a
   * common cell, for any positive cell size.
   */
  lemma IntersectingExtentsShareCell(e1: Extent, e2: Extent, cs: real)
    requires cs > 0.0 && WellFormed(e1) && WellFormed(e2)
    requires ExtentsIntersect(e1, e2)
    ensures ShareCell(e1, e2, cs) && ShareCell(e2, e1, cs)
  {
    FloorDivMonotone(e1.xmin, e2.xmax, cs);
    FloorDivMonotone(e2.xmin, e1.xmax, cs);
    FloorDivMonotone(e1.ymin, e2.ymax, cs);
    FloorDivMonotone(e2.ymin, e1.ymax, cs);
    FloorDivMonotone(e1.xmin, e1.xmax, cs);
    FloorDivMonotone(e1.ymin, e1.ymax, cs);
    FloorDivMonotone(e2.xmin, e2.xmax, cs);
    FloorDivMonotone(e2.ymin, e2.ymax, cs);
  }

  /** The three overlap classes. */
  datatype OverlapType = Duplicate | Partial | Sliver

  /**
   * `classify_overlap`: DUPLICATE from the duplicate threshold up, PARTIAL
   * from the partial threshold up to it, SLIVER below both.
   */
  function Classify(ratio: real, duplicateThreshold: real, partialThreshold: real): (t: OverlapType)
    ensures t == Duplicate <==> ratio >= duplicateThreshold
    ensures t == Partial <==> partialThreshold <= ratio < duplicateThreshold
    ensures t == Sliver <==> ratio < duplicateThreshold && ratio < partialThreshold
  {
    if ratio >= duplicateThreshold then Duplicate
    else if ratio >= partialThreshold then Partial
    else Sliver
  }

  /** The bucket of a cell, empty when the cell has none yet. */
  function Bucket(grid: map<Cell, seq<int>>, k: Cell): seq<int> {
    if k in grid then grid[k] else []
  }

  /** Cells of the rectangle `c0..c1 x r0..r1` visited before `(col, row)` in col-major order. */
  predicate Scanned(k: Cell, c0: int, r0: int, r1: int, col: int, row: int) {
    (c0 <= k.0 < col && r0 <= k.1 <= r1) || (k.0 == col && r0 <= k.1 < row)
  }

  /**
   * `grid` is `g0` with `fid` appended to the bucket of every cell scanned
   * before `(col, row)`, and otherwise unchanged.
   */
  ghost predicate AppendedUpTo(grid: map<Cell, seq<int>>, g0: map<Cell, seq<int>>, fid: int,
                               c0: int, r0: int, r1: int, col: int, row: int)
  {
    && (forall k :: k in grid <==> k in g0 || Scanned(k, c0, r0, r1, col, row))
    && (forall k :: k in grid ==>
          grid[k] == if Scanned(k, c0, r0, r1, col, row) then Bucket(g0, k) + [fid] else g0[k])
  }

  lemma AppendStep(grid: map<Cell, seq<int>>, g0: map<Cell, seq<int>>, fid: int,
                   c0: int, r0: int, r1: int, col: int, row: int)
    requires AppendedUpTo(grid, g0, fid, c0, r0, r1, col, row)
    requires c0 <= col && r0 <= row <= r1
    ensures AppendedUpTo(grid[(col, row) := Bucket(grid, (col, row)) + [fid]], g0, fid, c0, r0, r1, col, row + 1)
  {
    var key := (col, row);
    assert !Scanned(key, c0, r0, r1, col, row);
    assert Bucket(grid, key) == Bucket(g0, key);
  }

  lemma NextColumn(grid: map<Cell, seq<int>>, g0: map<Cell, seq<int>>, fid: int,
                   c0: int, r0: int, r1: int, col: int)
    requires AppendedUpTo(grid, g0, fid, c0, r0, r1, col, r1 + 1)
    requires c0 <= col && r0 <= r1 + 1
    ensures AppendedUpTo(grid, g0, fid, c0, r0, r1, col + 1, r0)
  {
    var rowEnd, nextCol := r1 + 1, col + 1;
    assert forall k :: Scanned(k, c0, r0, r1, col, rowEnd) <==> Scanned(k, c0, r0, r1, nextCol, r0);
  }

  lemma Element(s: set<int>) returns (x: int)
    requires s != {}
    ensures x in s
  {
    if forall y :: y !in s {
      assert false;
    }
    x :| x in s;
  }

  /**
   * The index invariant: every indexed id sits in the bucket of every cell
   * its extent spans, buckets hold indexed ids only, and the recorded
   * extent is the geometry's.
   */
  ghost predicate IndexValid(cs: real, grid: map<Cell, seq<int>>, geometries: map<int, Geometry>, extents: map<int, Box>)
  {
    && cs > 0.0
    && geometries.Keys == extents.Keys
    && (forall fid :: fid in extents ==> GetExtent(geometries[fid]) == Some(extents[fid]))
    && (forall fid, k :: fid in extents && Covers(extents[fid], cs, k) ==> k in grid && fid in grid[k])
    && (forall k, fid :: k in grid && fid in grid[k] ==> fid in extents)
  }

  /** Buckets hold an id only for cells its current extent spans. */
  ghost predicate IndexExact(cs: real, grid: map<Cell, seq<int>>, extents: map<int, Box>)
    requires cs > 0.0
  {
    forall k, fid :: k in grid && fid in grid[k] ==> fid in extents && Covers(extents[fid], cs, k)
  }

  /** Turns a set into a list holding each element once, in no particular order (`list(s)`). */
  method SetToList(s: set<int>) returns (r: seq<int>)
    ensures NoDup(r)
    ensures forall x :: x in r <==> x in s
  {
    r := [];
    var rest := s;
    while rest != {}
      invariant NoDup(r)
      invariant forall x :: x in s <==> x in r || x in rest
      invariant forall x :: x in r ==> x !in rest
      decreases rest
    {
      ghost var w := Element(rest);
      var x :| x in rest;
      r := r + [x];
      rest := rest - {x};
    }
  }

  /**
   * `SpatialIndex`: a map from grid cells to the ids whose extent spans
   * them, with the geometry and extent of every indexed id.
   */
  class SpatialIndex {
    const cellSize: real
    var grid: map<Cell, seq<int>>
    var geometries: map<int, Geometry>
    var extents: map<int, Box>

    /**
     * Every indexed id sits in the bucket of every cell its extent spans,
     * and buckets hold indexed ids only.
     */
    ghost predicate Valid()
      reads this
    {
      IndexValid(cellSize, grid, geometries, extents)
    }

    /**
     * Buckets hold an id only for cells its current extent spans. This
     * holds when no id was inserted twice.
     */
    ghost predicate Exact()
      reads this
      requires cellSize > 0.0
    {
      IndexExact(cellSize, grid, extents)
    }

    /** `fid` is in the bucket of some cell that `e` spans. */
    ghost predicate InCells(fid: int, e: Extent)
      reads this
      requires cellSize > 0.0
    {
      exists k :: k in grid && Covers(e, cellSize, k) && fid in grid[k]
    }

    constructor (cellSize: real)
      requires cellSize > 0.0
      ensures Valid() && Exact()
      ensures this.cellSize == cellSize
      ensures grid == map[] && geometries == map[] && extents == map[]
    {
      this.cellSize := cellSize;
      grid := map[];
      geometries := map[];
      extents := map[];
    }

    /**
     * `insert`: a null geometry, or one without an extent, changes nothing;
     * otherwise the geometry and extent are recorded and `fid` is appended
     * to the bucket of every cell the extent spans, and to no other.
     */
    method Insert(fid: int, g: Geometry)
      requires Valid()
      modifies this
      ensures Valid()
      ensures GetExtent(g).None? ==>
        grid == old(grid) && geometries == old(geometries) && extents == old(extents)
      ensures GetExtent(g).Some? ==>
        && geometries == old(geometries)[fid := g]
        && extents == old(extents)[fid := GetExtent(g).value]
      ensures GetExtent(g).Some? ==> forall k ::
        k in grid <==> k in old(grid) || Covers(GetExtent(g).value, cellSize, k)
      ensures GetExtent(g).Some? ==> forall k :: k in grid ==>
        grid[k] == if Covers(GetExtent(g).value, cellSize, k)
                   then Bucket(old(grid), k) + [fid] else old(grid)[k]
      ensures old(Exact()) && fid !in old(extents) ==> Exact()
    {
      if IsNull(g) {
        return;
      }
      var extent := GetExtent(g);
      if extent.None? {
        return;
      }
      var e := extent.value;
      ghost var g0 := grid;
      geometries := geometries[fid := g];
      extents := extents[fid := e];
      AppendToCells(fid, e);
      InsertKeepsInvariant(cellSize, g0, old(geometries), old(extents), grid, fid, g, e);
    }

    /** The nested col/row loop of `insert`: append `fid` to the bucket of each cell `e` spans. */
    method AppendToCells(fid: int, e: Box)
      requires cellSize > 0.0
      modifies this`grid
      ensures forall k :: k in grid <==> k in old(grid) || Covers(e, cellSize, k)
      ensures forall k :: k in grid ==>
        grid[k] == if Covers(e, cellSize, k) then Bucket(old(grid), k) + [fid] else old(grid)[k]
    {
      var cells := grid;
      ghost var g0 := cells;
      var colMin, colMax := FloorDiv(e.xmin, cellSize), FloorDiv(e.xmax, cellSize);
      var rowMin, rowMax := FloorDiv(e.ymin, cellSize), FloorDiv(e.ymax, cellSize);
      FloorDivMonotone(e.xmin, e.xmax, cellSize);
      FloorDivMonotone(e.ymin, e.ymax, cellSize);
      var col := colMin;
      while col <= colMax
        invariant colMin <= col <= colMax + 1
        invariant AppendedUpTo(cells, g0, fid, colMin, rowMin, rowMax, col, rowMin)
      {
        var row := rowMin;
        while row <= rowMax
          invariant rowMin <= row <= rowMax + 1
          invariant AppendedUpTo(cells, g0, fid, colMin, rowMin, rowMax, col, row)
        {
          var key := (col, row);
          AppendStep(cells, g0, fid, colMin, rowMin, rowMax, col, row);
          // A missing bucket starts out empty.
          cells := cells[key := Bucket(cells, key) + [fid]];
          row := row + 1;
        }
        NextColumn(cells, g0, fid, colMin, rowMin, rowMax, col);
        col := col + 1;
      }
      ScanDone(cells, g0, fid, e, cellSize, colMin, rowMin, rowMax, col);
      grid := cells;
    }

    /** The ids in the buckets of the cells `e` spans, each once. */
    method CollectCells(e: Extent) returns (found: set<int>)
      requires Valid()
      ensures forall x :: x in found <==> InCells(x, e)
    {
      found := {};
      var colMin, colMax := FloorDiv(e.xmin, cellSize), FloorDiv(e.xmax, cellSize);
      var rowMin, rowMax := FloorDiv(e.ymin, cellSize), FloorDiv(e.ymax, cellSize);
      var col := colMin;
      while col <= colMax
        invariant colMin <= col && (col <= colMax + 1 || col == colMin)
        invariant forall x :: x in found <==>
          exists k :: k in grid && Scanned(k, colMin, rowMin, rowMax, col, rowMin) && x in grid[k]
      {
        var row := rowMin;
        while row <= rowMax
          invariant rowMin <= row && (row <= rowMax + 1 || row == rowMin)
          invariant forall x :: x in found <==>
            exists k :: k in grid && Scanned(k, colMin, rowMin, rowMax, col, row) && x in grid[k]
        {
          var key := (col, row);
          if key in grid {
            found := found + (set x | x in grid[key]);
          }
          row := row + 1;
        }
        col := col + 1;
      }
      assert forall k :: Scanned(k, colMin, rowMin, rowMax, col, rowMin) <==> Covers(e, cellSize, k);
    }

    /**
     * `query_candidates`: empty for an id that was never indexed; otherwise
     * every id, other than `fid`, found in a cell that `fid`'s extent spans,
     * each once. Only indexed ids are returned.
     */
    method QueryCandidates(fid: int) returns (r: seq<int>)
      requires Valid()
      ensures NoDup(r)
      ensures fid !in extents ==> r == []
      ensures fid in extents ==> forall x :: x in r <==> x != fid && InCells(x, extents[fid])
      ensures forall x :: x in r ==> x in extents && x != fid
    {
      if fid !in extents {
        return [];
      }
      var found := CollectCells(extents[fid]);
      found := found - {fid};
      r := SetToList(found);
    }

    /**
     * `query_by_extent`: every id found in a cell that `e` spans, each once.
     * Only indexed ids are returned.
     */
    method QueryByExtent(e: Extent) returns (r: seq<int>)
      requires Valid()
      ensures NoDup(r)
      ensures forall x :: x in r <==> InCells(x, e)
      ensures forall x :: x in r ==> x in extents
    {
      var found := CollectCells(e);
      r := SetToList(found);
    }
  }

  /**
   * Index soundness: an indexed id whose extent intersects a well-formed
   * query extent is in some bucket the query visits, so it is returned by
   * `QueryByExtent(e)`, and by `QueryCandidates(a)` when `e` is the
   * extent of another indexed id `a`.
   */
  lemma NoFalseNegatives(index: SpatialIndex, e: Extent, b: int)
    requires index.Valid() && WellFormed(e) && b in index.extents
    requires ExtentsIntersect(e, index.extents[b])
    ensures index.InCells(b, e)
  {
    var cs := index.cellSize;
    var eb := index.extents[b];
    IntersectingExtentsShareCell(e, eb, cs);
    ShareCellMeansCommonCell(e, eb, cs);
    var k :| Covers(e, cs, k) && Covers(eb, cs, k);
    assert k in index.grid && b in index.grid[k];
  }

  /**
   * In an index where no id was inserted twice, a lookup returns exactly
   * the indexed ids whose extent shares a grid cell with the query extent.
   */
  lemma ExactLookup(index: SpatialIndex, e: Extent, x: int)
    requires index.Valid() && index.Exact()
    ensures index.InCells(x, e) <==> x in index.extents && ShareCell(e, index.extents[x], index.cellSize)
  {
    var cs := index.cellSize;
    if index.InCells(x, e) {
      var k :| k in index.grid && Covers(e, cs, k) && x in index.grid[k];
      ShareCellMeansCommonCell(e, index.extents[x], cs);
    }
    if x in index.extents && ShareCell(e, index.extents[x], cs) {
      ShareCellMeansCommonCell(e, index.extents[x], cs);
      var k :| Covers(e, cs, k) && Covers(index.extents[x], cs, k);
      assert k in index.grid && x in index.grid[k];
    }
  }

  /** After the scan, the new grid is the old one with `fid` appended exactly where `e` spans. */
  lemma ScanDone(grid: map<Cell, seq<int>>, g0: map<Cell, seq<int>>, fid: int, e: Box, cs: real,
                 c0: int, r0: int, r1: int, col: int)
    requires cs > 0.0
    requires c0 == ColMin(e, cs) && col == ColMax(e, cs) + 1
    requires r0 == RowMin(e, cs) && r1 == RowMax(e, cs)
    requires AppendedUpTo(grid, g0, fid, c0, r0, r1, col, r0)
    ensures forall k :: k in grid <==> k in g0 || Covers(e, cs, k)
    ensures forall k :: k in grid ==> grid[k] == if Covers(e, cs, k) then Bucket(g0, k) + [fid] else g0[k]
  {
    assert forall k :: Scanned(k, c0, r0, r1, col, r0) <==> Covers(e, cs, k);
  }

  /** Appending `fid` to the cells of its extent keeps the index invariant, and exactness for a new id. */
  lemma InsertKeepsInvariant(cs: real, g0: map<Cell, seq<int>>, geometries0: map<int, Geometry>,
                             extents0: map<int, Box>, grid: map<Cell, seq<int>>, fid: int, g: Geometry, e: Box)
    requires IndexValid(cs, g0, geometries0, extents0)
    requires GetExtent(g) == Some(e)
    requires forall k :: k in grid <==> k in g0 || Covers(e, cs, k)
    requires forall k :: k in grid ==> grid[k] == if Covers(e, cs, k) then Bucket(g0, k) + [fid] else g0[k]
    ensures IndexValid(cs, grid, geometries0[fid := g], extents0[fid := e])
    ensures IndexExact(cs, g0, extents0) && fid !in extents0 ==> IndexExact(cs, grid, extents0[fid := e])
  {
    var extents := extents0[fid := e];
    forall x, k | x in extents && Covers(extents[x], cs, k)
      ensures k in grid && x in grid[k]
    {
      if x != fid {
        assert k in g0 && x in g0[k];
      }
    }
    forall k, x | k in grid && x in grid[k]
      ensures x in extents
      ensures IndexExact(cs, g0, extents0) && fid !in extents0 ==> Covers(extents[x], cs, k)
    {
      if x != fid {
        assert k in g0 && x in g0[k];
      }
    }
  }
}
