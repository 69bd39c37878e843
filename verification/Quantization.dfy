/** From world coordinates to the 16-bit boxes of the tree: polygons when the tile is built, queries when it is
    searched. Coordinates are reals, so rounding errors of single precision are not in question here. */
module Quantization {
  import opened MeshInput
  import opened BVTree

  datatype RPoint = RPoint(x: real, y: real, z: real)

  /** A tile's bounds, and the cell sizes its vertices are multiples of. */
  datatype Frame = Frame(bmin: RPoint, bmax: RPoint, cs: real, ch: real)

  /** The extent of a tile fits the 16-bit boxes. */
  predicate Fits(lo: real, hi: real, qfac: real) {
    lo <= hi && qfac > 0.0 && Cells(hi, lo, qfac) + 1.0 < 65536.0
  }

  predicate FrameFits(f: Frame) {
    && f.cs > 0.0 && f.ch > 0.0
    && Fits(f.bmin.x, f.bmax.x, 1.0 / f.cs) && Fits(f.bmin.y, f.bmax.y, 1.0 / f.cs)
       && Fits(f.bmin.z, f.bmax.z, 1.0 / f.cs)
  }

  /** Cuts x to an interval, to the end that is nearer. */
  function Clamp(x: real, lo: real, hi: real): (r: real)
    ensures lo <= hi ==> lo <= r <= hi && (r == x || x < r == lo || hi == r < x)
  {
    if x < lo then lo else if x > hi then hi else x
  }

  function Truncate(x: real): int {
    if x >= 0.0 then x.Floor else -(-x).Floor
  }

  function Ceil(x: real): int {
    -(-x).Floor
  }

  function ToCoord(n: int): Coord {
    if n < 0 then 0 else if n > 0xffff then 0xffff else n
  }

  /** How many cells v lies above lo. */
  function Cells(v: real, lo: real, qfac: real): real {
    qfac * (v - lo)
  }

  lemma MoreCells(v: real, w: real, lo: real, qfac: real)
    requires qfac > 0.0 && v <= w
    ensures Cells(v, lo, qfac) <= Cells(w, lo, qfac) && (lo <= v ==> Cells(v, lo, qfac) >= 0.0)
    ensures (Cells(v, lo, qfac)).Floor <= (Cells(w, lo, qfac)).Floor
  {
  }

  // ---- Queries ----

  /** The lower bound of a query along one axis: the last even cell not above the clamped query. */
  function QueryMin(q: real, lo: real, hi: real, qfac: real): (c: Coord)
    requires Fits(lo, hi, qfac)
    ensures c % 2 == 0 && c as real <= Cells(Clamp(q, lo, hi), lo, qfac) < c as real + 2.0
  {
    var v := Cells(Clamp(q, lo, hi), lo, qfac);
    InRange(q, lo, hi, qfac);
    v.Floor - v.Floor % 2
  }

  /** The upper bound: the first odd cell above the clamped query. */
  function QueryMax(q: real, lo: real, hi: real, qfac: real): (c: Coord)
    requires Fits(lo, hi, qfac)
    ensures c % 2 == 1 && c as real - 2.0 <= Cells(Clamp(q, lo, hi), lo, qfac) < c as real
  {
    var v := Cells(Clamp(q, lo, hi), lo, qfac) + 1.0;
    InRange(q, lo, hi, qfac);
    if v.Floor % 2 == 0 then v.Floor + 1 else v.Floor
  }

  function QuantizeQuery(f: Frame, qmin: RPoint, qmax: RPoint): Box
    requires FrameFits(f)
  {
    var qfac := 1.0 / f.cs;
    Box(Point(QueryMin(qmin.x, f.bmin.x, f.bmax.x, qfac), QueryMin(qmin.y, f.bmin.y, f.bmax.y, qfac),
              QueryMin(qmin.z, f.bmin.z, f.bmax.z, qfac)),
        Point(QueryMax(qmax.x, f.bmin.x, f.bmax.x, qfac), QueryMax(qmax.y, f.bmin.y, f.bmax.y, qfac),
              QueryMax(qmax.z, f.bmin.z, f.bmax.z, qfac)))
  }

  /** The quantised query, exactly: on each axis the even cell at or below its lower end and the odd cell above its
      upper end, both within two cells. */
  lemma QueryBox(f: Frame, qmin: RPoint, qmax: RPoint)
    requires FrameFits(f)
    ensures var q := QuantizeQuery(f, qmin, qmax);
            && AxisQueried(q.bmin.x, q.bmax.x, qmin.x, qmax.x, f.bmin.x, f.bmax.x, f.cs)
            && AxisQueried(q.bmin.y, q.bmax.y, qmin.y, qmax.y, f.bmin.y, f.bmax.y, f.cs)
            && AxisQueried(q.bmin.z, q.bmax.z, qmin.z, qmax.z, f.bmin.z, f.bmax.z, f.cs)
  {
    hide Cells, QueryMin, QueryMax;
  }

  ghost predicate AxisQueried(low: int, high: int, qmin: real, qmax: real, lo: real, hi: real, cs: real)
    requires cs > 0.0
  {
    && low % 2 == 0 && low as real <= Cells(Clamp(qmin, lo, hi), lo, 1.0 / cs) < (low + 2) as real
    && high % 2 == 1 && (high - 2) as real <= Cells(Clamp(qmax, lo, hi), lo, 1.0 / cs) < high as real
  }

  lemma InRange(q: real, lo: real, hi: real, qfac: real)
    requires Fits(lo, hi, qfac)
    ensures 0.0 <= Cells(Clamp(q, lo, hi), lo, qfac) < 65535.0
  {
    MoreCells(Clamp(q, lo, hi), hi, lo, qfac);
    MoreCells(lo, Clamp(q, lo, hi), lo, qfac);
  }

  /** Along one axis a coordinate, clamped to the tile, lies less than two cells above the tile's lower end. */
  predicate AtLowEnd(q: real, lo: real, hi: real, cs: real) {
    Clamp(q, lo, hi) < lo + 2.0 * cs
  }

  /** Which queries start at the origin of the tree's boxes: those that start in the corner of two by two by two
      cells, or below it. */
  lemma OriginExactlyWhen(f: Frame, qmin: RPoint, qmax: RPoint)
    requires FrameFits(f)
    ensures QuantizeQuery(f, qmin, qmax).bmin == ORIGIN
       <==> AtLowEnd(qmin.x, f.bmin.x, f.bmax.x, f.cs) && AtLowEnd(qmin.y, f.bmin.y, f.bmax.y, f.cs)
            && AtLowEnd(qmin.z, f.bmin.z, f.bmax.z, f.cs)
  {
    hide QueryMin, QueryMax, Fits, AtLowEnd;
    ZeroExactlyWhen(qmin.x, f.bmin.x, f.bmax.x, f.cs);
    ZeroExactlyWhen(qmin.y, f.bmin.y, f.bmax.y, f.cs);
    ZeroExactlyWhen(qmin.z, f.bmin.z, f.bmax.z, f.cs);
  }

  lemma ZeroExactlyWhen(q: real, lo: real, hi: real, cs: real)
    requires cs > 0.0 && Fits(lo, hi, 1.0 / cs)
    ensures QueryMin(q, lo, hi, 1.0 / cs) == 0 <==> AtLowEnd(q, lo, hi, cs)
  {
    hide Cells;
    var v := Cells(Clamp(q, lo, hi), lo, 1.0 / cs);
    InRange(q, lo, hi, 1.0 / cs);
    InCells(Clamp(q, lo, hi), lo, cs, 2.0);
    assert v < 2.0 <==> v.Floor - v.Floor % 2 == 0;
  }

  lemma InCells(q: real, lo: real, cs: real, n: real)
    requires cs > 0.0
    ensures Cells(q, lo, 1.0 / cs) < n <==> q < lo + n * cs
  {
    var d, v := q - lo, Cells(q, lo, 1.0 / cs);
    assert v * cs == d by { assert 1.0 / cs * cs == 1.0; assert v * cs == 1.0 / cs * cs * d; }
    if v < n { assert v * cs < n * cs; }
    if v >= n { assert v * cs >= n * cs; }
  }

  // ---- Polygons ----

  /** The exact real bounds of some points: around all of them, every face touched. */
  ghost predicate IsBounds(bmin: RPoint, bmax: RPoint, pts: seq<RPoint>) {
    && (forall k :: 0 <= k < |pts| ==>
          && bmin.x <= pts[k].x <= bmax.x && bmin.y <= pts[k].y <= bmax.y
          && bmin.z <= pts[k].z <= bmax.z)
    && (exists k :: 0 <= k < |pts| && pts[k].x == bmin.x) && (exists k :: 0 <= k < |pts| && pts[k].x == bmax.x)
    && (exists k :: 0 <= k < |pts| && pts[k].y == bmin.y) && (exists k :: 0 <= k < |pts| && pts[k].y == bmax.y)
    && (exists k :: 0 <= k < |pts| && pts[k].z == bmin.z) && (exists k :: 0 <= k < |pts| && pts[k].z == bmax.z)
  }

  function Min(a: real, b: real): real { if a < b then a else b }
  function Max(a: real, b: real): real { if a > b then a else b }

  method BoundsOf(pts: seq<RPoint>) returns (bmin: RPoint, bmax: RPoint)
    requires |pts| >= 1
    ensures IsBounds(bmin, bmax, pts)
  {
    bmin, bmax := pts[0], pts[0];
    OneBound(pts[0]);
    assert pts[..1] == [pts[0]];
    hide IsBounds, Min, Max;
    for j := 1 to |pts|
      invariant IsBounds(bmin, bmax, pts[..j])
    {
      var p := pts[j];
      MoreBounds(bmin, bmax, pts[..j], p);
      assert pts[..j + 1] == pts[..j] + [p];
      bmin := RPoint(Min(bmin.x, p.x), Min(bmin.y, p.y), Min(bmin.z, p.z));
      bmax := RPoint(Max(bmax.x, p.x), Max(bmax.y, p.y), Max(bmax.z, p.z));
    }
    assert pts[..|pts|] == pts;
  }

  lemma OneBound(p: RPoint)
    ensures IsBounds(p, p, [p])
  {
    assert [p][0] == p;
  }

  lemma MoreBounds(bmin: RPoint, bmax: RPoint, pts: seq<RPoint>, p: RPoint)
    requires IsBounds(bmin, bmax, pts)
    ensures IsBounds(RPoint(Min(bmin.x, p.x), Min(bmin.y, p.y), Min(bmin.z, p.z)),
                     RPoint(Max(bmax.x, p.x), Max(bmax.y, p.y), Max(bmax.z, p.z)), pts + [p])
  {
    var more := pts + [p];
    assert more[|pts|] == p;
    forall k | 0 <= k < |pts| ensures more[k] == pts[k] {}
    var a :| 0 <= a < |pts| && pts[a].x == bmin.x; assert more[a].x == bmin.x;
    var b :| 0 <= b < |pts| && pts[b].x == bmax.x; assert more[b].x == bmax.x;
    var c :| 0 <= c < |pts| && pts[c].y == bmin.y; assert more[c].y == bmin.y;
    var d :| 0 <= d < |pts| && pts[d].y == bmax.y; assert more[d].y == bmax.y;
    var e :| 0 <= e < |pts| && pts[e].z == bmin.z; assert more[e].z == bmin.z;
    var g :| 0 <= g < |pts| && pts[g].z == bmax.z; assert more[g].z == bmax.z;
  }

  /** A detail mesh's bounds, in cells, cut to 16 bits. */
  function QuantizeAxis(v: real, lo: real, qfac: real): (c: Coord)
    ensures 0.0 <= Cells(v, lo, qfac) < 65536.0 ==> c as real <= Cells(v, lo, qfac) < c as real + 1.0
    ensures (Cells(v, lo, qfac) < 0.0 ==> c == 0) && (Cells(v, lo, qfac) >= 65536.0 ==> c == 0xffff)
  {
    ToCoord(Truncate(Cells(v, lo, qfac)))
  }

  function QuantizeBounds(f: Frame, bmin: RPoint, bmax: RPoint): Box
    requires f.cs > 0.0
  {
    var qfac := 1.0 / f.cs;
    Box(Point(QuantizeAxis(bmin.x, f.bmin.x, qfac), QuantizeAxis(bmin.y, f.bmin.y, qfac),
              QuantizeAxis(bmin.z, f.bmin.z, qfac)),
        Point(QuantizeAxis(bmax.x, f.bmin.x, qfac), QuantizeAxis(bmax.y, f.bmin.y, qfac),
              QuantizeAxis(bmax.z, f.bmin.z, qfac)))
  }

  /** The box of a polygon with a detail mesh. */
  method DetailBox(f: Frame, detailVerts: seq<RPoint>) returns (box: Box, bmin: RPoint, bmax: RPoint)
    requires f.cs > 0.0 && |detailVerts| >= 1
    ensures IsBounds(bmin, bmax, detailVerts) && box == QuantizeBounds(f, bmin, bmax)
  {
    var lo, hi := BoundsOf(detailVerts);
    bmin, bmax := lo, hi;
    box := QuantizeBounds(f, lo, hi);
  }

  function Along(lo: real, n: Coord, step: real): real {
    lo + n as real * step
  }

  /** Where an integer vertex lies in the world. */
  function Place(f: Frame, v: Point): RPoint {
    RPoint(Along(f.bmin.x, v.x, f.cs), Along(f.bmin.y, v.y, f.ch), Along(f.bmin.z, v.z, f.cs))
  }

  ghost predicate IsPointBounds(bmin: Point, bmax: Point, verts: seq<Point>) {
    && (forall k :: 0 <= k < |verts| ==> Inside(Box(verts[k], verts[k]), Box(bmin, bmax)))
    && (forall c: Box :: (forall k :: 0 <= k < |verts| ==> Inside(Box(verts[k], verts[k]), c)) ==>
        Inside(Box(bmin, bmax), c))
  }

  /** A stored height in cells. */
  function Height(f: Frame, y: Coord): real
    requires f.cs > 0.0
  {
    y as real * f.ch / f.cs
  }

  /** Heights are stored in units of ch, the tree uses cs on every axis. */
  predicate HeightFits(f: Frame, y: Coord)
    requires f.cs > 0.0
  {
    f.ch > 0.0 && Height(f, y) <= 65535.0
  }

  /** A polygon's used slots hold indices of vertices. */
  predicate Indices(p: seq<nat>, n: nat) {
    forall j :: 0 <= j < VertCount(p) ==> p[j] < n
  }

  /** The vertices of a polygon. */
  function Corners(verts: seq<Point>, p: seq<nat>): (s: seq<Point>)
    requires Indices(p, |verts|)
    ensures |s| == VertCount(p)
  {
    seq(VertCount(p), j requires 0 <= j < VertCount(p) => verts[p[j]])
  }

  /** Where they lie in the world. */
  function Placed(f: Frame, corners: seq<Point>): (s: seq<RPoint>)
    ensures |s| == |corners|
  {
    seq(|corners|, k requires 0 <= k < |corners| => Place(f, corners[k]))
  }

  /** The box of a polygon without a detail mesh. */
  method PlainBox(f: Frame, verts: seq<Point>, p: seq<nat>) returns (box: Box, bmin: Point, bmax: Point)
    requires f.cs > 0.0 && VertCount(p) >= 1 && Indices(p, |verts|)
    requires forall k :: 0 <= k < VertCount(p) ==> HeightFits(f, Corners(verts, p)[k].y)
    ensures IsPointBounds(bmin, bmax, Corners(verts, p))
    ensures HeightFits(f, bmin.y) && HeightFits(f, bmax.y) && box == RemapHeights(f, bmin, bmax)
  {
    ghost var corners := Corners(verts, p);
    CountedSlots(p, 0);
    hide VertCountFrom;
    var low, high := verts[p[0]], verts[p[0]];
    var j := 1;
    assert corners[0] == low && corners[..1] == [low];
    OnePoint(low);
    while j < |p| && p[j] != MESH_NULL_IDX
      invariant 1 <= j <= VertCount(p)
      invariant IsPointBounds(low, high, corners[..j]) && HeightFits(f, low.y) && HeightFits(f, high.y)
    {
      var v := verts[p[j]];
      assert corners[j] == v;
      assert corners[..j + 1] == corners[..j] + [v];
      MorePoints(low, high, corners[..j], v);
      hide IsPointBounds, HeightFits;
      low := Point(if v.x < low.x then v.x else low.x, if v.y < low.y then v.y else low.y,
                   if v.z < low.z then v.z else low.z);
      high := Point(if v.x > high.x then v.x else high.x, if v.y > high.y then v.y else high.y,
                    if v.z > high.z then v.z else high.z);
      j := j + 1;
    }
    assert corners[..j] == corners;
    bmin, bmax := low, high;
    box := RemapHeights(f, low, high);
  }

  /** Heights in cells, rounded outwards; the other axes are in cells already. */
  function RemapHeights(f: Frame, bmin: Point, bmax: Point): (box: Box)
    requires f.cs > 0.0 && HeightFits(f, bmin.y) && HeightFits(f, bmax.y)
    ensures box.bmin.x == bmin.x && box.bmin.z == bmin.z && box.bmax.x == bmax.x && box.bmax.z == bmax.z
    ensures box.bmin.y as real <= Height(f, bmin.y) < (box.bmin.y + 1) as real
    ensures (box.bmax.y - 1) as real < Height(f, bmax.y) <= box.bmax.y as real
  {
    HeightRange(f, bmin.y);
    HeightRange(f, bmax.y);
    Box(Point(bmin.x, Height(f, bmin.y).Floor, bmin.z), Point(bmax.x, Ceil(Height(f, bmax.y)), bmax.z))
  }

  lemma HeightRange(f: Frame, y: Coord)
    requires f.cs > 0.0 && HeightFits(f, y)
    ensures 0 <= Height(f, y).Floor <= Ceil(Height(f, y)) <= 0xffff
  {
    assert y as real * f.ch >= 0.0;
    assert Height(f, y) >= 0.0;
  }

  lemma OnePoint(v: Point)
    ensures IsPointBounds(v, v, [v])
  {
    forall c: Box | forall k :: 0 <= k < |[v]| ==> Inside(Box([v][k], [v][k]), c) ensures Inside(Box(v, v), c) {
      assert [v][0] == v;
    }
  }

  lemma MorePoints(low: Point, high: Point, verts: seq<Point>, v: Point)
    requires IsPointBounds(low, high, verts)
    ensures IsPointBounds(
              Point(if v.x < low.x then v.x else low.x, if v.y < low.y then v.y else low.y,
                    if v.z < low.z then v.z else low.z),
              Point(if v.x > high.x then v.x else high.x, if v.y > high.y then v.y else high.y,
                    if v.z > high.z then v.z else high.z), verts + [v])
  {
    var more := verts + [v];
    assert more[|verts|] == v;
    forall c: Box | forall k :: 0 <= k < |more| ==> Inside(Box(more[k], more[k]), c)
      ensures Inside(Box(low, high), c) && Inside(Box(v, v), c)
    {
      forall k | 0 <= k < |verts| ensures Inside(Box(verts[k], verts[k]), c) { assert more[k] == verts[k]; }
    }
  }

  // ---- Nothing is missed ----

  /** The cell a coordinate lies in is within the box, along one axis. */
  predicate CellWithin(v: real, lo: real, qfac: real, low: Coord, high: Coord) {
    low <= Cells(v, lo, qfac).Floor <= high
  }

  /** The box takes in the cell of every point. */
  ghost predicate Covers(f: Frame, box: Box, pts: seq<RPoint>)
    requires f.cs > 0.0
  {
    forall k :: 0 <= k < |pts| ==>
      var qfac := 1.0 / f.cs;
      && CellWithin(pts[k].x, f.bmin.x, qfac, box.bmin.x, box.bmax.x)
      && CellWithin(pts[k].y, f.bmin.y, qfac, box.bmin.y, box.bmax.y)
      && CellWithin(pts[k].z, f.bmin.z, qfac, box.bmin.z, box.bmax.z)
  }

  predicate Within(f: Frame, p: RPoint) {
    && f.bmin.x <= p.x <= f.bmax.x && f.bmin.y <= p.y <= f.bmax.y && f.bmin.z <= p.z <= f.bmax.z
  }

  predicate RealOverlap(amin: RPoint, amax: RPoint, bmin: RPoint, bmax: RPoint) {
    && !(amin.x > bmax.x || amax.x < bmin.x) && !(amin.y > bmax.y || amax.y < bmin.y)
       && !(amin.z > bmax.z || amax.z < bmin.z)
  }

  /** Two boxes overlap exactly when they have a point in common. */
  lemma RealOverlapMeans(amin: RPoint, amax: RPoint, bmin: RPoint, bmax: RPoint)
    requires amin.x <= amax.x && amin.y <= amax.y && amin.z <= amax.z
    requires bmin.x <= bmax.x && bmin.y <= bmax.y && bmin.z <= bmax.z
    ensures RealOverlap(amin, amax, bmin, bmax) <==> exists p :: Between3(amin, p, amax) && Between3(bmin, p, bmax)
  {
    if RealOverlap(amin, amax, bmin, bmax) {
      var p := RPoint(Max(amin.x, bmin.x), Max(amin.y, bmin.y), Max(amin.z, bmin.z));
      assert Between3(amin, p, amax) && Between3(bmin, p, bmax);
    }
  }

  ghost predicate Between3(lo: RPoint, p: RPoint, hi: RPoint) {
    lo.x <= p.x <= hi.x && lo.y <= p.y <= hi.y && lo.z <= p.z <= hi.z
  }

  /** One axis: a query that reaches some point of the tile from below reaches its cell. */
  lemma AxisReaches(q: real, v: real, lo: real, hi: real, qfac: real)
    requires Fits(lo, hi, qfac) && lo <= v <= hi
    ensures q <= v ==> QueryMin(q, lo, hi, qfac) <= Cells(v, lo, qfac).Floor
    ensures q >= v ==> QueryMax(q, lo, hi, qfac) >= Cells(v, lo, qfac).Floor
  {
    var c := Clamp(q, lo, hi);
    hide Cells;
    if q <= v { MoreCells(c, v, lo, qfac); }
    if q >= v { MoreCells(v, c, lo, qfac); }
  }

  lemma AxisMeets(qmin: real, qmax: real, rmin: real, rmax: real, lo: real, hi: real, qfac: real, low: Coord,
                  high: Coord)
    requires Fits(lo, hi, qfac) && lo <= rmin <= hi && lo <= rmax <= hi && !(qmin > rmax || qmax < rmin)
    requires CellWithin(rmin, lo, qfac, low, high) && CellWithin(rmax, lo, qfac, low, high)
    ensures !(QueryMin(qmin, lo, hi, qfac) > high || QueryMax(qmax, lo, hi, qfac) < low)
  {
    AxisReaches(qmin, rmax, lo, hi, qfac);
    AxisReaches(qmax, rmin, lo, hi, qfac);
  }

  /** Quantisation is conservative: bounds that meet the query have boxes that meet the quantised query. */
  lemma Conservative(f: Frame, box: Box, pts: seq<RPoint>, rmin: RPoint, rmax: RPoint, qmin: RPoint, qmax: RPoint)
    requires FrameFits(f) && Covers(f, box, pts) && (forall k :: 0 <= k < |pts| ==> Within(f, pts[k]))
    requires IsBounds(rmin, rmax, pts) && RealOverlap(qmin, qmax, rmin, rmax)
    ensures Overlaps(QuantizeQuery(f, qmin, qmax), box)
  {
    hide CellWithin, QueryMin, QueryMax, Fits;
    var qfac := 1.0 / f.cs;
    AxisMeets(qmin.x, qmax.x, rmin.x, rmax.x, f.bmin.x, f.bmax.x, qfac, box.bmin.x, box.bmax.x);
    AxisMeets(qmin.y, qmax.y, rmin.y, rmax.y, f.bmin.y, f.bmax.y, qfac, box.bmin.y, box.bmax.y);
    AxisMeets(qmin.z, qmax.z, rmin.z, rmax.z, f.bmin.z, f.bmax.z, qfac, box.bmin.z, box.bmax.z);
  }

  lemma AxisQuantized(v: real, rmin: real, rmax: real, lo: real, hi: real, qfac: real)
    requires Fits(lo, hi, qfac) && lo <= rmin <= v <= rmax <= hi
    ensures CellWithin(v, lo, qfac, QuantizeAxis(rmin, lo, qfac), QuantizeAxis(rmax, lo, qfac))
  {
    hide Cells;
    MoreCells(rmin, v, lo, qfac);
    MoreCells(v, rmax, lo, qfac);
    MoreCells(rmax, hi, lo, qfac);
  }

  /** The box of a detail mesh inside the tile covers it. */
  lemma DetailCovers(f: Frame, pts: seq<RPoint>, rmin: RPoint, rmax: RPoint)
    requires FrameFits(f) && IsBounds(rmin, rmax, pts) && (forall k :: 0 <= k < |pts| ==> Within(f, pts[k]))
    ensures Covers(f, QuantizeBounds(f, rmin, rmax), pts)
  {
    hide CellWithin, QuantizeAxis, Fits;
    var qfac := 1.0 / f.cs;
    forall k | 0 <= k < |pts| ensures Covers(f, QuantizeBounds(f, rmin, rmax), [pts[k]]) {
      AxisQuantized(pts[k].x, rmin.x, rmax.x, f.bmin.x, f.bmax.x, qfac);
      AxisQuantized(pts[k].y, rmin.y, rmax.y, f.bmin.y, f.bmax.y, qfac);
      AxisQuantized(pts[k].z, rmin.z, rmax.z, f.bmin.z, f.bmax.z, qfac);
    }
    assert forall k :: 0 <= k < |pts| ==> [pts[k]][0] == pts[k];
  }

  lemma AxisCells(n: Coord, cs: real, lo: real)
    requires cs > 0.0
    ensures Cells(Along(lo, n, cs), lo, 1.0 / cs) == n as real
  {
    assert 1.0 / cs * cs == 1.0;
    assert 1.0 / cs * (n as real * cs) == n as real * (1.0 / cs * cs);
  }

  lemma AxisHeights(f: Frame, y: Coord, lo: real)
    requires f.cs > 0.0
    ensures Cells(Along(lo, y, f.ch), lo, 1.0 / f.cs) == Height(f, y)
  {
    var a := y as real * f.ch;
    assert 1.0 / f.cs * a * f.cs == 1.0 / f.cs * f.cs * a == a;
  }

  lemma Higher(f: Frame, low: Coord, high: Coord)
    requires f.cs > 0.0 && f.ch > 0.0 && low <= high
    ensures Height(f, low) <= Height(f, high)
  {
    assert low as real * f.ch <= high as real * f.ch;
  }

  /** The box of a polygon without a detail mesh covers its vertices. */
  lemma PlainCovers(f: Frame, corners: seq<Point>, bmin: Point, bmax: Point)
    requires f.cs > 0.0 && f.ch > 0.0 && IsPointBounds(bmin, bmax, corners) && HeightFits(f, bmin.y)
             && HeightFits(f, bmax.y)
    ensures Covers(f, RemapHeights(f, bmin, bmax), Placed(f, corners))
  {
    forall k | 0 <= k < |corners| ensures Covers(f, RemapHeights(f, bmin, bmax), [Place(f, corners[k])]) {
      var v := corners[k];
      assert Inside(Box(v, v), Box(bmin, bmax));
      PlainCovers1(f, v, bmin, bmax);
    }
    assert forall k :: 0 <= k < |corners| ==> [Place(f, corners[k])][0] == Place(f, corners[k]);
  }

  lemma PlainCovers1(f: Frame, v: Point, bmin: Point, bmax: Point)
    requires f.cs > 0.0 && f.ch > 0.0 && HeightFits(f, bmin.y) && HeightFits(f, bmax.y)
             && Inside(Box(v, v), Box(bmin, bmax))
    ensures Covers(f, RemapHeights(f, bmin, bmax), [Place(f, v)])
  {
    hide Cells, Height, Along;
    AxisCells(v.x, f.cs, f.bmin.x);
    AxisCells(v.z, f.cs, f.bmin.z);
    AxisHeights(f, v.y, f.bmin.y);
    Higher(f, bmin.y, v.y);
    Higher(f, v.y, bmax.y);
    HeightRange(f, bmin.y);
    HeightRange(f, bmax.y);
  }

  /** Nor is much added: along each axis a reported detail mesh lies less than three cells from the clamped query. */
  lemma AxisNear(qmin: real, qmax: real, rmin: real, rmax: real, lo: real, hi: real, qfac: real)
    requires Fits(lo, hi, qfac) && lo <= rmin <= rmax <= hi
    requires QueryMin(qmin, lo, hi, qfac) <= QuantizeAxis(rmax, lo, qfac)
             && QueryMax(qmax, lo, hi, qfac) >= QuantizeAxis(rmin, lo, qfac)
    ensures Cells(Clamp(qmin, lo, hi), rmax, qfac) < 2.0 && Cells(rmin, Clamp(qmax, lo, hi), qfac) < 3.0
  {
    hide Cells;
    MoreCells(rmin, hi, lo, qfac);
    MoreCells(rmax, hi, lo, qfac);
    Between(Clamp(qmin, lo, hi), rmax, lo, qfac);
    Between(rmin, Clamp(qmax, lo, hi), lo, qfac);
  }

  lemma Between(a: real, b: real, lo: real, qfac: real)
    ensures Cells(a, b, qfac) == Cells(a, lo, qfac) - Cells(b, lo, qfac)
  {
  }

  /** Along one axis the bounds reach to less than `slack` cells below and three cells above the clamped query. */
  predicate CloseAxis(rmin: real, rmax: real, qmin: real, qmax: real, lo: real, hi: real, cs: real, slack: real) {
    Clamp(qmin, lo, hi) < rmax + slack * cs && rmin < Clamp(qmax, lo, hi) + 3.0 * cs
  }

  /** The same on all axes; heights may take a cell more. */
  ghost predicate Close(f: Frame, rmin: RPoint, rmax: RPoint, qmin: RPoint, qmax: RPoint, slack: real) {
    && CloseAxis(rmin.x, rmax.x, qmin.x, qmax.x, f.bmin.x, f.bmax.x, f.cs, 2.0)
    && CloseAxis(rmin.y, rmax.y, qmin.y, qmax.y, f.bmin.y, f.bmax.y, f.cs, slack)
    && CloseAxis(rmin.z, rmax.z, qmin.z, qmax.z, f.bmin.z, f.bmax.z, f.cs, 2.0)
  }

  lemma AxisClose(rmin: real, rmax: real, qmin: real, qmax: real, lo: real, hi: real, cs: real, slack: real)
    requires cs > 0.0
    requires Cells(Clamp(qmin, lo, hi), rmax, 1.0 / cs) < slack && Cells(rmin, Clamp(qmax, lo, hi), 1.0 / cs) < 3.0
    ensures CloseAxis(rmin, rmax, qmin, qmax, lo, hi, cs, slack)
  {
    InCells(Clamp(qmin, lo, hi), rmax, cs, slack);
    InCells(rmin, Clamp(qmax, lo, hi), cs, 3.0);
  }

  lemma AxisDetail(rmin: real, rmax: real, qmin: real, qmax: real, lo: real, hi: real, cs: real)
    requires cs > 0.0 && Fits(lo, hi, 1.0 / cs) && lo <= rmin <= rmax <= hi
    requires QueryMin(qmin, lo, hi, 1.0 / cs) <= QuantizeAxis(rmax, lo, 1.0 / cs)
             && QueryMax(qmax, lo, hi, 1.0 / cs) >= QuantizeAxis(rmin, lo, 1.0 / cs)
    ensures CloseAxis(rmin, rmax, qmin, qmax, lo, hi, cs, 2.0)
  {
    hide Cells, QueryMin, QueryMax, QuantizeAxis, CloseAxis;
    AxisNear(qmin, qmax, rmin, rmax, lo, hi, 1.0 / cs);
    AxisClose(rmin, rmax, qmin, qmax, lo, hi, cs, 2.0);
  }

  /** A detail mesh whose box meets the quantised query lies close to the query. */
  lemma DetailClose(f: Frame, pts: seq<RPoint>, rmin: RPoint, rmax: RPoint, qmin: RPoint, qmax: RPoint)
    requires FrameFits(f) && IsBounds(rmin, rmax, pts) && |pts| >= 1 && forall k :: 0 <= k < |pts| ==> Within(f, pts[k])
    requires Overlaps(QuantizeQuery(f, qmin, qmax), QuantizeBounds(f, rmin, rmax))
    ensures Close(f, rmin, rmax, qmin, qmax, 2.0)
  {
    BoundsWithin(f, pts, rmin, rmax);
    hide CloseAxis, QueryMin, QueryMax, QuantizeAxis, Fits, IsBounds;
    AxisDetail(rmin.x, rmax.x, qmin.x, qmax.x, f.bmin.x, f.bmax.x, f.cs);
    AxisDetail(rmin.y, rmax.y, qmin.y, qmax.y, f.bmin.y, f.bmax.y, f.cs);
    AxisDetail(rmin.z, rmax.z, qmin.z, qmax.z, f.bmin.z, f.bmax.z, f.cs);
  }

  lemma BoundsWithin(f: Frame, pts: seq<RPoint>, rmin: RPoint, rmax: RPoint)
    requires IsBounds(rmin, rmax, pts) && |pts| >= 1 && forall k :: 0 <= k < |pts| ==> Within(f, pts[k])
    ensures Within(f, rmin) && Within(f, rmax) && rmin.x <= rmax.x && rmin.y <= rmax.y && rmin.z <= rmax.z
  {
    assert Within(f, pts[0]);
  }

  /** Heights are rounded outwards, which gives at most one cell on each side. */
  lemma AxisPlain(rmin: real, rmax: real, low: Coord, high: Coord, slack: real, qmin: real, qmax: real, lo: real,
                  hi: real, cs: real)
    requires cs > 0.0 && Fits(lo, hi, 1.0 / cs) && slack >= 2.0
    requires high as real <= Cells(rmax, lo, 1.0 / cs) + (slack - 2.0) && Cells(rmin, lo, 1.0 / cs) < low as real + 1.0
    requires QueryMin(qmin, lo, hi, 1.0 / cs) <= high && QueryMax(qmax, lo, hi, 1.0 / cs) >= low
    ensures CloseAxis(rmin, rmax, qmin, qmax, lo, hi, cs, slack)
  {
    hide Cells, QueryMin, QueryMax, CloseAxis;
    Between(Clamp(qmin, lo, hi), rmax, lo, 1.0 / cs);
    Between(rmin, Clamp(qmax, lo, hi), lo, 1.0 / cs);
    AxisClose(rmin, rmax, qmin, qmax, lo, hi, cs, slack);
  }

  /** So does a polygon without a detail mesh. */
  lemma PlainClose(f: Frame, bmin: Point, bmax: Point, qmin: RPoint, qmax: RPoint)
    requires FrameFits(f) && HeightFits(f, bmin.y) && HeightFits(f, bmax.y)
    requires Overlaps(QuantizeQuery(f, qmin, qmax), RemapHeights(f, bmin, bmax))
    ensures Close(f, Place(f, bmin), Place(f, bmax), qmin, qmax, 3.0)
  {
    hide CloseAxis, QueryMin, QueryMax, Fits, Height, Along, Cells;
    var lo, hi, box := Place(f, bmin), Place(f, bmax), RemapHeights(f, bmin, bmax);
    HeightRange(f, bmin.y);
    HeightRange(f, bmax.y);
    AxisCells(bmin.x, f.cs, f.bmin.x);
    AxisCells(bmax.x, f.cs, f.bmin.x);
    AxisHeights(f, bmin.y, f.bmin.y);
    AxisHeights(f, bmax.y, f.bmin.y);
    AxisCells(bmin.z, f.cs, f.bmin.z);
    AxisCells(bmax.z, f.cs, f.bmin.z);
    AxisPlain(lo.x, hi.x, box.bmin.x, box.bmax.x, 2.0, qmin.x, qmax.x, f.bmin.x, f.bmax.x, f.cs);
    AxisPlain(lo.y, hi.y, box.bmin.y, box.bmax.y, 3.0, qmin.y, qmax.y, f.bmin.y, f.bmax.y, f.cs);
    AxisPlain(lo.z, hi.z, box.bmin.z, box.bmax.z, 2.0, qmin.z, qmax.z, f.bmin.z, f.bmax.z, f.cs);
  }

  /** Every face of the least box is touched. */
  lemma FacesTouched(bmin: Point, bmax: Point, verts: seq<Point>)
    requires IsPointBounds(bmin, bmax, verts) && |verts| >= 1
    ensures (exists k :: 0 <= k < |verts| && verts[k].x == bmin.x)
            && (exists k :: 0 <= k < |verts| && verts[k].x == bmax.x)
    ensures (exists k :: 0 <= k < |verts| && verts[k].y == bmin.y)
            && (exists k :: 0 <= k < |verts| && verts[k].y == bmax.y)
    ensures (exists k :: 0 <= k < |verts| && verts[k].z == bmin.z)
            && (exists k :: 0 <= k < |verts| && verts[k].z == bmax.z)
  {
    var v := verts[0];
    assert Inside(Box(v, v), Box(bmin, bmax));
    if !exists k :: 0 <= k < |verts| && verts[k].x == bmin.x {
      Smaller(bmin, bmax, verts, Box(bmin.(x := bmin.x + 1), bmax));
    }
    if !exists k :: 0 <= k < |verts| && verts[k].x == bmax.x {
      Smaller(bmin, bmax, verts, Box(bmin, bmax.(x := bmax.x - 1)));
    }
    if !exists k :: 0 <= k < |verts| && verts[k].y == bmin.y {
      Smaller(bmin, bmax, verts, Box(bmin.(y := bmin.y + 1), bmax));
    }
    if !exists k :: 0 <= k < |verts| && verts[k].y == bmax.y {
      Smaller(bmin, bmax, verts, Box(bmin, bmax.(y := bmax.y - 1)));
    }
    if !exists k :: 0 <= k < |verts| && verts[k].z == bmin.z {
      Smaller(bmin, bmax, verts, Box(bmin.(z := bmin.z + 1), bmax));
    }
    if !exists k :: 0 <= k < |verts| && verts[k].z == bmax.z {
      Smaller(bmin, bmax, verts, Box(bmin, bmax.(z := bmax.z - 1)));
    }
  }

  lemma Smaller(bmin: Point, bmax: Point, verts: seq<Point>, c: Box)
    requires IsPointBounds(bmin, bmax, verts) && forall k :: 0 <= k < |verts| ==> Inside(Box(verts[k], verts[k]), c)
    ensures Inside(Box(bmin, bmax), c)
  {
  }

  /** The bounds of the vertices, placed in the world, are the bounds of the placed vertices. */
  lemma PlacedBounds(f: Frame, bmin: Point, bmax: Point, corners: seq<Point>)
    requires f.cs > 0.0 && f.ch > 0.0 && IsPointBounds(bmin, bmax, corners) && |corners| >= 1
    ensures IsBounds(Place(f, bmin), Place(f, bmax), Placed(f, corners))
  {
    FacesTouched(bmin, bmax, corners);
    AllWithin(f, bmin, bmax, corners);
    hide IsPointBounds, Along, Inside;
    var pts := Placed(f, corners);
    assert forall k :: 0 <= k < |corners| ==> pts[k] == Place(f, corners[k]);
    var a :| 0 <= a < |corners| && corners[a].x == bmin.x; assert pts[a].x == Place(f, bmin).x;
    var b :| 0 <= b < |corners| && corners[b].x == bmax.x; assert pts[b].x == Place(f, bmax).x;
    var c :| 0 <= c < |corners| && corners[c].y == bmin.y; assert pts[c].y == Place(f, bmin).y;
    var d :| 0 <= d < |corners| && corners[d].y == bmax.y; assert pts[d].y == Place(f, bmax).y;
    var e :| 0 <= e < |corners| && corners[e].z == bmin.z; assert pts[e].z == Place(f, bmin).z;
    var g :| 0 <= g < |corners| && corners[g].z == bmax.z; assert pts[g].z == Place(f, bmax).z;
    assert forall k :: 0 <= k < |corners| ==> PointWithin(f, bmin, corners[k], bmax);
  }

  lemma AllWithin(f: Frame, bmin: Point, bmax: Point, corners: seq<Point>)
    requires f.cs > 0.0 && f.ch > 0.0 && IsPointBounds(bmin, bmax, corners)
    ensures forall k :: 0 <= k < |corners| ==> PointWithin(f, bmin, corners[k], bmax)
  {
    forall k | 0 <= k < |corners| ensures PointWithin(f, bmin, corners[k], bmax) {
      assert Inside(Box(corners[k], corners[k]), Box(bmin, bmax));
      PlaceMonotone(f, bmin, corners[k], bmax);
    }
  }

  ghost predicate PointWithin(f: Frame, bmin: Point, v: Point, bmax: Point) {
    var lo, p, hi := Place(f, bmin), Place(f, v), Place(f, bmax);
    lo.x <= p.x <= hi.x && lo.y <= p.y <= hi.y && lo.z <= p.z <= hi.z
  }

  lemma PlaceMonotone(f: Frame, bmin: Point, v: Point, bmax: Point)
    requires f.cs > 0.0 && f.ch > 0.0 && Inside(Box(v, v), Box(bmin, bmax))
    ensures PointWithin(f, bmin, v, bmax)
  {
    hide Along;
    AlongMonotone(f.bmin.x, bmin.x, v.x, bmax.x, f.cs);
    AlongMonotone(f.bmin.y, bmin.y, v.y, bmax.y, f.ch);
    AlongMonotone(f.bmin.z, bmin.z, v.z, bmax.z, f.cs);
  }

  lemma AlongMonotone(lo: real, a: Coord, b: Coord, c: Coord, step: real)
    requires step > 0.0 && a <= b <= c
    ensures Along(lo, a, step) <= Along(lo, b, step) <= Along(lo, c, step)
  {
    assert (b - a) as real * step >= 0.0;
    assert (c - b) as real * step >= 0.0;
  }
}
