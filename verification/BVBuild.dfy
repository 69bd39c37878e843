/** Building the tree of a tile from what the mesh builder is given. */
module BVBuild {
  import opened Options
  import opened MeshInput
  import opened Sequences
  import opened Words
  import opened PolyRefs
  import opened BVTree
  import opened Quantization
  import opened BVQuery

  /** Vertices in cell units, polygons as vertex indices, and detail meshes, one per polygon, if there are any. */
  datatype Mesh = Mesh(verts: seq<Point>, polys: seq<seq<nat>>, details: Option<seq<seq<RPoint>>>)

  /** There is a polygon, all have vertices, and all boxes fit their fields. */
  ghost predicate Sound(f: Frame, m: Mesh) {
    && f.cs > 0.0 && |m.polys| >= 1
    && (forall k :: 0 <= k < |m.polys| ==> VertCount(m.polys[k]) >= 1 && Indices(m.polys[k], |m.verts|))
    && match m.details
       case Some(d) => |d| >= |m.polys| && forall k :: 0 <= k < |m.polys| ==> |d[k]| >= 1
       case None => forall k, j :: 0 <= k < |m.polys| && 0 <= j < VertCount(m.polys[k]) ==>
           HeightFits(f, Corners(m.verts, m.polys[k])[j].y)
  }

  /** The box of polygon k: of its detail mesh if there are detail meshes, else of its vertices. */
  ghost predicate IsBoxOf(f: Frame, m: Mesh, k: nat, box: Box)
    requires Sound(f, m) && k < |m.polys|
  {
    match m.details
    case Some(d) => exists lo, hi :: IsBounds(lo, hi, d[k]) && box == QuantizeBounds(f, lo, hi)
    case None =>
      exists lo, hi :: IsPointBounds(lo, hi, Corners(m.verts, m.polys[k])) && HeightFits(f, lo.y) && HeightFits(f, hi.y)
                       && box == RemapHeights(f, lo, hi)
  }

  method PolyBox(f: Frame, m: Mesh, k: nat) returns (box: Box)
    requires Sound(f, m) && k < |m.polys|
    ensures IsBoxOf(f, m, k, box)
  {
    hide IsBounds, IsPointBounds, HeightFits, QuantizeBounds, RemapHeights;
    match m.details
    case Some(d) =>
      var lo, hi;
      box, lo, hi := DetailBox(f, d[k]);
    case None =>
      var lo, hi;
      box, lo, hi := PlainBox(f, m.verts, m.polys[k]);
  }

  /** The tree over the boxes of all polygons, in an array of two nodes per polygon. */
  method CreateBVTree(f: Frame, m: Mesh) returns (nodes: array<Node>, ghost boxes: seq<Box>, ghost t: Tree)
    requires Sound(f, m)
    ensures nodes[..] == Encode(t) + [SPARE] && fresh(nodes) && nodes.Length == 2 * |m.polys|
    ensures Built(t) && multiset(Leaves(t)) == multiset(ItemsOf(boxes))
    ensures |boxes| == |m.polys| && forall k :: 0 <= k < |boxes| ==> IsBoxOf(f, m, k, boxes[k])
  {
    hide IsBoxOf, Sound;
    var all: seq<Box> := [];
    MeshNotEmpty(f, m);
    for k := 0 to |m.polys|
      invariant |all| == k && forall j :: 0 <= j < k ==> IsBoxOf(f, m, j, all[j])
    {
      var box := PolyBox(f, m, k);
      all := all + [box];
    }
    nodes, t := BuildTree(all);
    boxes := all;
  }

  lemma MeshNotEmpty(f: Frame, m: Mesh)
    requires Sound(f, m)
    ensures |m.polys| >= 1
  {
  }

  // ---- A tile that can be searched ----

  /** The tile takes in all vertices, and detail meshes take in their polygon's vertices. */
  ghost predicate InsideTile(f: Frame, m: Mesh)
    requires Sound(f, m)
  {
    && FrameFits(f)
    && (forall k, j :: 0 <= k < |m.polys| && 0 <= j < VertCount(m.polys[k]) ==>
          Within(f, Placed(f, Corners(m.verts, m.polys[k]))[j]))
    && (m.details.Some? ==>
          forall k :: 0 <= k < |m.polys| ==>
            && (forall v :: v in m.details.value[k] ==> Within(f, v))
            && (forall v :: v in Placed(f, Corners(m.verts, m.polys[k])) ==> v in m.details.value[k]))
  }

  /** The stored polygon: its vertices in the world. */
  function Stored(f: Frame, m: Mesh, k: nat): Poly
    requires k < |m.polys| && Indices(m.polys[k], |m.verts|)
  {
    Poly(false, Placed(f, Corners(m.verts, m.polys[k])))
  }

  /** The box the builder computes covers the polygon that a scan looks at. */
  lemma BoxCovers(f: Frame, m: Mesh, k: nat, box: Box)
    requires Sound(f, m) && InsideTile(f, m) && k < |m.polys| && IsBoxOf(f, m, k, box)
    ensures Covers(f, box, Stored(f, m, k).verts)
    ensures forall v :: v in Stored(f, m, k).verts ==> Within(f, v)
  {
    hide IsBounds, IsPointBounds, HeightFits, QuantizeBounds, RemapHeights, CellWithin, Within, Fits, Place;
    var corners := Corners(m.verts, m.polys[k]);
    forall v | v in Placed(f, corners) ensures Within(f, v) {
      var j :| 0 <= j < |corners| && Placed(f, corners)[j] == v;
    }
    match m.details
    case Some(d) =>
      var lo, hi :| IsBounds(lo, hi, d[k]) && box == QuantizeBounds(f, lo, hi);
      DetailCovers(f, d[k], lo, hi);
      CoversFewer(f, box, d[k], Placed(f, corners));
    case None =>
      var lo, hi :| IsPointBounds(lo, hi, corners) && HeightFits(f, lo.y) && HeightFits(f, hi.y)
          && box == RemapHeights(f, lo, hi);
      PlainCovers(f, corners, lo, hi);
  }

  lemma CoversFewer(f: Frame, box: Box, pts: seq<RPoint>, fewer: seq<RPoint>)
    requires f.cs > 0.0 && Covers(f, box, pts) && forall v :: v in fewer ==> v in pts
    ensures Covers(f, box, fewer)
  {
    hide CellWithin;
    forall k | 0 <= k < |fewer| ensures Covers(f, box, [fewer[k]]) {
      assert fewer[k] in fewer;
      var j :| 0 <= j < |pts| && pts[j] == fewer[k];
    }
    assert forall k :: 0 <= k < |fewer| ==> [fewer[k]][0] == fewer[k];
  }

  /** Polygon k is close to the query: the real bounds of its detail mesh, or of its vertices if there is none. */
  ghost predicate CloseTo(f: Frame, m: Mesh, k: nat, qmin: RPoint, qmax: RPoint)
    requires Sound(f, m) && k < |m.polys|
  {
    match m.details
    case Some(d) => forall lo, hi :: IsBounds(lo, hi, d[k]) ==> Close(f, lo, hi, qmin, qmax, 2.0)
    case None => forall lo, hi :: IsBounds(lo, hi, Stored(f, m, k).verts) ==> Close(f, lo, hi, qmin, qmax, 3.0)
  }

  lemma BoxClose(f: Frame, m: Mesh, k: nat, box: Box, qmin: RPoint, qmax: RPoint)
    requires Sound(f, m) && InsideTile(f, m) && k < |m.polys| && IsBoxOf(f, m, k, box)
    requires Overlaps(QuantizeQuery(f, qmin, qmax), box)
    ensures CloseTo(f, m, k, qmin, qmax)
  {
    hide IsBounds, IsPointBounds, HeightFits, QuantizeBounds, RemapHeights, QuantizeQuery, Overlaps, Within, Place,
        Placed, Close, Fits;
    match m.details
    case Some(d) =>
      var lo, hi :| IsBounds(lo, hi, d[k]) && box == QuantizeBounds(f, lo, hi);
      assert forall j :: 0 <= j < |d[k]| ==> d[k][j] in d[k];
      DetailClose(f, d[k], lo, hi, qmin, qmax);
      OnlyBounds(f, d[k], lo, hi, qmin, qmax, 2.0);
    case None =>
      var corners := Corners(m.verts, m.polys[k]);
      var lo, hi :| IsPointBounds(lo, hi, corners) && HeightFits(f, lo.y) && HeightFits(f, hi.y)
          && box == RemapHeights(f, lo, hi);
      PlacedBounds(f, lo, hi, corners);
      PlainClose(f, lo, hi, qmin, qmax);
      OnlyBounds(f, Placed(f, corners), Place(f, lo), Place(f, hi), qmin, qmax, 3.0);
  }

  lemma OnlyBounds(f: Frame, pts: seq<RPoint>, lo: RPoint, hi: RPoint, qmin: RPoint, qmax: RPoint, slack: real)
    requires IsBounds(lo, hi, pts) && Close(f, lo, hi, qmin, qmax, slack)
    ensures forall lo', hi' :: IsBounds(lo', hi', pts) ==> Close(f, lo', hi', qmin, qmax, slack)
  {
    hide IsBounds, Close;
    forall lo', hi' | IsBounds(lo', hi', pts) ensures Close(f, lo', hi', qmin, qmax, slack) {
      BoundsUnique(pts, lo, hi, lo', hi');
    }
  }

  /** The query starts less than two cells above the tile's corner. */
  ghost predicate AtCorner(f: Frame, qmin: RPoint) {
    && AtLowEnd(qmin.x, f.bmin.x, f.bmax.x, f.cs) && AtLowEnd(qmin.y, f.bmin.y, f.bmax.y, f.cs)
    && AtLowEnd(qmin.z, f.bmin.z, f.bmax.z, f.cs)
  }

  /** Whatever the walk reports is close to the query, but for polygon 0 at the tile's corner. */
  lemma FoundIsClose(f: Frame, m: Mesh, boxes: seq<Box>, walk: seq<nat>, qmin: RPoint, qmax: RPoint, i: nat)
    requires Sound(f, m) && InsideTile(f, m) && |boxes| == |m.polys|
    requires forall k :: 0 <= k < |boxes| ==> IsBoxOf(f, m, k, boxes[k])
    requires FrameFits(f) && multiset(walk)[i] == TimesFound(boxes, QuantizeQuery(f, qmin, qmax), i) && i in walk
    ensures (i == 0 && AtCorner(f, qmin)) || (i < |m.polys| && CloseTo(f, m, i, qmin, qmax))
  {
    hide QuantizeQuery, Overlaps, AtLowEnd, IsBoxOf, InsideTile, Sound, CloseTo, FrameFits;
    assert i in multiset(walk);
    OriginExactlyWhen(f, qmin, qmax);
    if i < |boxes| && Overlaps(QuantizeQuery(f, qmin, qmax), boxes[i]) {
      BoxClose(f, m, i, boxes[i], qmin, qmax);
    }
  }

  /** The tile of a mesh, with its tree over one box per polygon; connections come after the polygons. */
  method BuildTile(f: Frame, m: Mesh, connections: seq<Poly>, base: bv32) returns (tile: Tile, ghost boxes: seq<Box>)
    requires Sound(f, m) && InsideTile(f, m) && forall k :: 0 <= k < |connections| ==> connections[k].offMesh
    ensures tile.frame == f && tile.base == base && |tile.polys| == |m.polys| + |connections|
    ensures forall k :: 0 <= k < |m.polys| ==> tile.polys[k] == Stored(f, m, k)
    ensures tile.polys[|m.polys|..] == connections
    ensures |tile.nodes| == 2 * |m.polys| && |boxes| == |m.polys|
    ensures forall k :: 0 <= k < |boxes| ==> IsBoxOf(f, m, k, boxes[k])
    ensures forall q, i: nat :: multiset(Walk(tile.nodes, 0, q))[i] == TimesFound(boxes, q, i)
    ensures forall qmin, qmax, i: nat :: i in Scan(tile.polys, qmin, qmax) ==>
            i in Walk(tile.nodes, 0, QuantizeQuery(f, qmin, qmax))
    ensures forall qmin, qmax, i: nat :: i in Walk(tile.nodes, 0, QuantizeQuery(f, qmin, qmax)) ==>
            (i == 0 && AtCorner(f, qmin)) || (i < |m.polys| && CloseTo(f, m, i, qmin, qmax))
  {
    hide IsBoxOf, Covers, Within, Scan, Walk, QuantizeQuery, Encode, Leaves, Built, ItemsOf, FrameFits, Placed, Corners,
        TimesFound, CloseTo, AtCorner;
    var nodes;
    ghost var t;
    nodes, boxes, t := CreateBVTree(f, m);
    var polys := seq(|m.polys|, k requires 0 <= k < |m.polys| => Stored(f, m, k)) + connections;
    tile := Tile(f, nodes[..], polys, base);
    forall k | 0 <= k < |boxes|
      ensures Covers(f, boxes[k], polys[k].verts) && (forall v :: v in polys[k].verts ==> Within(f, v))
    {
      BoxCovers(f, m, k, boxes[k]);
    }
    forall qmin, qmax, i: nat | i in Scan(polys, qmin, qmax)
      ensures i in Walk(tile.nodes, 0, QuantizeQuery(f, qmin, qmax)) {
      NothingMissed(tile, boxes, t, qmin, qmax, i);
    }
    forall q, i: nat ensures multiset(Walk(tile.nodes, 0, q))[i] == TimesFound(boxes, q, i) {
      WalkFinds(boxes, t, q, i);
    }
    forall qmin, qmax, i: nat | i in Walk(tile.nodes, 0, QuantizeQuery(f, qmin, qmax))
      ensures (i == 0 && AtCorner(f, qmin)) || (i < |m.polys| && CloseTo(f, m, i, qmin, qmax))
    {
      FoundIsClose(f, m, boxes, Walk(tile.nodes, 0, QuantizeQuery(f, qmin, qmax)), qmin, qmax, i);
    }
  }

  /** From the mesh to the answer: building a tile and searching it. Everything reported is close to the query, but for
      polygon 0 at the corner, and unless the answer is cut off, everything that meets the query is reported. */
  method BuildAndQuery(f: Frame, m: Mesh, connections: seq<Poly>, base: bv32, qmin: RPoint, qmax: RPoint,
                       polys: array<bv32>, maxPolys: int) returns (n: nat, ghost found: seq<nat>)
    requires Sound(f, m) && InsideTile(f, m) && forall k :: 0 <= k < |connections| ==> connections[k].offMesh
    requires maxPolys <= polys.Length
    modifies polys
    ensures n <= polys.Length && polys[..n] == Refs(base, found)
    ensures forall i :: i in found ==>
              (i == 0 && AtCorner(f, qmin)) || (i < |m.polys| && CloseTo(f, m, i, qmin, qmax))
    ensures n < maxPolys ==> forall i :: 0 <= i < |m.polys| && Meets(Stored(f, m, i), qmin, qmax) ==> i in found
  {
    var tile;
    ghost var boxes;
    tile, boxes := BuildTile(f, m, connections, base);
    StoredHaveCorners(f, m);
    hide Sound, InsideTile, Walk, QuantizeQuery, CloseTo, AtCorner, Meets, IsBoxOf, TimesFound, Stored, FrameFits, Scan;
    ghost var walk := Walk(tile.nodes, 0, QuantizeQuery(f, qmin, qmax));
    forall k | |m.polys| <= k < |tile.polys| ensures tile.polys[k].offMesh {
      assert tile.polys[k] == connections[k - |m.polys|];
    }
    n := QueryPolygonsInTile(tile, qmin, qmax, polys, maxPolys);
    found := First(walk, maxPolys);
    hide First, Refs;
    FirstAreSome(walk, maxPolys);
    forall i | 0 <= i < |m.polys| && Meets(Stored(f, m, i), qmin, qmax) ensures i in Scan(tile.polys, qmin, qmax) {
      ScanFinds(tile.polys, qmin, qmax, i);
    }
    assert n == |polys[..n]| == |found|;
  }

  lemma StoredHaveCorners(f: Frame, m: Mesh)
    requires Sound(f, m) && InsideTile(f, m)
    ensures FrameFits(f) && |m.polys| >= 1
    ensures forall k :: 0 <= k < |m.polys| ==> |Stored(f, m, k).verts| >= 1
  {
  }

  // ---- Reported twice ----

  const CORNER: RPoint := RPoint(0.0, 0.0, 0.0)

  /** Half a square at the tile's corner. */
  const TRIANGLE: Mesh := Mesh([Point(0, 0, 0), Point(1, 0, 0), Point(0, 0, 1)], [[0, 1, 2]], None)

  const UNIT: Frame := Frame(CORNER, RPoint(1.0, 1.0, 1.0), 1.0, 1.0)

  /** A tile of one triangle, searched at its corner: the walk reports the triangle twice, a scan only once. */
  method TwiceReportedExample(base: bv32) returns (tile: Tile, polys: array<bv32>, n: nat)
    ensures |tile.polys| == 1 && |tile.nodes| == 2 && tile.base == base && FrameFits(tile.frame)
    ensures tile.polys[0] == Poly(false, [CORNER, RPoint(1.0, 0.0, 0.0), RPoint(0.0, 0.0, 1.0)])
    ensures Walk(tile.nodes, 0, QuantizeQuery(tile.frame, CORNER, CORNER)) == [0, 0]
    ensures Scan(tile.polys, CORNER, CORNER) == [0]
    ensures n == 2 <= polys.Length
            && polys[..n] == Refs(base, Walk(tile.nodes, 0, QuantizeQuery(tile.frame, CORNER, CORNER)))
    ensures polys[0] == polys[1]
  {
    hide Walk, Scan, Overlaps, Or, FromNat, Sound, InsideTile, IsBoxOf, Stored, QuantizeQuery, FrameFits;
    TriangleFits();
    ghost var boxes;
    tile, boxes := BuildTile(UNIT, TRIANGLE, [], base);
    UnitQuery();
    ghost var q := QuantizeQuery(UNIT, CORNER, CORNER);
    TriangleMet(boxes[0]);
    ghost var walk := Walk(tile.nodes, 0, q);
    JustTwice(walk);
    OneScanned(tile.polys);
    polys := new bv32[2](_ => 0);
    n := QueryPolygonsInTile(tile, CORNER, CORNER, polys, 2);
    assert polys[..n] == Refs(base, [0, 0]);
    assert polys[..n][0] == polys[..n][1];
  }

  lemma TriangleFits()
    ensures Sound(UNIT, TRIANGLE) && InsideTile(UNIT, TRIANGLE)
    ensures Stored(UNIT, TRIANGLE, 0) == Poly(false, [CORNER, RPoint(1.0, 0.0, 0.0), RPoint(0.0, 0.0, 1.0)])
  {
    assert VertCountFrom([0, 1, 2], 3) == 0;
    assert VertCountFrom([0, 1, 2], 2) == 1;
    assert VertCountFrom([0, 1, 2], 1) == 2;
    assert VertCount([0, 1, 2]) == 3;
  }

  /** The triangle's box overlaps the query at its corner. */
  lemma TriangleMet(box: Box)
    requires Sound(UNIT, TRIANGLE) && InsideTile(UNIT, TRIANGLE) && IsBoxOf(UNIT, TRIANGLE, 0, box)
    ensures Overlaps(QuantizeQuery(UNIT, CORNER, CORNER), box)
  {
    hide Overlaps, QuantizeQuery, IsBoxOf, Sound, InsideTile, Covers;
    TriangleFits();
    BoxCovers(UNIT, TRIANGLE, 0, box);
    TriangleBounds();
    Conservative(UNIT, box, Stored(UNIT, TRIANGLE, 0).verts, CORNER, RPoint(1.0, 0.0, 1.0), CORNER, CORNER);
  }

  lemma TriangleBounds()
    ensures IsBounds(CORNER, RPoint(1.0, 0.0, 1.0), [CORNER, RPoint(1.0, 0.0, 0.0), RPoint(0.0, 0.0, 1.0)])
  {
    var pts := [CORNER, RPoint(1.0, 0.0, 0.0), RPoint(0.0, 0.0, 1.0)];
    assert pts[0] == CORNER && pts[1].x == 1.0 && pts[2].z == 1.0;
  }

  lemma OneScanned(polys: seq<Poly>)
    requires polys == [Poly(false, [CORNER, RPoint(1.0, 0.0, 0.0), RPoint(0.0, 0.0, 1.0)])]
    ensures Scan(polys, CORNER, CORNER) == [0]
  {
    hide IsBounds;
    TriangleBounds();
    MeetsByBounds(polys[0], CORNER, RPoint(1.0, 0.0, 1.0), CORNER, CORNER);
    assert Scan(polys[..0], CORNER, CORNER) == [];
  }

  lemma JustTwice(walk: seq<nat>)
    requires forall i: nat :: multiset(walk)[i] == if i == 0 then 2 else 0
    ensures walk == [0, 0]
  {
    forall k | 0 <= k < |walk| ensures walk[k] == 0 { assert walk[k] in multiset(walk); }
    AllZero(walk);
  }

  lemma {:induction false} AllZero(s: seq<nat>)
    requires forall k :: 0 <= k < |s| ==> s[k] == 0
    ensures multiset(s)[0] == |s|
  {
    if |s| > 0 {
      assert s == [s[0]] + s[1..];
      AllZero(s[1..]);
    }
  }

  lemma UnitQuery()
    ensures FrameFits(UNIT) && QuantizeQuery(UNIT, CORNER, CORNER).bmin == ORIGIN
  {
  }
}
