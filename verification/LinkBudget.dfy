/** The builder's link budget against what linking a tile allocates. */
module LinkBudget {
  import opened MeshInput
  import opened TileLinks
  import opened PolyRefs
  import opened Words

  /** A builder input polygon: vertex indexes, cut short by MESH_NULL_IDX, and a neighbour word per edge. */
  datatype SrcPoly = SrcPoly(verts: seq<nat>, neis: seq<nat>)

  ghost predicate WellFormed(p: SrcPoly, nvp: nat) {
    |p.verts| == |p.neis| == nvp && forall j :: 0 <= j < nvp ==> p.neis[j] <= 0xffff
  }

  /** What is stored for a neighbour word: nothing for a border, the side for a portal, index + 1 otherwise. */
  function StoredNei(src: nat): (r: nat)
    requires src <= 0xffff
    ensures r <= 0xffff
  {
    if src >= 0x8000 then
      var dir := src % 16;
      if dir == 0 then DT_EXT_LINK + 4 else if dir == 1 then DT_EXT_LINK + 2
      else if dir == 2 then DT_EXT_LINK else if dir == 3 then DT_EXT_LINK + 6 else 0
    else src + 1
  }

  /** The grid step to the tile on a side. */
  function SideStep(side: int): (int, int) {
    match side
    case 0 => (1, 0)
    case 1 => (1, 1)
    case 2 => (0, 1)
    case 3 => (-1, 1)
    case 4 => (-1, 0)
    case 5 => (-1, -1)
    case 6 => (0, -1)
    case 7 => (1, -1)
    case _ => (0, 0)
  }

  /** The opposite side leads the other way. */
  lemma OppositeSides(side: int)
    requires 0 <= side < 8
    ensures SideStep((side + 4) % 8) == (-SideStep(side).0, -SideStep(side).1)
  {
  }

  /** A portal towards x-, z+, x+ or z- is stored flagged, with the side on which that neighbour lies; a border as no
      neighbour at all. */
  lemma PortalSides(src: nat)
    requires 0x8000 <= src <= 0xffff
    ensures src % 16 == 0xf ==> StoredNei(src) == 0
    ensures src % 16 < 4 ==>
              && StoredNei(src) >= DT_EXT_LINK
              && SideStep(StoredNei(src) - DT_EXT_LINK) == [(-1, 0), (0, 1), (1, 0), (0, -1)][src % 16]
  {
  }

  ghost predicate Stores(p: SrcPoly, neis: seq<nat>, nvp: nat)
    requires WellFormed(p, nvp)
  {
    |neis| == VertCount(p.verts) <= nvp && forall j :: 0 <= j < |neis| ==> neis[j] == StoredNei(p.neis[j])
  }

  /** Stores a polygon's neighbour words up to its vertex count. */
  method StorePoly(p: SrcPoly, nvp: nat) returns (poly: Poly)
    requires WellFormed(p, nvp)
    ensures !poly.isOffMesh && Stores(p, poly.neis, nvp)
  {
    var neis: seq<nat> := [];
    var j := 0;
    while j < nvp
      invariant 0 <= j <= nvp && |neis| == j && VertCount(p.verts) == j + VertCountFrom(p.verts, j)
      invariant forall k :: 0 <= k < j ==> neis[k] == StoredNei(p.neis[k])
    {
      if p.verts[j] == MESH_NULL_IDX {
        break;
      }
      neis := neis + [StoredNei(p.neis[j])];
      j := j + 1;
    }
    poly := Poly(false, neis);
  }

  function EdgeCount(src: seq<SrcPoly>): nat {
    if src == [] then 0 else EdgeCount(src[..|src| - 1]) + VertCount(src[|src| - 1].verts)
  }

  /** Portals among the edges from j on: flagged, and not a plain border. */
  function PortalsFrom(p: SrcPoly, j: nat): nat
    decreases |p.verts| - j
  {
    if j >= |p.verts| || j >= |p.neis| || p.verts[j] == MESH_NULL_IDX then 0
    else (if p.neis[j] >= 0x8000 && p.neis[j] % 16 != 0xf then 1 else 0) + PortalsFrom(p, j + 1)
  }

  function PortalCount(src: seq<SrcPoly>): nat {
    if src == [] then 0 else PortalCount(src[..|src| - 1]) + PortalsFrom(src[|src| - 1], 0)
  }

  /** The edges that are portals. */
  ghost function Portals(p: SrcPoly): set<int> {
    PortalsIn(p, 0, VertCount(p.verts))
  }

  predicate IsPortal(p: SrcPoly, e: int) {
    0 <= e < |p.neis| && p.neis[e] >= 0x8000 && p.neis[e] % 16 != 0xf
  }

  ghost function PortalsIn(p: SrcPoly, j: int, end: int): set<int> {
    set e | j <= e < end && IsPortal(p, e)
  }

  lemma {:induction false} PortalsCounted(p: SrcPoly, j: nat)
    requires j <= |p.verts|
    ensures PortalsFrom(p, j) == |PortalsIn(p, j, j + VertCountFrom(p.verts, j))|
    decreases |p.verts| - j
  {
    var n := VertCountFrom(p.verts, j);
    if j >= |p.verts| || p.verts[j] == MESH_NULL_IDX || j >= |p.neis| {
      assert PortalsIn(p, j, j + n) == {};
    } else {
      PortalsCounted(p, j + 1);
      FirstPortal(p, j, j + n);
    }
  }

  lemma FirstPortal(p: SrcPoly, j: int, end: int)
    requires j < end
    ensures j !in PortalsIn(p, j + 1, end)
    ensures PortalsIn(p, j, end) == (if IsPortal(p, j) then {j} else {}) + PortalsIn(p, j + 1, end)
  {
    hide IsPortal;
  }

  /** All edges of all polygons, as pairs of polygon and edge. */
  ghost function Edges(src: seq<SrcPoly>): set<(int, int)> {
    set i, j | 0 <= i < |src| && 0 <= j < VertCount(src[i].verts) :: (i, j)
  }

  ghost function AllPortals(src: seq<SrcPoly>): set<(int, int)> {
    set i, j | 0 <= i < |src| && j in Portals(src[i]) :: (i, j)
  }

  ghost function Paired(i: int, s: set<int>): set<(int, int)> {
    set j | j in s :: (i, j)
  }

  lemma {:induction false} PairedSize(i: int, s: set<int>)
    ensures |Paired(i, s)| == |s|
  {
    if forall j :: j !in s {
      assert s == {} && Paired(i, s) == {};
    } else {
      var j :| j in s;
      PairedSize(i, s - {j});
      assert Paired(i, s) == Paired(i, s - {j}) + {(i, j)};
    }
  }

  ghost function Range(n: nat): set<int> {
    if n == 0 then {} else Range(n - 1) + {n - 1}
  }

  lemma {:induction false} RangeSize(n: nat)
    ensures |Range(n)| == n && forall j :: j in Range(n) <==> 0 <= j < n
  {
    if n > 0 { RangeSize(n - 1); }
  }

  /** The counts are those of all edges and of all portals among them. */
  lemma {:induction false} CountsAreSizes(src: seq<SrcPoly>)
    ensures EdgeCount(src) == |Edges(src)| && PortalCount(src) == |AllPortals(src)|
  {
    if src == [] {
      assert Edges(src) == {} && AllPortals(src) == {};
    } else {
      var front, last, i := src[..|src| - 1], src[|src| - 1], |src| - 1;
      CountsAreSizes(front);
      var range := Range(VertCount(last.verts));
      RangeSize(VertCount(last.verts));
      PairedSize(i, range);
      PairedSize(i, Portals(last));
      PortalsCounted(last, 0);
      assert PortalsFrom(last, 0) == |Portals(last)|;
      hide VertCount, Range, Portals, Paired, Edges, AllPortals;
      LastOnes(src);
    }
  }

  lemma LastOnes(src: seq<SrcPoly>)
    requires src != []
    ensures var front, last, i := src[..|src| - 1], src[|src| - 1], |src| - 1;
            var range := Range(VertCount(last.verts));
            && Edges(src) == Edges(front) + Paired(i, range) && Edges(front) !! Paired(i, range)
            && AllPortals(src) == AllPortals(front) + Paired(i, Portals(last))
            && AllPortals(front) !! Paired(i, Portals(last))
  {
    RangeSize(VertCount(src[|src| - 1].verts));
    hide VertCount, Portals, Range;
    var front, last, i := src[..|src| - 1], src[|src| - 1], |src| - 1;
    assert forall k :: 0 <= k < i ==> src[k] == front[k];
  }

  /** Counts a polygon's edges and, among them, its portals. */
  method CountPoly(p: SrcPoly, nvp: nat) returns (edges: nat, portals: nat)
    requires WellFormed(p, nvp)
    ensures edges == VertCount(p.verts) && portals == PortalsFrom(p, 0) <= edges
  {
    edges, portals := 0, 0;
    var j := 0;
    while j < nvp
      invariant 0 <= j <= nvp && edges == j && portals <= edges
                && VertCount(p.verts) == edges + VertCountFrom(p.verts, j)
      invariant PortalsFrom(p, 0) == portals + PortalsFrom(p, j)
    {
      if p.verts[j] == MESH_NULL_IDX {
        break;
      }
      edges := edges + 1;
      if p.neis[j] >= 0x8000 && p.neis[j] % 16 != 0xf {
        portals := portals + 1;
      }
      j := j + 1;
    }
  }

  /** The number of links the builder reserves for a tile. */
  method MaxLinkCount(src: seq<SrcPoly>, nvp: nat, offMeshConLinkCount: nat) returns (maxLinkCount: nat)
    requires forall i :: 0 <= i < |src| ==> WellFormed(src[i], nvp)
    ensures maxLinkCount == EdgeCount(src) + 2 * PortalCount(src) + 2 * offMeshConLinkCount
            && PortalCount(src) <= EdgeCount(src)
  {
    var edgeCount, portalCount := 0, 0;
    for i := 0 to |src|
      invariant edgeCount == EdgeCount(src[..i]) && portalCount == PortalCount(src[..i]) <= edgeCount
    {
      var edges, portals := CountPoly(src[i], nvp);
      edgeCount, portalCount := edgeCount + edges, portalCount + portals;
      assert src[..i + 1][..i] == src[..i];
    }
    assert src[..|src|] == src;
    maxLinkCount := edgeCount + portalCount * 2 + offMeshConLinkCount * 2;
  }

  lemma {:induction false} FewerEdgesThanWords(neis: seq<nat>, j: nat)
    requires j <= |neis|
    ensures |EdgesFrom(neis, j)| <= |neis| - j
    decreases |neis| - j
  {
    if j < |neis| { FewerEdgesThanWords(neis, j + 1); }
  }

  /** The reserved links always suffice for the internal links of the stored polygons, whatever off-mesh
      polygons are stored behind them. */
  lemma {:induction false} BudgetSuffices(src: seq<SrcPoly>, nvp: nat, polys: seq<Poly>)
    requires |src| <= |polys| && forall i :: 0 <= i < |src| ==> WellFormed(src[i], nvp)
    requires forall i :: 0 <= i < |src| ==> Stores(src[i], polys[i].neis, nvp)
    requires forall i :: |src| <= i < |polys| ==> polys[i].isOffMesh
    ensures Total(polys) <= EdgeCount(src)
    decreases |polys|
  {
    if |polys| > |src| {
      BudgetSuffices(src, nvp, polys[..|polys| - 1]);
    } else if src != [] {
      BudgetSuffices(src[..|src| - 1], nvp, polys[..|polys| - 1]);
      FewerEdgesThanWords(polys[|polys| - 1].neis, 0);
    }
  }

  /** The mesh polygons in order, then the off-mesh connections. */
  ghost predicate Stored(src: seq<SrcPoly>, nvp: nat, polys: seq<Poly>)
    requires forall i :: 0 <= i < |src| ==> WellFormed(src[i], nvp)
  {
    && |src| <= |polys|
    && (forall i :: 0 <= i < |src| ==> !polys[i].isOffMesh && Stores(src[i], polys[i].neis, nvp))
    && (forall i :: |src| <= i < |polys| ==> polys[i] == Poly(true, [0, 0]))
    && (forall i :: 0 <= i < |polys| ==> Ushort(polys[i].neis))
  }

  method StorePolys(src: seq<SrcPoly>, nvp: nat, offMeshPolys: nat) returns (polys: seq<Poly>)
    requires forall i :: 0 <= i < |src| ==> WellFormed(src[i], nvp)
    ensures |polys| == |src| + offMeshPolys && Stored(src, nvp, polys)
  {
    polys := [];
    for i := 0 to |src|
      invariant |polys| == i && Stored(src[..i], nvp, polys)
    {
      var poly := StorePoly(src[i], nvp);
      polys := polys + [poly];
    }
    assert src[..|src|] == src;
    for i := 0 to offMeshPolys
      invariant |polys| == |src| + i && Stored(src, nvp, polys)
    {
      polys := polys + [Poly(true, [0, 0])];
    }
  }

  /** Where the links of a loaded tile lead: edge j of polygon i has a link exactly when the builder was given a polygon
      as its neighbour, and the link's reference decodes to that polygon, in this very tile. */
  lemma LinksLeadHome(src: seq<SrcPoly>, nvp: nat, polys: seq<Poly>, ref: seq<bv32>, edge: seq<nat>,
                      lists: seq<seq<nat>>, w: Widths, salt: bv32, it: bv32, i: nat)
    requires (forall k :: 0 <= k < |src| ==> WellFormed(src[k], nvp)) && Stored(src, nvp, polys)
    requires Packed(w) && Below(salt, w.salt) && Below(it, w.tile) && |ref| == |edge| && |lists| == |polys| && i < |src|
    requires LinkedBefore(ref, edge, lists, EncodePolyId(w, salt, it, 0), polys, |polys|)
    requires forall j :: 0 <= j < VertCount(src[i].verts) && src[i].neis[j] < 0x7fff ==>
               Below(FromNat(src[i].neis[j]), w.poly)
    ensures forall k :: 0 <= k < |lists[i]| ==>
              && lists[i][k] < |ref|
              && var j := edge[lists[i][k]];
              && j < VertCount(src[i].verts) && src[i].neis[j] < 0x7fff
              && DecodePoly(w, ref[lists[i][k]]) == FromNat(src[i].neis[j])
              && DecodeTile(w, ref[lists[i][k]]) == it && DecodeSalt(w, ref[lists[i][k]]) == salt
    ensures forall j :: 0 <= j < VertCount(src[i].verts) && src[i].neis[j] < 0x7fff ==>
              exists k :: 0 <= k < |lists[i]| && lists[i][k] < |ref| && edge[lists[i][k]] == j
  {
    hide FromNat, Or, EncodePolyId, DecodePoly, DecodeTile, DecodeSalt, Packed, Below, VertCount, EdgesFrom;
    var neis := polys[i].neis;
    var edges := EdgesFrom(neis, 0);
    EdgesIncrease(neis, 0);
    assert LinkedTo(ref, edge, lists[i], EncodePolyId(w, salt, it, 0), neis, edges);
    forall k | 0 <= k < |lists[i]|
      ensures var j := edges[k];
              && src[i].neis[j] < 0x7fff && DecodePoly(w, ref[lists[i][k]]) == FromNat(src[i].neis[j])
              && DecodeTile(w, ref[lists[i][k]]) == it && DecodeSalt(w, ref[lists[i][k]]) == salt
    {
      var j := edges[k];
      assert Internal(neis[j]) && neis[j] == StoredNei(src[i].neis[j]);
      JoinedRef(w, salt, it, FromNat(src[i].neis[j]));
    }
    forall j | 0 <= j < VertCount(src[i].verts) && src[i].neis[j] < 0x7fff
      ensures exists k :: 0 <= k < |lists[i]| && lists[i][k] < |ref| && edge[lists[i][k]] == j
    {
      assert neis[j] == StoredNei(src[i].neis[j]) && Internal(neis[j]);
      var k :| 0 <= k < |edges| && edges[k] == j;
      assert edge[lists[i][k]] == j;
    }
  }

  /** Building and loading a tile: reserve, store, thread the free list, link. No internal link is lost. */
  method BuildAndLink(src: seq<SrcPoly>, nvp: nat, offMeshPolys: nat, offMeshConLinkCount: nat, base: bv32)
    returns (tile: MeshTile, polys: seq<Poly>)
    requires forall i :: 0 <= i < |src| ==> WellFormed(src[i], nvp)
    requires 1 <= EdgeCount(src) + 2 * offMeshConLinkCount
    requires EdgeCount(src) + 2 * PortalCount(src) + 2 * offMeshConLinkCount <= DT_NULL_LINK
    ensures |polys| == |src| + offMeshPolys && Stored(src, nvp, polys)
    ensures tile.Valid() && |tile.lists| == |polys|
    ensures LinkedBefore(tile.ref[..], tile.edge[..], tile.lists, base, polys, |polys|)
  {
    polys := StorePolys(src, nvp, offMeshPolys);
    BudgetSuffices(src, nvp, polys);
    hide WellFormed, EdgeCount, PortalCount, Total, LinkedBefore, Stores, Ushort;
    var maxLinkCount := MaxLinkCount(src, nvp, offMeshConLinkCount);
    tile := new MeshTile(maxLinkCount, |polys|);
    tile.ConnectIntLinks(base, polys);
  }
}
