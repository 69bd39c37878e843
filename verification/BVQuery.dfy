/** Searching a tile: the escape-index walk over the stored tree gives the leaves a plain filter would give. */
module BVQuery {
  import opened Sequences
  import opened Words
  import opened PolyRefs
  import opened BVTree
  import opened Quantization

  // ---- Building the whole tree ----

  /** The polygons in storage order. */
  function ItemsOf(boxes: seq<Box>): seq<Item> {
    seq(|boxes|, i requires 0 <= i < |boxes| => Item(boxes[i], i))
  }

  /** The tree of the boxes; the node array has two nodes per polygon, one more than the tree needs. */
  method BuildTree(boxes: seq<Box>) returns (nodes: array<Node>, ghost t: Tree)
    requires |boxes| >= 1
    ensures nodes[..] == Encode(t) + [SPARE] && fresh(nodes) && nodes.Length == 2 * |boxes|
    ensures Built(t) && multiset(Leaves(t)) == multiset(ItemsOf(boxes))
  {
    hide Encode, Leaves, Built, SameOutside;
    var n := |boxes|;
    var items := new Item[n](i requires 0 <= i < n => Item(boxes[i], i));
    assert items[..] == ItemsOf(boxes);
    nodes := new Node[2 * n](_ => SPARE);
    ghost var nodes0 := nodes[..];
    assert items[0..n] == items[..];
    var cur;
    cur, t := Subdivide(items, 0, n, nodes, 0);
    SameSlice(nodes0, nodes[..], 0, cur, cur, cur + 1);
    assert nodes[cur] == nodes[cur..cur + 1][0] == nodes0[cur..cur + 1][0];
    assert nodes[..] == nodes[0..cur] + [nodes[cur]];
  }

  // ---- Walking ----

  /** The plain filter: indices of the items that overlap the query. */
  function Hits(items: seq<Item>, q: Box): seq<nat> {
    if items == [] then [] else (if Overlaps(q, items[0].box) then [items[0].i] else []) + Hits(items[1..], q)
  }

  /** The walk from node k to the end of the array, jumping by the escape offset over what does not overlap. */
  function Walk(nodes: seq<Node>, k: nat, q: Box): seq<nat>
    decreases |nodes| - k
  {
    if k >= |nodes| then []
    else if nodes[k].i >= 0 then (if Overlaps(q, nodes[k].box) then [nodes[k].i] else []) + Walk(nodes, k + 1, q)
    else Walk(nodes, if Overlaps(q, nodes[k].box) then k + 1 else k - nodes[k].i, q)
  }

  lemma {:induction false} HitsAppend(a: seq<Item>, b: seq<Item>, q: Box)
    ensures Hits(a + b, q) == Hits(a, q) + Hits(b, q)
  {
    if a == [] {
      assert a + b == b;
    } else {
      assert (a + b)[1..] == a[1..] + b;
      HitsAppend(a[1..], b, q);
    }
  }

  /** Skipping is safe: nothing under a box that misses the query meets it. */
  lemma {:induction false} NoHits(items: seq<Item>, box: Box, q: Box)
    requires (forall item :: item in items ==> Inside(item.box, box)) && !Overlaps(q, box)
    ensures Hits(items, q) == []
  {
    if items != [] {
      assert items[0] in items;
      NoHits(items[1..], box, q);
    }
  }

  lemma WalkStep(nodes: seq<Node>, k: nat, q: Box)
    requires k < |nodes|
    ensures nodes[k].i >= 0 ==>
              Walk(nodes, k, q) == (if Overlaps(q, nodes[k].box) then [nodes[k].i] else []) + Walk(nodes, k + 1, q)
    ensures nodes[k].i < 0 ==> Walk(nodes, k, q) == Walk(nodes,
                                                         if Overlaps(q, nodes[k].box) then k + 1 else k - nodes[k].i, q)
  {
  }

  /** Walking over a laid-out subtree collects its overlapping leaves in order, and goes on behind it. */
  lemma {:induction false} WalkTree(t: Tree, nodes: seq<Node>, k: nat, q: Box)
    requires k + Size(t) <= |nodes| && nodes[k..k + Size(t)] == Encode(t) && Built(t)
    ensures Walk(nodes, k, q) == Hits(Leaves(t), q) + Walk(nodes, k + Size(t), q)
  {
    hide Walk, Overlaps, Built, Encode, Hits, Leaves, Size;
    TreeParts(t);
    WalkStep(nodes, k, q);
    Parts(nodes, k, t);
    if t.Leaf? {
      OneHit(t.item, q);
    } else if Overlaps(q, t.box) {
      var l, r := t.left, t.right;
      WalkTree(l, nodes, k + 1, q);
      WalkTree(r, nodes, k + 1 + Size(l), q);
      HitsAppend(Leaves(l), Leaves(r), q);
      Joined(Hits(Leaves(l), q), Hits(Leaves(r), q), Walk(nodes, k + Size(t), q));
    } else {
      NothingInside(t, q);
    }
  }

  lemma TreeParts(t: Tree)
    ensures t.Leaf? ==> Leaves(t) == [t.item] && Size(t) == 1
    ensures t.Inner? ==> Leaves(t) == Leaves(t.left) + Leaves(t.right) && Size(t) == 1 + Size(t.left) + Size(t.right)
    ensures t.Inner? && Built(t) ==> Built(t.left) && Built(t.right)
  {
  }

  lemma OneHit(item: Item, q: Box)
    ensures Hits([item], q) == if Overlaps(q, item.box) then [item.i] else []
  {
  }

  lemma Joined<T>(a: seq<T>, b: seq<T>, c: seq<T>)
    ensures a + (b + c) == a + b + c
  {
  }

  lemma NothingInside(t: Tree, q: Box)
    requires t.Inner? && Built(t) && !Overlaps(q, t.box)
    ensures Hits(Leaves(t), q) == []
  {
    hide Separated, Overlaps, Inside, Leaves;
    assert ContainsAll(t.box, multiset(Leaves(t)));
    assert forall item :: item in Leaves(t) ==> item in multiset(Leaves(t));
    NoHits(Leaves(t), t.box, q);
  }

  /** Where the root and the subtrees of a laid-out tree are. */
  lemma Parts(nodes: seq<Node>, k: nat, t: Tree)
    requires k + Size(t) <= |nodes| && nodes[k..k + Size(t)] == Encode(t)
    ensures k < |nodes| && nodes[k] == Node(BoxOf(t), if t.Leaf? then t.item.i else -(Size(t) as int))
    ensures t.Inner? ==>
              && nodes[k + 1..k + 1 + Size(t.left)] == Encode(t.left)
              && nodes[k + 1 + Size(t.left)..k + Size(t)] == Encode(t.right)
  {
    EncodeSize(t);
    SizeParts(t);
    hide Encode, Size;
    assert nodes[k..k + Size(t)][0] == nodes[k];
    if t.Inner? {
      EncodeSize(t.left);
      EncodeSize(t.right);
      EncodeInner(t.box, t.left, t.right);
      Pieces(nodes, k, Encode(t)[0], Encode(t.left), Encode(t.right));
    }
  }

  lemma SizeParts(t: Tree)
    ensures Size(t) == (if t.Leaf? then 1 else 1 + Size(t.left) + Size(t.right))
    ensures |Encode(t)| > 0 && Encode(t)[0] == Node(BoxOf(t), if t.Leaf? then t.item.i else -(Size(t) as int))
  {
  }

  lemma Pieces<T>(s: seq<T>, k: nat, x: T, a: seq<T>, b: seq<T>)
    requires k + 1 + |a| + |b| <= |s| && s[k..k + 1 + |a| + |b|] == [x] + (a + b)
    ensures s[k + 1..k + 1 + |a|] == a && s[k + 1 + |a|..k + 1 + |a| + |b|] == b
  {
    var n, whole := 1 + |a| + |b|, [x] + (a + b);
    assert whole[1..1 + |a|] == a && whole[1 + |a|..n] == b;
    SliceOfSlice(s, k, k + n, 1, 1 + |a|);
    SliceOfSlice(s, k, k + n, 1 + |a|, n);
  }

  lemma SliceOfSlice<T>(s: seq<T>, i: nat, j: nat, k: nat, l: nat)
    requires i <= j <= |s| && k <= l <= j - i
    ensures s[i..j][k..l] == s[i + k..i + l]
  {
    var a, b := s[i..j][k..l], s[i + k..i + l];
    assert |a| == |b| == l - k;
    forall n | 0 <= n < l - k ensures a[n] == b[n] { assert a[n] == s[i..j][k + n] == s[i + k + n]; }
  }

  /** The walk over the whole array is the filter over the leaves; the spare node adds polygon 0 exactly when
      the quantised query starts at the origin. */
  lemma WalkIsFilter(t: Tree, q: Box)
    requires Built(t)
    ensures Walk(Encode(t) + [SPARE], 0, q) == Hits(Leaves(t), q) + (if q.bmin == ORIGIN then [0] else [])
  {
    hide Walk, Overlaps, Hits, Built;
    var nodes := Encode(t) + [SPARE];
    EncodeSize(t);
    hide Encode;
    assert nodes[0..Size(t)] == Encode(t);
    WalkTree(t, nodes, 0, q);
    WalkStep(nodes, Size(t), q);
    WalkEnd(nodes, q);
    SpareOverlaps(q);
  }

  lemma WalkEnd(nodes: seq<Node>, q: Box)
    ensures Walk(nodes, |nodes|, q) == []
  {
  }

  lemma SpareOverlaps(q: Box)
    ensures Overlaps(q, SPARE.box) <==> q.bmin == ORIGIN
  {
  }

  // ---- What is found ----

  /** The filter does not care about order. */
  lemma {:induction false} HitsOfPermutation(a: seq<Item>, b: seq<Item>, q: Box)
    requires multiset(a) == multiset(b)
    ensures multiset(Hits(a, q)) == multiset(Hits(b, q))
  {
    hide Hits;
    if a == [] {
      assert |b| == |multiset(b)| == |multiset(a)| == 0;
    } else {
      assert a[0] in multiset(b);
      var j :| 0 <= j < |b| && b[j] == a[0];
      PickOut(a, 0, q);
      PickOut(b, j, q);
      assert a[..0] + a[1..] == a[1..];
      assert multiset(a[1..]) == multiset(a) - multiset{a[0]};
      assert multiset(b[..j] + b[j + 1..]) == multiset(b) - multiset{b[j]};
      HitsOfPermutation(a[1..], b[..j] + b[j + 1..], q);
    }
  }

  lemma PickOut(s: seq<Item>, j: nat, q: Box)
    requires j < |s|
    ensures var rest := s[..j] + s[j + 1..];
            && multiset(s) == multiset{s[j]} + multiset(rest)
            && multiset(Hits(s, q)) == multiset(Hits([s[j]], q)) + multiset(Hits(rest, q))
  {
    hide Hits;
    assert s == s[..j] + ([s[j]] + s[j + 1..]);
    HitsAppend(s[..j], s[j + 1..], q);
    HitsAppend(s[..j], [s[j]] + s[j + 1..], q);
    HitsAppend([s[j]], s[j + 1..], q);
  }

  /** In storage order the filter gives each overlapping polygon once. */
  lemma {:induction false} HitsInOrder(boxes: seq<Box>, q: Box, i: nat)
    ensures multiset(Hits(ItemsOf(boxes), q))[i] == if i < |boxes| && Overlaps(q, boxes[i]) then 1 else 0
  {
    hide Hits, Overlaps;
    if boxes == [] {
      NothingHit(q);
      assert ItemsOf(boxes) == [];
    } else {
      var n := |boxes| - 1;
      var front, last := boxes[..n], Item(boxes[n], n);
      assert ItemsOf(boxes) == ItemsOf(front) + [last];
      HitsInOrder(front, q, i);
      HitsAppend(ItemsOf(front), [last], q);
      OneHit(last, q);
      hide ItemsOf;
      var before := Hits(ItemsOf(front), q);
      CountMore(before, n, i);
      assert before + [] == before;
    }
  }

  lemma CountMore(s: seq<nat>, n: nat, i: nat)
    ensures multiset(s + [n])[i] == multiset(s)[i] + (if i == n then 1 else 0)
  {
  }

  lemma NothingHit(q: Box)
    ensures Hits([], q) == []
  {
  }

  /** Once if the polygon's box overlaps the query, and once more by the spare node if it is polygon 0 and the query
      starts at the origin. */
  function TimesFound(boxes: seq<Box>, q: Box, i: nat): nat {
    (if i < |boxes| && Overlaps(q, boxes[i]) then 1 else 0) + (if i == 0 && q.bmin == ORIGIN then 1 else 0)
  }

  /** How often the whole walk reports polygon i. */
  lemma WalkFinds(boxes: seq<Box>, t: Tree, q: Box, i: nat)
    requires Built(t) && multiset(Leaves(t)) == multiset(ItemsOf(boxes))
    ensures multiset(Walk(Encode(t) + [SPARE], 0, q))[i] == TimesFound(boxes, q, i)
  {
    WalkIsFilter(t, q);
    HitsOfPermutation(Leaves(t), ItemsOf(boxes), q);
    HitsInOrder(boxes, q, i);
  }

  // ---- The query ----

  datatype Poly = Poly(offMesh: bool, verts: seq<RPoint>)

  /** A tile as a query sees it; without a tree there are no nodes. */
  datatype Tile = Tile(frame: Frame, nodes: seq<Node>, polys: seq<Poly>, base: bv32)

  function Refs(base: bv32, s: seq<nat>): (refs: seq<bv32>)
    ensures |refs| == |s| && forall k :: 0 <= k < |s| ==> refs[k] == Or(base, FromNat(s[k]))
  {
    seq(|s|, k requires 0 <= k < |s| => Or(base, FromNat(s[k])))
  }

  /** In a tile whose base reference has a salt and a slot, a reported reference decodes to these and the polygon. */
  lemma RefsDecode(w: Widths, salt: bv32, it: bv32, s: seq<nat>, k: nat)
    requires Packed(w) && Below(salt, w.salt) && Below(it, w.tile) && k < |s| && Below(FromNat(s[k]), w.poly)
    ensures var ref := Refs(EncodePolyId(w, salt, it, 0), s)[k];
            && DecodePoly(w, ref) == FromNat(s[k]) && DecodeTile(w, ref) == it && DecodeSalt(w, ref) == salt
  {
    hide EncodePolyId, DecodePoly, DecodeTile, DecodeSalt, FromNat, Below, Or;
    JoinedRef(w, salt, it, FromNat(s[k]));
  }

  /** The polygons whose real bounds meet the query; connections are not reported. */
  ghost predicate Meets(p: Poly, qmin: RPoint, qmax: RPoint) {
    !p.offMesh && exists lo, hi :: IsBounds(lo, hi, p.verts) && RealOverlap(qmin, qmax, lo, hi)
  }

  ghost function Scan(polys: seq<Poly>, qmin: RPoint, qmax: RPoint): seq<nat> {
    if polys == [] then []
    else Scan(polys[..|polys| - 1], qmin, qmax) + (if Meets(polys[|polys| - 1], qmin, qmax) then [|polys| - 1] else [])
  }

  lemma {:induction false} ScanFinds(polys: seq<Poly>, qmin: RPoint, qmax: RPoint, i: nat)
    ensures i in Scan(polys, qmin, qmax) <==> i < |polys| && Meets(polys[i], qmin, qmax)
  {
    if polys != [] {
      ScanFinds(polys[..|polys| - 1], qmin, qmax, i);
    }
  }

  /** In the order of the polygons, each at most once. */
  lemma {:induction false} ScanIncreases(polys: seq<Poly>, qmin: RPoint, qmax: RPoint)
    ensures forall k, l :: 0 <= k < l < |Scan(polys, qmin, qmax)| ==>
              Scan(polys, qmin, qmax)[k] < Scan(polys, qmin, qmax)[l]
    ensures forall k :: 0 <= k < |Scan(polys, qmin, qmax)| ==> Scan(polys, qmin, qmax)[k] < |polys|
  {
    if polys != [] {
      ScanIncreases(polys[..|polys| - 1], qmin, qmax);
    }
  }

  /** Bounds are unique, so a polygon meets the query exactly when the bounds computed for it do. */
  lemma MeetsByBounds(p: Poly, lo: RPoint, hi: RPoint, qmin: RPoint, qmax: RPoint)
    requires IsBounds(lo, hi, p.verts)
    ensures Meets(p, qmin, qmax) <==> !p.offMesh && RealOverlap(qmin, qmax, lo, hi)
  {
    if Meets(p, qmin, qmax) {
      var lo', hi' :| IsBounds(lo', hi', p.verts) && RealOverlap(qmin, qmax, lo', hi');
      BoundsUnique(p.verts, lo, hi, lo', hi');
    }
  }

  lemma BoundsUnique(pts: seq<RPoint>, lo: RPoint, hi: RPoint, lo': RPoint, hi': RPoint)
    requires IsBounds(lo, hi, pts) && IsBounds(lo', hi', pts)
    ensures lo == lo' && hi == hi'
  {
  }

  /** The polygons of a tile whose bounds meet the query box, as references, at most maxPolys of them. */
  method QueryPolygonsInTile(tile: Tile, qmin: RPoint, qmax: RPoint, polys: array<bv32>, maxPolys: int) returns (n: nat)
    requires maxPolys <= polys.Length && (tile.nodes != [] ==> FrameFits(tile.frame))
    requires forall k :: 0 <= k < |tile.polys| ==> tile.polys[k].offMesh || |tile.polys[k].verts| >= 1
    modifies polys
    ensures n <= polys.Length
    ensures tile.nodes != [] ==>
              polys[..n] == Refs(tile.base, First(Walk(tile.nodes, 0, QuantizeQuery(tile.frame, qmin, qmax)), maxPolys))
    ensures tile.nodes == [] ==> polys[..n] == Refs(tile.base, First(Scan(tile.polys, qmin, qmax), maxPolys))
  {
    if tile.nodes != [] {
      n := WalkTile(tile.nodes, QuantizeQuery(tile.frame, qmin, qmax), tile.base, polys, maxPolys);
    } else {
      n := ScanTile(tile.polys, qmin, qmax, tile.base, polys, maxPolys);
    }
  }

  method WalkTile(nodes: seq<Node>, q: Box, base: bv32, polys: array<bv32>, maxPolys: int) returns (n: nat)
    requires maxPolys <= polys.Length
    modifies polys
    ensures n <= polys.Length && polys[..n] == Refs(base, First(Walk(nodes, 0, q), maxPolys))
  {
    hide Or, FromNat, Overlaps;
    n := 0;
    var k := 0;
    ghost var seen: seq<nat> := [];
    while k < |nodes|
      invariant n <= polys.Length && polys[..n] == Refs(base, First(seen, maxPolys))
      invariant seen + Walk(nodes, k, q) == Walk(nodes, 0, q)
      decreases |nodes| - k
    {
      var overlap := Overlaps(q, nodes[k].box);
      var isLeafNode := nodes[k].i >= 0;
      if isLeafNode && overlap {
        ghost var i: nat := nodes[k].i;
        assert seen + ([i] + Walk(nodes, k + 1, q)) == seen + [i] + Walk(nodes, k + 1, q);
        n := Report(base, nodes[k].i, polys, n, maxPolys, seen);
        seen := seen + [i];
      }
      if overlap || isLeafNode {
        k := k + 1;
      } else {
        var escapeIndex := -nodes[k].i;
        k := k + escapeIndex;
      }
    }
    assert seen + [] == seen;
  }

  /** Stores one more reference while there is room. */
  method Report(base: bv32, i: nat, polys: array<bv32>, n0: nat, maxPolys: int, ghost seen: seq<nat>) returns (n: nat)
    requires maxPolys <= polys.Length && n0 <= polys.Length && polys[..n0] == Refs(base, First(seen, maxPolys))
    modifies polys
    ensures n <= polys.Length && polys[..n] == Refs(base, First(seen + [i], maxPolys))
  {
    n := n0;
    assert |polys[..n]| == |First(seen, maxPolys)|;
    if n < maxPolys {
      ghost var before := polys[..n];
      polys[n] := Or(base, FromNat(i));
      n := n + 1;
      assert polys[..n] == before + [Or(base, FromNat(i))];
    }
  }

  method ScanTile(all: seq<Poly>, qmin: RPoint, qmax: RPoint, base: bv32, polys: array<bv32>, maxPolys: int)
    returns (n: nat)
    requires maxPolys <= polys.Length
    requires forall k :: 0 <= k < |all| ==> all[k].offMesh || |all[k].verts| >= 1
    modifies polys
    ensures n <= polys.Length && polys[..n] == Refs(base, First(Scan(all, qmin, qmax), maxPolys))
  {
    hide Or, FromNat, IsBounds, Meets, RealOverlap;
    n := 0;
    for i := 0 to |all|
      invariant n <= polys.Length && polys[..n] == Refs(base, First(Scan(all[..i], qmin, qmax), maxPolys))
    {
      assert all[..i + 1][..i] == all[..i] && all[..i + 1][i] == all[i];
      if all[i].offMesh {
        NoConnection(all[i], qmin, qmax);
        continue;
      }
      var bmin, bmax := BoundsOf(all[i].verts);
      MeetsByBounds(all[i], bmin, bmax, qmin, qmax);
      if RealOverlap(qmin, qmax, bmin, bmax) {
        n := Report(base, i, polys, n, maxPolys, Scan(all[..i], qmin, qmax));
      }
    }
    assert all[..|all|] == all;
  }

  lemma NoConnection(p: Poly, qmin: RPoint, qmax: RPoint)
    requires p.offMesh
    ensures !Meets(p, qmin, qmax)
  {
  }

  /** The fast search misses nothing: what the plain scan over real bounds reports, the walk reports, as long as the
      boxes cover the polygons and the polygons lie in the tile. */
  lemma NothingMissed(tile: Tile, boxes: seq<Box>, t: Tree, qmin: RPoint, qmax: RPoint, i: nat)
    requires FrameFits(tile.frame) && tile.nodes == Encode(t) + [SPARE] && Built(t)
             && multiset(Leaves(t)) == multiset(ItemsOf(boxes))
    requires |boxes| <= |tile.polys| && (forall k :: |boxes| <= k < |tile.polys| ==> tile.polys[k].offMesh)
    requires forall k :: 0 <= k < |boxes| ==>
               Covers(tile.frame, boxes[k], tile.polys[k].verts)
                   && (forall v :: v in tile.polys[k].verts ==> Within(tile.frame, v))
    requires i in Scan(tile.polys, qmin, qmax)
    ensures i in Walk(tile.nodes, 0, QuantizeQuery(tile.frame, qmin, qmax))
  {
    hide Walk, Scan, QuantizeQuery, Covers, IsBounds, Overlaps, FrameFits, Encode, Built, Leaves;
    var q := QuantizeQuery(tile.frame, qmin, qmax);
    ScanFinds(tile.polys, qmin, qmax, i);
    var p := tile.polys[i];
    var lo, hi :| IsBounds(lo, hi, p.verts) && RealOverlap(qmin, qmax, lo, hi);
    Conservative(tile.frame, boxes[i], p.verts, lo, hi, qmin, qmax);
    WalkFinds(boxes, t, q, i);
    assert i in multiset(Walk(tile.nodes, 0, q));
  }
}
