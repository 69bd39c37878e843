/** The bounding-volume tree of a tile: `subdivide` lays it out in preorder, with negative indices that say
    how far to jump when a subtree is skipped, and a query walks that layout without a stack. */
module BVTree {
  import opened Sequences
  import opened Sorting

  type Coord = x: int | 0 <= x < 0x1_0000

  datatype Point = Point(x: Coord, y: Coord, z: Coord)
  datatype Box = Box(bmin: Point, bmax: Point)
  datatype Item = Item(box: Box, i: nat)

  /** A stored node: a leaf's polygon index, or minus the size of the subtree. */
  datatype Node = Node(box: Box, i: int)

  datatype Tree = Leaf(item: Item) | Inner(box: Box, left: Tree, right: Tree)

  const ORIGIN := Point(0, 0, 0)

  /** The node past the tree that the header's count of two nodes per polygon takes in; its memory is zeroed. */
  const SPARE := Node(Box(ORIGIN, ORIGIN), 0)

  // ---- Trees and their layout ----

  function Leaves(t: Tree): seq<Item> {
    match t
    case Leaf(item) => [item]
    case Inner(_, l, r) => Leaves(l) + Leaves(r)
  }

  function Size(t: Tree): nat {
    match t
    case Leaf(_) => 1
    case Inner(_, l, r) => 1 + Size(l) + Size(r)
  }

  function BoxOf(t: Tree): Box {
    if t.Leaf? then t.item.box else t.box
  }

  /** Preorder, with escape offsets. */
  function Encode(t: Tree): seq<Node> {
    match t
    case Leaf(item) => [Node(item.box, item.i)]
    case Inner(box, l, r) => [Node(box, -(Size(t) as int))] + (Encode(l) + Encode(r))
  }

  lemma {:induction false} EncodeSize(t: Tree)
    ensures |Encode(t)| == Size(t) == 2 * |Leaves(t)| - 1
  {
    if t.Inner? {
      EncodeSize(t.left);
      EncodeSize(t.right);
    }
  }

  // ---- Boxes ----

  predicate Inside(a: Box, c: Box) {
    && c.bmin.x <= a.bmin.x && c.bmin.y <= a.bmin.y && c.bmin.z <= a.bmin.z
    && a.bmax.x <= c.bmax.x && a.bmax.y <= c.bmax.y && a.bmax.z <= c.bmax.z
  }

  predicate Overlaps(q: Box, b: Box) {
    && !(q.bmin.x > b.bmax.x || q.bmax.x < b.bmin.x)
    && !(q.bmin.y > b.bmax.y || q.bmax.y < b.bmin.y)
    && !(q.bmin.z > b.bmax.z || q.bmax.z < b.bmin.z)
  }

  predicate Proper(b: Box) {
    b.bmin.x <= b.bmax.x && b.bmin.y <= b.bmax.y && b.bmin.z <= b.bmax.z
  }

  /** Two boxes overlap exactly when they have a cell in common. */
  lemma OverlapsMeans(q: Box, b: Box)
    requires Proper(q) && Proper(b)
    ensures Overlaps(q, b) <==> exists p :: Inside(Box(p, p), q) && Inside(Box(p, p), b)
  {
    if Overlaps(q, b) {
      var p := Point(if q.bmin.x < b.bmin.x then b.bmin.x else q.bmin.x,
                     if q.bmin.y < b.bmin.y then b.bmin.y else q.bmin.y,
                     if q.bmin.z < b.bmin.z then b.bmin.z else q.bmin.z);
      assert Inside(Box(p, p), q) && Inside(Box(p, p), b);
    }
  }

  ghost predicate ContainsAll(c: Box, m: multiset<Item>) {
    forall item :: item in m ==> Inside(item.box, c)
  }

  /** The least box around the items. */
  ghost predicate IsHull(box: Box, m: multiset<Item>) {
    ContainsAll(box, m) && forall c :: ContainsAll(c, m) ==> Inside(box, c)
  }

  function Key(axis: nat, item: Item): int {
    if axis == 0 then item.box.bmin.x else if axis == 1 then item.box.bmin.y else item.box.bmin.z
  }

  ghost predicate Separated(axis: nat, a: multiset<Item>, b: multiset<Item>) {
    forall x, y :: x in a && y in b ==> Key(axis, x) <= Key(axis, y)
  }

  /** The axis a node is split along: the widest one, the first of equals; widths wrap at 16 bits. */
  function SplitAxis(box: Box): (axis: nat)
    ensures axis < 3
  {
    LongestAxis((box.bmax.x - box.bmin.x) % 0x1_0000, (box.bmax.y - box.bmin.y) % 0x1_0000,
                (box.bmax.z - box.bmin.z) % 0x1_0000)
  }

  function LongestAxis(x: nat, y: nat, z: nat): (axis: nat)
    ensures axis < 3
    ensures var d := if axis == 0 then x else if axis == 1 then y else z;
            d >= x && d >= y && d >= z && (axis >= 1 ==> d > x) && (axis == 2 ==> d > y)
  {
    if z > (if y > x then y else x) then 2 else if y > x then 1 else 0
  }

  /** What `subdivide` builds: exact boxes, halves of equal size, separated along the widest axis. */
  ghost predicate Built(t: Tree) {
    t.Inner? ==>
      && Built(t.left) && Built(t.right)
      && IsHull(t.box, multiset(Leaves(t)))
      && |Leaves(t.left)| == |Leaves(t)| / 2
      && Separated(SplitAxis(t.box), multiset(Leaves(t.left)), multiset(Leaves(t.right)))
  }

  /** Halves of a box that is widest along x, y or z have their lower bounds apart along that axis. */
  lemma HalvesApart(t: Tree, a: Item, b: Item)
    requires Built(t) && t.Inner? && Proper(t.box) && a in Leaves(t.left) && b in Leaves(t.right)
    ensures var dx, dy, dz := t.box.bmax.x - t.box.bmin.x, t.box.bmax.y - t.box.bmin.y, t.box.bmax.z - t.box.bmin.z;
            && (dx >= dy && dx >= dz ==> a.box.bmin.x <= b.box.bmin.x)
            && (dy > dx && dy >= dz ==> a.box.bmin.y <= b.box.bmin.y)
            && (dz > dx && dz > dy ==> a.box.bmin.z <= b.box.bmin.z)
  {
    assert a in multiset(Leaves(t.left)) && b in multiset(Leaves(t.right));
    assert Key(SplitAxis(t.box), a) <= Key(SplitAxis(t.box), b);
  }

  // ---- Building ----

  method CalcExtends(items: array<Item>, imin: nat, imax: nat) returns (box: Box)
    requires imin < imax <= items.Length
    ensures IsHull(box, multiset(items[imin..imax]))
  {
    box := items[imin].box;
    assert items[imin..imin + 1] == [items[imin]];
    SingleHull(items[imin]);
    for i := imin + 1 to imax
      invariant IsHull(box, multiset(items[imin..i]))
    {
      hide IsHull, ContainsAll, Inside;
      assert items[imin..i + 1] == items[imin..i] + [items[i]];
      var it := items[i].box;
      JoinHull(box, multiset(items[imin..i]), items[i]);
      box := Join(box, it);
    }
  }

  function Join(a: Box, b: Box): Box {
    Box(Point(if b.bmin.x < a.bmin.x then b.bmin.x else a.bmin.x,
              if b.bmin.y < a.bmin.y then b.bmin.y else a.bmin.y,
              if b.bmin.z < a.bmin.z then b.bmin.z else a.bmin.z),
        Point(if b.bmax.x > a.bmax.x then b.bmax.x else a.bmax.x,
              if b.bmax.y > a.bmax.y then b.bmax.y else a.bmax.y,
              if b.bmax.z > a.bmax.z then b.bmax.z else a.bmax.z))
  }

  lemma SingleHull(item: Item)
    ensures IsHull(item.box, multiset([item]))
  {
    forall c | ContainsAll(c, multiset([item])) ensures Inside(item.box, c) {
      assert item in multiset([item]);
    }
  }

  /** Joining in one more box gives the hull of one more item. */
  lemma JoinHull(box: Box, m: multiset<Item>, item: Item)
    requires IsHull(box, m)
    ensures IsHull(Join(box, item.box), m + multiset([item]))
  {
    var m' := m + multiset([item]);
    forall c | ContainsAll(c, m') ensures Inside(Join(box, item.box), c) {
      assert item in m';
      forall x | x in m ensures Inside(x.box, c) { assert x in m'; }
      assert ContainsAll(c, m);
    }
    forall x | x in m' ensures Inside(x.box, Join(box, item.box)) {
      assert x in m || x == item;
    }
  }

  /** Outside the segment the two agree. */
  ghost predicate SameOutside<T>(a: seq<T>, b: seq<T>, from: int, to: int) {
    |a| == |b| && forall k :: 0 <= k < |a| && !(from <= k < to) ==> a[k] == b[k]
  }

  lemma SameSlice<T>(a: seq<T>, b: seq<T>, from: int, to: int, i: nat, j: nat)
    requires SameOutside(a, b, from, to) && i <= j <= |a| && (j <= from || to <= i)
    ensures a[i..j] == b[i..j]
  {
  }

  lemma ThenOutside<T>(a: seq<T>, b: seq<T>, c: seq<T>, from: int, to: int, i: int, j: int)
    requires SameOutside(a, b, from, to) && SameOutside(b, c, i, j) && from <= i && j <= to
    ensures SameOutside(a, c, from, to)
  {
  }

  ghost predicate SortedOn(axis: nat, s: seq<Item>) {
    forall i, j :: 0 <= i < j < |s| ==> Key(axis, s[i]) <= Key(axis, s[j])
  }

  method Store<T>(a: array<T>, from: nat, s: seq<T>)
    requires from + |s| <= a.Length
    modifies a
    ensures SameOutside(old(a[..]), a[..], from, from + |s|) && a[from..from + |s|] == s
  {
    for k := 0 to |s|
      invariant forall j :: 0 <= j < a.Length && !(from <= j < from + |s|) ==> a[j] == old(a[j])
      invariant forall j :: 0 <= j < k ==> a[from + j] == s[j]
    {
      a[from + k] := s[k];
    }
  }

  /** Sorts a segment of the items by their lower bound on an axis. */
  method SortSegment(items: array<Item>, imin: nat, imax: nat, axis: nat)
    requires imin <= imax <= items.Length
    modifies items
    ensures SameOutside(old(items[..]), items[..], imin, imax)
    ensures multiset(items[imin..imax]) == multiset(old(items[imin..imax])) && SortedOn(axis, items[imin..imax])
  {
    hide Key;
    ghost var s := items[imin..imax];
    var sorted := Sort(items[imin..imax], x => Key(axis, x));
    SameSize(s, sorted);
    assert SortedOn(axis, sorted);
    hide SortedBy, SortedOn;
    Store(items, imin, sorted);
    assert items[imin..imax] == sorted;
  }

  lemma SameSize<T>(a: seq<T>, b: seq<T>)
    requires multiset(a) == multiset(b)
    ensures |a| == |b|
  {
    assert |a| == |multiset(a)|;
  }

  /** A single polygon's node. */
  method WriteLeaf(item: Item, nodes: array<Node>, curNode: nat) returns (ghost t: Tree)
    requires curNode < nodes.Length
    modifies nodes
    ensures Built(t) && Leaves(t) == [item] && nodes[curNode..curNode + 1] == Encode(t)
    ensures SameOutside(old(nodes[..]), nodes[..], curNode, curNode + 1)
  {
    hide SameOutside;
    ghost var nodes0 := nodes[..];
    Written(nodes0, curNode, Node(item.box, item.i));
    LeafBuilt(item);
    nodes[curNode] := Node(item.box, item.i);
    assert nodes[..] == nodes0[curNode := nodes[curNode]];
    t := Leaf(item);
  }

  /** Lays the tree of a segment of the items out from node curNode on. */
  method Subdivide(items: array<Item>, imin: nat, imax: nat, nodes: array<Node>, curNode: nat)
    returns (cur: nat, ghost t: Tree)
    requires imin < imax <= items.Length && curNode + 2 * (imax - imin) - 1 <= nodes.Length
    requires items as object != nodes
    modifies items, nodes
    decreases imax - imin, 1
    ensures Built(t) && Leaves(t) == items[imin..imax] && multiset(Leaves(t)) == multiset(old(items[imin..imax]))
    ensures cur == curNode + 2 * (imax - imin) - 1 && nodes[curNode..cur] == Encode(t)
    ensures SameOutside(old(items[..]), items[..], imin, imax) && SameOutside(old(nodes[..]), nodes[..], curNode, cur)
  {
    hide Built, IsHull, SplitAxis, SortedOn, SameOutside, Encode, Leaves;
    var inum := imax - imin;
    ghost var items0, nodes0 := items[..], nodes[..];
    if inum == 1 {
      Unchanged(items0, imin, imax);
      t := WriteLeaf(items[imin], nodes, curNode);
      assert items[imin..imax] == [items[imin]];
      return curNode + 1, t;
    }
    var box := CalcExtends(items, imin, imax);
    Written(nodes0, curNode, nodes[curNode].(box := box));
    nodes[curNode] := nodes[curNode].(box := box);
    ghost var nodes1 := nodes[..];
    assert nodes1 == nodes0[curNode := nodes[curNode]];
    var axis := SplitAxis(box);
    SortSegment(items, imin, imax, axis);
    ghost var items1, s := items[..], items[imin..imax];
    ghost var l, r;
    cur, l, r := SubdivideHalves(items, imin, imax, nodes, curNode + 1);
    InnerBuilt(box, s, l, r);
    t := Inner(box, l, r);
    ThenOutside(items0, items1, items[..], imin, imax, imin, imax);
    RootWritten(nodes0, nodes1, nodes[..], curNode, cur, box, l, r);
    var iescape := cur - curNode;
    ghost var nodes2 := nodes[..][curNode := Node(box, -iescape)];
    nodes[curNode] := nodes[curNode].(i := -iescape);
    assert nodes[..] == nodes2;
  }

  lemma Written<T>(a: seq<T>, i: nat, x: T)
    requires i < |a|
    ensures SameOutside(a, a[i := x], i, i + 1) && a[i := x][i..i + 1] == [x]
  {
  }

  lemma Unchanged<T>(a: seq<T>, i: int, j: int)
    ensures SameOutside(a, a, i, j)
  {
  }

  /** The two halves of a sorted segment, one after the other. */
  method SubdivideHalves(items: array<Item>, imin: nat, imax: nat, nodes: array<Node>, curNode: nat)
    returns (cur: nat, ghost l: Tree, ghost r: Tree)
    requires imin + 1 < imax <= items.Length && curNode + 2 * (imax - imin) - 2 <= nodes.Length
    requires items as object != nodes
    modifies items, nodes
    decreases imax - imin, 0
    ensures Built(l) && Built(r) && Leaves(l) + Leaves(r) == items[imin..imax]
    ensures var s := old(items[imin..imax]);
            var h := |s| / 2;
            multiset(Leaves(l)) == multiset(s[..h]) && multiset(Leaves(r)) == multiset(s[h..])
    ensures cur == curNode + 2 * (imax - imin) - 2 && nodes[curNode..cur] == Encode(l) + Encode(r)
    ensures SameOutside(old(items[..]), items[..], imin, imax) && SameOutside(old(nodes[..]), nodes[..], curNode, cur)
  {
    hide Built, SameOutside, Encode, Leaves;
    var isplit := imin + (imax - imin) / 2;
    ghost var items0, nodes0 := items[..], nodes[..];
    ghost var s, h := items[imin..imax], (imax - imin) / 2;
    assert items[imin..isplit] == s[..h];
    assert items[isplit..imax] == s[h..];
    cur, l := Subdivide(items, imin, isplit, nodes, curNode);
    ghost var mid, items1, nodes1 := cur, items[..], nodes[..];
    SameSlice(items0, items1, imin, isplit, isplit, imax);
    cur, r := Subdivide(items, isplit, imax, nodes, cur);
    SameSlice(items1, items[..], isplit, imax, imin, isplit);
    SameSlice(nodes1, nodes[..], mid, cur, curNode, mid);
    Glue(items[..], imin, isplit, imax);
    Glue(nodes[..], curNode, mid, cur);
    Widen(items0, items1, items[..], imin, isplit, imax);
    Widen(nodes0, nodes1, nodes[..], curNode, mid, cur);
  }

  lemma Widen<T>(a: seq<T>, b: seq<T>, c: seq<T>, i: int, j: int, k: int)
    requires SameOutside(a, b, i, j) && SameOutside(b, c, j, k) && i <= j <= k
    ensures SameOutside(a, c, i, k)
  {
  }

  /** With its own node written in front, the layout of two subtrees is the layout of the tree. */
  lemma RootWritten(nodes0: seq<Node>, nodes1: seq<Node>, nodes2: seq<Node>, curNode: nat, cur: nat, box: Box,
                    l: Tree, r: Tree)
    requires SameOutside(nodes0, nodes1, curNode, curNode + 1) && SameOutside(nodes1, nodes2, curNode + 1, cur)
    requires curNode < cur <= |nodes2| && nodes2[curNode + 1..cur] == Encode(l) + Encode(r)
    ensures var nodes' := nodes2[curNode := Node(box, curNode - cur)];
            nodes'[curNode..cur] == Encode(Inner(box, l, r)) && SameOutside(nodes0, nodes', curNode, cur)
    ensures |nodes1| == |nodes2| && nodes2[curNode] == nodes1[curNode]
  {
    RootOutside(nodes0, nodes1, nodes2, curNode, cur, Node(box, curNode - cur));
    hide SameOutside;
    EncodeSize(l);
    EncodeSize(r);
    hide Encode;
    EncodeInner(box, l, r);
    ghost var inner := Encode(l) + Encode(r);
    assert |inner| == cur - (curNode + 1);
    Spliced(nodes2, curNode, cur, Node(box, curNode - cur));
  }

  lemma EncodeInner(box: Box, l: Tree, r: Tree)
    ensures Encode(Inner(box, l, r)) == [Node(box, -1 - Size(l) - Size(r))] + (Encode(l) + Encode(r))
  {
  }

  lemma Spliced<T>(a: seq<T>, i: nat, j: nat, x: T)
    requires i < j <= |a|
    ensures a[i := x][i..j] == [x] + a[i + 1..j]
  {
  }

  lemma RootOutside<T>(a: seq<T>, b: seq<T>, c: seq<T>, i: nat, j: nat, x: T)
    requires SameOutside(a, b, i, i + 1) && SameOutside(b, c, i + 1, j) && i < j <= |c|
    ensures SameOutside(a, c[i := x], i, j)
  {
  }

  lemma LeafBuilt(item: Item)
    ensures Built(Leaf(item)) && Leaves(Leaf(item)) == [item] && Encode(Leaf(item)) == [Node(item.box, item.i)]
  {
  }

  /** Two built halves of a sorted segment make a built tree. */
  lemma InnerBuilt(box: Box, s: seq<Item>, l: Tree, r: Tree)
    requires IsHull(box, multiset(s)) && SortedOn(SplitAxis(box), s)
    requires Built(l) && multiset(Leaves(l)) == multiset(s[..|s| / 2]) && Built(r)
             && multiset(Leaves(r)) == multiset(s[|s| / 2..])
    ensures Built(Inner(box, l, r)) && multiset(Leaves(Inner(box, l, r))) == multiset(s)
    ensures Leaves(Inner(box, l, r)) == Leaves(l) + Leaves(r)
  {
    hide IsHull, SplitAxis, Separated, SortedOn;
    HalvesSeparated(SplitAxis(box), s, |s| / 2);
    Halved(s, Leaves(l), Leaves(r));
  }

  lemma Halved<T>(s: seq<T>, a: seq<T>, b: seq<T>)
    requires multiset(a) == multiset(s[..|s| / 2]) && multiset(b) == multiset(s[|s| / 2..])
    ensures multiset(a + b) == multiset(s) && |a| == |a + b| / 2
  {
    var h := |s| / 2;
    assert s == s[..h] + s[h..];
    SameSize(a, s[..h]);
    SameSize(b, s[h..]);
  }

  lemma HalvesSeparated(axis: nat, s: seq<Item>, h: nat)
    requires SortedOn(axis, s) && h <= |s|
    ensures Separated(axis, multiset(s[..h]), multiset(s[h..]))
  {
    hide Key;
    forall x, y | x in multiset(s[..h]) && y in multiset(s[h..]) ensures Key(axis, x) <= Key(axis, y) {
      assert x in s[..h] && y in s[h..];
      var i :| 0 <= i < h && s[i] == x;
      var j :| h <= j < |s| && s[j] == y;
    }
  }
}
