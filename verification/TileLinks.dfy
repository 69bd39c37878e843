/** The links of one mesh tile: a fixed array whose cells are on the free list or on one polygon's list. */
module TileLinks {
  import opened Sequences
  import opened Chains
  import opened PolyRefs
  import opened Words

  const DT_NULL_LINK: int := 0xffff_ffff
  const DT_EXT_LINK: nat := 0x8000

  /** What linking needs of a polygon: `neis[j]` is 0 for a hard edge, flagged for a portal, and one more
      than the neighbour's index otherwise. */
  datatype Poly = Poly(isOffMesh: bool, neis: seq<nat>)

  predicate Internal(nei: nat) {
    nei != 0 && nei < DT_EXT_LINK
  }

  /** The internal edges from edge j on, lowest first. */
  function EdgesFrom(neis: seq<nat>, j: nat): seq<nat>
    decreases |neis| - j
  {
    if j >= |neis| then [] else (if Internal(neis[j]) then [j] else []) + EdgesFrom(neis, j + 1)
  }

  function InternalEdges(p: Poly): seq<nat> {
    if p.isOffMesh then [] else EdgesFrom(p.neis, 0)
  }

  function Total(polys: seq<Poly>): nat {
    if polys == [] then 0 else Total(polys[..|polys| - 1]) + |InternalEdges(polys[|polys| - 1])|
  }

  lemma {:induction false} TotalMonotone(polys: seq<Poly>, i: nat)
    requires i <= |polys|
    ensures Total(polys[..i]) <= Total(polys)
  {
    if i < |polys| {
      TotalMonotone(polys[..|polys| - 1], i);
      assert polys[..|polys| - 1][..i] == polys[..i];
    } else {
      assert polys[..i] == polys;
    }
  }

  lemma TotalStep(polys: seq<Poly>, i: nat)
    requires i < |polys|
    ensures Total(polys[..i + 1]) == Total(polys[..i]) + |InternalEdges(polys[i])|
  {
    assert polys[..i + 1][..i] == polys[..i];
  }

  /** What polygon i needs is still free when everything suffices. */
  lemma TotalRoom(polys: seq<Poly>, i: nat)
    requires i <= |polys|
    ensures Total(polys[..0]) == 0
    ensures i < |polys| ==> Total(polys[..i + 1]) == Total(polys[..i]) + |InternalEdges(polys[i])| <= Total(polys)
  {
    if i < |polys| {
      TotalStep(polys, i);
      TotalMonotone(polys, i + 1);
    }
  }

  lemma {:induction false} EdgesShrink(neis: seq<nat>, j: nat)
    ensures |EdgesFrom(neis, j)| <= |EdgesFrom(neis, 0)|
  {
    if j > 0 { EdgesShrink(neis, j - 1); }
  }

  /** The edges listed are exactly the internal ones, in strictly increasing order. */
  lemma EdgesIncrease(neis: seq<nat>, j: nat)
    ensures var s := EdgesFrom(neis, j);
            && (forall k :: 0 <= k < |s| ==> j <= s[k] < |neis| && Internal(neis[s[k]]))
            && (forall k, l :: 0 <= k < l < |s| ==> s[k] < s[l])
            && (forall e :: j <= e < |neis| && Internal(neis[e]) ==> e in s)
  {
    hide EdgesFrom, Internal;
    EdgesInternal(neis, j);
    EdgesSorted(neis, j);
    forall e | j <= e < |neis| && Internal(neis[e]) ensures e in EdgesFrom(neis, j) { EdgeListed(neis, j, e); }
  }

  lemma {:induction false} EdgesInternal(neis: seq<nat>, j: nat)
    ensures forall k :: 0 <= k < |EdgesFrom(neis, j)| ==>
              && j <= EdgesFrom(neis, j)[k] < |neis|
              && Internal(neis[EdgesFrom(neis, j)[k]])
    decreases |neis| - j
  {
    hide Internal;
    if j < |neis| {
      EdgesInternal(neis, j + 1);
      var s, t := EdgesFrom(neis, j), EdgesFrom(neis, j + 1);
      assert s == if Internal(neis[j]) then [j] + t else t;
    }
  }

  lemma {:induction false} EdgesSorted(neis: seq<nat>, j: nat)
    ensures forall k, l :: 0 <= k < l < |EdgesFrom(neis, j)| ==> EdgesFrom(neis, j)[k] < EdgesFrom(neis, j)[l]
    decreases |neis| - j
  {
    hide Internal;
    if j < |neis| {
      EdgesSorted(neis, j + 1);
      EdgesInternal(neis, j + 1);
      var s, t := EdgesFrom(neis, j), EdgesFrom(neis, j + 1);
      assert s == if Internal(neis[j]) then [j] + t else t;
    }
  }

  lemma {:induction false} EdgeListed(neis: seq<nat>, j: nat, e: nat)
    requires j <= e < |neis| && Internal(neis[e])
    ensures e in EdgesFrom(neis, j)
    decreases |neis| - j
  {
    hide Internal;
    if j < e {
      EdgeListed(neis, j + 1, e);
      var t := EdgesFrom(neis, j + 1);
      assert EdgesFrom(neis, j) == if Internal(neis[j]) then [j] + t else t;
    } else {
      assert EdgesFrom(neis, j) == [j] + EdgesFrom(neis, j + 1);
    }
  }

  ghost predicate InBounds(s: seq<nat>, n: nat) {
    forall k :: 0 <= k < |s| ==> s[k] < n
  }

  /** The reference of a neighbour inside the tile: the tile's base with the polygon's index filled in. */
  function NeiRef(base: bv32, nei: nat): bv32
    requires 1 <= nei <= 0xffff
  {
    Or(base, FromNat(nei - 1))
  }

  ghost predicate Ushort(neis: seq<nat>) {
    forall j :: 0 <= j < |neis| ==> neis[j] <= 0xffff
  }

  /** The list s holds one link per listed edge, in that order, to the polygon behind the edge. */
  ghost predicate LinkedTo(ref: seq<bv32>, edge: seq<nat>, s: seq<nat>, base: bv32, neis: seq<nat>, edges: seq<nat>)
    requires |ref| == |edge| && Ushort(neis)
  {
    && InBounds(s, |ref|) && |s| == |edges|
    && (forall k :: 0 <= k < |s| ==>
          && edges[k] < |neis| && neis[edges[k]] >= 1 && edge[s[k]] == edges[k]
          && ref[s[k]] == NeiRef(base, neis[edges[k]]))
  }

  lemma LinkedPush(ref: seq<bv32>, edge: seq<nat>, s: seq<nat>, base: bv32, neis: seq<nat>, edges: seq<nat>, x: nat,
                   e: nat)
    requires |ref| == |edge| && Ushort(neis) && LinkedTo(ref, edge, s, base, neis, edges) && x < |ref| && x !in s
    requires e < |neis| && neis[e] >= 1
    ensures LinkedTo(ref[x := NeiRef(base, neis[e])], edge[x := e], [x] + s, base, neis, [e] + edges)
  {
    hide NeiRef;
    LinkedFrame(ref, edge, s, base, neis, edges, x, NeiRef(base, neis[e]), e);
    var ref', edge', s', edges' := ref[x := NeiRef(base, neis[e])], edge[x := e], [x] + s, [e] + edges;
    forall k | 0 <= k < |s'|
      ensures s'[k] < |ref'| && edges'[k] < |neis| && neis[edges'[k]] >= 1 && edge'[s'[k]] == edges'[k]
              && ref'[s'[k]] == NeiRef(base, neis[edges'[k]])
    {
      if k > 0 { assert s'[k] == s[k - 1] && edges'[k] == edges[k - 1]; }
    }
  }

  lemma LinkedFrame(ref: seq<bv32>, edge: seq<nat>, s: seq<nat>, base: bv32, neis: seq<nat>, edges: seq<nat>, x: nat,
                    r: bv32, e: nat)
    requires |ref| == |edge| && Ushort(neis) && LinkedTo(ref, edge, s, base, neis, edges) && x < |ref| && x !in s
    ensures LinkedTo(ref[x := r], edge[x := e], s, base, neis, edges)
  {
    forall k | 0 <= k < |s| ensures s[k] != x { assert s[k] in s; }
  }

  /** All polygons before i are linked completely. */
  ghost predicate LinkedBefore(ref: seq<bv32>, edge: seq<nat>, lists: seq<seq<nat>>, base: bv32, polys: seq<Poly>,
                               i: nat)
    requires |ref| == |edge| && i <= |lists| && i <= |polys| && forall p :: 0 <= p < |polys| ==> Ushort(polys[p].neis)
  {
    forall p :: 0 <= p < i ==> LinkedTo(ref, edge, lists[p], base, polys[p].neis, InternalEdges(polys[p]))
  }

  lemma LinkedBeforeFrame(ref: seq<bv32>, edge: seq<nat>, lists: seq<seq<nat>>, base: bv32, polys: seq<Poly>, i: nat,
                          x: nat, r: bv32, e: nat, l: seq<nat>)
    requires |ref| == |edge| && i < |lists| && i <= |polys| && forall p :: 0 <= p < |polys| ==> Ushort(polys[p].neis)
    requires LinkedBefore(ref, edge, lists, base, polys, i) && x < |ref| && forall p :: 0 <= p < i ==> x !in lists[p]
    ensures LinkedBefore(ref[x := r], edge[x := e], lists[i := l], base, polys, i)
  {
    forall p | 0 <= p < i ensures LinkedTo(ref[x := r], edge[x := e], lists[i := l][p], base, polys[p].neis,
                                           InternalEdges(polys[p])) {
      LinkedFrame(ref, edge, lists[p], base, polys[p].neis, InternalEdges(polys[p]), x, r, e);
    }
  }

  lemma LinkedBeforeMore(ref: seq<bv32>, edge: seq<nat>, lists: seq<seq<nat>>, base: bv32, polys: seq<Poly>, i: nat)
    requires |ref| == |edge| && i == |lists| < |polys| && forall p :: 0 <= p < |polys| ==> Ushort(polys[p].neis)
    requires LinkedBefore(ref, edge, lists, base, polys, i)
    ensures LinkedBefore(ref, edge, lists + [[]], base, polys, i)
    ensures polys[i].isOffMesh ==> LinkedBefore(ref, edge, lists + [[]], base, polys, i + 1)
    ensures LinkedTo(ref, edge, [], base, polys[i].neis, [])
  {
    hide LinkedTo;
    EmptyLinked(ref, edge, base, polys[i].neis);
  }

  /** All polygons before i completely, and polygon i from edge j on. */
  ghost predicate LinkedFrom(ref: seq<bv32>, edge: seq<nat>, lists: seq<seq<nat>>, base: bv32, polys: seq<Poly>,
                             i: nat, j: nat)
    requires |ref| == |edge| && i < |lists| && i < |polys| && forall p :: 0 <= p < |polys| ==> Ushort(polys[p].neis)
  {
    LinkedBefore(ref, edge, lists, base, polys, i) && LinkedTo(ref, edge, lists[i], base, polys[i].neis,
                                                               EdgesFrom(polys[i].neis, j))
  }

  lemma LinkedBeforeEnd(ref: seq<bv32>, edge: seq<nat>, lists: seq<seq<nat>>, base: bv32, polys: seq<Poly>, i: nat)
    requires |ref| == |edge| && i < |lists| && i < |polys| && forall p :: 0 <= p < |polys| ==> Ushort(polys[p].neis)
    requires LinkedBefore(ref, edge, lists, base, polys, i) && lists[i] == []
    ensures LinkedFrom(ref, edge, lists, base, polys, i, |polys[i].neis|)
  {
    EmptyLinked(ref, edge, base, polys[i].neis);
  }

  lemma LinkedFromPush(ref: seq<bv32>, edge: seq<nat>, lists: seq<seq<nat>>, base: bv32, polys: seq<Poly>, i: nat,
                       j: nat, x: nat)
    requires |ref| == |edge| && i < |lists| && i < |polys| && forall p :: 0 <= p < |polys| ==> Ushort(polys[p].neis)
    requires LinkedFrom(ref, edge, lists, base, polys, i, j + 1) && j < |polys[i].neis| && Internal(polys[i].neis[j])
    requires x < |ref| && forall p :: 0 <= p <= i ==> x !in lists[p]
    ensures LinkedFrom(ref[x := NeiRef(base, polys[i].neis[j])], edge[x := j], lists[i := [x] + lists[i]], base,
                       polys, i, j)
  {
    hide LinkedTo, LinkedBefore;
    var neis := polys[i].neis;
    LinkedBeforeFrame(ref, edge, lists, base, polys, i, x, NeiRef(base, neis[j]), j, [x] + lists[i]);
    LinkedPush(ref, edge, lists[i], base, neis, EdgesFrom(neis, j + 1), x, j);
  }

  lemma AllLinked(ref: seq<bv32>, edge: seq<nat>, lists: seq<seq<nat>>, base: bv32, polys: seq<Poly>, i: nat)
    requires |ref| == |edge| && i < |lists| && i < |polys| && forall p :: 0 <= p < |polys| ==> Ushort(polys[p].neis)
    requires LinkedFrom(ref, edge, lists, base, polys, i, 0) && !polys[i].isOffMesh
    ensures LinkedBefore(ref, edge, lists, base, polys, i + 1)
  {
  }

  lemma NothingLinked(ref: seq<bv32>, edge: seq<nat>, lists: seq<seq<nat>>, base: bv32, polys: seq<Poly>)
    requires |ref| == |edge| && forall p :: 0 <= p < |polys| ==> Ushort(polys[p].neis)
    ensures LinkedBefore(ref, edge, lists, base, polys, 0)
  {
  }

  lemma EmptyLinked(ref: seq<bv32>, edge: seq<nat>, base: bv32, neis: seq<nat>)
    requires |ref| == |edge| && Ushort(neis)
    ensures LinkedTo(ref, edge, [], base, neis, [])
  {
  }

  /** The links whose reference does not lead into the target tile, in order. */
  ghost function Kept(w: Widths, ref: seq<bv32>, target: bv32, s: seq<nat>): seq<nat>
    requires Packed(w) && InBounds(s, |ref|)
  {
    if s == [] then []
    else Kept(w, ref, target, s[..|s| - 1]) + (if DecodeTile(w, ref[s[|s| - 1]]) == target then [] else [s[|s| - 1]])
  }

  lemma KeptStep(w: Widths, ref: seq<bv32>, target: bv32, done: seq<nat>, rest: seq<nat>)
    requires Packed(w) && rest != [] && InBounds(done, |ref|) && InBounds(done + rest, |ref|)
    ensures InBounds(done + [rest[0]], |ref|) && (done + [rest[0]]) + rest[1..] == done + rest && rest[0] < |ref|
    ensures Kept(w, ref, target, done + [rest[0]])
            == if DecodeTile(w, ref[rest[0]]) == target then Kept(w, ref, target, done)
                else Kept(w, ref, target, done) + [rest[0]]
  {
    assert (done + rest)[|done|] == rest[0];
    assert (done + [rest[0]])[..|done|] == done;
  }

  lemma KeptOne(w: Widths, ref: seq<bv32>, target: bv32, x: nat)
    requires Packed(w) && x < |ref|
    ensures Kept(w, ref, target, [x]) == if DecodeTile(w, ref[x]) == target then [] else [x]
  {
    assert [x][..0] == [];
  }

  /** The order stays: links are kept or dropped one by one. */
  lemma {:induction false} KeptInOrder(w: Widths, ref: seq<bv32>, target: bv32, s: seq<nat>, t: seq<nat>)
    requires Packed(w) && InBounds(s, |ref|) && InBounds(t, |ref|) && InBounds(s + t, |ref|)
    ensures Kept(w, ref, target, s + t) == Kept(w, ref, target, s) + Kept(w, ref, target, t)
  {
    hide DecodeTile, Packed;
    if t == [] {
      assert s + t == s;
    } else {
      assert (s + t)[..|s + t| - 1] == s + t[..|t| - 1];
      KeptInOrder(w, ref, target, s, t[..|t| - 1]);
    }
  }

  lemma {:induction false} KeptMembers(w: Widths, ref: seq<bv32>, target: bv32, s: seq<nat>)
    requires Packed(w) && InBounds(s, |ref|)
    ensures forall x :: x in Kept(w, ref, target, s) <==> x in s && DecodeTile(w, ref[x]) != target
  {
    if s != [] {
      KeptMembers(w, ref, target, s[..|s| - 1]);
      assert s == s[..|s| - 1] + [s[|s| - 1]];
    }
  }

  /** A list while links are being removed from it: what was kept so far, then the rest. */
  lemma MidList(kept: seq<nat>, rest: seq<nat>)
    requires rest != []
    ensures (kept + rest)[|kept|] == rest[0] && Without(kept + rest, |kept|) == kept + rest[1..]
    ensures kept + rest == (kept + [rest[0]]) + rest[1..]
    ensures kept != [] ==> (kept + rest)[|kept| - 1] == kept[|kept| - 1]
  {
  }

  lemma AllFree(next: seq<int>)
    requires 1 <= |next| <= DT_NULL_LINK && next[|next| - 1] == DT_NULL_LINK
    requires forall k :: 0 <= k < |next| - 1 ==> next[k] == k + 1
    ensures Partition(next, DT_NULL_LINK, 0, seq(|next|, i => i), [], [], seq(|next|, i => FREE))
  {
    var all: seq<nat> := seq(|next|, i => i);
    forall x | 0 <= x < |next| ensures x in all { assert all[x] == x; }
  }

  /** No link is on its way between lists. */
  ghost predicate NoneLoose(owner: seq<int>) {
    forall x :: 0 <= x < |owner| ==> owner[x] != LOOSE
  }

  lemma StillNoneLoose(owner: seq<int>, x: nat, id: int)
    requires NoneLoose(owner) && x < |owner| && id != LOOSE
    ensures NoneLoose(owner[x := id])
  {
  }

  class MeshTile {
    var linksFreeList: int
    const next: array<int>
    const ref: array<bv32>
    const edge: array<nat>
    const firstLink: array<int>

    ghost var freeList: seq<nat>
    ghost var lists: seq<seq<nat>>   // one per polygon whose firstLink has been set
    ghost var owner: seq<int>

    ghost predicate Shape()
      reads this
    {
      && 1 <= next.Length <= DT_NULL_LINK && ref.Length == edge.Length == next.Length
      && next != firstLink && next as object != ref && next as object != edge && ref as object != edge
      && firstLink as object != ref && firstLink as object != edge
      && |lists| <= firstLink.Length
    }

    /** Every link is on exactly one list or on its way, and no list has a cycle or shares a link. */
    ghost predicate Valid()
      reads this, next, firstLink
    {
      Shape() && Partition(next[..], DT_NULL_LINK, linksFreeList, freeList, firstLink[..|lists|], lists, owner)
    }

    /** No polygon linked yet: all links free. */
    ghost predicate Fresh()
      reads this, next, firstLink
    {
      Valid() && lists == [] && |freeList| == next.Length && NoneLoose(owner)
    }

    /** The link buffer of a new tile, threaded onto the free list from first to last. */
    constructor (maxLinkCount: nat, polyCount: nat)
      requires 1 <= maxLinkCount <= DT_NULL_LINK
      ensures Fresh() && next.Length == maxLinkCount && firstLink.Length == polyCount
      ensures fresh(next) && fresh(ref) && fresh(edge) && fresh(firstLink)
    {
      next := new int[maxLinkCount];
      ref := new bv32[maxLinkCount];
      edge := new nat[maxLinkCount];
      firstLink := new int[polyCount];
      linksFreeList := 0;
      lists, owner := [], seq(maxLinkCount, i => FREE);
      freeList := seq(maxLinkCount, i => i);
      new;
      next[maxLinkCount - 1] := DT_NULL_LINK;
      var i := 0;
      while i < maxLinkCount - 1
        invariant 0 <= i <= maxLinkCount - 1
        invariant next[maxLinkCount - 1] == DT_NULL_LINK
        invariant forall k :: 0 <= k < i ==> next[k] == k + 1
        modifies next
      {
        next[i] := i + 1;
        i := i + 1;
      }
      AllFree(next[..]);
      assert firstLink[..0] == [];
    }

    /** The head of the free list, or none. The link belongs to no list until it is pushed. */
    method AllocLink() returns (link: int)
      requires Valid()
      modifies this`linksFreeList, this`freeList, this`owner
      ensures Valid() && lists == old(lists)
      ensures link == old(linksFreeList) && (link == DT_NULL_LINK <==> old(freeList) == [])
      ensures link == DT_NULL_LINK ==> freeList == old(freeList) && owner == old(owner)
      ensures link != DT_NULL_LINK ==>
                && 0 <= link < next.Length && [link] + freeList == old(freeList)
                && owner == old(owner)[link := LOOSE]
    {
      if linksFreeList == DT_NULL_LINK {
        return DT_NULL_LINK;
      }
      PopFree(next[..], DT_NULL_LINK, linksFreeList, freeList, firstLink[..|lists|], lists, owner);
      link := linksFreeList;
      linksFreeList := next[link];
      freeList, owner := freeList[1..], owner[link := LOOSE];
    }

    method FreeLink(link: nat)
      requires Valid() && link < next.Length && owner[link] == LOOSE
      modifies this`linksFreeList, this`freeList, this`owner, next
      ensures Valid() && lists == old(lists) && freeList == [link] + old(freeList) && owner == old(owner)[link := FREE]
      ensures forall x :: 0 <= x < next.Length && x != link ==> next[x] == old(next[x])
    {
      PushFree(next[..], DT_NULL_LINK, linksFreeList, freeList, firstLink[..|lists|], lists, owner, link);
      ghost var after := next[..][link := linksFreeList];
      next[link] := linksFreeList;
      linksFreeList := link;
      assert next[..] == after;
      freeList, owner := [link] + freeList, owner[link := FREE];
    }

    /** Allocates a link and puts it in front of polygon i's list; false when none is left. */
    method PushLink(i: nat, r: bv32, e: nat) returns (ok: bool)
      requires Valid() && i < |lists|
      modifies this`linksFreeList, this`freeList, this`owner, this`lists, next, ref, edge, firstLink
      ensures Valid() && |lists| == |old(lists)| && (ok <==> old(freeList) != [])
      ensures !ok ==>
                && lists == old(lists) && freeList == old(freeList) && ref[..] == old(ref[..])
                && edge[..] == old(edge[..])
      ensures ok ==>
                && var x := old(freeList)[0];
                && x < next.Length && freeList == old(freeList)[1..]
                && lists == old(lists)[i := [x] + old(lists)[i]]
                && ref[..] == old(ref[..])[x := r] && edge[..] == old(edge[..])[x := e]
      ensures forall j, x :: 0 <= j < |old(lists)| && x in old(lists)[j] ==>
                && x < next.Length
                && (ok ==> x != old(freeList)[0])
      ensures forall j :: |lists| <= j < firstLink.Length ==> firstLink[j] == old(firstLink[j])
      ensures old(NoneLoose(owner)) ==> NoneLoose(owner)
    {
      NewLinkIsUnlisted(next[..], linksFreeList, freeList, firstLink[..|lists|], lists, owner);
      ghost var owner0 := owner;
      var idx := AllocLink();
      if idx == DT_NULL_LINK {
        return false;
      }
      hide Partition, NoneLoose;
      PushList(next[..], DT_NULL_LINK, linksFreeList, freeList, firstLink[..|lists|], lists, owner, idx, i);
      ghost var next', heads' := next[..][idx := firstLink[i]], firstLink[..|lists|][i := idx];
      ref[idx] := r;
      edge[idx] := e;
      next[idx] := firstLink[i];
      firstLink[i] := idx;
      assert next[..] == next' && firstLink[..|lists|] == heads';
      lists, owner := lists[i := [idx as nat] + lists[i]], owner[idx := i];
      assert owner == owner0[idx := i];
      if NoneLoose(owner0) { StillNoneLoose(owner0, idx, i); }
      ok := true;
    }

    /** Links every polygon of a new tile to its neighbours in the tile: if the free list holds a link for
        every internal edge, each polygon's list names exactly its internal edges in increasing order. */
    method ConnectIntLinks(base: bv32, polys: seq<Poly>)
      requires Fresh() && |polys| == firstLink.Length && forall p :: 0 <= p < |polys| ==> Ushort(polys[p].neis)
      modifies this`linksFreeList, this`freeList, this`owner, this`lists, next, ref, edge, firstLink
      ensures Valid() && |lists| == |polys|
      ensures |old(freeList)| >= Total(polys) ==>
                LinkedBefore(ref[..], edge[..], lists, base, polys, |polys|)
                    && |freeList| == |old(freeList)| - Total(polys)
      ensures NoneLoose(owner)
    {
      hide Partition, LinkedBefore, LinkedTo, Total, InternalEdges, NoneLoose;
      var i := 0;
      ghost var before := |freeList|;
      ghost var enough := before >= Total(polys);
      TotalRoom(polys, 0);
      NothingLinked(ref[..], edge[..], lists, base, polys);
      while i < |polys|
        invariant 0 <= i <= |polys| && Valid() && |lists| == i && NoneLoose(owner)
        invariant enough ==> |freeList| == before - Total(polys[..i])
        invariant enough ==> LinkedBefore(ref[..], edge[..], lists, base, polys, i)
      {
        TotalRoom(polys, i);
        ConnectNext(i, base, polys, enough);
        i := i + 1;
      }
      assert polys[..|polys|] == polys;
    }

    /** The next polygon: an off-mesh connection gets no internal links. */
    method ConnectNext(i: nat, base: bv32, polys: seq<Poly>, ghost enough: bool)
      requires Valid() && |lists| == i < |polys| == firstLink.Length
      requires forall p :: 0 <= p < |polys| ==> Ushort(polys[p].neis)
      requires enough ==>
                 && LinkedBefore(ref[..], edge[..], lists, base, polys, i)
                 && |freeList| >= |InternalEdges(polys[i])|
      modifies this`linksFreeList, this`freeList, this`owner, this`lists, next, ref, edge, firstLink
      ensures Valid() && |lists| == i + 1
      ensures enough ==> LinkedBefore(ref[..], edge[..], lists, base, polys, i + 1)
                         && |freeList| == |old(freeList)| - |InternalEdges(polys[i])|
      ensures old(NoneLoose(owner)) ==> NoneLoose(owner)
    {
      hide Partition, LinkedBefore, LinkedTo, NoneLoose;
      if enough { LinkedBeforeMore(ref[..], edge[..], lists, base, polys, i); }
      AddPolygon(i);
      if !polys[i].isOffMesh {
        ConnectPoly(i, base, polys, enough);
      }
    }

    /** Starts polygon i with an empty list. */
    method AddPolygon(i: nat)
      requires Valid() && |lists| == i < firstLink.Length
      modifies this`lists, firstLink
      ensures Valid() && lists == old(lists) + [[]]
    {
      AddEmptyList(next[..], DT_NULL_LINK, linksFreeList, freeList, firstLink[..|lists|], lists, owner);
      ghost var heads := firstLink[..i] + [DT_NULL_LINK];
      firstLink[i] := DT_NULL_LINK;
      assert firstLink[..i + 1] == heads;
      lists := lists + [[]];
    }

    /** Links polygon i, from its last edge to its first, so that the list runs from lowest to highest. */
    method ConnectPoly(i: nat, base: bv32, polys: seq<Poly>, ghost enough: bool)
      requires Valid() && |lists| == i + 1 <= |polys| && lists[i] == [] && !polys[i].isOffMesh
      requires forall p :: 0 <= p < |polys| ==> Ushort(polys[p].neis)
      requires enough ==>
                 && LinkedBefore(ref[..], edge[..], lists, base, polys, i)
                 && |freeList| >= |InternalEdges(polys[i])|
      modifies this`linksFreeList, this`freeList, this`owner, this`lists, next, ref, edge, firstLink
      ensures Valid() && |lists| == i + 1
      ensures enough ==> LinkedBefore(ref[..], edge[..], lists, base, polys, i + 1)
                         && |freeList| == |old(freeList)| - |InternalEdges(polys[i])|
      ensures old(NoneLoose(owner)) ==> NoneLoose(owner)
    {
      hide Partition, LinkedBefore, LinkedTo, NoneLoose;
      var neis := polys[i].neis;
      var j := |neis| - 1;
      if enough { LinkedBeforeEnd(ref[..], edge[..], lists, base, polys, i); }
      while j >= 0
        invariant -1 <= j < |neis| && Valid() && |lists| == i + 1
        invariant old(NoneLoose(owner)) ==> NoneLoose(owner)
        invariant enough ==> |freeList| == |old(freeList)| - |EdgesFrom(neis, j + 1)|
        invariant enough ==> LinkedFrom(ref[..], edge[..], lists, base, polys, i, j + 1)
      {
        if neis[j] == 0 || neis[j] >= DT_EXT_LINK {
          assert EdgesFrom(neis, j) == EdgesFrom(neis, j + 1);
        } else {
          ghost var ref0, edge0, lists0, free0 := ref[..], edge[..], lists, freeList;
          EdgesShrink(neis, j);
          var ok := PushLink(i, NeiRef(base, neis[j]), j);
          if enough { LinkedFromPush(ref0, edge0, lists0, base, polys, i, j, free0[0]); }
        }
        j := j - 1;
      }
      if enough { AllLinked(ref[..], edge[..], lists, base, polys, i); }
    }

    /** Frees, on every polygon's list, exactly the links that lead into the target tile; the others keep
        their order and their contents. */
    method UnconnectLinks(w: Widths, target: bv32)
      requires Valid() && Packed(w) && |lists| == firstLink.Length
      modifies this`linksFreeList, this`freeList, this`owner, this`lists, next, firstLink
      ensures Valid() && |lists| == |old(lists)|
      ensures forall i :: 0 <= i < |lists| ==>
                && InBounds(old(lists)[i], ref.Length)
                && lists[i] == Kept(w, ref[..], target, old(lists)[i])
      ensures forall x :: x in old(freeList) ==> x in freeList
      ensures old(NoneLoose(owner)) ==> NoneLoose(owner)
    {
      hide Partition, Kept, NoneLoose;
      var i := 0;
      while i < firstLink.Length
        invariant 0 <= i <= firstLink.Length && Valid() && |lists| == firstLink.Length
        invariant forall k :: 0 <= k < i ==>
                    && InBounds(old(lists)[k], ref.Length)
                    && lists[k] == Kept(w, ref[..], target, old(lists)[k])
        invariant forall k :: i <= k < firstLink.Length ==> lists[k] == old(lists)[k]
        invariant forall x :: x in old(freeList) ==> x in freeList
        invariant old(NoneLoose(owner)) ==> NoneLoose(owner)
      {
        UnconnectPoly(i, w, target);
        i := i + 1;
      }
    }

    /** One polygon's list: j runs along it, pj is the last link that stays. */
    method UnconnectPoly(i: nat, w: Widths, target: bv32)
      requires Valid() && Packed(w) && i < |lists| == firstLink.Length
      modifies this`linksFreeList, this`freeList, this`owner, this`lists, next, firstLink
      ensures Valid() && InBounds(old(lists)[i], ref.Length)
      ensures lists == old(lists)[i := Kept(w, ref[..], target, old(lists)[i])]
      ensures forall x :: x in old(freeList) ==> x in freeList
      ensures old(NoneLoose(owner)) ==> NoneLoose(owner)
    {
      hide Partition, Kept, Without, DecodeTile, NoneLoose, Packed, InBounds;
      NothingInBounds(ref.Length);
      ListInBounds(next[..], linksFreeList, freeList, firstLink[..|lists|], lists, owner, i);
      ghost var done, kept, rest: seq<nat> := [], [], lists[i];
      NothingKept(w, ref[..], target);
      assert done + rest == lists[i] && kept + rest == lists[i];
      var j := firstLink[i];
      var pj := DT_NULL_LINK;
      while j != DT_NULL_LINK
        invariant Valid() && |lists| == firstLink.Length && done + rest == old(lists)[i]
                  && InBounds(done + rest, ref.Length)
        invariant InBounds(done, ref.Length) && kept == Kept(w, ref[..], target, done)
                  && lists == old(lists)[i := kept + rest]
        invariant j == HeadOf(DT_NULL_LINK, rest) && pj == (if kept == [] then DT_NULL_LINK else kept[|kept| - 1])
        invariant forall x :: x in old(freeList) ==> x in freeList
        invariant old(NoneLoose(owner)) ==> NoneLoose(owner)
        decreases |rest|
      {
        ListSuccessor(next[..], linksFreeList, freeList, firstLink[..|lists|], lists, owner, i, kept, rest);
        KeptStep(w, ref[..], target, done, rest);
        MidList(kept, rest);
        var nj := next[j];
        if DecodeTile(w, ref[j]) == target {
          RemoveAt(i, |kept|, j, pj);
        } else {
          kept := kept + [rest[0]];
          pj := j;
        }
        j := nj;
        done, rest := done + [rest[0]], rest[1..];
      }
      RestInBounds(done, rest, ref.Length);
      FirstInBounds(rest, ref.Length);
      assert rest == [] && done == old(lists)[i] && kept + rest == kept;
    }

    /** Unlinks link j and returns it to the free list. */
    method RemoveAt(i: nat, ghost k: nat, j: nat, pj: int)
      requires Valid() && i < |lists| && k < |lists[i]| && j == lists[i][k] && j < next.Length
      requires pj == if k == 0 then DT_NULL_LINK else lists[i][k - 1]
      modifies this`linksFreeList, this`freeList, this`owner, this`lists, next, firstLink
      ensures Valid() && lists == old(lists)[i := Without(old(lists)[i], k)] && freeList == [j] + old(freeList)
      ensures old(NoneLoose(owner)) ==> NoneLoose(owner)
    {
      hide Partition, Without, NoneLoose;
      ghost var owner0 := owner;
      UnlinkAt(i, k, j, pj);
      FreeLink(j);
      assert owner == owner0[j := FREE];
      if NoneLoose(owner0) { StillNoneLoose(owner0, j, FREE); }
    }

    /** Takes link j, at position k of polygon i's list, out of the list; pj is the link before it. */
    method UnlinkAt(i: nat, ghost k: nat, j: nat, pj: int)
      requires Valid() && i < |lists| && k < |lists[i]| && j == lists[i][k] && j < next.Length
      requires pj == if k == 0 then DT_NULL_LINK else lists[i][k - 1]
      modifies this`owner, this`lists, next, firstLink
      ensures Valid() && lists == old(lists)[i := Without(old(lists)[i], k)] && j < |old(owner)|
              && owner == old(owner)[j := LOOSE]
    {
      Unlinked(next[..], linksFreeList, freeList, firstLink[..|lists|], lists, owner, i, k, j, pj);
      hide Partition, Without;
      ghost var next' := if pj == DT_NULL_LINK then next[..] else next[..][pj := next[j]];
      ghost var heads' := if pj == DT_NULL_LINK then firstLink[..|lists|][i := next[j]] else firstLink[..|lists|];
      if pj == DT_NULL_LINK {
        firstLink[i] := next[j];
      } else {
        next[pj] := next[j];
      }
      assert next[..] == next' && firstLink[..|lists|] == heads';
      lists, owner := lists[i := Without(lists[i], k)], owner[j := LOOSE];
    }
  }

  /** With none on its way, every link is free or on exactly one polygon's list, once. */
  lemma EachLinkOnce(tile: MeshTile, x: nat)
    requires tile.Valid() && NoneLoose(tile.owner) && x < tile.next.Length
    ensures x in tile.freeList <==> forall i :: 0 <= i < |tile.lists| ==> x !in tile.lists[i]
    ensures forall i, k ::
              0 <= i < |tile.lists| && 0 <= k < |tile.lists| && x in tile.lists[i] && x in tile.lists[k] ==> i == k
    ensures NoDuplicates(tile.freeList) && forall i :: 0 <= i < |tile.lists| ==> NoDuplicates(tile.lists[i])
  {
    var o := tile.owner[x];
    if o >= 0 { assert Owns(tile.owner, o, tile.lists[o]); }
    forall i | 0 <= i < |tile.lists| ensures x in tile.lists[i] <==> o == i {
      assert Owns(tile.owner, i, tile.lists[i]);
    }
  }

  lemma Unlinked(next: seq<int>, free: int, freeList: seq<nat>, heads: seq<int>, lists: seq<seq<nat>>,
                 owner: seq<int>, i: nat, k: nat, j: nat, pj: int)
    requires Partition(next, DT_NULL_LINK, free, freeList, heads, lists, owner) && |next| <= DT_NULL_LINK
    requires i < |lists| && k < |lists[i]| && j == lists[i][k] && j < |next|
    requires pj == if k == 0 then DT_NULL_LINK else lists[i][k - 1]
    ensures |owner| == |next| && |heads| == |lists| && (k > 0 <==> pj != DT_NULL_LINK) && (k > 0 ==> 0 <= pj < |next|)
    ensures Partition(if k > 0 then next[pj := next[j]] else next, DT_NULL_LINK, free, freeList,
                      if k > 0 then heads else heads[i := next[j]], lists[i := Without(lists[i], k)], owner[j := LOOSE])
  {
    Unlink(next, DT_NULL_LINK, free, freeList, heads, lists, owner, i, k);
  }

  lemma ListInBounds(next: seq<int>, free: int, freeList: seq<nat>, heads: seq<int>, lists: seq<seq<nat>>,
                     owner: seq<int>, i: nat)
    requires Partition(next, DT_NULL_LINK, free, freeList, heads, lists, owner) && i < |lists|
    ensures InBounds(lists[i], |next|) && heads[i] == HeadOf(DT_NULL_LINK, lists[i])
  {
  }

  lemma ListSuccessor(next: seq<int>, free: int, freeList: seq<nat>, heads: seq<int>, lists: seq<seq<nat>>,
                      owner: seq<int>, i: nat, kept: seq<nat>, rest: seq<nat>)
    requires Partition(next, DT_NULL_LINK, free, freeList, heads, lists, owner) && i < |lists| && |next| <= DT_NULL_LINK
    requires lists[i] == kept + rest && rest != []
    ensures rest[0] < |next| && next[rest[0]] == HeadOf(DT_NULL_LINK, rest[1..])
    ensures kept != [] ==> kept[|kept| - 1] < |next|
  {
    var s := lists[i];
    assert s[|kept|] == rest[0] && next[s[|kept|]] == Successor(DT_NULL_LINK, s, |kept|);
    if kept != [] { assert s[|kept| - 1] == kept[|kept| - 1]; }
  }

  lemma RestInBounds(done: seq<nat>, rest: seq<nat>, n: nat)
    requires InBounds(done + rest, n)
    ensures InBounds(rest, n)
  {
    forall k | 0 <= k < |rest| ensures rest[k] < n { assert (done + rest)[|done| + k] == rest[k]; }
  }

  lemma NothingInBounds(n: nat)
    ensures InBounds([], n)
  {
  }

  lemma FirstInBounds(s: seq<nat>, n: nat)
    requires InBounds(s, n)
    ensures s != [] ==> s[0] < n
  {
  }

  lemma NothingKept(w: Widths, ref: seq<bv32>, target: bv32)
    requires Packed(w)
    ensures Kept(w, ref, target, []) == []
  {
  }

  lemma NewLinkIsUnlisted(next: seq<int>, free: int, freeList: seq<nat>, heads: seq<int>, lists: seq<seq<nat>>,
                          owner: seq<int>)
    requires Partition(next, DT_NULL_LINK, free, freeList, heads, lists, owner)
    ensures forall j, x :: 0 <= j < |lists| && x in lists[j] ==> x < |next| && (freeList != [] ==> x != freeList[0])
  {
    assert freeList != [] ==> freeList[0] in freeList;
  }
}
