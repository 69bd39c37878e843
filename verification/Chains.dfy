/** Singly linked lists threaded through an array of `next` indexes, as values: `s` lists the cells of
    the chain that starts at `head`; `nil` ends a chain and is no index. */
module Chains {
  import opened Sequences

  /** The index stored in the cell at position k. */
  function Successor(nil: int, s: seq<nat>, k: nat): int
    requires k < |s|
  {
    if k + 1 < |s| then s[k + 1] else nil
  }

  function HeadOf(nil: int, s: seq<nat>): int {
    if s == [] then nil else s[0]
  }

  ghost predicate Chain(next: seq<int>, nil: int, head: int, s: seq<nat>) {
    && head == HeadOf(nil, s)
    && (forall k :: 0 <= k < |s| ==> s[k] < |next| && next[s[k]] == Successor(nil, s, k))
  }

  lemma ChainPop(next: seq<int>, nil: int, head: int, s: seq<nat>)
    requires Chain(next, nil, head, s) && s != []
    ensures head == s[0] && s[0] < |next| && Chain(next, nil, next[s[0]], s[1..])
  {
    var t := s[1..];
    assert next[s[0]] == Successor(nil, s, 0);
    forall k | 0 <= k < |t| ensures t[k] < |next| && next[t[k]] == Successor(nil, t, k) {
      assert next[s[k + 1]] == Successor(nil, s, k + 1);
    }
  }

  /** Cells outside a chain may change. */
  lemma ChainFrame(next: seq<int>, next': seq<int>, nil: int, head: int, s: seq<nat>)
    requires Chain(next, nil, head, s) && |next'| == |next|
    requires forall i :: 0 <= i < |next| && i in s ==> next'[i] == next[i]
    ensures Chain(next', nil, head, s)
  {
  }

  lemma ChainPush(next: seq<int>, nil: int, head: int, s: seq<nat>, x: nat)
    requires Chain(next, nil, head, s) && x < |next| && x !in s
    ensures Chain(next[x := head], nil, x, [x] + s)
  {
    var t := [x] + s;
    forall k | 0 <= k < |t| ensures t[k] < |next| && next[x := head][t[k]] == Successor(nil, t, k) {
      if k > 0 { assert next[s[k - 1]] == Successor(nil, s, k - 1); }
    }
  }

  function Without(s: seq<nat>, k: nat): seq<nat>
    requires k < |s|
  {
    s[..k] + s[k + 1..]
  }

  /** Unlinking the cell at position k > 0 by redirecting its predecessor. */
  lemma ChainUnlink(next: seq<int>, nil: int, head: int, s: seq<nat>, k: nat)
    requires Chain(next, nil, head, s) && NoDuplicates(s) && 0 < k < |s|
    ensures s[k - 1] < |next| && s[k] < |next|
    ensures Chain(next[s[k - 1] := next[s[k]]], nil, head, Without(s, k))
  {
    var t := Without(s, k);
    assert next[s[k]] == Successor(nil, s, k);
    assert next[s[k - 1]] == Successor(nil, s, k - 1);
    var next' := next[s[k - 1] := next[s[k]]];
    forall j | 0 <= j < |t| ensures t[j] < |next| && next'[t[j]] == Successor(nil, t, j) {
      WithoutSuccessor(nil, s, k, j);
      var i := if j < k then j else j + 1;
      assert next[s[i]] == Successor(nil, s, i);
    }
  }

  lemma WithoutSuccessor(nil: int, s: seq<nat>, k: nat, j: nat)
    requires 0 < k < |s| && j < |s| - 1
    ensures Without(s, k)[j] == s[if j < k then j else j + 1]
    ensures Successor(nil, Without(s, k), j) == if j < k - 1 then Successor(nil, s, j)
                                                else if j == k - 1 then Successor(nil, s, k)
                                                else Successor(nil, s, j + 1)
  {
  }

  lemma WithoutFirst(s: seq<nat>)
    requires s != []
    ensures Without(s, 0) == s[1..]
  {
  }

  /** What is in a list after a removal. */
  lemma WithoutMembers(s: seq<nat>, k: nat)
    requires NoDuplicates(s) && k < |s|
    ensures NoDuplicates(Without(s, k)) && forall x :: x in Without(s, k) <==> x in s && x != s[k]
  {
    var t := Without(s, k);
    forall j | 0 <= j < |t| ensures t[j] == s[if j < k then j else j + 1] {}
    forall x | x in s && x != s[k] ensures x in t {
      var i :| 0 <= i < |s| && s[i] == x;
      assert t[if i < k then i else i - 1] == x;
    }
  }

  // ---- Several chains sharing one array ----

  const FREE: int := -1
  const LOOSE: int := -2

  /** The cells with owner `id` are exactly those of `s`, each once. */
  ghost predicate Owns(owner: seq<int>, id: int, s: seq<nat>) {
    && NoDuplicates(s)
    && (forall x :: x in s ==> x < |owner| && owner[x] == id)
    && (forall x :: 0 <= x < |owner| && owner[x] == id ==> x in s)
  }

  /** Every cell is in exactly one of the free list and the numbered lists, or is being moved. */
  ghost predicate Partition(next: seq<int>, nil: int, free: int, freeList: seq<nat>, heads: seq<int>,
                            lists: seq<seq<nat>>, owner: seq<int>) {
    && |owner| == |next| && |heads| == |lists| && !(0 <= nil < |next|)
    && (forall x :: 0 <= x < |owner| ==> LOOSE <= owner[x] < |lists|)
    && Chain(next, nil, free, freeList) && Owns(owner, FREE, freeList)
    && (forall i :: 0 <= i < |lists| ==> Chain(next, nil, heads[i], lists[i]) && Owns(owner, i, lists[i]))
  }

  lemma OwnsOther(owner: seq<int>, id: int, s: seq<nat>, x: nat, id': int)
    requires Owns(owner, id, s) && x < |owner| && owner[x] != id && id' != id
    ensures x !in s && Owns(owner[x := id'], id, s)
  {
  }

  lemma OwnsMore(owner: seq<int>, id: int, s: seq<nat>, x: nat)
    requires Owns(owner, id, s) && x < |owner| && owner[x] != id
    ensures Owns(owner[x := id], id, [x] + s)
  {
    forall y | 0 <= y < |owner| && owner[x := id][y] == id ensures y in [x] + s {
      if y != x { assert y in s; }
    }
  }

  lemma OwnsLess(owner: seq<int>, id: int, s: seq<nat>, k: nat, id': int)
    requires Owns(owner, id, s) && k < |s| && id' != id
    ensures s[k] < |owner| && Owns(owner[s[k] := id'], id, Without(s, k))
  {
    assert s[k] in s;
    WithoutMembers(s, k);
  }

  /** Taking the head of the free list leaves it loose. */
  lemma PopFree(next: seq<int>, nil: int, free: int, freeList: seq<nat>, heads: seq<int>, lists: seq<seq<nat>>,
                owner: seq<int>)
    requires Partition(next, nil, free, freeList, heads, lists, owner) && free != nil
    ensures freeList != [] && free == freeList[0] && 0 <= free < |next| && owner[free] == FREE
    ensures Partition(next, nil, next[free], freeList[1..], heads, lists, owner[free := LOOSE])
  {
    ChainPop(next, nil, free, freeList);
    OwnsLess(owner, FREE, freeList, 0, LOOSE);
    WithoutFirst(freeList);
    forall i | 0 <= i < |lists| ensures Chain(next, nil, heads[i], lists[i])
        && Owns(owner[free := LOOSE], i, lists[i]) {
      OwnsOther(owner, i, lists[i], free, LOOSE);
    }
  }

  /** Returning a loose cell to the free list. */
  lemma PushFree(next: seq<int>, nil: int, free: int, freeList: seq<nat>, heads: seq<int>, lists: seq<seq<nat>>,
                 owner: seq<int>, x: nat)
    requires Partition(next, nil, free, freeList, heads, lists, owner) && x < |owner| && owner[x] == LOOSE
    ensures Partition(next[x := free], nil, x, [x] + freeList, heads, lists, owner[x := FREE])
  {
    OwnsOther(owner, FREE, freeList, x, LOOSE);
    ChainPush(next, nil, free, freeList, x);
    OwnsMore(owner, FREE, freeList, x);
    forall i | 0 <= i < |lists| ensures Chain(next[x := free], nil, heads[i], lists[i])
        && Owns(owner[x := FREE], i, lists[i]) {
      OwnsOther(owner, i, lists[i], x, FREE);
      ChainFrame(next, next[x := free], nil, heads[i], lists[i]);
    }
  }

  /** Putting a loose cell in front of list i. */
  lemma PushList(next: seq<int>, nil: int, free: int, freeList: seq<nat>, heads: seq<int>, lists: seq<seq<nat>>,
                 owner: seq<int>, x: nat, i: nat)
    requires Partition(next, nil, free, freeList, heads, lists, owner) && x < |owner| && owner[x] == LOOSE
             && i < |lists|
    ensures Partition(next[x := heads[i]], nil, free, freeList, heads[i := x], lists[i := [x] + lists[i]],
                      owner[x := i])
  {
    var next', heads', lists' := next[x := heads[i]], heads[i := x], lists[i := [x] + lists[i]];
    OwnsOther(owner, FREE, freeList, x, i);
    ChainFrame(next, next', nil, free, freeList);
    forall j | 0 <= j < |lists'| ensures Chain(next', nil, heads'[j], lists'[j]) && Owns(owner[x := i], j, lists'[j])
    {
      if j == i {
        OwnsOther(owner, i, lists[i], x, LOOSE);
        ChainPush(next, nil, heads[i], lists[i], x);
        OwnsMore(owner, i, lists[i], x);
      } else {
        OwnsOther(owner, j, lists[j], x, i);
        ChainFrame(next, next', nil, heads[j], lists[j]);
      }
    }
  }

  /** One more list, still empty. */
  lemma AddEmptyList(next: seq<int>, nil: int, free: int, freeList: seq<nat>, heads: seq<int>, lists: seq<seq<nat>>,
                     owner: seq<int>)
    requires Partition(next, nil, free, freeList, heads, lists, owner)
    ensures Partition(next, nil, free, freeList, heads + [nil], lists + [[]], owner)
  {
    var heads', lists' := heads + [nil], lists + [[]];
    forall j | 0 <= j < |lists'| ensures Chain(next, nil, heads'[j], lists'[j]) && Owns(owner, j, lists'[j]) {}
  }

  /** Taking the cell at position k out of the free list, by its predecessor or by the list's head. */
  lemma UnlinkFree(next: seq<int>, nil: int, free: int, freeList: seq<nat>, heads: seq<int>, lists: seq<seq<nat>>,
                   owner: seq<int>, k: nat)
    requires Partition(next, nil, free, freeList, heads, lists, owner) && k < |freeList|
    ensures var s := freeList;
            && s[k] < |next| && owner[s[k]] == FREE && (k > 0 ==> s[k - 1] < |next|)
            && var next' := if k > 0 then next[s[k - 1] := next[s[k]]] else next;
            && Partition(next', nil, if k > 0 then free else next[s[k]], Without(s, k), heads, lists,
                         owner[s[k] := LOOSE])
  {
    hide NoDuplicates;
    var s := freeList;
    assert s[k] in s && (k > 0 ==> s[k - 1] in s);
    var next' := if k > 0 then next[s[k - 1] := next[s[k]]] else next;
    if k > 0 {
      ChainUnlink(next, nil, free, s, k);
    } else {
      ChainPop(next, nil, free, s);
      WithoutFirst(s);
    }
    OwnsLess(owner, FREE, s, k, LOOSE);
    forall j | 0 <= j < |lists| ensures Chain(next', nil, heads[j], lists[j])
        && Owns(owner[s[k] := LOOSE], j, lists[j]) {
      if k > 0 { OwnsOther(owner, j, lists[j], s[k - 1], LOOSE); }
      OwnsOther(owner, j, lists[j], s[k], LOOSE);
      ChainFrame(next, next', nil, heads[j], lists[j]);
    }
  }

  /** Unlinking the cell at position k of list i, by its predecessor or by the list's head. */
  lemma Unlink(next: seq<int>, nil: int, free: int, freeList: seq<nat>, heads: seq<int>, lists: seq<seq<nat>>,
               owner: seq<int>, i: nat, k: nat)
    requires Partition(next, nil, free, freeList, heads, lists, owner) && i < |lists| && k < |lists[i]|
    ensures var s := lists[i];
            && s[k] < |next| && (k > 0 ==> s[k - 1] < |next|)
            && var next' := if k > 0 then next[s[k - 1] := next[s[k]]] else next;
            && var heads' := if k > 0 then heads else heads[i := next[s[k]]];
            && Partition(next', nil, free, freeList, heads', lists[i := Without(s, k)], owner[s[k] := LOOSE])
  {
    hide NoDuplicates;
    var s := lists[i];
    var lists' := lists[i := Without(s, k)];
    assert s[k] in s && (k > 0 ==> s[k - 1] in s);
    assert s[k] < |next| && (k > 0 ==> s[k - 1] < |next|);
    var next' := if k > 0 then next[s[k - 1] := next[s[k]]] else next;
    var heads' := if k > 0 then heads else heads[i := next[s[k]]];
    if k > 0 {
      ChainUnlink(next, nil, heads[i], s, k);
      OwnsOther(owner, FREE, freeList, s[k - 1], LOOSE);
    } else {
      ChainPop(next, nil, heads[i], s);
      WithoutFirst(s);
    }
    OwnsOther(owner, FREE, freeList, s[k], LOOSE);
    ChainFrame(next, next', nil, free, freeList);
    forall j | 0 <= j < |lists'| ensures Chain(next', nil, heads'[j], lists'[j])
        && Owns(owner[s[k] := LOOSE], j, lists'[j])
    {
      if j == i {
        OwnsLess(owner, i, s, k, LOOSE);
      } else {
        if k > 0 { OwnsOther(owner, j, lists[j], s[k - 1], LOOSE); }
        OwnsOther(owner, j, lists[j], s[k], LOOSE);
        ChainFrame(next, next', nil, heads[j], lists[j]);
      }
    }
  }
}
