/** The open list of a path search: a binary heap of nodes, moved about by sinking or lifting a hole. */
module NodeQueues {

  function Parent(k: int): int {
    (k - 1) / 2
  }

  /** Total cost of a node. */
  function Cost(total: seq<real>, node: nat): real {
    if node < |total| then total[node] else 0.0
  }

  ghost predicate Ordered(h: seq<nat>, total: seq<real>) {
    forall k :: 0 < k < |h| ==> Cost(total, h[Parent(k)]) <= Cost(total, h[k])
  }

  /** Ordered but for what is at i, and around it too. */
  ghost predicate OrderedAround(h: seq<nat>, total: seq<real>, i: int) {
    && (forall k :: 0 < k < |h| && k != i && Parent(k) != i ==> Cost(total, h[Parent(k)]) <= Cost(total, h[k]))
    && (0 < i < |h| ==> forall k :: 0 < k < |h| && Parent(k) == i ==> Cost(total, h[Parent(i)]) <= Cost(total, h[k]))
  }

  /** A node of cost c may stand at i as far as the nodes below are concerned. */
  ghost predicate AtMostBelow(h: seq<nat>, total: seq<real>, i: int, c: real) {
    forall k :: 0 < k < |h| && Parent(k) == i ==> c <= Cost(total, h[k])
  }

  /** Moving the parent down into the hole. */
  lemma LiftHole(h: seq<nat>, total: seq<real>, i: nat, c: real)
    requires 0 < i < |h| && OrderedAround(h, total, i) && AtMostBelow(h, total, i, c) && Cost(total, h[Parent(i)]) > c
    ensures var h' := h[i := h[Parent(i)]];
            OrderedAround(h', total, Parent(i)) && AtMostBelow(h', total, Parent(i), c)
  {
  }

  /** Moving the cheaper child up into the hole. */
  lemma SinkHole(h: seq<nat>, total: seq<real>, i: nat, child: nat)
    requires i < child < |h| && Parent(child) == i && OrderedAround(h, total, i)
    requires forall k :: 0 < k < |h| && Parent(k) == i ==> Cost(total, h[child]) <= Cost(total, h[k])
    ensures OrderedAround(h[i := h[child]], total, child)
  {
  }

  /** The hole is filled where the node is neither too cheap nor too dear. */
  lemma FillHole(h: seq<nat>, total: seq<real>, i: nat, node: nat)
    requires i < |h| && OrderedAround(h, total, i) && AtMostBelow(h, total, i, Cost(total, node))
    requires i > 0 ==> Cost(total, h[Parent(i)]) <= Cost(total, node)
    ensures Ordered(h[i := node], total)
  {
  }

  lemma SameNodes(h: seq<nat>, i: nat, j: nat, node: nat)
    requires i < |h| && j < |h| && i != j
    ensures multiset(h[i := h[j]][j := node]) == multiset(h[i := node])
  {
    var a := h[i := node];
    assert h[i := h[j]][j := node] == a[i := a[j]][j := a[i]];
  }

  /** All but position i hold nodes. */
  ghost predicate NodesBut(h: seq<nat>, n: nat, i: int) {
    forall k :: 0 <= k < |h| && k != i ==> h[k] < n
  }

  /** A hole at i that is meant for the node; with it the heap would hold the given nodes. */
  ghost predicate Holed(h: seq<nat>, total: seq<real>, i: int, node: nat, nodes: multiset<nat>) {
    0 <= i < |h| && NodesBut(h, |total|, i) && multiset(h[i := node]) == nodes
  }

  /** Nothing is to be lifted: what is above the hole is no dearer than the node. */
  ghost predicate Settled(h: seq<nat>, total: seq<real>, i: int, node: nat) {
    0 < i < |h| ==> Cost(total, h[Parent(i)]) <= Cost(total, node)
  }

  /** The hole at i is the only thing out of order, and the node may stand above what is below it. */
  ghost predicate Fitting(h: seq<nat>, total: seq<real>, i: int, node: nat) {
    OrderedAround(h, total, i) && AtMostBelow(h, total, i, Cost(total, node))
  }

  lemma LiftStep(h: seq<nat>, total: seq<real>, i: nat, node: nat, nodes: multiset<nat>)
    requires i > 0 && node < |total| && Holed(h, total, i, node, nodes)
    requires 0 <= Parent(i) < |h| && h[Parent(i)] < |total| && total[h[Parent(i)]] > total[node]
    ensures Parent(i) < i < |h|
    ensures var h' := h[i := h[Parent(i)]];
            Holed(h', total, Parent(i), node, nodes) && (Fitting(h, total, i, node) ==>
                                                         Fitting(h', total, Parent(i), node))
  {
    hide OrderedAround, AtMostBelow;
    if Fitting(h, total, i, node) { LiftHole(h, total, i, total[node]); }
    SameNodes(h, i, Parent(i), node);
  }

  lemma LiftEnd(h: seq<nat>, total: seq<real>, i: nat, node: nat, nodes: multiset<nat>)
    requires node < |total| && Holed(h, total, i, node, nodes)
    requires i > 0 ==> 0 <= Parent(i) < |h| && h[Parent(i)] < |total| && total[h[Parent(i)]] <= total[node]
    ensures i < |h|
    ensures var h' := h[i := node];
            NodesBut(h', |total|, -1) && multiset(h') == nodes && (Fitting(h, total, i, node) ==> Ordered(h', total))
  {
    hide OrderedAround, AtMostBelow, Ordered;
    if Fitting(h, total, i, node) { FillHole(h, total, i, node); }
  }

  lemma SinkStep(h: seq<nat>, total: seq<real>, i: nat, child: nat, node: nat, nodes: multiset<nat>)
    requires Holed(h, total, i, node, nodes) && OrderedAround(h, total, i)
    requires (child == i * 2 + 1 || child == i * 2 + 2) && child < |h|
    requires Cost(total, h[i * 2 + 1]) >= Cost(total, h[child])
    requires i * 2 + 2 < |h| ==> Cost(total, h[i * 2 + 2]) >= Cost(total, h[child])
    ensures i < |h| && Holed(h[i := h[child]], total, child, node, nodes)
            && OrderedAround(h[i := h[child]], total, child)
  {
    hide OrderedAround;
    assert forall k :: 0 < k < |h| && Parent(k) == i ==> k == i * 2 + 1 || k == i * 2 + 2;
    SinkHole(h, total, i, child);
    SameNodes(h, i, child, node);
  }

  lemma LeafHole(h: seq<nat>, total: seq<real>, i: nat, c: real)
    requires i * 2 + 1 >= |h|
    ensures AtMostBelow(h, total, i, c)
  {
  }

  /** After one node's cost has gone up above a node below it, that pair is out of order, and nothing is to be
      lifted. */
  lemma TooDear(h: seq<nat>, total: seq<real>, i: nat, before: real)
    requires i < |h| && h[i] < |total| && multiset(h)[h[i]] <= 1 && Ordered(h, total[h[i] := before])
    requires !AtMostBelow(h, total, i, total[h[i]])
    ensures !Ordered(h, total) && (i > 0 ==> Cost(total, h[Parent(i)]) <= total[h[i]])
  {
    var total0 := total[h[i] := before];
    forall k | 0 <= k < |h| && k != i ensures Cost(total0, h[k]) == Cost(total, h[k]) {
      if h[k] == h[i] { Twice(h, i, k); }
    }
    var k :| 0 < k < |h| && Parent(k) == i && !(total[h[i]] <= Cost(total, h[k]));
    assert Cost(total0, h[Parent(k)]) <= Cost(total0, h[k]);
    assert i > 0 ==> Cost(total0, h[Parent(i)]) <= Cost(total0, h[i]);
  }

  /** Everything but node i's place above is in order, whatever its cost was before. */
  lemma AfterChange(h: seq<nat>, total: seq<real>, i: nat, before: real)
    requires i < |h| && h[i] < |total| && multiset(h)[h[i]] <= 1 && Ordered(h, total[h[i] := before])
    requires AtMostBelow(h, total, i, total[h[i]])
    ensures Fitting(h, total, i, h[i])
  {
    var total0 := total[h[i] := before];
    forall k | 0 <= k < |h| && k != i ensures Cost(total0, h[k]) == Cost(total, h[k]) {
      if h[k] == h[i] { Twice(h, i, k); }
    }
    forall k | 0 < k < |h| && Parent(k) == i && i > 0 ensures Cost(total, h[Parent(i)]) <= Cost(total, h[k]) {
      assert Cost(total0, h[Parent(k)]) <= Cost(total0, h[k]);
      assert Cost(total0, h[Parent(i)]) <= Cost(total0, h[i]);
    }
    forall k | 0 < k < |h| && k != i && Parent(k) != i ensures Cost(total, h[Parent(k)]) <= Cost(total, h[k]) {
      assert Cost(total0, h[Parent(k)]) <= Cost(total0, h[k]);
    }
  }

  lemma ParentIsNode(h: seq<nat>, total: seq<real>, i: nat, node: nat)
    requires i < |h| && NodesBut(h, |total|, i) && node < |total|
    ensures i > 0 ==> 0 <= Parent(i) < |h| && h[Parent(i)] < |total|
    ensures Settled(h, total, i, node) <==> i == 0 || total[h[Parent(i)]] <= total[node]
  {
  }

  lemma HoleParts(h: seq<nat>, total: seq<real>, i: int, node: nat, nodes: multiset<nat>)
    requires Holed(h, total, i, node, nodes)
    ensures 0 <= i < |h| && NodesBut(h, |total|, i)
    ensures i > 0 ==> 0 <= Parent(i) < i
  {
  }

  /** The root of a heap is cheapest. */
  lemma {:induction false} RootIsLeast(h: seq<nat>, total: seq<real>, k: nat)
    requires Ordered(h, total) && k < |h|
    ensures Cost(total, h[0]) <= Cost(total, h[k])
    decreases k
  {
    if k > 0 {
      RootIsLeast(h, total, Parent(k));
    }
  }

  /** A lowered cost is no more than what is below. */
  lemma AfterDecrease(h: seq<nat>, total: seq<real>, i: nat, before: real)
    requires i < |h| && h[i] < |total| && multiset(h)[h[i]] <= 1
    requires total[h[i]] <= before && Ordered(h, total[h[i] := before])
    ensures AtMostBelow(h, total, i, total[h[i]])
  {
    var total0 := total[h[i] := before];
    forall k | 0 < k < |h| && Parent(k) == i ensures total[h[i]] <= Cost(total, h[k]) {
      if h[k] == h[i] { Twice(h, i, k); }
      assert Cost(total0, h[Parent(k)]) <= Cost(total0, h[k]);
    }
  }

  lemma Twice(h: seq<nat>, i: nat, k: nat)
    requires i < |h| && k < |h| && i != k && h[i] == h[k]
    ensures multiset(h)[h[i]] >= 2
  {
    var a, b := if i < k then i else k, if i < k then k else i;
    assert h == h[..a] + [h[a]] + h[a + 1..b] + [h[b]] + h[b + 1..];
  }

  /** None of the nodes costs less than c. */
  ghost predicate NoCheaper(h: seq<nat>, total: seq<real>, c: real) {
    forall x :: x in h ==> c <= Cost(total, x)
  }

  class NodeQueue {
    /** Costs belong to the nodes, not to the queue. */
    const total: array<real>
    const heap: array<nat>
    var size: nat

    ghost function Nodes(): seq<nat>
      requires size <= heap.Length
      reads this, heap
    {
      heap[..size]
    }

    ghost predicate Shape()
      reads this
    {
      total as object != heap && size <= heap.Length
    }

    ghost predicate Valid()
      reads this, heap, total
    {
      Shape() && NodesBut(heap[..size], total.Length, -1) && Ordered(heap[..size], total[..])
    }

    constructor (n: nat, total: array<real>)
      requires n > 0
      ensures Valid() && Nodes() == [] && this.total == total && heap.Length == n + 1 && fresh(heap)
    {
      this.total := total;
      heap := new nat[n + 1];
      size := 0;
    }

    method Clear()
      requires Shape()
      modifies this
      ensures Valid() && Nodes() == []
    {
      size := 0;
    }

    /** Lifts a hole at i until the node fits above it, and puts the node there. */
    method BubbleUp(i0: nat, node: nat, ghost nodes: multiset<nat>)
      requires Shape() && node < total.Length && Holed(heap[..size], total[..], i0, node, nodes)
      modifies heap
      ensures NodesBut(heap[..size], total.Length, -1) && multiset(heap[..size]) == nodes
      ensures old(Fitting(heap[..size], total[..], i0, node)) ==> Valid()
      ensures old(Settled(heap[..size], total[..], i0, node)) ==> heap[..size] == old(heap[..size])[i0 := node]
    {
      hide Ordered, Holed, Fitting, Parent, NodesBut, Settled;
      var i := i0;
      var parent := Parent(i);
      ghost var costs, h0 := total[..], heap[..size];
      ghost var h := h0;
      HoleParts(h, costs, i, node, nodes);
      ParentIsNode(h, costs, i, node);
      while i > 0 && total[heap[parent]] > total[node]
        invariant parent == Parent(i) && 0 <= i < size && (i > 0 ==> 0 <= parent < i) && total[..] == costs
                  && heap[..size] == h
        invariant Holed(h, costs, i, node, nodes) && (i > 0 ==> h[parent] < |costs|)
        invariant Settled(h, costs, i, node) <==> i == 0 || costs[h[parent]] <= costs[node]
        invariant Fitting(h0, costs, i0, node) ==> Fitting(h, costs, i, node)
        invariant Settled(h0, costs, i0, node) ==> i == i0 && h == h0
      {
        assert heap[parent] == h[parent];
        LiftStep(h, costs, i, node, nodes);
        h := h[i := h[parent]];
        heap[i] := heap[parent];
        i := parent;
        parent := Parent(i);
        HoleParts(h, costs, i, node, nodes);
        ParentIsNode(h, costs, i, node);
      }
      assert i > 0 ==> heap[parent] == h[parent];
      LiftEnd(h, costs, i, node, nodes);
      h := h[i := node];
      heap[i] := node;
      assert heap[..size] == h;
    }

    /** Sinks a hole at i to a leaf along the cheaper children, and lifts the node from there. */
    method TrickleDown(i0: nat, node: nat, ghost nodes: multiset<nat>)
      requires Shape() && node < total.Length
      requires Holed(heap[..size], total[..], i0, node, nodes) && OrderedAround(heap[..size], total[..], i0)
      modifies heap
      ensures Valid() && multiset(heap[..size]) == nodes
    {
      hide Ordered, Holed, OrderedAround, AtMostBelow, Parent;
      var i := i0;
      var child := i * 2 + 1;
      ghost var costs, h := total[..], heap[..size];
      HoleParts(h, costs, i, node, nodes);
      while child < size
        invariant child == i * 2 + 1 && i < size && total[..] == costs && heap[..size] == h
        invariant NodesBut(h, |costs|, i) && Holed(h, costs, i, node, nodes) && OrderedAround(h, costs, i)
        decreases size - i
      {
        assert heap[child] == h[child] && (child + 1 < size ==> heap[child + 1] == h[child + 1]);
        if child + 1 < size && total[heap[child]] > total[heap[child + 1]] {
          child := child + 1;
        }
        SinkStep(h, costs, i, child, node, nodes);
        h := h[i := h[child]];
        heap[i] := heap[child];
        i := child;
        child := i * 2 + 1;
        HoleParts(h, costs, i, node, nodes);
      }
      LeafHole(h, costs, i, costs[node]);
      BubbleUp(i, node, nodes);
    }

    /** Takes out a node of least total cost. */
    method Pop() returns (result: nat)
      requires Valid() && size > 0
      modifies this, heap
      ensures Valid() && size == old(size) - 1
      ensures result == old(heap[0]) && multiset(old(Nodes())) == multiset(Nodes()) + multiset{result}
      ensures result < total.Length && NoCheaper(old(Nodes()), total[..], total[result])
    {
      hide Ordered, OrderedAround, Holed, NodesBut, NoCheaper;
      ghost var h := heap[..size];
      Popped(h, total[..]);
      result := heap[0];
      assert h[0] == result && h[size - 1] == heap[size - 1];
      size := size - 1;
      assert heap[..size] == h[..size];
      ghost var rest := multiset(h) - multiset{result};
      if size == 0 {
        // With nothing left, trickling down only writes the freed slot back to itself.
        heap[0] := heap[size];
        assert heap[..size] == [];
        Empty(total[..]);
      } else {
        TrickleDown(0, heap[size], rest);
      }
      assert multiset(heap[..size]) == rest;
    }

    /** Adds a node. */
    method Push(node: nat)
      requires Valid() && size < heap.Length && node < total.Length
      modifies this, heap
      ensures Valid() && size == old(size) + 1 && multiset(Nodes()) == multiset(old(Nodes())) + multiset{node}
    {
      hide Ordered, Fitting, Holed;
      ghost var h := heap[..size];
      ghost var junk := heap[size];
      size := size + 1;
      assert heap[..size] == h + [junk];
      PushHole(h, total[..], junk, node);
      BubbleUp(size - 1, node, multiset(h) + multiset{node});
    }

    /** Lifts a node after its cost has changed. Whatever the change, the nodes stay the same. If the heap was in order
        at the node's cost before, and holds the node once, then it is in order again if and only if the node is no
        dearer than what is below it: always after a decrease. */
    method Modify(node: nat, ghost before: real)
      requires Shape() && NodesBut(heap[..size], total.Length, -1) && node < total.Length
      modifies heap
      ensures NodesBut(heap[..size], total.Length, -1) && multiset(heap[..size]) == multiset(old(heap[..size]))
      ensures old(multiset(heap[..size])[node] <= 1 && Ordered(heap[..size], total[..][node := before])) ==>
                && (Valid() <==> old(CheapEnough(heap[..size], total[..], node)))
                && (total[node] <= before ==> Valid())
    {
      hide Ordered, Holed, OrderedAround, AtMostBelow, Fitting, Settled, CheapEnough;
      ghost var h, costs := heap[..size], total[..];
      ghost var once := multiset(h)[node] <= 1 && Ordered(h, costs[node := before]);
      for i := 0 to size
        invariant heap[..size] == h && forall k :: 0 <= k < i ==> h[k] != node
      {
        if heap[i] == node {
          assert h[i] == node && h[i := node] == h;
          Refilled(h, costs, i, node);
          if once { ModifiedAt(h, costs, i, before); }
          BubbleUp(i, node, multiset(h));
          return;
        }
        assert heap[i] == h[i];
      }
      if once { Absent(h, costs, node, before); }
    }
  }

  /** The node, if it is there, costs no more than what is below it. */
  ghost predicate CheapEnough(h: seq<nat>, total: seq<real>, node: nat) {
    forall i :: 0 <= i < |h| && h[i] == node ==> AtMostBelow(h, total, i, Cost(total, node))
  }

  lemma ModifiedAt(h: seq<nat>, total: seq<real>, i: nat, before: real)
    requires i < |h| && h[i] < |total| && multiset(h)[h[i]] <= 1 && Ordered(h, total[h[i] := before])
    ensures if CheapEnough(h, total, h[i]) then Fitting(h, total, i, h[i])
            else Settled(h, total, i, h[i]) && !Ordered(h, total) && total[h[i]] > before
  {
    hide Ordered, AtMostBelow, Fitting;
    forall k | 0 <= k < |h| && h[k] == h[i] ensures k == i {
      if k != i { Twice(h, i, k); }
    }
    if AtMostBelow(h, total, i, total[h[i]]) {
      AfterChange(h, total, i, before);
    } else {
      TooDear(h, total, i, before);
      if total[h[i]] <= before { AfterDecrease(h, total, i, before); }
    }
  }

  lemma Refilled(h: seq<nat>, total: seq<real>, i: nat, node: nat)
    requires i < |h| && h[i] == node && NodesBut(h, |total|, -1)
    ensures Holed(h, total, i, node, multiset(h))
  {
    assert h[i := node] == h;
  }

  lemma Cheapest(h: seq<nat>, total: seq<real>)
    requires |h| > 0 && Ordered(h, total)
    ensures forall x :: x in h ==> Cost(total, h[0]) <= Cost(total, x)
  {
    forall x | x in h ensures Cost(total, h[0]) <= Cost(total, x) {
      var k :| 0 <= k < |h| && h[k] == x;
      RootIsLeast(h, total, k);
    }
  }

  /** What taking the root out of a heap leaves. */
  lemma Popped(h: seq<nat>, total: seq<real>)
    requires |h| > 0 && Ordered(h, total) && NodesBut(h, |total|, -1)
    ensures h[0] < |total| && h[|h| - 1] < |total| && NoCheaper(h, total, total[h[0]])
    ensures |h| == 1 ==> multiset(h) - multiset{h[0]} == multiset([])
    ensures multiset(h) == multiset(h) - multiset{h[0]} + multiset{h[0]}
    ensures |h| > 1 ==>
              && Holed(h[..|h| - 1], total, 0, h[|h| - 1], multiset(h) - multiset{h[0]})
              && OrderedAround(h[..|h| - 1], total, 0)
  {
    hide Ordered, OrderedAround, Holed;
    PopHole(h, total);
    Cheapest(h, total);
    if |h| == 1 { assert h == [h[0]]; }
  }

  lemma Empty(total: seq<real>)
    ensures Ordered([], total) && NodesBut([], |total|, -1)
  {
  }

  lemma Absent(h: seq<nat>, total: seq<real>, node: nat, before: real)
    requires node < |total| && node !in h && Ordered(h, total[node := before])
    ensures Ordered(h, total) && CheapEnough(h, total, node)
  {
    forall k | 0 <= k < |h| ensures h[k] != node && Cost(total[node := before], h[k]) == Cost(total, h[k]) {
      assert h[k] in h;
    }
  }

  lemma PopHole(h: seq<nat>, total: seq<real>)
    requires |h| > 0 && Ordered(h, total) && NodesBut(h, |total|, -1)
    ensures |h| > 1 ==>
              && Holed(h[..|h| - 1], total, 0, h[|h| - 1], multiset(h) - multiset{h[0]})
              && OrderedAround(h[..|h| - 1], total, 0)
  {
    if |h| > 1 { LastMoved(h); }
  }

  lemma LastMoved(h: seq<nat>)
    requires |h| > 1
    ensures var n := |h| - 1;
            multiset(h[..n][0 := h[n]]) == multiset(h) - multiset{h[0]}
  {
    var n := |h| - 1;
    assert h[..n][0 := h[n]] == [h[n]] + h[1..n];
    assert h == [h[0]] + h[1..n] + [h[n]];
  }

  lemma PushHole(h: seq<nat>, total: seq<real>, junk: nat, node: nat)
    requires Ordered(h, total) && NodesBut(h, |total|, -1)
    ensures Holed(h + [junk], total, |h|, node, multiset(h) + multiset{node}) && Fitting(h + [junk], total, |h|, node)
  {
    assert (h + [junk])[|h| := node] == h + [node];
  }
}
