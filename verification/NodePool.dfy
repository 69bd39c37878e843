/** The nodes of a path search: allocated in order, found by polygon and state through hash chains whose links
    always lead to older nodes. */
module NodePools {
  import opened Sequences
  import opened Words

  const NULL: int := 0xffff

  /** Values of the two-bit state field. */
  const STATES: nat := 4

  datatype Node = Node(cost: real, total: real, pidx: nat, state: nat, flags: nat, id: bv32)
  datatype Key = Key(id: bv32, state: nat)

  function HashRef(id: bv32): bv32 {
    var a := id;
    var a := a + !(a << 15);
    var a := a ^ (a >> 10);
    var a := a + (a << 3);
    var a := a ^ (a >> 6);
    var a := a + !(a << 11);
    a ^ (a >> 16)
  }

  /** The chain of an id; the table size is a power of two, so masking is taking the remainder. */
  function Bucket(id: bv32, hashSize: nat): (b: nat)
    requires hashSize >= 1
    ensures b < hashSize
  {
    ToNat(HashRef(id)) % hashSize
  }

  function KeyOf(node: Node): Key {
    Key(node.id, node.state)
  }

  /** The newest of the nodes in a bucket. */
  function Newest(nodes: seq<Node>, b: nat, hashSize: nat): (i: int)
    requires hashSize >= 1
    ensures i == NULL || 0 <= i < |nodes|
  {
    if nodes == [] then NULL
    else if Bucket(nodes[|nodes| - 1].id, hashSize) == b then |nodes| - 1
    else Newest(nodes[..|nodes| - 1], b, hashSize)
  }

  /** What the pool means: a map from keys to nodes, where later nodes win. */
  function Index(nodes: seq<Node>): map<Key, nat> {
    if nodes == [] then map[] else Index(nodes[..|nodes| - 1])[KeyOf(nodes[|nodes| - 1]) := |nodes| - 1]
  }

  function Lookup(nodes: seq<Node>, key: Key): int {
    if key in Index(nodes) then Index(nodes)[key] else NULL
  }

  /** All nodes of a polygon, newest first. */
  function NodesOf(nodes: seq<Node>, id: bv32): seq<nat> {
    if nodes == [] then []
    else (if nodes[|nodes| - 1].id == id then [(|nodes| - 1) as nat] else []) + NodesOf(nodes[..|nodes| - 1], id)
  }

  /** At most one node per key. */
  ghost predicate Distinct(nodes: seq<Node>) {
    forall i, j :: 0 <= i < j < |nodes| ==> KeyOf(nodes[i]) != KeyOf(nodes[j])
  }

  ghost predicate States(nodes: seq<Node>) {
    forall i :: 0 <= i < |nodes| ==> nodes[i].state < STATES
  }

  /** Every chain starts at its newest node, and every node links to the next older one of its bucket. */
  ghost predicate Chained(nodes: seq<Node>, first: seq<int>, next: seq<int>) {
    && |nodes| <= |next| && |first| >= 1
    && (forall b :: 0 <= b < |first| ==> first[b] == Newest(nodes, b, |first|))
    && (forall i :: 0 <= i < |nodes| ==> next[i] == Newest(nodes[..i], Bucket(nodes[i].id, |first|), |first|))
  }

  /** Going down a chain passes exactly the nodes of the bucket, newest first, so nothing between is left out. */
  lemma {:induction false} NewestSkips(nodes: seq<Node>, b: nat, hashSize: nat, k: nat)
    requires hashSize >= 1 && k < |nodes| <= NULL && (Newest(nodes, b, hashSize) == NULL
                                                      || k > Newest(nodes, b, hashSize))
    ensures Bucket(nodes[k].id, hashSize) != b
  {
    hide Bucket;
    if k < |nodes| - 1 {
      NewestSkips(nodes[..|nodes| - 1], b, hashSize, k);
    }
  }

  lemma {:induction false} NewestInBucket(nodes: seq<Node>, b: nat, hashSize: nat)
    requires hashSize >= 1 && |nodes| <= NULL
    ensures var i := Newest(nodes, b, hashSize);
            i == NULL || Bucket(nodes[i].id, hashSize) == b
  {
    hide Bucket;
    if nodes != [] {
      NewestInBucket(nodes[..|nodes| - 1], b, hashSize);
    }
  }

  /** Lookup finds the newest node of the key. */
  lemma {:induction false} LookupIs(nodes: seq<Node>, key: Key, i: nat)
    requires i < |nodes| <= NULL && KeyOf(nodes[i]) == key && forall j :: i < j < |nodes| ==> KeyOf(nodes[j]) != key
    ensures Lookup(nodes, key) == i
  {
    if i < |nodes| - 1 {
      LookupIs(nodes[..|nodes| - 1], key, i);
    }
  }

  lemma {:induction false} LookupFails(nodes: seq<Node>, key: Key)
    requires forall j :: 0 <= j < |nodes| ==> KeyOf(nodes[j]) != key
    ensures Lookup(nodes, key) == NULL && key !in Index(nodes)
  {
    if nodes != [] {
      LookupFails(nodes[..|nodes| - 1], key);
    }
  }

  lemma {:induction false} NodesOfAppend(a: seq<Node>, b: seq<Node>, id: bv32)
    requires forall j :: 0 <= j < |b| ==> b[j].id != id
    ensures NodesOf(a + b, id) == NodesOf(a, id)
  {
    if b == [] {
      assert a + b == a;
    } else {
      assert (a + b)[..|a + b| - 1] == a + b[..|b| - 1];
      NodesOfAppend(a, b[..|b| - 1], id);
    }
  }

  /** A node keeps its place as long as its key has no other node. */
  lemma FoundStays(nodes: seq<Node>, i: nat)
    requires Distinct(nodes) && i < |nodes| <= NULL
    ensures Lookup(nodes, KeyOf(nodes[i])) == i
  {
    LookupIs(nodes, KeyOf(nodes[i]), i);
  }

  /** A polygon has at most as many nodes as there are states. */
  lemma FewPerPolygon(nodes: seq<Node>, id: bv32)
    requires Distinct(nodes) && States(nodes)
    ensures |NodesOf(nodes, id)| <= STATES
  {
    var s := NodesOf(nodes, id);
    NodesOfMembers(nodes, id);
    hide NodesOf;
    var t: seq<nat> := seq(|s|, k requires 0 <= k < |s| => nodes[s[k]].state);
    forall i, j | 0 <= i < j < |t| ensures t[i] != t[j] {
      assert KeyOf(nodes[s[j]]) != KeyOf(nodes[s[i]]);
    }
    SizeOfDistinct(t);
    var states := set k | 0 <= k < |t| :: t[k];
    assert states <= {0, 1, 2, 3};
    Fewer(states, {0, 1, 2, 3});
  }

  lemma Fewer<T>(a: set<T>, b: set<T>)
    requires a <= b
    ensures |a| <= |b|
  {
    assert b == a + (b - a);
  }

  lemma {:induction false} SizeOfDistinct(t: seq<nat>)
    requires forall i, j :: 0 <= i < j < |t| ==> t[i] != t[j]
    ensures |set k | 0 <= k < |t| :: t[k]| == |t|
  {
    if t != [] {
      var n := |t| - 1;
      SizeOfDistinct(t[..n]);
      var front := set k | 0 <= k < n :: t[..n][k];
      assert (set k | 0 <= k < |t| :: t[k]) == front + {t[n]};
    }
  }

  /** The nodes of a polygon, each once, in decreasing order. */
  ghost predicate Listing(s: seq<nat>, nodes: seq<Node>, id: bv32) {
    && (forall k :: 0 <= k < |s| ==> s[k] < |nodes| && nodes[s[k]].id == id)
    && (forall k, l :: 0 <= k < l < |s| ==> s[l] < s[k])
    && (forall i: nat :: i < |nodes| && nodes[i].id == id ==> i in s)
  }

  lemma {:induction false} NodesOfMembers(nodes: seq<Node>, id: bv32)
    ensures Listing(NodesOf(nodes, id), nodes, id)
  {
    if nodes != [] {
      var n := |nodes| - 1;
      NodesOfMembers(nodes[..n], id);
      var s := NodesOf(nodes[..n], id);
      if nodes[n].id == id { ListingMore([n as nat] + s, nodes, s, id); }
    }
  }

  lemma ListingMore(s': seq<nat>, nodes: seq<Node>, s: seq<nat>, id: bv32)
    requires |nodes| > 0 && Listing(s, nodes[..|nodes| - 1], id) && nodes[|nodes| - 1].id == id
             && s' == [(|nodes| - 1) as nat] + s
    ensures Listing(s', nodes, id)
  {
    var n := |nodes| - 1;
    forall i: nat | i < |nodes| && nodes[i].id == id ensures i in s' {
      if i < n { assert nodes[..n][i].id == id; }
    }
  }

  // ---- One more node ----

  lemma {:induction false} NewestOfPrefix(nodes: seq<Node>, node: Node, b: nat, hashSize: nat)
    requires hashSize >= 1
    ensures Newest(nodes + [node], b, hashSize) == if Bucket(node.id, hashSize) == b then |nodes|
            else Newest(nodes, b, hashSize)
  {
    assert (nodes + [node])[..|nodes|] == nodes;
  }

  /** Linking a new node in front of its chain. What was left in its `next` field before does not matter. */
  lemma ChainedMore(nodes: seq<Node>, first: seq<int>, next: seq<int>, node: Node)
    requires Chained(nodes, first, next) && |nodes| < |next|
    ensures var b := Bucket(node.id, |first|);
            Chained(nodes + [node], first[b := |nodes|], next[|nodes| := first[b]])
  {
    hide Newest, Bucket;
    var b, n, hashSize := Bucket(node.id, |first|), |nodes|, |first|;
    var nodes', first', next' := nodes + [node], first[b := n], next[n := first[b]];
    forall c: nat | c < hashSize ensures first'[c] == Newest(nodes', c, hashSize) {
      NewestOfPrefix(nodes, node, c, hashSize);
    }
    forall i | 0 <= i <= n ensures next'[i] == Newest(nodes'[..i], Bucket(nodes'[i].id, hashSize), hashSize) {
      assert nodes'[..i] == nodes[..i];
      if i == n { assert nodes[..n] == nodes; }
    }
  }

  lemma IndexMore(nodes: seq<Node>, node: Node)
    ensures Index(nodes + [node]) == Index(nodes)[KeyOf(node) := |nodes|]
  {
    assert (nodes + [node])[..|nodes|] == nodes;
  }

  lemma {:induction false} InIndex(nodes: seq<Node>, key: Key)
    ensures key in Index(nodes) ==> Index(nodes)[key] < |nodes| && KeyOf(nodes[Index(nodes)[key]]) == key
    ensures key !in Index(nodes) ==> forall i :: 0 <= i < |nodes| ==> KeyOf(nodes[i]) != key
  {
    if nodes != [] {
      InIndex(nodes[..|nodes| - 1], key);
    }
  }

  /** Adding a node keeps keys distinct exactly when its key is new. */
  lemma DistinctMore(nodes: seq<Node>, node: Node)
    requires Distinct(nodes)
    ensures Distinct(nodes + [node]) <==> KeyOf(node) !in Index(nodes)
  {
    InIndex(nodes, KeyOf(node));
    var nodes' := nodes + [node];
    if KeyOf(node) in Index(nodes) {
      var i := Index(nodes)[KeyOf(node)];
      assert KeyOf(nodes'[i]) == KeyOf(nodes'[|nodes|]);
    }
  }

  class NodePool {
    const nodes: array<Node>
    const first: array<int>
    const next: array<int>
    var nodeCount: nat

    ghost function Nodes(): seq<Node>
      requires nodeCount <= nodes.Length
      reads this, nodes
    {
      nodes[..nodeCount]
    }

    ghost predicate Valid()
      reads this, nodes, first, next
    {
      && first != next && nodes as object != first && nodes as object != next
      && nodeCount <= nodes.Length == next.Length <= NULL && first.Length >= 1
      && Chained(nodes[..nodeCount], first[..], next[..])
    }

    constructor (maxNodes: nat, hashSize: nat)
      requires 0 < maxNodes <= NULL && hashSize >= 1
      ensures first.Length == hashSize
      ensures Valid() && nodeCount == 0 && nodes.Length == maxNodes && fresh(nodes) && fresh(first) && fresh(next)
    {
      nodes := new Node[maxNodes](_ => Node(0.0, 0.0, 0, 0, 0, 0));
      first := new int[hashSize](_ => NULL);
      next := new int[maxNodes](_ => NULL);
      nodeCount := 0;
    }

    /** Forgets all nodes. The links are left as they are. */
    method Clear()
      requires Valid()
      modifies this, first
      ensures Valid() && nodeCount == 0
    {
      for b := 0 to first.Length
        invariant forall c :: 0 <= c < b ==> first[c] == NULL
      {
        first[b] := NULL;
      }
      nodeCount := 0;
    }

    method FindNode(id: bv32, state: nat) returns (node: int)
      requires Valid()
      ensures node == Lookup(Nodes(), Key(id, state))
    {
      hide Newest, Bucket, Index, Lookup;
      ghost var ns, hashSize := nodes[..nodeCount], first.Length;
      var bucket := Bucket(id, first.Length);
      ghost var k := nodeCount;
      assert ns[..k] == ns;
      node := first[bucket];
      while node != NULL
        invariant k <= nodeCount && node == Newest(ns[..k], bucket, hashSize)
        invariant forall j :: k <= j < nodeCount ==> KeyOf(ns[j]) != Key(id, state)
        decreases k
      {
        assert nodes[node] == ns[node];
        NewestInBucket(ns[..k], bucket, hashSize);
        SkippedKeys(ns, k, node, bucket, hashSize, id);
        if nodes[node].id == id && nodes[node].state == state {
          LookupIs(ns, Key(id, state), node);
          return;
        }
        assert next[..][node] == Newest(ns[..node], Bucket(ns[node].id, hashSize), hashSize);
        assert ns[..k][node] == ns[node];
        k := node;
        node := next[node];
      }
      SkippedKeys(ns, k, -1, bucket, hashSize, id);
      LookupFails(ns, Key(id, state));
    }

    /** Fills `found` with the first nodes of a polygon, newest first. */
    method FindNodes(id: bv32, found: array<nat>, maxNodes: int) returns (n: nat)
      requires Valid() && maxNodes <= found.Length && found as object != nodes && found as object != first
               && found as object != next
      modifies found
      ensures Valid() && n <= found.Length && found[..n] == First(NodesOf(Nodes(), id), maxNodes)
    {
      hide Newest, Bucket, NodesOf;
      ghost var ns, hashSize := nodes[..nodeCount], first.Length;
      var bucket := Bucket(id, first.Length);
      ghost var k := nodeCount;
      assert ns[..k] == ns;
      n := 0;
      var i := first[bucket];
      while i != NULL
        invariant k <= nodeCount && i == Newest(ns[..k], bucket, hashSize)
        invariant Valid() && nodes[..nodeCount] == ns && n <= found.Length && (n <= maxNodes || n == 0)
        invariant found[..n] + NodesOf(ns[..k], id) == NodesOf(ns, id)
        decreases k
      {
        assert nodes[i] == ns[i];
        NewestInBucket(ns[..k], bucket, hashSize);
        SkippedKeys(ns, k, i, bucket, hashSize, id);
        NodesOfStep(ns, k, i, id);
        ghost var sofar := found[..n];
        if nodes[i].id == id {
          if n >= maxNodes {
            return;
          }
          found[n] := i;
          n := n + 1;
          assert found[..n] == sofar + [i];
          assert sofar + ([i as nat] + NodesOf(ns[..i], id)) == sofar + [i] + NodesOf(ns[..i], id);
        }
        assert next[..][i] == Newest(ns[..i], Bucket(ns[i].id, hashSize), hashSize);
        assert ns[..k][i] == ns[i];
        k := i;
        i := next[i];
      }
      SkippedKeys(ns, k, -1, bucket, hashSize, id);
      NodesOfNone(ns, k, id);
    }

    /** Finds the node of a key, or makes one while there is room. A new node stores only two bits of the state. */
    method GetNode(id: bv32, state: nat) returns (node: int)
      requires Valid() && state < 0x100
      modifies this, nodes, first, next
      ensures Valid()
      ensures var before := old(Lookup(Nodes(), Key(id, state)));
              var made := Node(0.0, 0.0, 0, state % STATES, 0, id);
              if before != NULL then node == before && Nodes() == old(Nodes())
              else if old(nodeCount) < nodes.Length then node == old(nodeCount) && Nodes() == old(Nodes()) + [made]
              else node == NULL && Nodes() == old(Nodes())
      ensures Index(Nodes()) == if nodeCount == old(nodeCount) then old(Index(Nodes()))
                                else old(Index(Nodes()))[Key(id, state % STATES) := old(nodeCount)]
    {
      hide Chained, Newest, Bucket, Lookup, Index;
      node := FindNode(id, state);
      if node != NULL {
        return;
      }
      if nodeCount >= nodes.Length {
        return NULL;
      }
      ghost var ns, first0, next0 := nodes[..nodeCount], first[..], next[..];
      var i := nodeCount;
      var bucket := Bucket(id, first.Length);
      var made := Node(0.0, 0.0, 0, state % STATES, 0, id);
      ChainedMore(ns, first0, next0, made);
      IndexMore(ns, made);
      nodeCount := nodeCount + 1;
      nodes[i] := made;
      next[i] := first[bucket];
      first[bucket] := i;
      assert nodes[..nodeCount] == ns + [made] && first[..] == first0[bucket := i]
             && next[..] == next0[i := first0[bucket]];
      node := i;
    }
  }

  /** Between a chain's node and the place looked from, no node has the id. */
  lemma SkippedKeys(ns: seq<Node>, k: nat, i: int, bucket: nat, hashSize: nat, id: bv32)
    requires hashSize >= 1 && k <= |ns| <= NULL && bucket == Bucket(id, hashSize)
    requires if i == -1 then Newest(ns[..k], bucket, hashSize) == NULL
             else i == Newest(ns[..k], bucket, hashSize) != NULL
    ensures -1 <= i < k && forall j :: i < j < k ==> ns[j].id != id
  {
    hide Newest, Bucket;
    forall j | i < j < k ensures ns[j].id != id {
      if j >= 0 { NewestSkips(ns[..k], bucket, hashSize, j); }
    }
  }

  lemma NodesOfStep(ns: seq<Node>, k: nat, i: nat, id: bv32)
    requires i < k <= |ns| && forall j :: i < j < k ==> ns[j].id != id
    ensures NodesOf(ns[..k], id) == (if ns[i].id == id then [i] else []) + NodesOf(ns[..i], id)
  {
    assert ns[..k] == ns[..i + 1] + ns[i + 1..k];
    NodesOfAppend(ns[..i + 1], ns[i + 1..k], id);
    assert ns[..i + 1][..i] == ns[..i];
  }

  lemma NodesOfNone(ns: seq<Node>, k: nat, id: bv32)
    requires k <= |ns| && forall j :: 0 <= j < k ==> ns[j].id != id
    ensures NodesOf(ns[..k], id) == []
  {
    NodesOfAppend([], ns[..k], id);
    assert [] + ns[..k] == ns[..k];
  }

  /** Asked for with a state that fits its field, a key keeps at most one node. */
  lemma GetKeepsDistinct(ns: seq<Node>, id: bv32, state: nat)
    requires Distinct(ns) && States(ns) && Lookup(ns, Key(id, state)) == NULL && |ns| <= NULL
    ensures var made := Node(0.0, 0.0, 0, state % STATES, 0, id);
            States(ns + [made]) && (Distinct(ns + [made]) <==> state < STATES || Key(id, state % STATES) !in Index(ns))
  {
    var made := Node(0.0, 0.0, 0, state % STATES, 0, id);
    InIndex(ns, Key(id, state));
    DistinctMore(ns, made);
  }

  /** Asking twice for the state 4 makes two nodes of one key: the field keeps only two bits. */
  method WideStateExample(id: bv32) returns (pool: NodePool, a: int, b: int)
    ensures fresh(pool) && pool.Valid() && a == 0 && b == 1 && !Distinct(pool.Nodes())
  {
    hide Lookup, Index, Chained, HashRef;
    var made := Node(0.0, 0.0, 0, 0, 0, id);
    pool := new NodePool(2, 1);
    assert pool.Nodes() == [];
    LookupFails([], Key(id, 4));
    a := pool.GetNode(id, 4);
    assert pool.Nodes() == [made];
    LookupFails([made], Key(id, 4));
    b := pool.GetNode(id, 4);
    assert pool.Nodes() == [made, made];
    assert KeyOf([made, made][0]) == KeyOf([made, made][1]);
  }
}
