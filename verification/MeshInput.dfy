/** What a mesh builder is given for a polygon. */
module MeshInput {

  /** Marks the vertex slots that a polygon does not use. */
  const MESH_NULL_IDX: nat := 0xffff

  /** The slots in use from slot j on: those before the first null index. */
  function VertCountFrom(verts: seq<nat>, j: nat): (n: nat)
    ensures j <= |verts| ==> j + n <= |verts|
    decreases |verts| - j
  {
    if j >= |verts| || verts[j] == MESH_NULL_IDX then 0 else 1 + VertCountFrom(verts, j + 1)
  }

  function VertCount(verts: seq<nat>): nat {
    VertCountFrom(verts, 0)
  }

  /** All slots counted are in use, and the next one, if there is one, is not. */
  lemma {:induction false} CountedSlots(verts: seq<nat>, j: nat)
    requires j <= |verts|
    ensures var n := j + VertCountFrom(verts, j);
            (forall k :: j <= k < n ==> verts[k] != MESH_NULL_IDX) && (n < |verts| ==> verts[n] == MESH_NULL_IDX)
    decreases |verts| - j
  {
    if j < |verts| && verts[j] != MESH_NULL_IDX {
      CountedSlots(verts, j + 1);
    }
  }
}
