/**
 * The node records of export_jbeam.py (class NGnode) and the loop of
 * `ExportJbeam.execute` that builds one of them per mesh vertex.
 *
 * Coordinates are integers counting thousandths of a unit: the value that
 * `round(…, 3)` leaves, scaled by 1000.
 */
module Nodes {
  import opened Wrappers

  /** A vertex position or an offset, in thousandths. */
  datatype Vec3 = Vec3(x: int, y: int, z: int)

  /**
   * NGnode: the index of the vertex it came from, its name (the node prefix
   * until the naming loop extends it) and its rounded coordinates.
   */
  datatype NGnode = NGnode(i: nat, nodeName: string, x: int, y: int, z: int)

  /** The coordinates of a node. */
  function Position(n: NGnode): Vec3
  {
    Vec3(n.x, n.y, n.z)
  }

  /** The object's `JbeamNodePrefix` property, or "n" when the object has none. */
  function NodePrefix(property: Option<string>): string
  {
    match property
    case Some(prefix) => prefix
    case None => "n"
  }

  /** The node of vertex number `index`: its position moved by the object's delta location. */
  function MakeNode(index: nat, v: Vec3, prefix: string, delta: Vec3): NGnode
  {
    NGnode(index, prefix, v.x + delta.x, v.y + delta.y, v.z + delta.z)
  }

  /** The list `nodes` as the building loop leaves it. */
  function NodesOf(vertices: seq<Vec3>, prefix: string, delta: Vec3): seq<NGnode>
  {
    seq(|vertices|, k requires 0 <= k < |vertices| => MakeNode(k, vertices[k], prefix, delta))
  }

  /**
   * The node-building loop: one node per mesh vertex, in vertex order, each
   * carrying its vertex index, the prefix and the offset position.
   */
  method BuildNodes(vertices: seq<Vec3>, prefix: string, delta: Vec3) returns (nodes: seq<NGnode>)
    ensures |nodes| == |vertices|
    ensures forall k :: 0 <= k < |nodes| ==>
      nodes[k].i == k && nodes[k].nodeName == prefix &&
      nodes[k].x == vertices[k].x + delta.x &&
      nodes[k].y == vertices[k].y + delta.y &&
      nodes[k].z == vertices[k].z + delta.z
    ensures nodes == NodesOf(vertices, prefix, delta)
  {
    nodes := [];
    for k := 0 to |vertices|
      invariant |nodes| == k
      invariant forall j :: 0 <= j < k ==> nodes[j] == MakeNode(j, vertices[j], prefix, delta)
    {
      var v := vertices[k];
      var node := NGnode(k, prefix, v.x + delta.x, v.y + delta.y, v.z + delta.z);
      nodes := nodes + [node];
    }
  }
}
