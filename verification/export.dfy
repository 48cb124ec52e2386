/**
 * `ExportJbeam.execute` (export_jbeam.py) end to end: for each selected mesh
 * object, build the nodes, sort them, name them while writing the node
 * section, write the beam section; a failed beam lookup aborts the batch.
 */
module Export {
  import opened Wrappers
  import opened Sequences
  import opened Decimal
  import opened Nodes
  import opened Sorting
  import opened Naming
  import opened Beams
  import opened Output

  /**
   * What the exporter reads of one selected mesh object: its name, the
   * positions of its vertices with the object's transform already applied,
   * its edges, its `JbeamNodePrefix` property if it has one, and its delta
   * location.
   */
  datatype MeshObject = MeshObject(
    name: string,
    vertices: seq<Vec3>,
    edges: seq<Edge>,
    prefixProperty: Option<string>,
    deltaLocation: Vec3)

  /** `sortedNodes` before the naming loop. */
  function SortedNodesOf(obj: MeshObject): seq<NGnode>
  {
    SortNodes(NodesOf(obj.vertices, NodePrefix(obj.prefixProperty), obj.deltaLocation))
  }

  /** `sortedNodes` after the naming loop. */
  function NamedNodes(obj: MeshObject): seq<NGnode>
  {
    Renamed(SortedNodesOf(obj))
  }

  /** What is written to the object's file, and whether its export finished. */
  function ExportText(obj: MeshObject): Written
  {
    var named := NamedNodes(obj);
    var beams := BeamLines(named, obj.edges);
    Written([NodesHeader] + NodeLines(named, obj.deltaLocation) + [BeamsHeader] + beams.lines, beams.ok)
  }

  /** The export of one object: the rows written to its file and whether it finished. */
  method ExportObject(obj: MeshObject) returns (out: seq<Row>, ok: bool)
    ensures Written(out, ok) == ExportText(obj)
  {
    var nodePrefix := NodePrefix(obj.prefixProperty);
    var nodes := BuildNodes(obj.vertices, nodePrefix, obj.deltaLocation);
    var sorted := SortNodes(nodes);
    assert sorted == SortedNodesOf(obj);
    var sortedNodes := new NGnode[|sorted|](k requires 0 <= k < |sorted| => sorted[k]);
    assert sortedNodes[..] == sorted;
    var nodeLines := NameAndWriteNodes(sortedNodes, obj.deltaLocation);
    ghost var named := sortedNodes[..];
    assert named == NamedNodes(obj);
    var beamLines;
    beamLines, ok := WriteBeams(sortedNodes[..], obj.edges);
    out := nodeLines + [BeamsHeader] + beamLines;
    assert out == [NodesHeader] + NodeLines(named, obj.deltaLocation) + [BeamsHeader] + beamLines;
  }

  /** The vertex indices of nodes are kept by renaming. */
  lemma IdsRenamed(s: seq<NGnode>)
    ensures Ids(Renamed(s)) == Ids(s)
  {
  }

  /**
   * A permutation of nodes built in vertex order holds, at each position, the
   * node built from the vertex whose index it carries, and holds every one of them.
   */
  lemma PermutationOfBuilt(nodes: seq<NGnode>, s: seq<NGnode>)
    requires forall j :: 0 <= j < |nodes| ==> nodes[j].i == j
    requires multiset(s) == multiset(nodes)
    ensures |s| == |nodes|
    ensures forall k :: 0 <= k < |s| ==> s[k].i < |nodes| && s[k] == nodes[s[k].i]
    ensures forall v :: 0 <= v < |nodes| ==> v in Ids(s)
  {
    assert |s| == |multiset(s)| == |multiset(nodes)| == |nodes|;
    forall k | 0 <= k < |s| ensures s[k].i < |nodes| && s[k] == nodes[s[k].i] {
      assert s[k] in multiset(nodes);
      var j :| 0 <= j < |nodes| && nodes[j] == s[k];
    }
    forall v | 0 <= v < |nodes| ensures v in Ids(s) {
      assert nodes[v] in multiset(s);
      var k :| 0 <= k < |s| && s[k] == nodes[v];
      assert Ids(s)[k] == v;
    }
  }

  /** Strictly ordered nodes drawn from one node per vertex carry distinct vertex indices. */
  lemma SortedIdsDistinct(nodes: seq<NGnode>, s: seq<NGnode>)
    requires forall k :: 0 <= k < |s| ==> s[k].i < |nodes| && s[k] == nodes[s[k].i]
    requires forall p, q :: 0 <= p < q < |s| ==> NetBefore(s[p], s[q])
    ensures forall p, q :: 0 <= p < q < |s| ==> s[p].i != s[q].i
  {
    forall p, q | 0 <= p < q < |s| ensures s[p].i != s[q].i {
      assert NetBefore(s[p], s[q]);
      assert !NetBefore(s[p], s[p]);
      assert nodes[s[p].i] != nodes[s[q].i];
    }
  }

  /** `SortedNodesFacts` for any list of nodes built in vertex order. */
  lemma SortFacts(nodes: seq<NGnode>, s: seq<NGnode>)
    requires forall j :: 0 <= j < |nodes| ==> nodes[j].i == j
    requires s == SortNodes(nodes)
    ensures |s| == |nodes|
    ensures forall p, q :: 0 <= p < q < |s| ==> NetBefore(s[p], s[q])
    ensures forall k :: 0 <= k < |s| ==> s[k].i < |nodes| && s[k] == nodes[s[k].i]
    ensures forall v :: 0 <= v < |nodes| <==> v in Ids(s)
    ensures forall p, q :: 0 <= p < q < |s| ==> s[p].i != s[q].i
  {
    assert forall p, q :: 0 <= p < q < |nodes| ==> nodes[p].i < nodes[q].i;
    ThreePassIsLexicographic(nodes);
    assert multiset(s) == multiset(nodes);
    PermutationOfBuilt(nodes, s);
    SortedIdsDistinct(nodes, s);
    forall v | v in Ids(s) ensures 0 <= v < |nodes| {
      var k :| 0 <= k < |s| && Ids(s)[k] == v;
    }
  }

  /**
   * The sorted nodes of an object: one per vertex, in the net sort order,
   * node `k` being the node built from the vertex whose index it carries;
   * every vertex index is carried by exactly one node.
   */
  lemma SortedNodesFacts(obj: MeshObject)
    ensures var s, nodes := SortedNodesOf(obj), NodesOf(obj.vertices, NodePrefix(obj.prefixProperty), obj.deltaLocation);
      && |s| == |obj.vertices|
      && (forall p, q :: 0 <= p < q < |s| ==> NetBefore(s[p], s[q]))
      && (forall k :: 0 <= k < |s| ==> s[k].i < |nodes| && s[k] == nodes[s[k].i])
      && (forall v :: 0 <= v < |obj.vertices| <==> v in Ids(s))
      && (forall p, q :: 0 <= p < q < |s| ==> s[p].i != s[q].i)
  {
    SortFacts(NodesOf(obj.vertices, NodePrefix(obj.prefixProperty), obj.deltaLocation), SortedNodesOf(obj));
  }

  /**
   * `r` holds one node per vertex, in the net sort order; node `k` carries a
   * vertex index, the position of that vertex moved by `d`, and the name
   * `prefix` + side marker + `k`; every vertex index is carried by exactly
   * one node, and no two nodes share a name.
   */
  ghost predicate NamedShape(r: seq<NGnode>, vertices: seq<Vec3>, prefix: string, d: Vec3)
  {
    && |r| == |vertices|
    && (forall p, q :: 0 <= p < q < |r| ==> NetBefore(r[p], r[q]))
    && (forall k :: 0 <= k < |r| ==>
          r[k].i < |vertices| &&
          r[k].x == vertices[r[k].i].x + d.x &&
          r[k].y == vertices[r[k].i].y + d.y &&
          r[k].z == vertices[r[k].i].z + d.z &&
          r[k].nodeName == NodeName(prefix, r[k].x, k))
    && (forall v :: 0 <= v < |vertices| <==> v in Ids(r))
    && (forall p, q :: 0 <= p < q < |r| ==> r[p].i != r[q].i && r[p].nodeName != r[q].nodeName)
  }

  /** `NamedNodesFacts` for any sorted list of nodes built from `vertices`. */
  lemma RenamedFacts(s: seq<NGnode>, vertices: seq<Vec3>, prefix: string, d: Vec3)
    requires |s| == |vertices|
    requires forall p, q :: 0 <= p < q < |s| ==> NetBefore(s[p], s[q])
    requires forall k :: 0 <= k < |s| ==> s[k].i < |vertices| && s[k] == MakeNode(s[k].i, vertices[s[k].i], prefix, d)
    requires forall v :: 0 <= v < |vertices| <==> v in Ids(s)
    requires forall p, q :: 0 <= p < q < |s| ==> s[p].i != s[q].i
    ensures NamedShape(Renamed(s), vertices, prefix, d)
  {
    RenamedNames(s, prefix);
    IdsRenamed(s);
  }

  /**
   * The named nodes of an object have the `NamedShape` of its vertices, its
   * prefix and its delta location.
   */
  lemma NamedNodesFacts(obj: MeshObject)
    ensures NamedShape(NamedNodes(obj), obj.vertices, NodePrefix(obj.prefixProperty), obj.deltaLocation)
  {
    SortedNodesFacts(obj);
    RenamedFacts(SortedNodesOf(obj), obj.vertices, NodePrefix(obj.prefixProperty), obj.deltaLocation);
  }

  /**
   * Every name of an object's export reads back, under the object's prefix
   * ("n" when it has no `JbeamNodePrefix` property), as its node's side
   * marker and rank.
   */
  lemma NamesReadBack(obj: MeshObject)
    ensures var r := NamedNodes(obj);
      forall k :: 0 <= k < |r| ==>
        ParseNodeName(NodePrefix(obj.prefixProperty), r[k].nodeName) == Some((Marker(r[k].x), k))
    ensures obj.prefixProperty.None? ==> forall k :: 0 <= k < |NamedNodes(obj)| ==> "n" <= NamedNodes(obj)[k].nodeName
    ensures obj.prefixProperty.Some? ==>
      forall k :: 0 <= k < |NamedNodes(obj)| ==> obj.prefixProperty.value <= NamedNodes(obj)[k].nodeName
  {
    var r, prefix := NamedNodes(obj), NodePrefix(obj.prefixProperty);
    NamedNodesFacts(obj);
    forall k | 0 <= k < |r|
      ensures ParseNodeName(prefix, r[k].nodeName) == Some((Marker(r[k].x), k))
      ensures prefix <= r[k].nodeName
    {
      NodeNameRoundTrip(prefix, r[k].x, k);
    }
  }

  /** An object's export finishes exactly when every edge joins two of its vertices. */
  lemma ExportOk(obj: MeshObject)
    ensures ExportText(obj).ok <==>
      forall j :: 0 <= j < |obj.edges| ==> obj.edges[j].v0 < |obj.vertices| && obj.edges[j].v1 < |obj.vertices|
  {
    NamedNodesFacts(obj);
    BeamLinesOk(NamedNodes(obj), obj.edges);
  }

  lemma SectionsLayout(nodeLines: seq<Row>, beamLines: seq<Row>, out: seq<Row>, n: nat)
    requires out == [NodesHeader] + nodeLines + [BeamsHeader] + beamLines
    requires |nodeLines| == n
    ensures |out| == n + 2 + |beamLines|
    ensures out[0] == NodesHeader && out[n + 1] == BeamsHeader
    ensures forall k :: 0 <= k < n ==> out[k + 1] == nodeLines[k]
    ensures forall j :: 0 <= j < |beamLines| ==> out[n + 2 + j] == beamLines[j]
  {
  }

  /** Node lines placed in `out` from position 1 on print each vertex moved twice by `d`. */
  lemma NodeSection(r: seq<NGnode>, vertices: seq<Vec3>, d: Vec3, nodeLines: seq<Row>, out: seq<Row>)
    requires nodeLines == NodeLines(r, d)
    requires |r| == |vertices| && |out| > |vertices|
    requires forall k :: 0 <= k < |vertices| ==> out[k + 1] == nodeLines[k]
    requires forall k :: 0 <= k < |r| ==>
      r[k].i < |vertices| &&
      r[k].x == vertices[r[k].i].x + d.x && r[k].y == vertices[r[k].i].y + d.y && r[k].z == vertices[r[k].i].z + d.z
    ensures forall k :: 0 <= k < |vertices| ==>
      out[k + 1] == NodeLine(r[k], d) &&
      r[k].i < |vertices| &&
      r[k].x + d.x == vertices[r[k].i].x + 2 * d.x &&
      r[k].y + d.y == vertices[r[k].i].y + 2 * d.y &&
      r[k].z + d.z == vertices[r[k].i].z + 2 * d.z
  {
    forall k | 0 <= k < |vertices| ensures out[k + 1] == NodeLine(r[k], d) {
      assert out[k + 1] == nodeLines[k];
    }
  }

  /** Beam lines placed in `out` after `n` node lines and two headers name the nodes their edges join. */
  lemma BeamSection(r: seq<NGnode>, edges: seq<Edge>, beamLines: seq<Row>, out: seq<Row>, n: nat)
    requires BeamLines(r, edges).ok && beamLines == BeamLines(r, edges).lines
    requires forall p, q :: 0 <= p < q < |r| ==> r[p].i != r[q].i
    requires |r| == n && |beamLines| == |edges| && |out| == n + 2 + |edges|
    requires forall j :: 0 <= j < |beamLines| ==> out[n + 2 + j] == beamLines[j]
    ensures forall j, p, q ::
      (0 <= j < |edges| && 0 <= p < n && 0 <= q < n && r[p].i == edges[j].v0 && r[q].i == edges[j].v1) ==>
      out[n + 2 + j] == BeamRow(r[p].nodeName, r[q].nodeName)
  {
    BeamLinesComplete(r, edges);
    forall j, p, q | 0 <= j < |edges| && 0 <= p < n && 0 <= q < n && r[p].i == edges[j].v0 && r[q].i == edges[j].v1
      ensures out[n + 2 + j] == BeamRow(r[p].nodeName, r[q].nodeName)
    {
      var t := BeamRow(r[p].nodeName, r[q].nodeName);
      assert beamLines[j] == t;
      assert out[n + 2 + j] == beamLines[j];
    }
  }

  /**
   * Row `n + 2 + j` of `out` is the beam of edge `j`, naming the nodes among
   * the first `n` of `r` that carry its two vertex indices.
   */
  ghost predicate BeamsResolved(r: seq<NGnode>, edges: seq<Edge>, out: seq<Row>, n: nat)
    requires n <= |r| && |out| == n + 2 + |edges|
  {
    forall j, p, q ::
      (0 <= j < |edges| && 0 <= p < n && 0 <= q < n && r[p].i == edges[j].v0 && r[q].i == edges[j].v1) ==>
      out[n + 2 + j] == BeamRow(r[p].nodeName, r[q].nodeName)
  }

  /**
   * The layout of rows written for nodes `r` and `edges` when the beam loop
   * finishes, `r` holding nodes placed at their vertex moved by `d`.
   */
  lemma Layout(r: seq<NGnode>, vertices: seq<Vec3>, d: Vec3, edges: seq<Edge>, out: seq<Row>)
    requires BeamLines(r, edges).ok
    requires out == [NodesHeader] + NodeLines(r, d) + [BeamsHeader] + BeamLines(r, edges).lines
    requires |r| == |vertices|
    requires forall k :: 0 <= k < |r| ==>
      r[k].i < |vertices| &&
      r[k].x == vertices[r[k].i].x + d.x && r[k].y == vertices[r[k].i].y + d.y && r[k].z == vertices[r[k].i].z + d.z
    requires forall p, q :: 0 <= p < q < |r| ==> r[p].i != r[q].i
    ensures var n := |vertices|;
      && |out| == n + 2 + |edges|
      && out[0] == NodesHeader
      && (forall k :: 0 <= k < n ==>
            out[k + 1] == NodeLine(r[k], d) &&
            r[k].i < n &&
            r[k].x + d.x == vertices[r[k].i].x + 2 * d.x &&
            r[k].y + d.y == vertices[r[k].i].y + 2 * d.y &&
            r[k].z + d.z == vertices[r[k].i].z + 2 * d.z)
      && out[n + 1] == BeamsHeader
      && BeamsResolved(r, edges, out, n)
  {
    var n := |vertices|;
    var nodeLines, beamLines := NodeLines(r, d), BeamLines(r, edges).lines;
    BeamLinesComplete(r, edges);
    SectionsLayout(nodeLines, beamLines, out, n);
    NodeSection(r, vertices, d, nodeLines, out);
    BeamSection(r, edges, beamLines, out, n);
  }

  /**
   * The layout of a finished export: the node header, one line per named
   * node in sorted order, whose printed coordinates are its vertex's position
   * plus twice the delta location, the beam header, and one line per edge, in edge order, naming
   * the nodes that carry the edge's two vertex indices.
   */
  lemma ExportLayout(obj: MeshObject)
    requires ExportText(obj).ok
    ensures var out, r, d, n := ExportText(obj).lines, NamedNodes(obj), obj.deltaLocation, |obj.vertices|;
      && |r| == n
      && |out| == n + 2 + |obj.edges|
      && out[0] == NodesHeader
      && (forall k :: 0 <= k < n ==>
            out[k + 1] == NodeLine(r[k], d) &&
            r[k].i < n &&
            r[k].x + d.x == obj.vertices[r[k].i].x + 2 * d.x &&
            r[k].y + d.y == obj.vertices[r[k].i].y + 2 * d.y &&
            r[k].z + d.z == obj.vertices[r[k].i].z + 2 * d.z)
      && out[n + 1] == BeamsHeader
      && BeamsResolved(r, obj.edges, out, n)
  {
    NamedNodesFacts(obj);
    Layout(NamedNodes(obj), obj.vertices, obj.deltaLocation, obj.edges, ExportText(obj).lines);
  }

  /** `BeamLinesFailure` for nodes carrying exactly the vertex indices below `n`. */
  lemma BeamsFailure(r: seq<NGnode>, n: nat, edges: seq<Edge>, j: nat)
    requires forall v :: 0 <= v < n <==> v in Ids(r)
    requires forall p, q :: 0 <= p < q < |r| ==> r[p].i != r[q].i
    requires j < |edges|
    requires forall k :: 0 <= k < j ==> edges[k].v0 < n && edges[k].v1 < n
    requires edges[j].v0 >= n || edges[j].v1 >= n
    ensures var e, w := edges[j], BeamLines(r, edges);
      && !w.ok
      && w.lines == BeamLines(r, edges[..j]).lines + BeamLine(r, e).lines
      && (e.v0 >= n ==> BeamLine(r, e).lines == [])
      && (forall p :: 0 <= p < |r| && r[p].i == e.v0 && e.v1 >= n ==> BeamLine(r, e).lines == [BeamStartRow(r[p].nodeName)])
  {
    BeamLinesFailure(r, edges, j);
    BeamLineResolves(r, edges[j]);
  }

  /**
   * When edge `j` is the first to name a vertex the object does not have,
   * the file holds the node section, the beam header, the lines of the edges
   * before `j`, then nothing more if its first endpoint is missing, or the
   * start of its line naming the first endpoint's node if only the second is.
   */
  lemma ExportFailure(obj: MeshObject, j: nat)
    requires j < |obj.edges|
    requires forall k :: 0 <= k < j ==> obj.edges[k].v0 < |obj.vertices| && obj.edges[k].v1 < |obj.vertices|
    requires obj.edges[j].v0 >= |obj.vertices| || obj.edges[j].v1 >= |obj.vertices|
    ensures var r, e := NamedNodes(obj), obj.edges[j];
      && !ExportText(obj).ok
      && ExportText(obj).lines ==
           [NodesHeader] + NodeLines(r, obj.deltaLocation) + [BeamsHeader] +
           BeamLines(r, obj.edges[..j]).lines + BeamLine(r, e).lines
      && (e.v0 >= |obj.vertices| ==> BeamLine(r, e).lines == [])
      && (forall p :: 0 <= p < |r| && r[p].i == e.v0 && e.v1 >= |obj.vertices| ==>
            BeamLine(r, e).lines == [BeamStartRow(r[p].nodeName)])
  {
    var r := NamedNodes(obj);
    NamedNodesFacts(obj);
    BeamsFailure(r, |obj.vertices|, obj.edges, j);
    var head := [NodesHeader] + NodeLines(r, obj.deltaLocation) + [BeamsHeader];
    assert ExportText(obj).lines == head + BeamLines(r, obj.edges).lines;
    AppendAssoc(head, BeamLines(r, obj.edges[..j]).lines, BeamLine(r, obj.edges[j]).lines);
  }

  lemma NodesOfMoved(vertices: seq<Vec3>, prefix: string, d1: Vec3, d2: Vec3)
    ensures NodesOf(vertices, prefix, d2) == MovedAll(NodesOf(vertices, prefix, d1), Diff(d2, d1))
  {
  }

  lemma IdsMoved(s: seq<NGnode>, d: Vec3)
    ensures Ids(MovedAll(s, d)) == Ids(s)
  {
  }

  /** The difference `b - a` of two locations. */
  function Diff(b: Vec3, a: Vec3): Vec3
  {
    Vec3(b.x - a.x, b.y - a.y, b.z - a.z)
  }

  lemma SortedNodesMoved(vertices: seq<Vec3>, prefix: string, d1: Vec3, d2: Vec3)
    ensures SortNodes(NodesOf(vertices, prefix, d2)) == MovedAll(SortNodes(NodesOf(vertices, prefix, d1)), Diff(d2, d1))
  {
    NodesOfMoved(vertices, prefix, d1, d2);
    SortNodesMoved(NodesOf(vertices, prefix, d1), Diff(d2, d1));
  }

  /**
   * Changing the object's delta location moves every node by the difference
   * and leaves the sort order, and so the vertex index at each rank, as it was.
   */
  lemma OffsetKeepsOrder(obj: MeshObject, delta: Vec3)
    ensures var d := Diff(delta, obj.deltaLocation);
      && SortedNodesOf(obj.(deltaLocation := delta)) == MovedAll(SortedNodesOf(obj), d)
      && Ids(SortedNodesOf(obj.(deltaLocation := delta))) == Ids(SortedNodesOf(obj))
  {
    SortedNodesMoved(obj.vertices, NodePrefix(obj.prefixProperty), obj.deltaLocation, delta);
    IdsMoved(SortedNodesOf(obj), Diff(delta, obj.deltaLocation));
  }

  /** Moving a vertex by `d`. */
  function Shift(d: Vec3): Vec3 -> Vec3
  {
    (v: Vec3) => Vec3(v.x + d.x, v.y + d.y, v.z + d.z)
  }

  lemma NodesPositions(vertices: seq<Vec3>, prefix: string, d: Vec3)
    ensures Map(NodesOf(vertices, prefix, d), Position) == Map(vertices, Shift(d))
  {
    var nodes := NodesOf(vertices, prefix, d);
    forall k | 0 <= k < |nodes| ensures Map(nodes, Position)[k] == Map(vertices, Shift(d))[k] {
      MapAt(nodes, Position, k);
      MapAt(vertices, Shift(d), k);
    }
  }

  lemma SortedPositionsPermuted(vertices: seq<Vec3>, prefix: string, d: Vec3, s: seq<NGnode>)
    requires s == SortNodes(NodesOf(vertices, prefix, d))
    ensures multiset(Map(s, Position)) == multiset(Map(vertices, Shift(d)))
  {
    MapPermutation(s, NodesOf(vertices, prefix, d), Position);
    NodesPositions(vertices, prefix, d);
  }

  /**
   * The sorted nodes of `vertices` carry, in the net order, the positions of
   * the vertices moved by `d`, and the prefix as their names.
   */
  lemma SortedPositions(vertices: seq<Vec3>, prefix: string, d: Vec3, s: seq<NGnode>)
    requires s == SortNodes(NodesOf(vertices, prefix, d))
    ensures multiset(Map(s, Position)) == multiset(Map(vertices, Shift(d)))
    ensures forall p, q :: 0 <= p < q < |s| ==> NetAtMost(Map(s, Position)[p], Map(s, Position)[q])
    ensures forall k :: 0 <= k < |s| ==> s[k].nodeName == prefix
  {
    var nodes := NodesOf(vertices, prefix, d);
    SortedPositionsPermuted(vertices, prefix, d, s);
    SortFacts(nodes, s);
    PositionsInNetOrder(s);
    forall k | 0 <= k < |s| ensures s[k].nodeName == prefix {
      assert s[k] == nodes[s[k].i];
    }
  }

  lemma PositionsInNetOrder(s: seq<NGnode>)
    requires forall p, q :: 0 <= p < q < |s| ==> NetBefore(s[p], s[q])
    ensures forall p, q :: 0 <= p < q < |s| ==> NetAtMost(Map(s, Position)[p], Map(s, Position)[q])
  {
    forall p, q | 0 <= p < q < |s| ensures NetAtMost(Map(s, Position)[p], Map(s, Position)[q]) {
      MapAt(s, Position, p);
      MapAt(s, Position, q);
    }
  }

  /**
   * The node section does not depend on the order of the mesh's vertices:
   * any reordering of them gives the same node lines, names included.
   */
  lemma PermutedVerticesSameNodeRows(obj: MeshObject, vs: seq<Vec3>)
    requires multiset(vs) == multiset(obj.vertices)
    ensures NodeLines(NamedNodes(obj.(vertices := vs)), obj.deltaLocation) == NodeLines(NamedNodes(obj), obj.deltaLocation)
  {
    var prefix, d := NodePrefix(obj.prefixProperty), obj.deltaLocation;
    var s1, s2 := SortedNodesOf(obj), SortedNodesOf(obj.(vertices := vs));
    SortedPositions(obj.vertices, prefix, d, s1);
    SortedPositions(vs, prefix, d, s2);
    MapPermutation(vs, obj.vertices, Shift(d));
    NetAtMostUnique(Map(s2, Position), Map(s1, Position));
    NodeLinesByPosition(s2, s1, prefix, d);
  }

  /**
   * The side marker follows the offset coordinate, so a delta location can
   * change node names: a lone vertex at the origin is "n0" with no offset and
   * "nl0" once the object is moved to positive x.
   */
  lemma OffsetCanRename(obj: MeshObject)
    requires obj.vertices == [Vec3(0, 0, 0)] && obj.prefixProperty == None && obj.deltaLocation == Vec3(0, 0, 0)
    ensures var r, moved := NamedNodes(obj), NamedNodes(obj.(deltaLocation := Vec3(1000, 0, 0)));
      && |r| == 1 && r[0].nodeName == "n0"
      && |moved| == 1 && moved[0].nodeName == "nl0"
  {
    var moved := obj.(deltaLocation := Vec3(1000, 0, 0));
    NamedNodesFacts(obj);
    NamedNodesFacts(moved);
    assert NatToString(0) == "0";
  }

  /** The file an object is written to, in the `.blend` file's directory. */
  function FileName(obj: MeshObject): string
  {
    obj.name + ".jbeam"
  }

  /** What one object's export leaves behind: the file it wrote and whether it finished. */
  datatype Outcome = Outcome(file: string, written: Written)

  function Outcomes(objs: seq<MeshObject>): seq<Outcome>
  {
    seq(|objs|, k requires 0 <= k < |objs| => Outcome(FileName(objs[k]), ExportText(objs[k])))
  }

  /** The files written by a run, by name, and whether the run was aborted. */
  datatype BatchResult = BatchResult(files: map<string, seq<Row>>, aborted: bool)

  /**
   * A run over objects with outcomes `os`, after `files` were written: each
   * object's file is (over)written, and the first export that fails ends the run.
   */
  function BatchFrom(os: seq<Outcome>, files: map<string, seq<Row>>): BatchResult
  {
    if os == [] then BatchResult(files, false)
    else
      var files' := files[os[0].file := os[0].written.lines];
      if !os[0].written.ok then BatchResult(files', true) else BatchFrom(os[1..], files')
  }

  /**
   * The whole command over the selected mesh objects. Without a saved
   * `.blend` file there is no directory to write to and nothing is written.
   */
  method ExportBatch(blendSaved: bool, objs: seq<MeshObject>) returns (files: map<string, seq<Row>>, aborted: bool)
    ensures !blendSaved ==> files == map[] && !aborted
    ensures blendSaved ==> BatchResult(files, aborted) == BatchFrom(Outcomes(objs), map[])
  {
    files, aborted := map[], false;
    if !blendSaved {
      return;
    }
    ghost var os := Outcomes(objs);
    var j := 0;
    while j < |objs|
      invariant 0 <= j <= |objs|
      invariant BatchFrom(os, map[]) == BatchFrom(os[j..], files)
    {
      assert os[j..][0] == os[j] && os[j..][1..] == os[j + 1..];
      var out, ok := ExportObject(objs[j]);
      files := files[FileName(objs[j]) := out];
      if !ok {
        aborted := true;
        return;
      }
      j := j + 1;
    }
  }

  /** A run is aborted exactly when some object's export fails. */
  lemma {:induction false} BatchAborted(os: seq<Outcome>, files: map<string, seq<Row>>)
    ensures BatchFrom(os, files).aborted <==> exists j :: 0 <= j < |os| && !os[j].written.ok
  {
    if os != [] {
      BatchAborted(os[1..], files[os[0].file := os[0].written.lines]);
      if exists j :: 0 <= j < |os| && !os[j].written.ok {
        var j :| 0 <= j < |os| && !os[j].written.ok;
        if j > 0 {
          assert os[1..][j - 1] == os[j];
        }
      }
    }
  }

  /**
   * When the first `j` objects export and object `j` fails, the run ends
   * with the files of the first `j` objects and the partial file of object
   * `j`; later objects write nothing.
   */
  lemma {:induction false} BatchStops(os: seq<Outcome>, files: map<string, seq<Row>>, j: nat)
    requires j < |os|
    requires forall k :: 0 <= k < j ==> os[k].written.ok
    requires !os[j].written.ok
    ensures BatchFrom(os, files) ==
      BatchResult(BatchFrom(os[..j], files).files[os[j].file := os[j].written.lines], true)
  {
    if j > 0 {
      assert os[..j][1..] == os[1..][..j - 1];
      BatchStops(os[1..], files[os[0].file := os[0].written.lines], j - 1);
    }
  }

  /** The names of the files of outcomes `os`. */
  function FileNames(os: seq<Outcome>): set<string>
  {
    set k | 0 <= k < |os| :: os[k].file
  }

  lemma FileNamesCons(os: seq<Outcome>)
    requires os != []
    ensures FileNames(os) == {os[0].file} + FileNames(os[1..])
  {
    forall k | 0 < k < |os| ensures os[k].file in FileNames(os[1..]) {
      assert os[1..][k - 1] == os[k];
    }
  }

  /**
   * When every object exports, the run is not aborted, it writes one file per
   * object and, file names being distinct, each file holds exactly its
   * object's export; other files are left as they were.
   */
  lemma {:induction false} BatchComplete(os: seq<Outcome>, files: map<string, seq<Row>>)
    requires forall k :: 0 <= k < |os| ==> os[k].written.ok
    requires forall p, q :: 0 <= p < q < |os| ==> os[p].file != os[q].file
    ensures var r := BatchFrom(os, files);
      && !r.aborted
      && r.files.Keys == files.Keys + FileNames(os)
      && (forall f :: f in files && f !in FileNames(os) ==> r.files[f] == files[f])
      && forall k :: 0 <= k < |os| ==> r.files[os[k].file] == os[k].written.lines
  {
    if os != [] {
      var files' := files[os[0].file := os[0].written.lines];
      BatchComplete(os[1..], files');
      FileNamesCons(os);
      var r := BatchFrom(os, files);
      forall k | 0 <= k < |os| ensures r.files[os[k].file] == os[k].written.lines {
        if k > 0 {
          assert os[1..][k - 1] == os[k];
        }
      }
    }
  }
}
