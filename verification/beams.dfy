/**
 * The beam loop of `ExportJbeam.execute` (export_jbeam.py): one line per
 * mesh edge, each endpoint resolved to a sorted node with `list.index` on
 * the nodes' vertex indices, which raises when no node has that index.
 */
module Beams {
  import opened Wrappers
  import opened Sequences
  import opened Nodes
  import opened Output

  /** A mesh edge: the indices of its two vertices. */
  datatype Edge = Edge(v0: nat, v1: nat)

  /**
   * What a loop wrote to the file, as the rows it wrote (whole lines, and
   * at most one unfinished beam line at the end), and whether it ran to the
   * end rather than stopping on an exception.
   */
  datatype Written = Written(lines: seq<Row>, ok: bool)

  /** `[n.i for n in sortedNodes]` */
  function Ids(s: seq<NGnode>): seq<nat>
  {
    seq(|s|, k requires 0 <= k < |s| => s[k].i)
  }

  /** What the loop writes for one edge, and whether both lookups succeeded. */
  function BeamLine(s: seq<NGnode>, e: Edge): Written
  {
    match IndexOf(Ids(s), e.v0)
    case None => Written([], false)
    case Some(p) =>
      match IndexOf(Ids(s), e.v1)
      case None => Written([BeamStartRow(s[p].nodeName)], false)
      case Some(q) => Written([BeamRow(s[p].nodeName, s[q].nodeName)], true)
  }

  /** What the loop writes for `edges`, stopping at the first edge whose lookup raises. */
  function BeamLines(s: seq<NGnode>, edges: seq<Edge>): Written
  {
    if edges == [] then Written([], true)
    else
      var w := BeamLines(s, edges[..|edges| - 1]);
      if !w.ok then w
      else
        var b := BeamLine(s, edges[|edges| - 1]);
        Written(w.lines + b.lines, b.ok)
  }

  /** Once the loop has stopped, later edges change nothing. */
  lemma {:induction false} BeamLinesStop(s: seq<NGnode>, edges: seq<Edge>, m: nat)
    requires m <= |edges| && !BeamLines(s, edges[..m]).ok
    ensures BeamLines(s, edges) == BeamLines(s, edges[..m])
  {
    if m < |edges| {
      var init := edges[..|edges| - 1];
      assert init[..m] == edges[..m];
      BeamLinesStop(s, init, m);
    } else {
      assert edges[..m] == edges;
    }
  }

  /**
   * The beam loop. It returns the pieces it writes and whether it finished;
   * on a failed lookup it stops, as the exception does.
   */
  method WriteBeams(sortedNodes: seq<NGnode>, edges: seq<Edge>) returns (out: seq<Row>, ok: bool)
    ensures Written(out, ok) == BeamLines(sortedNodes, edges)
  {
    var ids := Ids(sortedNodes);
    out, ok := [], true;
    var j := 0;
    while j < |edges|
      invariant 0 <= j <= |edges|
      invariant BeamLines(sortedNodes, edges[..j]) == Written(out, true)
    {
      var e := edges[j];
      assert edges[..j + 1][..j] == edges[..j];
      var nodeIndex1 := IndexOf(ids, e.v0);
      if nodeIndex1.None? {
        ok := false;
        BeamLinesStop(sortedNodes, edges, j + 1);
        return;
      }
      var first := sortedNodes[nodeIndex1.value].nodeName;
      var nodeIndex2 := IndexOf(ids, e.v1);
      if nodeIndex2.None? {
        out := out + [BeamStartRow(first)];
        ok := false;
        BeamLinesStop(sortedNodes, edges, j + 1);
        return;
      }
      out := out + [BeamRow(first, sortedNodes[nodeIndex2.value].nodeName)];
      j := j + 1;
    }
    assert edges[..j] == edges;
  }

  /**
   * The node vertex indices that edge `e` refers to are both present exactly
   * when its line is written whole; it then names the nodes carrying those
   * indices. When the first is missing nothing is written; when only the
   * second is, the start of the line naming the first node is.
   */
  lemma BeamLineResolves(s: seq<NGnode>, e: Edge)
    requires forall p, q :: 0 <= p < q < |s| ==> s[p].i != s[q].i
    ensures BeamLine(s, e).ok <==> e.v0 in Ids(s) && e.v1 in Ids(s)
    ensures e.v0 !in Ids(s) ==> BeamLine(s, e).lines == []
    ensures forall p :: 0 <= p < |s| && s[p].i == e.v0 && e.v1 !in Ids(s) ==>
      BeamLine(s, e).lines == [BeamStartRow(s[p].nodeName)]
    ensures forall p, q :: 0 <= p < |s| && 0 <= q < |s| && s[p].i == e.v0 && s[q].i == e.v1 ==>
      BeamLine(s, e).lines == [BeamRow(s[p].nodeName, s[q].nodeName)]
  {
    var ids := Ids(s);
    forall p | 0 <= p < |s| && s[p].i == e.v0 ensures IndexOf(ids, e.v0) == Some(p) {
      assert ids[p] == e.v0;
      var r := IndexOf(ids, e.v0);
      assert r.Some? && ids[r.value] == e.v0;
      assert s[r.value].i == s[p].i;
    }
    forall q | 0 <= q < |s| && s[q].i == e.v1 ensures IndexOf(ids, e.v1) == Some(q) {
      assert ids[q] == e.v1;
      var r := IndexOf(ids, e.v1);
      assert r.Some? && ids[r.value] == e.v1;
      assert s[r.value].i == s[q].i;
    }
  }

  /** The loop finishes exactly when every endpoint of every edge is some node's vertex index. */
  lemma {:induction false} BeamLinesOk(s: seq<NGnode>, edges: seq<Edge>)
    ensures BeamLines(s, edges).ok <==>
      forall j :: 0 <= j < |edges| ==> edges[j].v0 in Ids(s) && edges[j].v1 in Ids(s)
  {
    if edges != [] {
      var init := edges[..|edges| - 1];
      BeamLinesOk(s, init);
      assert forall j :: 0 <= j < |init| ==> init[j] == edges[j];
      var e := edges[|edges| - 1];
      match IndexOf(Ids(s), e.v0)
      case None =>
      case Some(p) =>
    }
  }

  /**
   * When the loop finishes, line `j` is the beam of edge `j`, naming the
   * nodes that carry its two vertex indices.
   */
  lemma {:induction false} BeamLinesComplete(s: seq<NGnode>, edges: seq<Edge>)
    requires forall p, q :: 0 <= p < q < |s| ==> s[p].i != s[q].i
    requires BeamLines(s, edges).ok
    ensures var lines := BeamLines(s, edges).lines;
      && |lines| == |edges|
      && forall j, p, q ::
           (0 <= j < |edges| && 0 <= p < |s| && 0 <= q < |s| && s[p].i == edges[j].v0 && s[q].i == edges[j].v1) ==>
           lines[j] == BeamRow(s[p].nodeName, s[q].nodeName)
  {
    if edges != [] {
      var init := edges[..|edges| - 1];
      var e := edges[|edges| - 1];
      BeamLinesComplete(s, init);
      BeamLineResolves(s, e);
      var lines := BeamLines(s, edges).lines;
      assert lines == BeamLines(s, init).lines + BeamLine(s, e).lines;
      forall j, p, q | 0 <= j < |edges| && 0 <= p < |s| && 0 <= q < |s| &&
          s[p].i == edges[j].v0 && s[q].i == edges[j].v1
        ensures lines[j] == BeamRow(s[p].nodeName, s[q].nodeName)
      {
        if j < |init| {
          assert edges[j] == init[j];
        }
      }
    }
  }

  /**
   * When edge `j` is the first with an endpoint no node carries, the loop
   * writes the lines of the edges before it, then what `BeamLine` writes for
   * it, and stops.
   */
  lemma BeamLinesFailure(s: seq<NGnode>, edges: seq<Edge>, j: nat)
    requires j < |edges|
    requires forall k :: 0 <= k < j ==> edges[k].v0 in Ids(s) && edges[k].v1 in Ids(s)
    requires edges[j].v0 !in Ids(s) || edges[j].v1 !in Ids(s)
    ensures BeamLines(s, edges) == Written(BeamLines(s, edges[..j]).lines + BeamLine(s, edges[j]).lines, false)
  {
    var prefix := edges[..j];
    BeamLinesOk(s, prefix);
    assert BeamLines(s, prefix).ok;
    var b := BeamLine(s, edges[j]);
    assert !b.ok by {
      match IndexOf(Ids(s), edges[j].v0)
      case None =>
      case Some(p) =>
    }
    var upto := edges[..j + 1];
    assert upto[..j] == prefix && upto[j] == edges[j];
    assert BeamLines(s, upto) == Written(BeamLines(s, prefix).lines + b.lines, false);
    BeamLinesStop(s, edges, j + 1);
  }
}
