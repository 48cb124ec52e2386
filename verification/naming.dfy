/**
 * The loop of `ExportJbeam.execute` that walks the sorted nodes, extends
 * each node's name with a side marker and its rank, and writes the node
 * section of the file (export_jbeam.py).
 */
module Naming {
  import opened Wrappers
  import opened Sequences
  import opened Decimal
  import opened Nodes
  import opened Output

  /** "l" on the positive-x side, "r" on the negative side, nothing on the centre plane. */
  function Marker(x: int): string
  {
    if x > 0 then "l" else if x < 0 then "r" else ""
  }

  /** The name the loop gives to the node of rank `rank` (prefix, marker, `'%s' % rank`). */
  function NodeName(prefix: string, x: int, rank: nat): string
  {
    prefix + Marker(x) + NatToString(rank)
  }

  /** Splits a leading side marker off `rest`. */
  function SplitMarker(rest: string): (string, string)
  {
    if |rest| > 0 && (rest[0] == 'l' || rest[0] == 'r') then (rest[..1], rest[1..]) else ("", rest)
  }

  /** Reads a node name back, knowing the prefix: its side marker and its rank. */
  function ParseNodeName(prefix: string, name: string): Option<(string, nat)>
  {
    if !(prefix <= name) then None
    else
      var (marker, digits) := SplitMarker(name[|prefix|..]);
      match ParseNat(digits)
      case None => None
      case Some(rank) => Some((marker, rank))
  }

  lemma SplitMarkerDigits(x: int, digits: string)
    requires |digits| > 0 && IsDigit(digits[0])
    ensures SplitMarker(Marker(x) + digits) == (Marker(x), digits)
  {
    var rest := Marker(x) + digits;
    if Marker(x) != "" {
      assert rest[..1] == Marker(x) && rest[1..] == digits;
    } else {
      assert rest == digits;
    }
  }

  lemma NodeNameRoundTrip(prefix: string, x: int, rank: nat)
    ensures ParseNodeName(prefix, NodeName(prefix, x, rank)) == Some((Marker(x), rank))
  {
    var digits := NatToString(rank);
    var name := NodeName(prefix, x, rank);
    assert name == prefix + (Marker(x) + digits);
    assert name[|prefix|..] == Marker(x) + digits;
    SplitMarkerDigits(x, digits);
    ParseNatToString(rank);
  }

  /** Nodes of different rank get different names, whatever their sides. */
  lemma NodeNamesDistinct(prefix: string, x1: int, p: nat, x2: int, q: nat)
    requires p != q
    ensures NodeName(prefix, x1, p) != NodeName(prefix, x2, q)
  {
    NodeNameRoundTrip(prefix, x1, p);
    NodeNameRoundTrip(prefix, x2, q);
  }

  /** Node `n` at rank `rank` once the loop has extended its name by its marker and the rank. */
  function RenameNode(n: NGnode, rank: nat): NGnode
  {
    n.(nodeName := n.nodeName + Marker(n.x) + NatToString(rank))
  }

  /** The sorted nodes after the loop. */
  function Renamed(s: seq<NGnode>): seq<NGnode>
  {
    seq(|s|, k requires 0 <= k < |s| => RenameNode(s[k], k))
  }

  /**
   * When every node starts with the prefix as its name, the loop leaves
   * node `k` named `NodeName(prefix, x, k)`, changes nothing else, and no
   * two nodes share a name.
   */
  lemma RenamedNames(s: seq<NGnode>, prefix: string)
    requires forall k :: 0 <= k < |s| ==> s[k].nodeName == prefix
    ensures var r := Renamed(s);
      && |r| == |s|
      && (forall k :: 0 <= k < |s| ==> r[k].nodeName == NodeName(prefix, s[k].x, k))
      && (forall k :: 0 <= k < |s| ==> r[k].(nodeName := prefix) == s[k])
      && (forall p, q :: 0 <= p < q < |r| ==> r[p].nodeName != r[q].nodeName)
  {
    var r := Renamed(s);
    forall p, q | 0 <= p < q < |r| ensures r[p].nodeName != r[q].nodeName {
      NodeNamesDistinct(prefix, s[p].x, p, s[q].x, q);
    }
  }

  /**
   * Three nodes with prefix "n", on the positive side, on the centre plane
   * and on the negative side, in that sorted order, are named "nl0", "n1"
   * and "nr2".
   */
  lemma ThreeNodeNames(a: NGnode, b: NGnode, c: NGnode)
    requires a.nodeName == "n" && b.nodeName == "n" && c.nodeName == "n"
    requires a.x > 0 && b.x == 0 && c.x < 0
    ensures var r := Renamed([a, b, c]);
      |r| == 3 && r[0].nodeName == "nl0" && r[1].nodeName == "n1" && r[2].nodeName == "nr2"
  {
    assert NatToString(0) == "0" && NatToString(1) == "1" && NatToString(2) == "2";
  }

  /**
   * The line the loop writes for node `n`: its coordinates have the object's
   * delta location added once more before they are printed.
   */
  function NodeLine(n: NGnode, delta: Vec3): Row
  {
    NodeRow(n.nodeName, n.x + delta.x, n.y + delta.y, n.z + delta.z)
  }

  /** The lines of `s`, one per node, in order. */
  function NodeLines(s: seq<NGnode>, delta: Vec3): seq<Row>
  {
    seq(|s|, k requires 0 <= k < |s| => NodeLine(s[k], delta))
  }

  /**
   * The node lines after renaming depend only on the prefix and the
   * positions of the sorted nodes, not on the vertex indices they carry.
   */
  lemma NodeLinesByPosition(s1: seq<NGnode>, s2: seq<NGnode>, prefix: string, delta: Vec3)
    requires Map(s1, Position) == Map(s2, Position)
    requires forall k :: 0 <= k < |s1| ==> s1[k].nodeName == prefix
    requires forall k :: 0 <= k < |s2| ==> s2[k].nodeName == prefix
    ensures NodeLines(Renamed(s1), delta) == NodeLines(Renamed(s2), delta)
  {
    forall k | 0 <= k < |s1|
      ensures NodeLines(Renamed(s1), delta)[k] == NodeLines(Renamed(s2), delta)[k]
    {
      MapAt(s1, Position, k);
      MapAt(s2, Position, k);
    }
  }

  /**
   * The naming loop over `sortedNodes`: renames each node in place and
   * returns the lines it writes to the file, the header and one line per node.
   */
  method NameAndWriteNodes(sortedNodes: array<NGnode>, delta: Vec3) returns (out: seq<Row>)
    modifies sortedNodes
    ensures sortedNodes[..] == Renamed(old(sortedNodes[..]))
    ensures out == [NodesHeader] + NodeLines(sortedNodes[..], delta)
  {
    ghost var before := sortedNodes[..];
    out := [NodesHeader];
    var i := 0;
    while i < sortedNodes.Length
      invariant 0 <= i <= sortedNodes.Length == |before|
      invariant forall k :: 0 <= k < i ==> sortedNodes[k] == Renamed(before)[k]
      invariant forall k :: i <= k < sortedNodes.Length ==> sortedNodes[k] == before[k]
      invariant |out| == i + 1 && out[0] == NodesHeader
      invariant forall k :: 0 <= k < i ==> out[k + 1] == NodeLine(sortedNodes[k], delta)
    {
      label Head:
      var v := sortedNodes[i];
      var name: string;
      if v.x > 0 {
        name := v.nodeName + "l" + NatToString(i);
      } else if v.x < 0 {
        name := v.nodeName + "r" + NatToString(i);
      } else {
        name := v.nodeName + NatToString(i);
      }
      assert name == v.nodeName + Marker(v.x) + NatToString(i);
      v := v.(nodeName := name);
      assert v == RenameNode(before[i], i);
      sortedNodes[i] := v;
      forall k | 0 <= k <= i ensures sortedNodes[k] == Renamed(before)[k] {
        if k < i {
          assert sortedNodes[k] == old@Head(sortedNodes[k]);
        }
      }
      out := out + [NodeRow(name, v.x + delta.x, v.y + delta.y, v.z + delta.z)];
      i := i + 1;
    }
    assert sortedNodes[..] == Renamed(before);
  }
}
