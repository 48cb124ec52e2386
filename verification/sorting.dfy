/**
 * The three calls of Python's stable `sorted` that order the nodes
 * (export_jbeam.py, `ExportJbeam.execute`), and the proof that together
 * they sort by y ascending, then x descending, then z ascending, with the
 * vertex index deciding the remaining ties.
 */
module Sorting {
  import opened Nodes

  datatype Axis = X | Y | Z

  /** The `key=` of one `sorted` call (one coordinate) and its `reverse=` flag. */
  datatype SortKey = SortKey(axis: Axis, reverse: bool)

  function Coord(n: NGnode, axis: Axis): int
  {
    match axis
    case X => n.x
    case Y => n.y
    case Z => n.z
  }

  /** `a`'s key comes strictly before `b`'s in the direction of `k`. */
  predicate Before(k: SortKey, a: NGnode, b: NGnode)
  {
    if k.reverse then Coord(b, k.axis) < Coord(a, k.axis) else Coord(a, k.axis) < Coord(b, k.axis)
  }

  /** No element has a key strictly before that of an element to its left. */
  predicate KeySorted(s: seq<NGnode>, k: SortKey)
  {
    forall p, q :: 0 <= p < q < |s| ==> !Before(k, s[q], s[p])
  }

  /** Places `n` after every element of `r` whose key is not strictly after its own. */
  function Insert(r: seq<NGnode>, n: NGnode, k: SortKey): (t: seq<NGnode>)
    ensures multiset(t) == multiset(r) + multiset{n}
  {
    if r == [] then [n]
    else if Before(k, n, r[0]) then [n] + r
    else
      assert r == [r[0]] + r[1..];
      [r[0]] + Insert(r[1..], n, k)
  }

  lemma {:induction false} InsertKeySorted(r: seq<NGnode>, n: NGnode, k: SortKey)
    requires KeySorted(r, k)
    ensures KeySorted(Insert(r, n, k), k)
  {
    if r != [] && !Before(k, n, r[0]) {
      var rest := Insert(r[1..], n, k);
      InsertKeySorted(r[1..], n, k);
      forall e | e in rest ensures !Before(k, e, r[0]) {
        assert e in multiset(rest);
        if e != n {
          var q :| 0 <= q < |r[1..]| && r[1..][q] == e;
          assert r[q + 1] == e;
        }
      }
      var t := [r[0]] + rest;
      forall p, q | 0 <= p < q < |t| ensures !Before(k, t[q], t[p]) {
        assert t[q] == rest[q - 1];
        assert t[q] in rest;
        if p > 0 {
          assert t[p] == rest[p - 1];
        }
      }
    }
  }

  /**
   * Python's `sorted(s, key=…, reverse=…)`, which is stable: a permutation of
   * `s` ordered by the key, elements with equal keys kept in their order in `s`.
   */
  function Sorted(s: seq<NGnode>, k: SortKey): (r: seq<NGnode>)
    ensures multiset(r) == multiset(s)
    ensures KeySorted(r, k)
  {
    if s == [] then []
    else
      var init, last := s[..|s| - 1], s[|s| - 1];
      assert s == init + [last];
      var r := Sorted(init, k);
      InsertKeySorted(r, last, k);
      Insert(r, last, k)
  }

  /**
   * The order given by a list of keys, most significant first, with the
   * vertex index breaking ties that remain.
   */
  predicate LexLess(ks: seq<SortKey>, a: NGnode, b: NGnode)
    decreases |ks|
  {
    if ks == [] then a.i < b.i
    else Before(ks[0], a, b) || (Coord(a, ks[0].axis) == Coord(b, ks[0].axis) && LexLess(ks[1..], a, b))
  }

  predicate StrictlySorted(s: seq<NGnode>, ks: seq<SortKey>)
  {
    forall p, q :: 0 <= p < q < |s| ==> LexLess(ks, s[p], s[q])
  }

  lemma {:induction false} LexLessIrreflexive(ks: seq<SortKey>, a: NGnode)
    ensures !LexLess(ks, a, a)
    decreases |ks|
  {
    if ks != [] {
      LexLessIrreflexive(ks[1..], a);
    }
  }

  lemma {:induction false} LexLessTransitive(ks: seq<SortKey>, a: NGnode, b: NGnode, c: NGnode)
    requires LexLess(ks, a, b) && LexLess(ks, b, c)
    ensures LexLess(ks, a, c)
    decreases |ks|
  {
    if ks != [] && !Before(ks[0], a, b) && !Before(ks[0], b, c) {
      LexLessTransitive(ks[1..], a, b, c);
    }
  }

  lemma {:induction false} LexLessAsymmetric(ks: seq<SortKey>, a: NGnode, b: NGnode)
    ensures LexLess(ks, a, b) ==> !LexLess(ks, b, a)
    decreases |ks|
  {
    if ks != [] {
      LexLessAsymmetric(ks[1..], a, b);
    }
  }

  /** An element ordered before every element of a strictly sorted sequence can head it. */
  lemma ConsStrictlySorted(x: NGnode, rest: seq<NGnode>, ks: seq<SortKey>)
    requires StrictlySorted(rest, ks)
    requires forall e :: e in rest ==> LexLess(ks, x, e)
    ensures StrictlySorted([x] + rest, ks)
  {
    var t := [x] + rest;
    forall p, q | 0 <= p < q < |t| ensures LexLess(ks, t[p], t[q]) {
      assert t[q] == rest[q - 1];
      assert t[q] in rest;
      if p > 0 {
        assert t[p] == rest[p - 1];
      }
    }
  }

  lemma {:induction false} InsertRefines(r: seq<NGnode>, n: NGnode, k: SortKey, ks: seq<SortKey>)
    requires StrictlySorted(r, [k] + ks)
    requires forall e :: e in r ==> LexLess(ks, e, n)
    ensures StrictlySorted(Insert(r, n, k), [k] + ks)
  {
    var kks := [k] + ks;
    assert kks[0] == k && kks[1..] == ks;
    if r == [] {
    } else if Before(k, n, r[0]) {
      forall e | e in r ensures LexLess(kks, n, e) {
        var q :| 0 <= q < |r| && r[q] == e;
        if q > 0 {
          assert LexLess(kks, r[0], r[q]);
        }
      }
      ConsStrictlySorted(n, r, kks);
    } else {
      StrictlySortedTail(r, kks);
      InsertRefines(r[1..], n, k, ks);
      var rest := Insert(r[1..], n, k);
      forall e | e in rest ensures LexLess(kks, r[0], e) {
        assert e in multiset(rest);
        if e != n {
          var q :| 0 <= q < |r[1..]| && r[1..][q] == e;
          assert r[q + 1] == e;
        }
      }
      ConsStrictlySorted(r[0], rest, kks);
    }
  }

  /**
   * Stability, in the form the three passes need: sorting by `k` a sequence
   * already ordered by `ks` orders it by `k` first and `ks` after.
   */
  lemma {:induction false} SortedRefines(s: seq<NGnode>, k: SortKey, ks: seq<SortKey>)
    requires StrictlySorted(s, ks)
    ensures StrictlySorted(Sorted(s, k), [k] + ks)
  {
    if s != [] {
      var init, last := s[..|s| - 1], s[|s| - 1];
      SortedRefines(init, k, ks);
      var r := Sorted(init, k);
      forall e | e in r ensures LexLess(ks, e, last) {
        assert e in multiset(init);
        var j :| 0 <= j < |init| && init[j] == e;
        assert s[j] == e;
      }
      InsertRefines(r, last, k, ks);
    }
  }

  const ByZ := SortKey(Z, false)
  const ByXDescending := SortKey(X, true)
  const ByY := SortKey(Y, false)

  /** `sortedNodes`: sorted by z, then re-sorted by x descending, then by y. */
  function SortNodes(nodes: seq<NGnode>): (sortedNodes: seq<NGnode>)
    ensures multiset(sortedNodes) == multiset(nodes)
  {
    var sortedz := Sorted(nodes, ByZ);
    var sortedx := Sorted(sortedz, ByXDescending);
    Sorted(sortedx, ByY)
  }

  /** The net order of the three passes: y ascending, x descending, z ascending, vertex index. */
  predicate NetBefore(a: NGnode, b: NGnode)
  {
    a.y < b.y || (a.y == b.y && (a.x > b.x || (a.x == b.x && (a.z < b.z || (a.z == b.z && a.i < b.i)))))
  }

  lemma NetBeforeIsLexLess(a: NGnode, b: NGnode)
    ensures NetBefore(a, b) <==> LexLess([ByY, ByXDescending, ByZ], a, b)
  {
    var ks := [ByY, ByXDescending, ByZ];
    assert ks[1..] == [ByXDescending, ByZ];
    assert ks[1..][1..] == [ByZ];
    assert ks[1..][1..][1..] == [];
    assert LexLess([ByZ], a, b) <==> a.z < b.z || (a.z == b.z && a.i < b.i);
    assert LexLess([ByXDescending, ByZ], a, b) <==> a.x > b.x || (a.x == b.x && LexLess([ByZ], a, b));
    assert LexLess(ks, a, b) <==> a.y < b.y || (a.y == b.y && LexLess([ByXDescending, ByZ], a, b));
  }

  /** Each pass refines the order left by the passes before it. */
  lemma ThreePassRefines(nodes: seq<NGnode>)
    requires StrictlySorted(nodes, [])
    ensures StrictlySorted(SortNodes(nodes), [ByY, ByXDescending, ByZ])
  {
    var sortedz := Sorted(nodes, ByZ);
    assert StrictlySorted(sortedz, [ByZ]) by {
      SortedRefines(nodes, ByZ, []);
      assert [ByZ] + [] == [ByZ];
    }
    var sortedx := Sorted(sortedz, ByXDescending);
    assert StrictlySorted(sortedx, [ByXDescending, ByZ]) by {
      SortedRefines(sortedz, ByXDescending, [ByZ]);
      assert [ByXDescending] + [ByZ] == [ByXDescending, ByZ];
    }
    assert StrictlySorted(Sorted(sortedx, ByY), [ByY, ByXDescending, ByZ]) by {
      SortedRefines(sortedx, ByY, [ByXDescending, ByZ]);
      assert [ByY] + [ByXDescending, ByZ] == [ByY, ByXDescending, ByZ];
    }
  }

  /**
   * The three stable passes, applied to nodes in vertex order, give exactly
   * the lexicographic order (y ascending, x descending, z ascending), nodes
   * equal on all three keeping their vertex order.
   */
  lemma ThreePassIsLexicographic(nodes: seq<NGnode>)
    requires forall p, q :: 0 <= p < q < |nodes| ==> nodes[p].i < nodes[q].i
    ensures var r := SortNodes(nodes);
      forall p, q :: 0 <= p < q < |r| ==> NetBefore(r[p], r[q])
  {
    assert StrictlySorted(nodes, []);
    ThreePassRefines(nodes);
    var r := SortNodes(nodes);
    forall p, q | 0 <= p < q < |r| ensures NetBefore(r[p], r[q]) {
      NetBeforeIsLexLess(r[p], r[q]);
    }
  }

  lemma MultisetTail<T>(a: seq<T>, b: seq<T>)
    requires a != [] && b != [] && a[0] == b[0] && multiset(a) == multiset(b)
    ensures multiset(a[1..]) == multiset(b[1..])
  {
    assert a == [a[0]] + a[1..] && b == [b[0]] + b[1..];
    assert multiset(a[1..]) == multiset(a) - multiset{a[0]};
    assert multiset(b[1..]) == multiset(b) - multiset{b[0]};
  }

  lemma StrictlySortedTail(a: seq<NGnode>, ks: seq<SortKey>)
    requires a != [] && StrictlySorted(a, ks)
    ensures StrictlySorted(a[1..], ks)
  {
    forall p, q | 0 <= p < q < |a| - 1 ensures LexLess(ks, a[1..][p], a[1..][q]) {
      assert a[1..][p] == a[p + 1] && a[1..][q] == a[q + 1];
    }
  }

  lemma FirstIsLeast(s: seq<NGnode>, ks: seq<SortKey>, e: NGnode)
    requires StrictlySorted(s, ks) && e in s
    ensures e == s[0] || LexLess(ks, s[0], e)
  {
    var j :| 0 <= j < |s| && s[j] == e;
    if j > 0 {
      assert LexLess(ks, s[0], s[j]);
    }
  }

  /** Two orderings of the same elements, both strictly increasing in one order, are equal. */
  lemma {:induction false} StrictlySortedUnique(a: seq<NGnode>, b: seq<NGnode>, ks: seq<SortKey>)
    requires multiset(a) == multiset(b)
    requires StrictlySorted(a, ks) && StrictlySorted(b, ks)
    ensures a == b
    decreases |a|
  {
    assert |a| == |multiset(a)| == |b|;
    if a != [] {
      assert a[0] in multiset(b) && b[0] in multiset(a);
      FirstIsLeast(b, ks, a[0]);
      FirstIsLeast(a, ks, b[0]);
      LexLessAsymmetric(ks, a[0], b[0]);
      MultisetTail(a, b);
      StrictlySortedTail(a, ks);
      StrictlySortedTail(b, ks);
      StrictlySortedUnique(a[1..], b[1..], ks);
    }
  }

  /**
   * A single sort with the composite comparator would give the same list:
   * any permutation of `nodes` in the net order is `SortNodes(nodes)`.
   */
  lemma SortNodesUnique(nodes: seq<NGnode>, r: seq<NGnode>)
    requires forall p, q :: 0 <= p < q < |nodes| ==> nodes[p].i < nodes[q].i
    requires multiset(r) == multiset(nodes)
    requires forall p, q :: 0 <= p < q < |r| ==> NetBefore(r[p], r[q])
    ensures r == SortNodes(nodes)
  {
    var ks := [ByY, ByXDescending, ByZ];
    var s := SortNodes(nodes);
    ThreePassIsLexicographic(nodes);
    forall p, q | 0 <= p < q < |r| ensures LexLess(ks, r[p], r[q]) {
      NetBeforeIsLexLess(r[p], r[q]);
    }
    forall p, q | 0 <= p < q < |s| ensures LexLess(ks, s[p], s[q]) {
      NetBeforeIsLexLess(s[p], s[q]);
    }
    StrictlySortedUnique(r, s, ks);
  }

  /** The net order on positions alone: y ascending, then x descending, then z ascending. */
  predicate NetAtMost(a: Vec3, b: Vec3)
  {
    a.y < b.y || (a.y == b.y && (a.x > b.x || (a.x == b.x && a.z <= b.z)))
  }

  /**
   * Two orderings of the same positions, both in the net order, are equal:
   * where the positions of the nodes are concerned, the order the vertices
   * came in does not matter.
   */
  lemma {:induction false} NetAtMostUnique(a: seq<Vec3>, b: seq<Vec3>)
    requires multiset(a) == multiset(b)
    requires forall p, q :: 0 <= p < q < |a| ==> NetAtMost(a[p], a[q])
    requires forall p, q :: 0 <= p < q < |b| ==> NetAtMost(b[p], b[q])
    ensures a == b
    decreases |a|
  {
    assert |a| == |multiset(a)| == |b|;
    if a != [] {
      assert a[0] in multiset(b) && b[0] in multiset(a);
      var i :| 0 <= i < |b| && b[i] == a[0];
      var j :| 0 <= j < |a| && a[j] == b[0];
      assert NetAtMost(b[0], a[0]) && NetAtMost(a[0], b[0]);
      assert a[0] == b[0];
      MultisetTail(a, b);
      NetAtMostUnique(a[1..], b[1..]);
    }
  }

  /** Node `n` with every coordinate moved by `d`. */
  function Moved(n: NGnode, d: Vec3): NGnode
  {
    n.(x := n.x + d.x, y := n.y + d.y, z := n.z + d.z)
  }

  function MovedAll(s: seq<NGnode>, d: Vec3): seq<NGnode>
  {
    seq(|s|, k requires 0 <= k < |s| => Moved(s[k], d))
  }

  lemma MovedAllAppend(a: seq<NGnode>, b: seq<NGnode>, d: Vec3)
    ensures MovedAll(a + b, d) == MovedAll(a, d) + MovedAll(b, d)
  {
  }

  lemma BeforeMoved(k: SortKey, a: NGnode, b: NGnode, d: Vec3)
    ensures Before(k, Moved(a, d), Moved(b, d)) == Before(k, a, b)
  {
  }

  lemma {:induction false} InsertMoved(r: seq<NGnode>, n: NGnode, k: SortKey, d: Vec3)
    ensures Insert(MovedAll(r, d), Moved(n, d), k) == MovedAll(Insert(r, n, k), d)
    decreases |r|
  {
    var mr, mn := MovedAll(r, d), Moved(n, d);
    if r == [] {
      assert MovedAll([n], d) == [mn];
    } else {
      assert mr[0] == Moved(r[0], d);
      BeforeMoved(k, n, r[0], d);
      if Before(k, n, r[0]) {
        MovedAllAppend([n], r, d);
        assert MovedAll([n], d) == [mn];
      } else {
        var rest := Insert(r[1..], n, k);
        assert mr[1..] == MovedAll(r[1..], d);
        InsertMoved(r[1..], n, k, d);
        MovedAllAppend([r[0]], rest, d);
        assert MovedAll([r[0]], d) == [mr[0]];
      }
    }
  }

  /** Moving every node by the same offset commutes with a stable sort. */
  lemma {:induction false} SortedMoved(s: seq<NGnode>, k: SortKey, d: Vec3)
    ensures Sorted(MovedAll(s, d), k) == MovedAll(Sorted(s, k), d)
    decreases |s|
  {
    if s != [] {
      var ms := MovedAll(s, d);
      assert ms[..|ms| - 1] == MovedAll(s[..|s| - 1], d);
      SortedMoved(s[..|s| - 1], k, d);
      InsertMoved(Sorted(s[..|s| - 1], k), s[|s| - 1], k, d);
    }
  }

  /**
   * A uniform offset does not change the order the three passes produce:
   * sorting moved nodes gives the sorted nodes, moved.
   */
  lemma SortNodesMoved(nodes: seq<NGnode>, d: Vec3)
    ensures SortNodes(MovedAll(nodes, d)) == MovedAll(SortNodes(nodes), d)
  {
    SortedMoved(nodes, ByZ, d);
    SortedMoved(Sorted(nodes, ByZ), ByXDescending, d);
    SortedMoved(Sorted(Sorted(nodes, ByZ), ByXDescending), ByY, d);
  }

  /**
   * Nodes built from three vertices that differ only in x, with x decreasing
   * from the first to the third to the second, come out in that order.
   */
  lemma ThreeNodeOrder(a: NGnode, b: NGnode, c: NGnode)
    requires a.i == 0 && b.i == 1 && c.i == 2
    requires a.y == b.y == c.y && a.z == b.z == c.z && a.x > c.x > b.x
    ensures SortNodes([a, b, c]) == [a, c, b]
  {
    var nodes, s := [a, b, c], [a, c, b];
    assert multiset(s) == multiset(nodes);
    assert NetBefore(s[0], s[1]) && NetBefore(s[0], s[2]) && NetBefore(s[1], s[2]);
    SortNodesUnique(nodes, s);
  }
}
