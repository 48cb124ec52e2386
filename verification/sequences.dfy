/**
 * Searching and mapping over sequences: `list.index` as the exporter uses
 * it on vertex indices, the search for the decimal point when a coordinate
 * is read back, and the element-wise image of a list.
 */
module Sequences {
  import opened Wrappers

  /** `s.index(v)`: the first position holding `v`, or None where Python raises ValueError. */
  function IndexOf<T(==)>(s: seq<T>, v: T): (r: Option<nat>)
    ensures r.Some? ==> r.value < |s| && s[r.value] == v && forall j :: 0 <= j < r.value ==> s[j] != v
    ensures r.None? ==> forall j :: 0 <= j < |s| ==> s[j] != v
  {
    if s == [] then None
    else if s[0] == v then Some(0)
    else match IndexOf(s[1..], v)
      case None => None
      case Some(p) => Some(p + 1)
  }

  /** The first `v` of `a + [v] + b` is the one after `a` when `a` holds none. */
  lemma {:induction false} IndexOfAfter<T>(a: seq<T>, v: T, b: seq<T>)
    requires forall k :: 0 <= k < |a| ==> a[k] != v
    ensures IndexOf(a + [v] + b, v) == Some(|a|)
  {
    if a != [] {
      assert (a + [v] + b)[1..] == a[1..] + [v] + b;
      IndexOfAfter(a[1..], v, b);
    }
  }

  /** `s.partition(sep)` when `sep` occurs: what comes before its first occurrence, and what comes after. */
  function Split<T(==)>(s: seq<T>, sep: T): Option<(seq<T>, seq<T>)>
  {
    match IndexOf(s, sep)
    case None => None
    case Some(i) => Some((s[..i], s[i + 1..]))
  }

  /** Splitting `a + [sep] + b` gives back `a` and `b` when `a` holds no `sep`. */
  lemma SplitAfter<T>(a: seq<T>, sep: T, b: seq<T>)
    requires forall k :: 0 <= k < |a| ==> a[k] != sep
    ensures Split(a + [sep] + b, sep) == Some((a, b))
  {
    var s := a + [sep] + b;
    IndexOfAfter(a, sep, b);
    assert s[..|a|] == a;
    assert s[|a| + 1..] == b;
  }

  lemma AppendAssoc<T>(a: seq<T>, b: seq<T>, c: seq<T>)
    ensures a + (b + c) == a + b + c
  {
  }

  /** `[f(x) for x in s]` */
  function Map<A, B>(s: seq<A>, f: A -> B): (r: seq<B>)
    ensures |r| == |s|
  {
    seq(|s|, k requires 0 <= k < |s| => f(s[k]))
  }

  lemma MapAt<A, B>(s: seq<A>, f: A -> B, k: nat)
    requires k < |s|
    ensures Map(s, f)[k] == f(s[k])
  {
  }

  lemma MapAppend<A, B>(s: seq<A>, t: seq<A>, f: A -> B)
    ensures Map(s + t, f) == Map(s, f) + Map(t, f)
  {
  }

  /** Taking out the element at `j` removes one occurrence of it from the image. */
  lemma MapRemove<A, B>(s: seq<A>, j: nat, f: A -> B)
    requires j < |s|
    ensures multiset(Map(s, f)) == multiset(Map(s[..j] + s[j + 1..], f)) + multiset{f(s[j])}
  {
    assert s == s[..j] + [s[j]] + s[j + 1..];
    MapAppend(s[..j] + [s[j]], s[j + 1..], f);
    MapAppend(s[..j], [s[j]], f);
    MapAppend(s[..j], s[j + 1..], f);
  }

  lemma MultisetRemove<T>(a: seq<T>, b: seq<T>, j: nat)
    requires multiset(a) == multiset(b) && a != [] && j < |b| && b[j] == a[0]
    ensures multiset(a[1..]) == multiset(b[..j] + b[j + 1..])
  {
    assert a == [a[0]] + a[1..];
    assert b == b[..j] + [b[j]] + b[j + 1..];
    assert multiset(a[1..]) == multiset(a) - multiset{a[0]};
    assert multiset(b[..j] + b[j + 1..]) == multiset(b) - multiset{b[j]};
  }

  /** The images of two permutations of one list are permutations of each other. */
  lemma {:induction false} MapPermutation<A, B>(a: seq<A>, b: seq<A>, f: A -> B)
    requires multiset(a) == multiset(b)
    ensures multiset(Map(a, f)) == multiset(Map(b, f))
    decreases |a|
  {
    if a == [] {
      assert |b| == |multiset(b)| == 0;
    } else {
      assert a[0] in multiset(b);
      var j :| 0 <= j < |b| && b[j] == a[0];
      var rest := b[..j] + b[j + 1..];
      MultisetRemove(a, b, j);
      MapPermutation(a[1..], rest, f);
      assert a[..0] + a[1..] == a[1..];
      MapRemove(a, 0, f);
      MapRemove(b, j, f);
      var ma, mb, mr := multiset(Map(a, f)), multiset(Map(b, f)), multiset(Map(rest, f));
      assert ma == multiset(Map(a[1..], f)) + multiset{f(a[0])};
      assert mb == mr + multiset{f(a[0])};
    }
  }
}
