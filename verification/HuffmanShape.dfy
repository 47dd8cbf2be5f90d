/** Code trees in the form the in-place construction leaves them in. Leaves 0 .. n-1 and inner
    nodes 0 .. n-2 are consumed in index order, two children at a time, so the whole tree is fixed by
    a[m], the number of leaves consumed before inner node m is made: the children of node m are the
    leaves a[m] .. a[m+1]-1 and the inner nodes B(m) .. B(m+1)-1. */
module HuffmanShape {
  import opened BitArith

  /** Inner nodes consumed before inner node m is made. */
  function B(a: seq<nat>, m: nat): int
    requires m < |a|
  {
    2 * m - a[m]
  }

  /** Node m takes two children, and its inner children were made before it. */
  predicate StepOk(a: seq<nat>, m: nat)
    requires m + 1 < |a|
  {
    a[m] <= a[m + 1] <= a[m] + 2 && B(a, m + 1) <= m
  }

  ghost predicate Shape(a: seq<nat>, n: nat) {
    && n >= 2 && |a| == n && a[0] == 0 && a[n - 1] == n
    && forall m: nat :: m < n - 1 ==> StepOk(a, m)
  }

  // ---------------------------------------------------------------- sums over a range

  function Sum(s: seq<nat>, lo: int, hi: int): (t: nat)
    requires 0 <= lo && hi <= |s|
    decreases hi - lo
  {
    if lo >= hi then 0 else s[lo] + Sum(s, lo + 1, hi)
  }

  lemma {:induction false} SumSplit(s: seq<nat>, lo: int, mid: int, hi: int)
    requires 0 <= lo <= mid <= hi <= |s|
    ensures Sum(s, lo, hi) == Sum(s, lo, mid) + Sum(s, mid, hi)
    decreases mid - lo
  {
    if lo < mid { SumSplit(s, lo + 1, mid, hi); }
  }

  lemma {:induction false} SumLast(s: seq<nat>, lo: int, hi: int)
    requires 0 <= lo <= hi < |s|
    ensures Sum(s, lo, hi + 1) == Sum(s, lo, hi) + s[hi]
  {
    SumSplit(s, lo, hi, hi + 1);
  }

  lemma {:induction false} SumSame(s: seq<nat>, t: seq<nat>, lo: int, hi: int)
    requires 0 <= lo && hi <= |s| && hi <= |t|
    requires forall i :: lo <= i < hi ==> s[i] == t[i]
    ensures Sum(s, lo, hi) == Sum(t, lo, hi)
    decreases hi - lo
  {
    if lo < hi { SumSame(s, t, lo + 1, hi); }
  }

  // ---------------------------------------------------------------- shape facts

  lemma {:induction false} ShapeMonotone(a: seq<nat>, n: nat, j: nat, m: nat)
    requires Shape(a, n) && j <= m < n
    ensures a[j] <= a[m] && 0 <= B(a, j) <= B(a, m)
  {
    if j < m {
      ShapeMonotone(a, n, j, m - 1);
      assert StepOk(a, m - 1);
    } else if j > 0 {
      ShapeMonotone(a, n, j - 1, m - 1);
      assert StepOk(a, m - 1);
    }
  }

  lemma ShapeBounds(a: seq<nat>, n: nat, m: nat)
    requires Shape(a, n) && m < n - 1
    ensures 0 <= B(a, m) <= B(a, m + 1) <= m && a[m] <= a[m + 1] <= n
    ensures a[m + 1] - a[m] + B(a, m + 1) - B(a, m) == 2
  {
    ShapeMonotone(a, n, m, m + 1);
    ShapeMonotone(a, n, m + 1, n - 1);
    assert StepOk(a, m);
  }

  /** The node that consumes inner node k. */
  lemma {:induction false} ParentOf(a: seq<nat>, n: nat, k: nat, m: nat) returns (p: nat)
    requires Shape(a, n) && k < n - 2 && m < n && B(a, m) <= k
    ensures m <= p < n - 1 && B(a, p) <= k < B(a, p + 1) && k < p
    decreases n - m
  {
    assert B(a, n - 1) == n - 2;
    if k < B(a, m + 1) {
      p := m;
      assert StepOk(a, m);
    } else {
      p := ParentOf(a, n, k, m + 1);
    }
  }

  /** The node that consumes leaf i. */
  lemma {:induction false} LeafParent(a: seq<nat>, n: nat, i: nat, m: nat) returns (p: nat)
    requires Shape(a, n) && i < n && m < n && a[m] <= i
    ensures m <= p < n - 1 && a[p] <= i < a[p + 1]
    decreases n - m
  {
    if i < a[m + 1] { p := m; } else { p := LeafParent(a, n, i, m + 1); }
  }

  // ---------------------------------------------------------------- depths

  ghost predicate InnerChild(a: seq<nat>, m: nat, k: nat)
    requires m + 1 < |a|
  {
    B(a, m) <= k < B(a, m + 1)
  }

  ghost predicate LeafChild(a: seq<nat>, m: nat, i: nat)
    requires m + 1 < |a|
  {
    a[m] <= i < a[m + 1]
  }

  /** d[k] is the depth of inner node k. */
  ghost predicate Depths(a: seq<nat>, n: nat, d: seq<nat>) {
    && Shape(a, n) && |d| == n - 1 && d[n - 2] == 0
    && forall m: nat, k: nat :: m < n - 1 && k < n - 2 && InnerChild(a, m, k) ==> d[k] == d[m] + 1
  }

  /** l[i] is the depth of leaf i. */
  ghost predicate Lengths(a: seq<nat>, n: nat, d: seq<nat>, l: seq<nat>) {
    && Depths(a, n, d) && |l| == n
    && forall m: nat, i: nat :: m < n - 1 && i < n && LeafChild(a, m, i) ==> l[i] == d[m] + 1
  }

  lemma {:induction false} DepthsDescend(a: seq<nat>, n: nat, d: seq<nat>, m: nat)
    requires Depths(a, n, d) && m < n - 1
    ensures forall j: nat, k: nat :: m <= j <= k < n - 1 ==> d[j] >= d[k]
    decreases n - m
  {
    if m < n - 2 {
      DepthsDescend(a, n, d, m + 1);
      ShapeMonotone(a, n, 0, m);
      assert B(a, 0) == 0;
      var p := ParentOf(a, n, m, 0);
      assert InnerChild(a, p, m);
      if m + 1 < n - 2 {
        var q := ParentOf(a, n, m + 1, p);
        assert InnerChild(a, q, m + 1);
      }
      assert d[m] >= d[m + 1];
    }
  }

  /** Code lengths never increase along the sorted symbols. */
  lemma LengthsDescend(a: seq<nat>, n: nat, d: seq<nat>, l: seq<nat>, i: nat, j: nat)
    requires Lengths(a, n, d, l) && i <= j < n
    ensures l[i] >= l[j] >= 1
  {
    DepthsDescend(a, n, d, 0);
    var p := LeafParent(a, n, i, 0);
    var q := LeafParent(a, n, j, p);
    assert LeafChild(a, p, i) && LeafChild(a, q, j);
  }

  // ---------------------------------------------------------------- Kraft sum

  /** The Kraft terms of a sequence of lengths, in units of 2^-top. */
  function KraftTerms(l: seq<nat>, top: nat): (t: seq<nat>)
    ensures |t| == |l|
  {
    seq(|l|, i requires 0 <= i < |l| => if l[i] <= top then Pow2(top - l[i]) else 0)
  }

  ghost predicate AtMost(l: seq<nat>, top: nat) {
    forall i :: 0 <= i < |l| ==> l[i] <= top
  }

  /** The two children of a node weigh half of it each. */
  lemma KraftNode(a: seq<nat>, n: nat, d: seq<nat>, l: seq<nat>, top: nat, m: nat)
    requires Lengths(a, n, d, l) && AtMost(l, top) && m < n - 1
    ensures d[m] < top
    ensures 0 <= B(a, m) <= B(a, m + 1) <= m && a[m] <= a[m + 1] <= n
    ensures Sum(KraftTerms(l, top), a[m], a[m + 1]) + Sum(KraftTerms(d, top), B(a, m), B(a, m + 1))
         == Pow2(top - d[m])
  {
    ShapeBounds(a, n, m);
    DepthBelow(a, n, d, l, top, m);
    var h := Pow2(top - d[m] - 1);
    assert Pow2(top - d[m]) == 2 * h;
    var t, u := KraftTerms(l, top), KraftTerms(d, top);
    forall i: nat | LeafChild(a, m, i) ensures t[i] == h {}
    forall k: nat | InnerChild(a, m, k) ensures u[k] == h {}
    SumConstant(t, a[m], a[m + 1], h);
    SumConstant(u, B(a, m), B(a, m + 1), h);
  }

  lemma {:induction false} SumConstant(s: seq<nat>, lo: int, hi: int, c: nat)
    requires 0 <= lo <= hi <= |s| && hi <= lo + 2
    requires forall i: nat :: lo <= i < hi ==> s[i] == c
    ensures Sum(s, lo, hi) == if hi == lo then 0 else if hi == lo + 1 then c else 2 * c
    decreases hi - lo
  {
    if lo < hi { SumConstant(s, lo + 1, hi, c); }
  }

  /** Every inner node has a leaf below it, so it is less deep than the deepest leaf. */
  lemma {:induction false} DepthBelow(a: seq<nat>, n: nat, d: seq<nat>, l: seq<nat>, top: nat, m: nat)
    requires Lengths(a, n, d, l) && AtMost(l, top) && m < n - 1
    ensures d[m] < top
  {
    ShapeBounds(a, n, m);
    if a[m] < a[m + 1] {
      assert LeafChild(a, m, a[m]);
      assert l[a[m]] == d[m] + 1;
    } else {
      var k: nat := B(a, m);
      assert InnerChild(a, m, k);
      DepthBelow(a, n, d, l, top, k);
    }
  }

  lemma KraftRoot(d: seq<nat>, top: nat)
    requires |d| > 0 && d[|d| - 1] == 0
    ensures Sum(KraftTerms(d, top), |d| - 1, |d|) == Pow2(top)
  {
    var u := KraftTerms(d, top);
    assert Sum(u, |d| - 1, |d|) == u[|d| - 1] + Sum(u, |d|, |d|);
  }

  /** Cutting the tree above node m: the leaves outside and the roots of the pieces sum to 1. */
  lemma {:induction false} KraftCut(a: seq<nat>, n: nat, d: seq<nat>, l: seq<nat>, top: nat, m: nat)
    requires Lengths(a, n, d, l) && AtMost(l, top) && m < n
    ensures 0 <= B(a, m) <= m && a[m] <= n
    ensures Sum(KraftTerms(l, top), a[m], n) + Sum(KraftTerms(d, top), B(a, m), m)
         == Pow2(top)
    decreases n - m
  {
    ShapeMonotone(a, n, m, n - 1);
    if m == n - 1 {
      KraftRoot(d, top);
    } else {
      KraftCut(a, n, d, l, top, m + 1);
      KraftCutStep(a, n, d, l, top, m);
    }
  }

  lemma KraftCutStep(a: seq<nat>, n: nat, d: seq<nat>, l: seq<nat>, top: nat, m: nat)
    requires Lengths(a, n, d, l) && AtMost(l, top) && m < n - 1
    ensures 0 <= B(a, m) <= B(a, m + 1) <= m && a[m] <= a[m + 1] <= n
    ensures Sum(KraftTerms(l, top), a[m], n) + Sum(KraftTerms(d, top), B(a, m), m)
         == Sum(KraftTerms(l, top), a[m + 1], n) + Sum(KraftTerms(d, top), B(a, m + 1), m + 1)
  {
    var t, u := KraftTerms(l, top), KraftTerms(d, top);
    KraftNode(a, n, d, l, top, m);
    SumSplit(t, a[m], a[m + 1], n);
    SumSplit(u, B(a, m), B(a, m + 1), m);
    SumLast(u, B(a, m + 1), m);
    assert u[m] == Pow2(top - d[m]);
  }

  /** The code lengths of such a tree have a Kraft sum of exactly 1. */
  lemma KraftIsOne(a: seq<nat>, n: nat, d: seq<nat>, l: seq<nat>, top: nat)
    requires Lengths(a, n, d, l) && AtMost(l, top)
    ensures Sum(KraftTerms(l, top), 0, n) == Pow2(top)
  {
    KraftCut(a, n, d, l, top, 0);
  }
}
