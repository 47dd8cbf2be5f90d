/** The in-place construction of code lengths from sorted frequencies (after Moffat and Katajainen):
    one array holds, in turn, frequencies, weights of inner nodes, parent indices, depths of inner
    nodes and finally code lengths. Keys are 16 bits wide, so sums are taken modulo 65536. */
module MinimumRedundancy {
  import opened BitArith
  import opened HuffmanShape
  import opened HuffmanOptimal

  // ---------------------------------------------------------------- first pass: joining trees

  /** The shape of the tree when `next` inner nodes have been made. */
  ghost predicate PartialShape(a: seq<nat>, n: nat, next: nat) {
    && 1 <= next < n && |a| == next + 1 && a[0] == 0 && a[next] <= n
    && 0 <= B(a, next) < next
    && forall m: nat :: m < next ==> StepOk(a, m)
  }

  /** Consumed inner nodes hold the index of their parent. */
  ghost predicate ParentsStored(keys: seq<nat>, a: seq<nat>, next: nat)
    requires |a| == next + 1
  {
    forall m: nat, k: nat :: m < next && InnerChild(a, m, k) && k < |keys| ==> keys[k] == m
  }

  /** Inner nodes and leaves that are still to be consumed hold their weight. */
  ghost predicate WeightsStored(keys: seq<nat>, f: seq<nat>, w: seq<nat>, root: int, leaf: int) {
    && |keys| == |f| && 0 <= root && |w| <= |keys|
    && (forall k :: root <= k < |w| ==> keys[k] == w[k])
    && (forall k :: 0 <= leaf <= k < |f| ==> keys[k] == f[k])
  }

  /** What greedy construction needs, as far as it has got: `lo` is the heaviest tree consumed. */
  ghost predicate PartialGreedy(a: seq<nat>, n: nat, f: seq<nat>, w: seq<nat>, next: nat, lo: nat) {
    && PartialShape(a, n, next) && |f| == n && |w| == next && Ascending(f) && Ascending(w)
    && (a[next] < n ==> lo <= f[a[next]]) && lo <= w[B(a, next)] && w[next - 1] <= 2 * lo
    && Sum(f, a[next], n) + Sum(w, B(a, next), next) == Total(f)
    && NodesTaken(a, n, f, w, next)
  }

  /** The first `next` inner nodes are sums of their children and took the lightest trees. */
  ghost predicate NodesTaken(a: seq<nat>, n: nat, f: seq<nat>, w: seq<nat>, next: nat)
    requires next < |a|
  {
    forall m: nat {:trigger NodeWeight(a, n, f, w, m)} :: m < next ==>
      NodeWeight(a, n, f, w, m) && LightestTaken(a, n, f, w, m)
  }

  /** What one consumption took: the inner node (left) or the leaf (right) in front. */
  ghost predicate Took(f: seq<nat>, w: seq<nat>, root: nat, leaf: nat, root': nat, leaf': nat, x: nat) {
    if leaf' == leaf then
      root' == root + 1 <= |w| && x == w[root] && (leaf < |f| ==> w[root] < f[leaf])
    else
      leaf' == leaf + 1 <= |f| && root' == root && x == f[leaf] && (root < |w| ==> f[leaf] <= w[root])
  }

  /** Consumes the lighter of the next inner node and the next leaf. */
  method TakeLighter(keys: array<nat>, next: nat, root: nat, leaf: nat, ghost f: seq<nat>, ghost w: seq<nat>)
    returns (x: nat, root': nat, leaf': nat)
    requires root <= next <= |w| && next < leaf <= keys.Length && |w| <= next
    requires root == next ==> leaf < keys.Length
    requires WeightsStored(keys[..], f, w, root, leaf)
    modifies keys
    ensures Took(f, w, root, leaf, root', leaf', x)
    ensures forall k :: 0 <= k < keys.Length ==> keys[k] == if root <= k < root' then next else old(keys[k])
  {
    root', leaf' := root, leaf;
    if leaf >= keys.Length || (root < next && keys[root] < keys[leaf]) {
      x := keys[root];
      keys[root] := next;
      root' := root + 1;
    } else {
      x := keys[leaf];
      leaf' := leaf + 1;
    }
  }

  /** The structure grows by one inner node, whatever is consumed. */
  lemma ShapeStep(a: seq<nat>, n: nat, next: nat, leaf: nat)
    requires PartialShape(a, n, next) && next < n - 1
    requires a[next] <= leaf <= a[next] + 2 && leaf <= n && 0 <= 2 * (next + 1) - leaf <= next
    ensures PartialShape(a + [leaf], n, next + 1)
  {
    var a' := a + [leaf];
    forall m: nat | m < next + 1 ensures StepOk(a', m) {
      if m < next { assert StepOk(a, m); }
    }
  }

  lemma ParentsStep(keys: seq<nat>, keys': seq<nat>, a: seq<nat>, n: nat, next: nat, leaf: nat)
    requires PartialShape(a, n, next) && ParentsStored(keys, a, next) && |keys| == |keys'| == n
    requires a[next] <= leaf
    requires forall k :: 0 <= k < B(a, next) ==> keys'[k] == keys[k]
    requires forall k :: B(a, next) <= k < 2 * (next + 1) - leaf && k < n ==> keys'[k] == next
    ensures ParentsStored(keys', a + [leaf], next + 1)
  {
    var a' := a + [leaf];
    forall m: nat, k: nat | m < next + 1 && InnerChild(a', m, k) && k < |keys'| ensures keys'[k] == m {
      if m < next {
        assert InnerChild(a, m, k);
        PartialMonotone(a, n, next, m + 1);
      }
    }
  }

  lemma {:induction false} PartialMonotone(a: seq<nat>, n: nat, next: nat, m: nat)
    requires PartialShape(a, n, next) && m <= next
    ensures 0 <= B(a, m) <= B(a, next) && a[m] <= a[next]
    decreases next - m
  {
    if m < next {
      PartialMonotone(a, n, next, m + 1);
      assert StepOk(a, m);
      PartialNonNegative(a, n, next, m);
    }
  }

  lemma {:induction false} PartialNonNegative(a: seq<nat>, n: nat, next: nat, m: nat)
    requires PartialShape(a, n, next) && m <= next
    ensures 0 <= B(a, m)
  {
    if m > 0 {
      PartialNonNegative(a, n, next, m - 1);
      assert StepOk(a, m - 1);
    }
  }

  /** Both consumed trees are at least as heavy as `lo`, and no heavier than what is left. */
  lemma TakenOrder(f: seq<nat>, w: seq<nat>, lo: nat, root: nat, leaf: nat, root1: nat, leaf1: nat, root2: nat,
    leaf2: nat, x1: nat, x2: nat)
    requires Ascending(f) && Ascending(w) && root < |w| && leaf <= |f| && lo <= w[root]
      && (leaf < |f| ==> lo <= f[leaf])
    requires Took(f, w, root, leaf, root1, leaf1, x1) && Took(f, w, root1, leaf1, root2, leaf2, x2)
    ensures lo <= x1 <= x2
    ensures leaf2 < |f| ==> x2 <= f[leaf2]
    ensures root2 < |w| ==> x2 <= w[root2]
    ensures leaf < leaf2 && root2 < |w| ==> f[leaf2 - 1] <= w[root2]
    ensures root < root2 && leaf2 < |f| ==> w[root2 - 1] <= f[leaf2]
    ensures Sum(f, leaf, leaf2) + Sum(w, root, root2) == x1 + x2
  {
    SumFew(f, leaf, leaf2);
    SumFew(w, root, root2);
  }

  lemma SumFew(s: seq<nat>, lo: nat, hi: nat)
    requires lo <= hi <= lo + 2 && hi <= |s|
    ensures Sum(s, lo, hi) == (if lo < hi then s[lo] else 0) + (if lo + 1 < hi then s[lo + 1] else 0)
  {
    if lo < hi { assert Sum(s, lo, hi) == s[lo] + Sum(s, lo + 1, hi); }
    if lo + 1 < hi { assert Sum(s, lo + 1, hi) == s[lo + 1] + Sum(s, lo + 2, hi); }
  }

  lemma OldNodesKept(a: seq<nat>, n: nat, f: seq<nat>, w: seq<nat>, next: nat, leaf: nat, x: nat, m: nat)
    requires m < next && |a| == next + 1 && |w| == next
    requires NodeWeight(a, n, f, w, m) && LightestTaken(a, n, f, w, m)
    ensures NodeWeight(a + [leaf], n, f, w + [x], m) && LightestTaken(a + [leaf], n, f, w + [x], m)
  {
    SumSame(w, w + [x], B(a, m), B(a, m + 1));
  }

  lemma TotalStep(f: seq<nat>, w: seq<nat>, root: nat, leaf: nat, root2: nat, leaf2: nat, x: nat)
    requires leaf <= leaf2 <= |f| && root <= root2 <= |w| && Sum(f, leaf, leaf2) + Sum(w, root, root2) == x
    ensures Sum(f, leaf2, |f|) + Sum(w + [x], root2, |w| + 1) == Sum(f, leaf, |f|) + Sum(w, root, |w|)
  {
    SumSplit(f, leaf, leaf2, |f|);
    SumSplit(w, root, root2, |w|);
    SumSame(w, w + [x], root2, |w|);
    SumLast(w + [x], root2, |w|);
  }

  lemma NewNode(a: seq<nat>, n: nat, f: seq<nat>, w: seq<nat>, next: nat, root2: nat, leaf2: nat, x: nat)
    requires |a| == next + 1 && |w| == next && 0 <= B(a, next) <= root2 <= next && a[next] <= leaf2 <= |f|
    requires root2 + leaf2 == 2 * (next + 1)
    requires Sum(f, a[next], leaf2) + Sum(w, B(a, next), root2) == x
    requires a[next] < leaf2 && root2 < next ==> f[leaf2 - 1] <= w[root2]
    requires B(a, next) < root2 && leaf2 < |f| ==> w[root2 - 1] <= f[leaf2]
    ensures NodeWeight(a + [leaf2], n, f, w + [x], next) && LightestTaken(a + [leaf2], n, f, w + [x], next)
  {
    var a', w' := a + [leaf2], w + [x];
    assert B(a', next) == B(a, next) && B(a', next + 1) == root2;
    SumSame(w, w', B(a, next), root2);
  }

  lemma GreedyStep(a: seq<nat>, n: nat, f: seq<nat>, w: seq<nat>, next: nat, lo: nat,
                   root1: nat, leaf1: nat, root2: nat, leaf2: nat, x1: nat, x2: nat)
    requires PartialGreedy(a, n, f, w, next, lo) && next < n - 1
    requires Took(f, w, B(a, next), a[next], root1, leaf1, x1) && Took(f, w, root1, leaf1, root2, leaf2, x2)
    ensures x1 + x2 <= Total(f)
    ensures PartialGreedy(a + [leaf2], n, f, w + [x1 + x2], next + 1, x2)
  {
    var root, leaf := B(a, next), a[next];
    var a', w' := a + [leaf2], w + [x1 + x2];
    assert root1 + leaf1 == 2 * next + 1 && root1 <= next && leaf1 <= n;
    assert root2 + leaf2 == 2 * (next + 1) && root <= root2 <= next && leaf <= leaf2 <= n;
    TakenOrder(f, w, lo, root, leaf, root1, leaf1, root2, leaf2, x1, x2);
    ShapeStep(a, n, next, leaf2);
    TotalStep(f, w, root, leaf, root2, leaf2, x1 + x2);
    NewNode(a, n, f, w, next, root2, leaf2, x1 + x2);
    AllNodes(a, a', n, f, w, w', next, leaf2, x1 + x2);
    AscendingSnoc(w, x1 + x2);
    assert a'[next + 1] == leaf2 && B(a', next + 1) == root2;
  }

  lemma AscendingSnoc(w: seq<nat>, x: nat)
    requires Ascending(w) && (|w| > 0 ==> w[|w| - 1] <= x)
    ensures Ascending(w + [x])
  {}

  lemma AllNodes(a: seq<nat>, a': seq<nat>, n: nat, f: seq<nat>, w: seq<nat>, w': seq<nat>, next: nat, leaf: nat,
    x: nat)
    requires |a| == next + 1 && |w| == next && a' == a + [leaf] && w' == w + [x]
    requires NodesTaken(a, n, f, w, next)
    requires NodeWeight(a', n, f, w', next) && LightestTaken(a', n, f, w', next)
    ensures NodesTaken(a', n, f, w', next + 1)
  {
    forall m: nat | m < next
      ensures NodeWeight(a', n, f, w', m) && LightestTaken(a', n, f, w', m)
    {
      assert NodeWeight(a, n, f, w, m);
      OldNodesKept(a, n, f, w, next, leaf, x, m);
    }
  }

  /** Sorted frequencies whose sum fits a key. */
  ghost predicate Proper(f: seq<nat>) { Ascending(f) && Total(f) < 65536 }

  /** Takes the two lightest trees and stores the sum of their weights as inner node `next`. */
  method JoinTwo(keys: array<nat>, next: nat, root: nat, leaf: nat, ghost f: seq<nat>, ghost w: seq<nat>)
    returns (root': nat, leaf': nat, ghost x1: nat, ghost x2: nat, ghost root1: nat, ghost leaf1: nat)
    requires root < next == |w| && next < leaf && root + leaf == 2 * next && leaf <= keys.Length
      && next < keys.Length - 1
    requires true == WeightsStored(keys[..], f, w, root, leaf)
    modifies keys
    ensures true == Took(f, w, root, leaf, root1, leaf1, x1) && true == Took(f, w, root1, leaf1, root', leaf', x2)
    ensures true == WeightsStored(keys[..], f, w + [(x1 + x2) % 65536], root', leaf')
    ensures forall k :: 0 <= k < root ==> keys[k] == old(keys[k])
    ensures forall k :: root <= k < root' ==> keys[k] == next
    ensures root' <= next && leaf <= leaf' <= keys.Length && root' + leaf' == 2 * (next + 1)
  {
    var y1, r1, l1 := TakeLighter(keys, next, root, leaf, f, w);
    keys[next] := y1;
    var y2;
    y2, root', leaf' := TakeLighter(keys, next, r1, l1, f, w);
    keys[next] := (keys[next] + y2) % 65536;
    x1, x2, root1, leaf1 := y1, y2, r1, l1;
  }

  /** Makes inner node `next` out of the two lightest trees. */
  method JoinNext(keys: array<nat>, next: nat, root: nat, leaf: nat, ghost f: seq<nat>, ghost w: seq<nat>,
    ghost a: seq<nat>, ghost lo: nat)
    returns (root': nat, leaf': nat, ghost x: nat, ghost lo': nat)
    requires keys.Length <= 65536 && true == PartialShape(a, keys.Length, next) && next < keys.Length - 1
    requires root == B(a, next) && leaf == a[next] && |w| == next
    requires true == WeightsStored(keys[..], f, w, root, leaf) && true == ParentsStored(keys[..], a, next)
    requires Proper(f) ==> true == PartialGreedy(a, keys.Length, f, w, next, lo)
    modifies keys
    ensures true == PartialShape(a + [leaf'], keys.Length, next + 1)
    ensures root' == 2 * (next + 1) - leaf'
    ensures true == WeightsStored(keys[..], f, w + [x], root', leaf')
    ensures true == ParentsStored(keys[..], a + [leaf'], next + 1)
    ensures Proper(f) ==> true == PartialGreedy(a + [leaf'], keys.Length, f, w + [x], next + 1, lo')
  {
    ghost var before := keys[..];
    ghost var x1, x2, root1, leaf1;
    root', leaf', x1, x2, root1, leaf1 := JoinTwo(keys, next, root, leaf, f, w);
    x, lo' := (x1 + x2) % 65536, x2;
    ShapeStep(a, keys.Length, next, leaf');
    ParentsStep(before, keys[..], a, keys.Length, next, leaf');
    if Proper(f) {
      GreedyStep(a, keys.Length, f, w, next, lo, root1, leaf1, root', leaf', x1, x2);
      assert x == x1 + x2;
    }
  }

  lemma FirstJoin(f: seq<nat>)
    requires |f| >= 2
    ensures PartialShape([0, 2], |f|, 1)
    ensures Proper(f) ==> f[0] + f[1] <= Total(f) && PartialGreedy([0, 2], |f|, f, [f[0] + f[1]], 1, f[1])
  {
    var a, w := [0, 2], [f[0] + f[1]];
    assert StepOk(a, 0);
    SumFew(f, 0, 2);
    SumSplit(f, 0, 2, |f|);
    assert Sum(w, 0, 1) == w[0] + Sum(w, 1, 1);
    if Proper(f) {
      assert Sum(w, 0, 0) == 0;
      assert NodeWeight(a, |f|, f, w, 0) && LightestTaken(a, |f|, f, w, 0);
    }
  }

  /** The first pass: every inner node but the last ends up holding the index of its parent. */
  method JoinAll(keys: array<nat>) returns (ghost a: seq<nat>, ghost w: seq<nat>)
    requires 2 <= keys.Length <= 65536
    modifies keys
    ensures Shape(a, keys.Length) && ParentsStored(keys[..], a, keys.Length - 1)
    ensures Proper(old(keys[..])) ==> Greedy(a, keys.Length, old(keys[..]), w)
  {
    ghost var f := keys[..];
    var n := keys.Length;
    keys[0] := (keys[0] + keys[1]) % 65536;
    var root, leaf, next := 0, 2, 1;
    a, w := [0, 2], [keys[0]];
    ghost var lo := f[1];
    FirstJoin(f);
    while next < n - 1
      invariant 1 <= next <= n - 1 && PartialShape(a, n, next) && root == B(a, next) && leaf == a[next] && |w| == next
      invariant WeightsStored(keys[..], f, w, root, leaf) && ParentsStored(keys[..], a, next)
      invariant Proper(f) ==> PartialGreedy(a, n, f, w, next, lo)
    {
      ghost var x;
      root, leaf, x, lo := JoinNext(keys, next, root, leaf, f, w, a, lo);
      a, w := a + [leaf], w + [x];
      next := next + 1;
    }
  }

  // ---------------------------------------------------------------- second pass: depths

  /** From the root down, a node is one deeper than its parent. */
  method FindDepths(keys: array<nat>, ghost a: seq<nat>)
    requires Shape(a, keys.Length) && ParentsStored(keys[..], a, keys.Length - 1)
    modifies keys
    ensures Depths(a, keys.Length, keys[..keys.Length - 1])
  {
    var n := keys.Length;
    ghost var parents := keys[..];
    keys[n - 2] := 0;
    var next := n - 3;
    while next >= 0
      invariant -1 <= next <= n - 3 && keys[n - 2] == 0
      invariant forall k :: 0 <= k <= next ==> keys[k] == parents[k]
      invariant forall m: nat, k: nat :: m < n - 1 && next < k < n - 2 && InnerChild(a, m, k) ==> keys[k] == keys[m] + 1
    {
      ghost var p := ParentOf(a, n, next, 0);
      assert InnerChild(a, p, next);
      forall m: nat | m < n - 1 && InnerChild(a, m, next) ensures m == p {
        assert parents[next] == m;
      }
      ShapeAfter(a, n);
      keys[next] := keys[keys[next]] + 1;
      next := next - 1;
    }
  }

  /** Parents come after their children. */
  lemma ShapeAfter(a: seq<nat>, n: nat)
    requires Shape(a, n)
    ensures forall m: nat, k: nat :: m < n - 1 && InnerChild(a, m, k) ==> k < m
  {
    forall m: nat, k: nat | m < n - 1 && InnerChild(a, m, k) ensures k < m { assert StepOk(a, m); }
  }

  // ---------------------------------------------------------------- third pass: code lengths

  /** Leaves after `next` have their code length, inner nodes up to `root` still their depth. */
  ghost predicate LengthsStored(keys: seq<nat>, a: seq<nat>, n: nat, d: seq<nat>, root: int, next: int) {
    && |keys| == n && |d| == n - 1 && -1 <= root < n - 1 && root <= next < n && |a| == n
    && (forall k :: 0 <= k <= root ==> keys[k] == d[k])
    && (forall m: nat, i: nat :: m < n - 1 && next < i < n && LeafChild(a, m, i) ==> keys[i] == d[m] + 1)
  }

  /** The inner nodes of depth `depth` - 1 are root+1 .. top-1, all deeper ones come before. */
  ghost predicate AtLevel(a: seq<nat>, n: nat, d: seq<nat>, depth: nat, root: int, next: int, top: nat) {
    && Depths(a, n, d) && top < n && -1 <= root < top
    && B(a, top) == root + 1 && a[top] == next + 1
    && (forall k :: 0 <= k <= root ==> d[k] >= depth)
    && (forall k :: root < k < top ==> d[k] + 1 == depth)
  }

  /** One level further down: its inner nodes and its leaves. */
  lemma NextLevel(a: seq<nat>, n: nat, d: seq<nat>, depth: nat, root: int, next: int, top: nat)
    requires AtLevel(a, n, d, depth, root, next, top)
    ensures 0 <= B(a, root + 1) <= root + 1 && a[root + 1] <= next + 1
    ensures forall k :: B(a, root + 1) <= k <= root ==> d[k] == depth
    ensures forall k :: 0 <= k < B(a, root + 1) ==> d[k] > depth
    ensures forall m: nat, i: nat :: m < n - 1 && a[root + 1] <= i <= next && LeafChild(a, m, i) ==> d[m] + 1 == depth
    ensures next + 1 - a[root + 1] == 2 * (top - root - 1) - (root + 1 - B(a, root + 1))
  {
    ShapeMonotone(a, n, root + 1, top);
    forall k | 0 <= k <= root
      ensures if B(a, root + 1) <= k then d[k] == depth else d[k] > depth
    {
      ShapeMonotone(a, n, top, n - 1);
      var p := ParentOf(a, n, k, 0);
      assert InnerChild(a, p, k);
      if p >= top { ShapeMonotone(a, n, top, p); }
      if p < root + 1 { ShapeMonotone(a, n, p + 1, root + 1); }
      if p >= root + 1 { ShapeMonotone(a, n, root + 1, p); }
    }
    forall m: nat, i: nat | m < n - 1 && a[root + 1] <= i <= next && LeafChild(a, m, i)
      ensures d[m] + 1 == depth
    {
      if m >= top { ShapeMonotone(a, n, top, m); }
      if m < root + 1 { ShapeMonotone(a, n, m + 1, root + 1); }
    }
  }

  method CountLevel(keys: array<nat>, depth: nat, root: int) returns (used: nat, root': int)
    requires -1 <= root < keys.Length
    ensures -1 <= root' == root - used
    ensures forall k :: root' < k <= root ==> keys[k] == depth
    ensures root' >= 0 ==> keys[root'] != depth
  {
    used, root' := 0, root;
    while root' >= 0 && keys[root'] == depth
      invariant -1 <= root' == root - used
      invariant forall k :: root' < k <= root ==> keys[k] == depth
    {
      used := used + 1;
      root' := root' - 1;
    }
  }

  method WriteLevel(keys: array<nat>, depth: nat, avbl: int, used: int, next: int) returns (next': int)
    requires next < keys.Length && used <= avbl && avbl - used <= next + 1
    modifies keys
    ensures next' == next - (avbl - used)
    ensures forall i :: 0 <= i < keys.Length ==> keys[i] == if next' < i <= next then depth else old(keys[i])
  {
    next' := next;
    var left := avbl;
    while left > used
      invariant used <= left <= avbl && next' == next - (avbl - left)
      invariant forall i :: 0 <= i < keys.Length ==> keys[i] == if next' < i <= next then depth else old(keys[i])
    {
      keys[next'] := depth;
      next' := next' - 1;
      left := left - 1;
    }
  }

  lemma RootLevel(a: seq<nat>, n: nat, d: seq<nat>)
    requires Depths(a, n, d)
    ensures AtLevel(a, n, d, 1, n - 3, n - 1, n - 1)
  {
    forall k | 0 <= k <= n - 3 ensures d[k] >= 1 {
      var p := ParentOf(a, n, k, 0);
      assert InnerChild(a, p, k);
    }
  }

  lemma LastLevel(a: seq<nat>, n: nat, d: seq<nat>, depth: nat, root: int, next: int, top: nat)
    requires AtLevel(a, n, d, depth, root, next, top) && top == root + 1
    ensures top == 0 && next == -1
  {
    assert top > 0 ==> StepOk(a, top - 1);
  }

  /** Where the third pass stands: `avbl` tree positions of depth `depth` are to be filled. */
  ghost predicate LoopState(a: seq<nat>, n: nat, d: seq<nat>, depth: nat, root: int, next: int, avbl: int, top: nat) {
    if depth == 0 then Depths(a, n, d) && root == n - 2 && next == n - 1 && avbl == 1
    else AtLevel(a, n, d, depth, root, next, top) && avbl == 2 * (top - root - 1)
  }

  lemma LoopBounds(a: seq<nat>, n: nat, d: seq<nat>, depth: nat, root: int, next: int, avbl: int, top: nat)
    requires LoopState(a, n, d, depth, root, next, avbl, top)
    ensures next == root + avbl && avbl >= 0
  {}

  /** What the counted inner nodes of the level leave for its leaves. */
  lemma LevelDone(keys: seq<nat>, a: seq<nat>, n: nat, d: seq<nat>, depth: nat, root: int, next: int, avbl: int,
    top: nat, root': int, used: nat) returns (next': int, top': nat)
    requires LoopState(a, n, d, depth, root, next, avbl, top) && LengthsStored(keys, a, n, d, root, next)
    requires -1 <= root' == root - used
    requires forall k :: root' < k <= root ==> keys[k] == depth
    requires root' >= 0 ==> keys[root'] != depth
    ensures used <= avbl && next' == next - (avbl - used) && root' <= next'
    ensures LoopState(a, n, d, depth + 1, root', next', 2 * used, top')
    ensures forall m: nat, i: nat :: m < n - 1 && next' < i <= next && LeafChild(a, m, i) ==> d[m] + 1 == depth
  {
    if depth == 0 {
      RootCounted(keys, a, n, d, root', next);
      RootLevel(a, n, d);
      next', top' := next, n - 1;
    } else {
      NextLevel(a, n, d, depth, root, next, top);
      LevelCounted(keys, a, n, d, depth, root, root', next, top);
      next', top' := a[root + 1] as int - 1, root + 1;
    }
    LoopBounds(a, n, d, depth + 1, root', next', 2 * used, top');
  }

  /** Levels are handled from the root down; leaves are handed out from the right. */
  method AssignLengths(keys: array<nat>, ghost a: seq<nat>, ghost d: seq<nat>)
    requires Depths(a, keys.Length, d) && keys[..keys.Length - 1] == d
    modifies keys
    ensures Lengths(a, keys.Length, d, keys[..])
  {
    var n := keys.Length;
    var avbl, depth, root, next := 1, 0, n - 2, n - 1;
    ghost var top: nat := 0;
    while avbl > 0
      invariant LoopState(a, n, d, depth, root, next, avbl, top)
      invariant LengthsStored(keys[..], a, n, d, root, next)
      decreases root + 1, avbl
    {
      var used, root', next';
      LoopBounds(a, n, d, depth, root, next, avbl, top);
      used, root' := CountLevel(keys, depth, root);
      ghost var before := keys[..];
      ghost var nx, tp := LevelDone(before, a, n, d, depth, root, next, avbl, top, root', used);
      next' := WriteLevel(keys, depth, avbl, used, next);
      LevelWritten(before, keys[..], a, n, d, depth, root, root', next, next');
      avbl, depth, root, next, top := 2 * used, depth + 1, root', next', tp;
    }
    LoopBounds(a, n, d, depth, root, next, avbl, top);
    LastLevel(a, n, d, depth, root, next, top);
  }

  lemma LevelCounted(keys: seq<nat>, a: seq<nat>, n: nat, d: seq<nat>, depth: nat, root: int, root': int, next: int,
    top: nat)
    requires AtLevel(a, n, d, depth, root, next, top) && LengthsStored(keys, a, n, d, root, next) && -1 <= root' <= root
    requires forall k :: root' < k <= root ==> keys[k] == depth
    requires root' >= 0 ==> keys[root'] != depth
    ensures root' + 1 == B(a, root + 1)
    ensures 0 <= root + 1 && AtLevel(a, n, d, depth + 1, root', a[root + 1] as int - 1, root + 1)
  {
    NextLevel(a, n, d, depth, root, next, top);
    assert root >= 0 ==> StepOk(a, root);
    assert root' >= 0 ==> keys[root'] == d[root'];
    assert root' < root ==> keys[root' + 1] == d[root' + 1];
  }

  lemma RootCounted(keys: seq<nat>, a: seq<nat>, n: nat, d: seq<nat>, root': int, next: int)
    requires Depths(a, n, d) && LengthsStored(keys, a, n, d, n - 2, next) && -1 <= root' <= n - 2
    requires forall k :: root' < k <= n - 2 ==> keys[k] == 0
    requires root' >= 0 ==> keys[root'] != 0
    ensures root' == n - 3
  {
    RootLevel(a, n, d);
    assert root' >= 0 ==> keys[root'] == d[root'];
    assert root' < n - 2 ==> keys[root' + 1] == d[root' + 1];
  }

  lemma LevelWritten(keys: seq<nat>, keys': seq<nat>, a: seq<nat>, n: nat, d: seq<nat>, depth: nat, root: int,
    root': int, next: int, next': int)
    requires LengthsStored(keys, a, n, d, root, next) && |keys'| == n && -1 <= root' <= root && root' <= next' <= next
    requires forall i :: 0 <= i < n ==> keys'[i] == if next' < i <= next then depth else keys[i]
    requires forall m: nat, i: nat :: m < n - 1 && next' < i <= next && LeafChild(a, m, i) ==> d[m] + 1 == depth
    ensures LengthsStored(keys', a, n, d, root', next')
  {}

  // ---------------------------------------------------------------- the whole construction

  ghost predicate Descending(l: seq<nat>) {
    forall i, j :: 0 <= i <= j < |l| ==> l[i] >= l[j] >= 1
  }

  /** The lengths have a Kraft sum of exactly 1. */
  ghost predicate KraftOne(l: seq<nat>) {
    forall top: nat :: AtMost(l, top) ==> Kraft(l, top) == Pow2(top)
  }

  /** No prefix code for the frequencies f costs less than l. */
  ghost predicate Optimal(f: seq<nat>, l: seq<nat>)
    requires |f| == |l|
  {
    forall x: seq<nat>, top: nat :: |x| == |f| && Realizable(x, top) ==> Cost(f, l) <= Cost(f, x)
  }

  lemma LengthsSound(a: seq<nat>, n: nat, d: seq<nat>, l: seq<nat>)
    requires Lengths(a, n, d, l)
    ensures Descending(l) && KraftOne(l)
  {
    forall i, j | 0 <= i <= j < n ensures l[i] >= l[j] >= 1 { LengthsDescend(a, n, d, l, i, j); }
    forall top: nat | AtMost(l, top) ensures Kraft(l, top) == Pow2(top) { KraftIsOne(a, n, d, l, top); }
  }

  lemma LengthsOptimal(a: seq<nat>, n: nat, f: seq<nat>, w: seq<nat>, d: seq<nat>, l: seq<nat>)
    requires Greedy(a, n, f, w) && Lengths(a, n, d, l)
    ensures Optimal(f, l)
  {
    forall x: seq<nat>, top: nat | |x| == n && Realizable(x, top) ensures Cost(f, l) <= Cost(f, x) {
      GreedyIsOptimal(a, n, f, w, d, l, x, top);
    }
  }

  /** Replaces frequencies by code lengths. Whatever the keys, the lengths fall from left to right
      and their Kraft sum is exactly 1; for sorted keys whose sum fits 16 bits they are those of
      an optimal prefix code, and for positive ones none exceeds 30. */
  method Calculate(keys: array<nat>)
    requires keys.Length <= 65536
    modifies keys
    ensures keys.Length == 1 ==> keys[0] == 1
    ensures keys.Length >= 2 ==> Descending(keys[..]) && KraftOne(keys[..])
    ensures keys.Length >= 2 && Proper(old(keys[..])) ==> Optimal(old(keys[..]), keys[..])
    ensures keys.Length >= 2 && Proper(old(keys[..])) && old(keys[0]) > 0 ==> AtMost(keys[..], 30)
  {
    ghost var f := keys[..];
    var n := keys.Length;
    if n == 0 { return; }
    if n == 1 { keys[0] := 1; return; }
    ghost var a, w := JoinAll(keys);
    FindDepths(keys, a);
    ghost var d := keys[..n - 1];
    AssignLengths(keys, a, d);
    LengthsSound(a, n, d, keys[..]);
    if Proper(f) {
      LengthsOptimal(a, n, f, w, d, keys[..]);
      if f[0] > 0 { LengthBound(a, n, f, w, d, keys[..]); }
    }
  }
}
