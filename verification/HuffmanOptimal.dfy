/** Why always joining the two lightest trees gives a code of least total length. */
module HuffmanOptimal {
  import opened BitArith
  import opened HuffmanShape

  /** Termwise products: the cost of lengths l for weights f is the sum of these. */
  function Products(f: seq<nat>, l: seq<nat>): (t: seq<nat>)
    requires |l| == |f|
    ensures |t| == |f|
  {
    seq(|f|, i requires 0 <= i < |f| => f[i] * l[i])
  }

  function Cost(f: seq<nat>, l: seq<nat>): nat
    requires |l| == |f|
  {
    Sum(Products(f, l), 0, |f|)
  }

  /** Lengths that some prefix code has: their Kraft sum is at most 1. */
  ghost predicate Realizable(l: seq<nat>, top: nat) {
    AtMost(l, top) && Sum(KraftTerms(l, top), 0, |l|) <= Pow2(top)
  }

  // ---------------------------------------------------------------- changing one length

  lemma {:induction false} SumUpdate(s: seq<nat>, i: nat, v: nat, lo: int, hi: int)
    requires 0 <= lo <= hi <= |s| && i < |s|
    ensures Sum(s[i := v], lo, hi) + (if lo <= i < hi then s[i] else 0)
         == Sum(s, lo, hi) + (if lo <= i < hi then v else 0)
    decreases hi - lo
  {
    if lo < hi { SumUpdate(s, i, v, lo + 1, hi); }
  }

  lemma CostUpdate(f: seq<nat>, l: seq<nat>, i: nat, v: nat)
    requires |l| == |f| && i < |f|
    ensures Cost(f, l[i := v]) + f[i] * l[i] == Cost(f, l) + f[i] * v
  {
    SumUpdate(Products(f, l), i, f[i] * v, 0, |f|);
    assert Products(f, l[i := v]) == Products(f, l)[i := f[i] * v];
  }

  lemma KraftUpdate(l: seq<nat>, top: nat, i: nat, v: nat)
    requires i < |l| && l[i] <= top && v <= top
    ensures Sum(KraftTerms(l[i := v], top), 0, |l|) + Pow2(top - l[i])
         == Sum(KraftTerms(l, top), 0, |l|) + Pow2(top - v)
  {
    SumUpdate(KraftTerms(l, top), i, Pow2(top - v), 0, |l|);
    assert KraftTerms(l[i := v], top) == KraftTerms(l, top)[i := Pow2(top - v)];
  }

  function Swap(l: seq<nat>, i: nat, j: nat): (r: seq<nat>)
    requires i < |l| && j < |l|
    ensures |r| == |l|
  {
    l[i := l[j]][j := l[i]]
  }

  /** Giving the longer code to the lighter symbol does not cost more. */
  lemma SwapCost(f: seq<nat>, l: seq<nat>, i: nat, j: nat)
    requires |l| == |f| && i < |f| && j < |f| && f[i] <= f[j] && l[i] <= l[j]
    ensures Cost(f, Swap(l, i, j)) <= Cost(f, l)
  {
    CostUpdate(f, l, i, l[j]);
    CostUpdate(f, l[i := l[j]], j, l[i]);
    Rearrange(f[i], f[j], l[i], l[j]);
  }

  lemma Rearrange(a: int, b: int, c: int, d: int)
    requires a <= b && c <= d
    ensures a * d + b * c <= a * c + b * d
  {
    assert (b - a) * (d - c) >= 0;
    assert (b - a) * (d - c) == b * d - b * c - a * d + a * c;
  }

  lemma SwapRealizable(l: seq<nat>, top: nat, i: nat, j: nat)
    requires Realizable(l, top) && i < |l| && j < |l|
    ensures Realizable(Swap(l, i, j), top)
  {
    KraftUpdate(l, top, i, l[j]);
    KraftUpdate(l[i := l[j]], top, j, l[i]);
  }

  lemma {:induction false} Longest(l: seq<nat>, skip: int, n: nat) returns (t: nat)
    requires n <= |l| && (n >= 2 || (n == 1 && skip != 0))
    ensures t < n && t != skip && forall i :: 0 <= i < n && i != skip ==> l[i] <= l[t]
  {
    if n == 1 || (n == 2 && (skip == 0 || skip == 1)) {
      t := if skip == n - 1 then 0 else n - 1;
    } else if skip == n - 1 {
      t := Longest(l, skip, n - 1);
    } else {
      t := Longest(l, skip, n - 1);
      if l[n - 1] > l[t] { t := n - 1; }
    }
  }

  // ---------------------------------------------------------------- shortening a lonely longest code

  lemma {:induction false} SumDivisible(l: seq<nat>, top: nat, p: nat, m: nat, n: nat) returns (q: nat)
    requires n <= |l| && m <= top && forall i :: 0 <= i < n && i != p ==> l[i] <= m
    ensures Sum(KraftTerms(l, top), 0, n) == q * Pow2(top - m) + (if p < n then KraftTerms(l, top)[p] else 0)
  {
    if n == 0 {
      q := 0;
    } else {
      var r := SumDivisible(l, top, p, m, n - 1);
      SumLast(KraftTerms(l, top), 0, n - 1);
      if p == n - 1 {
        q := r;
      } else {
        Pow2Add(m - l[n - 1], top - m);
        q := r + Pow2(m - l[n - 1]);
        assert (r + Pow2(m - l[n - 1])) * Pow2(top - m)
            == r * Pow2(top - m) + Pow2(m - l[n - 1]) * Pow2(top - m);
      }
    }
  }

  lemma MultipleGap(q: nat, k: nat, g: nat, e: nat)
    requires g > 0 && e > 0 && q * g + e <= k * g
    ensures (q + 1) * g <= k * g
  {
    if q >= k { MulMonotone(k, q, g); }
    MulMonotone(q + 1, if q < k then k else q + 1, g);
  }

  /** If p alone has the longest code, p can have the second longest length instead. */
  lemma Shorten(l: seq<nat>, top: nat, p: nat, m: nat)
    requires Realizable(l, top) && p < |l| && m <= l[p]
    requires forall i :: 0 <= i < |l| && i != p ==> l[i] <= m
    ensures Realizable(l[p := m], top)
  {
    var q := SumDivisible(l, top, p, m, |l|);
    Pow2Add(m, top - m);
    assert KraftTerms(l, top)[p] == Pow2(top - l[p]);
    MultipleGap(q, Pow2(m), Pow2(top - m), Pow2(top - l[p]));
    KraftUpdate(l, top, p, m);
    assert (q + 1) * Pow2(top - m) == q * Pow2(top - m) + Pow2(top - m);
  }

  /** The exchange argument: for the two lightest weights p and q some code at least as good gives
      both the same, positive, length. */
  lemma Exchange(f: seq<nat>, l: seq<nat>, top: nat, p: nat, q: nat) returns (r: seq<nat>)
    requires |l| == |f| && Realizable(l, top) && p < |f| && q < |f| && p != q
    requires f[p] <= f[q] && forall i :: 0 <= i < |f| && i != p ==> f[q] <= f[i]
    ensures |r| == |f| && Realizable(r, top) && Cost(f, r) <= Cost(f, l) && r[p] == r[q] >= 1
  {
    var t := Longest(l, -1, |l|);
    var l1 := Swap(l, p, t);
    assert f[p] <= f[t];
    SwapCost(f, l, p, t);
    SwapRealizable(l, top, p, t);
    var u := Longest(l1, p, |l1|);
    var l2 := Swap(l1, q, u);
    SwapCost(f, l1, q, u);
    SwapRealizable(l1, top, q, u);
    assert forall i :: 0 <= i < |l2| && i != p ==> l2[i] <= l2[q];
    Shorten(l2, top, p, l2[q]);
    r := l2[p := l2[q]];
    CostUpdate(f, l2, p, l2[q]);
    MulMonotone(l2[q], l2[p], f[p]);
    PairPositive(r, top, p, q);
  }

  lemma PairPositive(r: seq<nat>, top: nat, p: nat, q: nat)
    requires Realizable(r, top) && p < |r| && q < |r| && p != q
    ensures r[p] >= 1
  {
    var s := KraftTerms(r, top);
    SumUpdate(s, p, 0, 0, |s|);
    SumUpdate(s[p := 0], q, 0, 0, |s|);
    assert s[q] >= 1 && s[p] + s[q] <= Pow2(top);
  }

  // ---------------------------------------------------------------- joining two trees

  function Kraft(l: seq<nat>, top: nat): nat { Sum(KraftTerms(l, top), 0, |l|) }

  function Total(s: seq<nat>): nat { Sum(s, 0, |s|) }

  lemma {:induction false} SumShift(s: seq<nat>, t: seq<nat>, lo: int, hi: int)
    requires 0 <= lo && hi <= |t|
    ensures Sum(s + t, |s| + lo, |s| + hi) == Sum(t, lo, hi)
    decreases hi - lo
  {
    if lo < hi { SumShift(s, t, lo + 1, hi); }
  }

  lemma TotalConcat(s: seq<nat>, t: seq<nat>)
    ensures Total(s + t) == Total(s) + Total(t)
  {
    SumSplit(s + t, 0, |s|, |s + t|);
    SumSame(s + t, s, 0, |s|);
    SumShift(s, t, 0, |t|);
  }

  lemma CostConcat(f: seq<nat>, g: seq<nat>, k: seq<nat>, l: seq<nat>)
    requires |k| == |f| && |l| == |g|
    ensures Cost(f + g, k + l) == Cost(f, k) + Cost(g, l)
  {
    TotalConcat(Products(f, k), Products(g, l));
    assert Products(f + g, k + l) == Products(f, k) + Products(g, l);
  }

  lemma KraftConcat(k: seq<nat>, l: seq<nat>, top: nat)
    ensures Kraft(k + l, top) == Kraft(k, top) + Kraft(l, top)
  {
    TotalConcat(KraftTerms(k, top), KraftTerms(l, top));
    assert KraftTerms(k + l, top) == KraftTerms(k, top) + KraftTerms(l, top);
  }

  ghost predicate AllEqual(l: seq<nat>, y: nat) { forall i :: 0 <= i < |l| ==> l[i] == y }

  lemma {:induction false} CostConstant(f: seq<nat>, l: seq<nat>, y: nat, lo: nat)
    requires |l| == |f| && AllEqual(l, y) && lo <= |f|
    ensures Sum(Products(f, l), lo, |f|) == Sum(f, lo, |f|) * y
    decreases |f| - lo
  {
    if lo < |f| {
      CostConstant(f, l, y, lo + 1);
      var a, b := f[lo], Sum(f, lo + 1, |f|);
      assert (a + b) * y == a * y + b * y;
    }
  }

  lemma KraftPair(k: seq<nat>, l: seq<nat>, top: nat, y: nat)
    requires |k| + |l| == 2 && AllEqual(k, y) && AllEqual(l, y) && 1 <= y <= top
    ensures Kraft(k, top) + Kraft(l, top) == Kraft([y - 1], top)
  {
    var h := Pow2(top - y);
    assert Pow2(top - (y - 1)) == 2 * h;
    SumConstant(KraftTerms(k, top), 0, |k|, h);
    SumConstant(KraftTerms(l, top), 0, |l|, h);
    SumConstant(KraftTerms([y - 1], top), 0, 1, 2 * h);
  }

  /** Two siblings of depth y replaced by their parent at depth y - 1. */
  lemma Join(c1: seq<nat>, i: seq<nat>, c2: seq<nat>, r: seq<nat>, y1: seq<nat>, yi: seq<nat>, y2: seq<nat>,
    yr: seq<nat>, y: nat, top: nat)
    requires |c1| == |y1| && |i| == |yi| && |c2| == |y2| && |r| == |yr| && |c1| + |c2| == 2
    requires AllEqual(y1, y) && AllEqual(y2, y) && 1 <= y <= top
    ensures var w := Total(c1) + Total(c2);
      Cost(c1 + i + c2 + r, y1 + yi + y2 + yr) == Cost(i + [w] + r, yi + [y - 1] + yr) + w
    ensures Kraft(y1 + yi + y2 + yr, top) == Kraft(yi + [y - 1] + yr, top)
  {
    var w := Total(c1) + Total(c2);
    JoinCost(c1, i, c2, r, y1, yi, y2, yr, y);
    KraftPair(y1, y2, top, y);
    KraftConcat(y1, yi, top);
    KraftConcat(y1 + yi, y2, top);
    KraftConcat(y1 + yi + y2, yr, top);
    KraftConcat(yi, [y - 1], top);
    KraftConcat(yi + [y - 1], yr, top);
  }

  lemma JoinCost(c1: seq<nat>, i: seq<nat>, c2: seq<nat>, r: seq<nat>, y1: seq<nat>, yi: seq<nat>, y2: seq<nat>,
    yr: seq<nat>, y: nat)
    requires |c1| == |y1| && |i| == |yi| && |c2| == |y2| && |r| == |yr|
    requires AllEqual(y1, y) && AllEqual(y2, y) && 1 <= y
    ensures var w := Total(c1) + Total(c2);
      Cost(c1 + i + c2 + r, y1 + yi + y2 + yr) == Cost(i + [w] + r, yi + [y - 1] + yr) + w
  {
    var w := Total(c1) + Total(c2);
    CostConcat(c1, i, y1, yi);
    CostConcat(c1 + i, c2, y1 + yi, y2);
    CostConcat(c1 + i + c2, r, y1 + yi + y2, yr);
    CostConcat(i, [w], yi, [y - 1]);
    CostConcat(i + [w], r, yi + [y - 1], yr);
    CostConstant(c1, y1, y, 0);
    CostConstant(c2, y2, y, 0);
    CostSingle(w, y - 1);
    OneLevel(Total(c1), Total(c2), y);
  }

  lemma CostSingle(w: nat, y: nat)
    ensures Cost([w], [y]) == w * y
  {
    CostConstant([w], [y], y, 0);
    assert Sum([w], 0, 1) == w + Sum([w], 1, 1);
  }

  lemma OneLevel(v: int, w: int, y: int)
    ensures v * y + w * y == (v + w) * (y - 1) + (v + w)
  {}

  // ---------------------------------------------------------------- greedy construction

  ghost predicate Ascending(s: seq<nat>) {
    forall i, j :: 0 <= i <= j < |s| ==> s[i] <= s[j]
  }

  /** Every inner node weighs as much as its two children. */
  ghost predicate Weights(a: seq<nat>, n: nat, f: seq<nat>, w: seq<nat>) {
    && Shape(a, n) && |f| == n && |w| == n - 1
    && forall m: nat :: m < n - 1 ==> NodeWeight(a, n, f, w, m)
  }

  ghost predicate NodeWeight(a: seq<nat>, n: nat, f: seq<nat>, w: seq<nat>, m: nat)
    requires m + 1 < |a|
  {
    && 0 <= B(a, m) <= B(a, m + 1) <= |w| && a[m + 1] <= |f| && m < |w|
    && w[m] == Sum(f, a[m], a[m + 1]) + Sum(w, B(a, m), B(a, m + 1))
  }

  /** The children of node m are no heavier than what is left for later nodes. */
  ghost predicate LightestTaken(a: seq<nat>, n: nat, f: seq<nat>, w: seq<nat>, m: nat)
    requires m + 1 < |a| && a[m + 1] <= |f| && 0 <= B(a, m) <= B(a, m + 1) <= |w|
  {
    && (a[m] < a[m + 1] && B(a, m + 1) < m < |w| ==> f[a[m + 1] - 1] <= w[B(a, m + 1)])
    && (B(a, m) < B(a, m + 1) && a[m + 1] < |f| ==> w[B(a, m + 1) - 1] <= f[a[m + 1]])
  }

  ghost predicate Greedy(a: seq<nat>, n: nat, f: seq<nat>, w: seq<nat>) {
    && Weights(a, n, f, w) && Ascending(f) && Ascending(w)
    && forall m: nat {:trigger NodeWeight(a, n, f, w, m)} :: m < n - 1 ==>
         NodeWeight(a, n, f, w, m) && LightestTaken(a, n, f, w, m)
  }

  /** The weights of the trees there are before node m is made. */
  function Forest(a: seq<nat>, f: seq<nat>, w: seq<nat>, m: nat): seq<nat>
    requires m < |a| && 0 <= B(a, m) <= m <= |w| && a[m] <= |f|
  {
    w[B(a, m)..m] + f[a[m]..]
  }

  lemma {:induction false} SumSlice(s: seq<nat>, lo: int, mid: int, hi: int)
    requires 0 <= lo <= mid <= hi <= |s|
    ensures Sum(s, mid, hi) == Sum(s[lo..hi], mid - lo, hi - lo)
    decreases hi - mid
  {
    if mid < hi { SumSlice(s, lo, mid + 1, hi); }
  }

  lemma GreedyBounds(a: seq<nat>, n: nat, f: seq<nat>, w: seq<nat>, m: nat)
    requires Greedy(a, n, f, w) && m < n - 1
    ensures 0 <= B(a, m) <= B(a, m + 1) <= m < |w| && a[m] <= a[m + 1] <= |f|
    ensures a[m + 1] - a[m] + B(a, m + 1) - B(a, m) == 2
    ensures w[m] == Total(w[B(a, m)..B(a, m + 1)]) + Total(f[a[m]..a[m + 1]])
  {
    ShapeBounds(a, n, m);
    assert NodeWeight(a, n, f, w, m);
    SumSlice(f, a[m], a[m], a[m + 1]);
    SumSlice(w, B(a, m), B(a, m), B(a, m + 1));
  }

  /** The two trees joined into node m are the lightest two of the forest. */
  lemma LightestPair(a: seq<nat>, n: nat, f: seq<nat>, w: seq<nat>, m: nat) returns (p: nat, q: nat)
    requires Greedy(a, n, f, w) && m < n - 1
    ensures 0 <= B(a, m) <= B(a, m + 1) <= m < |w| && a[m] <= a[m + 1] <= |f|
    ensures var g := Forest(a, f, w, m); var ci, cl, ni := B(a, m + 1) - B(a, m), a[m + 1] - a[m], m - B(a, m);
      && p < |g| && q < |g| && p != q && ci + cl == 2 && ci <= ni && cl <= n - a[m]
      && g[p] <= g[q] && (forall i :: 0 <= i < |g| && i != p ==> g[q] <= g[i])
      && (p < ci || ni <= p < ni + cl) && (q < ci || ni <= q < ni + cl)
  {
    GreedyBounds(a, n, f, w, m);
    assert NodeWeight(a, n, f, w, m) && LightestTaken(a, n, f, w, m);
    var ci, ni := B(a, m + 1) - B(a, m), m - B(a, m);
    var g := Forest(a, f, w, m);
    assert forall i :: 0 <= i < ni ==> g[i] == w[B(a, m) + i];
    assert forall i :: ni <= i < |g| ==> g[i] == f[a[m] + i - ni];
    if ci == 0 {
      p, q := ni, ni + 1;
    } else if ci == 2 {
      p, q := 0, 1;
    } else if g[0] <= g[ni] {
      p, q := 0, ni;
    } else {
      p, q := ni, 0;
    }
  }

  /** No code for the forest before node m costs less than the nodes still to be made weigh. */
  lemma {:induction false} ForestLowerBound(a: seq<nat>, n: nat, f: seq<nat>, w: seq<nat>, m: nat, x: seq<nat>,
    top: nat)
    requires Greedy(a, n, f, w) && m < n
    requires 0 <= B(a, m) <= m && a[m] <= n
    requires |x| == |Forest(a, f, w, m)| && Realizable(x, top)
    ensures Sum(w, m, n - 1) <= Cost(Forest(a, f, w, m), x)
    decreases n - m
  {
    if m < n - 1 {
      var p, q := LightestPair(a, n, f, w, m);
      var y := Exchange(Forest(a, f, w, m), x, top, p, q);
      var x' := JoinLightest(a, n, f, w, m, y, top, p, q);
      ForestLowerBound(a, n, f, w, m + 1, x', top);
    }
  }

  lemma JoinLightest(a: seq<nat>, n: nat, f: seq<nat>, w: seq<nat>, m: nat, y: seq<nat>, top: nat, p: nat, q: nat)
    returns (x': seq<nat>)
    requires Greedy(a, n, f, w) && m < n - 1
    requires 0 <= B(a, m) <= B(a, m + 1) <= m && a[m] <= a[m + 1] <= n
    requires |y| == |Forest(a, f, w, m)| && Realizable(y, top)
    requires p < |y| && q < |y| && p != q && y[p] == y[q] >= 1
    requires var ci, cl, ni := B(a, m + 1) - B(a, m), a[m + 1] - a[m], m - B(a, m);
      (p < ci || ni <= p < ni + cl) && (q < ci || ni <= q < ni + cl)
    ensures |x'| == |Forest(a, f, w, m + 1)| && Realizable(x', top)
    ensures Cost(Forest(a, f, w, m), y) == Cost(Forest(a, f, w, m + 1), x') + w[m]
  {
    GreedyBounds(a, n, f, w, m);
    var ci, cl, ni := B(a, m + 1) - B(a, m), a[m + 1] - a[m], m - B(a, m);
    var c1, i, c2, r := w[B(a, m)..B(a, m + 1)], w[B(a, m + 1)..m], f[a[m]..a[m + 1]], f[a[m + 1]..];
    var y1, yi, y2, yr := y[..ci], y[ci..ni], y[ni..ni + cl], y[ni + cl..];
    ForestParts(a, f, w, m);
    Quarters(y, ci, ni, cl);
    PairLengths(y, p, q, ci, ni, cl);
    x' := yi + [y[p] - 1] + yr;
    JoinedAtMost(y, p, ci, ni, cl, top);
    Join(c1, i, c2, r, y1, yi, y2, yr, y[p], top);
  }

  lemma ForestParts(a: seq<nat>, f: seq<nat>, w: seq<nat>, m: nat)
    requires m + 1 < |a| && 0 <= B(a, m) <= B(a, m + 1) <= m < |w| && a[m] <= a[m + 1] <= |f|
    ensures Forest(a, f, w, m)
         == w[B(a, m)..B(a, m + 1)] + w[B(a, m + 1)..m] + f[a[m]..a[m + 1]] + f[a[m + 1]..]
    ensures Forest(a, f, w, m + 1) == w[B(a, m + 1)..m] + [w[m]] + f[a[m + 1]..]
  {}

  lemma JoinedAtMost(y: seq<nat>, p: nat, ci: nat, ni: nat, cl: nat, top: nat)
    requires ci <= ni <= ni + cl <= |y| && p < |y| && y[p] >= 1 && AtMost(y, top)
    ensures y[p] <= top && AtMost(y[ci..ni] + [y[p] - 1] + y[ni + cl..], top)
  {}

  lemma Quarters(y: seq<nat>, ci: nat, ni: nat, cl: nat)
    requires ci <= ni <= ni + cl <= |y|
    ensures y == y[..ci] + y[ci..ni] + y[ni..ni + cl] + y[ni + cl..]
  {}

  lemma PairLengths(y: seq<nat>, p: nat, q: nat, ci: nat, ni: nat, cl: nat)
    requires ci <= ni <= ni + cl <= |y| && ci + cl == 2
    requires p < |y| && q < |y| && p != q && y[p] == y[q]
    requires (p < ci || ni <= p < ni + cl) && (q < ci || ni <= q < ni + cl)
    ensures AllEqual(y[..ci], y[p]) && AllEqual(y[ni..ni + cl], y[p])
  {}

  /** Any code for the symbols costs at least the total weight of the inner nodes. */
  lemma LowerBound(a: seq<nat>, n: nat, f: seq<nat>, w: seq<nat>, x: seq<nat>, top: nat)
    requires Greedy(a, n, f, w) && |x| == n && Realizable(x, top)
    ensures Sum(w, 0, n - 1) <= Cost(f, x)
  {
    assert Forest(a, f, w, 0) == f;
    ForestLowerBound(a, n, f, w, 0, x, top);
  }

  // ---------------------------------------------------------------- cost of the tree itself

  lemma {:induction false} CostCut(a: seq<nat>, n: nat, f: seq<nat>, w: seq<nat>, d: seq<nat>, l: seq<nat>, m: nat)
    requires Weights(a, n, f, w) && Lengths(a, n, d, l) && m < n
    ensures 0 <= B(a, m) <= m && a[m] <= n
    ensures Sum(Products(f, l), a[m], n) + Sum(Products(w, d), B(a, m), m) == Sum(w, m, n - 1)
    decreases n - m
  {
    var t, u := Products(f, l), Products(w, d);
    ShapeMonotone(a, n, m, n - 1);
    if m == n - 1 {
      assert Sum(u, n - 2, n - 1) == u[n - 2] + Sum(u, n - 1, n - 1) == 0;
    } else {
      CostCut(a, n, f, w, d, l, m + 1);
      CostNode(a, n, f, w, d, l, m);
      SumSplit(t, a[m], a[m + 1], n);
      SumSplit(u, B(a, m), B(a, m + 1), m);
      SumLast(u, B(a, m + 1), m);
    }
  }

  /** The children of a node are one level below it. */
  lemma CostNode(a: seq<nat>, n: nat, f: seq<nat>, w: seq<nat>, d: seq<nat>, l: seq<nat>, m: nat)
    requires Weights(a, n, f, w) && Lengths(a, n, d, l) && m < n - 1
    ensures 0 <= B(a, m) <= B(a, m + 1) <= m && a[m] <= a[m + 1] <= n
    ensures Sum(Products(f, l), a[m], a[m + 1]) + Sum(Products(w, d), B(a, m), B(a, m + 1))
         == w[m] * d[m] + w[m]
  {
    ShapeBounds(a, n, m);
    assert NodeWeight(a, n, f, w, m);
    var y := d[m] + 1;
    forall i: nat | LeafChild(a, m, i) ensures l[i] == y {}
    forall k: nat | InnerChild(a, m, k) ensures d[k] == y {}
    SumScaled(Products(f, l), f, a[m], a[m + 1], y);
    SumScaled(Products(w, d), w, B(a, m), B(a, m + 1), y);
    OneLevel(Sum(f, a[m], a[m + 1]), Sum(w, B(a, m), B(a, m + 1)), y);
  }

  lemma {:induction false} SumScaled(t: seq<nat>, s: seq<nat>, lo: int, hi: int, y: nat)
    requires 0 <= lo <= hi <= |s| == |t| && forall i: nat :: lo <= i < hi ==> t[i] == s[i] * y
    ensures Sum(t, lo, hi) == Sum(s, lo, hi) * y
    decreases hi - lo
  {
    if lo < hi {
      SumScaled(t, s, lo + 1, hi, y);
      var p, q := s[lo], Sum(s, lo + 1, hi);
      assert (p + q) * y == p * y + q * y;
    }
  }

  /** Code lengths read off a greedily built tree have the least cost of all prefix codes. */
  lemma GreedyIsOptimal(a: seq<nat>, n: nat, f: seq<nat>, w: seq<nat>, d: seq<nat>, l: seq<nat>, x: seq<nat>, top: nat)
    requires Greedy(a, n, f, w) && Lengths(a, n, d, l) && |x| == n && Realizable(x, top)
    ensures Cost(f, l) <= Cost(f, x)
  {
    CostCut(a, n, f, w, d, l, 0);
    LowerBound(a, n, f, w, x, top);
  }

  // ---------------------------------------------------------------- how deep such a tree can get

  lemma {:induction false} WeightCut(a: seq<nat>, n: nat, f: seq<nat>, w: seq<nat>, m: nat)
    requires Weights(a, n, f, w) && m < n
    ensures 0 <= B(a, m) <= m && a[m] <= n
    ensures Sum(f, a[m], n) + Sum(w, B(a, m), m) == Total(f)
  {
    ShapeMonotone(a, n, m, n - 1);
    if m > 0 {
      WeightCut(a, n, f, w, m - 1);
      ShapeBounds(a, n, m - 1);
      assert NodeWeight(a, n, f, w, m - 1);
      SumSplit(f, a[m - 1], a[m], n);
      SumSplit(w, B(a, m - 1), B(a, m), m - 1);
      SumLast(w, B(a, m), m - 1);
    }
  }

  lemma RootWeight(a: seq<nat>, n: nat, f: seq<nat>, w: seq<nat>)
    requires Weights(a, n, f, w)
    ensures w[n - 2] == Total(f)
  {
    WeightCut(a, n, f, w, n - 1);
    assert Sum(w, n - 2, n - 1) == w[n - 2] + Sum(w, n - 1, n - 1);
  }

  lemma {:induction false} SumHas(s: seq<nat>, lo: int, hi: int, i: int)
    requires 0 <= lo <= i < hi <= |s|
    ensures Sum(s, lo, hi) >= s[i]
    decreases hi - lo
  {
    if lo < i { SumHas(s, lo + 1, hi, i); }
  }

  /** A node weighs at least its child plus its other child. */
  lemma ParentWeight(a: seq<nat>, n: nat, f: seq<nat>, w: seq<nat>, k: nat, m: nat)
    requires Greedy(a, n, f, w) && m < n - 1 && InnerChild(a, m, k)
    ensures k < m && w[k] <= w[m]
    ensures (exists j: nat :: j != k && InnerChild(a, m, j) && j < m && w[k] + w[j] <= w[m])
         || (a[m] < a[m + 1] <= n && w[k] + f[a[m]] <= w[m])
  {
    GreedyBounds(a, n, f, w, m);
    assert NodeWeight(a, n, f, w, m);
    SumHas(w, B(a, m), B(a, m + 1), k);
    if a[m] < a[m + 1] {
      SumHas(f, a[m], a[m + 1], a[m]);
    } else {
      assert Sum(w, B(a, m), B(a, m + 1)) == w[B(a, m)] + Sum(w, B(a, m) + 1, B(a, m + 1));
      SumHas(w, B(a, m) + 1, B(a, m + 1), B(a, m) + 1);
      var j: nat := if k == B(a, m) then B(a, m) + 1 else B(a, m);
      assert j != k && InnerChild(a, m, j) && j < m && w[k] + w[j] <= w[m];
    }
  }

  /** Weights at least double every two levels. */
  lemma Doubling(a: seq<nat>, n: nat, f: seq<nat>, w: seq<nat>, k: nat, m: nat, r: nat)
    requires Greedy(a, n, f, w) && m < n - 1 && r < n - 1 && InnerChild(a, m, k) && InnerChild(a, r, m)
    ensures k < n - 1 && 2 * w[k] <= w[r]
  {
    ParentWeight(a, n, f, w, k, m);
    ParentWeight(a, n, f, w, m, r);
    GreedyBounds(a, n, f, w, m);
    ShapeMonotone(a, n, m + 1, r);
    assert NodeWeight(a, n, f, w, m) && LightestTaken(a, n, f, w, m);
    if j: nat :| j != m && InnerChild(a, r, j) && j < r && w[m] + w[j] <= w[r] {
      assert B(a, m + 1) <= B(a, r) <= j;
      assert w[k] <= w[j];
    } else {
      assert w[k] <= w[B(a, m + 1) - 1] <= f[a[m + 1]] <= f[a[r]];
    }
  }

  lemma {:induction false} DepthWeight(a: seq<nat>, n: nat, f: seq<nat>, w: seq<nat>, d: seq<nat>, k: nat)
    requires Greedy(a, n, f, w) && Depths(a, n, d) && k < n - 1
    ensures Pow2(d[k] / 2) * w[k] <= w[n - 2]
    decreases n - k
  {
    if k < n - 2 {
      var m := ParentOf(a, n, k, 0);
      assert InnerChild(a, m, k);
      ParentWeight(a, n, f, w, k, m);
      if m < n - 2 {
        var r := ParentOf(a, n, m, 0);
        assert InnerChild(a, r, m);
        Doubling(a, n, f, w, k, m, r);
        DepthWeight(a, n, f, w, d, r);
        assert d[k] == d[r] + 2;
        TwoLevels(Pow2(d[r] / 2), w[k], w[r]);
      }
    }
  }

  lemma TwoLevels(p: nat, v: nat, w: nat)
    requires 2 * v <= w
    ensures (2 * p) * v <= p * w
  {
    MulMonotone(2 * v, w, p);
    assert p * (2 * v) == (2 * p) * v;
  }

  /** With positive frequencies that sum to at most 65535 no code is longer than 30 bits. */
  lemma LengthBound(a: seq<nat>, n: nat, f: seq<nat>, w: seq<nat>, d: seq<nat>, l: seq<nat>)
    requires Greedy(a, n, f, w) && Lengths(a, n, d, l) && f[0] > 0 && Total(f) < 65536
    ensures AtMost(l, 30)
  {
    DepthWeight(a, n, f, w, d, 0);
    RootWeight(a, n, f, w);
    assert StepOk(a, 0) && NodeWeight(a, n, f, w, 0);
    assert LeafChild(a, 0, 0) && a[1] == 2;
    SumHas(f, 0, 2, 0);
    assert w[0] >= f[0] + f[1] by { assert Sum(f, 0, 2) == f[0] + Sum(f, 1, 2) == f[0] + f[1] + Sum(f, 2, 2); }
    if d[0] >= 30 {
      Pow2Monotone(15, d[0] / 2);
      Pow2Values();
      MulMonotone(2, w[0], Pow2(d[0] / 2));
    }
    forall i | 0 <= i < n ensures l[i] <= 30 { LengthsDescend(a, n, d, l, 0, i); }
  }
}
