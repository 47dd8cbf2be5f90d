/** The radix sort of symbol frequencies in the deflator: one or two counting passes over 8-bit
    digits, each moving the entries from one buffer to the other. */
module RadixSort {

  datatype SymFreq = SymFreq(key: nat, sym: nat)

  /** Digit 0 is the low byte of the key, digit 1 the high byte. */
  function Digit(x: SymFreq, p: nat): (d: nat)
    ensures d < 256
  {
    if p == 0 then x.key % 256 else x.key / 256 % 256
  }

  function DigitIs(p: nat, v: nat): SymFreq -> bool { (x: SymFreq) => Digit(x, p) == v }

  function KeyIs(k: nat): SymFreq -> bool { (x: SymFreq) => x.key == k }

  function Filter(s: seq<SymFreq>, f: SymFreq -> bool): (r: seq<SymFreq>)
    ensures |r| <= |s|
  {
    if s == [] then []
    else if f(s[|s| - 1]) then Filter(s[..|s| - 1], f) + [s[|s| - 1]]
    else Filter(s[..|s| - 1], f)
  }

  /** One stable pass: the entries with digit 0, then those with digit 1, and so on below v. */
  function Bucketed(s: seq<SymFreq>, p: nat, v: nat): seq<SymFreq> {
    if v == 0 then [] else Bucketed(s, p, v - 1) + Filter(s, DigitIs(p, v - 1))
  }

  predicate Sorted(s: seq<SymFreq>) {
    forall i, j :: 0 <= i < j < |s| ==> s[i].key <= s[j].key
  }

  /** Same entries, and entries with equal keys in the same order. */
  ghost predicate StablePermutation(s: seq<SymFreq>, t: seq<SymFreq>) {
    |s| == |t| && forall k: nat :: Filter(s, KeyIs(k)) == Filter(t, KeyIs(k))
  }

  // ---------------------------------------------------------------- filters

  lemma {:induction false} FilterConcat(a: seq<SymFreq>, b: seq<SymFreq>, f: SymFreq -> bool)
    ensures Filter(a + b, f) == Filter(a, f) + Filter(b, f)
  {
    if b == [] {
      assert a + b == a;
    } else {
      FilterConcat(a, b[..|b| - 1], f);
      assert (a + b)[..|a + b| - 1] == a + b[..|b| - 1];
    }
  }

  /** Filtering twice keeps what satisfies both: everything, or nothing. */
  lemma {:induction false} FilterImplied(s: seq<SymFreq>, f: SymFreq -> bool, g: SymFreq -> bool)
    requires forall x: SymFreq :: x in s && g(x) ==> f(x)
    ensures Filter(Filter(s, f), g) == Filter(s, g)
  {
    if s != [] {
      var r, x := s[..|s| - 1], s[|s| - 1];
      FilterImplied(r, f, g);
      if f(x) { FilterConcat(Filter(r, f), [x], g); assert Filter([x], g) == if g(x) then [x] else []; }
    }
  }

  lemma {:induction false} FilterDisjoint(s: seq<SymFreq>, f: SymFreq -> bool, g: SymFreq -> bool)
    requires forall x: SymFreq :: x in s && g(x) ==> !f(x)
    ensures Filter(Filter(s, f), g) == []
  {
    if s != [] {
      var r, x := s[..|s| - 1], s[|s| - 1];
      FilterDisjoint(r, f, g);
      if f(x) { FilterConcat(Filter(r, f), [x], g); assert Filter([x], g) == []; }
    }
  }

  lemma {:induction false} FilterMember(s: seq<SymFreq>, f: SymFreq -> bool, j: nat)
    requires j < |Filter(s, f)|
    ensures f(Filter(s, f)[j]) && Filter(s, f)[j] in s
  {
    var r := s[..|s| - 1];
    if j < |Filter(r, f)| { FilterMember(r, f, j); }
  }

  /** Filtering keeps the order of the entries. */
  lemma {:induction false} FilterOrder(s: seq<SymFreq>, f: SymFreq -> bool, rel: (SymFreq, SymFreq) -> bool, i: nat,
    j: nat)
    requires forall i, j :: 0 <= i < j < |s| ==> rel(s[i], s[j])
    requires i < j < |Filter(s, f)|
    ensures rel(Filter(s, f)[i], Filter(s, f)[j])
  {
    var r, x := s[..|s| - 1], s[|s| - 1];
    if j < |Filter(r, f)| {
      FilterOrder(r, f, rel, i, j);
    } else {
      FilterMember(r, f, i);
    }
  }

  // ---------------------------------------------------------------- one pass

  lemma {:induction false} BucketedStable(s: seq<SymFreq>, p: nat, v: nat, k: nat)
    ensures Filter(Bucketed(s, p, v), KeyIs(k))
         == if Digit(SymFreq(k, 0), p) < v then Filter(s, KeyIs(k)) else []
  {
    if v > 0 {
      BucketedStable(s, p, v - 1, k);
      BucketAdds(s, p, v - 1, v, k);
    }
  }

  lemma BucketAdds(s: seq<SymFreq>, p: nat, u: nat, v: nat, k: nat)
    requires v == u + 1
    ensures Filter(Bucketed(s, p, v), KeyIs(k))
      == Filter(Bucketed(s, p, u), KeyIs(k)) + if Digit(SymFreq(k, 0), p) == u then Filter(s, KeyIs(k)) else []
  {
    BucketedFilter(s, p, u, KeyIs(k));
    if Digit(SymFreq(k, 0), p) == u {
      FilterImplied(s, DigitIs(p, u), KeyIs(k));
    } else {
      FilterDisjoint(s, DigitIs(p, u), KeyIs(k));
    }
  }

  /** A pass orders by its digit and, within a digit, keeps the order it finds. */
  ghost predicate PassOrder(p: nat, rel: (SymFreq, SymFreq) -> bool, x: SymFreq, y: SymFreq) {
    Digit(x, p) < Digit(y, p) || (Digit(x, p) == Digit(y, p) && rel(x, y))
  }

  lemma {:induction false} BucketedMember(s: seq<SymFreq>, p: nat, v: nat, j: nat)
    requires j < |Bucketed(s, p, v)|
    ensures Digit(Bucketed(s, p, v)[j], p) < v && Bucketed(s, p, v)[j] in s
  {
    var n := |Bucketed(s, p, v - 1)|;
    if j < n {
      BucketedMember(s, p, v - 1, j);
    } else {
      FilterMember(s, DigitIs(p, v - 1), j - n);
    }
  }

  lemma {:induction false} BucketedOrder(s: seq<SymFreq>, p: nat, v: nat, rel: (SymFreq, SymFreq) -> bool, i: nat,
    j: nat)
    requires forall i, j :: 0 <= i < j < |s| ==> rel(s[i], s[j])
    requires i < j < |Bucketed(s, p, v)|
    ensures PassOrder(p, rel, Bucketed(s, p, v)[i], Bucketed(s, p, v)[j])
  {
    var n := |Bucketed(s, p, v - 1)|;
    if j < n {
      BucketedOrder(s, p, v - 1, rel, i, j);
    } else {
      FilterMember(s, DigitIs(p, v - 1), j - n);
      if i < n {
        BucketedMember(s, p, v - 1, i);
      } else {
        FilterOrder(s, DigitIs(p, v - 1), rel, i - n, j - n);
        FilterMember(s, DigitIs(p, v - 1), i - n);
      }
    }
  }

  /** How many entries have digit w in place q and a digit below v in place p. */
  function CountBoth(s: seq<SymFreq>, q: nat, w: nat, p: nat, v: nat): nat {
    if s == [] then 0 else
      var x := s[|s| - 1];
      CountBoth(s[..|s| - 1], q, w, p, v) + (if Digit(x, q) == w && Digit(x, p) < v then 1 else 0)
  }

  lemma {:induction false} CountBothStep(s: seq<SymFreq>, q: nat, w: nat, p: nat, v: nat)
    ensures CountBoth(s, q, w, p, v + 1)
         == CountBoth(s, q, w, p, v) + |Filter(Filter(s, DigitIs(p, v)), DigitIs(q, w))|
  {
    if s != [] {
      var r, x := s[..|s| - 1], s[|s| - 1];
      CountBothStep(r, q, w, p, v);
      if Digit(x, p) == v {
        FilterConcat(Filter(r, DigitIs(p, v)), [x], DigitIs(q, w));
        assert Filter([x], DigitIs(q, w)) == if Digit(x, q) == w then [x] else [];
      }
    }
  }

  lemma {:induction false} CountBothNone(s: seq<SymFreq>, q: nat, w: nat, p: nat)
    ensures CountBoth(s, q, w, p, 0) == 0
  {
    if s != [] { CountBothNone(s[..|s| - 1], q, w, p); }
  }

  lemma {:induction false} CountBothAll(s: seq<SymFreq>, q: nat, w: nat, p: nat, v: nat)
    requires v == 256
    ensures CountBoth(s, q, w, p, v) == |Filter(s, DigitIs(q, w))|
  {
    if s != [] { CountBothAll(s[..|s| - 1], q, w, p, v); }
  }

  lemma BucketedFilter(s: seq<SymFreq>, p: nat, v: nat, f: SymFreq -> bool)
    ensures Filter(Bucketed(s, p, v + 1), f) == Filter(Bucketed(s, p, v), f) + Filter(Filter(s, DigitIs(p, v)), f)
  {
    FilterConcat(Bucketed(s, p, v), Filter(s, DigitIs(p, v)), f);
  }

  lemma BucketedGrows(s: seq<SymFreq>, q: nat, w: nat, p: nat, u: nat, v: nat)
    requires v == u + 1
    ensures CountBoth(s, q, w, p, v) - CountBoth(s, q, w, p, u)
      == |Filter(Bucketed(s, p, v), DigitIs(q, w))| - |Filter(Bucketed(s, p, u), DigitIs(q, w))|
  {
    CountBothStep(s, q, w, p, u);
    BucketedFilter(s, p, u, DigitIs(q, w));
  }

  lemma {:induction false} BucketedCount(s: seq<SymFreq>, q: nat, w: nat, p: nat, v: nat)
    ensures |Filter(Bucketed(s, p, v), DigitIs(q, w))| == CountBoth(s, q, w, p, v)
  {
    if v == 0 {
      CountBothNone(s, q, w, p);
    } else {
      BucketedCount(s, q, w, p, v - 1);
      BucketedGrows(s, q, w, p, v - 1, v);
    }
  }

  lemma {:induction false} BucketedLength(s: seq<SymFreq>, p: nat, v: nat)
    ensures |Bucketed(s, p, v)| == CountBelow(s, p, v)
  {
    if v == 0 {
      CountBelowNone(s, p);
    } else {
      BucketedLength(s, p, v - 1);
      CountBelowStep(s, p, v - 1);
    }
  }

  function CountBelow(s: seq<SymFreq>, p: nat, v: nat): nat {
    if s == [] then 0
    else CountBelow(s[..|s| - 1], p, v) + (if Digit(s[|s| - 1], p) < v then 1 else 0)
  }

  lemma {:induction false} CountBelowNone(s: seq<SymFreq>, p: nat)
    ensures CountBelow(s, p, 0) == 0
  {
    if s != [] { CountBelowNone(s[..|s| - 1], p); }
  }

  lemma {:induction false} CountBelowStep(s: seq<SymFreq>, p: nat, v: nat)
    ensures CountBelow(s, p, v + 1) == CountBelow(s, p, v) + |Filter(s, DigitIs(p, v))|
  {
    if s != [] { CountBelowStep(s[..|s| - 1], p, v); }
  }

  lemma {:induction false} CountBelowAll(s: seq<SymFreq>, p: nat, v: nat)
    requires v == 256
    ensures CountBelow(s, p, v) == |s|
  {
    if s != [] { CountBelowAll(s[..|s| - 1], p, v); }
  }

  lemma PassLength(s: seq<SymFreq>, p: nat)
    ensures |Bucketed(s, p, 256)| == |s|
  {
    BucketedLength(s, p, 256);
    CountBelowAll(s, p, 256);
  }

  function KeySum(s: seq<SymFreq>): nat {
    if s == [] then 0 else KeySum(s[..|s| - 1]) + s[|s| - 1].key
  }

  function KeySumBelow(s: seq<SymFreq>, p: nat, v: nat): nat {
    if s == [] then 0
    else KeySumBelow(s[..|s| - 1], p, v) + (if Digit(s[|s| - 1], p) < v then s[|s| - 1].key else 0)
  }

  lemma {:induction false} KeySumConcat(a: seq<SymFreq>, b: seq<SymFreq>)
    ensures KeySum(a + b) == KeySum(a) + KeySum(b)
  {
    if b == [] {
      assert a + b == a;
    } else {
      KeySumConcat(a, b[..|b| - 1]);
      assert (a + b)[..|a + b| - 1] == a + b[..|b| - 1];
    }
  }

  lemma {:induction false} KeySumBelowNone(s: seq<SymFreq>, p: nat)
    ensures KeySumBelow(s, p, 0) == 0
  {
    if s != [] { KeySumBelowNone(s[..|s| - 1], p); }
  }

  lemma {:induction false} KeySumBelowStep(s: seq<SymFreq>, p: nat, v: nat)
    ensures KeySumBelow(s, p, v + 1) == KeySumBelow(s, p, v) + KeySum(Filter(s, DigitIs(p, v)))
  {
    if s != [] { KeySumBelowStep(s[..|s| - 1], p, v); }
  }

  lemma {:induction false} KeySumBelowAll(s: seq<SymFreq>, p: nat, v: nat)
    requires v == 256
    ensures KeySumBelow(s, p, v) == KeySum(s)
  {
    if s != [] { KeySumBelowAll(s[..|s| - 1], p, v); }
  }

  lemma {:induction false} BucketedKeySum(s: seq<SymFreq>, p: nat, v: nat)
    ensures KeySum(Bucketed(s, p, v)) == KeySumBelow(s, p, v)
  {
    if v == 0 {
      KeySumBelowNone(s, p);
    } else {
      BucketedKeySum(s, p, v - 1);
      KeySumBelowStep(s, p, v - 1);
      KeySumConcat(Bucketed(s, p, v - 1), Filter(s, DigitIs(p, v - 1)));
    }
  }

  lemma PassKeySum(s: seq<SymFreq>, p: nat)
    ensures KeySum(Bucketed(s, p, 256)) == KeySum(s)
  {
    BucketedKeySum(s, p, 256);
    KeySumBelowAll(s, p, 256);
  }

  predicate SixteenBit(s: seq<SymFreq>) {
    forall i :: 0 <= i < |s| ==> s[i].key < 65536
  }

  lemma PassStable(s: seq<SymFreq>, p: nat)
    ensures StablePermutation(s, Bucketed(s, p, 256))
  {
    PassLength(s, p);
    forall k: nat ensures Filter(s, KeyIs(k)) == Filter(Bucketed(s, p, 256), KeyIs(k)) {
      BucketedStable(s, p, 256, k);
    }
  }

  lemma PassKeys(s: seq<SymFreq>, p: nat)
    requires SixteenBit(s)
    ensures SixteenBit(Bucketed(s, p, 256))
  {
    forall j | 0 <= j < |Bucketed(s, p, 256)| ensures Bucketed(s, p, 256)[j].key < 65536 {
      BucketedMember(s, p, 256, j);
    }
  }

  function Any(): (SymFreq, SymFreq) -> bool { (x, y) => true }

  function LowOrder(): (SymFreq, SymFreq) -> bool { (x, y) => Digit(x, 0) <= Digit(y, 0) }

  /** After the low pass the low digits are in order. */
  lemma LowPassOrder(s: seq<SymFreq>)
    ensures var t := Bucketed(s, 0, 256); forall i, j :: 0 <= i < j < |t| ==> LowOrder()(t[i], t[j])
  {
    var t := Bucketed(s, 0, 256);
    forall i, j | 0 <= i < j < |t| ensures LowOrder()(t[i], t[j]) {
      BucketedOrder(s, 0, 256, Any(), i, j);
    }
  }

  /** One pass suffices when every high digit is zero ... */
  lemma OnePassSorts(s: seq<SymFreq>)
    requires SixteenBit(s) && |Filter(s, DigitIs(1, 0))| == |s|
    ensures Sorted(Bucketed(s, 0, 256)) && StablePermutation(s, Bucketed(s, 0, 256))
  {
    var t := Bucketed(s, 0, 256);
    PassStable(s, 0);
    LowPassOrder(s);
    forall j | 0 <= j < |t| ensures t[j].key < 256 {
      BucketedMember(s, 0, 256, j);
      FilterFull(s, DigitIs(1, 0), t[j]);
    }
    forall i, j | 0 <= i < j < |t| ensures t[i].key <= t[j].key {
      assert LowOrder()(t[i], t[j]);
    }
  }

  lemma {:induction false} FilterFull(s: seq<SymFreq>, f: SymFreq -> bool, x: SymFreq)
    requires |Filter(s, f)| == |s| && x in s
    ensures f(x)
  {
    if x in s[..|s| - 1] { FilterFull(s[..|s| - 1], f, x); }
  }

  /** ... and two passes always do. */
  lemma TwoPassesSort(s: seq<SymFreq>)
    requires SixteenBit(s)
    ensures var u := Bucketed(Bucketed(s, 0, 256), 1, 256); Sorted(u) && StablePermutation(s, u)
  {
    var t := Bucketed(s, 0, 256);
    var u := Bucketed(t, 1, 256);
    PassStable(s, 0);
    PassStable(t, 1);
    PassKeys(s, 0);
    PassKeys(t, 1);
    LowPassOrder(s);
    forall i, j | 0 <= i < j < |u| ensures u[i].key <= u[j].key {
      BucketedOrder(t, 1, 256, LowOrder(), i, j);
      DigitOrder(u[i], u[j]);
    }
  }

  lemma DigitOrder(x: SymFreq, y: SymFreq)
    requires x.key < 65536 && y.key < 65536 && PassOrder(1, LowOrder(), x, y)
    ensures x.key <= y.key
  {
    assert x.key / 256 < 256 && y.key / 256 < 256;
  }

  // ---------------------------------------------------------------- what a stable permutation keeps

  lemma {:induction false} FilterKeeps(s: seq<SymFreq>, f: SymFreq -> bool, i: nat) returns (a: nat)
    requires i < |s| && f(s[i])
    ensures a < |Filter(s, f)| && Filter(s, f)[a] == s[i]
  {
    if i == |s| - 1 { a := |Filter(s, f)| - 1; } else { a := FilterKeeps(s[..|s| - 1], f, i); }
  }

  lemma {:induction false} FilterKeepsPair(s: seq<SymFreq>, f: SymFreq -> bool, i: nat, j: nat) returns (a: nat, b: nat)
    requires i < j < |s| && f(s[i]) && f(s[j])
    ensures a < b < |Filter(s, f)| && Filter(s, f)[a] == s[i] && Filter(s, f)[b] == s[j]
  {
    if j == |s| - 1 {
      a := FilterKeeps(s[..j], f, i);
      b := |Filter(s, f)| - 1;
    } else {
      a, b := FilterKeepsPair(s[..|s| - 1], f, i, j);
    }
  }

  lemma StableMember(s: seq<SymFreq>, t: seq<SymFreq>, i: nat)
    requires StablePermutation(s, t) && i < |t|
    ensures t[i] in s
  {
    var f := KeyIs(t[i].key);
    var a := FilterKeeps(t, f, i);
    assert Filter(s, f) == Filter(t, f);
    FilterMember(s, f, a);
  }

  predicate SymsAscend(s: seq<SymFreq>) {
    forall i, j :: 0 <= i < j < |s| ==> s[i].sym < s[j].sym
  }

  function SymOrder(): (SymFreq, SymFreq) -> bool { (x: SymFreq, y: SymFreq) => x.sym < y.sym }

  /** Entries with equal keys keep the order of their symbols, so no symbol occurs twice. */
  lemma StableDistinct(s: seq<SymFreq>, t: seq<SymFreq>, i: nat, j: nat)
    requires StablePermutation(s, t) && SymsAscend(s) && i < j < |t|
    ensures t[i].sym != t[j].sym && (t[i].key == t[j].key ==> t[i].sym < t[j].sym)
  {
    if t[i].key == t[j].key {
      var f := KeyIs(t[i].key);
      var a, b := FilterKeepsPair(t, f, i, j);
      assert Filter(s, f) == Filter(t, f);
      FilterOrder(s, f, SymOrder(), a, b);
    } else {
      StableMember(s, t, i);
      StableMember(s, t, j);
    }
  }

  // ---------------------------------------------------------------- the sort

  lemma FilterSnoc(s: seq<SymFreq>, i: nat, f: SymFreq -> bool)
    requires i < |s|
    ensures Filter(s[..i + 1], f) == Filter(s[..i], f) + (if f(s[i]) then [s[i]] else [])
  {
    assert s[..i + 1][..i] == s[..i];
  }

  lemma CountNext(s: seq<SymFreq>, i: nat, p: nat)
    requires i < |s|
    ensures forall v: nat :: v < 256 ==>
      |Filter(s[..i + 1], DigitIs(p, v))| == |Filter(s[..i], DigitIs(p, v))| + if Digit(s[i], p) == v then 1 else 0
  {
    forall v: nat | v < 256
      ensures |Filter(s[..i + 1], DigitIs(p, v))|
           == |Filter(s[..i], DigitIs(p, v))| + if Digit(s[i], p) == v then 1 else 0
    {
      FilterSnoc(s, i, DigitIs(p, v));
    }
  }

  method Histograms(a: array<SymFreq>, n: nat) returns (hist: array<nat>)
    requires n <= a.Length
    ensures fresh(hist) && hist.Length == 512
    ensures forall p: nat, v: nat :: p < 2 && v < 256 ==> hist[256 * p + v] == |Filter(a[..n], DigitIs(p, v))|
  {
    hist := new nat[512](_ => 0);
    for i := 0 to n
      invariant forall v: nat :: v < 256 ==> hist[v] == |Filter(a[..n][..i], DigitIs(0, v))|
      invariant forall v: nat :: v < 256 ==> hist[256 + v] == |Filter(a[..n][..i], DigitIs(1, v))|
    {
      CountNext(a[..n], i, 0);
      CountNext(a[..n], i, 1);
      var lo, hi := a[i].key % 256, 256 + a[i].key / 256 % 256;
      hist[lo] := hist[lo] + 1;
      hist[hi] := hist[hi] + 1;
    }
    assert a[..n][..n] == a[..n];
  }

  /** Where the bucket of digit v starts. */
  ghost function Start(s: seq<SymFreq>, p: nat, v: nat): nat { |Bucketed(s, p, v)| }

  lemma {:induction false} StartMonotone(s: seq<SymFreq>, p: nat, v: nat, w: nat)
    requires v <= w
    ensures Start(s, p, v) <= Start(s, p, w)
  {
    if v < w { StartMonotone(s, p, v, w - 1); }
  }

  lemma {:induction false} FilterPrefix(s: seq<SymFreq>, i: nat, f: SymFreq -> bool)
    requires i <= |s|
    ensures |Filter(s[..i], f)| <= |Filter(s, f)|
    decreases |s| - i
  {
    if i == |s| {
      assert s[..i] == s;
    } else {
      FilterSnoc(s, i, f);
      FilterPrefix(s, i + 1, f);
    }
  }

  method Offsets(hist: array<nat>, p: nat, ghost s: seq<SymFreq>) returns (offsets: array<nat>)
    requires hist.Length == 512 && p < 2
    requires forall v: nat :: v < 256 ==> hist[256 * p + v] == |Filter(s, DigitIs(p, v))|
    ensures fresh(offsets) && offsets.Length == 256
    ensures forall v: nat :: v < 256 ==> offsets[v] == Start(s, p, v)
  {
    offsets := new nat[256];
    var cur := 0;
    for v := 0 to 256
      invariant cur == Start(s, p, v)
      invariant forall u: nat :: u < v ==> offsets[u] == Start(s, p, u)
    {
      offsets[v] := cur;
      cur := cur + hist[256 * p + v];
    }
  }

  /** The cell for entry i: after the entries of its bucket that came before. */
  ghost function Target(s: seq<SymFreq>, p: nat, v: nat, i: nat): nat
    requires i <= |s|
  {
    Start(s, p, v) + |Filter(s[..i], DigitIs(p, v))|
  }

  lemma TargetBound(s: seq<SymFreq>, p: nat, v: nat, i: nat)
    requires i <= |s| && v < 256
    ensures Start(s, p, v) <= Target(s, p, v, i) <= Start(s, p, v + 1) <= |s|
  {
    FilterPrefix(s, i, DigitIs(p, v));
    StartMonotone(s, p, v + 1, 256);
    PassLength(s, p);
  }

  lemma TargetRoom(s: seq<SymFreq>, p: nat, i: nat)
    requires i < |s|
    ensures Target(s, p, Digit(s[i], p), i) < Start(s, p, Digit(s[i], p) + 1) <= |s|
  {
    FilterSnoc(s, i, DigitIs(p, Digit(s[i], p)));
    TargetBound(s, p, Digit(s[i], p), i + 1);
  }

  /** The first i entries are in their cells. */
  ghost predicate Placed(out: seq<SymFreq>, s: seq<SymFreq>, p: nat, i: nat)
  {
    i <= |s| <= |out| && forall v: nat :: v < 256 ==> BucketPlaced(out, s, p, i, v)
  }

  ghost predicate BucketPlaced(out: seq<SymFreq>, s: seq<SymFreq>, p: nat, i: nat, v: nat)
    requires i <= |s| <= |out|
  {
    Target(s, p, v, i) <= |s| && out[Start(s, p, v)..Target(s, p, v, i)] == Filter(s[..i], DigitIs(p, v))
  }

  lemma PlaceNext(out: seq<SymFreq>, s: seq<SymFreq>, p: nat, i: nat, o: nat)
    requires Placed(out, s, p, i) && i < |s| && o == Target(s, p, Digit(s[i], p), i)
    ensures o < |s| && Placed(out[o := s[i]], s, p, i + 1)
  {
    TargetRoom(s, p, i);
    var out', k := out[o := s[i]], i + 1;
    forall v: nat | v < 256 ensures BucketPlaced(out', s, p, k, v) {
      assert BucketPlaced(out, s, p, i, v);
      if v == Digit(s[i], p) {
        PlaceOwn(out, s, p, i, v);
      } else {
        BucketsApart(s, p, i, v);
        PlaceOther(out, s, p, i, o, v);
      }
    }
  }

  lemma PlaceOwn(out: seq<SymFreq>, s: seq<SymFreq>, p: nat, i: nat, v: nat)
    requires i < |s| <= |out| && v == Digit(s[i], p) && BucketPlaced(out, s, p, i, v)
    ensures Target(s, p, v, i) < |s| && BucketPlaced(out[Target(s, p, v, i) := s[i]], s, p, i + 1, v)
  {
    TargetRoom(s, p, i);
    FilterSnoc(s, i, DigitIs(p, v));
    assert Target(s, p, v, i + 1) == Target(s, p, v, i) + 1;
    SliceExtended(out, Start(s, p, v), Target(s, p, v, i), s[i]);
  }

  lemma PlaceOther(out: seq<SymFreq>, s: seq<SymFreq>, p: nat, i: nat, o: nat, v: nat)
    requires i < |s| <= |out| && v != Digit(s[i], p) && BucketPlaced(out, s, p, i, v)
    requires o < |s| && (o < Start(s, p, v) || Target(s, p, v, i) <= o)
    ensures BucketPlaced(out[o := s[i]], s, p, i + 1, v)
  {
    FilterSnoc(s, i, DigitIs(p, v));
    assert Target(s, p, v, i + 1) == Target(s, p, v, i);
    SliceElsewhere(out, Start(s, p, v), Target(s, p, v, i), o, s[i]);
  }

  /** Cells of different buckets never meet. */
  lemma BucketsApart(s: seq<SymFreq>, p: nat, i: nat, v: nat)
    requires i < |s| && v < 256 && v != Digit(s[i], p)
    ensures var o := Target(s, p, Digit(s[i], p), i); o < Start(s, p, v) || Target(s, p, v, i) <= o
  {
    var d := Digit(s[i], p);
    if v < d {
      TargetBound(s, p, v, i);
      TargetBound(s, p, d, i);
      StartMonotone(s, p, v + 1, d);
    } else {
      TargetRoom(s, p, i);
      StartMonotone(s, p, d + 1, v);
    }
  }

  lemma SliceExtended(out: seq<SymFreq>, a: nat, o: nat, x: SymFreq)
    requires a <= o < |out|
    ensures out[o := x][a..o + 1] == out[a..o] + [x]
  {}

  lemma SliceElsewhere(out: seq<SymFreq>, a: nat, b: nat, o: nat, x: SymFreq)
    requires a <= b <= |out| && o < |out| && (o < a || b <= o)
    ensures out[o := x][a..b] == out[a..b]
  {}

  lemma {:induction false} PlacedUpTo(out: seq<SymFreq>, s: seq<SymFreq>, p: nat, v: nat)
    requires Placed(out, s, p, |s|) && v <= 256 && Start(s, p, v) <= |s|
    ensures out[..Start(s, p, v)] == Bucketed(s, p, v)
  {
    if v > 0 {
      StartMonotone(s, p, v - 1, v);
      PlacedUpTo(out, s, p, v - 1);
      assert BucketPlaced(out, s, p, |s|, v - 1);
      assert s[..|s|] == s;
      assert out[..Start(s, p, v)] == out[..Start(s, p, v - 1)] + out[Start(s, p, v - 1)..Start(s, p, v)];
    }
  }

  /** The offsets are where the next entry of each digit goes. */
  ghost predicate AtTargets(offsets: seq<nat>, s: seq<SymFreq>, p: nat, i: nat)
    requires i <= |s|
  {
    |offsets| == 256 && forall v: nat :: v < 256 ==> offsets[v] == Target(s, p, v, i)
  }

  lemma TargetsNext(offsets: seq<nat>, s: seq<SymFreq>, p: nat, i: nat, d: nat)
    requires i < |s| && d == Digit(s[i], p) && AtTargets(offsets, s, p, i)
    ensures true == AtTargets(offsets[d := offsets[d] + 1], s, p, i + 1)
  {
    forall v: nat | v < 256
      ensures Target(s, p, v, i + 1) == Target(s, p, v, i) + if v == d then 1 else 0
    {
      FilterSnoc(s, i, DigitIs(p, v));
    }
  }

  /** Puts the next entry where its digit says. */
  method ScatterNext(to: array<SymFreq>, x: SymFreq, offsets: array<nat>, p: nat, i: nat, ghost s: seq<SymFreq>)
    requires i < |s| <= to.Length && x == s[i]
    requires true == Placed(to[..], s, p, i) && true == AtTargets(offsets[..], s, p, i)
    modifies to, offsets
    ensures true == Placed(to[..], s, p, i + 1) && true == AtTargets(offsets[..], s, p, i + 1)
  {
    var d := Digit(x, p);
    PlaceNext(to[..], s, p, i, offsets[d]);
    TargetsNext(offsets[..], s, p, i, d);
    ghost var next, later := to[..][offsets[d] := x], offsets[..][d := offsets[d] + 1];
    to[offsets[d]] := x;
    assert to[..] == next;
    offsets[d] := offsets[d] + 1;
    assert offsets[..] == later;
  }

  method Scatter(from: array<SymFreq>, to: array<SymFreq>, n: nat, p: nat, hist: array<nat>)
    requires n <= from.Length && n <= to.Length && from != to && hist.Length == 512 && p < 2
    requires forall v: nat :: v < 256 ==> hist[256 * p + v] == |Filter(from[..n], DigitIs(p, v))|
    modifies to
    ensures to[..n] == Bucketed(from[..n], p, 256)
  {
    ghost var s := from[..n];
    var offsets := Offsets(hist, p, s);
    assert s[..0] == [];
    forall v: nat | v < 256 ensures Target(s, p, v, 0) == Start(s, p, v) {}
    forall v: nat | v < 256 ensures BucketPlaced(to[..], s, p, 0, v) { TargetBound(s, p, v, 0); }
    for i := 0 to n
      invariant from[..n] == s && true == Placed(to[..], s, p, i) && true == AtTargets(offsets[..], s, p, i)
    {
      ScatterNext(to, from[i], offsets, p, i, s);
    }
    PassLength(s, p);
    PlacedUpTo(to[..], s, p, 256);
    assert to[..][..n] == to[..n];
  }

  /** Sorts the first n entries of `a` by key, using `b` as the second buffer, and returns the
      buffer that holds them in order. */
  method Sort(a: array<SymFreq>, b: array<SymFreq>, n: nat) returns (cur: array<SymFreq>)
    requires a != b && n <= a.Length && n <= b.Length && SixteenBit(a[..n])
    modifies a, b
    ensures cur == a || cur == b
    ensures Sorted(cur[..n]) && StablePermutation(old(a[..n]), cur[..n]) && KeySum(cur[..n]) == KeySum(old(a[..n]))
  {
    ghost var s := a[..n];
    var hist := Histograms(a, n);
    assert forall v: nat :: v < 256 ==> hist[256 * 0 + v] == |Filter(s, DigitIs(0, v))|;
    assert hist[256 * 1 + 0] == |Filter(s, DigitIs(1, 0))|;
    var passes := 2;
    if n == hist[256] { passes := 1; }
    Scatter(a, b, n, 0, hist);
    PassKeySum(s, 0);
    cur := b;
    if passes == 1 {
      OnePassSorts(s);
    } else {
      forall v: nat | v < 256 ensures hist[256 * 1 + v] == |Filter(b[..n], DigitIs(1, v))| {
        BucketedCount(s, 1, v, 0, 256);
        CountBothAll(s, 1, v, 0, 256);
      }
      PassKeySum(b[..n], 1);
      Scatter(b, a, n, 1, hist);
      cur := a;
      TwoPassesSort(s);
    }
  }
}
