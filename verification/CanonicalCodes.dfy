/** Canonical Huffman codes (section 3.2.2 of RFC 1951): a table of code lengths alone fixes
    every code. The encoder and the decoder of miniz.c both number codes this way. */
module CanonicalCodes {
  import opened BitArith

  const MAX_BITS: nat := 15

  predicate ValidSizes(sizes: seq<nat>) {
    forall i :: 0 <= i < |sizes| ==> sizes[i] <= MAX_BITS
  }

  /** How many of the first k symbols have code length l. */
  function CountBefore(sizes: seq<nat>, k: nat, l: nat): (c: nat)
    requires k <= |sizes|
    ensures c <= k
  {
    if k == 0 then 0 else CountBefore(sizes, k - 1, l) + (if sizes[k - 1] == l then 1 else 0)
  }

  function Count(sizes: seq<nat>, l: nat): nat { CountBefore(sizes, |sizes|, l) }

  /** The smallest code of length l. */
  function FirstCode(sizes: seq<nat>, l: nat): nat
  {
    if l <= 1 then 0 else 2 * (FirstCode(sizes, l - 1) + Count(sizes, l - 1))
  }

  /** One past the largest code of length l: the l-bit numbers from here on are inner nodes. */
  function EndCode(sizes: seq<nat>, l: nat): nat { FirstCode(sizes, l) + Count(sizes, l) }

  predicate Coded(sizes: seq<nat>, s: nat) {
    s < |sizes| && 0 < sizes[s] <= MAX_BITS
  }

  /** The canonical code of symbol s, as a number of `sizes[s]` bits. */
  function Code(sizes: seq<nat>, s: nat): nat
    requires Coded(sizes, s)
  {
    FirstCode(sizes, sizes[s]) + CountBefore(sizes, s, sizes[s])
  }

  /** The code of s as it is put in the stream: first bit in the least significant place. */
  function StreamCode(sizes: seq<nat>, s: nat): nat
    requires Coded(sizes, s)
  {
    Reversed(Code(sizes, s), sizes[s])
  }

  /** The code of s as a string of bits, most significant bit first. */
  function BitString(v: nat, n: nat): seq<nat> {
    seq(n, d requires 0 <= d < n => Bit(v, n, d))
  }

  function CodeBits(sizes: seq<nat>, s: nat): seq<nat>
    requires Coded(sizes, s)
  {
    BitString(Code(sizes, s), sizes[s])
  }

  /** Kraft sum of the first k lengths, in units of 2^-15. */
  function KraftSum(sizes: seq<nat>, k: nat): nat
    requires k <= |sizes| && ValidSizes(sizes)
  {
    if k == 0 then 0
    else KraftSum(sizes, k - 1) + (if sizes[k - 1] == 0 then 0 else Pow2(MAX_BITS - sizes[k - 1]))
  }

  function Used(sizes: seq<nat>, k: nat): (u: nat)
    requires k <= |sizes|
    ensures u <= k
  {
    if k == 0 then 0 else Used(sizes, k - 1) + (if sizes[k - 1] == 0 then 0 else 1)
  }

  /** The code space is not oversubscribed. */
  predicate Fits(sizes: seq<nat>) { EndCode(sizes, MAX_BITS) <= Pow2(MAX_BITS) }

  /** Every bit string has a code as a prefix. */
  predicate Complete(sizes: seq<nat>) { EndCode(sizes, MAX_BITS) == Pow2(MAX_BITS) }

  // ---------------------------------------------------------------- Kraft sums

  function WeightUpTo(sizes: seq<nat>, k: nat, l: nat): nat
    requires k <= |sizes| && l <= MAX_BITS
  {
    if l == 0 then 0
    else WeightUpTo(sizes, k, l - 1) + CountBefore(sizes, k, l) * Pow2(MAX_BITS - l)
  }

  lemma {:induction false} WeightStep(sizes: seq<nat>, k: nat, l: nat)
    requires 0 < k <= |sizes| && l <= MAX_BITS && ValidSizes(sizes)
    ensures WeightUpTo(sizes, k, l) == WeightUpTo(sizes, k - 1, l)
      + (if 0 < sizes[k - 1] <= l then Pow2(MAX_BITS - sizes[k - 1]) else 0)
  {
    if l > 0 {
      WeightStep(sizes, k, l - 1);
      var c, p := CountBefore(sizes, k - 1, l), Pow2(MAX_BITS - l);
      assert (c + 1) * p == c * p + p;
    }
  }

  lemma {:induction false} WeightNone(sizes: seq<nat>, l: nat)
    requires l <= MAX_BITS
    ensures WeightUpTo(sizes, 0, l) == 0
  {
    if l > 0 { WeightNone(sizes, l - 1); }
  }

  lemma {:induction false} WeightIsKraft(sizes: seq<nat>, k: nat)
    requires k <= |sizes| && ValidSizes(sizes)
    ensures WeightUpTo(sizes, k, MAX_BITS) == KraftSum(sizes, k)
  {
    if k == 0 {
      WeightNone(sizes, MAX_BITS);
    } else {
      WeightIsKraft(sizes, k - 1);
      WeightStep(sizes, k, MAX_BITS);
    }
  }

  lemma Regroup(e: nat, c: nat, p: nat)
    ensures (2 * e + c) * p == e * (2 * p) + c * p
  {}

  lemma {:induction false} EndCodeWeight(sizes: seq<nat>, l: nat)
    requires 1 <= l <= MAX_BITS
    ensures EndCode(sizes, l) * Pow2(MAX_BITS - l) == WeightUpTo(sizes, |sizes|, l)
  {
    var p := Pow2(MAX_BITS - l);
    if l == 1 {
      assert WeightUpTo(sizes, |sizes|, 0) == 0;
    } else {
      EndCodeWeight(sizes, l - 1);
      assert Pow2(MAX_BITS - (l - 1)) == 2 * p;
      Regroup(EndCode(sizes, l - 1), Count(sizes, l), p);
    }
  }

  /** The running total of the decoder is the Kraft sum: it accepts a table with more than one
      symbol exactly when that sum is 1. */
  lemma EndCodeIsKraft(sizes: seq<nat>)
    requires ValidSizes(sizes)
    ensures EndCode(sizes, MAX_BITS) == KraftSum(sizes, |sizes|)
  {
    EndCodeWeight(sizes, MAX_BITS);
    WeightIsKraft(sizes, |sizes|);
  }

  // ---------------------------------------------------------------- code ranges

  lemma {:induction false} EndCodeBound(sizes: seq<nat>, l: nat)
    requires Fits(sizes) && 1 <= l <= MAX_BITS
    ensures EndCode(sizes, l) <= Pow2(l)
    decreases MAX_BITS - l
  {
    if l < MAX_BITS { EndCodeBound(sizes, l + 1); }
  }

  lemma {:induction false} CountMonotone(sizes: seq<nat>, j: nat, k: nat, l: nat)
    requires j <= k <= |sizes|
    ensures CountBefore(sizes, j, l) <= CountBefore(sizes, k, l)
  {
    if j < k { CountMonotone(sizes, j, k - 1, l); }
  }

  lemma {:induction false} CountStrict(sizes: seq<nat>, s: nat, t: nat)
    requires s < t <= |sizes|
    ensures CountBefore(sizes, s, sizes[s]) < CountBefore(sizes, t, sizes[s])
  {
    CountMonotone(sizes, s + 1, t, sizes[s]);
  }

  lemma CodeRange(sizes: seq<nat>, s: nat)
    requires Coded(sizes, s)
    ensures FirstCode(sizes, sizes[s]) <= Code(sizes, s) < EndCode(sizes, sizes[s])
    ensures Fits(sizes) ==> Code(sizes, s) < Pow2(sizes[s])
  {
    CountStrict(sizes, s, |sizes|);
    if Fits(sizes) { EndCodeBound(sizes, sizes[s]); }
  }

  lemma CodeDistinct(sizes: seq<nat>, s: nat, t: nat)
    requires Coded(sizes, s) && Coded(sizes, t) && s != t && sizes[s] == sizes[t]
    ensures Code(sizes, s) != Code(sizes, t)
  {
    if s < t { CountStrict(sizes, s, t); } else { CountStrict(sizes, t, s); }
  }

  lemma {:induction false} LongPrefix(sizes: seq<nat>, v: nat, l: nat, d: nat)
    requires 1 <= d < l && FirstCode(sizes, l) <= v
    ensures EndCode(sizes, d) <= Prefix(v, l, d)
  {
    assert Prefix(v, l, l - 1) == v / 2;
    assert EndCode(sizes, l - 1) <= v / 2;
    if d < l - 1 {
      LongPrefix(sizes, v / 2, l - 1, d);
      PrefixPrefix(v, l, l - 1, d);
    }
  }

  /** Every proper prefix of a code is an inner node of its level. */
  lemma PrefixIsInner(sizes: seq<nat>, s: nat, d: nat)
    requires Coded(sizes, s) && Fits(sizes) && 1 <= d < sizes[s]
    ensures EndCode(sizes, d) <= Prefix(Code(sizes, s), sizes[s], d) < Pow2(d)
  {
    CodeRange(sizes, s);
    LongPrefix(sizes, Code(sizes, s), sizes[s], d);
    PrefixBound(Code(sizes, s), sizes[s], d);
  }

  lemma {:induction false} StringPrefix(v: nat, n: nat, w: nat, m: nat, d: nat)
    requires v < Pow2(n) && w < Pow2(m) && d <= n <= m
    requires forall i :: 0 <= i < n ==> Bit(v, n, i) == Bit(w, m, i)
    ensures Prefix(v, n, d) == Prefix(w, m, d)
  {
    if d == 0 {
      PrefixZero(v, n);
      PrefixZero(w, m);
    } else {
      StringPrefix(v, n, w, m, d - 1);
      assert Bit(v, n, d - 1) == Bit(w, m, d - 1);
      assert Prefix(v, n, d) == 2 * Prefix(v, n, d - 1) + Bit(v, n, d - 1);
      assert Prefix(w, m, d) == 2 * Prefix(w, m, d - 1) + Bit(w, m, d - 1);
    }
  }

  lemma {:induction false} FirstCodeBehind(sizes: seq<nat>, l: nat, m: nat)
    requires 1 <= l < m
    ensures FirstCode(sizes, m) >= EndCode(sizes, l) * Pow2(m - l)
  {
    if m == l + 1 {
      assert Pow2(1) == 2 * Pow2(0) == 2;
    } else {
      FirstCodeBehind(sizes, l, m - 1);
      Twice(EndCode(sizes, l), Pow2(m - 1 - l));
    }
  }

  lemma Twice(a: nat, b: nat)
    ensures a * (2 * b) == 2 * (a * b)
  {}

  /** The rules of section 3.2.2 of RFC 1951: codes of one length are in the order of their symbols, with none between
      those of neighbours, and shorter codes stand before longer ones. */
  lemma CanonicalOrder(sizes: seq<nat>, s: nat, t: nat)
    requires Coded(sizes, s) && Coded(sizes, t)
    ensures sizes[s] == sizes[t] && s < t ==>
      Code(sizes, t) - Code(sizes, s) == CountBefore(sizes, t, sizes[s]) - CountBefore(sizes, s, sizes[s]) > 0
    ensures sizes[s] < sizes[t] ==> (Code(sizes, s) + 1) * Pow2(sizes[t] - sizes[s]) <= Code(sizes, t)
    ensures sizes[s] == 1 ==> Code(sizes, s) == CountBefore(sizes, s, 1)
  {
    if sizes[s] == sizes[t] && s < t {
      CountMonotone(sizes, s + 1, t, sizes[s]);
    } else if sizes[s] < sizes[t] {
      FirstCodeBehind(sizes, sizes[s], sizes[t]);
      CountMonotone(sizes, s + 1, |sizes|, sizes[s]);
      MulMonotone(Code(sizes, s) + 1, EndCode(sizes, sizes[s]), Pow2(sizes[t] - sizes[s]));
    }
  }

  /** The example of that section: eight symbols with the lengths 3, 3, 3, 3, 3, 2, 4, 4. */
  lemma CanonicalExample(sizes: seq<nat>)
    requires sizes == [3, 3, 3, 3, 3, 2, 4, 4]
    ensures Code(sizes, 5) == 0 && Code(sizes, 0) == 2 && Code(sizes, 4) == 6 && Code(sizes, 6) == 14
      && Code(sizes, 7) == 15
  {
    assert FirstCode(sizes, 1) == 0;
    assert FirstCode(sizes, 2) == 2 * (FirstCode(sizes, 1) + Count(sizes, 1));
    assert FirstCode(sizes, 3) == 2 * (FirstCode(sizes, 2) + Count(sizes, 2));
    assert FirstCode(sizes, 4) == 2 * (FirstCode(sizes, 3) + Count(sizes, 3));
    CountsAt(sizes, 1, 0);
    CountsAt(sizes, 2, 1);
    CountsAt(sizes, 3, 5);
    CountsAt(sizes, 4, 2);
  }

  lemma CountsAt(sizes: seq<nat>, l: nat, n: nat)
    requires sizes == [3, 3, 3, 3, 3, 2, 4, 4] && 1 <= l <= 4
    requires n == if l == 2 then 1 else if l == 3 then 5 else if l == 4 then 2 else 0
    ensures Count(sizes, l) == n && CountBefore(sizes, 0, l) == 0
    ensures CountBefore(sizes, 4, l) == (if l == 3 then 4 else 0) && CountBefore(sizes, 5, l) == (if l == 3 then 5
      else 0)
    ensures CountBefore(sizes, 6, l) == (if l == 4 then 0 else n)
    ensures CountBefore(sizes, 7, l) == if l == 4 then 1 else n
  {
    assert CountBefore(sizes, 1, l) == CountBefore(sizes, 0, l) + (if l == 3 then 1 else 0);
    assert CountBefore(sizes, 2, l) == CountBefore(sizes, 1, l) + (if l == 3 then 1 else 0);
    assert CountBefore(sizes, 3, l) == CountBefore(sizes, 2, l) + (if l == 3 then 1 else 0);
    assert CountBefore(sizes, 4, l) == CountBefore(sizes, 3, l) + (if l == 3 then 1 else 0);
    assert CountBefore(sizes, 5, l) == CountBefore(sizes, 4, l) + (if l == 3 then 1 else 0);
    assert CountBefore(sizes, 6, l) == CountBefore(sizes, 5, l) + (if l == 2 then 1 else 0);
    assert CountBefore(sizes, 7, l) == CountBefore(sizes, 6, l) + (if l == 4 then 1 else 0);
    assert CountBefore(sizes, 8, l) == CountBefore(sizes, 7, l) + (if l == 4 then 1 else 0);
  }

  /** No code is a prefix of another one. */
  lemma PrefixFree(sizes: seq<nat>, s: nat, t: nat)
    requires Coded(sizes, s) && Coded(sizes, t) && s != t && Fits(sizes)
    ensures !(CodeBits(sizes, s) <= CodeBits(sizes, t))
  {
    var a, b := CodeBits(sizes, s), CodeBits(sizes, t);
    var v, w, n, m := Code(sizes, s), Code(sizes, t), sizes[s], sizes[t];
    if a <= b {
      CodeRange(sizes, s);
      CodeRange(sizes, t);
      forall i | 0 <= i < n ensures Bit(v, n, i) == Bit(w, m, i) {
        assert a[i] == b[i];
      }
      StringPrefix(v, n, w, m, n);
      if n == m {
        CodeDistinct(sizes, s, t);
      } else {
        PrefixIsInner(sizes, t, n);
      }
    }
  }

  // ---------------------------------------------------------------- completeness

  lemma {:induction false} SymbolOfRank(sizes: seq<nat>, k: nat, l: nat, r: nat) returns (s: nat)
    requires k <= |sizes| && r < CountBefore(sizes, k, l)
    ensures s < k && sizes[s] == l && CountBefore(sizes, s, l) == r
  {
    if r == CountBefore(sizes, k - 1, l) {
      s := k - 1;
    } else {
      s := SymbolOfRank(sizes, k - 1, l, r);
    }
  }

  lemma {:induction false} CodeLevel(sizes: seq<nat>, buf: nat, l: nat) returns (s: nat)
    requires Complete(sizes) && 1 <= l <= MAX_BITS
    requires FirstCode(sizes, l) <= Forward(buf, l)
    ensures Coded(sizes, s) && Code(sizes, s) == Forward(buf, sizes[s])
    decreases MAX_BITS - l
  {
    ForwardReversed(buf, l);
    if Forward(buf, l) < EndCode(sizes, l) {
      s := SymbolOfRank(sizes, |sizes|, l, Forward(buf, l) - FirstCode(sizes, l));
    } else {
      s := CodeLevel(sizes, buf, l + 1);
    }
  }

  /** A bit buffer starts with the code of s. */
  predicate StartsWith(sizes: seq<nat>, buf: nat, s: nat) {
    Coded(sizes, s) && buf % Pow2(sizes[s]) == StreamCode(sizes, s)
  }

  /** With a Kraft sum of 1 every bit buffer starts with a code ... */
  lemma CompleteCovers(sizes: seq<nat>, buf: nat) returns (s: nat)
    requires Complete(sizes)
    ensures StartsWith(sizes, buf, s)
  {
    s := CodeLevel(sizes, buf, 1);
    ForwardReversed(buf, sizes[s]);
  }

  /** ... and with only one. */
  lemma StartsWithUnique(sizes: seq<nat>, buf: nat, s: nat, t: nat)
    requires Fits(sizes) && StartsWith(sizes, buf, s) && StartsWith(sizes, buf, t)
    ensures s == t
  {
    if sizes[s] <= sizes[t] { StartsWithShorter(sizes, buf, s, t); }
    else { StartsWithShorter(sizes, buf, t, s); }
  }

  lemma StartsWithShorter(sizes: seq<nat>, buf: nat, s: nat, t: nat)
    requires Fits(sizes) && StartsWith(sizes, buf, s) && StartsWith(sizes, buf, t)
    requires sizes[s] <= sizes[t]
    ensures s == t
  {
    var n, m := sizes[s], sizes[t];
    CodeRange(sizes, s);
    CodeRange(sizes, t);
    ModPow2Mod(buf, n, m);
    ReversedLow(Code(sizes, t), m, n);
    PrefixBound(Code(sizes, t), m, n);
    ReversedInjective(Code(sizes, s), Prefix(Code(sizes, t), m, n), n);
    if s != t {
      if n == m { CodeDistinct(sizes, s, t); } else { PrefixIsInner(sizes, t, n); }
    }
  }

  // ---------------------------------------------------------------- inner nodes

  /** An inner node of the code tree: the bit string of `depth` bits with value `prefix`. */
  datatype Node = Node(depth: nat, prefix: nat)

  predicate Inner(sizes: seq<nat>, p: Node) {
    1 <= p.depth < MAX_BITS && EndCode(sizes, p.depth) <= p.prefix < Pow2(p.depth)
  }

  ghost function Level(d: nat, lo: nat, hi: nat): set<Node> {
    set v: nat | lo <= v < hi :: Node(d, v)
  }

  lemma {:induction false} LevelSize(d: nat, lo: nat, hi: nat)
    requires lo <= hi
    ensures |Level(d, lo, hi)| == hi - lo
  {
    if lo == hi {
      assert Level(d, lo, hi) == {};
    } else {
      LevelSize(d, lo, hi - 1);
      assert Level(d, lo, hi) == Level(d, lo, hi - 1) + {Node(d, hi - 1)};
    }
  }

  ghost function InnerFrom(sizes: seq<nat>, l: nat): set<Node>
    requires l <= MAX_BITS
    decreases MAX_BITS - l
  {
    if l == MAX_BITS then {}
    else Level(l, EndCode(sizes, l), Pow2(l)) + InnerFrom(sizes, l + 1)
  }

  function CountFrom(sizes: seq<nat>, l: nat): nat
    requires l <= MAX_BITS + 1
    decreases MAX_BITS + 1 - l
  {
    if l == MAX_BITS + 1 then 0 else Count(sizes, l) + CountFrom(sizes, l + 1)
  }

  lemma {:induction false} InnerFromMember(sizes: seq<nat>, l: nat, p: Node)
    requires 1 <= l <= MAX_BITS
    ensures p in InnerFrom(sizes, l) <==> l <= p.depth && Inner(sizes, p)
    decreases MAX_BITS - l
  {
    if l < MAX_BITS { InnerFromMember(sizes, l + 1, p); }
  }

  lemma DisjointUnion(a: set<Node>, b: set<Node>)
    requires a !! b
    ensures |a + b| == |a| + |b|
  {}

  lemma LevelDisjoint(sizes: seq<nat>, l: nat)
    requires 1 <= l < MAX_BITS
    ensures Level(l, EndCode(sizes, l), Pow2(l)) !! InnerFrom(sizes, l + 1)
  {
    forall p | p in InnerFrom(sizes, l + 1) ensures p.depth > l { InnerFromMember(sizes, l + 1, p); }
  }

  lemma InnerFromStep(sizes: seq<nat>, l: nat)
    requires Fits(sizes) && 1 <= l < MAX_BITS
    ensures |InnerFrom(sizes, l)| + EndCode(sizes, l) == Pow2(l) + |InnerFrom(sizes, l + 1)|
  {
    EndCodeBound(sizes, l);
    var a, b := Level(l, EndCode(sizes, l), Pow2(l)), InnerFrom(sizes, l + 1);
    LevelSize(l, EndCode(sizes, l), Pow2(l));
    LevelDisjoint(sizes, l);
    DisjointUnion(a, b);
    assert InnerFrom(sizes, l) == a + b;
  }

  lemma EndCodeStep(sizes: seq<nat>, l: nat)
    requires 1 <= l
    ensures EndCode(sizes, l + 1) == 2 * EndCode(sizes, l) + Count(sizes, l + 1)
  {}

  lemma InnerFromSizeStep(sizes: seq<nat>, l: nat)
    requires Fits(sizes) && 1 <= l < MAX_BITS
    requires |InnerFrom(sizes, l + 1)| + Pow2(l + 1) == CountFrom(sizes, l + 2) + EndCode(sizes, l + 1)
    ensures |InnerFrom(sizes, l)| + Pow2(l) == CountFrom(sizes, l + 1) + EndCode(sizes, l)
  {
    InnerFromStep(sizes, l);
    EndCodeStep(sizes, l);
  }

  lemma NoneDeeper(sizes: seq<nat>, l: nat)
    requires Complete(sizes) && l == MAX_BITS
    ensures |InnerFrom(sizes, l)| + Pow2(l) == CountFrom(sizes, l + 1) + EndCode(sizes, l)
  {
    assert InnerFrom(sizes, l) == {} && CountFrom(sizes, l + 1) == 0;
  }

  /** A complete code has fewer inner nodes at depth l or deeper than codes longer than l. */
  lemma {:induction false} InnerFromSize(sizes: seq<nat>, l: nat)
    requires Complete(sizes) && 1 <= l <= MAX_BITS
    ensures |InnerFrom(sizes, l)| + Pow2(l) == CountFrom(sizes, l + 1) + EndCode(sizes, l)
    decreases MAX_BITS - l
  {
    if l == MAX_BITS {
      NoneDeeper(sizes, l);
    } else {
      InnerFromSize(sizes, l + 1);
      InnerFromSizeStep(sizes, l);
    }
  }

  lemma {:induction false} CountFromBound(sizes: seq<nat>, l: nat, k: nat)
    requires 1 <= l <= MAX_BITS + 1 && k <= |sizes|
    ensures CountFromBefore(sizes, l, k) <= k
  {
    if k == 0 {
      CountFromNone(sizes, l);
    } else {
      CountFromBound(sizes, l, k - 1);
      CountFromStep(sizes, l, k);
    }
  }

  function CountFromBefore(sizes: seq<nat>, l: nat, k: nat): nat
    requires l <= MAX_BITS + 1 && k <= |sizes|
    decreases MAX_BITS + 1 - l
  {
    if l == MAX_BITS + 1 then 0 else CountBefore(sizes, k, l) + CountFromBefore(sizes, l + 1, k)
  }

  lemma {:induction false} CountFromNone(sizes: seq<nat>, l: nat)
    requires l <= MAX_BITS + 1
    ensures CountFromBefore(sizes, l, 0) == 0
    decreases MAX_BITS + 1 - l
  {
    if l <= MAX_BITS { CountFromNone(sizes, l + 1); }
  }

  lemma {:induction false} CountFromStep(sizes: seq<nat>, l: nat, k: nat)
    requires l <= MAX_BITS + 1 && 0 < k <= |sizes|
    ensures CountFromBefore(sizes, l, k) == CountFromBefore(sizes, l, k - 1)
      + (if l <= sizes[k - 1] <= MAX_BITS then 1 else 0)
    decreases MAX_BITS + 1 - l
  {
    if l <= MAX_BITS { CountFromStep(sizes, l + 1, k); }
  }

  lemma {:induction false} CountFromWhole(sizes: seq<nat>, l: nat)
    requires l <= MAX_BITS + 1
    ensures CountFromBefore(sizes, l, |sizes|) == CountFrom(sizes, l)
    decreases MAX_BITS + 1 - l
  {
    if l <= MAX_BITS { CountFromWhole(sizes, l + 1); }
  }

  /** So the inner nodes a decoder has to store never outnumber the symbols. */
  lemma InnerNodesBounded(sizes: seq<nat>, l: nat)
    requires Complete(sizes) && 1 <= l <= MAX_BITS
    ensures |InnerFrom(sizes, l)| <= |sizes|
  {
    InnerFromSize(sizes, l);
    EndCodeBound(sizes, l);
    CountFromBound(sizes, l + 1, |sizes|);
    CountFromWhole(sizes, l + 1);
  }

  lemma {:induction false} CountFromUsed(sizes: seq<nat>, l: nat, k: nat)
    requires ValidSizes(sizes) && k <= |sizes| && l == 1
    ensures CountFromBefore(sizes, l, k) == Used(sizes, k)
  {
    if k == 0 {
      CountFromNone(sizes, l);
    } else {
      CountFromUsed(sizes, l, k - 1);
      CountFromStep(sizes, l, k);
    }
  }
}
