/** Limiting the code lengths of a complete code: counts of codes per length are changed until no
    code is longer than the limit and the Kraft sum is 1 again. */
module LengthLimit {
  import opened BitArith
  import opened HuffmanShape
  import opened HuffmanOptimal

  const MAX_SUPPORTED: nat := 32

  /** Count times weight for every length, in units of 2^-top. */
  function Terms(num: seq<nat>, top: nat): (t: seq<nat>)
    ensures |t| == |num|
  {
    seq(|num|, i requires 0 <= i < |num| => if i <= top then num[i] * Pow2(top - i) else 0)
  }

  /** How many codes have a length from 1 to k. */
  function Codes(num: seq<nat>, k: nat): nat
    requires k < |num|
  {
    Sum(num, 1, k + 1)
  }

  /** The Kraft sum of the codes of length 1 to k, in units of 2^-top. */
  function Weight(num: seq<nat>, k: nat, top: nat): nat
    requires k < |num|
  {
    Sum(Terms(num, top), 1, k + 1)
  }

  lemma WeightUpdate(num: seq<nat>, top: nat, i: nat, v: nat, k: nat)
    requires 1 <= i <= top && i < |num| && k < |num|
    ensures Weight(num[i := v], k, top) + (if i <= k then num[i] * Pow2(top - i) else 0)
         == Weight(num, k, top) + (if i <= k then v * Pow2(top - i) else 0)
  {
    SumUpdate(Terms(num, top), i, v * Pow2(top - i), 1, k + 1);
    assert Terms(num[i := v], top) == Terms(num, top)[i := v * Pow2(top - i)];
  }

  lemma CodesUpdate(num: seq<nat>, i: nat, v: nat, k: nat)
    requires 1 <= i <= k < |num|
    ensures Codes(num[i := v], k) + num[i] == Codes(num, k) + v
  {
    SumUpdate(num, i, v, 1, k + 1);
  }

  /** A code of length i < top split into two of length i + 1, at the price of one of length top. */
  function Moved(num: seq<nat>, top: nat, i: nat): seq<nat>
    requires 1 <= i < top < |num| && num[top] > 0 && num[i] > 0
  {
    var a := num[top := num[top] - 1];
    var b := a[i := a[i] - 1];
    b[i + 1 := b[i + 1] + 2]
  }

  /** The number of codes stays, the Kraft sum falls by one unit, and the part of it that comes
      from codes shorter than top does not rise. */
  lemma MovedSums(num: seq<nat>, top: nat, i: nat)
    requires 1 <= i < top < |num| && num[top] > 0 && num[i] > 0
    ensures |Moved(num, top, i)| == |num|
    ensures Codes(Moved(num, top, i), top) == Codes(num, top)
    ensures Weight(Moved(num, top, i), top, top) + 1 == Weight(num, top, top)
    ensures Weight(Moved(num, top, i), top - 1, top) <= Weight(num, top - 1, top)
  {
    var a := num[top := num[top] - 1];
    var b := a[i := a[i] - 1];
    CodesUpdate(num, top, num[top] - 1, top);
    CodesUpdate(a, i, a[i] - 1, top);
    CodesUpdate(b, i + 1, b[i + 1] + 2, top);
    MovedWeight(num, top, i, top);
    MovedWeight(num, top, i, top - 1);
  }

  lemma MovedWeight(num: seq<nat>, top: nat, i: nat, k: nat)
    requires 1 <= i < top < |num| && num[top] > 0 && num[i] > 0 && top - 1 <= k <= top
    ensures Weight(Moved(num, top, i), k, top) + (if k == top then 1 else if i == top - 1 then 2 else 0)
         == Weight(num, k, top)
  {
    var a := num[top := num[top] - 1];
    var b := a[i := a[i] - 1];
    WeightUpdate(num, top, top, num[top] - 1, k);
    WeightUpdate(a, top, i, a[i] - 1, k);
    WeightUpdate(b, top, i + 1, b[i + 1] + 2, k);
    var p, q := Pow2(top - i), Pow2(top - (i + 1));
    assert p == 2 * q;
    OneLess(num[top], 1);
    OneLess(a[i], p);
    TwoMore(b[i + 1], q);
  }

  lemma OneLess(x: nat, p: nat)
    requires x > 0
    ensures (x - 1) * p == x * p - p
  {}

  lemma TwoMore(x: nat, p: nat)
    ensures (x + 2) * p == x * p + 2 * p
  {}

  // ---------------------------------------------------------------- folding the long codes

  /** The codes longer than the limit counted at the limit. */
  function Folded(num: seq<nat>, top: nat): seq<nat>
    requires top < |num|
  {
    num[top := Sum(num, top, |num|)]
  }

  lemma {:induction false} TermsScale(num: seq<nat>, top: nat, big: nat, k: nat)
    requires top <= big && k <= top < |num|
    ensures Weight(num, k, big) == Weight(num, k, top) * Pow2(big - top)
  {
    if k > 0 {
      TermsScale(num, top, big, k - 1);
      SumLast(Terms(num, big), 1, k);
      SumLast(Terms(num, top), 1, k);
      Pow2Add(top - k, big - top);
      ScaleStep(num[k], Pow2(top - k), Pow2(big - top), Weight(num, k - 1, top));
    }
  }

  lemma ScaleStep(x: nat, p: nat, q: nat, w: nat)
    ensures w * q + x * (p * q) == (w + x * p) * q
  {}

  lemma Spread(x: nat, y: nat, p: nat)
    ensures (x + y) * p == x * p + y * p
  {}

  lemma {:induction false} TailBound(num: seq<nat>, top: nat, big: nat, k: nat)
    requires top <= big && top <= k <= |num| == big + 1
    ensures Sum(Terms(num, big), k, |num|) <= Sum(num, k, |num|) * Pow2(big - top)
    decreases |num| - k
  {
    if k < |num| {
      TailBound(num, top, big, k + 1);
      Pow2Monotone(big - k, big - top);
      MulMonotone(Pow2(big - k), Pow2(big - top), num[k]);
      Spread(num[k], Sum(num, k + 1, |num|), Pow2(big - top));
    }
  }

  /** A code with Kraft sum 1 has, after folding, a Kraft sum of at least 1, of which the shorter
      codes make up at most 1; the number of codes is the same. */
  lemma FoldedSums(num: seq<nat>, top: nat)
    requires |num| == MAX_SUPPORTED + 1 && 1 <= top < MAX_SUPPORTED
    requires Weight(num, MAX_SUPPORTED, MAX_SUPPORTED) == Pow2(MAX_SUPPORTED)
    ensures Codes(Folded(num, top), top) == Codes(num, MAX_SUPPORTED)
    ensures Weight(Folded(num, top), top, top) >= Pow2(top)
    ensures Weight(Folded(num, top), top - 1, top) <= Pow2(top)
  {
    FoldedCodes(num, top);
    FoldedWeight(num, top, MAX_SUPPORTED);
  }

  lemma FoldedCodes(num: seq<nat>, top: nat)
    requires 1 <= top < |num|
    ensures Codes(Folded(num, top), top) == Codes(num, |num| - 1)
  {
    SumSplit(num, 1, top, |num|);
    SumLast(Folded(num, top), 1, top);
    SumSame(num, Folded(num, top), 1, top);
  }

  lemma FoldedWeight(num: seq<nat>, top: nat, big: nat)
    requires |num| == big + 1 && 1 <= top < big && Weight(num, big, big) == Pow2(big)
    ensures Weight(Folded(num, top), top, top) >= Pow2(top)
    ensures Weight(Folded(num, top), top - 1, top) <= Pow2(top)
  {
    var g := Folded(num, top);
    var p, s := Weight(num, top - 1, top), Sum(num, top, |num|);
    SumSame(Terms(num, top), Terms(g, top), 1, top);
    SumLast(Terms(g, top), 1, top);
    assert Terms(g, top)[top] == g[top] * Pow2(0) == s;
    assert Weight(g, top, top) == p + s;
    SumSplit(Terms(num, big), 1, top, |num|);
    TermsScale(num, top, big, top - 1);
    TailBound(num, top, big, top);
    Pow2Add(top, big - top);
    Cancel(p, s, Pow2(top), Pow2(big - top), Sum(Terms(num, big), top, |num|));
  }

  lemma Cancel(p: nat, s: nat, t: nat, q: nat, r: nat)
    requires q > 0 && p * q + r == t * q && r <= s * q
    ensures t <= p + s && p <= t
  {
    Spread(p, s, q);
    Spread(p + s, 1, q);
    Spread(t, 1, q);
    if t > p + s { MulMonotone(p + s + 1, t, q); }
    if p > t { MulMonotone(t + 1, p, q); }
  }

  /** No code is longer than top. */
  ghost predicate NoneLonger(num: seq<nat>, top: nat) {
    forall i :: top < i < |num| ==> num[i] == 0
  }

  lemma {:induction false} EmptyTail(num: seq<nat>, top: nat, big: nat, k: nat)
    requires NoneLonger(num, top) && top < k <= |num|
    ensures Sum(num, k, |num|) == 0 && Sum(Terms(num, big), k, |num|) == 0
    decreases |num| - k
  {
    if k < |num| { EmptyTail(num, top, big, k + 1); }
  }

  /** A code that respects the limit is left as it is. */
  lemma FoldedAsIs(num: seq<nat>, top: nat, big: nat)
    requires |num| == big + 1 && 1 <= top < big && Weight(num, big, big) == Pow2(big) && NoneLonger(num, top)
    ensures Folded(num, top) == num && Weight(num, top, top) == Pow2(top)
  {
    EmptyTail(num, top, big, top + 1);
    SumSplit(num, top, top + 1, |num|);
    assert Sum(num, top, top + 1) == num[top] + Sum(num, top + 1, top + 1);
    SumSplit(Terms(num, big), 1, top + 1, |num|);
    TermsScale(num, top, big, top);
    Pow2Add(top, big - top);
    Cancel(Weight(num, top, top), 0, Pow2(top), Pow2(big - top), 0);
  }

  // ---------------------------------------------------------------- the in-place loop

  lemma {:induction false} OnlyLongest(num: seq<nat>, top: nat, k: nat)
    requires 1 <= top < |num| && k < top && forall i :: 1 <= i < top ==> num[i] == 0
    ensures Codes(num, k) == 0 && Weight(num, k, top) == 0
  {
    if k > 0 {
      OnlyLongest(num, top, k - 1);
      SumLast(num, 1, k);
      SumLast(Terms(num, top), 1, k);
    }
  }

  /** While the Kraft sum is above 1 there is a code at the limit, and a shorter one to split. */
  lemma CanMove(num: seq<nat>, top: nat)
    requires 1 <= top < |num| && Weight(num, top, top) > Pow2(top)
    requires Weight(num, top - 1, top) <= Pow2(top) && Codes(num, top) <= Pow2(top)
    ensures num[top] > 0 && exists i :: 1 <= i < top && num[i] > 0
  {
    SumLast(Terms(num, top), 1, top);
    assert Terms(num, top)[top] == num[top] * Pow2(0) == num[top];
    SumLast(num, 1, top);
    if forall i :: 1 <= i < top ==> num[i] == 0 { OnlyLongest(num, top, top - 1); }
  }

  method FoldLong(num: array<nat>, top: nat)
    requires 1 <= top < num.Length
    modifies num
    ensures num[..] == Folded(old(num[..]), top)
  {
    ghost var before := num[..];
    assert Sum(before, top, top + 1) == before[top] + Sum(before, top + 1, top + 1);
    for i := top + 1 to num.Length
      invariant num[top] == Sum(before, top, i)
      invariant forall k :: 0 <= k < num.Length && k != top ==> num[k] == before[k]
    {
      SumLast(before, top, i);
      num[top] := num[top] + num[i];
    }
  }

  method TotalWeight(num: array<nat>, top: nat) returns (total: nat)
    requires 1 <= top < num.Length
    ensures total == Weight(num[..], top, top)
  {
    total := 0;
    var i := top;
    while i > 0
      invariant 0 <= i <= top && total == Sum(Terms(num[..], top), i + 1, top + 1)
    {
      total := total + num[i] * Pow2(top - i);
      i := i - 1;
    }
  }

  /** One step of the limiting loop: the code that is split is one of the longest below the limit. */
  method SplitOne(num: array<nat>, top: nat)
    requires 1 <= top < num.Length && num[top] > 0 && exists i :: 1 <= i < top && num[i] > 0
    modifies num
    ensures exists i ::
      && 1 <= i < top && old(num[i]) > 0 && (forall j :: i < j < top ==> old(num[j]) == 0)
      && num[..] == Moved(old(num[..]), top, i)
  {
    ghost var before := num[..];
    ghost var k :| 1 <= k < top && num[k] > 0;
    num[top] := num[top] - 1;
    var i := top - 1;
    while num[i] == 0
      invariant 1 <= k <= i < top && num[k] > 0 && num[..] == before[top := before[top] - 1]
      invariant forall j :: i < j < top ==> before[j] == 0
      decreases i
    {
      i := i - 1;
    }
    num[i] := num[i] - 1;
    num[i + 1] := num[i + 1] + 2;
    assert num[..] == Moved(before, top, i);
  }

  /** Terminates with the same number of codes, none longer than the limit, and Kraft sum 1. Codes shorter than `low`
      are left alone, and it is necessary to change some of the length `low`. */
  method EnforceMaxCodeSize(num: array<nat>, len: nat, top: nat) returns (ghost low: nat)
    requires num.Length == MAX_SUPPORTED + 1 && 1 <= top < MAX_SUPPORTED
    requires len == Codes(num[..], MAX_SUPPORTED) <= Pow2(top)
    requires len >= 2 ==> Weight(num[..], MAX_SUPPORTED, MAX_SUPPORTED) == Pow2(MAX_SUPPORTED)
    modifies num
    ensures len <= 1 ==> num[..] == old(num[..])
    ensures len >= 2 ==> Codes(num[..], top) == len && Weight(num[..], top, top) == Pow2(top)
    ensures NoneLonger(old(num[..]), top) ==> num[..] == old(num[..])
    ensures 1 <= low <= top && forall l :: 1 <= l < low ==> num[l] == old(num[l])
    ensures low < top ==> Weight(old(num[..]), low, top) + len - Codes(old(num[..]), low) > Pow2(top)
  {
    low := top;
    if len <= 1 { return; }
    ghost var raw := num[..];
    FoldedSums(num[..], top);
    if NoneLonger(num[..], top) { FoldedAsIs(num[..], top, MAX_SUPPORTED); }
    FoldLong(num, top);
    var total := TotalWeight(num, top);
    low := Rebalance(num, len, top, total, raw);
  }

  /** The loop, once the total is known. */
  method Rebalance(num: array<nat>, ghost len: nat, top: nat, weight: nat, ghost raw: seq<nat>) returns (ghost low: nat)
    requires 1 <= top < num.Length && Pow2(top) >= len && true == OverFull(num[..], len, top, weight)
    requires |raw| == num.Length && forall l :: 1 <= l < top ==> num[l] == raw[l]
    modifies num
    ensures weight == Pow2(top) ==> num[..] == old(num[..])
    ensures true == OverFull(num[..], len, top, Pow2(top)) && true == Spared(num[..], raw, len, top, low)
  {
    var total := weight;
    low := top;
    while total != Pow2(top)
      invariant true == OverFull(num[..], len, top, total) && true == Spared(num[..], raw, len, top, low)
      invariant weight == Pow2(top) ==> num[..] == old(num[..]) && total == Pow2(top)
      decreases total
    {
      low := MoveOne(num, len, top, total, raw, low);
      total := total - 1;
    }
  }

  /** The Kraft sum is `total`, 1 or more, and is at most 1 without the codes at the limit. */
  ghost predicate OverFull(num: seq<nat>, len: nat, top: nat, total: nat)
    requires 1 <= top < |num|
  {
    Codes(num, top) == len && total == Weight(num, top, top) >= Pow2(top) && Weight(num, top - 1, top) <= Pow2(top)
  }

  /** The counts of lengths below `low` are as they were. If all codes up to the length `low` stayed as they were, then
      even with all others at the limit the Kraft sum would be above 1. */
  ghost predicate Spared(num: seq<nat>, raw: seq<nat>, len: nat, top: nat, low: nat) {
    && |num| == |raw| && 1 <= low <= top < |num| && (forall l :: 1 <= l < low ==> num[l] == raw[l])
    && (low < top ==> Weight(raw, low, top) + len - Codes(raw, low) > Pow2(top))
  }

  lemma {:induction false} ZeroSum(s: seq<nat>, lo: nat, hi: nat)
    requires hi <= |s| && forall j :: lo <= j < hi ==> s[j] == 0
    ensures Sum(s, lo, hi) == 0
    decreases hi - lo
  {
    if lo < hi { ZeroSum(s, lo + 1, hi); }
  }

  /** With no codes between i and the limit, all that are longer than i are at the limit. */
  lemma GapSums(num: seq<nat>, top: nat, i: nat)
    requires 1 <= i < top < |num| && forall j :: i < j < top ==> num[j] == 0
    ensures Codes(num, top) == Codes(num, i) + num[top] && Weight(num, top, top) == Weight(num, i, top) + num[top]
  {
    var t := Terms(num, top);
    SumSplit(num, 1, i + 1, top);
    SumSplit(t, 1, i + 1, top);
    ZeroSum(num, i + 1, top);
    ZeroSum(t, i + 1, top);
    SumLast(num, 1, top);
    SumLast(t, 1, top);
    assert t[top] == num[top] * Pow2(0) == num[top];
  }

  lemma SameBelow(num: seq<nat>, raw: seq<nat>, top: nat, i: nat)
    requires |num| == |raw| && i < top < |num| && forall l :: 1 <= l <= i ==> num[l] == raw[l]
    ensures Codes(num, i) == Codes(raw, i) && Weight(num, i, top) == Weight(raw, i, top)
  {
    SumSame(num, raw, 1, i + 1);
    SumSame(Terms(num, top), Terms(raw, top), 1, i + 1);
  }

  lemma MovedSpares(num: seq<nat>, raw: seq<nat>, len: nat, top: nat, low: nat, i: nat)
    requires Spared(num, raw, len, top, low) && 1 <= i < top && num[i] > 0 && num[top] > 0
    requires (forall j :: i < j < top ==> num[j] == 0) && Codes(num, top) == len && Weight(num, top, top) > Pow2(top)
    ensures true == Spared(Moved(num, top, i), raw, len, top, if i < low then i else low)
  {
    if i < low {
      GapSums(num, top, i);
      SameBelow(num, raw, top, i);
    }
  }

  /** One round of the limiting loop lowers the Kraft sum by one unit. */
  method MoveOne(num: array<nat>, ghost len: nat, top: nat, ghost total: nat, ghost raw: seq<nat>, ghost low: nat)
    returns (ghost low': nat)
    requires 1 <= top < num.Length && total > Pow2(top) >= len && true == OverFull(num[..], len, top, total)
    requires true == Spared(num[..], raw, len, top, low)
    modifies num
    ensures true == OverFull(num[..], len, top, total - 1) && true == Spared(num[..], raw, len, top, low')
  {
    CanMove(num[..], top);
    ghost var before := num[..];
    SplitOne(num, top);
    ghost var i :| 1 <= i < top && before[i] > 0 && (forall j :: i < j < top ==> before[j] == 0)
      && num[..] == Moved(before, top, i);
    MovedSums(before, top, i);
    MovedSpares(before, raw, len, top, low, i);
    low' := if i < low then i else low;
  }
}
