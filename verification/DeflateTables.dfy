/** How the deflator turns symbol frequencies into code lengths and codes: collect the symbols in use,
    sort them, compute optimal lengths in place, limit them, hand them out, number the codes. */
module DeflateTables {
  import opened BitArith
  import opened CanonicalCodes
  import opened RadixSort
  import opened HuffmanShape
  import opened HuffmanOptimal
  import opened MinimumRedundancy
  import opened LengthLimit
  import opened InflateTables

  // ---------------------------------------------------------------- symbols in use

  /** The symbols among the first k that occur, with their frequencies. */
  function Entries(counts: seq<nat>, k: nat): seq<SymFreq>
    requires k <= |counts|
  {
    if k == 0 then []
    else Entries(counts, k - 1) + (if counts[k - 1] > 0 then [SymFreq(counts[k - 1], k - 1)] else [])
  }

  lemma {:induction false} EntryIs(counts: seq<nat>, k: nat, i: nat)
    requires k <= |counts| && i < |Entries(counts, k)|
    ensures var e := Entries(counts, k)[i]; e.sym < k && e.key == counts[e.sym] > 0
  {
    if i < |Entries(counts, k - 1)| { EntryIs(counts, k - 1, i); }
  }

  lemma {:induction false} EntriesAscend(counts: seq<nat>, k: nat)
    requires k <= |counts|
    ensures SymsAscend(Entries(counts, k))
  {
    if k > 0 {
      EntriesAscend(counts, k - 1);
      var e := Entries(counts, k - 1);
      forall i | 0 <= i < |e| ensures e[i].sym < k - 1 { EntryIs(counts, k - 1, i); }
    }
  }

  lemma {:induction false} EntryOf(counts: seq<nat>, k: nat, s: nat)
    requires s < k <= |counts| && counts[s] > 0
    ensures SymFreq(counts[s], s) in Entries(counts, k)
  {
    var e := Entries(counts, k - 1);
    if s < k - 1 {
      EntryOf(counts, k - 1, s);
    } else {
      assert Entries(counts, k)[|e|] == SymFreq(counts[s], s);
    }
  }

  lemma {:induction false} EntriesSum(counts: seq<nat>, k: nat)
    requires k <= |counts|
    ensures KeySum(Entries(counts, k)) == Sum(counts, 0, k)
  {
    if k > 0 {
      EntriesSum(counts, k - 1);
      SumLast(counts, 0, k - 1);
      var e := Entries(counts, k - 1);
      if counts[k - 1] > 0 {
        assert (e + [SymFreq(counts[k - 1], k - 1)])[..|e|] == e;
      } else {
        assert e + [] == e;
      }
    }
  }

  lemma {:induction false} EntriesLength(counts: seq<nat>, k: nat)
    requires k <= |counts|
    ensures |Entries(counts, k)| <= k
  {
    if k > 0 { EntriesLength(counts, k - 1); }
  }

  method Collect(counts: seq<nat>, syms: array<SymFreq>) returns (n: nat)
    requires |counts| <= syms.Length
    modifies syms
    ensures n <= syms.Length && syms[..n] == Entries(counts, |counts|)
  {
    n := 0;
    for i := 0 to |counts|
      invariant n <= i && syms[..n] == Entries(counts, i)
    {
      if counts[i] > 0 {
        syms[n] := SymFreq(counts[i], i);
        n := n + 1;
      }
    }
  }

  /** `order` lists the symbols in use, least frequent first. */
  ghost predicate Ordered(counts: seq<nat>, order: seq<SymFreq>) {
    && Sorted(order)
    && (forall p :: 0 <= p < |order| ==> order[p].sym < |counts| && order[p].key == counts[order[p].sym] > 0)
    && (forall p, q :: 0 <= p < q < |order| ==> order[p].sym != order[q].sym)
    && (forall s: nat :: s < |counts| && counts[s] > 0 ==> SymFreq(counts[s], s) in order)
  }

  lemma SortedEntries(counts: seq<nat>, order: seq<SymFreq>)
    requires Sorted(order) && StablePermutation(Entries(counts, |counts|), order)
    ensures Ordered(counts, order)
  {
    var s := Entries(counts, |counts|);
    EntriesAscend(counts, |counts|);
    forall p | 0 <= p < |order|
      ensures order[p].sym < |counts| && order[p].key == counts[order[p].sym] > 0
    {
      StableMember(s, order, p);
      EntryMember(counts, |counts|, order[p]);
    }
    forall p, q | 0 <= p < q < |order| ensures order[p].sym != order[q].sym {
      StableDistinct(s, order, p, q);
    }
    forall u: nat | u < |counts| && counts[u] > 0 ensures SymFreq(counts[u], u) in order {
      EntryOf(counts, |counts|, u);
      StableMemberBack(s, order, SymFreq(counts[u], u));
    }
  }

  lemma EntryMember(counts: seq<nat>, k: nat, e: SymFreq)
    requires k <= |counts| && e in Entries(counts, k)
    ensures e.sym < k && e.key == counts[e.sym] > 0
  {
    var i :| 0 <= i < |Entries(counts, k)| && Entries(counts, k)[i] == e;
    EntryIs(counts, k, i);
  }

  lemma StableMemberBack(s: seq<SymFreq>, t: seq<SymFreq>, e: SymFreq)
    requires StablePermutation(s, t) && e in s
    ensures e in t
  {
    var i :| 0 <= i < |s| && s[i] == e;
    StableBack(s, t);
    StableMember(t, s, i);
  }

  lemma StableBack(s: seq<SymFreq>, t: seq<SymFreq>)
    requires StablePermutation(s, t)
    ensures StablePermutation(t, s)
  {}

  function Keys(order: seq<SymFreq>): (k: seq<nat>)
    ensures |k| == |order|
  {
    seq(|order|, i requires 0 <= i < |order| => order[i].key)
  }

  lemma {:induction false} KeysTotal(order: seq<SymFreq>, k: nat)
    requires k <= |order|
    ensures Sum(Keys(order), 0, k) == KeySum(order[..k])
  {
    if k > 0 {
      KeysTotal(order, k - 1);
      SumLast(Keys(order), 0, k - 1);
      assert order[..k][..k - 1] == order[..k - 1];
    }
  }

  // ---------------------------------------------------------------- counting lengths

  method CountLengths(keys: array<nat>) returns (num: array<nat>)
    requires AtMost(keys[..], MAX_SUPPORTED) && forall i :: 0 <= i < keys.Length ==> keys[i] >= 1
    ensures fresh(num) && num.Length == MAX_SUPPORTED + 1
    ensures forall l: nat :: l <= MAX_SUPPORTED ==> num[l] == Count(keys[..], l)
    ensures Codes(num[..], MAX_SUPPORTED) == keys.Length
    ensures Weight(num[..], MAX_SUPPORTED, MAX_SUPPORTED) == Kraft(keys[..], MAX_SUPPORTED)
  {
    num := new nat[MAX_SUPPORTED + 1](_ => 0);
    ghost var l := keys[..];
    ZeroCounts(num[..], MAX_SUPPORTED, MAX_SUPPORTED);
    for i := 0 to keys.Length
      invariant keys[..] == l
      invariant forall k: nat :: k <= MAX_SUPPORTED ==> num[k] == CountBefore(l, i, k)
      invariant Codes(num[..], MAX_SUPPORTED) == i
      invariant Weight(num[..], MAX_SUPPORTED, MAX_SUPPORTED) == Sum(KraftTerms(l, MAX_SUPPORTED), 0, i)
    {
      CountOne(num[..], l, i, MAX_SUPPORTED);
      ghost var next := num[..][keys[i] := num[keys[i]] + 1];
      num[keys[i]] := num[keys[i]] + 1;
      assert num[..] == next;
    }
  }

  lemma CountOne(num: seq<nat>, l: seq<nat>, i: nat, top: nat)
    requires i < |l| && 1 <= l[i] <= top < |num|
    ensures Codes(num[l[i] := num[l[i]] + 1], top) == Codes(num, top) + 1
    ensures Weight(num[l[i] := num[l[i]] + 1], top, top) + Sum(KraftTerms(l, top), 0, i)
         == Weight(num, top, top) + Sum(KraftTerms(l, top), 0, i + 1)
  {
    CodesUpdate(num, l[i], num[l[i]] + 1, top);
    WeightUpdate(num, top, l[i], num[l[i]] + 1, top);
    SumLast(KraftTerms(l, top), 0, i);
    Spread(num[l[i]], 1, Pow2(top - l[i]));
  }

  lemma {:induction false} ZeroCounts(num: seq<nat>, k: nat, top: nat)
    requires k < |num| && forall i :: 0 <= i < |num| ==> num[i] == 0
    ensures Codes(num, k) == 0 && Weight(num, k, top) == 0
  {
    if k > 0 {
      ZeroCounts(num, k - 1, top);
      SumLast(num, 1, k);
      SumLast(Terms(num, top), 1, k);
    }
  }

  // ---------------------------------------------------------------- handing out lengths

  lemma {:induction false} CountUpdate(sizes: seq<nat>, s: nat, v: nat, l: nat, k: nat)
    requires s < |sizes| && k <= |sizes|
    ensures CountBefore(sizes[s := v], k, l) + (if s < k && sizes[s] == l then 1 else 0)
         == CountBefore(sizes, k, l) + (if s < k && v == l then 1 else 0)
  {
    if k > 0 { CountUpdate(sizes, s, v, l, k - 1); }
  }

  lemma {:induction false} CodesMonotone(num: seq<nat>, j: nat, k: nat)
    requires j <= k < |num|
    ensures Codes(num, j) <= Codes(num, k)
  {
    SumSplit(num, 1, j + 1, k + 1);
  }

  /** Position p of the sorted symbols has code length z: the shortest codes go to the last. */
  ghost predicate PosSize(num: seq<nat>, n: nat, limit: nat, p: nat, z: nat)
    requires limit < |num|
  {
    1 <= z <= limit && n - Codes(num, z) <= p < n - Codes(num, z - 1)
  }

  /** The positions from j on have their lengths, nothing else has one. */
  ghost predicate HandedOut(sizes: seq<nat>, order: seq<SymFreq>, num: seq<nat>, limit: nat, j: nat)
    requires limit < |num|
  {
    && (forall p :: 0 <= p < |order| ==> order[p].sym < |sizes|)
    && (forall p :: 0 <= j <= p < |order| ==> PosSize(num, |order|, limit, p, sizes[order[p].sym]))
    && (forall s: nat :: s < |sizes| && sizes[s] > 0 ==> exists p :: j <= p < |order| && order[p].sym == s)
  }

  /** `sizes` has num[l] codes of each length l up to the limit, and no others. */
  ghost predicate CountsAre(sizes: seq<nat>, num: seq<nat>, limit: nat)
    requires limit < |num|
  {
    forall l: nat :: 1 <= l ==> Count(sizes, l) == if l <= limit then num[l] else 0
  }

  /** With l codes of length i still to give, this many symbols have each length. */
  ghost predicate Tally(sizes: seq<nat>, num: seq<nat>, i: nat, left: int)
    requires i < |num|
  {
    forall l: nat :: 1 <= l ==> Count(sizes, l) == if l < i then num[l] else if l == i then num[i] - left else 0
  }

  ghost predicate Distinct(order: seq<SymFreq>) {
    forall p, q :: 0 <= p < q < |order| ==> order[p].sym != order[q].sym
  }

  lemma GiveOne(sizes: seq<nat>, order: seq<SymFreq>, num: seq<nat>, limit: nat, j: nat, i: nat, left: nat)
    requires limit < |num| && 1 <= i <= limit && Distinct(order) && 0 < j <= |order| && 0 < left <= num[i]
    requires HandedOut(sizes, order, num, limit, j) && Tally(sizes, num, i, left)
    requires j == |order| - Codes(num, i - 1) - (num[i] - left)
    ensures order[j - 1].sym < |sizes|
    ensures HandedOut(sizes[order[j - 1].sym := i], order, num, limit, j - 1)
    ensures Tally(sizes[order[j - 1].sym := i], num, i, left - 1)
  {
    var s := order[j - 1].sym;
    var sizes' := sizes[s := i];
    SumLast(num, 1, i);
    assert sizes[s] == 0;
    forall l: nat | 1 <= l
      ensures Count(sizes', l) == if l < i then num[l] else if l == i then num[i] - (left - 1) else 0
    {
      CountUpdate(sizes, s, i, l, |sizes|);
      assert Count(sizes, l) == if l < i then num[l] else if l == i then num[i] - left else 0;
    }
    assert PosSize(num, |order|, limit, j - 1, i);
    GiveOneHanded(sizes, order, num, limit, j, i);
  }

  lemma GiveOneHanded(sizes: seq<nat>, order: seq<SymFreq>, num: seq<nat>, limit: nat, j: nat, i: nat)
    requires limit < |num| && Distinct(order) && 0 < j <= |order|
    requires HandedOut(sizes, order, num, limit, j) && PosSize(num, |order|, limit, j - 1, i)
    ensures HandedOut(sizes[order[j - 1].sym := i], order, num, limit, j - 1)
  {
    var s := order[j - 1].sym;
    var sizes' := sizes[s := i];
    forall u: nat | u < |sizes'| && sizes'[u] > 0 ensures exists p :: j - 1 <= p < |order| && order[p].sym == u {
      if u == s {
        assert order[j - 1].sym == u;
      } else {
        var p :| j <= p < |order| && order[p].sym == u;
      }
    }
  }

  method GiveLength(syms: array<SymFreq>, n: nat, num: array<nat>, limit: nat, sizes: array<nat>, i: nat, j: nat)
    returns (j': nat)
    requires n <= syms.Length && sizes != num && limit < num.Length && 1 <= i <= limit && Distinct(syms[..n])
    requires num[i] <= j <= n && j == n - Codes(num[..], i - 1)
    requires HandedOut(sizes[..], syms[..n], num[..], limit, j) && Tally(sizes[..], num[..], i, num[i])
    modifies sizes
    ensures j' == n - Codes(num[..], i)
    ensures HandedOut(sizes[..], syms[..n], num[..], limit, j') && Tally(sizes[..], num[..], i, 0)
  {
    ghost var order, counts := syms[..n], num[..];
    SumLast(counts, 1, i);
    j' := j;
    var l := num[i];
    while l > 0
      invariant 0 <= l <= num[i] && j' == n - Codes(counts, i - 1) - (num[i] - l) && l <= j'
      invariant HandedOut(sizes[..], order, counts, limit, j') && Tally(sizes[..], counts, i, l)
    {
      GiveOne(sizes[..], order, counts, limit, j', i, l);
      j' := j' - 1;
      ghost var next := sizes[..][order[j'].sym := i];
      sizes[syms[j'].sym] := i;
      assert sizes[..] == next;
      l := l - 1;
    }
  }

  method GiveLengths(syms: array<SymFreq>, n: nat, num: array<nat>, limit: nat, sizes: array<nat>)
    requires n <= syms.Length && sizes != num && limit < num.Length && Distinct(syms[..n])
    requires forall p :: 0 <= p < n ==> syms[p].sym < sizes.Length
    requires Codes(num[..], limit) == n && forall s :: 0 <= s < sizes.Length ==> sizes[s] == 0
    modifies sizes
    ensures HandedOut(sizes[..], syms[..n], num[..], limit, 0) && CountsAre(sizes[..], num[..], limit)
  {
    var j := n;
    ZeroTally(sizes[..], num[..]);
    assert Codes(num[..], 0) == 0;
    var i := 1;
    while i <= limit
      invariant 1 <= i <= limit + 1 && 0 <= j == n - Codes(num[..], i - 1)
      invariant HandedOut(sizes[..], syms[..n], num[..], limit, j) && Tally(sizes[..], num[..], i - 1, 0)
    {
      CodesMonotone(num[..], i, limit);
      SumLast(num[..], 1, i);
      NextTally(sizes[..], num[..], i);
      j := GiveLength(syms, n, num, limit, sizes, i, j);
      i := i + 1;
    }
  }

  lemma NextTally(sizes: seq<nat>, num: seq<nat>, i: nat)
    requires 1 <= i < |num| && Tally(sizes, num, i - 1, 0)
    ensures Tally(sizes, num, i, num[i])
  {}

  lemma ZeroTally(sizes: seq<nat>, num: seq<nat>)
    requires |num| > 0 && forall s :: 0 <= s < |sizes| ==> sizes[s] == 0
    ensures Tally(sizes, num, 0, 0)
  {
    forall l: nat | 1 <= l ensures Count(sizes, l) == 0 { NoneOf(sizes, |sizes|, l); }
  }

  lemma {:induction false} NoneOf(sizes: seq<nat>, k: nat, l: nat)
    requires k <= |sizes| && l >= 1 && forall s :: 0 <= s < |sizes| ==> sizes[s] == 0
    ensures CountBefore(sizes, k, l) == 0
  {
    if k > 0 { NoneOf(sizes, k - 1, l); }
  }

  // ---------------------------------------------------------------- what the lengths are worth

  lemma {:induction false} WeightOfCounts(sizes: seq<nat>, num: seq<nat>, limit: nat, l: nat)
    requires l <= MAX_BITS < |num| && limit <= MAX_BITS && CountsAre(sizes, num, limit)
    ensures WeightUpTo(sizes, |sizes|, l) == Weight(num, if l <= limit then l else limit, MAX_BITS)
  {
    if l > 0 {
      WeightOfCounts(sizes, num, limit, l - 1);
      assert CountBefore(sizes, |sizes|, l) == Count(sizes, l);
      if l <= limit { SumLast(Terms(num, MAX_BITS), 1, l); }
    }
  }

  /** Counts with Kraft sum 1 make a complete code. */
  lemma CountsComplete(sizes: seq<nat>, num: seq<nat>, limit: nat)
    requires 1 <= limit <= MAX_BITS < |num| && CountsAre(sizes, num, limit)
    requires Weight(num, limit, limit) == Pow2(limit)
    ensures Complete(sizes)
  {
    WeightOfCounts(sizes, num, limit, MAX_BITS);
    TermsScale(num, limit, MAX_BITS, limit);
    Pow2Add(limit, MAX_BITS - limit);
    EndCodeWeight(sizes, MAX_BITS);
    LastLevelWeight(sizes, MAX_BITS);
  }

  lemma LastLevelWeight(sizes: seq<nat>, l: nat)
    ensures EndCode(sizes, l) * Pow2(0) == EndCode(sizes, l)
  {}

  /** Later positions, that is more frequent symbols, never get longer codes. */
  lemma PosSizeFalls(num: seq<nat>, n: nat, limit: nat, p: nat, q: nat, y: nat, z: nat)
    requires limit < |num| && p <= q && PosSize(num, n, limit, p, y) && PosSize(num, n, limit, q, z)
    ensures z <= y
  {
    if y < z { CodesMonotone(num, y, z - 1); }
  }

  /** How many of the first k lengths lie between 1 and z. */
  function CountUpTo(l: seq<nat>, k: nat, z: nat): nat
    requires k <= |l|
  {
    if k == 0 then 0 else CountUpTo(l, k - 1, z) + (if 1 <= l[k - 1] <= z then 1 else 0)
  }

  lemma {:induction false} CountUpToStep(l: seq<nat>, k: nat, z: nat)
    requires k <= |l| && z >= 1
    ensures CountUpTo(l, k, z) == CountUpTo(l, k, z - 1) + CountBefore(l, k, z)
  {
    if k > 0 { CountUpToStep(l, k - 1, z); }
  }

  lemma {:induction false} CountUpToNone(l: seq<nat>, k: nat)
    requires k <= |l|
    ensures CountUpTo(l, k, 0) == 0
  {
    if k > 0 { CountUpToNone(l, k - 1); }
  }

  lemma {:induction false} CodesAreCounts(l: seq<nat>, num: seq<nat>, z: nat)
    requires z < |num| && forall i: nat :: 1 <= i <= z ==> num[i] == Count(l, i)
    ensures Codes(num, z) == CountUpTo(l, |l|, z)
  {
    if z == 0 {
      CountUpToNone(l, |l|);
    } else {
      CodesAreCounts(l, num, z - 1);
      SumLast(num, 1, z);
      CountUpToStep(l, |l|, z);
      assert num[z] == Count(l, z);
    }
  }

  lemma {:induction false} SuffixCounted(l: seq<nat>, p: nat, k: nat, z: nat)
    requires Descending(l) && p < |l| && k <= |l|
    ensures l[p] <= z ==> CountUpTo(l, k, z) >= k - p
    ensures l[p] > z ==> CountUpTo(l, k, z) <= if k > p then k - p - 1 else 0
  {
    if k > 0 { SuffixCounted(l, p, k - 1, z); }
  }

  /** If the descending lengths l already respect the limit, they are what is handed out. */
  lemma HandedOutAsIs(l: seq<nat>, num: seq<nat>, limit: nat, p: nat, z: nat)
    requires Descending(l) && AtMost(l, limit) && limit < |num| && p < |l|
    requires forall i: nat :: 1 <= i <= limit ==> num[i] == Count(l, i)
    requires PosSize(num, |l|, limit, p, z)
    ensures z == l[p]
  {
    CodesAreCounts(l, num, z);
    CodesAreCounts(l, num, z - 1);
    SuffixCounted(l, p, |l|, z);
    SuffixCounted(l, p, |l|, z - 1);
  }

  /** Likewise, lengths whose counts and those of all shorter ones have been kept are handed out as they are. */
  lemma HandedOutKept(l: seq<nat>, num: seq<nat>, limit: nat, low: nat, p: nat, z: nat)
    requires Descending(l) && limit < |num| && p < |l| && 1 <= l[p] < low <= limit
    requires forall i: nat :: 1 <= i < low ==> num[i] == Count(l, i)
    requires PosSize(num, |l|, limit, p, z)
    ensures z == l[p]
  {
    var y := l[p];
    CodesAreCounts(l, num, y);
    CodesAreCounts(l, num, y - 1);
    SuffixCounted(l, p, |l|, y);
    SuffixCounted(l, p, |l|, y - 1);
    if z < y { CodesMonotone(num, z, y - 1); } else if y < z { CodesMonotone(num, y, z - 1); }
  }

  // ---------------------------------------------------------------- what the limit makes necessary

  /** The Kraft sum of the first k lengths, in units of 2^-limit, if those longer than `low` were cut to the limit. */
  function CutKraft(lens: seq<nat>, k: nat, limit: nat, low: nat): nat
    requires k <= |lens| && low <= limit
  {
    if k == 0 then 0
    else CutKraft(lens, k - 1, limit, low) + if lens[k - 1] <= low then Pow2(limit - lens[k - 1]) else 1
  }

  /** The same of those between 1 and z only. */
  function KraftUpTo(lens: seq<nat>, k: nat, limit: nat, z: nat): nat
    requires k <= |lens| && z <= limit
  {
    if k == 0 then 0
    else KraftUpTo(lens, k - 1, limit, z) + if 1 <= lens[k - 1] <= z then Pow2(limit - lens[k - 1]) else 0
  }

  lemma {:induction false} KraftUpToStep(lens: seq<nat>, k: nat, limit: nat, z: nat)
    requires k <= |lens| && 1 <= z <= limit
    ensures KraftUpTo(lens, k, limit, z) == KraftUpTo(lens, k, limit, z - 1) + CountBefore(lens, k, z) * Pow2(limit - z)
  {
    if k > 0 {
      KraftUpToStep(lens, k - 1, limit, z);
      OneCount(CountBefore(lens, k - 1, z), Pow2(limit - z));
    }
  }

  lemma OneCount(c: nat, p: nat)
    ensures (c + 1) * p == c * p + p
  {}

  lemma {:induction false} KraftUpToNone(lens: seq<nat>, k: nat, limit: nat)
    requires k <= |lens|
    ensures KraftUpTo(lens, k, limit, 0) == 0
  {
    if k > 0 { KraftUpToNone(lens, k - 1, limit); }
  }

  lemma {:induction false} WeightIsKraft(lens: seq<nat>, num: seq<nat>, limit: nat, z: nat)
    requires z <= limit < |num| && forall i: nat :: 1 <= i <= z ==> num[i] == Count(lens, i)
    ensures Weight(num, z, limit) == KraftUpTo(lens, |lens|, limit, z)
  {
    if z == 0 {
      KraftUpToNone(lens, |lens|, limit);
    } else {
      WeightIsKraft(lens, num, limit, z - 1);
      SumLast(Terms(num, limit), 1, z);
      KraftUpToStep(lens, |lens|, limit, z);
      assert num[z] == Count(lens, z);
    }
  }

  lemma {:induction false} CutParts(lens: seq<nat>, k: nat, limit: nat, low: nat)
    requires k <= |lens| && low <= limit && forall i :: 0 <= i < |lens| ==> lens[i] >= 1
    ensures CutKraft(lens, k, limit, low) == KraftUpTo(lens, k, limit, low) + k - CountUpTo(lens, k, low)
  {
    if k > 0 { CutParts(lens, k - 1, limit, low); }
  }

  lemma CutIsWeight(lens: seq<nat>, num: seq<nat>, limit: nat, low: nat)
    requires low <= limit < |num| && (forall i :: 0 <= i < |lens| ==> lens[i] >= 1)
    requires forall i: nat :: 1 <= i <= low ==> num[i] == Count(lens, i)
    ensures CutKraft(lens, |lens|, limit, low) == Weight(num, low, limit) + |lens| - Codes(num, low)
  {
    CutParts(lens, |lens|, limit, low);
    WeightIsKraft(lens, num, limit, low);
    CodesAreCounts(lens, num, low);
  }

  // ---------------------------------------------------------------- codes

  method NumberLengths(num: array<nat>, limit: nat, ghost sizes: seq<nat>) returns (next: array<nat>)
    requires 1 <= limit <= MAX_BITS && num.Length == MAX_SUPPORTED + 1 && CountsAre(sizes, num[..], limit)
    ensures fresh(next) && Numbering(sizes, next[..], 0, limit)
  {
    ghost var counts := num[..];
    next := new nat[MAX_SUPPORTED + 1](_ => 0);
    var j, i := 0, 2;
    while i <= limit
      invariant 2 <= i <= limit + 1 && num[..] == counts
      invariant j == FirstCode(sizes, i - 1) && forall l: nat :: 1 <= l < i ==> next[l] == FirstCode(sizes, l)
    {
      assert Count(sizes, i - 1) == counts[i - 1];
      j := (j + num[i - 1]) * 2;
      next[i] := j;
      i := i + 1;
    }
  }

  /** The first s symbols have their codes; those without a code keep what was stored for them. */
  ghost predicate CodesAssigned(sizes: seq<nat>, codes: seq<nat>, before: seq<nat>, s: nat)
    requires ValidSizes(sizes)
  {
    && |sizes| == |codes| == |before|
    && (forall u: nat :: u < s && u < |sizes| && sizes[u] > 0 ==> codes[u] == StreamCode(sizes, u))
    && (forall u: nat :: u < |sizes| && (sizes[u] == 0 || s <= u) ==> codes[u] == before[u])
  }

  lemma CodeAssigned(sizes: seq<nat>, codes: seq<nat>, codes': seq<nat>, before: seq<nat>, s: nat)
    requires ValidSizes(sizes) && s < |sizes| && true == CodesAssigned(sizes, codes, before, s)
    requires codes' == if sizes[s] == 0 then codes else codes[s := StreamCode(sizes, s)]
    ensures true == CodesAssigned(sizes, codes', before, s + 1)
  {}

  /** Gives the next symbol its code, if it has a length. */
  method AssignNext(sizes: array<nat>, next: array<nat>, codes: array<nat>, s: nat, ghost limit: nat,
    ghost before: seq<nat>)
    requires ValidSizes(sizes[..]) && s < sizes.Length && sizes[s] <= limit && codes != sizes && next != sizes
      && next != codes
    requires true == Numbering(sizes[..], next[..], s, limit)
    requires true == CodesAssigned(sizes[..], codes[..], before, s)
    modifies next, codes
    ensures true == Numbering(sizes[..], next[..], s + 1, limit)
    ensures true == CodesAssigned(sizes[..], codes[..], before, s + 1)
  {
    ghost var z, c := sizes[..], codes[..];
    if sizes[s] == 0 {
      SkipNumber(z, next[..], s, limit);
    } else {
      var code := TakeCode(sizes[..], next, s, limit);
      codes[s] := code;
      assert codes[..] == c[s := code];
    }
    CodeAssigned(z, c, codes[..], before, s);
  }

  /** Canonical codes, bit-reversed for the output stream. */
  method AssignCodes(sizes: array<nat>, num: array<nat>, limit: nat, codes: array<nat>)
    requires 1 <= limit <= MAX_BITS && num.Length == MAX_SUPPORTED + 1 && codes.Length == sizes.Length
    requires codes != sizes && CountsAre(sizes[..], num[..], limit)
    requires forall s :: 0 <= s < sizes.Length ==> sizes[s] <= limit
    modifies codes
    ensures forall s: nat :: s < sizes.Length && sizes[s] > 0 ==> codes[s] == StreamCode(sizes[..], s)
    ensures forall s: nat :: s < sizes.Length && sizes[s] == 0 ==> codes[s] == old(codes[s])
  {
    assert ValidSizes(sizes[..]);
    var next := NumberLengths(num, limit, sizes[..]);
    for s := 0 to sizes.Length
      invariant sizes[..] == old(sizes[..]) && true == Numbering(sizes[..], next[..], s, limit)
      invariant true == CodesAssigned(sizes[..], codes[..], old(codes[..]), s)
    {
      AssignNext(sizes, next, codes, s, limit, old(codes[..]));
    }
    assert CodesAssigned(sizes[..], codes[..], old(codes[..]), sizes.Length);
  }

  // ---------------------------------------------------------------- the whole table

  lemma {:induction false} UsedIsCodes(sizes: seq<nat>, num: seq<nat>, limit: nat, l: nat)
    requires 1 <= l <= MAX_BITS + 1 && limit <= MAX_BITS && limit < |num| && CountsAre(sizes, num, limit)
    ensures Codes(num, if l - 1 <= limit then l - 1 else limit) + CountFrom(sizes, l) == Codes(num, limit)
    decreases MAX_BITS + 1 - l
  {
    if l <= MAX_BITS {
      UsedIsCodes(sizes, num, limit, l + 1);
      assert CountFrom(sizes, l) == Count(sizes, l) + CountFrom(sizes, l + 1);
      if l <= limit { SumLast(num, 1, l); }
    }
  }

  lemma TableUsed(sizes: seq<nat>, num: seq<nat>, limit: nat, one: nat)
    requires one == 1 && limit <= MAX_BITS && limit < |num| && CountsAre(sizes, num, limit) && ValidSizes(sizes)
    ensures Used(sizes, |sizes|) == Codes(num, limit)
  {
    UsedIsCodes(sizes, num, limit, one);
    CountFromWhole(sizes, one);
    CountFromUsed(sizes, one, |sizes|);
    assert Codes(num, 0) == 0;
  }

  lemma TableAccepted(sizes: seq<nat>, num: seq<nat>, limit: nat)
    requires 1 <= limit <= MAX_BITS < |num| && CountsAre(sizes, num, limit) && ValidSizes(sizes)
    requires Codes(num, limit) <= 1 || Weight(num, limit, limit) == Pow2(limit)
    ensures Accepted(sizes) && (Codes(num, limit) >= 2 ==> Complete(sizes))
  {
    if Codes(num, limit) <= 1 {
      TableUsed(sizes, num, limit, 1);
    } else {
      CountsComplete(sizes, num, limit);
      EndCodeIsKraft(sizes);
    }
  }

  method SortSymbols(counts: seq<nat>) returns (syms: array<SymFreq>, n: nat)
    requires Total(counts) < 65536
    ensures fresh(syms) && n <= syms.Length && n == |Entries(counts, |counts|)|
    ensures Ordered(counts, syms[..n]) && KeySum(syms[..n]) < 65536
  {
    var syms0 := new SymFreq[|counts|](_ => SymFreq(0, 0));
    var syms1 := new SymFreq[|counts|](_ => SymFreq(0, 0));
    n := Collect(counts, syms0);
    EntriesSum(counts, |counts|);
    KeysSmall(counts, |counts|);
    syms := Sort(syms0, syms1, n);
    SortedEntries(counts, syms[..n]);
  }

  method CopyKeys(syms: array<SymFreq>, n: nat) returns (keys: array<nat>)
    requires n <= syms.Length
    ensures fresh(keys) && keys[..] == Keys(syms[..n])
  {
    keys := new nat[n];
    for i := 0 to n
      invariant forall k :: 0 <= k < i ==> keys[k] == syms[k].key
    {
      keys[i] := syms[i].key;
    }
  }

  /** Lengths of a code with Kraft sum 1 (a single symbol gets one bit), longest first. */
  ghost predicate CodeLengths(keys: seq<nat>) {
    && AtMost(keys, 30) && (forall i :: 0 <= i < |keys| ==> keys[i] >= 1)
    && (|keys| == 1 ==> keys[0] == 1)
    && (|keys| >= 2 ==> KraftOne(keys) && Descending(keys))
  }

  /** The symbols in use in order of frequency, and their optimal code lengths. */
  method OptimalLengths(counts: seq<nat>) returns (syms: array<SymFreq>, n: nat, keys: array<nat>)
    requires Total(counts) < 65536 && |counts| <= 65536
    ensures fresh(syms) && fresh(keys) && keys.Length == n <= syms.Length && n == |Entries(counts, |counts|)|
    ensures Ordered(counts, syms[..n]) && CodeLengths(keys[..])
    ensures n >= 2 ==> Optimal(Keys(syms[..n]), keys[..])
  {
    syms, n := SortSymbols(counts);
    EntriesLength(counts, |counts|);
    keys := CopyKeys(syms, n);
    KeysProper(syms[..n]);
    assert n > 0 ==> keys[0] == syms[..n][0].key > 0;
    Calculate(keys);
  }

  lemma KeysProper(order: seq<SymFreq>)
    requires Sorted(order) && KeySum(order) < 65536
    ensures Proper(Keys(order))
  {
    KeysTotal(order, |order|);
    assert order[..|order|] == order;
  }

  lemma KeysSmall(counts: seq<nat>, k: nat)
    requires k <= |counts| && Total(counts) < 65536
    ensures SixteenBit(Entries(counts, k))
  {
    forall i | 0 <= i < |Entries(counts, k)| ensures Entries(counts, k)[i].key < 65536 {
      EntryIs(counts, k, i);
      SumHas(counts, 0, |counts|, Entries(counts, k)[i].sym);
    }
  }

  /** Exactly the symbols that occur have a code, none is longer than the limit, and a more
      frequent symbol never has a longer code. */
  ghost predicate Fair(counts: seq<nat>, sizes: seq<nat>, limit: nat) {
    && |sizes| == |counts|
    && (forall s :: 0 <= s < |sizes| ==> sizes[s] <= limit && (sizes[s] > 0 <==> counts[s] > 0))
    && (forall s, u :: 0 <= s < |sizes| && 0 <= u < |sizes| && 0 < counts[s] < counts[u] ==> sizes[u] <= sizes[s])
  }

  lemma HandedOutFair(counts: seq<nat>, sizes: seq<nat>, order: seq<SymFreq>, num: seq<nat>, limit: nat)
    requires limit < |num| && |sizes| == |counts| && Ordered(counts, order)
    requires HandedOut(sizes, order, num, limit, 0)
    ensures Fair(counts, sizes, limit)
  {
    forall s: nat | s < |sizes| ensures sizes[s] <= limit && (sizes[s] > 0 <==> counts[s] > 0) {
      if counts[s] > 0 { var p := PositionOf(counts, order, s); }
    }
    forall s: nat, u: nat | s < |sizes| && u < |sizes| && 0 < counts[s] < counts[u] ensures sizes[u] <= sizes[s] {
      var p := PositionOf(counts, order, s);
      var q := PositionOf(counts, order, u);
      PosSizeFalls(num, |order|, limit, p, q, sizes[s], sizes[u]);
    }
  }

  lemma PositionOf(counts: seq<nat>, order: seq<SymFreq>, s: nat) returns (p: nat)
    requires Ordered(counts, order) && s < |counts| && counts[s] > 0
    ensures p < |order| && order[p] == SymFreq(counts[s], s)
  {
    p :| 0 <= p < |order| && order[p] == SymFreq(counts[s], s);
  }

  /** Counts of codes up to the limit, as many as there are keys, with Kraft sum 1 again; the
      counts of the keys themselves if none exceeds the limit. */
  ghost predicate CountsFor(keys: seq<nat>, num: seq<nat>, limit: nat) {
    && |num| == MAX_SUPPORTED + 1 && limit < |num| && Codes(num, limit) == |keys|
    && (|keys| >= 2 ==> Weight(num, limit, limit) == Pow2(limit))
    && (AtMost(keys, limit) ==> forall l: nat :: 1 <= l <= limit ==> num[l] == Count(keys, l))
  }

  /** The limited counts of codes of each length. */
  method LimitedCounts(keys: array<nat>, limit: nat) returns (num: array<nat>, ghost low: nat)
    requires 1 <= limit <= MAX_BITS && keys.Length <= Pow2(limit) && CodeLengths(keys[..])
    ensures fresh(num) && true == CountsFor(keys[..], num[..], limit)
    ensures 1 <= low <= limit && forall l: nat :: 1 <= l < low ==> num[l] == Count(keys[..], l)
    ensures low < limit ==> CutKraft(keys[..], keys.Length, limit, low) > Pow2(limit)
  {
    num := CountLengths(keys);
    ghost var raw := num[..];
    low := EnforceMaxCodeSize(num, keys.Length, limit);
    CutIsWeight(keys[..], raw, limit, low);
    if keys.Length <= 1 {
      FewCodes(keys[..], num[..], limit);
    }
    if AtMost(keys[..], limit) { NoLongKeys(keys[..], raw, limit); }
  }

  lemma NoLongKeys(keys: seq<nat>, num: seq<nat>, limit: nat)
    requires AtMost(keys, limit) && |num| == MAX_SUPPORTED + 1
    requires forall l: nat :: l <= MAX_SUPPORTED ==> num[l] == Count(keys, l)
    ensures NoneLonger(num, limit)
  {
    forall i | limit < i < |num| ensures num[i] == 0 { NoneThatLong(keys, |keys|, i); }
  }

  lemma {:induction false} NoneThatLong(keys: seq<nat>, k: nat, l: nat)
    requires k <= |keys| && forall i :: 0 <= i < |keys| ==> keys[i] < l
    ensures CountBefore(keys, k, l) == 0
  {
    if k > 0 { NoneThatLong(keys, k - 1, l); }
  }

  lemma FewCodes(keys: seq<nat>, num: seq<nat>, limit: nat)
    requires |keys| <= 1 && (|keys| == 1 ==> keys[0] == 1) && 1 <= limit < MAX_SUPPORTED < |num|
    requires Codes(num, MAX_SUPPORTED) == |keys| && num[1] == Count(keys, 1)
    ensures Codes(num, limit) == |keys|
  {
    CodesMonotone(num, limit, MAX_SUPPORTED);
    CodesMonotone(num, 1, limit);
    assert Codes(num, 1) == num[1] + Sum(num, 2, 2);
    if |keys| == 1 { assert CountBefore(keys, 1, 1) == CountBefore(keys, 0, 1) + 1; }
  }

  method ClearAll(a: array<nat>)
    modifies a
    ensures forall s :: 0 <= s < a.Length ==> a[s] == 0
  {
    forall s | 0 <= s < a.Length { a[s] := 0; }
  }

  /** The lengths of one table: `order` and `lens` are the sorted symbols and their optimal lengths. */
  ghost predicate BestLengths(counts: seq<nat>, sizes: seq<nat>, limit: nat, order: seq<SymFreq>, lens: seq<nat>,
    low: nat)
  {
    && Ordered(counts, order) && |lens| == |order| && |sizes| == |counts|
    && (|order| >= 2 ==> Optimal(Keys(order), lens))
    && (|order| >= 2 && AtMost(lens, limit) ==> forall p :: 0 <= p < |order| ==> sizes[order[p].sym] == lens[p])
    && 1 <= low <= limit && (low < limit ==> CutKraft(lens, |lens|, limit, low) > Pow2(limit))
    && (|order| >= 2 ==> forall p :: 0 <= p < |order| && lens[p] < low ==> sizes[order[p].sym] == lens[p])
  }

  method SizeTable(counts: seq<nat>, limit: nat, sizes: array<nat>)
    returns (num: array<nat>, ghost order: seq<SymFreq>, ghost lens: seq<nat>, ghost low: nat)
    requires Total(counts) < 65536 && |counts| <= 65536 && 1 <= limit <= MAX_BITS
    requires |Entries(counts, |counts|)| <= Pow2(limit) && sizes.Length == |counts|
    modifies sizes
    ensures fresh(num) && num.Length == MAX_SUPPORTED + 1 && CountsAre(sizes[..], num[..], limit)
    ensures Fair(counts, sizes[..], limit) && ValidSizes(sizes[..]) && Accepted(sizes[..])
    ensures |order| >= 2 ==> Complete(sizes[..])
    ensures true == BestLengths(counts, sizes[..], limit, order, lens, low)
  {
    var syms, n, keys := OptimalLengths(counts);
    order, lens := syms[..n], keys[..];
    num, low := LimitedCounts(keys, limit);
    assert syms[..n] == order && keys[..] == lens;
    FillSizes(counts, syms, n, lens, num, limit, sizes);
    BestHandedOut(counts, sizes[..], order, num[..], limit, lens, low);
  }

  lemma BestHandedOut(counts: seq<nat>, sizes: seq<nat>, order: seq<SymFreq>, num: seq<nat>, limit: nat, lens: seq<nat>,
    low: nat)
    requires Ordered(counts, order) && |lens| == |order| && |sizes| == |counts| && CodeLengths(lens)
    requires true == CountsFor(lens, num, limit) && limit < |num| && true == HandedOut(sizes, order, num, limit, 0)
    requires |order| >= 2 ==> Optimal(Keys(order), lens)
    requires 1 <= low <= limit && (low < limit ==> CutKraft(lens, |lens|, limit, low) > Pow2(limit))
    requires forall l: nat :: 1 <= l < low ==> num[l] == Count(lens, l)
    ensures true == BestLengths(counts, sizes, limit, order, lens, low)
  {
    if |order| >= 2 {
      if AtMost(lens, limit) { SizesAreLengths(sizes, order, num, limit, lens); }
      SizesAreKept(sizes, order, num, limit, lens, low);
    }
  }

  /** Builds lengths and codes for one table from its symbol frequencies: the symbols that occur get
      canonical codes of an accepted table, optimal ones unless the limit stands in the way. */
  method OptimizeTable(counts: seq<nat>, limit: nat, sizes: array<nat>, codes: array<nat>)
    returns (ghost order: seq<SymFreq>, ghost lens: seq<nat>, ghost low: nat)
    requires Total(counts) < 65536 && |counts| <= 65536 && 1 <= limit <= MAX_BITS
    requires |Entries(counts, |counts|)| <= Pow2(limit)
    requires sizes.Length == codes.Length == |counts| && sizes != codes
    modifies sizes, codes
    ensures Fair(counts, sizes[..], limit) && ValidSizes(sizes[..]) && Accepted(sizes[..])
    ensures |order| >= 2 ==> Complete(sizes[..])
    ensures BestLengths(counts, sizes[..], limit, order, lens, low)
    ensures forall s: nat :: s < |counts| ==> codes[s] == if sizes[s] > 0 then StreamCode(sizes[..], s) else 0
  {
    var num;
    num, order, lens, low := SizeTable(counts, limit, sizes);
    ghost var z, c := sizes[..], num[..];
    ClearAll(codes);
    assert sizes[..] == z && num[..] == c;
    AssignCodes(sizes, num, limit, codes);
    assert sizes[..] == z;
  }

  method FillSizes(counts: seq<nat>, syms: array<SymFreq>, n: nat, ghost keys: seq<nat>, num: array<nat>, limit: nat,
    sizes: array<nat>)
    requires n <= syms.Length && Ordered(counts, syms[..n]) && 1 <= limit <= MAX_BITS
    requires |keys| == n && true == CountsFor(keys, num[..], limit) && sizes != num && sizes.Length == |counts|
    modifies sizes
    ensures num[..] == old(num[..]) && syms[..n] == old(syms[..n])
    ensures true == HandedOut(sizes[..], syms[..n], num[..], limit, 0) && true == CountsAre(sizes[..], num[..], limit)
    ensures true == Fair(counts, sizes[..], limit) && ValidSizes(sizes[..]) && Accepted(sizes[..])
    ensures n >= 2 ==> Complete(sizes[..])
  {
    ghost var order, c := syms[..n], num[..];
    forall s | 0 <= s < sizes.Length { sizes[s] := 0; }
    assert syms[..n] == order && num[..] == c;
    assert forall p :: 0 <= p < n ==> syms[p] == order[p];
    assert Distinct(order);
    GiveLengths(syms, n, num, limit, sizes);
    assert syms[..n] == order && num[..] == c;
    HandedOutFair(counts, sizes[..], order, c, limit);
    TableAccepted(sizes[..], c, limit);
  }

  lemma SizesAreLengths(sizes: seq<nat>, order: seq<SymFreq>, num: seq<nat>, limit: nat, lens: seq<nat>)
    requires CountsFor(lens, num, limit) && HandedOut(sizes, order, num, limit, 0) && |lens| == |order| >= 2
    requires CodeLengths(lens) && AtMost(lens, limit)
    ensures forall p :: 0 <= p < |order| ==> sizes[order[p].sym] == lens[p]
  {
    forall p: nat | p < |order| ensures sizes[order[p].sym] == lens[p] {
      HandedOutAsIs(lens, num, limit, p, sizes[order[p].sym]);
    }
  }

  lemma SizesAreKept(sizes: seq<nat>, order: seq<SymFreq>, num: seq<nat>, limit: nat, lens: seq<nat>, low: nat)
    requires limit < |num| && HandedOut(sizes, order, num, limit, 0) && |lens| == |order| >= 2 && CodeLengths(lens)
    requires low <= limit && forall l: nat :: 1 <= l < low ==> num[l] == Count(lens, l)
    ensures forall p :: 0 <= p < |order| && lens[p] < low ==> sizes[order[p].sym] == lens[p]
  {
    forall p: nat | p < |order| && lens[p] < low ensures sizes[order[p].sym] == lens[p] {
      HandedOutKept(lens, num, limit, low, p, sizes[order[p].sym]);
    }
  }
}
