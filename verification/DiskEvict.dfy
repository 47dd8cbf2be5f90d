/** Evicting blocks of a piece of the read cache from both of its ends. */
module DiskEvict {
  import opened DiskBlocks
  import opened DiskFlush

  /** How many of the blocks a..b are cached. */
  function CountIn(blocks: seq<Block>, a: nat, b: nat): nat
    requires a <= b <= |blocks|
  {
    |CachedIn(blocks, a, b)|
  }

  lemma {:induction false} CountSplit(blocks: seq<Block>, a: nat, b: nat, c: nat)
    requires a <= b <= c <= |blocks|
    ensures CountIn(blocks, a, c) == CountIn(blocks, a, b) + CountIn(blocks, b, c)
    decreases c
  {
    if b < c { CountSplit(blocks, a, b, c - 1); }
  }

  predicate AllEmptyIn(blocks: seq<Block>, a: nat, b: nat)
    requires a <= b <= |blocks|
  {
    forall k :: a <= k < b ==> blocks[k].Empty?
  }

  lemma {:induction false} CountNone(blocks: seq<Block>, a: nat, b: nat)
    requires a <= b <= |blocks| && AllEmptyIn(blocks, a, b)
    ensures CountIn(blocks, a, b) == 0
    decreases b
  {
    if a < b { CountNone(blocks, a, b - 1); }
  }

  lemma {:induction false} CountWhole(blocks: seq<Block>, n: nat)
    requires n <= |blocks|
    ensures CountIn(blocks, 0, n) == Count(blocks[..n])
  {
    if n > 0 {
      CountWhole(blocks, n - 1);
      assert blocks[..n][..n - 1] == blocks[..n - 1];
    }
  }

  /** Only the blocks a..b are left. */
  predicate Trimmed(blocks: seq<Block>, left: seq<Block>, a: nat, b: nat) {
    && a <= b <= |blocks| == |left|
    && forall k :: 0 <= k < |blocks| ==> left[k] == if a <= k < b then blocks[k] else Empty
  }

  lemma {:induction false} CountSame(p: seq<Block>, q: seq<Block>, a: nat, b: nat)
    requires a <= b <= |p| == |q| && forall k :: a <= k < b ==> p[k] == q[k]
    ensures CountIn(p, a, b) == CountIn(q, a, b)
    decreases b
  {
    if a < b { CountSame(p, q, a, b - 1); }
  }

  /** What is trimmed away and what is left add up. */
  lemma TrimmedCount(blocks: seq<Block>, left: seq<Block>, a: nat, b: nat)
    requires Trimmed(blocks, left, a, b)
    ensures Count(left) == CountIn(blocks, a, b)
    ensures Count(blocks) == CountIn(blocks, 0, a) + Count(left) + CountIn(blocks, b, |blocks|)
  {
    var n := |blocks|;
    CountSplit(blocks, 0, a, n);
    CountSplit(blocks, a, b, n);
    CountSplit(left, 0, a, n);
    CountSplit(left, a, b, n);
    CountNone(left, 0, a);
    CountNone(left, b, n);
    CountSame(blocks, left, a, b);
    CountWhole(blocks, n);
    CountWhole(left, n);
    assert blocks[..n] == blocks && left[..n] == left;
  }

  /** Goes up from start to the first cached block. */
  method ScanUp(left: seq<Block>, start: nat, end: nat) returns (s: nat)
    requires start <= end < |left| && CountIn(left, start, end + 1) > 0
    ensures start <= s <= end && left[s].Cached? && AllEmptyIn(left, start, s)
  {
    s := start;
    while left[s].Empty? && s <= end
      invariant start <= s <= end && AllEmptyIn(left, start, s)
    {
      if s == end { CountNone(left, start, end + 1); }
      s := s + 1;
    }
  }

  /** Goes down from end to the last cached block. */
  method ScanDown(left: seq<Block>, start: nat, end: nat) returns (e: nat)
    requires start <= end < |left| && CountIn(left, start, end + 1) > 0
    ensures start <= e <= end && left[e].Cached? && AllEmptyIn(left, e + 1, end + 1)
  {
    e := end;
    while left[e].Empty? && start <= e
      invariant start <= e <= end && AllEmptyIn(left, e + 1, end + 1)
    {
      if start == e { CountNone(left, start, end + 1); }
      e := e - 1;
    }
  }

  /** Where an eviction stands: the blocks before a and from b on are gone. */
  ghost predicate Evicting(blocks: seq<Block>, left: seq<Block>, start: nat, end: int, a: nat, b: nat) {
    start <= a <= b <= end + 1 <= |blocks| && Trimmed(blocks, left, a, b)
  }

  /** While something is left, a block to evict will be found. */
  lemma SomethingLeft(blocks: seq<Block>, left: seq<Block>, start: nat, end: int, a: nat, b: nat)
    requires Evicting(blocks, left, start, end, a, b) && Count(left) > 0
    ensures start <= end && CountIn(left, start, end + 1) > 0
  {
    TrimmedCount(blocks, left, a, b);
    CountSame(blocks, left, a, b);
    if a == b { CountNone(blocks, a, b); }
    CountSplit(left, start, a, b);
    CountSplit(left, start, b, end + 1);
  }

  /** Evicting the first block that is left. */
  lemma EvictFirst(blocks: seq<Block>, left: seq<Block>, start: nat, end: int, a: nat, b: nat, s: nat)
    requires Evicting(blocks, left, start, end, a, b) && start <= s <= end && left[s].Cached?
      && AllEmptyIn(left, start, s)
    ensures Evicting(blocks, left[s := Empty], s, end, s + 1, b)
    ensures CountIn(blocks, 0, s + 1) == CountIn(blocks, 0, a) + 1 && Count(left[s := Empty]) == Count(left) - 1
  {
    assert a <= s < b;
    CountSplit(blocks, 0, a, s);
    CountNone(blocks, a, s);
    ClearOne(left, s);
  }

  /** Evicting the last block that is left. */
  lemma EvictLast(blocks: seq<Block>, left: seq<Block>, start: nat, end: int, a: nat, b: nat, e: nat)
    requires Evicting(blocks, left, start, end, a, b) && start <= e <= end && left[e].Cached?
      && AllEmptyIn(left, e + 1, end + 1)
    ensures Evicting(blocks, left[e := Empty], start, e, a, e)
    ensures CountIn(blocks, e, |blocks|) == CountIn(blocks, b, |blocks|) + 1
      && Count(left[e := Empty]) == Count(left) - 1
  {
    assert a <= e < b;
    assert CachedIn(blocks, e, e) == [] && CountIn(blocks, e, e + 1) == 1;
    CountSplit(blocks, e, e + 1, |blocks|);
    CountSplit(blocks, e + 1, b, |blocks|);
    CountNone(blocks, e + 1, b);
    ClearOne(left, e);
  }

  /** As many cached blocks as asked for are gone, from the end only, or from both ends in turn. */
  ghost predicate EndsCleared(blocks: seq<Block>, left: seq<Block>, n: nat, volatile: bool) {
    exists a, b: nat :: Trimmed(blocks, left, a, b)
      && CountIn(blocks, 0, a) == (if volatile then 0 else (n + 1) / 2)
      && CountIn(blocks, b, |blocks|) == n - CountIn(blocks, 0, a)
  }

  /** Evicts n blocks, taking turns at the start and at the end; with a volatile cache only at the end. */
  method ClearEnds(blocks: seq<Block>, n: nat, volatile: bool)
    returns (left: seq<Block>, freed: nat, ghost a: nat, ghost b: nat)
    requires n < Count(blocks)
    ensures freed == n && Trimmed(blocks, left, a, b) && Count(left) == Count(blocks) - n
    ensures CountIn(blocks, 0, a) == (if volatile then 0 else (n + 1) / 2)
    ensures CountIn(blocks, b, |blocks|) == n - CountIn(blocks, 0, a)
  {
    left, freed, a, b := blocks, 0, 0, |blocks|;
    var start: nat, end, num := 0, |blocks| - 1, n;
    while num > 0
      invariant Evicting(blocks, left, start, end, a, b) && freed + num == n && Count(left) == Count(blocks) - freed
      invariant CountIn(blocks, 0, a) + CountIn(blocks, b, |blocks|) == freed
      invariant if volatile then CountIn(blocks, 0, a) == 0 else CountIn(blocks, 0, a) == (freed + 1) / 2
      invariant volatile || num == 0 || freed % 2 == 0
    {
      if !volatile {
        SomethingLeft(blocks, left, start, end, a, b);
        start := EvictUp(blocks, left, start, end, a, b);
        left, a := left[start := Empty], start + 1;
        freed, num := freed + 1, num - 1;
        if num == 0 { break; }
      }
      SomethingLeft(blocks, left, start, end, a, b);
      end := EvictDown(blocks, left, start, end, a, b);
      left, b := left[end := Empty], end;
      freed, num := freed + 1, num - 1;
    }
  }

  method EvictUp(ghost blocks: seq<Block>, left: seq<Block>, start: nat, end: nat, ghost a: nat, ghost b: nat)
    returns (s: nat)
    requires Evicting(blocks, left, start, end, a, b) && start <= end && CountIn(left, start, end + 1) > 0
    ensures start <= s < |left| && Evicting(blocks, left[s := Empty], s, end, s + 1, b)
    ensures CountIn(blocks, 0, s + 1) == CountIn(blocks, 0, a) + 1 && Count(left[s := Empty]) == Count(left) - 1
  {
    s := ScanUp(left, start, end);
    EvictFirst(blocks, left, start, end, a, b, s);
  }

  method EvictDown(ghost blocks: seq<Block>, left: seq<Block>, start: nat, end: nat, ghost a: nat, ghost b: nat)
    returns (e: nat)
    requires Evicting(blocks, left, start, end, a, b) && start <= end && CountIn(left, start, end + 1) > 0
    ensures e < |left| && Evicting(blocks, left[e := Empty], start, e, a, e)
    ensures CountIn(blocks, e, |blocks|) == CountIn(blocks, b, |blocks|) + 1
      && Count(left[e := Empty]) == Count(left) - 1
  {
    e := ScanDown(left, start, end);
    EvictLast(blocks, left, start, end, a, b, e);
  }
}
