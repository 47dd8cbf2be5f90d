/** Compaction of the chunks of a body in place. */
module HttpCollapse {
  import opened HttpChunks

  /** The bytes of one range, as far as they have been received. */
  function Piece(s: string, range: (nat, nat), offset: nat): string
    requires offset <= range.0 <= range.1 && range.0 - offset <= |s|
  {
    s[range.0 - offset..if range.1 - offset > |s| then |s| else range.1 - offset]
  }

  /** The bytes of the first k ranges, one after the other. */
  function Gather(s: string, ranges: seq<(nat, nat)>, k: nat, offset: nat): string
    requires k <= |ranges| && RangesIn(ranges, offset, |s|)
  {
    if k == 0 then [] else Gather(s, ranges, k - 1, offset) + Piece(s, ranges[k - 1], offset)
  }

  /** The bytes from source on have been copied to target, and nothing else has changed. */
  ghost predicate Moved(before: string, after: string, target: nat, source: nat, len: nat) {
    && |before| == |after| && target + len <= |before| && source + len <= |before|
    && (forall k :: 0 <= k < target || target + len <= k < |after| ==> after[k] == before[k])
    && (forall k {:trigger after[k]} :: target <= k < target + len ==> after[k] == before[k + (source - target)])
  }

  /** Moves bytes towards the front of a buffer; source and target may overlap. */
  method MoveBytes(buffer: array<char>, target: nat, source: nat, len: nat)
    requires target <= source && source + len <= buffer.Length
    modifies buffer
    ensures Moved(old(buffer[..]), buffer[..], target, source, len)
  {
    for i := 0 to len
      invariant Moved(old(buffer[..]), buffer[..], target, source, i)
    {
      buffer[target + i] := buffer[source + i];
    }
  }

  /** What has been gathered before a range is no longer than what comes before it in the buffer. */
  lemma {:induction false} GatherBound(s: string, ranges: seq<(nat, nat)>, k: nat, offset: nat)
    requires k < |ranges| && RangesIn(ranges, offset, |s|)
    ensures |Gather(s, ranges, k, offset)| <= ranges[k].0 - offset
  {
    if k > 0 { GatherBound(s, ranges, k - 1, offset); }
  }

  /** Compacts the chunks of a body in place and returns its new length. */
  method Collapse(buffer: array<char>, size: nat, ranges: seq<(nat, nat)>, offset: nat) returns (n: nat)
    requires size <= buffer.Length && RangesIn(ranges, offset, size)
    modifies buffer
    ensures n <= size && buffer[..n] == Gather(old(buffer[..size]), ranges, |ranges|, offset)
  {
    ghost var s := buffer[..size];
    n := 0;
    for i := 0 to |ranges|
      invariant Collapsed(buffer[..], s, ranges, i, offset, n)
    {
      n := CollapseOne(buffer, size, ranges, i, offset, n, s);
    }
    assert buffer[..][..n] == buffer[..n];
  }

  /** Moves the bytes of range i up to those of the ranges before it. */
  method CollapseOne(buffer: array<char>, size: nat, ranges: seq<(nat, nat)>, i: nat, offset: nat, n: nat,
    ghost s: string) returns (n': nat)
    requires i < |ranges| && |s| == size && RangesIn(ranges, offset, size)
      && Collapsed(buffer[..], s, ranges, i, offset, n)
    modifies buffer
    ensures Collapsed(buffer[..], s, ranges, i + 1, offset, n')
  {
    GatherBound(s, ranges, i, offset);
    var len := ranges[i].1 - ranges[i].0;
    if ranges[i].0 - offset + len > size { len := size - ranges[i].0 + offset; }
    ghost var before := buffer[..];
    MoveBytes(buffer, n, ranges[i].0 - offset, len);
    CollapseStep(before, buffer[..], s, ranges, i, offset, n, len);
    n' := n + len;
  }

  /** The first n bytes are those of the first k ranges; the rest of the body is untouched. */
  ghost predicate Collapsed(buffer: string, s: string, ranges: seq<(nat, nat)>, k: nat, offset: nat, n: nat)
    requires k <= |ranges| && RangesIn(ranges, offset, |s|)
  {
    n <= |s| <= |buffer| && buffer[..n] == Gather(s, ranges, k, offset) && SameFrom(buffer, s, n)
  }

  ghost predicate SameFrom(buffer: string, s: string, n: nat)
    requires |s| <= |buffer|
  {
    forall k :: n <= k < |s| ==> buffer[k] == s[k]
  }

  lemma CollapseStep(before: string, after: string, s: string, ranges: seq<(nat, nat)>, i: nat, offset: nat, n: nat,
    len: nat)
    requires i < |ranges| && RangesIn(ranges, offset, |s|) && Collapsed(before, s, ranges, i, offset, n)
    requires n <= ranges[i].0 - offset && ranges[i].0 - offset + len <= |s|
    requires len == |Piece(s, ranges[i], offset)| && Moved(before, after, n, ranges[i].0 - offset, len)
    ensures Collapsed(after, s, ranges, i + 1, offset, n + len)
  {
    MoveSlices(before, after, s, n, ranges[i].0 - offset, len);
  }

  lemma MoveSlices(before: string, after: string, s: string, n: nat, a: nat, len: nat)
    requires |s| <= |before| && SameFrom(before, s, n) && n <= a && a + len <= |s| && Moved(before, after, n, a, len)
    ensures after[..n + len] == before[..n] + s[a..a + len] && SameFrom(after, s, n + len)
  {
    assert after[..n] == before[..n];
    var x, y := after[n..n + len], s[a..a + len];
    forall k | 0 <= k < len ensures x[k] == y[k] { assert after[n + k] == before[a + k]; }
    assert x == y;
    assert after[..n + len] == after[..n] + after[n..n + len];
  }
}
