/** A chain of buffers, each partly used, that is one queue of bytes. */
module ChainedBuffer {

  type Byte = bv8

  /** A buffer and the part of it that is still to be sent. */
  datatype Node = Node(buf: array<Byte>, start: nat, used: nat)

  /** A part of a buffer that is handed to the socket. */
  datatype Segment = Segment(buf: array<Byte>, start: nat, len: nat)

  predicate Fits(n: Node) { n.start + n.used <= n.buf.Length && n.used > 0 }

  /** Every node lies in its buffer, and no two share one. */
  predicate Sound(chain: seq<Node>) {
    && (forall i :: 0 <= i < |chain| ==> Fits(chain[i]))
    && (forall i, j :: 0 <= i < j < |chain| ==> chain[i].buf != chain[j].buf)
  }

  function Bufs(chain: seq<Node>): set<array<Byte>> { set i | 0 <= i < |chain| :: chain[i].buf }

  function NodeText(n: Node): (t: seq<Byte>)
    requires Fits(n)
    reads n.buf
    ensures |t| == n.used
  {
    n.buf[n.start..n.start + n.used]
  }

  /** The bytes of the chain, in order. */
  function Text(chain: seq<Node>): seq<Byte>
    requires Sound(chain)
    reads Bufs(chain)
  {
    if chain == [] then [] else
    var m, n := chain[..|chain| - 1], chain[|chain| - 1];
    assert forall i :: 0 <= i < |m| ==> chain[i].buf in Bufs(chain);
    Text(m) + NodeText(n)
  }

  function Used(chain: seq<Node>): nat {
    if chain == [] then 0 else Used(chain[..|chain| - 1]) + chain[|chain| - 1].used
  }

  function Room(chain: seq<Node>): nat {
    if chain == [] then 0 else Room(chain[..|chain| - 1]) + chain[|chain| - 1].buf.Length
  }

  lemma {:induction false} TextLength(chain: seq<Node>)
    requires Sound(chain)
    ensures |Text(chain)| == Used(chain) <= Room(chain)
  {
    if chain != [] { TextLength(chain[..|chain| - 1]); }
  }

  /** Taking the first node off. */
  lemma {:induction false} First(chain: seq<Node>)
    requires Sound(chain) && chain != []
    ensures Sound(chain[1..])
    ensures Text(chain) == NodeText(chain[0]) + Text(chain[1..])
  {
    var m := chain[..|chain| - 1];
    if |chain| > 1 {
      First(m);
      assert chain[1..][..|chain| - 2] == m[1..] && chain[1..][|chain| - 2] == chain[|chain| - 1];
      Assoc(NodeText(chain[0]), Text(m[1..]), NodeText(chain[|chain| - 1]));
    } else {
      assert chain[1..] == [] && m == [];
    }
  }

  lemma Assoc(a: seq<Byte>, b: seq<Byte>, c: seq<Byte>)
    ensures a + b + c == a + (b + c)
  {}

  lemma {:induction false} FirstSizes(chain: seq<Node>)
    requires chain != []
    ensures Used(chain) == chain[0].used + Used(chain[1..]) && Room(chain) == chain[0].buf.Length + Room(chain[1..])
  {
    var m := chain[..|chain| - 1];
    if |chain| > 1 {
      FirstSizes(m);
      assert chain[1..][..|chain| - 2] == m[1..] && chain[1..][|chain| - 2] == chain[|chain| - 1];
    } else {
      assert chain[1..] == [] && m == [];
    }
  }

  // ---------------------------------------------------------------- what is being sent

  function Lengths(segs: seq<Segment>): nat {
    if segs == [] then 0 else Lengths(segs[..|segs| - 1]) + segs[|segs| - 1].len
  }

  /** The segments are the first nodes of the chain; of the last of them perhaps only the front. */
  predicate FrontOf(segs: seq<Segment>, chain: seq<Node>) {
    && |segs| <= |chain|
    && (forall i :: 0 <= i < |segs| ==>
      segs[i].buf == chain[i].buf && segs[i].start == chain[i].start && segs[i].len <= chain[i].used)
    && (forall i :: 0 <= i < |segs| - 1 ==> segs[i].len == chain[i].used)
  }

  /** What the segments hold. */
  function SegmentText(segs: seq<Segment>, chain: seq<Node>): seq<Byte>
    requires Sound(chain) && FrontOf(segs, chain)
    reads Bufs(chain)
  {
    if segs == [] then [] else
    var m, s := segs[..|segs| - 1], segs[|segs| - 1];
    assert s.buf == chain[|segs| - 1].buf && Fits(chain[|segs| - 1]) && s.buf in Bufs(chain);
    SegmentText(m, chain) + s.buf[s.start..s.start + s.len]
  }

  /** Segments of that kind hold the first bytes of the queue. */
  lemma {:induction false} SegmentsArePrefix(segs: seq<Segment>, chain: seq<Node>)
    requires Sound(chain) && FrontOf(segs, chain)
    ensures |SegmentText(segs, chain)| == Lengths(segs) <= Used(chain)
    ensures SegmentText(segs, chain) <= Text(chain)
  {
    if segs != [] {
      var m, k := segs[..|segs| - 1], |segs| - 1;
      FullPrefix(m, chain, k);
      SplitAt(chain, k + 1);
      TextLength(chain);
      TextLength(chain[..k]);
      TextLength(chain[..k + 1]);
      assert chain[..k + 1][..k] == chain[..k] && chain[..k + 1][k] == chain[k];
      PartOfNode(segs[k], chain[k]);
      PrefixOf(Text(chain[..k]), NodeText(chain[k]), segs[k].len, Text(chain));
    }
  }

  lemma PartOfNode(s: Segment, n: Node)
    requires Fits(n) && s.buf == n.buf && s.start == n.start && s.len <= n.used
    ensures s.buf[s.start..s.start + s.len] == NodeText(n)[..s.len]
  {}

  lemma PrefixOf(a: seq<Byte>, b: seq<Byte>, n: nat, text: seq<Byte>)
    requires n <= |b| && a + b <= text
    ensures a + b[..n] <= text
  {
    assert a + b[..n] == (a + b)[..|a| + n];
  }

  /** Segments that are whole nodes. */
  lemma {:induction false} FullPrefix(segs: seq<Segment>, chain: seq<Node>, k: nat)
    requires Sound(chain) && FrontOf(segs, chain) && k == |segs| && forall i ::
      0 <= i < k ==> segs[i].len == chain[i].used
    ensures Sound(chain[..k]) && SegmentText(segs, chain) == Text(chain[..k]) && Lengths(segs) == Used(chain[..k])
  {
    if k > 0 {
      FullPrefix(segs[..k - 1], chain, k - 1);
      assert chain[..k][..k - 1] == chain[..k - 1];
    }
  }

  lemma {:induction false} SplitAt(chain: seq<Node>, k: nat)
    requires Sound(chain) && k <= |chain|
    ensures Sound(chain[..k]) && Text(chain[..k]) <= Text(chain) && Used(chain[..k]) <= Used(chain)
    decreases |chain|
  {
    if k < |chain| {
      var m := chain[..|chain| - 1];
      SplitAt(m, k);
      assert m[..k] == chain[..k];
    } else {
      assert chain[..k] == chain;
    }
  }
}
