/** The structure of MD4 (sections 3.1 to 3.5 of RFC 1320) over an arbitrary compression function: padding,
    and folding the blocks of the padded message. */
module Md4Spec {

  type Byte = x: nat | x < 256 witness 0
  type Word = x: nat | x < 0x1_0000_0000 witness 0

  datatype Chain = Chain(a: Word, b: Word, c: Word, d: Word)

  type Compression = (Chain, seq<Byte>) -> Chain

  const INIT := Chain(0x67452301, 0xefcdab89, 0x98badcfe, 0x10325476)
  const BLOCK := 64

  /** The bytes of a word. */
  const WORD: nat := 4

  /** Runs the compression function over the blocks of s, one after the other. */
  function Fold(f: Compression, c: Chain, s: seq<Byte>): Chain
    requires |s| % BLOCK == 0
    decreases |s|
  {
    if s == [] then c else Fold(f, f(c, s[..BLOCK]), s[BLOCK..])
  }

  lemma {:induction false} FoldAppend(f: Compression, c: Chain, s: seq<Byte>, t: seq<Byte>)
    requires |s| % BLOCK == 0 && |t| % BLOCK == 0
    ensures Fold(f, c, s + t) == Fold(f, Fold(f, c, s), t)
    decreases |s|
  {
    if s == [] {
      assert s + t == t;
    } else {
      assert (s + t)[..BLOCK] == s[..BLOCK] && (s + t)[BLOCK..] == s[BLOCK..] + t;
      FoldAppend(f, f(c, s[..BLOCK]), s[BLOCK..], t);
    }
  }

  lemma FoldOne(f: Compression, c: Chain, s: seq<Byte>)
    requires |s| == BLOCK
    ensures Fold(f, c, s) == f(c, s)
  {
    assert s[..BLOCK] == s && s[BLOCK..] == [];
  }

  /** The bytes of a number, the lowest first. */
  function LittleEndian(n: nat, k: nat): (s: seq<Byte>)
    ensures |s| == k
  {
    if k == 0 then [] else [n % 256] + LittleEndian(n / 256, k - 1)
  }

  function Zeros(k: nat): (s: seq<Byte>)
    ensures |s| == k
  {
    seq(k, _ => 0)
  }

  /** How many zero bytes follow the 0x80, so that with the length a whole number of blocks results. */
  function Gap(len: nat): (k: nat)
    ensures k < BLOCK && (len + 1 + k + 8) % BLOCK == 0
  {
    (55 + BLOCK - len % BLOCK) % BLOCK
  }

  const TWO_64: nat := 0x1_0000_0000_0000_0000

  function Padding(len: nat): seq<Byte> { [0x80] + Zeros(Gap(len)) + LittleEndian(len * 8 % TWO_64, WORD + WORD) }

  /** The digest of a message. */
  function Md4(f: Compression, m: seq<Byte>): (d: seq<Byte>)
    ensures |d| == 16
  {
    Output(Fold(f, INIT, m + Padding(|m|)))
  }

  function Output(c: Chain): (d: seq<Byte>)
    ensures |d| == 16
  {
    LittleEndian(c.a, WORD) + LittleEndian(c.b, WORD) + LittleEndian(c.c, WORD) + LittleEndian(c.d, WORD)
  }

  // ---------------------------------------------------------------- byte by byte

  /** Byte i of a number in little-endian order. */
  function ByteOf(n: nat, i: nat): Byte { if i == 0 then n % 256 else ByteOf(n / 256, i - 1) }

  lemma {:induction false} LittleEndianAt(n: nat, k: nat, i: nat)
    requires i < k
    ensures LittleEndian(n, k)[i] == ByteOf(n, i)
  {
    if i > 0 { LittleEndianAt(n / 256, k - 1, i - 1); }
  }

  lemma ByteOfWord(n: nat)
    ensures ByteOf(n, 0) == n % 256 && ByteOf(n, 1) == n / 256 % 256
    ensures ByteOf(n, 2) == n / 65536 % 256 && ByteOf(n, 3) == n / 16777216 % 256
  {
    Shifted(n, 1);
    Shifted(n, 2);
    Shifted(n / 256, 1);
    Shifted(n, 3);
    Shifted(n / 256, 2);
    Shifted(n / 256 / 256, 1);
    assert n / 256 / 256 == n / 65536 && n / 65536 / 256 == n / 16777216;
  }

  lemma Shifted(n: nat, i: nat)
    requires i > 0
    ensures ByteOf(n, i) == ByteOf(n / 256, i - 1) && ByteOf(n, 0) == n % 256
  {}

  /** The digest holds the four words in order, each with its lowest byte first. */
  lemma OutputAt(c: Chain, i: nat, word: nat, k: nat)
    requires i == 4 * word + k && word < 4 && k < 4
    ensures var words := [c.a, c.b, c.c, c.d];
      Output(c)[i] == ByteOf(words[word], k)
  {
    var n := if word == 0 then c.a else if word == 1 then c.b else if word == 2 then c.c else c.d;
    LittleEndianAt(n, 4, k);
    FourParts(LittleEndian(c.a, 4), LittleEndian(c.b, 4), LittleEndian(c.c, 4), LittleEndian(c.d, 4), i, word, k);
  }

  lemma FourParts(a: seq<Byte>, b: seq<Byte>, c: seq<Byte>, d: seq<Byte>, i: nat, word: nat, k: nat)
    requires |a| == |b| == |c| == |d| == 4 && i == 4 * word + k && word < 4 && k < 4
    ensures (a + b + c + d)[i] == (if word == 0 then a else if word == 1 then b else if word == 2 then c else d)[k]
  {}

  /** Behind the message come 0x80, zeros up to eight bytes before the end of a block, and the length in bits. */
  lemma PaddingAt(len: nat, i: nat)
    requires i < |Padding(len)|
    ensures |Padding(len)| <= 72 && (len + |Padding(len)|) % 64 == 0
    ensures Padding(len)[i] == if i == 0 then 0x80 else if i < |Padding(len)| - 8 then 0
      else ByteOf(len * 8 % 0x1_0000_0000_0000_0000, i - (|Padding(len)| - 8))
  {
    var front := [0x80] + Zeros(Gap(len));
    if i >= |front| { LittleEndianAt(len * 8 % TWO_64, 8, i - |front|); }
  }

  /** The empty message is one block, compressed from the start value. */
  lemma EmptyDigest(f: Compression)
    ensures Md4(f, []) == Output(f(Chain(0x67452301, 0xefcdab89, 0x98badcfe, 0x10325476), [0x80] + Zeros(63)))
  {
    var p := Padding(0);
    forall i | 0 <= i < 64 ensures |p| == 64 && p[i] == ([0x80] + Zeros(63))[i] {
      PaddingAt(0, i);
      if i >= 56 { ZeroBytes(i - 56); }
    }
    assert p == [0x80] + Zeros(63) && [] + p == p;
    FoldOne(f, INIT, p);
  }

  lemma {:induction false} ZeroBytes(i: nat)
    ensures ByteOf(0, i) == 0
  {
    if i > 0 { ZeroBytes(i - 1); }
  }

  // ---------------------------------------------------------------- whole blocks and the rest

  function Whole(m: seq<Byte>): (w: seq<Byte>)
    ensures |w| % BLOCK == 0 && w <= m
  {
    m[..|m| - |m| % BLOCK]
  }

  function Tail(m: seq<Byte>): (t: seq<Byte>)
    ensures |t| == |m| % BLOCK
  {
    m[|m| - |m| % BLOCK..]
  }

  lemma WholeAndTail(m: seq<Byte>)
    ensures m == Whole(m) + Tail(m)
  {}

  /** Whole blocks in front stay whole blocks. */
  lemma SplitMore(w: seq<Byte>, t: seq<Byte>)
    requires |w| % BLOCK == 0
    ensures Whole(w + t) == w + Whole(t) && Tail(w + t) == Tail(t)
  {
    assert (|w| + |t|) % BLOCK == |t| % BLOCK;
  }
}
