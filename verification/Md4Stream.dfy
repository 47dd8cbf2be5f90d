/** The streaming computation of MD4: a buffer for the started block, and a byte counter split into 29 and
    32 bits. */
module Md4Stream {
  import BitArith
  import opened Md4Spec

  const LOW: nat := 0x2000_0000
  const HIGH: nat := 0x1_0000_0000

  /** The two counters together are the length. */
  predicate Counts(lo: nat, hi: nat, len: nat) {
    lo < LOW && hi < HIGH && hi * LOW + lo == len % (LOW * HIGH)
  }

  /** Adding a size that fits 32 bits, with the carry found by comparison. */
  lemma CountsStep(lo: nat, hi: nat, len: nat, size: nat, lo': nat, hi': nat)
    requires Counts(lo, hi, len) && size < HIGH && lo' == (lo + size) % HIGH % LOW
    requires hi' == ((hi + if lo' < lo then 1 else 0) % HIGH + size / LOW) % HIGH
    ensures Counts(lo', hi', len + size)
  {
    var l, h := size % LOW, size / LOW;
    LowStep(lo, size, lo');
    var x := hi + (if lo' < lo then 1 else 0) + h;
    HighStep(hi + (if lo' < lo then 1 else 0), h, hi');
    var q := x / HIGH;
    Regroup(x, q, hi', lo');
    SameRest(len, size, hi * LOW + lo, x * LOW + lo', q, hi' * LOW + lo');
  }

  /** The low counter wraps exactly if it gets smaller. */
  lemma LowStep(lo: nat, size: nat, lo': nat)
    requires lo < LOW && size < HIGH && lo' == (lo + size) % HIGH % LOW
    ensures lo' < LOW && lo + size % LOW == (if lo' < lo then LOW else 0) + lo'
  {
    var l, h := size % LOW, size / LOW;
    if lo + l < LOW {
      BitArith.DivUnique(lo + size, LOW, h, lo + l);
    } else if h < 7 {
      BitArith.DivUnique(lo + size, LOW, h + 1, lo + l - LOW);
    } else {
      BitArith.DivUnique(lo + size, HIGH, 1, lo + l - LOW);
    }
  }

  lemma HighStep(a: nat, h: nat, hi': nat)
    requires hi' == (a % HIGH + h) % HIGH
    ensures hi' == (a + h) % HIGH && a + h == (a + h) / HIGH * HIGH + hi'
  {
    BitArith.DivUnique(a + h, HIGH, a / HIGH + (a % HIGH + h) / HIGH, hi');
  }

  lemma Regroup(x: nat, q: nat, h: nat, l: nat)
    requires x == q * HIGH + h
    ensures x * LOW + l == q * (LOW * HIGH) + (h * LOW + l)
  {}

  lemma SameRest(len: nat, size: nat, rest: nat, total: nat, q: nat, r: nat)
    requires rest == len % (LOW * HIGH) && total == rest + size && total == q * (LOW * HIGH) + r && r < LOW * HIGH
    ensures (len + size) % (LOW * HIGH) == r
  {
    var p := len / (LOW * HIGH);
    assert len + size == (p + q) * (LOW * HIGH) + r;
    BitArith.DivUnique(len + size, LOW * HIGH, p + q, r);
  }

  /** The low counter gives the fill of the buffer. */
  lemma UsedIs(lo: nat, hi: nat, len: nat)
    requires Counts(lo, hi, len)
    ensures lo % BLOCK == len % BLOCK
  {
    var q := len / (LOW * HIGH);
    assert len == q * (LOW * HIGH) + hi * LOW + lo;
  }

  class Context {
    const f: Compression
    const buffer: array<Byte>
    var chain: Chain
    var lo: nat
    var hi: nat

    constructor (f: Compression)
      ensures this.f == f && fresh(buffer) && true == Absorbed([])
    {
      this.f := f;
      buffer := new Byte[BLOCK](_ => 0);
      chain, lo, hi := INIT, 0, 0;
    }

    /** The message so far is m. */
    ghost predicate Absorbed(m: seq<Byte>)
      reads this, buffer
    {
      && buffer.Length == BLOCK && Counts(lo, hi, |m|)
      && chain == Fold(f, INIT, Whole(m)) && buffer[..|m| % BLOCK] == Tail(m)
    }

    /** Compresses the blocks of the data. */
    method Body(data: seq<Byte>)
      requires |data| % BLOCK == 0
      modifies this`chain
      ensures chain == Fold(f, old(chain), data)
    {
      var rest := data;
      while rest != []
        invariant |rest| % BLOCK == 0 && Fold(f, old(chain), data) == Fold(f, chain, rest)
        decreases |rest|
      {
        chain := f(chain, rest[..BLOCK]);
        rest := rest[BLOCK..];
      }
    }

    /** Copies data into the buffer. */
    method Store(at: nat, data: seq<Byte>)
      requires at + |data| <= buffer.Length
      modifies buffer
      ensures buffer[..at] == old(buffer[..at]) && buffer[at..at + |data|] == data
    {
      for i := 0 to |data|
        invariant buffer[..at] == old(buffer[..at]) && buffer[at..at + i] == data[..i]
      {
        buffer[at + i] := data[i];
        assert buffer[at..at + i + 1] == buffer[at..at + i] + [data[i]];
      }
    }

    method Count(size: nat, ghost len: nat) returns (used: nat)
      requires Counts(lo, hi, len) && size < HIGH
      modifies this`lo, this`hi
      ensures Counts(lo, hi, len + size) && used == len % BLOCK
    {
      UsedIs(lo, hi, len);
      var savedLo := lo;
      ghost var savedHi := hi;
      lo := (savedLo + size) % HIGH % LOW;
      if lo < savedLo { hi := (hi + 1) % HIGH; }
      hi := (hi + size / LOW) % HIGH;
      CountsStep(savedLo, savedHi, len, size, lo, hi);
      used := savedLo % BLOCK;
    }

    /** Takes more of the message. */
    method Update(data: seq<Byte>, ghost m: seq<Byte>)
      requires true == Absorbed(m) && |data| < HIGH
      modifies this, buffer
      ensures true == Absorbed(m + data)
    {
      var used := Count(|data|, |m|);
      ghost var t := Tail(m) + data;
      WholeAndTail(m);
      assert m + data == Whole(m) + t;
      SplitMore(Whole(m), t);
      FoldAppend(f, INIT, Whole(m), Whole(t));
      ghost var before := chain;
      Take(used, data, Tail(m));
    }

    /** Fills up the buffer, and compresses what is complete. */
    method Take(used: nat, data: seq<Byte>, ghost tail: seq<Byte>)
      requires buffer.Length == BLOCK && used == |tail| < BLOCK && buffer[..used] == tail
      modifies this`chain, buffer
      ensures chain == Fold(f, old(chain), Whole(tail + data)) && buffer[..|tail + data| % BLOCK] == Tail(tail + data)
    {
      var free := BLOCK - used;
      if used == 0 {
        assert tail + data == data;
        TakeBlocks(data);
      } else if |data| < free {
        Store(used, data);
        assert buffer[..used + |data|] == tail + data;
      } else {
        Store(used, data[..free]);
        ghost var first := tail + data[..free];
        assert buffer[..] == first;
        Body(buffer[..]);
        assert tail + data == first + data[free..];
        SplitMore(first, data[free..]);
        FoldAppend(f, old(chain), first, Whole(data[free..]));
        TakeBlocks(data[free..]);
      }
    }

    /** Compresses the blocks of the data, and keeps the rest. */
    method TakeBlocks(data: seq<Byte>)
      requires buffer.Length == BLOCK
      modifies this`chain, buffer
      ensures chain == Fold(f, old(chain), Whole(data)) && buffer[..|data| % BLOCK] == Tail(data)
    {
      if |data| >= BLOCK { Body(Whole(data)); }
      Store(0, Tail(data));
    }

    /** Sets a part of the buffer to zero. */
    method Clear(from: nat, to: nat)
      requires from <= to <= buffer.Length
      modifies buffer
      ensures buffer[..from] == old(buffer[..from]) && buffer[from..to] == Zeros(to - from)
    {
      Store(from, Zeros(to - from));
    }

    /** Pads the message and returns its digest. */
    method Final(ghost m: seq<Byte>) returns (digest: seq<Byte>)
      requires true == Absorbed(m)
      modifies this, buffer
      ensures digest == Md4(f, m)
    {
      UsedIs(lo, hi, |m|);
      LengthBytes(lo, hi, |m|);
      ghost var tail, start, first := Tail(m), chain, [];
      var used := lo % BLOCK;
      used, first := Mark(used, tail);
      ghost var last := Finish(used, buffer[..used]);
      if first != [] {
        PaddedTwo(f, m, start, first, last);
      } else {
        PaddedOne(f, m, start, last);
      }
      digest := Output(chain);
    }

    /** Puts the 0x80 behind the message; if there is no room for the length then, the block is compressed. */
    method Mark(at: nat, ghost tail: seq<Byte>) returns (used: nat, ghost first: seq<Byte>)
      requires buffer.Length == BLOCK && at == |tail| < BLOCK && buffer[..at] == tail
      modifies this`chain, buffer
      ensures if BLOCK - at - 1 < 8 then
          used == 0 && |first| == BLOCK && first == tail + [0x80] + Zeros(BLOCK - at - 1)
            && chain == f(old(chain), first)
        else used == at + 1 && first == [] && buffer[..used] == tail + [0x80] && chain == old(chain)
    {
      Store(at, [0x80]);
      used, first := at + 1, [];
      assert buffer[..used] == tail + [0x80];
      if BLOCK - used < 8 {
        Clear(used, BLOCK);
        assert buffer[..] == tail + [0x80] + Zeros(BLOCK - used);
        first := buffer[..];
        FoldOne(f, chain, buffer[..]);
        Body(buffer[..]);
        used := 0;
      }
    }

    /** Fills up the last block with zeros and the length, and compresses it. */
    method Finish(used: nat, ghost front: seq<Byte>) returns (ghost last: seq<Byte>)
      requires buffer.Length == BLOCK && used <= 56 && front == buffer[..used]
      modifies this`chain, buffer
      ensures |last| == BLOCK && chain == f(old(chain), last)
      ensures last == front + Zeros(56 - used) + (LittleEndian(lo * 8 % HIGH, WORD) + LittleEndian(hi, WORD))
    {
      Clear(used, 56);
      assert buffer[..56] == front + Zeros(56 - used);
      Store(56, LittleEndian(lo * 8 % HIGH, WORD));
      assert buffer[..60] == buffer[..56] + buffer[56..60];
      Store(60, LittleEndian(hi, WORD));
      last := buffer[..];
      assert last == buffer[..60] + buffer[60..64];
      FoldOne(f, chain, last);
      Body(buffer[..]);
    }
  }

  /** The padded message is its whole blocks and one or two more. */
  lemma PaddedFold(f: Compression, m: seq<Byte>, t: seq<Byte>, all: seq<Byte>)
    requires |t| % BLOCK == 0 && t == Tail(m) + Padding(|m|) && all == m + Padding(|m|)
    ensures |all| % BLOCK == 0 && Fold(f, INIT, all) == Fold(f, Fold(f, INIT, Whole(m)), t)
  {
    Regrouped(m, Whole(m), Tail(m), Padding(|m|));
    FoldAppend(f, INIT, Whole(m), t);
  }

  lemma Regrouped(m: seq<Byte>, w: seq<Byte>, t: seq<Byte>, pad: seq<Byte>)
    requires m == w + t
    ensures m + pad == w + (t + pad)
  {}

  /** Room for the length in the block of the tail. */
  lemma PaddedOne(f: Compression, m: seq<Byte>, start: Chain, last: seq<Byte>)
    requires start == Fold(f, INIT, Whole(m)) && |last| == BLOCK && BLOCK - |Tail(m)| - 1 >= 8
    requires last == Tail(m) + [0x80] + Zeros(55 - |Tail(m)|) + LittleEndian(|m| * 8 % TWO_64, WORD + WORD)
    ensures f(start, last) == Fold(f, INIT, m + Padding(|m|))
  {
    OneBlock(Tail(m), LittleEndian(|m| * 8 % TWO_64, WORD + WORD), |m|);
    PaddedFold(f, m, last, m + Padding(|m|));
    FoldOne(f, start, last);
  }

  /** No room for it: the length goes into a block of its own. */
  lemma PaddedTwo(f: Compression, m: seq<Byte>, start: Chain, first: seq<Byte>, last: seq<Byte>)
    requires start == Fold(f, INIT, Whole(m)) && |first| == |last| == BLOCK && BLOCK - |Tail(m)| - 1 < 8
    requires first == Tail(m) + [0x80] + Zeros(BLOCK - |Tail(m)| - 1)
    requires last == Zeros(56) + LittleEndian(|m| * 8 % TWO_64, WORD + WORD)
    ensures f(f(start, first), last) == Fold(f, INIT, m + Padding(|m|))
  {
    TwoBlocks(Tail(m), LittleEndian(|m| * 8 % TWO_64, WORD + WORD), first, last, |m|);
    PaddedFold(f, m, first + last, m + Padding(|m|));
    FoldTwo(f, start, first, last, first + last);
  }

  lemma FoldTwo(f: Compression, c: Chain, a: seq<Byte>, b: seq<Byte>, t: seq<Byte>)
    requires |a| == |b| == BLOCK && t == a + b
    ensures Fold(f, c, t) == f(f(c, a), b)
  {
    FoldAppend(f, c, a, b);
    FoldOne(f, c, a);
    FoldOne(f, f(c, a), b);
  }

  lemma OneBlock(tail: seq<Byte>, length: seq<Byte>, n: nat)
    requires |tail| == n % BLOCK && BLOCK - |tail| - 1 >= 8 && length == LittleEndian(n * 8 % TWO_64, WORD + WORD)
    ensures tail + Padding(n) == tail + [0x80] + Zeros(55 - |tail|) + length
  {
    assert Gap(n) == 55 - |tail|;
  }

  lemma TwoBlocks(tail: seq<Byte>, length: seq<Byte>, first: seq<Byte>, last: seq<Byte>, n: nat)
    requires |tail| == n % BLOCK && BLOCK - |tail| - 1 < 8 && length == LittleEndian(n * 8 % TWO_64, WORD + WORD)
    requires first == tail + [0x80] + Zeros(BLOCK - |tail| - 1) && last == Zeros(56) + length
    ensures tail + Padding(n) == first + last
  {
    assert Gap(n) == (BLOCK - |tail| - 1) + 56;
    assert Zeros(Gap(n)) == Zeros(BLOCK - |tail| - 1) + Zeros(56);
  }

  /** The counters are the 64-bit length in bits. */
  lemma LengthBytes(lo: nat, hi: nat, len: nat)
    requires Counts(lo, hi, len)
    ensures LittleEndian(lo * 8 % HIGH, WORD) + LittleEndian(hi, WORD) == LittleEndian(len * 8 % TWO_64, WORD + WORD)
  {
    BitsOf(lo, hi, len);
    WordRange(WORD);
    LittleEndianThen(lo * 8, hi, WORD, WORD);
  }

  lemma BitsOf(lo: nat, hi: nat, len: nat)
    requires Counts(lo, hi, len)
    ensures lo * 8 % HIGH == lo * 8 && len * 8 % TWO_64 == hi * HIGH + lo * 8
  {
    var q := len / (LOW * HIGH);
    assert len == q * (LOW * HIGH) + (hi * LOW + lo);
    assert len * 8 == q * TWO_64 + (hi * HIGH + lo * 8);
    BitArith.DivUnique(len * 8, TWO_64, q, hi * HIGH + lo * 8);
  }

  lemma WordRange(k: nat)
    requires k == 4
    ensures Pow256(k) == HIGH
  {
    assert Pow256(k) == 256 * Pow256(k - 1);
    assert Pow256(k - 1) == 256 * Pow256(k - 2);
    assert Pow256(k - 2) == 256 * Pow256(k - 3);
  }

  function Pow256(k: nat): nat { if k == 0 then 1 else 256 * Pow256(k - 1) }

  lemma {:induction false} LittleEndianThen(l: nat, h: nat, k: nat, n: nat)
    requires l < Pow256(k)
    ensures LittleEndian(h * Pow256(k) + l, k + n) == LittleEndian(l, k) + LittleEndian(h, n)
  {
    if k > 0 {
      LowByte(h, Pow256(k - 1), l);
      LittleEndianThen(l / 256, h, k - 1, n);
    }
  }

  lemma LowByte(h: nat, p: nat, l: nat)
    ensures var x := h * (256 * p) + l; x % 256 == l % 256 && x / 256 == h * p + l / 256
  {
    var x := h * (256 * p) + l;
    assert h * (256 * p) == 256 * (h * p);
    BitArith.DivUnique(x, 256, h * p + l / 256, l % 256);
  }
}
