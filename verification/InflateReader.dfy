/** Reading Huffman-coded symbols from a byte stream: the slow buffer fill that never asks for a
    byte it can do without, the fast two-byte refill, and the table walk. */
module InflateReader {
  import opened BitArith
  import opened CanonicalCodes
  import opened InflateTrie
  import opened InflateTables

  type byte = b: nat | b < 256

  /** The bits of the input from byte `pos` on, as one number; past the end they are zero. */
  function Rest(input: seq<byte>, pos: nat): nat
    decreases |input| - pos
  {
    if pos >= |input| then 0 else input[pos] + 256 * Rest(input, pos + 1)
  }

  /** The unread bits: those in the buffer, then those still in the input. */
  function Pending(input: seq<byte>, pos: nat, buf: nat, bits: nat): nat {
    buf + Pow2(bits) * Rest(input, pos)
  }

  /** Some code starts the bit stream v. */
  ghost predicate Decodable(sizes: seq<nat>, v: nat) {
    exists s: nat :: StartsWith(sizes, v, s)
  }

  /** The buffer of `bits` bits holds the whole of the code it starts with. */
  ghost predicate Enough(sizes: seq<nat>, buf: nat, bits: nat) {
    exists s: nat :: StartsWith(sizes, buf, s) && sizes[s] <= bits
  }

  // ---------------------------------------------------------------- truncated buffers

  lemma LowBits(buf: nat, bits: nat, x: nat, k: nat)
    requires k <= bits
    ensures (buf + Pow2(bits) * x) % Pow2(k) == buf % Pow2(k)
  {
    Pow2Add(k, bits - k);
    AddMultiple(buf, Pow2(k), Pow2(bits - k), x);
  }

  lemma AddMultiple(y: nat, m: nat, a: nat, x: nat)
    requires m > 0
    ensures (y + (m * a) * x) % m == y % m
  {
    var q := y / m;
    assert (m * a) * x == (a * x) * m by { MulAssoc(x, m, a); }
    assert (q + a * x) * m == q * m + (a * x) * m;
    DivUnique(y + (m * a) * x, m, q + a * x, y % m);
  }

  lemma SameBit(x: nat, y: nat, n: nat, d: nat)
    requires d < n && x % Pow2(n) == y % Pow2(n)
    ensures x / Pow2(d) % 2 == y / Pow2(d) % 2
  {
    ModPow2Mod(x, d, n);
    ModPow2Mod(y, d, n);
    ModPow2Mod(x, d + 1, n);
    ModPow2Mod(y, d + 1, n);
    DivPow2Step(x, d);
    DivPow2Step(y, d);
    var p, a, b := Pow2(d), x / Pow2(d) % 2, y / Pow2(d) % 2;
    assert p * a == p * b;
  }

  lemma {:induction false} CountAtMostUsed(sizes: seq<nat>, k: nat, l: nat)
    requires k <= |sizes| && l > 0
    ensures CountBefore(sizes, k, l) <= Used(sizes, k)
  {
    if k > 0 { CountAtMostUsed(sizes, k - 1, l); }
  }

  lemma {:induction false} LonelyCount(sizes: seq<nat>, k: nat, s: nat, l: nat)
    requires s < k <= |sizes| && sizes[s] > 0 && l > 0 && l != sizes[s]
    ensures CountBefore(sizes, k, l) + 1 <= Used(sizes, k)
  {
    if k == s + 1 {
      CountAtMostUsed(sizes, s, l);
    } else {
      LonelyCount(sizes, k - 1, s, l);
    }
  }

  lemma {:induction false} LonelyFirst(sizes: seq<nat>, s: nat, l: nat)
    requires Coded(sizes, s) && Used(sizes, |sizes|) <= 1 && 1 <= l <= sizes[s]
    ensures FirstCode(sizes, l) == 0
  {
    if l > 1 {
      LonelyFirst(sizes, s, l - 1);
      LonelyCount(sizes, |sizes|, s, l - 1);
    }
  }

  /** The code of the only symbol is all zeros. */
  lemma LonelyCode(sizes: seq<nat>, s: nat)
    requires Coded(sizes, s) && Used(sizes, |sizes|) <= 1
    ensures StreamCode(sizes, s) == 0
  {
    LonelyFirst(sizes, s, sizes[s]);
    UsedMonotone(sizes, s + 1, |sizes|);
    CountAtMostUsed(sizes, s, sizes[s]);
    ZeroReversed(sizes[s], 0);
  }

  lemma {:induction false} ZeroPrefix(n: nat, d: nat)
    requires d <= n
    ensures Prefix(0, n, d) == 0
    decreases n - d
  {
    if d < n { ZeroPrefix(n, d + 1); }
  }

  lemma {:induction false} ZeroReversed(n: nat, d: nat)
    requires d <= n
    ensures ReversedFrom(0, n, d) == 0
    decreases n - d
  {
    if d < n {
      ZeroPrefix(n, d + 1);
      ZeroReversed(n, d + 1);
    }
  }

  /** A stream cut off after k bits and padded with zeros still starts with some code. */
  lemma TruncatedDecodable(sizes: seq<nat>, v: nat, k: nat)
    requires ValidSizes(sizes) && Accepted(sizes) && Decodable(sizes, v)
    ensures Decodable(sizes, v % Pow2(k))
  {
    AcceptedFits(sizes);
    if Complete(sizes) {
      var s := CompleteCovers(sizes, v % Pow2(k));
    } else {
      var s: nat :| StartsWith(sizes, v, s);
      LonelyCode(sizes, s);
      ZeroTruncated(v, sizes[s], k);
      assert StartsWith(sizes, v % Pow2(k), s);
    }
  }

  lemma ZeroTruncated(v: nat, n: nat, k: nat)
    requires v % Pow2(n) == 0
    ensures v % Pow2(k) % Pow2(n) == 0
  {
    if n <= k {
      ModPow2Mod(v, n, k);
    } else {
      ModPow2Mod(v, k, n);
      SmallMod(0, Pow2(k));
      SmallMod(0, Pow2(n));
    }
  }

  lemma StartsWithPrefix(sizes: seq<nat>, buf: nat, bits: nat, x: nat, s: nat)
    requires Coded(sizes, s) && sizes[s] <= bits
    ensures StartsWith(sizes, buf + Pow2(bits) * x, s) <==> StartsWith(sizes, buf, s)
  {
    LowBits(buf, bits, x, sizes[s]);
  }

  // ---------------------------------------------------------------- the table walk

  /** What the lookup table holds for a buffer that starts with the code of s. */
  lemma LookUpCell(t: HuffTable, buf: nat, s: nat)
    requires t.Ready() && StartsWith(t.sizes, buf, s)
    ensures t.sizes[s] <= FAST_BITS ==> t.lookUp[buf % FAST_SIZE] == t.sizes[s] * 512 + s
    ensures t.sizes[s] > FAST_BITS ==> t.OnPath(s, FAST_BITS, t.lookUp[buf % FAST_SIZE])
    ensures t.sizes[s] > FAST_BITS ==> t.lookUp[buf % FAST_SIZE] < 0
  {
    var n := t.sizes[s];
    Pow2Values();
    var look := t.lookUp[..];
    assert Done(t.sizes, look, t.tree[..], t.at, s);
    if n <= FAST_BITS {
      ModPow2Mod(buf, n, FAST_BITS);
      assert StartsWith(t.sizes, buf % FAST_SIZE, s);
      assert look[buf % FAST_SIZE] == n * 512 + s;
    } else {
      ModPow2Mod(buf, FAST_BITS, n);
      RootSlot(t.sizes, s);
      LongPath(t.sizes, look, t.tree[..], t.at, s, FAST_BITS);
      var v := Prefix(Code(t.sizes, s), n, FAST_BITS);
      assert CellOk(t.sizes, t.at, look[Slot(v)], Node(FAST_BITS, v));
    }
  }

  /** What the tree holds one bit further down. */
  lemma TreeCell(t: HuffTable, buf: nat, s: nat, d: nat, temp: int)
    requires t.Ready() && StartsWith(t.sizes, buf, s) && t.OnPath(s, d, temp)
    ensures var slot := -temp - 1 + buf / Pow2(d) % 2;
      && 0 <= slot < TREE_SIZE
      && (if d + 1 == t.sizes[s] then t.tree[slot] == s
          else t.tree[slot] < 0 && t.OnPath(s, d + 1, t.tree[slot]))
  {
    var c, n := Code(t.sizes, s), t.sizes[s];
    StreamBit(t.sizes, buf, s, d);
    assert Done(t.sizes, t.lookUp[..], t.tree[..], t.at, s);
    LongStep(t.sizes, t.lookUp[..], t.tree[..], t.at, s, d);
    var p := Node(d, Prefix(c, n, d));
    assert t.at[p] < |t.at| && 2 * |t.at| <= TREE_SIZE;
  }

  lemma StreamBit(sizes: seq<nat>, buf: nat, s: nat, d: nat)
    requires StartsWith(sizes, buf, s) && d < sizes[s]
    ensures buf / Pow2(d) % 2 == Bit(Code(sizes, s), sizes[s], d)
  {
    var c, n := Code(sizes, s), sizes[s];
    ReversedBound(c, n, 0);
    SmallMod(StreamCode(sizes, s), Pow2(n));
    SameBit(buf, StreamCode(sizes, s), n, d);
    ReversedShift(c, n, d);
    ReversedHalf(c, n, d);
  }

  /** Decodes the symbol a bit buffer starts with. */
  method Decode(t: HuffTable, buf: nat) returns (sym: nat, len: nat)
    requires t.Ready() && Decodable(t.sizes, buf)
    ensures StartsWith(t.sizes, buf, sym) && len == t.sizes[sym]
  {
    ghost var s: nat :| StartsWith(t.sizes, buf, s);
    LookUpCell(t, buf, s);
    var temp := t.lookUp[buf % FAST_SIZE];
    if temp >= 0 {
      Unpack(t.sizes[s], s);
      len, sym := temp / 512, temp % 512;
    } else {
      sym, len := WalkTree(t, buf, temp, s);
    }
  }

  lemma Unpack(l: nat, s: nat)
    requires s < 512
    ensures (l * 512 + s) / 512 == l && (l * 512 + s) % 512 == s
  {}

  /** One bit of the walk. */
  method ReadTree(t: HuffTable, buf: nat, d: nat, temp: int, ghost s: nat) returns (temp': int)
    requires t.Ready() && StartsWith(t.sizes, buf, s) && true == t.OnPath(s, d, temp)
    ensures if d + 1 == t.sizes[s] then temp' == s else temp' < 0 && true == t.OnPath(s, d + 1, temp')
  {
    TreeCell(t, buf, s, d, temp);
    temp' := t.tree[-temp - 1 + buf / Pow2(d) % 2];
  }

  method WalkTree(t: HuffTable, buf: nat, first: int, ghost s: nat) returns (sym: nat, len: nat)
    requires t.Ready() && StartsWith(t.sizes, buf, s) && true == t.OnPath(s, FAST_BITS, first) && first < 0
    ensures sym == s && len == t.sizes[s]
  {
    var temp := first;
    len := FAST_BITS;
    while temp < 0
      invariant temp < 0 ==> true == t.OnPath(s, len, temp)
      invariant temp >= 0 ==> temp == s && len == t.sizes[s]
      decreases t.sizes[s] - len, if temp < 0 then 1 else 0
    {
      temp := ReadTree(t, buf, len, temp, s);
      len := len + 1;
    }
    sym := temp;
  }

  /** The same walk, stopping when the bits at hand run out. */
  method WalkTreeWithin(t: HuffTable, buf: nat, bits: nat, first: int, ghost s: nat) returns (found: bool)
    requires t.Ready() && StartsWith(t.sizes, buf, s) && true == t.OnPath(s, FAST_BITS, first) && first < 0
    requires bits > FAST_BITS
    ensures found <==> t.sizes[s] <= bits
  {
    var temp := first;
    var len := FAST_BITS;
    while temp < 0 && bits >= len + 1
      invariant temp < 0 ==> true == t.OnPath(s, len, temp)
      invariant temp >= 0 ==> temp == s && len == t.sizes[s]
      invariant len <= bits
      decreases t.sizes[s] - len, if temp < 0 then 1 else 0
    {
      temp := ReadTree(t, buf, len, temp, s);
      len := len + 1;
    }
    found := temp >= 0;
  }

  /** Whether the bits at hand already hold a whole code. */
  method HasCode(t: HuffTable, buf: nat, bits: nat) returns (found: bool)
    requires t.Ready() && Decodable(t.sizes, buf)
    ensures found <==> Enough(t.sizes, buf, bits)
  {
    ghost var s: nat :| StartsWith(t.sizes, buf, s);
    assert Enough(t.sizes, buf, bits) <==> t.sizes[s] <= bits by { EnoughIs(t.sizes, buf, bits, s); }
    LookUpCell(t, buf, s);
    var temp := t.lookUp[buf % FAST_SIZE];
    if temp >= 0 {
      Unpack(t.sizes[s], s);
      var len := temp / 512;
      found := len != 0 && bits >= len;
    } else if bits > FAST_BITS {
      found := WalkTreeWithin(t, buf, bits, temp, s);
    } else {
      found := false;
    }
  }

  lemma EnoughIs(sizes: seq<nat>, buf: nat, bits: nat, s: nat)
    requires Fits(sizes) && StartsWith(sizes, buf, s)
    ensures Enough(sizes, buf, bits) <==> sizes[s] <= bits
  {
    if Enough(sizes, buf, bits) {
      var u: nat :| StartsWith(sizes, buf, u) && sizes[u] <= bits;
      StartsWithUnique(sizes, buf, s, u);
    }
  }

  // ---------------------------------------------------------------- the byte stream

  /** The next input byte, or zero when there are none left. */
  method GetByte(input: seq<byte>, pos: nat) returns (c: byte, pos': nat)
    requires pos <= |input|
    ensures Rest(input, pos) == c + 256 * Rest(input, pos')
    ensures pos' == if pos < |input| then pos + 1 else pos
  {
    if pos < |input| {
      c, pos' := input[pos], pos + 1;
    } else {
      c, pos' := 0, pos;
    }
  }

  /** Appending a byte to the bit buffer leaves the unread bits as they are. */
  lemma AppendByte(buf: nat, bits: nat, c: byte, rest: nat)
    requires buf < Pow2(bits)
    ensures buf + c * Pow2(bits) < Pow2(bits + 8)
    ensures (buf + c * Pow2(bits)) + Pow2(bits + 8) * rest == buf + Pow2(bits) * (c + 256 * rest)
    ensures (buf + c * Pow2(bits)) % Pow2(bits) == buf
  {
    var p := Pow2(bits);
    Pow2Add(bits, 8);
    Pow2Values();
    assert c * p <= 255 * p by { MulMonotone(c, 255, p); }
    assert (p * 256) * rest == p * (256 * rest);
    assert p * (c + 256 * rest) == p * c + p * (256 * rest);
    DivUnique(buf + c * p, p, c, buf);
  }

  /** The buffer is the unread stream cut off after `bits` bits. */
  lemma BufferIsTruncation(input: seq<byte>, pos: nat, buf: nat, bits: nat)
    requires buf < Pow2(bits)
    ensures Pending(input, pos, buf, bits) % Pow2(bits) == buf
  {
    LowBits(buf, bits, Rest(input, pos), bits);
    SmallMod(buf, Pow2(bits));
  }

  method TakeByte(input: seq<byte>, pos: nat, buf: nat, bits: nat) returns (pos': nat, buf': nat)
    requires pos <= |input| && buf < Pow2(bits)
    ensures pos' == if pos < |input| then pos + 1 else pos
    ensures buf' < Pow2(bits + 8) && buf' % Pow2(bits) == buf
    ensures Pending(input, pos', buf', bits + 8) == Pending(input, pos, buf, bits)
  {
    var c;
    c, pos' := GetByte(input, pos);
    AppendByte(buf, bits, c, Rest(input, pos'));
    buf' := buf + c * Pow2(bits);
  }

  /** Without the last byte there was no whole code. */
  ghost predicate ByteNeeded(sizes: seq<nat>, buf: nat, bits: nat) {
    bits >= 8 && !Enough(sizes, buf % Pow2(bits - 8), bits - 8)
  }

  /** Takes one more byte unless the bits at hand hold a whole code. */
  method TakeIfNeeded(t: HuffTable, input: seq<byte>, pos: nat, buf: nat, bits: nat, ghost v: nat)
    returns (found: bool, pos': nat, buf': nat)
    requires true == t.Ready() && pos <= |input| && buf < Pow2(bits)
    requires Pending(input, pos, buf, bits) == v && Decodable(t.sizes, v)
    ensures found ==> pos' == pos && buf' == buf && true == Enough(t.sizes, buf, bits)
    ensures !found ==> pos' == (if pos < |input| then pos + 1 else pos) && buf' < Pow2(bits + 8)
    ensures !found ==> Pending(input, pos', buf', bits + 8) == v && true == ByteNeeded(t.sizes, buf', bits + 8)
  {
    BufferIsTruncation(input, pos, buf, bits);
    TruncatedDecodable(t.sizes, v, bits);
    found := HasCode(t, buf, bits);
    pos', buf' := pos, buf;
    if !found { pos', buf' := TakeByte(input, pos, buf, bits); }
  }

  /** Reads just enough bytes to decode the next symbol: the value of the unread bits does not
      change, and a byte is read only while the buffer does not hold a whole code. */
  method Fill(t: HuffTable, input: seq<byte>, pos: nat, buf: nat, bits: nat)
    returns (pos': nat, buf': nat, bits': nat, ghost taken: nat)
    requires true == t.Ready() && pos <= |input| && bits < MAX_BITS && buf < Pow2(bits)
    requires Decodable(t.sizes, Pending(input, pos, buf, bits))
    ensures pos' == (if taken <= |input| - pos then pos + taken else |input|)
    ensures bits' == bits + 8 * taken <= 22 && buf' < Pow2(bits')
    ensures Pending(input, pos', buf', bits') == Pending(input, pos, buf, bits)
    ensures bits' >= MAX_BITS || true == Enough(t.sizes, buf', bits')
    ensures taken > 0 ==> true == ByteNeeded(t.sizes, buf', bits')
  {
    pos', buf', bits' := pos, buf, bits;
    ghost var v := Pending(input, pos, buf, bits);
    taken := 0;
    while bits' < MAX_BITS
      invariant bits' == bits + 8 * taken <= 22 && buf' < Pow2(bits')
      invariant Pending(input, pos', buf', bits') == v
      invariant taken > 0 ==> true == ByteNeeded(t.sizes, buf', bits')
      invariant pos' == if taken <= |input| - pos then pos + taken else |input|
      decreases MAX_BITS - bits'
    {
      var found;
      found, pos', buf' := TakeIfNeeded(t, input, pos', buf', bits', v);
      if found { break; }
      bits' := bits' + 8;
      taken := taken + 1;
    }
  }

  /** Decodes one symbol from the stream: it is the one whose code comes first in the unread
      bits, and exactly the bits of that code are taken off. */
  method DecodeNext(t: HuffTable, input: seq<byte>, pos: nat, buf: nat, bits: nat)
    returns (sym: nat, pos': nat, buf': nat, bits': nat)
    requires t.Ready() && pos <= |input| && bits <= 30 && buf < Pow2(bits)
    requires Decodable(t.sizes, Pending(input, pos, buf, bits))
    ensures StartsWith(t.sizes, Pending(input, pos, buf, bits), sym)
    ensures Pending(input, pos', buf', bits') == Pending(input, pos, buf, bits) / Pow2(t.sizes[sym])
    ensures pos <= pos' <= |input| && bits' <= 30 && buf' < Pow2(bits')
  {
    pos', buf', bits' := pos, buf, bits;
    if bits < MAX_BITS {
      if |input| - pos < 2 {
        ghost var taken;
        pos', buf', bits', taken := Fill(t, input, pos, buf, bits);
      } else {
        pos', buf' := TakeByte(input, pos, buf, bits);
        pos', buf' := TakeByte(input, pos', buf', bits + 8);
        bits' := bits + 16;
      }
    }
    sym, buf', bits' := DecodeBuffered(t, input, pos', buf', bits');
  }

  lemma ConsumeCode(sizes: seq<nat>, input: seq<byte>, pos: nat, buf: nat, bits: nat, s: nat)
    requires StartsWith(sizes, buf, s) && sizes[s] <= bits && buf < Pow2(bits)
    ensures StartsWith(sizes, Pending(input, pos, buf, bits), s)
    ensures Shr(buf, sizes[s]) < Pow2(bits - sizes[s])
    ensures Pending(input, pos, Shr(buf, sizes[s]), bits - sizes[s])
         == Pending(input, pos, buf, bits) / Pow2(sizes[s])
  {
    StartsWithPrefix(sizes, buf, bits, Rest(input, pos), s);
    DropBits(buf, bits, Rest(input, pos), sizes[s]);
  }

  method DecodeBuffered(t: HuffTable, ghost input: seq<byte>, ghost pos: nat, buf: nat, bits: nat)
    returns (sym: nat, buf': nat, bits': nat)
    requires t.Ready() && buf < Pow2(bits) && (bits >= MAX_BITS || Enough(t.sizes, buf, bits))
    requires Decodable(t.sizes, Pending(input, pos, buf, bits))
    ensures StartsWith(t.sizes, Pending(input, pos, buf, bits), sym)
    ensures Pending(input, pos, buf', bits') == Pending(input, pos, buf, bits) / Pow2(t.sizes[sym])
    ensures bits' <= bits && buf' < Pow2(bits')
  {
    ghost var v := Pending(input, pos, buf, bits);
    BufferIsTruncation(input, pos, buf, bits);
    TruncatedDecodable(t.sizes, v, bits);
    var len;
    sym, len := Decode(t, buf);
    if bits < MAX_BITS { EnoughIs(t.sizes, buf, bits, sym); }
    ConsumeCode(t.sizes, input, pos, buf, bits, sym);
    buf', bits' := Shr(buf, len), bits - len;
  }

  lemma DivideSum(y: nat, m: nat, a: nat, x: nat)
    requires m > 0 && y < m * a
    ensures y / m < a && y / m + a * x == (y + (m * a) * x) / m
  {
    var q := y / m;
    if q >= a { MulMonotone(a, q, m); }
    assert (m * a) * x == (a * x) * m by { MulAssoc(x, m, a); }
    assert (q + a * x) * m == q * m + (a * x) * m;
    DivUnique(y + (m * a) * x, m, q + a * x, y % m);
  }

  lemma DropBits(buf: nat, bits: nat, rest: nat, len: nat)
    requires buf < Pow2(bits) && len <= bits
    ensures buf / Pow2(len) < Pow2(bits - len)
    ensures buf / Pow2(len) + Pow2(bits - len) * rest == (buf + Pow2(bits) * rest) / Pow2(len)
  {
    Pow2Add(len, bits - len);
    DivideSum(buf, Pow2(len), Pow2(bits - len), rest);
  }
}
