/** Writing symbols as a stream of codes, and the round trip through the deflator's tables and the
    inflator's tables. */
module HuffmanStream {
  import opened BitArith
  import opened CanonicalCodes
  import opened HuffmanOptimal
  import opened InflateTrie
  import opened InflateTables
  import opened InflateReader
  import opened DeflateTables

  /** A message of coded symbols. */
  predicate Codable(sizes: seq<nat>, message: seq<nat>) {
    forall i :: 0 <= i < |message| ==> Coded(sizes, message[i])
  }

  /** How many bits the codes of a message take. */
  function BitLength(sizes: seq<nat>, message: seq<nat>): nat
    requires Codable(sizes, message)
  {
    if message == [] then 0 else sizes[message[0]] + BitLength(sizes, message[1..])
  }

  /** The codes of a message one after the other, first code in the lowest bits. */
  function Encoding(sizes: seq<nat>, message: seq<nat>): nat
    requires Codable(sizes, message)
  {
    if message == [] then 0
    else StreamCode(sizes, message[0]) + Pow2(sizes[message[0]]) * Encoding(sizes, message[1..])
  }

  lemma {:induction false} EncodingSnoc(sizes: seq<nat>, message: seq<nat>, s: nat)
    requires Codable(sizes, message) && Coded(sizes, s)
    ensures Codable(sizes, message + [s])
    ensures BitLength(sizes, message + [s]) == BitLength(sizes, message) + sizes[s]
    ensures Encoding(sizes, message + [s])
         == Encoding(sizes, message) + Pow2(BitLength(sizes, message)) * StreamCode(sizes, s)
  {
    var m := message + [s];
    assert forall i :: 0 <= i < |m| ==> Coded(sizes, m[i]);
    if message == [] {
      assert m == [s] && m[1..] == [];
    } else {
      assert m[1..] == message[1..] + [s];
      EncodingSnoc(sizes, message[1..], s);
      var n, k := sizes[message[0]], BitLength(sizes, message[1..]);
      Pow2Add(n, k);
      Regroup3(Pow2(n), Encoding(sizes, message[1..]), Pow2(k), StreamCode(sizes, s));
    }
  }

  lemma Regroup3(p: nat, e: nat, q: nat, c: nat)
    ensures p * (e + q * c) == p * e + (p * q) * c
  {}

  // ---------------------------------------------------------------- writing

  lemma {:induction false} RestSnoc(output: seq<byte>, c: byte, pos: nat)
    requires pos <= |output|
    ensures Rest(output + [c], pos) == Rest(output, pos) + Pow2(8 * (|output| - pos)) * c
    decreases |output| - pos
  {
    if pos == |output| {
      assert Rest(output + [c], pos) == c + 256 * Rest(output + [c], pos + 1) == c;
    } else {
      RestSnoc(output, c, pos + 1);
      var k := 8 * (|output| - (pos + 1));
      Pow2Add(8, k);
      Pow2Values();
      Regroup3(256, Rest(output, pos + 1), Pow2(k), c);
    }
  }

  class BitWriter {
    var buffer: nat
    var bitsIn: nat
    var output: seq<byte>

    constructor ()
      ensures Valid() && Value() == 0 && Bits() == 0
    {
      buffer, bitsIn, output := 0, 0, [];
    }

    ghost predicate Valid() reads this {
      bitsIn < 8 && buffer < Pow2(bitsIn)
    }

    /** All bits written so far, first bit lowest. */
    ghost function Value(): nat reads this {
      Rest(output, 0) + Pow2(8 * |output|) * buffer
    }

    ghost function Bits(): nat reads this { 8 * |output| + bitsIn }

    method PutBits(bits: nat, len: nat)
      requires Valid() && bits < Pow2(len)
      modifies this
      ensures Valid()
      ensures Value() == old(Value()) + Pow2(old(Bits())) * bits && Bits() == old(Bits()) + len
    {
      JoinBits(buffer, bitsIn, bits, len, 8 * |output|);
      buffer := buffer + Pow2(bitsIn) * bits;
      bitsIn := bitsIn + len;
      while bitsIn >= 8
        invariant buffer < Pow2(bitsIn) && Bits() == old(Bits()) + len
        invariant Value() == old(Value()) + Pow2(old(Bits())) * bits
      {
        EmitByte();
      }
    }

    method EmitByte()
      requires bitsIn >= 8 && buffer < Pow2(bitsIn)
      modifies this
      ensures buffer < Pow2(bitsIn) && Bits() == old(Bits()) && Value() == old(Value())
      ensures bitsIn == old(bitsIn) - 8
    {
      RestSnoc(output, buffer % 256, 0);
      SplitByte(buffer, bitsIn, 8 * |output|);
      output := output + [buffer % 256];
      buffer := buffer / 256;
      bitsIn := bitsIn - 8;
    }

    /** Pads the last byte with zeros. */
    method Flush()
      requires Valid()
      modifies this
      ensures Valid() && bitsIn == 0 && buffer == 0 && Value() == old(Value())
    {
      if bitsIn > 0 { PutBits(0, 8 - bitsIn); }
    }
  }

  lemma JoinBits(buffer: nat, bitsIn: nat, bits: nat, len: nat, k: nat)
    requires buffer < Pow2(bitsIn) && bits < Pow2(len)
    ensures buffer + Pow2(bitsIn) * bits < Pow2(bitsIn + len)
    ensures Pow2(k) * (buffer + Pow2(bitsIn) * bits) == Pow2(k) * buffer + Pow2(k + bitsIn) * bits
  {
    Pow2Add(bitsIn, len);
    Pow2Add(k, bitsIn);
    ProductBound(buffer, bits, Pow2(bitsIn), Pow2(len));
    Regroup3(Pow2(k), buffer, Pow2(bitsIn), bits);
  }

  lemma ProductBound(r: nat, x: nat, p: nat, q: nat)
    requires r < p && x < q
    ensures r + p * x < p * q
  {
    MulMonotone(x + 1, q, p);
    assert p * (x + 1) == p * x + p;
  }

  lemma SplitByte(buffer: nat, bitsIn: nat, k: nat)
    requires bitsIn >= 8 && buffer < Pow2(bitsIn)
    ensures buffer / 256 < Pow2(bitsIn - 8)
    ensures Pow2(k) * (buffer % 256) + Pow2(k + 8) * (buffer / 256) == Pow2(k) * buffer
  {
    Pow2Values();
    Pow2Add(bitsIn - 8, 8);
    Pow2Add(k, 8);
    Regroup3(Pow2(k), buffer % 256, 256, buffer / 256);
  }

  lemma CodeFits(sizes: seq<nat>, s: nat)
    requires Coded(sizes, s)
    ensures StreamCode(sizes, s) < Pow2(sizes[s])
  {
    ReversedBound(Code(sizes, s), sizes[s], 0);
  }

  /** Writes the codes of a message and pads the last byte. */
  method Encode(sizes: seq<nat>, codes: seq<nat>, message: seq<nat>) returns (output: seq<byte>)
    requires Codable(sizes, message) && |codes| == |sizes|
    requires forall s: nat :: Coded(sizes, s) ==> codes[s] == StreamCode(sizes, s)
    ensures Rest(output, 0) == Encoding(sizes, message)
  {
    var w := new BitWriter();
    for i := 0 to |message|
      invariant w.Valid() && fresh(w) && Codable(sizes, message[..i])
      invariant w.Bits() == BitLength(sizes, message[..i]) && w.Value() == Encoding(sizes, message[..i])
    {
      var s := message[i];
      CodeFits(sizes, s);
      EncodingSnoc(sizes, message[..i], s);
      assert message[..i + 1] == message[..i] + [s];
      w.PutBits(codes[s], sizes[s]);
    }
    assert message[..|message|] == message;
    w.Flush();
    output := w.output;
  }

  /** The unread bits are the codes of a message, then anything at all. */
  ghost predicate Holding(sizes: seq<nat>, v: nat, message: seq<nat>, more: nat)
    requires Codable(sizes, message)
  {
    v == Encoding(sizes, message) + Pow2(BitLength(sizes, message)) * more
  }

  lemma HoldingStep(sizes: seq<nat>, v: nat, message: seq<nat>, more: nat)
    requires Codable(sizes, message) && message != [] && Holding(sizes, v, message, more)
    ensures StartsWith(sizes, v, message[0])
    ensures Codable(sizes, message[1..]) && Holding(sizes, Shr(v, sizes[message[0]]), message[1..], more)
  {
    var s, rest := message[0], message[1..];
    CodeFits(sizes, s);
    var p, q := Pow2(sizes[s]), Pow2(BitLength(sizes, rest));
    Pow2Add(sizes[s], BitLength(sizes, rest));
    Regroup3(p, Encoding(sizes, rest), q, more);
    ModOfSum(v, p, Encoding(sizes, rest) + q * more, StreamCode(sizes, s));
  }

  /** Decodes as many symbols as asked for. */
  method DecodeMessage(t: HuffTable, input: seq<byte>, count: nat, ghost message: seq<nat>, ghost more: nat)
    returns (decoded: seq<nat>)
    requires t.Ready() && Codable(t.sizes, message) && count == |message|
    requires Holding(t.sizes, Rest(input, 0), message, more)
    ensures decoded == message
  {
    decoded := [];
    var pos: nat, buf: nat, bits: nat := 0, 0, 0;
    AcceptedFits(t.sizes);
    for i := 0 to count
      invariant pos <= |input| && bits <= 30 && buf < Pow2(bits) && decoded == message[..i]
      invariant Codable(t.sizes, message[i..]) && Holding(t.sizes, Pending(input, pos, buf, bits), message[i..], more)
    {
      ghost var v := Pending(input, pos, buf, bits);
      HoldingStep(t.sizes, v, message[i..], more);
      var sym;
      sym, pos, buf, bits := DecodeNext(t, input, pos, buf, bits);
      assert Pending(input, pos, buf, bits) == Shr(v, t.sizes[sym]);
      StartsWithUnique(t.sizes, v, sym, message[i]);
      assert message[i..][1..] == message[i + 1..];
      decoded := decoded + [sym];
    }
  }

  /** A message whose symbols all occur in the frequency table survives the round trip through the
      encoder's table, the bit stream and the decoder's table. */
  method RoundTrip(counts: seq<nat>, limit: nat, message: seq<nat>) returns (decoded: seq<nat>)
    requires |counts| <= MAX_SYMBOLS && Total(counts) < 65536 && 1 <= limit <= MAX_BITS
    requires |Entries(counts, |counts|)| <= Pow2(limit)
    requires forall i :: 0 <= i < |message| ==> message[i] < |counts| && counts[message[i]] > 0
    ensures decoded == message
  {
    var sizes, codes := new nat[|counts|], new nat[|counts|];
    ghost var order, lens, low := OptimizeTable(counts, limit, sizes, codes);
    ghost var z := sizes[..];
    assert forall s: nat :: Coded(z, s) ==> codes[..][s] == StreamCode(z, s);
    var output := Encode(sizes[..], codes[..], message);
    var t := new HuffTable();
    var ok := t.Build(sizes[..]);
    decoded := DecodeMessage(t, output, |message|, message, 0);
  }
}
