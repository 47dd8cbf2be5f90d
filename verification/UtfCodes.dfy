/** The UTF-8 and UTF-16 encodings of a character (sections 3 and 4 of RFC 3629), and the converter's own
    test of a UTF-8 sequence. Code units and characters are naturals. */
module UtfCodes {

  /** A Unicode scalar value. */
  predicate Scalar(c: nat) { c < 0xD800 || 0xDFFF < c <= 0x10FFFF }

  // ---------------------------------------------------------------- UTF-8

  function Encode8(c: nat): (s: seq<nat>)
    ensures 1 <= |s| <= 4
  {
    if c < 0x80 then [c]
    else if c < 0x800 then [0xC0 + c / 64, 0x80 + c % 64]
    else if c < 0x10000 then [0xE0 + c / 4096, 0x80 + c / 64 % 64, 0x80 + c % 64]
    else [0xF0 + c / 262144, 0x80 + c / 4096 % 64, 0x80 + c / 64 % 64, 0x80 + c % 64]
  }

  predicate Trail(b: nat) { 0x80 <= b <= 0xBF }

  /** The productions UTF8-1 to UTF8-4. */
  predicate WellFormed(s: seq<nat>) {
    || (|s| == 1 && s[0] <= 0x7F)
    || (|s| == 2 && 0xC2 <= s[0] <= 0xDF && Trail(s[1]))
    || (|s| == 3 && s[0] == 0xE0 && 0xA0 <= s[1] <= 0xBF && Trail(s[2]))
    || (|s| == 3 && 0xE1 <= s[0] <= 0xEC && Trail(s[1]) && Trail(s[2]))
    || (|s| == 3 && s[0] == 0xED && 0x80 <= s[1] <= 0x9F && Trail(s[2]))
    || (|s| == 3 && 0xEE <= s[0] <= 0xEF && Trail(s[1]) && Trail(s[2]))
    || (|s| == 4 && s[0] == 0xF0 && 0x90 <= s[1] <= 0xBF && Trail(s[2]) && Trail(s[3]))
    || (|s| == 4 && 0xF1 <= s[0] <= 0xF3 && Trail(s[1]) && Trail(s[2]) && Trail(s[3]))
    || (|s| == 4 && s[0] == 0xF4 && 0x80 <= s[1] <= 0x8F && Trail(s[2]) && Trail(s[3]))
  }

  /** How many bytes follow a first byte. */
  function Trailing(b: nat): (n: nat)
    ensures n <= 5
  {
    if b < 0xC0 then 0 else if b < 0xE0 then 1 else if b < 0xF0 then 2 else if b < 0xF8 then 3
      else if b < 0xFC then 4 else 5
  }

  /** What is subtracted from the gathered bits, for each number of bytes that follow. */
  function Offset(n: int): nat {
    if n == 0 then 0 else if n == 1 then 0x3080 else if n == 2 then 0xE2080 else 0x3C82080
  }

  /** The bytes of a sequence, each shifted by six bits more than the next. */
  function Gathered(s: seq<nat>): nat {
    if s == [] then 0 else Gathered(s[..|s| - 1]) * 64 + s[|s| - 1]
  }

  function Value(s: seq<nat>): int { Gathered(s) - Offset(|s| - 1) }

  lemma GatheredIs(s: seq<nat>)
    ensures |s| == 1 ==> Gathered(s) == s[0]
    ensures |s| == 2 ==> Gathered(s) == s[0] * 64 + s[1]
    ensures |s| == 3 ==> Gathered(s) == (s[0] * 64 + s[1]) * 64 + s[2]
    ensures |s| == 4 ==> Gathered(s) == ((s[0] * 64 + s[1]) * 64 + s[2]) * 64 + s[3]
  {
    if |s| >= 1 { assert |s[..|s| - 1]| == |s| - 1; }
    if |s| == 4 { GatheredIs(s[..3]); }
    if |s| == 3 { GatheredIs(s[..2]); }
    if |s| == 2 { GatheredIs(s[..1]); }
    if |s| == 1 { assert s[..0] == []; }
  }

  /** A character's encoding is well formed and has its value. */
  lemma Encode8RoundTrip(c: nat)
    requires Scalar(c)
    ensures WellFormed(Encode8(c)) && Value(Encode8(c)) == c && Trailing(Encode8(c)[0]) == |Encode8(c)| - 1
  {
    GatheredIs(Encode8(c));
    Digits(c);
  }

  /** A number by its digits to base 64. */
  lemma Digits(c: nat)
    ensures c == c / 64 * 64 + c % 64
    ensures c / 64 == c / 4096 * 64 + c / 64 % 64 && c / 4096 == c / 262144 * 64 + c / 4096 % 64
  {
    assert c / 64 / 64 == c / 4096 && c / 4096 / 64 == c / 262144;
  }

  lemma DigitsAre(x: nat, y: nat, z: nat, w: nat, c: nat)
    requires y < 64 && z < 64 && w < 64 && c == ((x * 64 + y) * 64 + z) * 64 + w
    ensures c % 64 == w && c / 64 == (x * 64 + y) * 64 + z
    ensures c / 64 % 64 == z && c / 4096 == x * 64 + y && c / 4096 % 64 == y && c / 262144 == x
  {
    assert c / 64 == (x * 64 + y) * 64 + z;
    assert c / 64 / 64 == x * 64 + y && c / 64 / 64 / 64 == x;
  }

  /** A well-formed sequence is the encoding of its value, a character. */
  lemma Decode8RoundTrip(s: seq<nat>)
    requires WellFormed(s)
    ensures 0 <= Value(s) && Scalar(Value(s)) && Encode8(Value(s)) == s && Trailing(s[0]) == |s| - 1
  {
    GatheredIs(s);
    if |s| == 2 {
      DigitsAre(0, 0, s[0] - 0xC0, s[1] - 0x80, Value(s));
    } else if |s| == 3 {
      DigitsAre(0, s[0] - 0xE0, s[1] - 0x80, s[2] - 0x80, Value(s));
    } else if |s| == 4 {
      DigitsAre(s[0] - 0xF0, s[1] - 0x80, s[2] - 0x80, s[3] - 0x80, Value(s));
    }
  }

  // ---------------------------------------------------------------- the converter's test

  /** The switch of the legality test, for a sequence of the length that its first byte asks for. */
  predicate Legal(s: seq<nat>) {
    && 1 <= |s| <= 4
    && (|s| == 4 ==> Trail(s[3]))
    && (|s| >= 3 ==> Trail(s[2]))
    && (|s| >= 2 ==>
         && s[1] <= 0xBF
         && (s[0] == 0xE0 ==> s[1] >= 0xA0) && (s[0] == 0xED ==> s[1] <= 0x9F)
         && (s[0] == 0xF0 ==> s[1] >= 0x90) && (s[0] == 0xF4 ==> s[1] <= 0x8F)
         && (s[0] != 0xE0 && s[0] != 0xED && s[0] != 0xF0 && s[0] != 0xF4 ==> s[1] >= 0x80))
    && !(0x80 <= s[0] < 0xC2) && s[0] <= 0xF4
  }

  /** After a first byte of 0xED or 0xF4 the second byte is only tested for being too large. */
  predicate Overlooked(s: seq<nat>) {
    || (|s| == 3 && s[0] == 0xED && s[1] < 0x80 && Trail(s[2]))
    || (|s| == 4 && s[0] == 0xF4 && s[1] < 0x80 && Trail(s[2]) && Trail(s[3]))
  }

  /** Exactly the well-formed sequences and the overlooked ones pass. */
  lemma LegalIff(s: seq<nat>)
    requires s != [] && |s| == Trailing(s[0]) + 1
    ensures Legal(s) <==> WellFormed(s) || Overlooked(s)
  {}

  /** No sequence that passes has the value of a surrogate, or one that is too large. */
  lemma LegalValue(s: seq<nat>)
    requires s != [] && |s| == Trailing(s[0]) + 1 && Legal(s)
    ensures 0 <= Value(s) && Scalar(Value(s)) && (Overlooked(s) ==> Encode8(Value(s)) != s)
  {
    GatheredIs(s);
  }

  // ---------------------------------------------------------------- UTF-16

  predicate HighSurrogate(u: nat) { 0xD800 <= u <= 0xDBFF }
  predicate LowSurrogate(u: nat) { 0xDC00 <= u <= 0xDFFF }

  function Encode16(c: nat): (s: seq<nat>)
    ensures 1 <= |s| <= 2
  {
    if c <= 0xFFFF then [c] else [(c - 0x10000) / 1024 + 0xD800, (c - 0x10000) % 1024 + 0xDC00]
  }

  function Pair(high: nat, low: nat): int { (high - 0xD800) * 1024 + (low - 0xDC00) + 0x10000 }

  lemma Encode16RoundTrip(c: nat)
    requires Scalar(c)
    ensures c <= 0xFFFF ==> !HighSurrogate(c) && !LowSurrogate(c)
    ensures c > 0xFFFF ==>
      HighSurrogate(Encode16(c)[0]) && LowSurrogate(Encode16(c)[1]) && Pair(Encode16(c)[0], Encode16(c)[1]) == c
  {}

  lemma PairIs(high: nat, low: nat)
    requires HighSurrogate(high) && LowSurrogate(low)
    ensures 0x10000 <= Pair(high, low) <= 0x10FFFF && Encode16(Pair(high, low)) == [high, low]
  {}

  /** The euro sign and the letter hwair in UTF-8, as section 7 of RFC 3629 writes such,
    and the examples of section 5 of
      RFC 2781 in UTF-16. */
  lemma KnownCodes(euro: nat, hwair: nat, ra: nat, math: nat)
    requires euro == 0x20AC && hwair == 0x10348 && ra == 0x12345 && math == 0x3D
    ensures Encode8(math) == [0x3D] && Encode8(0x3B1) == [0xCE, 0xB1]
    ensures Encode8(euro) == [0xE2, 0x82, 0xAC] && Encode8(hwair) == [0xF0, 0x90, 0x8D, 0x88]
    ensures Encode16(ra) == [0xD808, 0xDF45] && Encode16(math) == [0x3D]
  {}

  function Encode32(c: nat): (s: seq<nat>)
    ensures |s| == 1
  {
    [c]
  }
}
