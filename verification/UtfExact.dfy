/** What the converters from UTF-16 and UTF-32 do with any source, unpaired surrogates and large values included. */
module UtfExact {
  import opened UtfCodes
  import opened UtfRuns

  /** Code units of 16 bits. */
  predicate Units16(s: seq<nat>) { forall i :: 0 <= i < |s| ==> s[i] <= 0xFFFF }

  /** One character of a conversion that is never bad: it is written, and the run goes on. */
  lemma OneRun(c: Conversion, s: seq<nat>, pos: nat, room: nat, ch: nat, len: nat, left: nat, o: Outcome)
    requires pos < |s| && c.read(s, pos) == Char(ch, len, false) && len > 0 && room == |c.write(ch)| + left
    requires Run(c, s, pos + len, left, ConversionOK) == o
    ensures Run(c, s, pos, room, ConversionOK) == o.(out := c.write(ch) + o.out)
  {
    RunStep(c, s, pos, room, left, ConversionOK, pos + len, c.write(ch));
  }

  /** The characters found, one more in front of them. */
  lemma FirstText(encode: nat -> seq<nat>, ch: nat, cs: seq<nat>)
    ensures Text(encode, [ch] + cs) == encode(ch) + Text(encode, cs)
  {
    assert ([ch] + cs)[1..] == cs;
  }

  /** The conversion of s from pos on consumes the characters cs, which end at `end`, and reports `result`. */
  predicate Does(c: Conversion, s: seq<nat>, pos: nat, room: nat, cs: seq<nat>, end: nat, result: Result) {
    && pos <= end <= |s| && s[pos..end] == Text(Encode16, cs)
    && Run(c, s, pos, room, ConversionOK) == Outcome(result, end, Text(c.write, cs))
  }

  lemma DoesMore(c: Conversion, s: seq<nat>, pos: nat, room: nat, ch: nat, next: nat, left: nat, cs: seq<nat>, end: nat,
    result: Result)
    requires pos < next <= |s| && c.read(s, pos) == Char(ch, next - pos, false) && s[pos..next] == Encode16(ch)
    requires room == |c.write(ch)| + left && true == Does(c, s, next, left, cs, end, result)
    ensures true == Does(c, s, pos, room, [ch] + cs, end, result)
  {
    TextStep(Encode16, s, pos, next, end, ch, cs);
    OneRun(c, s, pos, room, ch, next - pos, left, Outcome(result, end, Text(c.write, cs)));
    FirstText(c.write, ch, cs);
  }

  /** Nothing well-formed starts at `end`, and this is how it is reported. */
  predicate StrictEnd(s: seq<nat>, end: nat, result: Result) {
    if end >= |s| then result == ConversionOK else
    && 0xD800 <= s[end] <= 0xDFFF
    && (end + 1 < |s| && s[end] <= 0xDBFF ==> !(0xDC00 <= s[end + 1] <= 0xDFFF))
    && result == if s[end] <= 0xDBFF && end + 1 == |s| then SourceExhausted else SourceIllegal
  }

  lemma {:induction false} StrictFrom(c: Conversion, s: seq<nat>, pos: nat, room: nat)
    returns (cs: seq<nat>, end: nat, result: Result)
    requires c.read == Read16(true) && true == ShortPieces(c) && pos <= |s| && 4 * (|s| - pos) <= room
    requires true == Units16(s)
    ensures true == AllScalar(cs) && true == Does(c, s, pos, room, cs, end, result) && true == StrictEnd(s, end, result)
    decreases |s| - pos
  {
    if pos < |s| && Read16(true)(s, pos).Char? {
      var x := Read16(true)(s, pos);
      StrictUnit(s, pos, x);
      assert |c.write(x.ch)| <= 4;
      cs, end, result := StrictFrom(c, s, pos + x.len, room - |c.write(x.ch)|);
      DoesMore(c, s, pos, room, x.ch, pos + x.len, room - |c.write(x.ch)|, cs, end, result);
      cs := [x.ch] + cs;
    } else {
      cs, end := [], pos;
      result := if pos == |s| then ConversionOK else Read16(true)(s, pos).result;
    }
  }

  /** A strict conversion from UTF-16 consumes the longest well-formed beginning and writes its characters. It stops
      at an unpaired surrogate, or at a high one that is the last of all. */
  lemma Exact16(c: Conversion, s: seq<nat>, pos: nat, room: nat) returns (cs: seq<nat>, end: nat)
    requires c.read == Read16(true) && ShortPieces(c) && pos <= |s| && 4 * (|s| - pos) <= room && Units16(s)
    ensures AllScalar(cs) && pos <= end <= |s| && s[pos..end] == Text(Encode16, cs)
    ensures end < |s| ==> 0xD800 <= s[end] <= 0xDFFF
    ensures end + 1 < |s| && s[end] <= 0xDBFF ==> !(0xDC00 <= s[end + 1] <= 0xDFFF)
    ensures Run(c, s, pos, room, ConversionOK) == Outcome(
      if end == |s| then ConversionOK
      else if s[end] <= 0xDBFF && end + 1 == |s| then SourceExhausted else SourceIllegal,
      end, Text(c.write, cs))
  {
    var result;
    cs, end, result := StrictFrom(c, s, pos, room);
  }

  lemma StrictUnit(s: seq<nat>, pos: nat, x: Step)
    requires pos < |s| && Units16(s) && x == Read16(true)(s, pos) && x.Char?
    ensures Scalar(x.ch) && !x.bad && 0 < x.len && pos + x.len <= |s| && s[pos..pos + x.len] == Encode16(x.ch)
  {
    if HighSurrogate(s[pos]) { PairIs(s[pos], s[pos + 1]); }
  }

  /** A surrogate pair written as two characters. */
  predicate Torn(cs: seq<nat>) {
    exists i :: 0 <= i < |cs| - 1 && 0xD800 <= cs[i] <= 0xDBFF && 0xDC00 <= cs[i + 1] <= 0xDFFF
  }

  lemma {:induction false} LenientFrom(c: Conversion, s: seq<nat>, pos: nat, room: nat)
    returns (cs: seq<nat>, end: nat, result: Result)
    requires c.read == Read16(false) && true == ShortPieces(c) && pos <= |s| && 4 * (|s| - pos) <= room
    requires true == Units16(s)
    ensures false == Torn(cs) && true == Within(cs) && true == Does(c, s, pos, room, cs, end, result)
    ensures end < |s| ==> end == |s| - 1 && 0xD800 <= s[end] <= 0xDBFF
    ensures result == if end == |s| then ConversionOK else SourceExhausted
    decreases |s| - pos
  {
    if pos < |s| && Read16(false)(s, pos).Char? {
      var x := Read16(false)(s, pos);
      LenientUnit(s, pos, x);
      assert |c.write(x.ch)| <= 4;
      cs, end, result := LenientFrom(c, s, pos + x.len, room - |c.write(x.ch)|);
      DoesMore(c, s, pos, room, x.ch, pos + x.len, room - |c.write(x.ch)|, cs, end, result);
      NotTorn(s, pos, end, x, cs);
      cs := [x.ch] + cs;
    } else {
      cs, end := [], pos;
      result := if pos == |s| then ConversionOK else SourceExhausted;
    }
  }

  predicate Within(cs: seq<nat>) { forall i :: 0 <= i < |cs| ==> cs[i] <= 0x10FFFF }

  /** A lenient conversion passes unpaired surrogates on as they are, tears no pair, and stops only at the end or at a
      high surrogate that is the last of all. */
  lemma Lenient16(c: Conversion, s: seq<nat>, pos: nat, room: nat) returns (cs: seq<nat>, end: nat)
    requires c.read == Read16(false) && ShortPieces(c) && pos <= |s| && 4 * (|s| - pos) <= room && Units16(s)
    ensures pos <= end <= |s| && s[pos..end] == Text(Encode16, cs) && !Torn(cs)
    ensures forall i :: 0 <= i < |cs| ==> cs[i] <= 0x10FFFF
    ensures end < |s| ==> end == |s| - 1 && 0xD800 <= s[end] <= 0xDBFF
    ensures Run(c, s, pos, room, ConversionOK)
      == Outcome(if end == |s| then ConversionOK else SourceExhausted, end, Text(c.write, cs))
  {
    var result;
    cs, end, result := LenientFrom(c, s, pos, room);
  }

  lemma LenientUnit(s: seq<nat>, pos: nat, x: Step)
    requires pos < |s| && Units16(s) && x == Read16(false)(s, pos) && x.Char?
    ensures x.ch <= 0x10FFFF && !x.bad && 0 < x.len && pos + x.len <= |s| && s[pos..pos + x.len] == Encode16(x.ch)
    ensures HighSurrogate(x.ch) ==> x.len == 1 && pos + 1 < |s| && !LowSurrogate(s[pos + 1])
  {
    if HighSurrogate(s[pos]) && LowSurrogate(s[pos + 1]) { PairIs(s[pos], s[pos + 1]); }
  }

  lemma NotTorn(s: seq<nat>, pos: nat, end: nat, x: Step, cs: seq<nat>)
    requires x.Char? && pos + x.len <= end <= |s| && s[pos + x.len..end] == Text(Encode16, cs) && !Torn(cs)
    requires HighSurrogate(x.ch) ==> x.len == 1 && pos + 1 < |s| && !LowSurrogate(s[pos + 1])
    ensures false == Torn([x.ch] + cs)
  {
    var all := [x.ch] + cs;
    if cs != [] && HighSurrogate(x.ch) {
      var text := s[pos + 1..end];
      assert text == Encode16(cs[0]) + Text(Encode16, cs[1..]);
      assert text[0] == s[pos + 1] && text[0] == Encode16(cs[0])[0];
      assert !LowSurrogate(cs[0]);
    }
    forall i | 0 <= i < |all| - 1 ensures !(0xD800 <= all[i] <= 0xDBFF && 0xDC00 <= all[i + 1] <= 0xDFFF) {
      if i > 0 { assert all[i] == cs[i - 1] && all[i + 1] == cs[i]; }
    }
  }

  /** Values above the range are replaced. */
  function Replaced(t: seq<nat>): (r: seq<nat>)
    ensures |r| == |t| && forall i :: 0 <= i < |t| ==> r[i] == if t[i] > 0x10FFFF then 0xFFFD else t[i]
  {
    seq(|t|, i requires 0 <= i < |t| => if t[i] > 0x10FFFF then 0xFFFD else t[i])
  }

  predicate TooLarge(t: seq<nat>) { exists i :: 0 <= i < |t| && t[i] > 0x10FFFF }

  /** A conversion from UTF-32 goes on to the end, or if strict to the first surrogate. Values above the range are
      replaced and reported. */
  lemma {:induction false} Exact32(strict: bool, c: Conversion, s: seq<nat>, pos: nat, room: nat, sofar: Result)
    returns (end: nat)
    requires c.read == Read32(strict) && ShortPieces(c) && pos <= |s| && 4 * (|s| - pos) <= room
    requires sofar == ConversionOK || sofar == SourceIllegal
    ensures pos <= end <= |s| && forall i :: pos <= i < end ==> !(strict && 0xD800 <= s[i] <= 0xDFFF)
    ensures end < |s| ==> strict && 0xD800 <= s[end] <= 0xDFFF
    ensures Run(c, s, pos, room, sofar) == Outcome(
      if end < |s| || TooLarge(s[pos..end]) then SourceIllegal else sofar, end, Text(c.write, Replaced(s[pos..end])))
    decreases |s| - pos
  {
    end := pos;
    if pos < |s| && !(strict && 0xD800 <= s[pos] <= 0xDFFF) {
      var bad := s[pos] > 0x10FFFF;
      var ch, next := if bad then 0xFFFD else s[pos], if bad then SourceIllegal else sofar;
      assert c.read(s, pos) == Char(ch, 1, bad) && |c.write(ch)| <= 4;
      var left := room - |c.write(ch)|;
      end := Exact32(strict, c, s, pos + 1, left, next);
      RunStep(c, s, pos, room, left, sofar, pos + 1, c.write(ch));
      MoreReplaced(s, pos, end, ch, bad);
      FirstText(c.write, ch, Replaced(s[pos + 1..end]));
    } else {
      assert Replaced(s[pos..pos]) == [];
    }
  }

  lemma MoreReplaced(s: seq<nat>, pos: nat, end: nat, ch: nat, bad: bool)
    requires pos < end <= |s| && bad == (s[pos] > 0x10FFFF) && ch == if bad then 0xFFFD else s[pos]
    ensures Replaced(s[pos..end]) == [ch] + Replaced(s[pos + 1..end])
    ensures TooLarge(s[pos..end]) <==> bad || TooLarge(s[pos + 1..end])
  {
    var a, b := s[pos..end], s[pos + 1..end];
    assert a == [s[pos]] + b;
    assert Replaced(a) == [ch] + Replaced(b);
    LargeFirst(s[pos], b, a);
  }

  lemma LargeFirst(x: nat, b: seq<nat>, a: seq<nat>)
    requires a == [x] + b
    ensures TooLarge(a) <==> x > 0x10FFFF || TooLarge(b)
  {
    if TooLarge(b) {
      var i :| 0 <= i < |b| && b[i] > 0x10FFFF;
      assert a[i + 1] > 0x10FFFF;
    }
    if x > 0x10FFFF { assert a[0] > 0x10FFFF; }
  }
}
