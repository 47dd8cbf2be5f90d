/** Conversions between UTF encodings as runs over the source, character by character, into a target of
    limited room. */
module UtfRuns {
  import opened UtfCodes

  datatype Result = ConversionOK | SourceExhausted | TargetExhausted | SourceIllegal

  /** What is found at a position: a reason to stop, or a character and its length in code units. A bad
      character has been replaced. */
  datatype Step = Stop(result: Result) | Char(ch: nat, len: nat, bad: bool)

  datatype Outcome = Outcome(result: Result, pos: nat, out: seq<nat>)

  datatype Conversion = Conversion(read: (seq<nat>, nat) -> Step, write: nat -> seq<nat>)

  // ---------------------------------------------------------------- readers

  /** UTF-8: the first byte gives the length, and the sequence must pass the test. */
  function Read8(s: seq<nat>, pos: nat): Step {
    if pos >= |s| then Stop(ConversionOK) else
    var n := Trailing(s[pos]);
    if pos + n >= |s| then Stop(SourceExhausted)
    else if !Legal(s[pos..pos + n + 1]) then Stop(SourceIllegal)
    else LegalValue(s[pos..pos + n + 1]); Char(Value(s[pos..pos + n + 1]), n + 1, false)
  }

  /** UTF-16: a high surrogate must be followed by a low one; unpaired ones pass only if not strict. */
  function Read16(strict: bool): (seq<nat>, nat) -> Step {
    (s: seq<nat>, pos: nat) =>
      if pos >= |s| then Stop(ConversionOK)
      else if HighSurrogate(s[pos]) then
        if pos + 1 == |s| then Stop(SourceExhausted)
        else if LowSurrogate(s[pos + 1]) then Char(Pair(s[pos], s[pos + 1]), 2, false)
        else if strict then Stop(SourceIllegal) else Char(s[pos], 1, false)
      else if strict && LowSurrogate(s[pos]) then Stop(SourceIllegal)
      else Char(s[pos], 1, false)
  }

  /** UTF-32: surrogates are illegal if strict; what is too large is replaced. */
  function Read32(strict: bool): (seq<nat>, nat) -> Step {
    (s: seq<nat>, pos: nat) =>
      if pos >= |s| then Stop(ConversionOK)
      else if strict && 0xD800 <= s[pos] <= 0xDFFF then Stop(SourceIllegal)
      else if s[pos] > 0x10FFFF then Char(0xFFFD, 1, true)
      else Char(s[pos], 1, false)
  }

  // ---------------------------------------------------------------- runs

  /** Reads from pos on and writes as long as there is room. */
  function Run(c: Conversion, s: seq<nat>, pos: nat, room: nat, sofar: Result): Outcome
    decreases |s| - pos
  {
    if pos >= |s| then Outcome(sofar, pos, []) else
    match c.read(s, pos)
    case Stop(r) => Outcome(r, pos, [])
    case Char(ch, len, bad) =>
      if |c.write(ch)| > room then Outcome(TargetExhausted, pos, [])
      else if len == 0 then Outcome(SourceIllegal, pos, [])
      else
        var rest := Run(c, s, pos + len, room - |c.write(ch)|, if bad then SourceIllegal else sofar);
        rest.(out := c.write(ch) + rest.out)
  }

  lemma {:induction false} RunAdvances(c: Conversion, s: seq<nat>, pos: nat, room: nat, sofar: Result)
    ensures pos <= Run(c, s, pos, room, sofar).pos
    decreases |s| - pos
  {
    if pos < |s| && c.read(s, pos).Char? && c.read(s, pos).len > 0 && |c.write(c.read(s, pos).ch)| <= room {
      var x := c.read(s, pos);
      RunAdvances(c, s, pos + x.len, room - |c.write(x.ch)|, if x.bad then SourceIllegal else sofar);
    }
  }

  /** What was found wrong before only shows in the result if nothing else does. */
  lemma {:induction false} SofarOnly(c: Conversion, s: seq<nat>, pos: nat, room: nat)
    ensures var a, b := Run(c, s, pos, room, ConversionOK), Run(c, s, pos, room, SourceIllegal);
      a.pos == b.pos && a.out == b.out
        && (a.result == b.result || (a.result == ConversionOK && b.result == SourceIllegal))
    decreases |s| - pos
  {
    if pos < |s| && c.read(s, pos).Char? && c.read(s, pos).len > 0 && |c.write(c.read(s, pos).ch)| <= room {
      var x := c.read(s, pos);
      SofarOnly(c, s, pos + x.len, room - |c.write(x.ch)|);
    }
  }

  /** Two runs, one going on where the other stopped, together do what one does. */
  predicate Joins(a: Outcome, b: Outcome, all: Outcome) {
    && all.out == a.out + b.out && all.pos == b.pos
    && (all.result == b.result || (b.result == ConversionOK && all.result == SourceIllegal))
  }

  /** Going on with a fresh target after the first was full gives the same as one target with the room of both. */
  lemma Resume(c: Conversion, s: seq<nat>, pos: nat, room: nat, more: nat)
    requires Run(c, s, pos, room, ConversionOK).result == TargetExhausted
    ensures var a := Run(c, s, pos, room, ConversionOK);
      Joins(a, Run(c, s, a.pos, more, ConversionOK), Run(c, s, pos, |a.out| + more, ConversionOK))
  {
    var a := Run(c, s, pos, room, ConversionOK);
    ResumeFrom(c, s, pos, room, more, ConversionOK, a, Run(c, s, a.pos, more, ConversionOK),
      Run(c, s, pos, |a.out| + more, ConversionOK));
  }

  lemma {:induction false} ResumeFrom(c: Conversion, s: seq<nat>, pos: nat, room: nat, more: nat, sofar: Result,
    a: Outcome, b: Outcome, all: Outcome)
    requires a == Run(c, s, pos, room, sofar) && b == Run(c, s, a.pos, more, ConversionOK)
    requires all == Run(c, s, pos, |a.out| + more, sofar)
    requires a.result == TargetExhausted && (sofar == ConversionOK || sofar == SourceIllegal)
    ensures true == Joins(a, b, all)
    decreases |s| - pos
  {
    var x := c.read(s, pos);
    if x.Char? && x.len > 0 && |c.write(x.ch)| <= room {
      var piece, next := c.write(x.ch), if x.bad then SourceIllegal else sofar;
      var rest := Run(c, s, pos + x.len, room - |piece|, next);
      var restAll := Run(c, s, pos + x.len, |rest.out| + more, next);
      RunStep(c, s, pos, room, room - |piece|, sofar, pos + x.len, piece);
      assert a == rest.(out := piece + rest.out);
      RunStep(c, s, pos, |a.out| + more, |rest.out| + more, sofar, pos + x.len, piece);
      ResumeFrom(c, s, pos + x.len, room - |piece|, more, next, rest, b, restAll);
      JoinsBehind(piece, rest, b, restAll);
    } else {
      ResumeHere(c, s, pos, room, more, sofar, a, b, all);
    }
  }

  /** The target was full before anything was written. */
  lemma ResumeHere(c: Conversion, s: seq<nat>, pos: nat, room: nat, more: nat, sofar: Result,
    a: Outcome, b: Outcome, all: Outcome)
    requires a == Outcome(TargetExhausted, pos, []) && b == Run(c, s, pos, more, ConversionOK)
    requires all == Run(c, s, pos, more, sofar) && (sofar == ConversionOK || sofar == SourceIllegal)
    ensures true == Joins(a, b, all)
  {
    SofarOnly(c, s, pos, more);
  }

  lemma JoinsBehind(piece: seq<nat>, a: Outcome, b: Outcome, all: Outcome)
    requires Joins(a, b, all)
    ensures true == Joins(a.(out := piece + a.out), b, all.(out := piece + all.out))
  {
    Assoc(piece, a.out, b.out);
  }

  lemma Assoc(a: seq<nat>, b: seq<nat>, d: seq<nat>)
    ensures a + (b + d) == a + b + d
  {}

  /** One character that fits. */
  lemma RunStep(c: Conversion, s: seq<nat>, pos: nat, room: nat, left: nat, sofar: Result, next: nat, piece: seq<nat>)
    requires pos < |s| && c.read(s, pos).Char? && c.read(s, pos).len > 0
    requires piece == c.write(c.read(s, pos).ch) && room == |piece| + left && next == pos + c.read(s, pos).len
    ensures var rest := Run(c, s, next, left, if c.read(s, pos).bad then SourceIllegal else sofar);
      Run(c, s, pos, room, sofar) == rest.(out := piece + rest.out)
  {}

  // ---------------------------------------------------------------- well-formed text

  /** The characters of a text, each encoded. */
  function Text(write: nat -> seq<nat>, cs: seq<nat>): seq<nat> {
    if cs == [] then [] else write(cs[0]) + Text(write, cs[1..])
  }

  predicate AllScalar(cs: seq<nat>) { forall i :: 0 <= i < |cs| ==> Scalar(cs[i]) }

  /** The reader of a conversion reads back what the encoding writes. */
  ghost predicate ReadsBack(c: Conversion, encode: nat -> seq<nat>) {
    forall s: seq<nat>, pos: nat, ch: nat {:trigger c.read(s, pos), encode(ch)} ::
      Scalar(ch) && |encode(ch)| > 0 && pos + |encode(ch)| <= |s| && s[pos..pos + |encode(ch)|] == encode(ch)
      ==> c.read(s, pos) == Char(ch, |encode(ch)|, false)
  }

  ghost predicate NeverEmpty(encode: nat -> seq<nat>) { forall ch: nat :: |encode(ch)| > 0 }

  /** Well-formed text is converted character by character, to the end. */
  lemma {:induction false} TextConverted(c: Conversion, encode: nat -> seq<nat>, s: seq<nat>, pos: nat, cs: seq<nat>,
    room: nat, sofar: Result)
    requires true == ReadsBack(c, encode) && true == NeverEmpty(encode) && true == AllScalar(cs)
    requires pos <= |s| && s[pos..] == Text(encode, cs) && |Text(c.write, cs)| <= room
    ensures Run(c, s, pos, room, sofar) == Outcome(sofar, |s|, Text(c.write, cs))
    decreases |cs|
  {
    if cs != [] {
      var next := pos + |encode(cs[0])|;
      ReadFirst(c, encode, s, pos, cs[0], Text(encode, cs[1..]));
      var left := room - |c.write(cs[0])|;
      TextConverted(c, encode, s, next, cs[1..], left, sofar);
      FirstConverted(c, s, pos, room, left, sofar, next, c.write(cs[0]), Text(c.write, cs[1..]));
    }
  }

  lemma FirstConverted(c: Conversion, s: seq<nat>, pos: nat, room: nat, left: nat, sofar: Result, next: nat,
    piece: seq<nat>, rest: seq<nat>)
    requires pos < next <= |s| && c.read(s, pos).Char? && !c.read(s, pos).bad && next == pos + c.read(s, pos).len
    requires piece == c.write(c.read(s, pos).ch) && room == |piece| + left
    requires Run(c, s, next, left, sofar) == Outcome(sofar, |s|, rest)
    ensures Run(c, s, pos, room, sofar) == Outcome(sofar, |s|, piece + rest)
  {
    RunStep(c, s, pos, room, left, sofar, next, piece);
  }

  lemma ReadFirst(c: Conversion, encode: nat -> seq<nat>, s: seq<nat>, pos: nat, ch: nat, rest: seq<nat>)
    requires true == ReadsBack(c, encode) && true == NeverEmpty(encode) && Scalar(ch)
    requires pos <= |s| && s[pos..] == encode(ch) + rest
    ensures pos < pos + |encode(ch)| <= |s| && s[pos + |encode(ch)|..] == rest
    ensures c.read(s, pos) == Char(ch, |encode(ch)|, false)
  {
    Front(s, pos, encode(ch), rest);
  }

  lemma Front(s: seq<nat>, pos: nat, piece: seq<nat>, rest: seq<nat>)
    requires pos <= |s| && s[pos..] == piece + rest
    ensures pos + |piece| <= |s| && s[pos..pos + |piece|] == piece && s[pos + |piece|..] == rest
  {
    assert s[pos..][..|piece|] == piece && s[pos..][|piece|..] == rest;
  }

  lemma Read8ReadsBack(write: nat -> seq<nat>)
    ensures ReadsBack(Conversion(Read8, write), Encode8) && NeverEmpty(Encode8)
  {
    forall s: seq<nat>, pos: nat, ch: nat | Scalar(ch) && pos + |Encode8(ch)| <= |s|
      && s[pos..pos + |Encode8(ch)|] == Encode8(ch)
      ensures Read8(s, pos) == Char(ch, |Encode8(ch)|, false)
    {
      Encode8RoundTrip(ch);
      assert s[pos] == Encode8(ch)[0];
      LegalIff(Encode8(ch));
    }
  }

  lemma Read16ReadsBack(strict: bool, write: nat -> seq<nat>)
    ensures ReadsBack(Conversion(Read16(strict), write), Encode16) && NeverEmpty(Encode16)
  {
    var read := Read16(strict);
    forall s: seq<nat>, pos: nat, ch: nat | Scalar(ch) && pos + |Encode16(ch)| <= |s|
      && s[pos..pos + |Encode16(ch)|] == Encode16(ch)
      ensures read(s, pos) == Char(ch, |Encode16(ch)|, false)
    {
      Encode16RoundTrip(ch);
      assert s[pos] == Encode16(ch)[0];
      if ch > 0xFFFF { assert s[pos + 1] == Encode16(ch)[1]; }
    }
  }

  lemma Read32ReadsBack(strict: bool, write: nat -> seq<nat>)
    ensures ReadsBack(Conversion(Read32(strict), write), Encode32) && NeverEmpty(Encode32)
  {
    var read := Read32(strict);
    forall s: seq<nat>, pos: nat, ch: nat | Scalar(ch) && pos + |Encode32(ch)| <= |s|
      && s[pos..pos + |Encode32(ch)|] == Encode32(ch)
      ensures read(s, pos) == Char(ch, |Encode32(ch)|, false)
    {
      assert s[pos] == Encode32(ch)[0];
    }
  }

  // ---------------------------------------------------------------- round trips

  const From8To16: Conversion := Conversion(Read8, Encode16)
  const From8To32: Conversion := Conversion(Read8, Encode32)
  const From16To8: Conversion := Conversion(Read16(true), Encode8)
  const From32To8: Conversion := Conversion(Read32(true), Encode8)

  /** Well-formed UTF-8 goes to UTF-16 and back unchanged. */
  lemma RoundTrip16(cs: seq<nat>, room: nat, room': nat)
    requires AllScalar(cs) && |Text(Encode16, cs)| <= room && |Text(Encode8, cs)| <= room'
    ensures var s := Text(Encode8, cs);
      var a := Run(From8To16, s, 0, room, ConversionOK);
      var b := Run(From16To8, a.out, 0, room', ConversionOK);
      && a.result == ConversionOK && a.pos == |s| && a.out == Text(Encode16, cs)
      && b.result == ConversionOK && b.pos == |a.out| && b.out == s
  {
    var s, t := Text(Encode8, cs), Text(Encode16, cs);
    Read8ReadsBack(Encode16);
    Read16ReadsBack(true, Encode8);
    assert s[0..] == s && t[0..] == t;
    TextConverted(From8To16, Encode8, s, 0, cs, room, ConversionOK);
    TextConverted(From16To8, Encode16, t, 0, cs, room', ConversionOK);
  }

  /** And likewise to UTF-32. */
  lemma RoundTrip32(cs: seq<nat>, room: nat, room': nat)
    requires AllScalar(cs) && |Text(Encode32, cs)| <= room && |Text(Encode8, cs)| <= room'
    ensures var s := Text(Encode8, cs);
      var a := Run(From8To32, s, 0, room, ConversionOK);
      var b := Run(From32To8, a.out, 0, room', ConversionOK);
      && a.result == ConversionOK && a.pos == |s| && a.out == cs
      && b.result == ConversionOK && b.pos == |a.out| && b.out == s
  {
    var s, t := Text(Encode8, cs), Text(Encode32, cs);
    Read8ReadsBack(Encode32);
    Read32ReadsBack(true, Encode8);
    assert s[0..] == s && t[0..] == t;
    TextConverted(From8To32, Encode8, s, 0, cs, room, ConversionOK);
    TextConverted(From32To8, Encode32, t, 0, cs, room', ConversionOK);
    Text32(cs);
  }

  lemma {:induction false} Text32(cs: seq<nat>)
    ensures Text(Encode32, cs) == cs
  {
    if cs != [] { Text32(cs[1..]); }
  }

  // ---------------------------------------------------------------- ill-formed text

  /** A well-formed sequence starts at pos; it has the length that its first byte asks for. */
  predicate GoodAt(s: seq<nat>, pos: nat) {
    pos < |s| && pos + Trailing(s[pos]) < |s| && WellFormed(s[pos..pos + Trailing(s[pos]) + 1])
  }

  /** An overlooked sequence starts at pos. */
  predicate OverlookedAt(s: seq<nat>, pos: nat) {
    pos < |s| && pos + Trailing(s[pos]) < |s| && Overlooked(s[pos..pos + Trailing(s[pos]) + 1])
  }

  /** The characters from pos on, up to the first place where no well-formed sequence starts, and that place. */
  function Prefix(s: seq<nat>, pos: nat): (seq<nat>, nat)
    decreases |s| - pos
  {
    if !GoodAt(s, pos) then ([], pos) else
    var t := s[pos..pos + Trailing(s[pos]) + 1];
    Decode8RoundTrip(t);
    var (cs, end) := Prefix(s, pos + |t|);
    ([Value(t) as nat] + cs, end)
  }

  lemma TextStep(encode: nat -> seq<nat>, s: seq<nat>, pos: nat, mid: nat, end: nat, ch: nat, cs: seq<nat>)
    requires pos <= mid <= end <= |s| && s[pos..mid] == encode(ch) && s[mid..end] == Text(encode, cs)
    ensures s[pos..end] == Text(encode, [ch] + cs)
  {
    assert s[pos..end] == s[pos..mid] + s[mid..end];
    assert ([ch] + cs)[1..] == cs;
  }

  /** It is well-formed text, and no longer one starts at pos. */
  lemma {:induction false} PrefixIsText(s: seq<nat>, pos: nat)
    requires pos <= |s|
    ensures var (cs, end) := Prefix(s, pos);
      AllScalar(cs) && pos <= end <= |s| && s[pos..end] == Text(Encode8, cs)
    decreases |s| - pos
  {
    if GoodAt(s, pos) {
      var t := s[pos..pos + Trailing(s[pos]) + 1];
      Decode8RoundTrip(t);
      PrefixIsText(s, pos + |t|);
      var (cs, end) := Prefix(s, pos + |t|);
      TextStep(Encode8, s, pos, pos + |t|, end, Value(t) as nat, cs);
    }
  }

  lemma {:induction false} PrefixLongest(s: seq<nat>, pos: nat, cs: seq<nat>, rest: seq<nat>)
    requires pos <= |s| && AllScalar(cs) && s[pos..] == Text(Encode8, cs) + rest
    ensures pos + |Text(Encode8, cs)| <= Prefix(s, pos).1
    decreases |cs|
  {
    if cs == [] {
      PrefixIsText(s, pos);
    } else {
      var piece := Encode8(cs[0]);
      Encode8RoundTrip(cs[0]);
      assert s[pos..] == piece + (Text(Encode8, cs[1..]) + rest);
      Front(s, pos, piece, Text(Encode8, cs[1..]) + rest);
      assert s[pos] == piece[0];
      PrefixLongest(s, pos + |piece|, cs[1..], rest);
    }
  }

  /** What the converter finds in UTF-8 at pos. */
  lemma Read8Finds(s: seq<nat>, pos: nat)
    requires pos < |s|
    ensures GoodAt(s, pos) ==>
      && Read8(s, pos).Char? && !Read8(s, pos).bad && Read8(s, pos).len == Trailing(s[pos]) + 1
      && Read8(s, pos).ch == Value(s[pos..pos + Trailing(s[pos]) + 1])
    ensures !GoodAt(s, pos) ==> (Read8(s, pos).Char? <==> OverlookedAt(s, pos))
  {
    if pos + Trailing(s[pos]) < |s| { LegalIff(s[pos..pos + Trailing(s[pos]) + 1]); }
  }

  /** How a conversion that stops at `end` reports it: all is converted, the last sequence is cut short, or none that
      is legal stands there. */
  function StopsWith(s: seq<nat>, end: nat): Result {
    if end >= |s| then ConversionOK else if end + Trailing(s[end]) >= |s| then SourceExhausted else SourceIllegal
  }

  predicate Shows(c: Conversion, s: seq<nat>, pos: nat, room: nat, cs: seq<nat>, end: nat) {
    Run(c, s, pos, room, ConversionOK) == Outcome(StopsWith(s, end), end, Text(c.write, cs))
  }

  ghost predicate ShortPieces(c: Conversion) { forall ch: nat :: |c.write(ch)| <= 4 }

  /** With room enough, a conversion from UTF-8 consumes the longest well-formed prefix, writes exactly its
      characters and reports why it stops, if and only if no overlooked sequence follows it. */
  lemma {:induction false} Exact8(c: Conversion, s: seq<nat>, pos: nat, room: nat)
    requires c.read == Read8 && ShortPieces(c) && pos <= |s| && 4 * (|s| - pos) <= room
    ensures Shows(c, s, pos, room, Prefix(s, pos).0, Prefix(s, pos).1) <==> !OverlookedAt(s, Prefix(s, pos).1)
    decreases |s| - pos
  {
    if GoodAt(s, pos) {
      var ch, next := CharAt(s, pos), pos + Trailing(s[pos]) + 1;
      GoodRead(c, s, pos, ch, next);
      assert |c.write(ch)| <= 4;
      Exact8(c, s, next, room - |c.write(ch)|);
      ShowsStep(c, s, pos, room, ch, next);
    } else {
      BadRead(c, s, pos, room);
    }
  }

  function CharAt(s: seq<nat>, pos: nat): nat
    requires GoodAt(s, pos)
  {
    Decode8RoundTrip(s[pos..pos + Trailing(s[pos]) + 1]);
    Value(s[pos..pos + Trailing(s[pos]) + 1])
  }

  lemma GoodRead(c: Conversion, s: seq<nat>, pos: nat, ch: nat, next: nat)
    requires c.read == Read8 && GoodAt(s, pos) && ch == CharAt(s, pos) && next == pos + Trailing(s[pos]) + 1
    ensures next <= |s| && c.read(s, pos) == Char(ch, next - pos, false)
    ensures Prefix(s, pos) == ([ch] + Prefix(s, next).0, Prefix(s, next).1)
  {
    Read8Finds(s, pos);
  }

  lemma BadRead(c: Conversion, s: seq<nat>, pos: nat, room: nat)
    requires c.read == Read8 && ShortPieces(c) && !GoodAt(s, pos) && pos <= |s| && 4 * (|s| - pos) <= room
    ensures Prefix(s, pos) == ([], pos) && (Shows(c, s, pos, room, [], pos) <==> !OverlookedAt(s, pos))
  {
    if pos < |s| {
      Read8Finds(s, pos);
      if OverlookedAt(s, pos) {
        var x := c.read(s, pos);
        var left := room - |c.write(x.ch)|;
        RunStep(c, s, pos, room, left, ConversionOK, pos + x.len, c.write(x.ch));
        RunAdvances(c, s, pos + x.len, left, if x.bad then SourceIllegal else ConversionOK);
      }
    }
  }

  lemma ShowsStep(c: Conversion, s: seq<nat>, pos: nat, room: nat, ch: nat, next: nat)
    requires pos < next && pos < |s| && c.read(s, pos) == Char(ch, next - pos, false) && |c.write(ch)| <= room
    requires Prefix(s, pos) == ([ch] + Prefix(s, next).0, Prefix(s, next).1)
    ensures Shows(c, s, pos, room, Prefix(s, pos).0, Prefix(s, pos).1)
       <==> Shows(c, s, next, room - |c.write(ch)|, Prefix(s, next).0, Prefix(s, next).1)
  {
    var left := room - |c.write(ch)|;
    RunStep(c, s, pos, room, left, ConversionOK, next, c.write(ch));
    var cs := Prefix(s, next).0;
    assert ([ch] + cs)[1..] == cs;
    SamePiece(c.write(ch), Run(c, s, next, left, ConversionOK).out, Text(c.write, cs));
  }

  lemma SamePiece(p: seq<nat>, a: seq<nat>, b: seq<nat>)
    ensures p + a == p + b <==> a == b
  {
    if p + a == p + b { assert a == (p + a)[|p|..] && b == (p + b)[|p|..]; }
  }

  /** 0xED 0x41 0x80 is taken for the character U+C040, which is encoded otherwise. */
  lemma OverlookedExample(low: nat, last: nat)
    requires low < 0x80 && Trail(last)
    ensures var s := [0xED, low, last];
      Read8(s, 0).Char? && !WellFormed(s) && Encode8(Read8(s, 0).ch) != s
  {
    var s := [0xED, low, last];
    assert s[0..3] == s;
    LegalIff(s);
    LegalValue(s);
  }
}
