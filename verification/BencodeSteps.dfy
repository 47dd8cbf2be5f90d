/** The steps of the lazy decoder. Its stack points to entries in the arrays of the entries below; here each
    frame holds the entry it points to, and how often the array around it had been moved when the pointer was
    taken. */
module BencodeSteps {
  import opened Bencode

  /** The last one is no error code: the decoder reads outside of the text. */
  datatype Error =
    | DepthExceeded | UnexpectedEof | ExpectedString | ExpectedColon | ExpectedValue | LimitExceeded | OutsideText

  datatype Frame = Frame(entry: Entry, moves: nat)

  /** The cursor may be before the text: a length that does not fit 64 bits can be negative. */
  datatype State = State(root: Entry, stack: seq<Frame>, pos: int, items: int)

  datatype Outcome = Ok(st: State) | Failed(error: Error)

  const INIT_CAPACITY := 5
  const GROW_PERCENT := 150

  /** The first c at or after pos, or the end. */
  function FindChar(text: string, pos: nat, c: char): (i: nat)
    requires pos <= |text|
    ensures pos <= i <= |text| && (i < |text| ==> text[i] == c)
    decreases |text| - pos
  {
    if pos == |text| || text[pos] == c then pos else FindChar(text, pos + 1, c)
  }

  // ---------------------------------------------------------------- the stack

  function Top(st: State): Entry
    requires st.stack != []
  {
    st.stack[|st.stack| - 1].entry
  }

  function SetTop(st: State, e: Entry): State
    requires st.stack != []
  {
    st.(stack := st.stack[|st.stack| - 1 := st.stack[|st.stack| - 1].(entry := e)])
  }

  /** A node with one more slot; a full array is moved to a larger one. */
  function Appended(e: Entry, name: nat): Entry
    requires e.Node?
  {
    var full := e.capacity > 0 && |e.slots| == e.capacity;
    e.(slots := e.slots + [Slot(name, NoEntry)],
       capacity := if e.capacity == 0 then INIT_CAPACITY else if full then e.capacity * GROW_PERCENT / 100
         else e.capacity,
       moves := if full then e.moves + 1 else e.moves)
  }

  /** Appends a slot to the node on top and points to it. */
  function Push(st: State, name: nat): State
    requires st.stack != [] && Top(st).Node?
  {
    var e := Appended(Top(st), name);
    var s := SetTop(st, e);
    s.(stack := s.stack + [Frame(NoEntry, e.moves)])
  }

  /** The last slot of a node gets its value. */
  function Filled(e: Entry, val: Entry): Entry {
    if e.Node? && e.slots != [] then e.(slots := e.slots[|e.slots| - 1 := e.slots[|e.slots| - 1].(val := val)]) else e
  }

  /** The entry on top is done. */
  function Pop(st: State): State
    requires st.stack != []
  {
    var n := |st.stack| - 1;
    if n == 0 then st.(root := Top(st), stack := [])
    else
      var f := st.stack[n - 1];
      st.(stack := st.stack[..n - 1] + [f.(entry := Filled(f.entry, Top(st)))])
  }

  /** An entry on the stack is empty, or a node whose array is not overfull. */
  predicate Sound(e: Entry) {
    e.NoEntry? || (e.Node? && |e.slots| <= e.capacity && (e.capacity == 0 || e.capacity >= INIT_CAPACITY))
  }

  /** The frame points to the last slot of the node's array, which has not been moved since. */
  predicate PointsInto(e: Entry, f: Frame) { e.Node? && e.slots != [] && f.moves == e.moves }

  /** Every pointer on the stack is good. */
  predicate Safe(st: State) { Good(st.stack) }

  predicate Good(stack: seq<Frame>) {
    && (forall k :: 0 <= k < |stack| ==> Sound(stack[k].entry))
    && (forall k :: 0 < k < |stack| ==> PointsInto(stack[k - 1].entry, stack[k]))
  }

  // ---------------------------------------------------------------- steps

  /** The value that starts at the current position, for the empty entry on top. */
  function BeginValue(text: string, st: State): Outcome
    requires st.stack != [] && 0 <= st.pos < |text|
  {
    var t, s := text[st.pos], st.(pos := st.pos + 1, items := st.items - 1);
    if s.items <= 0 then Failed(LimitExceeded)
    else if t == 'd' || t == 'l' then Ok(SetTop(s, Node(t == 'd', st.pos, [], 0, 0, 0)))
    else if t == 'i' then IntFrom(text, s)
    else if !IsDigit(t) then Failed(ExpectedValue)
    else StrFrom(text, s, t)
  }

  /** The integer behind the 'i'. */
  function IntFrom(text: string, s: State): Outcome
    requires s.stack != [] && 0 <= s.pos <= |text|
  {
    var q := FindChar(text, s.pos, 'e');
    if q == |text| then Failed(UnexpectedEof) else Ok(Pop(SetTop(s.(pos := q + 1), IntEntry(s.pos, q - s.pos))))
  }

  /** The string behind the first digit of its length. */
  function StrFrom(text: string, s: State, t: char): Outcome
    requires s.stack != [] && 0 <= s.pos <= |text| && IsDigit(t)
  {
    var r := ParseInt(text, s.pos, |text|, ':', Digit(t));
    if r.NoNum? || r.pos + r.val + 1 > |text| then Failed(ExpectedColon)
    else if r.pos == |text| then Failed(OutsideText)
    else Ok(Pop(SetTop(s.(pos := r.pos + 1 + r.val), StrEntry(r.pos + 1, r.val % TWO_32))))
  }

  /** The end of the list or dictionary on top. */
  function Close(st: State): State
    requires st.stack != [] && Top(st).Node? && st.pos >= 0
  {
    var p := st.pos + 1;
    Pop(SetTop(st.(pos := p), Top(st).(extent := if p > Top(st).begin then p - Top(st).begin else 0)))
  }

  /** Makes a slot for the next item of the list or dictionary on top, reading its key if it has one. */
  function Enter(text: string, st: State): Outcome
    requires st.stack != [] && Top(st).Node? && 0 <= st.pos < |text|
  {
    var t := text[st.pos];
    if !Top(st).dict then Ok(Push(st, 0))
    else if !IsDigit(t) then Failed(ExpectedString)
    else
      var r := ParseInt(text, st.pos + 1, |text|, ':', Digit(t));
      if r.NoNum? || r.pos + r.val + 3 > |text| then Failed(ExpectedColon)
      else if r.pos == |text| then Failed(OutsideText)
      else if r.pos + 1 == |text| then Failed(UnexpectedEof)
      else Ok(Push(st, r.pos + 1).(pos := r.pos + 1 + r.val))
  }

  /** One round of the loop. */
  function Step(text: string, st: State, depthLimit: int): Outcome
    requires st.stack != [] && 0 <= st.pos < |text|
  {
    var t := text[st.pos];
    if |st.stack| > depthLimit then Failed(DepthExceeded)
    else if st.pos + 1 >= |text| && t != 'e' then Failed(UnexpectedEof)
    else if !Top(st).Node? then BeginValue(text, st)
    else if t == 'e' then Ok(Close(st))
    else
      match Enter(text, st)
      case Failed(e) => Failed(e)
      case Ok(s) =>
        if s.pos >= |text| then Failed(UnexpectedEof) else if s.pos < 0 then Failed(OutsideText)
          else BeginValue(text, s)
  }

  /** Every value counts, even if the cursor goes back. */
  lemma StepCounts(text: string, st: State, depthLimit: int)
    requires st.stack != [] && 0 <= st.pos < |text|
    ensures var r := Step(text, st, depthLimit);
      r.Ok? ==> 0 < r.st.items < st.items || (r.st.items == st.items && r.st.pos == st.pos + 1)
  {}

  /** Runs until the stack is empty or the text is used up. */
  function Run(text: string, st: State, depthLimit: int): Outcome
    decreases if st.items > 0 then st.items else 0, |text| - st.pos
  {
    if st.pos >= |text| || st.stack == [] then Ok(st)
    else if st.pos < 0 then Failed(OutsideText)
    else
      StepCounts(text, st, depthLimit);
      match Step(text, st, depthLimit)
      case Failed(e) => Failed(e)
      case Ok(next) => Run(text, next, depthLimit)
  }

  function Start(items: int): State { State(NoEntry, [Frame(NoEntry, 0)], 0, items) }

  // ---------------------------------------------------------------- safety

  lemma AppendedSound(e: Entry, name: nat)
    requires e.Node? && Sound(e)
    ensures Sound(Appended(e, name)) && Appended(e, name).slots != []
  {}

  lemma PushSafe(st: State, name: nat)
    requires st.stack != [] && Top(st).Node? && Safe(st)
    ensures Safe(Push(st, name)) && Top(Push(st, name)) == NoEntry && Push(st, name).stack != []
  {
    var s, n := Push(st, name), |st.stack|;
    AppendedSound(Top(st), name);
    assert forall k :: 0 <= k < n - 1 ==> s.stack[k] == st.stack[k];
    if n > 1 { assert PointsInto(st.stack[n - 2].entry, st.stack[n - 1]); }
  }

  /** Whatever a finished entry is, the stack below it is good. */
  lemma PopSafe(st: State, e: Entry)
    requires st.stack != [] && Safe(st)
    ensures Safe(Pop(SetTop(st, e)))
  {
    var n := |st.stack| - 1;
    if n > 0 {
      assert PointsInto(st.stack[n - 1].entry, st.stack[n]);
      assert Sound(st.stack[n - 1].entry);
      if n > 1 { assert PointsInto(st.stack[n - 2].entry, st.stack[n - 1]); }
    }
  }

  lemma NodeSafe(st: State, e: Entry)
    requires st.stack != [] && Safe(st) && Sound(e)
    ensures Safe(SetTop(st, e))
  {
    var n := |st.stack| - 1;
    if n > 0 { assert PointsInto(st.stack[n - 1].entry, st.stack[n]); }
    assert forall k :: 0 < k < n ==> PointsInto(st.stack[k - 1].entry, st.stack[k]);
  }

  /** The cursor and the count do not matter. */
  lemma SafeAt(st: State, pos: int, items: int)
    requires Safe(st)
    ensures Safe(st.(pos := pos, items := items))
  {}

  lemma BeginSafe(text: string, st: State)
    requires st.stack != [] && 0 <= st.pos < |text| && Safe(st)
    ensures BeginValue(text, st).Ok? ==> true == Safe(BeginValue(text, st).st)
  {
    var r := BeginValue(text, st);
    if r.Ok? {
      var t, p := text[st.pos], st.pos + 1;
      var s := st.(pos := r.st.pos, items := st.items - 1);
      SafeAt(st, s.pos, s.items);
      if t == 'd' || t == 'l' {
        NodeSafe(s, Node(t == 'd', st.pos, [], 0, 0, 0));
      } else if t == 'i' {
        PopSafe(s, IntEntry(p, FindChar(text, p, 'e') - p));
      } else {
        var x := ParseInt(text, p, |text|, ':', Digit(t));
        PopSafe(s, StrEntry(x.pos + 1, x.val % TWO_32));
      }
    }
  }

  lemma EnterSafe(text: string, st: State)
    requires st.stack != [] && Top(st).Node? && 0 <= st.pos < |text| && Safe(st)
    ensures Enter(text, st).Ok? ==> true == Safe(Enter(text, st).st) && Enter(text, st).st.stack != []
  {
    var r := Enter(text, st);
    if r.Ok? {
      PushSafe(st, if Top(st).dict then ParseInt(text, st.pos + 1, |text|, ':', Digit(text[st.pos])).pos + 1 else 0);
    }
  }

  /** On any text, no step moves an array that the stack points into. */
  lemma StepSafe(text: string, st: State, depthLimit: int)
    requires st.stack != [] && 0 <= st.pos < |text| && Safe(st)
    ensures Step(text, st, depthLimit).Ok? ==> true == Safe(Step(text, st, depthLimit).st)
  {
    if !Top(st).Node? {
      BeginSafe(text, st);
    } else if text[st.pos] == 'e' {
      var p := st.pos + 1;
      PopSafe(st.(pos := p), Top(st).(extent := if p > Top(st).begin then p - Top(st).begin else 0));
    } else {
      EnterSafe(text, st);
      var r := Enter(text, st);
      if r.Ok? && 0 <= r.st.pos < |text| { BeginSafe(text, r.st); }
    }
  }

  /** The decoder comes to state t, n steps from st: between two steps, or within one that has made a slot for the
      value it goes on to decode. */
  ghost predicate Visits(text: string, st: State, depthLimit: int, n: nat, t: State)
    decreases n
  {
    if n == 0 then t == st || Enters(text, st, depthLimit, t)
    else
      && Running(text, st) && Step(text, st, depthLimit).Ok?
      && Visits(text, Step(text, st, depthLimit).st, depthLimit, n - 1, t)
  }

  predicate Running(text: string, st: State) { st.stack != [] && 0 <= st.pos < |text| }

  predicate Enters(text: string, st: State, depthLimit: int, t: State) {
    && Running(text, st) && |st.stack| <= depthLimit && st.pos + 1 < |text|
    && Top(st).Node? && text[st.pos] != 'e' && Enter(text, st) == Ok(t)
  }

  /** On any text, wherever the decoder comes to, all pointers on its stack are good. */
  lemma {:induction false} AlwaysSafe(text: string, st: State, depthLimit: int, n: nat, t: State)
    requires true == Safe(st) && Visits(text, st, depthLimit, n, t)
    ensures true == Safe(t)
    decreases n
  {
    if n > 0 {
      StepSafe(text, st, depthLimit);
      var s := Step(text, st, depthLimit).st;
      assert true == Safe(s);
      AlwaysSafe(text, s, depthLimit, n - 1, t);
    } else if t != st {
      EnterSafe(text, st);
    }
  }

  /** A run that does not fail comes to its last state. */
  lemma {:induction false} RunVisits(text: string, st: State, depthLimit: int) returns (n: nat)
    requires Run(text, st, depthLimit).Ok?
    ensures Visits(text, st, depthLimit, n, Run(text, st, depthLimit).st)
    decreases if st.items > 0 then st.items else 0, |text| - st.pos
  {
    n := 0;
    if Running(text, st) {
      StepCounts(text, st, depthLimit);
      var m := RunVisits(text, Step(text, st, depthLimit).st, depthLimit);
      n := m + 1;
    }
  }
}
