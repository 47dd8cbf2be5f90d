/** The lazy decoder: an explicit stack, a cursor, and entry arrays that grow. */
module LazyDecoder {
  import opened Bencode
  import opened BencodeSteps

  /** Reads digits up to a delimiter. */
  method ReadInt(text: string, start: nat, delimiter: char, first: int) returns (r: Num)
    requires start <= |text|
    ensures r == ParseInt(text, start, |text|, delimiter, first)
  {
    var pos: nat, val := start, first;
    while pos < |text| && text[pos] != delimiter
      invariant start <= pos <= |text| && ParseInt(text, start, |text|, delimiter, first)
        == ParseInt(text, pos, |text|, delimiter, val)
    {
      if !IsDigit(text[pos]) { return NoNum(val); }
      val := Wrap64(val * 10 + Digit(text[pos]));
      pos := pos + 1;
    }
    r := Num(pos, val);
  }

  method SeekChar(text: string, start: nat, c: char) returns (pos: nat)
    requires start <= |text|
    ensures pos == FindChar(text, start, c)
  {
    pos := start;
    while pos < |text| && text[pos] != c
      invariant start <= pos <= |text| && FindChar(text, start, c) == FindChar(text, pos, c)
    {
      pos := pos + 1;
    }
  }

  class Decoder {
    const text: string
    var root: Entry
    var stack: seq<Frame>
    var pos: int
    var items: int

    constructor (text: string, itemLimit: int)
      ensures this.text == text && Value() == Start(itemLimit)
    {
      this.text := text;
      root, stack, pos, items := NoEntry, [Frame(NoEntry, 0)], 0, itemLimit;
    }

    function Value(): State
      reads this
    {
      State(root, stack, pos, items)
    }

    /** Makes one more slot in the array of the node on top, moving it if it is full, and points to it. That node
        is written through a pointer. */
    method Append(name: nat)
      requires stack != [] && Top(Value()).Node? && true == Good(stack)
      modifies this`stack
      ensures Value() == Push(old(Value()), name) && true == Good(stack)
    {
      PushSafe(Value(), name);
      var n := |stack| - 1;
      var e := stack[n].entry;
      if e.capacity == 0 {
        e := e.(capacity := INIT_CAPACITY);
      } else if |e.slots| == e.capacity {
        e := e.(capacity := e.capacity * GROW_PERCENT / 100, moves := e.moves + 1);
      }
      e := e.(slots := e.slots + [Slot(name, NoEntry)]);
      stack := stack[n := stack[n].(entry := e)] + [Frame(NoEntry, e.moves)];
    }

    /** Writes the entry on top to its place in the array around it, and takes it off the stack. */
    method Finish(e: Entry)
      requires stack != [] && true == Good(stack)
      modifies this`stack, this`root
      ensures Value() == Pop(SetTop(old(Value()), e)) && true == Good(stack)
    {
      PopSafe(Value(), e);
      var n := |stack| - 1;
      if n == 0 {
        root, stack := e, [];
      } else {
        var f := stack[n - 1];
        ghost var s := SetTop(Value(), e);
        assert s.stack[..n - 1] == stack[..n - 1];
        stack := stack[..n - 1] + [f.(entry := Filled(f.entry, e))];
      }
    }

    /** Makes the entry on top a list or dictionary. */
    method Open(e: Entry)
      requires stack != [] && true == Good(stack) && Sound(e)
      modifies this`stack
      ensures Value() == SetTop(old(Value()), e) && true == Good(stack)
    {
      NodeSafe(Value(), e);
      var n := |stack| - 1;
      stack := stack[n := stack[n].(entry := e)];
    }

    /** Decodes the value that starts at the cursor, or the start of it. */
    method Decode() returns (failure: bool, error: Error)
      requires stack != [] && 0 <= pos < |text| && true == Good(stack)
      modifies this
      ensures failure ==> BeginValue(text, old(Value())) == Failed(error)
      ensures !failure ==> BeginValue(text, old(Value())) == Ok(Value()) && true == Good(stack)
    {
      failure, error := false, LimitExceeded;
      var t, begin := text[pos], pos;
      pos, items := pos + 1, items - 1;
      if items <= 0 { return true, LimitExceeded; }
      if t == 'd' || t == 'l' {
        Open(Node(t == 'd', begin, [], 0, 0, 0));
      } else if t == 'i' {
        failure, error := DecodeInt();
      } else if !IsDigit(t) {
        return true, ExpectedValue;
      } else {
        failure, error := DecodeString(t);
      }
    }

    method DecodeInt() returns (failure: bool, error: Error)
      requires stack != [] && 0 <= pos <= |text| && true == Good(stack)
      modifies this
      ensures failure ==> IntFrom(text, old(Value())) == Failed(error)
      ensures !failure ==> IntFrom(text, old(Value())) == Ok(Value()) && true == Good(stack)
    {
      failure, error := false, UnexpectedEof;
      var start := pos;
      pos := SeekChar(text, start, 'e');
      if pos == |text| { return true, UnexpectedEof; }
      var len := pos - start;
      pos := pos + 1;
      Finish(IntEntry(start, len));
    }

    method DecodeString(t: char) returns (failure: bool, error: Error)
      requires stack != [] && 0 <= pos <= |text| && true == Good(stack) && IsDigit(t)
      modifies this
      ensures failure ==> StrFrom(text, old(Value()), t) == Failed(error)
      ensures !failure ==> StrFrom(text, old(Value()), t) == Ok(Value()) && true == Good(stack)
    {
      failure, error := false, ExpectedColon;
      var r := ReadInt(text, pos, ':', Digit(t));
      if r.NoNum? || r.pos + r.val + 1 > |text| { return true, ExpectedColon; }
      if r.pos == |text| { return true, OutsideText; }
      pos := r.pos + 1 + r.val;
      Finish(StrEntry(r.pos + 1, r.val % TWO_32));
    }

    /** Makes room for the next item of the list or dictionary on top. */
    method EnterItem() returns (failure: bool, error: Error)
      requires stack != [] && Top(Value()).Node? && 0 <= pos < |text| && true == Good(stack)
      modifies this`stack, this`pos
      ensures failure ==> Enter(text, old(Value())) == Failed(error)
      ensures !failure ==> Enter(text, old(Value())) == Ok(Value()) && stack != [] && true == Good(stack)
    {
      failure, error := false, ExpectedString;
      var t := text[pos];
      if !stack[|stack| - 1].entry.dict {
        Append(0);
        return;
      }
      if !IsDigit(t) { return true, ExpectedString; }
      var r := ReadInt(text, pos + 1, ':', Digit(t));
      if r.NoNum? || r.pos + r.val + 3 > |text| { return true, ExpectedColon; }
      if r.pos == |text| { return true, OutsideText; }
      if r.pos + 1 == |text| { return true, UnexpectedEof; }
      Append(r.pos + 1);
      pos := r.pos + 1 + r.val;
    }

    /** One round of the loop. */
    method Round(depthLimit: int) returns (failure: bool, error: Error)
      requires stack != [] && 0 <= pos < |text| && true == Good(stack)
      modifies this
      ensures failure ==> Step(text, old(Value()), depthLimit) == Failed(error)
      ensures !failure ==> Step(text, old(Value()), depthLimit) == Ok(Value()) && true == Good(stack)
    {
      failure, error := false, DepthExceeded;
      if |stack| > depthLimit { return true, DepthExceeded; }
      var t, top := text[pos], stack[|stack| - 1].entry;
      if pos + 1 >= |text| && t != 'e' { return true, UnexpectedEof; }
      if top.Node? {
        if t == 'e' {
          pos := pos + 1;
          Finish(top.(extent := if pos > top.begin then pos - top.begin else 0));
          return;
        }
        failure, error := EnterItem();
        if failure { return; }
        if pos >= |text| { return true, UnexpectedEof; }
        if pos < 0 { return true, OutsideText; }
      }
      failure, error := Decode();
    }
  }

  /** Decodes a text. Whatever the text is, it ends, and the pointers on the stack are good all the time. */
  method LazyDecode(text: string, depthLimit: int, itemLimit: int) returns (o: Outcome)
    ensures o == Run(text, Start(itemLimit), depthLimit)
    ensures forall n: nat, t: State :: Visits(text, Start(itemLimit), depthLimit, n, t) ==> Safe(t)
  {
    var d := new Decoder(text, itemLimit);
    forall n: nat, t: State | Visits(text, Start(itemLimit), depthLimit, n, t) ensures Safe(t) {
      AlwaysSafe(text, Start(itemLimit), depthLimit, n, t);
    }
    while d.pos < |text| && d.stack != []
      invariant fresh(d) && d.text == text && true == Good(d.stack)
      invariant Run(text, Start(itemLimit), depthLimit) == Run(text, d.Value(), depthLimit)
      decreases if d.items > 0 then d.items else 0, |text| - d.pos
    {
      if d.pos < 0 { return Failed(OutsideText); }
      StepCounts(text, d.Value(), depthLimit);
      var failure, error := d.Round(depthLimit);
      if failure { return Failed(error); }
    }
    o := Ok(d.Value());
  }
}
