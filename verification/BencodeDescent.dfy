/** The decoder read as a recursive one: what it makes of any text, well formed or not. */
module BencodeDescent {
  import opened Bencode
  import opened BencodeSteps
  import opened BencodeRoundTrip

  /** What is read, without the arrays it is kept in. */
  datatype Tree = NoTree | IntAt(start: nat, len: nat) | StrAt(start: nat, len: nat)
    | NodeAt(dict: bool, begin: nat, kids: seq<Kid>, extent: nat)
  datatype Kid = Kid(name: nat, val: Tree)

  function Shape(e: Entry): Tree {
    match e
    case NoEntry => NoTree
    case IntEntry(start, len) => IntAt(start, len)
    case StrEntry(start, len) => StrAt(start, len)
    case Node(dict, begin, slots, _, _, extent) =>
      NodeAt(dict, begin, seq(|slots|, k requires 0 <= k < |slots| => Kid(slots[k].name, Shape(slots[k].val))), extent)
  }

  /** A value and what comes behind it; the end of the text before a list or dictionary is closed; or an error. */
  datatype Parsed = Done(tree: Tree, pos: int, items: int) | Short | Bad(error: Error)

  /** The value at pos, within lists and dictionaries that together with it are nested to the given depth. */
  function ReadValue(text: string, pos: nat, depth: nat, items: int, depthLimit: int): (r: Parsed)
    requires pos < |text|
    ensures r.Done? ==> 0 < r.items < items
    decreases if items > 0 then items else 0, 0
  {
    var t := text[pos];
    if items <= 1 then Bad(LimitExceeded)
    else if t == 'l' || t == 'd' then
      ReadItems(text, pos + 1, NodeAt(t == 'd', pos, [], 0), depth, items - 1, depthLimit)
    else if t == 'i' then
      var q := FindChar(text, pos + 1, 'e');
      if q == |text| then Bad(UnexpectedEof) else Done(IntAt(pos + 1, q - pos - 1), q + 1, items - 1)
    else if !IsDigit(t) then Bad(ExpectedValue)
    else
      match ReadLength(text, pos, 0)
      case NoLength(e) => Bad(e)
      case Length(start, n) => Done(StrAt(start, n % TWO_32), start + n, items - 1)
  }

  /** The items from pos on, up to the end of the list or dictionary. */
  function ReadItems(text: string, pos: int, node: Tree, depth: nat, items: int, depthLimit: int): (r: Parsed)
    requires node.NodeAt? && items > 0
    ensures r.Done? ==> 0 < r.items <= items
    decreases items, 1
  {
    if pos >= |text| then Short
    else if pos < 0 then Bad(OutsideText)
    else if depth > depthLimit then Bad(DepthExceeded)
    else if text[pos] == 'e' then
      Done(node.(extent := if pos + 1 > node.begin then pos + 1 - node.begin else 0), pos + 1, items)
    else if pos + 1 == |text| then Bad(UnexpectedEof)
    else
      match ReadName(text, pos, node.dict)
      case NoLength(e) => Bad(e)
      case Length(name, n) =>
        var at := if node.dict then name + n else pos;
        if at >= |text| then Bad(UnexpectedEof)
        else if at < 0 then Bad(OutsideText)
        else
          match ReadValue(text, at, depth + 1, items, depthLimit)
          case Done(val, next, left) =>
            ReadItems(text, next, node.(kids := node.kids + [Kid(name, val)]), depth, left, depthLimit)
          case Short => Short
          case Bad(e) => Bad(e)
  }

  /** A length and a colon, the string behind them and at least so many bytes more. */
  datatype Prefix = Length(start: nat, n: int) | NoLength(error: Error)

  function ReadLength(text: string, pos: nat, more: nat): Prefix
    requires pos < |text|
  {
    match ParseInt(text, pos, |text|, ':', 0)
    case NoNum(_) => NoLength(ExpectedColon)
    case Num(colon, n) =>
      if colon + 1 + n + more > |text| then NoLength(ExpectedColon)
      else if colon == |text| then NoLength(OutsideText)
      else Length(colon + 1, n)
  }

  /** Items of a dictionary have a key, behind which a value of two bytes has room. */
  function ReadName(text: string, pos: nat, dict: bool): Prefix
    requires pos < |text|
  {
    if !dict then Length(0, 0)
    else if !IsDigit(text[pos]) then NoLength(ExpectedString)
    else
      var r := ReadLength(text, pos, 2);
      if r.Length? && r.start == |text| then NoLength(UnexpectedEof) else r
  }

  /** A whole text. */
  function ReadText(text: string, itemLimit: int, depthLimit: int): Parsed {
    if text == [] then Short
    else if depthLimit < 1 then Bad(DepthExceeded)
    else if |text| == 1 && text[0] != 'e' then Bad(UnexpectedEof)
    else ReadValue(text, 0, 1, itemLimit, depthLimit)
  }

  // ---------------------------------------------------------------- the stack machine does the same

  /** What the machine does from st on, if the value that is read has the given result and entry. */
  predicate Agrees(text: string, out: Outcome, st: State, r: Parsed, e: Entry, depthLimit: int)
    requires st.stack != []
  {
    match r
    case Done(tree, pos, items) =>
      Shape(e) == tree && out == Run(text, Pop(SetTop(st.(pos := pos, items := items), e)), depthLimit)
    case Short => out.Ok? && out.st.stack != []
    case Bad(error) => out == Failed(error)
  }

  /** A value is begun, and then steps are made. */
  function BeginAndRun(text: string, st: State, depthLimit: int): Outcome
    requires st.stack != [] && 0 <= st.pos < |text|
  {
    match BeginValue(text, st)
    case Failed(e) => Failed(e)
    case Ok(s) => Run(text, s, depthLimit)
  }

  lemma {:induction false} ValueAgrees(text: string, st: State, depthLimit: int) returns (e: Entry)
    requires st.stack != [] && 0 <= st.pos < |text|
    ensures true == Agrees(text, BeginAndRun(text, st, depthLimit), st,
      ReadValue(text, st.pos, |st.stack|, st.items, depthLimit), e, depthLimit)
    decreases if st.items > 0 then st.items else 0, 0
  {
    var t := text[st.pos];
    if st.items > 1 && (t == 'l' || t == 'd') {
      var s := SetTop(st.(pos := st.pos + 1, items := st.items - 1), Node(t == 'd', st.pos, [], 0, 0, 0));
      assert Shape(Top(s)) == NodeAt(t == 'd', st.pos, [], 0);
      e := ItemsAgree(text, s, depthLimit);
      Unrolled(text, Run(text, s, depthLimit), st, s, ReadValue(text, st.pos, |st.stack|, st.items, depthLimit), e,
        depthLimit);
    } else {
      e := PlainAgrees(text, st, depthLimit);
    }
  }

  /** What is on top does not matter once it is replaced. */
  lemma Unrolled(text: string, out: Outcome, st: State, s: State, r: Parsed, e: Entry, depthLimit: int)
    requires st.stack != [] && s.stack != [] && s == SetTop(st, Top(s)).(pos := s.pos, items := s.items)
    requires Agrees(text, out, s, r, e, depthLimit)
    ensures true == Agrees(text, out, st, r, e, depthLimit)
  {
    if r.Done? {
      var a, b := SetTop(s.(pos := r.pos, items := r.items), e), SetTop(st.(pos := r.pos, items := r.items), e);
      assert a.stack == b.stack;
    }
  }

  /** Integers and strings, and all errors at the first byte of a value. */
  lemma PlainAgrees(text: string, st: State, depthLimit: int) returns (e: Entry)
    requires st.stack != [] && 0 <= st.pos < |text|
    requires st.items <= 1 || (text[st.pos] != 'l' && text[st.pos] != 'd')
    ensures true == Agrees(text, BeginAndRun(text, st, depthLimit), st,
      ReadValue(text, st.pos, |st.stack|, st.items, depthLimit), e, depthLimit)
  {
    e := NoEntry;
    if st.items > 1 && text[st.pos] == 'i' {
      e := IntAgrees(text, st, depthLimit);
    } else if st.items > 1 && IsDigit(text[st.pos]) {
      e := StrAgrees(text, st, depthLimit, ParseInt(text, st.pos, |text|, ':', 0));
    }
  }

  lemma IntAgrees(text: string, st: State, depthLimit: int) returns (e: Entry)
    requires st.stack != [] && 0 <= st.pos < |text| && st.items > 1 && text[st.pos] == 'i'
    ensures true == Agrees(text, BeginAndRun(text, st, depthLimit), st,
      ReadValue(text, st.pos, |st.stack|, st.items, depthLimit), e, depthLimit)
  {
    var p := st.pos + 1;
    var q := FindChar(text, p, 'e');
    e := IntEntry(p, q - p);
    if q < |text| { BegunAgrees(text, st, IntAt(p, q - p), q + 1, st.items - 1, e, depthLimit); }
  }

  lemma StrAgrees(text: string, st: State, depthLimit: int, r: Num) returns (e: Entry)
    requires st.stack != [] && 0 <= st.pos < |text| && st.items > 1 && IsDigit(text[st.pos])
    requires r == ParseInt(text, st.pos, |text|, ':', 0)
    ensures true == Agrees(text, BeginAndRun(text, st, depthLimit), st,
      ReadValue(text, st.pos, |st.stack|, st.items, depthLimit), e, depthLimit)
  {
    FirstDigit(text, st.pos, |text|, ':');
    e := NoEntry;
    if r.Num? && r.pos < |text| && r.pos + 1 + r.val <= |text| {
      var n := r.val % TWO_32;
      e := StrEntry(r.pos + 1, n);
      StrBegun(text, st, r.pos, r.val, r.pos + 1 + r.val, e);
      BegunAgrees(text, st, StrAt(r.pos + 1, n), r.pos + 1 + r.val, st.items - 1, e, depthLimit);
    }
  }

  /** A value that is done at once. */
  lemma BegunAgrees(text: string, st: State, tree: Tree, pos: int, items: int, e: Entry, depthLimit: int)
    requires st.stack != [] && 0 <= st.pos < |text| && Shape(e) == tree
    requires BeginValue(text, st) == Ok(Pop(SetTop(st.(pos := pos, items := items), e)))
    ensures true == Agrees(text, BeginAndRun(text, st, depthLimit), st, Done(tree, pos, items), e, depthLimit)
  {}

  lemma {:induction false} ItemsAgree(text: string, st: State, depthLimit: int) returns (e: Entry)
    requires st.stack != [] && Top(st).Node? && st.items > 0
    ensures true == Agrees(text, Run(text, st, depthLimit), st,
      ReadItems(text, st.pos, Shape(Top(st)), |st.stack|, st.items, depthLimit), e, depthLimit)
    decreases st.items, 2
  {
    e := NoEntry;
    var node := Top(st);
    if 0 <= st.pos < |text| && |st.stack| <= depthLimit {
      if text[st.pos] == 'e' {
        var p := st.pos + 1;
        e := node.(extent := if p > node.begin then p - node.begin else 0);
        CloseAgrees(text, st, depthLimit, e);
      } else if st.pos + 1 < |text| {
        var name := EnterAgrees(text, st);
        if Enter(text, st).Ok? && 0 <= Enter(text, st).st.pos < |text| {
          e := ItemAgrees(text, st, depthLimit, name, Enter(text, st).st);
        }
      }
    }
  }

  lemma CloseAgrees(text: string, st: State, depthLimit: int, e: Entry)
    requires st.stack != [] && Top(st).Node? && st.items > 0
    requires 0 <= st.pos < |text| && |st.stack| <= depthLimit && text[st.pos] == 'e'
    requires e == Top(st).(extent := if st.pos + 1 > Top(st).begin then st.pos + 1 - Top(st).begin else 0)
    ensures true == Agrees(text, Run(text, st, depthLimit), st,
      ReadItems(text, st.pos, Shape(Top(st)), |st.stack|, st.items, depthLimit), e, depthLimit)
  {
    SameKids(Top(st), e);
    ClosedRuns(text, st, depthLimit, Close(st));
    assert Close(st) == Pop(SetTop(st.(pos := st.pos + 1, items := st.items), e));
  }

  lemma ClosedRuns(text: string, st: State, depthLimit: int, next: State)
    requires 0 <= st.pos < |text| && 0 < |st.stack| <= depthLimit && text[st.pos] == 'e'
    requires Top(st).Node? && next == Close(st)
    ensures Run(text, st, depthLimit) == Run(text, next, depthLimit)
  {
    RunStep(text, st, depthLimit, next);
  }

  lemma SameKids(node: Entry, e: Entry)
    requires node.Node? && e.Node? && e == node.(extent := e.extent)
    ensures Shape(node).NodeAt? && Shape(e) == Shape(node).(extent := e.extent)
  {
    assert Shape(e).kids == Shape(node).kids;
  }

  /** The key of an item is read, and a slot made for it. */
  lemma EnterAgrees(text: string, st: State) returns (name: nat)
    requires st.stack != [] && Top(st).Node? && 0 <= st.pos < |text|
    ensures match ReadName(text, st.pos, Top(st).dict)
      case NoLength(error) => Enter(text, st) == Failed(error)
      case Length(start, n) =>
        name == start && Enter(text, st) == Ok(Push(st, name).(pos := if Top(st).dict then name + n else st.pos))
  {
    name := 0;
    if Top(st).dict && IsDigit(text[st.pos]) {
      FirstDigit(text, st.pos, |text|, ':');
      var r := ReadName(text, st.pos, true);
      if r.Length? { name := r.start; }
    }
  }

  /** One item, and then the others. */
  lemma ItemAgrees(text: string, st: State, depthLimit: int, name: nat, s: State) returns (e: Entry)
    requires st.stack != [] && Top(st).Node? && st.items > 0 && 0 <= st.pos && st.pos + 1 < |text|
    requires |st.stack| <= depthLimit && text[st.pos] != 'e' && Enter(text, st) == Ok(s) && 0 <= s.pos < |text|
    requires s == Push(st, name).(pos := s.pos) && ReadName(text, st.pos, Top(st).dict).Length?
    requires var r := ReadName(text, st.pos, Top(st).dict);
      r.start == name && s.pos == if Top(st).dict then name + r.n else st.pos
    ensures true == Agrees(text, Run(text, st, depthLimit), st,
      ReadItems(text, st.pos, Shape(Top(st)), |st.stack|, st.items, depthLimit), e, depthLimit)
    decreases st.items, 1
  {
    var e1 := ValueAgrees(text, s, depthLimit);
    var r := ReadValue(text, s.pos, |s.stack|, s.items, depthLimit);
    EnteredRuns(text, st, depthLimit, s);
    ItemRead(text, st.pos, Shape(Top(st)), |st.stack|, st.items, depthLimit, name, s.pos, r);
    e := e1;
    if r.Done? {
      var node := Filled(Appended(Top(st), name), e1);
      var next := SetTop(st.(pos := r.pos, items := r.items), node);
      PushedPlaced(st, name, e1, r.pos, r.items, s);
      KidAdded(Top(st), name, e1);
      e := ItemsAgree(text, next, depthLimit);
      var rest := ReadItems(text, r.pos, Shape(node), |st.stack|, r.items, depthLimit);
      Unrolled(text, Run(text, next, depthLimit), st, next, rest, e, depthLimit);
    }
  }

  lemma EnteredRuns(text: string, st: State, depthLimit: int, s: State)
    requires 0 < |st.stack| <= depthLimit && Top(st).Node? && 0 <= st.pos && st.pos + 1 < |text|
    requires text[st.pos] != 'e' && Enter(text, st) == Ok(s) && s.stack != [] && 0 <= s.pos < |text|
    ensures Run(text, st, depthLimit) == BeginAndRun(text, s, depthLimit)
  {
    assert Step(text, st, depthLimit) == BeginValue(text, s);
  }

  /** How the reading goes on behind a value. */
  lemma ItemRead(text: string, pos: nat, node: Tree, depth: nat, items: int, depthLimit: int, name: nat, at: nat,
    r: Parsed)
    requires node.NodeAt? && items > 0 && pos + 1 < |text| && at < |text| && depth <= depthLimit && text[pos] != 'e'
    requires var key := ReadName(text, pos, node.dict);
      key.Length? && key.start == name && at == if node.dict then name + key.n else pos
    requires r == ReadValue(text, at, depth + 1, items, depthLimit)
    ensures ReadItems(text, pos, node, depth, items, depthLimit) ==
      if r.Done? then ReadItems(text, r.pos, node.(kids := node.kids + [Kid(name, r.tree)]), depth, r.items, depthLimit)
      else r
  {}

  lemma PushedPlaced(st: State, name: nat, val: Entry, pos: int, items: int, s: State)
    requires st.stack != [] && Top(st).Node? && s == Push(st, name).(pos := s.pos)
    ensures Pop(SetTop(s.(pos := pos, items := items), val))
      == SetTop(st.(pos := pos, items := items), Filled(Appended(Top(st), name), val))
  {
    var n := |st.stack|;
    assert s.stack[..n - 1] == st.stack[..n - 1];
    var a, b := Pop(SetTop(s.(pos := pos, items := items), val)).stack,
      SetTop(st.(pos := pos, items := items), Filled(Appended(Top(st), name), val)).stack;
    assert |a| == |b| && a[n - 1] == b[n - 1];
    assert a == b;
  }

  lemma KidAdded(node: Entry, name: nat, val: Entry)
    requires node.Node?
    ensures Shape(Filled(Appended(node, name), val))
      == (var t := Shape(node); t.(kids := t.kids + [Kid(name, Shape(val))]))
  {
    var e := Appended(node, name);
    var f := Filled(e, val);
    assert f.slots == node.slots + [Slot(name, val)];
    assert Shape(f).kids == Shape(node).kids + [Kid(name, Shape(val))];
  }

  /** On every text and for all limits the decoder, with its stack and its growing arrays, gives what the recursive
      reading gives: the same error, the same tree from the same part of the text, or a stop before the end of a list
      or dictionary that the text does not close. */
  lemma DecodesAs(text: string, itemLimit: int, depthLimit: int)
    ensures var o := Run(text, Start(itemLimit), depthLimit);
      match ReadText(text, itemLimit, depthLimit)
      case Done(tree, pos, items) => o.Ok? && o.st.stack == [] && Shape(o.st.root) == tree && o.st.pos == pos
      case Short => o.Ok? && o.st.stack != []
      case Bad(error) => o == Failed(error)
  {
    var st := Start(itemLimit);
    if text != [] && depthLimit >= 1 && (|text| > 1 || text[0] == 'e') {
      var e := ValueAgrees(text, st, depthLimit);
      assert Step(text, st, depthLimit) == BeginValue(text, st);
      assert Run(text, st, depthLimit) == BeginAndRun(text, st, depthLimit);
    }
  }

  /** A list that the text does not close is accepted, if its item is complete; what is decoded is not. */
  lemma Unclosed(v: Value, itemLimit: int, depthLimit: int)
    requires Proper(v) && itemLimit > Count(v) + 1 && depthLimit > Depth(v)
    ensures ReadText("l" + Encode(v), itemLimit, depthLimit) == Short
    ensures var o := Run("l" + Encode(v), Start(itemLimit), depthLimit); o.Ok? && o.st.stack != []
  {
    var text, st := "l" + Encode(v), Start(itemLimit);
    NotEnd(v);
    var list := SetTop(st.(pos := 1, items := itemLimit - 1), Node(false, 0, [], 0, 0, 0));
    assert Step(text, st, depthLimit) == Ok(list);
    var s := Push(list, 0);
    assert text[1..1 + |Encode(v)|] == Encode(v);
    var e := ValueParsed(text, s, v, depthLimit, |text|, itemLimit - 1 - Count(v));
    assert Run(text, list, depthLimit) == Run(text, BeginValue(text, s).st, depthLimit);
    PushPlaced(list, 0, e, |text|, itemLimit - 1 - Count(v), 1);
    DecodesAs(text, itemLimit, depthLimit);
  }
}
