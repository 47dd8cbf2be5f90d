/** The send queue of a connection: a chain of buffers, and the writes that are made from it. */
module SendQueue {
  import opened ChainedBuffer
  import opened SendSteps

  /** The chain d goes on where c ends: in the last buffer of c, or in new ones. */
  predicate Grown(c: seq<Node>, d: seq<Node>) {
    && |c| <= |d|
    && (forall i :: 0 <= i < |c| ==> d[i].buf == c[i].buf && d[i].start == c[i].start && d[i].used >= c[i].used)
    && (forall i :: 0 <= i < |c| - 1 ==> d[i].used == c[i].used)
  }

  /** What is being sent stays the front of the queue while bytes are added. */
  lemma GrownFront(segs: seq<Segment>, c: seq<Node>, d: seq<Node>)
    requires FrontOf(segs, c) && Grown(c, d)
    ensures FrontOf(segs, d)
  {}

  function Released(nodes: seq<Node>): seq<array<Byte>> {
    if nodes == [] then [] else Released(nodes[..|nodes| - 1]) + [nodes[|nodes| - 1].buf]
  }

  predicate Distinct(s: seq<array<Byte>>) { forall i, j :: 0 <= i < j < |s| ==> s[i] != s[j] }

  /** The segments are the first k nodes. */
  predicate Whole(segs: seq<Segment>, chain: seq<Node>, k: nat) {
    && k == |segs| <= |chain| && Lengths(segs) == Used(chain[..k])
    && forall j :: 0 <= j < k ==> segs[j] == Segment(chain[j].buf, chain[j].start, chain[j].used)
  }

  /** One more segment: a whole node, or the front of one. */
  lemma WholeNext(segs: seq<Segment>, chain: seq<Node>, k: nat, s: Segment)
    requires Whole(segs, chain, k) && k < |chain| && s.buf == chain[k].buf && s.start == chain[k].start
    requires s.len <= chain[k].used
    ensures true == FrontOf(segs + [s], chain) && Lengths(segs + [s]) == Used(chain[..k]) + s.len
    ensures Used(chain[..k + 1]) == Used(chain[..k]) + chain[k].used <= Used(chain)
    ensures s.len == chain[k].used ==> true == Whole(segs + [s], chain, k + 1)
  {
    assert (segs + [s])[..k] == segs;
    assert chain[..k + 1][..k] == chain[..k];
    UsedPrefix(chain, k + 1);
  }

  lemma FrontWhole(segs: seq<Segment>, chain: seq<Node>, k: nat)
    requires Whole(segs, chain, k)
    ensures true == FrontOf(segs, chain) && Lengths(segs) == Used(chain[..k]) <= Used(chain)
    ensures k == |chain| ==> Lengths(segs) == Used(chain)
  {
    UsedPrefix(chain, k);
    assert k == |chain| ==> chain[..k] == chain;
  }

  class Chain {
    var chain: seq<Node>
    var bytes: int
    var capacity: int
    var released: seq<array<Byte>>

    constructor ()
      ensures Valid() && chain == [] && released == []
    {
      chain, bytes, capacity, released := [], 0, 0, [];
    }

    /** The totals are exact, and no buffer is released twice or while it is in the chain. */
    predicate Valid()
      reads this
    {
      && Sound(chain) && bytes == Used(chain) && capacity == Room(chain)
      && Distinct(released) && forall i :: 0 <= i < |chain| ==> chain[i].buf !in released
    }

    function Contents(): seq<Byte>
      requires Valid()
      reads this, Bufs(chain)
    {
      Text(chain)
    }

    /** Adds a buffer that holds the given number of bytes. */
    method AppendBuffer(buf: array<Byte>, used: nat)
      requires Valid() && 0 < used <= buf.Length && buf !in Bufs(chain) && buf !in released
      modifies this`chain, this`bytes, this`capacity
      ensures Valid() && chain == old(chain) + [Node(buf, 0, used)] && Contents() == old(Contents()) + buf[..used]
    {
      var n := Node(buf, 0, used);
      assert forall i :: 0 <= i < |chain| ==> chain[i].buf in Bufs(chain);
      assert (chain + [n])[..|chain|] == chain;
      chain := chain + [n];
      bytes := bytes + used;
      capacity := capacity + buf.Length;
    }

    /** The free bytes at the end of the last buffer. */
    function SpaceInLastBuffer(): int
      reads this
    {
      if chain == [] then 0 else
      var n := chain[|chain| - 1];
      n.buf.Length - n.used - n.start
    }

    /** Copies data behind what the last buffer holds, if there is room. */
    method Append(data: seq<Byte>) returns (ok: bool)
      requires Valid() && data != []
      modifies this`chain, this`bytes, Bufs(chain)
      ensures true == Valid() && released == old(released)
        && ok == (chain != [] && |data| <= old(SpaceInLastBuffer()))
        && true == Grown(old(chain), chain) && Bufs(chain) == old(Bufs(chain))
      ensures ok == (old(chain) != [] && var n := old(chain)[|old(chain)| - 1];
        n.start + n.used + |data| <= n.buf.Length)
      ensures Contents() == if ok then old(Contents()) + data else old(Contents())
    {
      if chain == [] { return false; }
      var n := chain[|chain| - 1];
      if n.start + n.used + |data| > n.buf.Length { return false; }
      AppendLast(data);
      ok := true;
    }

    /** There is room: the bytes go behind those of the last buffer. */
    method AppendLast(data: seq<Byte>)
      requires Valid() && chain != [] && |data| <= SpaceInLastBuffer()
      modifies this`chain, this`bytes, Bufs(chain)
      ensures Valid() && released == old(released) && true == Grown(old(chain), chain)
        && Bufs(chain) == old(Bufs(chain)) && Contents() == old(Contents()) + data
    {
      var last := |chain| - 1;
      var n := chain[last];
      assert n.buf in Bufs(chain);
      ghost var front := chain[..last];
      assert n.buf !in Bufs(front);
      CopyInto(n.buf, n.start, n.start + n.used, data, front);
      var d := chain[last := n.(used := n.used + |data|)];
      GrownLast(chain, d, |data|);
      assert d[..last] == front;
      assert NodeText(d[last]) == old(NodeText(n)) + data;
      chain := d;
      bytes := bytes + |data|;
      Assoc(Text(front), old(NodeText(n)), data);
    }

    /** Drops bytes from the front; buffers that are used up are released. */
    method PopFront(n: nat) returns (ghost k: nat)
      requires Valid() && n <= |Contents()|
      modifies this
      ensures Valid() && Contents() == old(Contents())[n..]
      ensures k <= |old(chain)| && released == old(released) + Released(old(chain)[..k]) && Used(old(chain)[..k]) <= n
      ensures Bufs(chain) <= old(Bufs(chain))
    {
      var left := n;
      ghost var text := Text(chain);
      k := 0;
      assert Dropping(old(chain), old(released), chain, released, 0, 0);
      while left > 0 && chain != []
        invariant true == Valid() && 0 <= left <= n && true == Remains(text, n - left, Text(chain))
        invariant true == Freed(old(chain), old(released), released, k, n - left) && Bufs(chain) <= old(Bufs(chain))
        invariant left > 0 ==> true == Dropping(old(chain), old(released), chain, released, k, n - left)
        decreases left, |chain|
      {
        left, k := PopNode(left, n, text, old(chain), old(released), k);
      }
    }

    /** Takes the first buffer off, or as many of its bytes as are left to drop. */
    method PopNode(left: nat, ghost n: nat, ghost text: seq<Byte>, ghost c: seq<Node>, ghost r: seq<array<Byte>>,
      ghost k: nat)
      returns (left': nat, ghost k': nat)
      requires true == Valid() && chain != [] && 0 < left <= n && true == Remains(text, n - left, Text(chain))
      requires true == Dropping(c, r, chain, released, k, n - left)
      modifies this
      ensures true == Valid() && left' < left && true == Remains(text, n - left', Text(chain))
      ensures true == Freed(c, r, released, k', n - left') && Bufs(chain) <= old(Bufs(chain))
      ensures left' > 0 ==> true == Dropping(c, r, chain, released, k', n - left')
    {
      ghost var part, before := NodeText(chain[0]), Text(chain);
      if chain[0].used > left {
        TrimFirst(left);
        RemainsStep(text, n - left, before, part[..left], Text(chain));
        left', k' := 0, k;
      } else {
        DroppingStep(c, r, chain, released, k, n - left);
        left', k' := left - chain[0].used, k + 1;
        DropFirst();
        RemainsStep(text, n - left, before, part, Text(chain));
      }
    }

    /** Releases the first buffer with all it holds. */
    method DropFirst()
      requires true == Valid() && chain != []
      modifies this
      ensures true == Valid() && chain == old(chain)[1..] && released == old(released) + [old(chain[0]).buf]
      ensures Bufs(chain) <= old(Bufs(chain))
      ensures old(Contents()) == old(NodeText(chain[0])) + Contents()
    {
      First(chain);
      FirstSizes(chain);
      var b := chain[0];
      released := released + [b.buf];
      bytes := bytes - b.used;
      capacity := capacity - b.buf.Length;
      ghost var nodes := chain[1..];
      ghost var rest := Text(nodes);
      assert forall i :: 0 <= i < |nodes| ==> nodes[i].buf in Bufs(nodes);
      chain := chain[1..];
      assert Text(nodes) == rest;
    }

    /** Drops less than the first buffer holds. */
    method TrimFirst(n: nat)
      requires true == Valid() && chain != [] && n < chain[0].used
      modifies this`chain, this`bytes
      ensures true == Valid() && old(Contents()) == old(NodeText(chain[0])[..n]) + Contents()
      ensures Bufs(chain) <= old(Bufs(chain))
    {
      var b := chain[0];
      var c := b.(start := b.start + n, used := b.used - n);
      var nodes := [c] + chain[1..];
      TrimmedText(chain, nodes, n);
      TrimmedSizes(chain, nodes, n);
      ghost var rest := Text(nodes);
      assert forall i :: 0 <= i < |nodes| ==> nodes[i].buf in Bufs(nodes);
      chain := nodes;
      bytes := bytes - n;
      assert Text(nodes) == rest;
    }

    /** All bytes of the queue. */
    method Collect() returns (out: seq<Byte>)
      requires Valid()
      ensures out == Contents()
    {
      out := [];
      for i := 0 to |chain|
        invariant Sound(chain[..i]) && out == Text(chain[..i])
      {
        assert chain[..i + 1][..i] == chain[..i];
        out := out + NodeText(chain[i]);
      }
      assert chain[..|chain|] == chain;
    }

    /** The segments that hold the first bytes of the queue, as many as asked for and as there are. */
    method BuildIovec(n: nat) returns (segs: seq<Segment>)
      requires Valid()
      ensures FrontOf(segs, chain) && Lengths(segs) == (if n < bytes then n else bytes)
    {
      segs := [];
      var left: nat, i: nat := n, 0;
      while left > 0 && i < |chain|
        invariant 0 <= left <= n && i <= |chain| && true == Whole(segs, chain, i) && n - left == Used(chain[..i])
        decreases left, |chain| - i
      {
        var b := chain[i];
        var s := Segment(b.buf, b.start, if b.used > left then left else b.used);
        WholeNext(segs, chain, i, s);
        segs := segs + [s];
        if b.used > left { return; }
        left, i := left - b.used, i + 1;
      }
      FrontWhole(segs, chain, i);
    }
  }

  lemma {:induction false} UsedPrefix(chain: seq<Node>, k: nat)
    requires k <= |chain|
    ensures Used(chain[..k]) <= Used(chain)
    decreases |chain|
  {
    if k < |chain| {
      UsedPrefix(chain[..|chain| - 1], k);
      assert chain[..|chain| - 1][..k] == chain[..k];
    } else {
      assert chain[..k] == chain;
    }
  }

  /** A node less its first n bytes. */
  function Trimmed(b: Node, n: nat): Node
    requires n < b.used
  {
    b.(start := b.start + n, used := b.used - n)
  }

  lemma TrimmedText(chain: seq<Node>, nodes: seq<Node>, n: nat)
    requires Sound(chain) && chain != [] && n < chain[0].used && nodes == [Trimmed(chain[0], n)] + chain[1..]
    ensures Sound(nodes) && Text(chain) == NodeText(chain[0])[..n] + Text(nodes)
  {
    TrimmedSound(chain, nodes[0]);
    First(chain);
    First(nodes);
    TrimmedNode(chain[0], n);
    Assoc(NodeText(chain[0])[..n], NodeText(nodes[0]), Text(chain[1..]));
  }

  lemma TrimmedNode(b: Node, n: nat)
    requires Fits(b) && n < b.used
    ensures Fits(Trimmed(b, n)) && NodeText(b) == NodeText(b)[..n] + NodeText(Trimmed(b, n))
  {}

  lemma TrimmedSizes(chain: seq<Node>, nodes: seq<Node>, n: nat)
    requires Sound(chain) && chain != [] && n < chain[0].used && nodes == [Trimmed(chain[0], n)] + chain[1..]
    ensures Used(nodes) == Used(chain) - n && Room(nodes) == Room(chain) && Bufs(nodes) == Bufs(chain)
    ensures |nodes| == |chain| && forall i :: 0 <= i < |chain| ==> nodes[i].buf == chain[i].buf
  {
    assert nodes[1..] == chain[1..];
    FirstSizes(chain);
    FirstSizes(nodes);
    SameBufs(chain, nodes);
  }

  lemma TrimmedSound(chain: seq<Node>, c: Node)
    requires Sound(chain) && chain != [] && Fits(c) && c.buf == chain[0].buf
    ensures Sound([c] + chain[1..]) && ([c] + chain[1..])[1..] == chain[1..]
    ensures forall i :: 0 <= i < |chain| ==> ([c] + chain[1..])[i].buf == chain[i].buf
  {}

  /** Of a text without its first n bytes, the rest is left. */
  predicate Remains(text: seq<Byte>, n: int, rest: seq<Byte>) { 0 <= n <= |text| && rest == text[n..] }

  lemma RemainsStep(text: seq<Byte>, n: int, before: seq<Byte>, part: seq<Byte>, rest: seq<Byte>)
    requires true == Remains(text, n, before) && before == part + rest
    ensures true == Remains(text, n + |part|, rest)
  {
    assert before[|part|..] == text[n + |part|..];
  }

  /** The first k nodes of c, which held n bytes, have been released. */
  ghost predicate Dropping(c: seq<Node>, r: seq<array<Byte>>, chain: seq<Node>, released: seq<array<Byte>>, k: nat,
    n: int) {
    k <= |c| && chain == c[k..] && released == r + Released(c[..k]) && Used(c[..k]) == n
  }

  /** The first k nodes of c, which held no more than n bytes, have been released, and no others. */
  ghost predicate Freed(c: seq<Node>, r: seq<array<Byte>>, released: seq<array<Byte>>, k: nat, n: int) {
    k <= |c| && released == r + Released(c[..k]) && Used(c[..k]) <= n
  }

  lemma DroppingStep(c: seq<Node>, r: seq<array<Byte>>, chain: seq<Node>, released: seq<array<Byte>>, k: nat, n: int)
    requires true == Dropping(c, r, chain, released, k, n) && chain != []
    ensures true == Dropping(c, r, chain[1..], released + [chain[0].buf], k + 1, n + chain[0].used)
  {
    ReleaseNext(c, k);
  }

  lemma ReleaseNext(chain: seq<Node>, k: nat)
    requires k < |chain|
    ensures Released(chain[..k + 1]) == Released(chain[..k]) + [chain[k].buf]
      && Used(chain[..k + 1]) == Used(chain[..k]) + chain[k].used
    ensures chain[k..][0] == chain[k] && chain[k..][1..] == chain[k + 1..]
  {
    assert chain[..k + 1][..k] == chain[..k] && chain[..k + 1][k] == chain[k];
  }

  /** The last node grows by some bytes. */
  lemma GrownLast(chain: seq<Node>, d: seq<Node>, more: nat)
    requires Sound(chain) && chain != []
    requires var n := chain[|chain| - 1];
      n.start + n.used + more <= n.buf.Length && d == chain[|chain| - 1 := n.(used := n.used + more)]
    ensures true == Sound(d) && true == Grown(chain, d) && Bufs(d) == Bufs(chain) && Used(d) == Used(chain) + more
      && Room(d) == Room(chain)
    ensures forall i :: 0 <= i < |chain| ==> d[i].buf == chain[i].buf
  {
    assert d[..|chain| - 1] == chain[..|chain| - 1];
    SameBufs(chain, d);
  }

  method CopyInto(buf: array<Byte>, ghost start: nat, at: nat, data: seq<Byte>, ghost front: seq<Node>)
    requires start <= at && at + |data| <= buf.Length && Sound(front) && buf !in Bufs(front)
    modifies buf
    ensures buf[start..at + |data|] == old(buf[start..at]) + data
    ensures Text(front) == old(Text(front))
  {
    for i := 0 to |data|
      invariant buf[start..at + i] == old(buf[start..at]) + data[..i] && Text(front) == old(Text(front))
    {
      buf[at + i] := data[i];
      assert buf[start..at + i + 1] == buf[start..at + i] + [data[i]];
    }
  }

  lemma BufsAppend(c: seq<Node>, n: Node)
    ensures Bufs(c + [n]) == Bufs(c) + {n.buf}
  {
    var d := c + [n];
    assert forall i :: 0 <= i < |c| ==> d[i] == c[i];
    assert d[|c|] == n && n.buf in Bufs(d);
    forall b | b in Bufs(c) ensures b in Bufs(d) {
      var i :| 0 <= i < |c| && c[i].buf == b;
      assert d[i].buf == b;
    }
  }

  lemma SameBufs(c: seq<Node>, d: seq<Node>)
    requires |c| == |d| && forall i :: 0 <= i < |c| ==> c[i].buf == d[i].buf
    ensures Bufs(c) == Bufs(d)
  {
    assert forall i :: 0 <= i < |c| ==> c[i].buf in Bufs(d) && d[i].buf in Bufs(c);
  }

  // ---------------------------------------------------------------- the connection

  /** The sending side of a connection. */
  class Connection {
    const queue: Chain
    var segs: seq<Segment>
    var writing: bool
    var limited: bool
    var closed: bool

    constructor ()
      ensures Valid() && fresh(queue) && queue.chain == [] && !writing && !closed && !limited
    {
      queue := new Chain();
      segs, writing, limited, closed := [], false, false, false;
    }

    /** What a write in flight sends is the front of the queue. */
    predicate Valid()
      reads this, queue
    {
      queue.Valid() && (writing ==> FrontOf(segs, queue.chain) && Lengths(segs) > 0)
    }

    /** How many bytes are being written. */
    function InFlight(): nat
      reads this
    {
      if writing then Lengths(segs) else 0
    }

    /** Puts bytes into the queue: into the last buffer as far as they fit, the rest into a new one that may have
        spare room. Without memory for it the connection is closed. */
    method CopySendBuffer(data: seq<Byte>, spare: nat, allocOk: bool)
      requires true == Valid()
      modifies this`closed, queue, Bufs(queue.chain)
      ensures true == Valid() && queue.released == old(queue.released)
        && closed == (old(closed) || (!allocOk && old(queue.SpaceInLastBuffer()) < |data|))
      ensures forall b :: b in Bufs(queue.chain) && b !in old(Bufs(queue.chain)) ==> fresh(b)
      ensures allocOk ==> queue.Contents() == old(queue.Contents()) + data
    {
      var free := queue.SpaceInLastBuffer();
      if free > |data| { free := |data|; }
      FillLast(data, free);
      if |data| == free || (free < 0 && data == []) { return; }
      var rest := if free > 0 then data[free..] else data;
      if !allocOk {
        closed := true;
        return;
      }
      AddBuffer(rest, spare);
    }

    /** Puts the first bytes into the free part of the last buffer. */
    method FillLast(data: seq<Byte>, free: int)
      requires true == Valid() && free <= |data| && free <= queue.SpaceInLastBuffer()
      modifies queue, Bufs(queue.chain)
      ensures true == Valid() && queue.released == old(queue.released) && Bufs(queue.chain) == old(Bufs(queue.chain))
      ensures queue.Contents() == old(queue.Contents()) + (if free > 0 then data[..free] else [])
    {
      if free > 0 {
        var ok := queue.Append(data[..free]);
        if writing { GrownFront(segs, old(queue.chain), queue.chain); }
      }
    }

    method AddBuffer(data: seq<Byte>, spare: nat)
      requires true == Valid() && data != []
      modifies queue
      ensures true == Valid() && queue.released == old(queue.released)
      ensures forall b :: b in Bufs(queue.chain) && b !in old(Bufs(queue.chain)) ==> fresh(b)
      ensures queue.Contents() == old(queue.Contents()) + data
    {
      var buf := NewBuffer(data, spare);
      var n := Node(buf, 0, |data|);
      BufsAppend(queue.chain, n);
      if writing { GrownFront(segs, queue.chain, queue.chain + [n]); }
      queue.AppendBuffer(buf, |data|);
    }

    /** Starts a write, unless one is in flight or there is nothing to send. */
    method DoWrite(quota: nat)
      requires Valid()
      modifies this`segs, this`writing
      ensures Valid() && queue.Contents() == old(queue.Contents())
      ensures writing == (old(writing) || (!closed && !limited && quota > 0 && queue.Contents() != []))
      ensures old(writing) ==> segs == old(segs)
      ensures InFlight() == if old(InFlight()) > 0 || limited || closed then old(InFlight())
        else if quota < |queue.Contents()| then quota else |queue.Contents()|
    {
      TextLength(queue.chain);
      ghost var nodes := queue.chain;
      ghost var text := Text(nodes);
      assert forall i :: 0 <= i < |nodes| ==> nodes[i].buf in Bufs(nodes);
      if closed || writing || limited { return; }
      var amount := if queue.bytes < quota then queue.bytes else quota;
      if amount == 0 { return; }
      segs := queue.BuildIovec(amount);
      writing := true;
      assert Text(nodes) == text;
    }

    /** A write has ended: its bytes, or after an error some of them, have left. */
    method OnWrite(error: bool, n: nat, quota: nat)
      requires Valid() && writing && n <= |SegmentText(segs, queue.chain)|
        && (!error ==> n == |SegmentText(segs, queue.chain)|)
      modifies this`segs, this`writing, this`closed, queue
      ensures Valid() && n <= |old(queue.Contents())| && queue.Contents() == old(queue.Contents())[n..]
      ensures closed == (old(closed) || error) && (error ==> !writing) && Bufs(queue.chain) <= old(Bufs(queue.chain))
      ensures InFlight() == if limited || closed then 0
        else if quota < |queue.Contents()| then quota else |queue.Contents()|
    {
      SegmentsArePrefix(segs, queue.chain);
      ghost var k := queue.PopFront(n);
      EndWrite(error);
      if !closed { DoWrite(quota); }
    }

    method EndWrite(error: bool)
      requires queue.Valid()
      modifies this`writing, this`closed
      ensures !writing && closed == (old(closed) || error) && queue.Valid() && queue.Contents() == old(queue.Contents())
    {
      ghost var nodes := queue.chain;
      ghost var text := Text(nodes);
      assert forall i :: 0 <= i < |nodes| ==> nodes[i].buf in Bufs(nodes);
      writing := false;
      if error { closed := true; }
      assert Text(nodes) == text;
    }

    /** The connection has to wait for its rate limit. */
    method SetLimit(on: bool)
      requires Valid()
      modifies this`limited
      ensures Valid() && queue.Contents() == old(queue.Contents()) && limited == on
    {
      ghost var nodes := queue.chain;
      ghost var text := Text(nodes);
      assert forall i :: 0 <= i < |nodes| ==> nodes[i].buf in Bufs(nodes);
      limited := on;
      assert Text(nodes) == text;
    }

    /** Quota has been assigned. */
    method AssignBandwidth(quota: nat)
      requires Valid()
      modifies this`limited, this`segs, this`writing
      ensures Valid() && queue.Contents() == old(queue.Contents()) && !limited
      ensures InFlight() == if old(InFlight()) > 0 || closed then old(InFlight())
        else if quota < |queue.Contents()| then quota else |queue.Contents()|
    {
      SetLimit(false);
      DoWrite(quota);
    }

    /** Queues a message and sends it if nothing else is being sent. */
    method WriteMessage(header: seq<Byte>, body: seq<Byte>, spare1: nat, spare2: nat, quota: nat)
      requires Valid()
      modifies this`segs, this`writing, this`closed, queue, Bufs(queue.chain)
      ensures Valid() && queue.Contents() == old(queue.Contents()) + header + body && closed == old(closed)
      ensures InFlight() == if old(InFlight()) > 0 || limited || closed then old(InFlight())
        else if quota < |queue.Contents()| then quota else |queue.Contents()|
      ensures forall b :: b in Bufs(queue.chain) && b !in old(Bufs(queue.chain)) ==> fresh(b)
    {
      CopySendBuffer(header, spare1, true);
      CopySendBuffer(body, spare2, true);
      DoWrite(quota);
    }
  }

  /** The connection stands as the value says. */
  ghost predicate Is(conn: Connection, s: Sender)
    reads conn, conn.queue, Bufs(conn.queue.chain)
  {
    && conn.Valid() && s.flight <= |s.queued| && s.queued == conn.queue.Contents() && s.flight == conn.InFlight()
    && s.limited == conn.limited && s.closed == conn.closed
  }

  /** Whatever happens, a connection stands where the machine does, and the bytes that have left are the same. */
  method Run(events: seq<Event>) returns (sent: seq<Byte>, queued: seq<Byte>, flight: nat, closed: bool)
    ensures sent == SentBy(events)
    ensures var s := Stands(events); queued == s.queued && flight == s.flight && closed == s.closed
    ensures WrittenBy(events) == sent + queued
  {
    var conn := new Connection();
    sent := [];
    for i := 0 to |events|
      invariant fresh(conn) && fresh(conn.queue) && forall b :: b in Bufs(conn.queue.chain) ==> fresh(b)
      invariant true == Is(conn, Stands(events[..i])) && sent == SentBy(events[..i])
    {
      assert events[..i + 1][..i] == events[..i];
      var out := Do(conn, events[i], Stands(events[..i]));
      sent := sent + out;
    }
    assert events[..|events|] == events;
    AllAccounted(events);
    assert Is(conn, Stands(events));
    queued := conn.queue.Collect();
    flight, closed := conn.InFlight(), conn.closed;
  }

  /** One event; returns the bytes that leave. A write that is not in flight cannot end. */
  method Do(conn: Connection, e: Event, ghost s: Sender) returns (out: seq<Byte>)
    requires Is(conn, s)
    modifies conn, conn.queue, Bufs(conn.queue.chain)
    ensures true == Is(conn, Next(s, e)) && out == Leaving(s, e)
    ensures forall b :: b in Bufs(conn.queue.chain) && b !in old(Bufs(conn.queue.chain)) ==> fresh(b)
  {
    out := [];
    match e
    case Message(header, body, spare1, spare2, quota) => conn.WriteMessage(header, body, spare1, spare2, quota);
    case Limit => conn.SetLimit(true);
    case Assign(quota) => conn.AssignBandwidth(quota);
    case Ended(error, n, quota) => if conn.writing { out := End(conn, error, n, quota); }
  }

  /** The end of a write: all its bytes have left, or after an error perhaps only the first n. */
  method End(conn: Connection, error: bool, n: nat, quota: nat) returns (out: seq<Byte>)
    requires conn.Valid() && conn.writing
    modifies conn, conn.queue
    ensures conn.Valid() && old(conn.queue.Contents()) == out + conn.queue.Contents()
    ensures |out| == if error && n < old(conn.InFlight()) then n else old(conn.InFlight())
    ensures conn.closed == (old(conn.closed) || error) && conn.limited == old(conn.limited)
    ensures conn.InFlight() == if conn.limited || conn.closed then 0
      else if quota < |conn.queue.Contents()| then quota else |conn.queue.Contents()|
    ensures Bufs(conn.queue.chain) <= old(Bufs(conn.queue.chain))
  {
    SegmentsArePrefix(conn.segs, conn.queue.chain);
    out := ReadSegments(conn.segs, conn.queue.chain);
    SegmentsArePrefix(conn.segs, conn.queue.chain);
    if error && n < |out| { out := out[..n]; }
    ghost var text := conn.queue.Contents();
    assert out <= text;
    assert text == out + text[|out|..];
    conn.OnWrite(error, |out|, quota);
  }

  /** The bytes that the socket reads. */
  method ReadSegments(segs: seq<Segment>, ghost chain: seq<Node>) returns (out: seq<Byte>)
    requires Sound(chain) && FrontOf(segs, chain)
    ensures out == SegmentText(segs, chain)
  {
    out := [];
    for i := 0 to |segs|
      invariant FrontOf(segs[..i], chain) && out == SegmentText(segs[..i], chain)
    {
      assert segs[..i + 1][..i] == segs[..i];
      assert Fits(chain[i]);
      out := out + segs[i].buf[segs[i].start..segs[i].start + segs[i].len];
    }
    assert segs[..|segs|] == segs;
  }

  method NewBuffer(data: seq<Byte>, spare: nat) returns (buf: array<Byte>)
    ensures fresh(buf) && buf.Length == |data| + spare && buf[..|data|] == data
  {
    var size := |data| + spare;
    buf := new Byte[size](i requires 0 <= i < size => if i < |data| then data[i] else 0);
  }
}
