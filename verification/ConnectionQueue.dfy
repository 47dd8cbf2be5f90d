/** The half-open connection limiter. Each method is one section that runs under the lock; callbacks run
    between such sections, so a section hands out the tickets whose callbacks are due. */
module ConnectionQueue {
  import opened ConnectionEntries

  /** The queue, its counter, the time its timer waits for, and the try-connect calls that are posted. */
  datatype Core = Core(entries: seq<Entry>, nextTicket: nat, numConnecting: int, limit: nat, armed: Time, posted: nat)

  /** Milliseconds that a timer may be early. */
  const SLACK := 100

  /** The counter is right, and the limit is kept. */
  predicate Counted(c: Core) {
    c.numConnecting == CountConnecting(c.entries) && (c.limit > 0 ==> c.numConnecting <= c.limit)
  }

  predicate HasSlot(c: Core) { c.numConnecting < c.limit || c.limit == 0 }

  function Wake(c: Core): Core { if HasSlot(c) then c.(posted := c.posted + 1) else c }

  function Enqueued(c: Core, priority: nat, timeout: int): Core {
    var e := Entry(c.nextTicket, priority, timeout, false, Never);
    Wake(c.(entries := if priority == 0 then c.entries + [e] else [e] + c.entries, nextTicket := c.nextTicket + 1))
  }

  function Removed(c: Core, ticket: nat): Core {
    var i := IndexOf(c.entries, ticket);
    if i == |c.entries| then c else
    var n := if c.entries[i].connecting then c.numConnecting - 1 else c.numConnecting;
    Wake(c.(entries := Without(c.entries, i), numConnecting := n))
  }

  /** How many entries may start. */
  function Slots(c: Core): int { if c.limit == 0 then |c.entries| else c.limit - c.numConnecting }

  /** The first idle entry at or after i, or the end. */
  function FirstIdle(q: seq<Entry>, i: nat): (j: nat)
    requires i <= |q|
    ensures i <= j <= |q| && (j < |q| ==> !q[j].connecting) && forall k :: i <= k < j ==> q[k].connecting
    decreases |q| - i
  {
    if i == |q| || !q[i].connecting then i else FirstIdle(q, i + 1)
  }

  /** Tickets that start to connect. */
  function Starting(c: Core): seq<nat> {
    if HasSlot(c) && Slots(c) >= 0 then Marked(c.entries, Slots(c)) else []
  }

  /** As many entries as there are slots start to connect. The first of all arms the timer; an empty
      queue disarms it. */
  function Connected(c: Core, clock: nat -> int): Core {
    if !HasSlot(c) || Slots(c) < 0 then c
    else if c.entries == [] then c.(armed := Never)
    else
      var i := FirstIdle(c.entries, 0);
      var armed := if c.numConnecting == 0 && i < |c.entries| then At(clock(0) + c.entries[i].timeout) else c.armed;
      c.(entries := Mark(c.entries, Slots(c), clock, 0), armed := armed,
         numConnecting := c.numConnecting + |Marked(c.entries, Slots(c))|)
  }

  /** With a free slot, the entry at position i starts to connect exactly if it is idle and has fewer idle ones before
      it than there are slots; it gets the time it reads and its own timeout, and its ticket comes in this order.
      Other entries stay as they are. The first of all arms the timer. */
  lemma ConnectedAt(c: Core, clock: nat -> int, slots: nat, i: nat)
    requires c.numConnecting >= 0 && (c.limit > 0 ==> c.numConnecting < c.limit) && i < |c.entries|
    requires slots == if c.limit == 0 then |c.entries| else c.limit - c.numConnecting
    ensures var e, k, r := c.entries[i], IdleBefore(c.entries, i), Connected(c, clock);
      && |r.entries| == |c.entries| && r.limit == c.limit && r.posted == c.posted && r.nextTicket == c.nextTicket
      && r.numConnecting == c.numConnecting + |Starting(c)|
      && (e.connecting || k >= slots ==> r.entries[i] == e)
      && (!e.connecting && k < slots ==>
           && k < |Starting(c)| && Starting(c)[k] == e.ticket
           && r.entries[i] == Entry(e.ticket, e.priority, e.timeout, true, At(clock(k) + e.timeout)))
      && (!e.connecting && k == 0 ==>
           r.armed == if c.numConnecting == 0 then At(clock(0) + e.timeout) else c.armed)
  {
    var q := c.entries;
    MarkAt(q, slots, clock, 0, i);
    if !q[i].connecting && IdleBefore(q, i) == 0 { NoneBefore(q, i, FirstIdle(q, 0)); }
  }

  /** Without a free slot nothing starts; with one, as many as there are idle entries or slots. */
  lemma StartingCount(c: Core, clock: nat -> int, slots: nat)
    requires c.numConnecting >= 0 && slots == if c.limit == 0 then |c.entries| else Positive(c.limit - c.numConnecting)
    ensures c.limit > 0 && c.numConnecting >= c.limit ==> Starting(c) == [] && Connected(c, clock) == c
    ensures c.limit == 0 || c.numConnecting < c.limit ==>
      && |Starting(c)| == (if IdleBefore(c.entries, |c.entries|) < slots then IdleBefore(c.entries, |c.entries|)
        else slots)
      && (c.entries == [] ==> Connected(c, clock) == c.(armed := Never))
  {
    MarkedCount(c.entries, slots);
  }

  function Positive(x: int): nat { if x > 0 then x else 0 }

  lemma {:induction false} NoneBefore(q: seq<Entry>, i: nat, j: nat)
    requires j <= i < |q| && !q[i].connecting && IdleBefore(q, i) == 0 && !q[j].connecting
    ensures i == j
  {
    if j < i { IdleMonotone(q, j + 1, i); }
  }

  lemma {:induction false} IdleMonotone(q: seq<Entry>, i: nat, j: nat)
    requires i <= j <= |q|
    ensures IdleBefore(q, i) <= IdleBefore(q, j)
  {
    if i < j { IdleMonotone(q, i, j - 1); }
  }

  function Swept(c: Core, now: int): Core {
    c.(entries := Staying(c.entries, now + SLACK), numConnecting := c.numConnecting - |Leaving(c.entries, now + SLACK)|)
  }

  function Rearmed(c: Core, next: Time): Core { if next.At? then c.(armed := next) else c }

  // ---------------------------------------------------------------- loops over the entries

  /** In the middle of marking: up to i the entries are final, and what is left follows. */
  ghost predicate Marking(goal: seq<Entry>, tickets: seq<nat>, q: seq<Entry>, i: nat, left: nat, clock: nat -> int,
    todo: seq<nat>)
    requires i <= |q|
  {
    && goal == q[..i] + Mark(q[i..], left, clock, |todo|)
    && tickets == todo + Marked(q[i..], left)
  }

  lemma {:induction false} MarkingSkips(goal: seq<Entry>, tickets: seq<nat>, q: seq<Entry>, i: nat, j: nat,
    left: nat, clock: nat -> int, todo: seq<nat>)
    requires i <= j <= |q| && Marking(goal, tickets, q, i, left, clock, todo) && (left > 0 || i == j)
    requires forall k :: i <= k < j ==> q[k].connecting
    ensures Marking(goal, tickets, q, j, left, clock, todo)
    decreases j - i
  {
    if i < j {
      assert q[i..][1..] == q[i + 1..] && q[i..][0] == q[i];
      assert q[..i + 1] == q[..i] + [q[i]];
      var tail := Mark(q[i + 1..], left, clock, |todo|);
      assert q[..i] + ([q[i]] + tail) == q[..i] + [q[i]] + tail;
      MarkingSkips(goal, tickets, q, i + 1, j, left, clock, todo);
    }
  }

  lemma MarkingMarks(goal: seq<Entry>, tickets: seq<nat>, q: seq<Entry>, i: nat, left: nat, clock: nat -> int,
    todo: seq<nat>)
    requires i < |q| && Marking(goal, tickets, q, i, left, clock, todo) && left > 0 && !q[i].connecting
    ensures Marking(goal, tickets, q[i := Connect(q[i], clock(|todo|) + q[i].timeout)], i + 1, left - 1, clock, todo
      + [q[i].ticket])
  {
    var e := Connect(q[i], clock(|todo|) + q[i].timeout);
    var r := q[i := e];
    assert q[i..][1..] == q[i + 1..] == r[i + 1..] && q[i..][0] == q[i];
    assert r[..i + 1] == q[..i] + [e];
    var tail := Mark(q[i + 1..], left - 1, clock, |todo| + 1);
    assert q[..i] + ([e] + tail) == q[..i] + [e] + tail;
    var rest := Marked(q[i + 1..], left - 1);
    assert todo + ([q[i].ticket] + rest) == todo + [q[i].ticket] + rest;
  }

  lemma MarkingEnds(goal: seq<Entry>, tickets: seq<nat>, q: seq<Entry>, i: nat, left: nat, clock: nat -> int,
    todo: seq<nat>)
    requires i <= |q| && Marking(goal, tickets, q, i, left, clock, todo) && (left == 0 || i == |q|)
    ensures goal == q && tickets == todo
  {
    assert q == q[..i] + q[i..];
  }

  /** In the middle of a sweep: before i the entries stay; those from i on have not been looked at. */
  ghost predicate Sweeping(goal: seq<Entry>, tickets: seq<nat>, q: seq<Entry>, i: nat, now: int, gone: seq<nat>)
    requires i <= |q|
  {
    goal == q[..i] + Staying(q[i..], now) && tickets == gone + Leaving(q[i..], now)
  }

  lemma SweepingStep(goal: seq<Entry>, tickets: seq<nat>, q: seq<Entry>, i: nat, now: int, gone: seq<nat>)
    requires i < |q| && Sweeping(goal, tickets, q, i, now, gone)
    ensures if TimedOut(q[i], now) then Sweeping(goal, tickets, q[..i] + q[i + 1..], i, now, gone + [q[i].ticket])
            else Sweeping(goal, tickets, q, i + 1, now, gone)
  {
    assert q[i..][1..] == q[i + 1..] && q[i..][0] == q[i];
    var tail, rest := Staying(q[i + 1..], now), Leaving(q[i + 1..], now);
    if TimedOut(q[i], now) {
      var r := q[..i] + q[i + 1..];
      assert r[..i] == q[..i] && r[i..] == q[i + 1..];
      assert gone + ([q[i].ticket] + rest) == gone + [q[i].ticket] + rest;
    } else {
      assert q[..i + 1] == q[..i] + [q[i]];
      assert q[..i] + ([q[i]] + tail) == q[..i] + [q[i]] + tail;
    }
  }

  lemma {:induction false} ExpiryAppend(q: seq<Entry>, e: Entry)
    ensures NextExpiry(q + [e]) == if Earlier(e.expires, NextExpiry(q)) then e.expires else NextExpiry(q)
  {
    if q == [] {
      assert q + [e] == [e] && NextExpiry([e][1..]) == Never;
    } else {
      assert (q + [e])[1..] == q[1..] + [e];
      ExpiryAppend(q[1..], e);
    }
  }

  // ---------------------------------------------------------------- the queue

  class ConnectionQueue {
    const limit: nat
    var entries: seq<Entry>
    var nextTicket: nat
    var numConnecting: int
    var armed: Time
    var posted: nat

    constructor (limit: nat)
      ensures Value() == Core([], 0, 0, limit, Never, 0)
    {
      this.limit := limit;
      entries, nextTicket, numConnecting, armed, posted := [], 0, 0, Never, 0;
    }

    function Value(): Core
      reads this
    {
      Core(entries, nextTicket, numConnecting, limit, armed, posted)
    }

    method Enqueue(timeout: int, priority: nat)
      requires priority < 3
      modifies this
      ensures Value() == Enqueued(old(Value()), priority, timeout)
      ensures nextTicket == old(nextTicket) + 1 && numConnecting == old(numConnecting) && armed == old(armed)
      ensures var e := Entry(old(nextTicket), priority, timeout, false, Never);
        entries == if priority == 0 then old(entries) + [e] else [e] + old(entries)
      ensures posted == old(posted) + if limit == 0 || numConnecting < limit then 1 else 0
    {
      var e := Entry(nextTicket, priority, timeout, false, Never);
      if priority == 0 { entries := entries + [e]; } else { entries := [e] + entries; }
      nextTicket := nextTicket + 1;
      if numConnecting < limit || limit == 0 { posted := posted + 1; }
    }

    method FindTicket(ticket: nat) returns (i: nat)
      ensures i == IndexOf(entries, ticket)
    {
      i := 0;
      assert entries[0..] == entries;
      while i < |entries| && entries[i].ticket != ticket
        invariant i <= |entries| && IndexOf(entries, ticket) == i + IndexOf(entries[i..], ticket)
      {
        assert entries[i..][1..] == entries[i + 1..];
        i := i + 1;
      }
    }

    method Done(ticket: nat)
      modifies this
      ensures Value() == Removed(old(Value()), ticket)
      ensures (forall e :: e in old(entries) ==> e.ticket != ticket) ==> Value() == old(Value())
      ensures (exists e :: e in old(entries) && e.ticket == ticket) ==>
        exists i :: 0 <= i < |old(entries)| && old(entries)[i].ticket == ticket
          && entries == old(entries)[..i] + old(entries)[i + 1..]
          && numConnecting == old(numConnecting) - (if old(entries)[i].connecting then 1 else 0)
          && posted == old(posted) + if limit == 0 || numConnecting < limit then 1 else 0
    {
      var i := FindTicket(ticket);
      if i == |entries| { return; }
      if entries[i].connecting { numConnecting := numConnecting - 1; }
      entries := Without(entries, i);
      if numConnecting < limit || limit == 0 { posted := posted + 1; }
    }

    /** The first idle entry at or after i. */
    method FindIdle(i: nat) returns (j: nat)
      requires i <= |entries|
      ensures j == FirstIdle(entries, i)
    {
      j := i;
      while j < |entries| && entries[j].connecting
        invariant i <= j <= |entries| && FirstIdle(entries, i) == FirstIdle(entries, j)
      {
        j := j + 1;
      }
    }

    /** Lets entries start to connect while there are slots; returns the tickets whose connect callbacks
        are to run once the lock is released. */
    method TryConnect(clock: nat -> int) returns (toConnect: seq<nat>)
      requires Counted(Value())
      modifies this
      ensures Value() == Connected(old(Value()), clock) && toConnect == Starting(old(Value()))
    {
      toConnect := [];
      if numConnecting >= limit && limit > 0 { return; }
      if entries == [] {
        armed := Never;
        return;
      }
      var i := FindIdle(0);
      toConnect := StartAll(i, clock, Slots(Value()));
    }

    /** The loop that starts entries, from the first idle one on. */
    method StartAll(first: nat, clock: nat -> int, ghost slots: nat) returns (toConnect: seq<nat>)
      requires first <= |entries| && first == FirstIdle(entries, 0) && slots == Slots(Value()) > 0 && numConnecting >= 0
      modifies this`entries, this`numConnecting, this`armed
      ensures entries == Mark(old(entries), slots, clock, 0) && toConnect == Marked(old(entries), slots)
      ensures numConnecting == old(numConnecting) + |toConnect|
      ensures armed == if old(numConnecting) == 0 && first < |old(entries)| then
        At(clock(0) + old(entries[first]).timeout)
                       else old(armed)
    {
      ghost var goal, tickets := Mark(entries, slots, clock, 0), Marked(entries, slots);
      toConnect := [];
      var i := first;
      assert Marking(goal, tickets, entries, 0, slots, clock, toConnect) by { assert entries[0..] == entries; }
      MarkingSkips(goal, tickets, entries, 0, i, slots, clock, toConnect);
      if i < |entries| {
        var more := StartOne(i, clock, toConnect, goal, tickets, slots);
        toConnect := [entries[i].ticket];
        assert UnderWay(i + 1, more, clock, toConnect, goal, tickets, slots);
        toConnect := StartRest(i + 1, more, clock, toConnect, goal, tickets, slots);
      } else {
        MarkingEnds(goal, tickets, entries, i, slots, clock, toConnect);
      }
    }

    /** Some entries have started, and up to i all is settled; what is left of the slots is counted. */
    ghost predicate UnderWay(i: nat, more: bool, clock: nat -> int, todo: seq<nat>, goal: seq<Entry>,
      tickets: seq<nat>, slots: nat)
      reads this
    {
      && 0 < |todo| <= i <= |entries| && |todo| <= slots && numConnecting > 0
      && slots - |todo| == (if limit == 0 then |entries| - |todo| else limit - numConnecting)
      && (more <==> numConnecting < limit || limit == 0)
      && Marking(goal, tickets, entries, i, slots - |todo|, clock, todo)
    }

    /** The same from entry i on, once some have started. */
    method StartRest(i: nat, more: bool, clock: nat -> int, todo: seq<nat>, ghost goal: seq<Entry>,
      ghost tickets: seq<nat>, ghost slots: nat)
      returns (toConnect: seq<nat>)
      requires true == UnderWay(i, more, clock, todo, goal, tickets, slots)
      modifies this`entries, this`numConnecting, this`armed
      ensures entries == goal && toConnect == tickets
      ensures numConnecting == old(numConnecting) + |toConnect| - |todo| && armed == old(armed)
    {
      toConnect := todo;
      var k, again := i, more;
      while again
        invariant true == UnderWay(k, again, clock, toConnect, goal, tickets, slots)
        invariant numConnecting == old(numConnecting) + |toConnect| - |todo| && armed == old(armed)
        decreases |entries| - k
      {
        var j := FindIdle(k);
        MarkingSkips(goal, tickets, entries, k, j, slots - |toConnect|, clock, toConnect);
        k := j;
        if k == |entries| { break; }
        again, toConnect := StartNext(k, clock, toConnect, goal, tickets, slots);
        k := k + 1;
      }
      MarkingEnds(goal, tickets, entries, k, slots - |toConnect|, clock, toConnect);
    }

    /** Entry k starts to connect, after others. */
    method StartNext(k: nat, clock: nat -> int, todo: seq<nat>, ghost goal: seq<Entry>, ghost tickets: seq<nat>,
      ghost slots: nat)
      returns (more: bool, todo': seq<nat>)
      requires k < |entries| && !entries[k].connecting && true == UnderWay(k, true, clock, todo, goal, tickets, slots)
      modifies this`entries, this`numConnecting, this`armed
      ensures true == UnderWay(k + 1, more, clock, todo', goal, tickets, slots)
      ensures |entries| == |old(entries)| && |todo'| == |todo| + 1
      ensures numConnecting == old(numConnecting) + 1 && armed == old(armed)
    {
      more := StartOne(k, clock, todo, goal, tickets, slots - |todo|);
      todo' := todo + [entries[k].ticket];
    }

    /** Entry i starts to connect; tells whether there are slots left. */
    method StartOne(i: nat, clock: nat -> int, todo: seq<nat>, ghost goal: seq<Entry>, ghost tickets: seq<nat>,
      ghost left: nat)
      returns (more: bool)
      requires i < |entries| && !entries[i].connecting && left > 0
        && Marking(goal, tickets, entries, i, left, clock, todo)
      modifies this`entries, this`numConnecting, this`armed
      ensures |entries| == |old(entries)| && entries[i].ticket == old(entries[i]).ticket
      ensures Marking(goal, tickets, entries, i + 1, left - 1, clock, todo + [entries[i].ticket])
      ensures numConnecting == old(numConnecting) + 1
      ensures armed == if old(numConnecting) == 0 then At(clock(|todo|) + old(entries[i]).timeout) else old(armed)
      ensures more == (numConnecting < limit || limit == 0)
    {
      MarkingMarks(goal, tickets, entries, i, left, clock, todo);
      var expire := clock(|todo|) + entries[i].timeout;
      if numConnecting == 0 { armed := At(expire); }
      entries := entries[i := Connect(entries[i], expire)];
      numConnecting := numConnecting + 1;
      more := numConnecting < limit || limit == 0;
    }

    /** A posted call. */
    method OnTryConnect(clock: nat -> int) returns (toConnect: seq<nat>)
      requires posted > 0 && Counted(Value())
      modifies this
      ensures var c := old(Value()); var c' := c.(posted := c.posted - 1);
        Value() == Connected(c', clock) && toConnect == Starting(c')
    {
      posted := posted - 1;
      toConnect := TryConnect(clock);
    }

    /** The first part of a timeout: takes the expired entries out and notes when the next one is due. */
    method OnTimeout(now: int) returns (timedOut: seq<nat>, next: Time)
      modifies this
      ensures Value() == Swept(old(Value()), now)
      ensures timedOut == Leaving(old(entries), now + SLACK) && next == NextExpiry(Swept(old(Value()), now).entries)
      ensures |timedOut| + |entries| == |old(entries)| && numConnecting == old(numConnecting) - |timedOut|
      ensures forall k :: k in timedOut ==>
        exists e :: e in old(entries) && e.ticket == k && e.connecting && e.expires.At? && e.expires.t < now + 100
      ensures forall e :: e in entries ==>
        e in old(entries) && !(e.connecting && e.expires.At? && e.expires.t < now + 100)
      ensures forall e :: e in entries ==> !Earlier(e.expires, next)
      ensures next.At? ==> exists e :: e in entries && e.expires == next
    {
      timedOut, next := Sweep(now);
      SweepFields(old(entries), now + SLACK);
      NextExpiryIsLeast(entries);
    }

    method Sweep(now: int) returns (timedOut: seq<nat>, next: Time)
      modifies this
      ensures Value() == Swept(old(Value()), now)
      ensures timedOut == Leaving(old(entries), now + SLACK) && next == NextExpiry(entries)
    {
      ghost var goal, tickets := Staying(entries, now + SLACK), Leaving(entries, now + SLACK);
      timedOut, next := [], Never;
      var i := 0;
      assert entries[0..] == entries;
      while i < |entries|
        invariant i <= |entries| && true == Sweeping(goal, tickets, entries, i, now + SLACK, timedOut)
        invariant numConnecting == old(numConnecting) - |timedOut| && next == NextExpiry(entries[..i])
        invariant nextTicket == old(nextTicket) && armed == old(armed) && posted == old(posted)
        decreases |entries| - i
      {
        SweepingStep(goal, tickets, entries, i, now + SLACK, timedOut);
        if TimedOut(entries[i], now + SLACK) {
          timedOut := timedOut + [entries[i].ticket];
          ghost var before := entries[..i];
          entries := Without(entries, i);
          assert entries[..i] == before;
          numConnecting := numConnecting - 1;
        } else {
          ExpiryAppend(entries[..i], entries[i]);
          assert entries[..i + 1] == entries[..i] + [entries[i]];
          if Earlier(entries[i].expires, next) { next := entries[i].expires; }
          i := i + 1;
        }
      }
      assert entries[..i] == entries;
    }

    /** The second part, once the timeout callbacks have run: arms the timer and uses the free slots. */
    method Resume(next: Time, clock: nat -> int) returns (toConnect: seq<nat>)
      requires Counted(Value())
      modifies this
      ensures var c := Rearmed(old(Value()), next);
        Value() == Connected(c, clock) && toConnect == Starting(c)
      ensures old(entries) != [] && old(numConnecting) > 0 ==> armed == if next.At? then next else old(armed)
    {
      if next.At? { armed := next; }
      toConnect := TryConnect(clock);
    }
  }
}
