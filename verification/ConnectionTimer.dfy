/** When the timer of the connection queue is early enough: only the first entry of all arms it, so that a later
    one with a shorter timeout may be noticed late. */
module ConnectionTimer {
  import opened ConnectionEntries
  import opened ConnectionQueue
  import opened ConnectionRuns

  /** If the timer waits, then for no later than the earliest expiry. */
  predicate Timely(c: Core) { c.armed.At? ==> !Earlier(NextExpiry(c.entries), c.armed) }

  function Sooner(a: Time, b: Time): Time { if Earlier(a, b) then a else b }

  /** The earliest expiry among the entries that are to start. */
  function NewExpiry(q: seq<Entry>, slots: nat, clock: nat -> int, k: nat): Time {
    if q == [] || slots == 0 then Never
    else if q[0].connecting then NewExpiry(q[1..], slots, clock, k)
    else Sooner(At(clock(k) + q[0].timeout), NewExpiry(q[1..], slots - 1, clock, k + 1))
  }

  /** Starting entries adds their expiries to those there are. */
  lemma {:induction false} MarkExpiry(q: seq<Entry>, slots: nat, clock: nat -> int, k: nat)
    requires AllWellTimed(q)
    ensures NextExpiry(Mark(q, slots, clock, k)) == Sooner(NewExpiry(q, slots, clock, k), NextExpiry(q))
  {
    if q != [] && slots > 0 {
      var more := if q[0].connecting then slots else slots - 1;
      var k' := if q[0].connecting then k else k + 1;
      MarkExpiry(q[1..], more, clock, k');
      assert Mark(q, slots, clock, k)[1..] == Mark(q[1..], more, clock, k');
    }
  }

  /** Without connecting entries there is no expiry. */
  lemma {:induction false} NoExpiry(q: seq<Entry>)
    requires AllWellTimed(q) && CountConnecting(q) == 0
    ensures NextExpiry(q) == Never
  {
    if q != [] { NoExpiry(q[1..]); }
  }

  /** What starts does not expire before the timer goes off. */
  predicate NoneSooner(c: Core, clock: nat -> int) {
    var d := Connected(c, clock);
    HasSlot(c) && Slots(c) >= 0 && d.armed.At? ==> !Earlier(NewExpiry(c.entries, Slots(c), clock, 0), d.armed)
  }

  lemma ConnectedTimely(c: Core, clock: nat -> int)
    requires Counted(c) && AllWellTimed(c.entries)
    ensures Timely(Connected(c, clock)) <==> Timely(c) && NoneSooner(c, clock)
  {
    if c.numConnecting == 0 { NoExpiry(c.entries); }
    if HasSlot(c) && c.entries != [] {
      MarkExpiry(c.entries, Slots(c), clock, 0);
      if c.numConnecting == 0 && FirstIdle(c.entries, 0) == |c.entries| { AllConnecting(c.entries); }
    }
  }

  lemma {:induction false} AllConnecting(q: seq<Entry>)
    requires FirstIdle(q, 0) == |q|
    ensures CountConnecting(q) == |q|
  {
    if q != [] {
      FirstIdleShift(q, 0);
      AllConnecting(q[1..]);
    }
  }

  /** What a step must not do for the timer to stay early enough: start an entry that expires before the timer
      goes off, or arm it for a time that was found before a sooner one came up. */
  predicate OnTime(s: System, step: Step)
    requires Enabled(s, step)
  {
    match step
    case TryConnect(clock) => NoneSooner(s.core.(posted := s.core.posted - 1), clock)
    case Resume(w, clock) =>
      var next := s.sweeps[w].next;
      (next.At? ==> !Earlier(NextExpiry(s.core.entries), next)) && NoneSooner(Rearmed(s.core, next), clock)
    case _ => true
  }

  lemma {:induction false} ExpiryConcat(p: seq<Entry>, q: seq<Entry>)
    ensures NextExpiry(p + q) == Sooner(NextExpiry(p), NextExpiry(q))
  {
    if p == [] {
      assert p + q == q;
    } else {
      assert (p + q)[1..] == p[1..] + q;
      ExpiryConcat(p[1..], q);
    }
  }

  lemma {:induction false} StayingLater(q: seq<Entry>, now: int)
    ensures !Earlier(NextExpiry(Staying(q, now)), NextExpiry(q))
  {
    if q != [] {
      StayingLater(q[1..], now);
      if !TimedOut(q[0], now) { assert Staying(q, now)[1..] == Staying(q[1..], now); }
    }
  }

  lemma EnqueueTimely(s: System, step: Step)
    requires step.Enqueue? && Enabled(s, step) && Timely(s.core)
    ensures Timely(Take(s, step).core)
  {
    var e := Entry(s.core.nextTicket, step.priority, step.timeout, false, Never);
    assert [e][1..] == [] && NextExpiry([e]) == Never;
    ExpiryConcat(s.core.entries, [e]);
    ExpiryConcat([e], s.core.entries);
  }

  lemma DoneTimely(s: System, step: Step)
    requires step.Done? && Timely(s.core)
    ensures Timely(Take(s, step).core)
  {
    var q := s.core.entries;
    var i := IndexOf(q, step.ticket);
    if i < |q| { WithoutLater(q, i, Without(q, i)); }
  }

  /** Without one of the entries nothing expires earlier. */
  lemma WithoutLater(q: seq<Entry>, i: nat, r: seq<Entry>)
    requires i < |q| && r == Without(q, i)
    ensures !Earlier(NextExpiry(r), NextExpiry(q))
  {
    var a, e, b := q[..i], [q[i]], q[i + 1..];
    assert q == a + (e + b);
    ExpiryConcat(a, e + b);
    ExpiryConcat(e, b);
    ExpiryConcat(a, b);
  }

  /** The timer stays early enough over a step exactly if the step is on time. */
  lemma TimelyIff(limit: nat, steps: seq<Step>, s: System, step: Step)
    requires Reaches(Start(limit), steps, s) && Timely(s.core) && Enabled(s, step)
    ensures Timely(Take(s, step).core) <==> OnTime(s, step)
  {
    RunKeeps(Start(limit), steps, s);
    match step
    case Enqueue(_, _) => EnqueueTimely(s, step);
    case Done(_) => DoneTimely(s, step);
    case TryConnect(clock) => ConnectedTimely(s.core.(posted := s.core.posted - 1), clock);
    case CallConnect(_) =>
    case Fire =>
    case Timeout(now) => StayingLater(s.core.entries, now + SLACK);
    case CallTimeout(_) =>
    case Resume(w, clock) => ConnectedTimely(Rearmed(s.core, s.sweeps[w].next), clock);
  }

  /** With one entry connecting and a slot free, the next one is late exactly if its timeout ends sooner. */
  lemma LateEntry(first: Entry, second: Entry, limit: nat, clock: nat -> int)
    requires first.connecting && first.expires.At? && !second.connecting && second.expires.Never? && limit >= 2
    ensures var c := Core([first, second], 2, 1, limit, first.expires, 1);
      Timely(c) && (Timely(Connected(c, clock)) <==> first.expires.t <= clock(0) + second.timeout)
  {
    var c := Core([first, second], 2, 1, limit, first.expires, 1);
    var q := [second];
    assert c.entries[1..] == q && q[1..] == [];
    assert CountConnecting(q) == 0 && AllWellTimed(q) && NextExpiry(q) == Never;
    assert CountConnecting(c.entries) == 1 && AllWellTimed(c.entries) && NextExpiry(c.entries) == first.expires;
    assert NewExpiry(q[1..], limit - 2, clock, 1) == Never;
    assert NewExpiry(q, limit - 1, clock, 0) == At(clock(0) + second.timeout);
    ConnectedTimely(c, clock);
  }
}
