/** Runs of the connection queue: locked sections, timer events and callbacks in any order. */
module ConnectionRuns {
  import opened ConnectionEntries
  import opened ConnectionQueue

  /** A timeout between its two sections: the callbacks that are left, and the next expiry it found. */
  datatype Sweep = Sweep(callbacks: seq<nat>, next: Time)

  /** The queue and what goes on around it: timer waits that are over but not handled, connect callbacks
      handed out and not yet run, timeouts in progress, and what has happened to which ticket. */
  datatype System = System(core: Core, ready: nat, toConnect: seq<seq<nat>>, sweeps: seq<Sweep>,
                           connected: seq<nat>, timedOut: seq<nat>, finished: seq<nat>, withdrawn: seq<nat>)

  datatype Step =
    | Enqueue(priority: nat, timeout: int)
    | Done(ticket: nat)
    | TryConnect(clock: nat -> int)
    | CallConnect(w: nat)
    | Fire
    | Timeout(now: int)
    | CallTimeout(w: nat)
    | Resume(w: nat, clock: nat -> int)

  function Start(limit: nat): System { System(Core([], 0, 0, limit, Never, 0), 0, [], [], [], [], [], []) }

  predicate Enabled(s: System, step: Step) {
    match step
    case Enqueue(priority, _) => priority < 3
    case Done(_) => true
    case TryConnect(_) => s.core.posted > 0
    case CallConnect(w) => w < |s.toConnect| && s.toConnect[w] != []
    case Fire => s.core.armed.At?
    case Timeout(_) => s.ready > 0
    case CallTimeout(w) => w < |s.sweeps| && s.sweeps[w].callbacks != []
    case Resume(w, _) => w < |s.sweeps| && s.sweeps[w].callbacks == []
  }

  /** A section that ends in a call of try_connect. */
  function Trying(s: System, c: Core, clock: nat -> int): System {
    s.(core := Connected(c, clock), toConnect := s.toConnect + [Starting(c)])
  }

  function Take(s: System, step: Step): System
    requires Enabled(s, step)
  {
    match step
    case Enqueue(priority, timeout) => s.(core := Enqueued(s.core, priority, timeout))
    case Done(ticket) =>
      var i := IndexOf(s.core.entries, ticket);
      var t := s.(core := Removed(s.core, ticket));
      if i == |s.core.entries| then t
      else if s.core.entries[i].connecting then t.(finished := s.finished + [ticket])
      else t.(withdrawn := s.withdrawn + [ticket])
    case TryConnect(clock) => Trying(s, s.core.(posted := s.core.posted - 1), clock)
    case CallConnect(w) =>
      s.(connected := s.connected + [s.toConnect[w][0]], toConnect := s.toConnect[w := s.toConnect[w][1..]])
    case Fire => s.(core := s.core.(armed := Never), ready := s.ready + 1)
    case Timeout(now) =>
      var c := Swept(s.core, now);
      s.(core := c, ready := s.ready - 1,
         sweeps := s.sweeps + [Sweep(Leaving(s.core.entries, now + SLACK), NextExpiry(c.entries))])
    case CallTimeout(w) =>
      s.(timedOut := s.timedOut + [s.sweeps[w].callbacks[0]],
         sweeps := s.sweeps[w := s.sweeps[w].(callbacks := s.sweeps[w].callbacks[1..])])
    case Resume(w, clock) =>
      var t := s.(sweeps := s.sweeps[..w] + s.sweeps[w + 1..]);
      Trying(t, Rearmed(s.core, s.sweeps[w].next), clock)
  }

  // ---------------------------------------------------------------- what every step keeps

  function Handed(ws: seq<seq<nat>>): multiset<nat> {
    if ws == [] then multiset{} else multiset(ws[0]) + Handed(ws[1..])
  }

  function Expired(ws: seq<Sweep>): multiset<nat> {
    if ws == [] then multiset{} else multiset(ws[0].callbacks) + Expired(ws[1..])
  }

  /** How often ticket k is in the queue, finished, withdrawn or timed out. */
  function Places(s: System, k: nat): nat {
    Tickets(s.core.entries)[k] + multiset(s.finished)[k] + multiset(s.withdrawn)[k] + multiset(s.timedOut)[k]
      + Expired(s.sweeps)[k]
  }

  /** How often the connect callback of ticket k has run or has been handed out. */
  function Issued(s: System, k: nat): nat { multiset(s.connected)[k] + Handed(s.toConnect)[k] }

  /** How often ticket k has been issued, waits or was withdrawn. */
  function Calls(s: System, k: nat): nat { Issued(s, k) + Idle(s.core.entries)[k] + multiset(s.withdrawn)[k] }

  function Given(n: nat, k: nat): nat { if k < n then 1 else 0 }

  /** Every ticket ever given is in exactly one place, and has exactly one fate as to its connect callback. */
  ghost predicate Conserved(s: System) {
    forall k: nat :: Places(s, k) == Given(s.core.nextTicket, k) && Calls(s, k) == Given(s.core.nextTicket, k)
  }

  /** An idle entry with a free slot has a try-connect coming. */
  predicate NoLostWakeup(s: System) {
    HasIdle(s.core.entries) && HasSlot(s.core) ==> s.core.posted > 0 || s.sweeps != []
  }

  predicate WillRearm(ws: seq<Sweep>) { exists i :: 0 <= i < |ws| && ws[i].next.At? }

  /** While an entry connects, the timer waits, is about to be handled, or is about to be armed again. */
  predicate TimerCovers(s: System) {
    s.core.numConnecting > 0 ==> s.core.armed.At? || s.ready > 0 || WillRearm(s.sweeps)
  }

  predicate Controlled(s: System) {
    Counted(s.core) && AllWellTimed(s.core.entries) && NoLostWakeup(s) && TimerCovers(s)
  }

  ghost predicate Inv(s: System) { Controlled(s) && Conserved(s) }

  lemma {:induction false} HandedAppend(ws: seq<seq<nat>>, w: seq<nat>)
    ensures Handed(ws + [w]) == Handed(ws) + multiset(w)
  {
    if ws == [] {
      assert ws + [w] == [w] && [w][1..] == [];
    } else {
      assert (ws + [w])[1..] == ws[1..] + [w];
      HandedAppend(ws[1..], w);
    }
  }

  lemma {:induction false} HandedPop(ws: seq<seq<nat>>, w: nat)
    requires w < |ws| && ws[w] != []
    ensures Handed(ws) == Handed(ws[w := ws[w][1..]]) + multiset{ws[w][0]}
  {
    var r := ws[w := ws[w][1..]];
    assert ws[w] == [ws[w][0]] + ws[w][1..];
    if w == 0 {
      assert r[1..] == ws[1..];
    } else {
      assert r[1..] == ws[1..][w - 1 := ws[w][1..]];
      HandedPop(ws[1..], w - 1);
    }
  }

  lemma {:induction false} ExpiredAppend(ws: seq<Sweep>, w: Sweep)
    ensures Expired(ws + [w]) == Expired(ws) + multiset(w.callbacks)
  {
    if ws == [] {
      assert ws + [w] == [w] && [w][1..] == [];
    } else {
      assert (ws + [w])[1..] == ws[1..] + [w];
      ExpiredAppend(ws[1..], w);
    }
  }

  lemma {:induction false} ExpiredPop(ws: seq<Sweep>, w: nat, r: seq<Sweep>)
    requires w < |ws| && ws[w].callbacks != [] && r == ws[w := ws[w].(callbacks := ws[w].callbacks[1..])]
    ensures Expired(ws) == Expired(r) + multiset{ws[w].callbacks[0]}
  {
    assert ws[w].callbacks == [ws[w].callbacks[0]] + ws[w].callbacks[1..];
    if w == 0 {
      assert r[1..] == ws[1..];
    } else {
      assert r[1..] == ws[1..][w - 1 := ws[w].(callbacks := ws[w].callbacks[1..])];
      ExpiredPop(ws[1..], w - 1, r[1..]);
    }
  }

  lemma {:induction false} ExpiredDrop(ws: seq<Sweep>, w: nat)
    requires w < |ws| && ws[w].callbacks == []
    ensures Expired(ws) == Expired(ws[..w] + ws[w + 1..])
  {
    var r := ws[..w] + ws[w + 1..];
    if w == 0 {
      assert r == ws[1..];
    } else {
      assert r[1..] == ws[1..][..w - 1] + ws[1..][w..];
      ExpiredDrop(ws[1..], w - 1);
    }
  }

  // ---------------------------------------------------------------- one step: control

  /** try_connect leaves no idle entry beside a free slot, and arms the timer before the first connect. */
  lemma TryingControls(s: System, c: Core, clock: nat -> int)
    requires Counted(c) && AllWellTimed(c.entries) && TimerCovers(s.(core := c))
    ensures true == Controlled(Trying(s, c, clock))
  {
    ConnectedFills(c, clock);
  }

  lemma ConnectedFills(c: Core, clock: nat -> int)
    requires Counted(c) && AllWellTimed(c.entries)
    ensures var d := Connected(c, clock);
      && Counted(d) && AllWellTimed(d.entries) && !(HasIdle(d.entries) && HasSlot(d))
      && (d.numConnecting > 0 ==> d.armed.At? || (c.numConnecting > 0 && d.armed == c.armed))
  {
    if HasSlot(c) {
      MarkFills(c.entries, Slots(c), clock, 0);
      MarkBounded(c.entries, Slots(c));
      CountBounded(Mark(c.entries, Slots(c), clock, 0));
    }
  }

  lemma {:induction false} MarkBounded(q: seq<Entry>, slots: nat)
    ensures |Marked(q, slots)| + CountConnecting(q) <= |q|
    ensures |Marked(q, slots)| > 0 ==> FirstIdle(q, 0) < |q|
  {
    if q != [] && slots > 0 {
      FirstIdleShift(q, 0);
      MarkBounded(q[1..], if q[0].connecting then slots else slots - 1);
    } else {
      CountBounded(q);
    }
  }

  lemma {:induction false} CountBounded(q: seq<Entry>)
    ensures CountConnecting(q) <= |q| && (HasIdle(q) ==> CountConnecting(q) < |q|)
  {
    if q != [] { CountBounded(q[1..]); }
  }

  lemma {:induction false} FirstIdleShift(q: seq<Entry>, i: nat)
    requires i < |q|
    ensures FirstIdle(q, i + 1) == FirstIdle(q[1..], i) + 1
    decreases |q| - i
  {
    if i + 1 < |q| && q[i + 1].connecting { FirstIdleShift(q, i + 1); }
  }

  lemma EnqueueControls(s: System, step: Step)
    requires true == Controlled(s) && step.Enqueue? && Enabled(s, step)
    ensures true == Controlled(Take(s, step))
  {
    var e := Entry(s.core.nextTicket, step.priority, step.timeout, false, Never);
    Concat(s.core.entries, [e]);
    Concat([e], s.core.entries);
    ConcatFlags(s.core.entries, [e]);
    ConcatFlags([e], s.core.entries);
    One(e);
  }

  lemma DoneControls(s: System, step: Step)
    requires true == Controlled(s) && step.Done?
    ensures true == Controlled(Take(s, step))
  {
    var i := IndexOf(s.core.entries, step.ticket);
    if i < |s.core.entries| {
      DoneMoves(s, step, i);
      LeavingControls(s, Take(s, step), i);
    }
  }

  lemma LeavingControls(s: System, t: System, i: nat)
    requires i < |s.core.entries| && true == Controlled(s) && EntryLeft(s, t, i)
    ensures true == Controlled(t)
  {
    WithoutParts(s.core.entries, i);
    WithoutFlags(s.core.entries, i);
  }

  lemma SweptCounted(c: Core, now: int)
    requires Counted(c) && AllWellTimed(c.entries)
    ensures var d := Swept(c, now);
      Counted(d) && AllWellTimed(d.entries) && (d.numConnecting > 0 ==> NextExpiry(d.entries).At?)
  {
    SweepSplits(c.entries, now + SLACK);
    SweepFlags(c.entries, now + SLACK);
  }

  lemma TimeoutControls(s: System, step: Step)
    requires Controlled(s) && step.Timeout? && Enabled(s, step)
    ensures Controlled(Take(s, step))
  {
    var t := Take(s, step);
    SweptCounted(s.core, step.now);
    SweepAdded(s.sweeps, t.sweeps, NextExpiry(t.core.entries));
  }

  lemma SweepAdded(ws: seq<Sweep>, ws': seq<Sweep>, next: Time)
    requires |ws'| == |ws| + 1 && ws'[|ws|].next == next
    ensures ws' != [] && (next.At? ==> WillRearm(ws'))
  {}

  lemma CallTimeoutControls(s: System, step: Step)
    requires true == Controlled(s) && step.CallTimeout? && Enabled(s, step)
    ensures true == Controlled(Take(s, step))
  {
    if WillRearm(s.sweeps) {
      var i :| 0 <= i < |s.sweeps| && s.sweeps[i].next.At?;
      assert Take(s, step).sweeps[i].next.At?;
    }
  }

  lemma ResumeControls(s: System, step: Step)
    requires true == Controlled(s) && step.Resume? && Enabled(s, step)
    ensures true == Controlled(Take(s, step))
  {
    var w, next := step.w, s.sweeps[step.w].next;
    var t := s.(sweeps := s.sweeps[..w] + s.sweeps[w + 1..]);
    if WillRearm(s.sweeps) && next.Never? {
      var i :| 0 <= i < |s.sweeps| && s.sweeps[i].next.At?;
      assert t.sweeps[if i < w then i else i - 1].next.At?;
    }
    TryingControls(t, Rearmed(s.core, next), step.clock);
  }

  lemma StepControls(s: System, step: Step)
    requires true == Controlled(s) && Enabled(s, step)
    ensures true == Controlled(Take(s, step))
  {
    match step
    case Enqueue(_, _) => EnqueueControls(s, step);
    case Done(_) => DoneControls(s, step);
    case TryConnect(clock) => TryingControls(s, s.core.(posted := s.core.posted - 1), clock);
    case CallConnect(_) =>
    case Fire =>
    case Timeout(_) => TimeoutControls(s, step);
    case CallTimeout(_) => CallTimeoutControls(s, step);
    case Resume(_, _) => ResumeControls(s, step);
  }

  // ---------------------------------------------------------------- one step: conservation

  /** No ticket is made. */
  predicate Keeps(s: System, t: System, k: nat) {
    Places(t, k) == Places(s, k) && Calls(t, k) == Calls(s, k) && t.core.nextTicket == s.core.nextTicket
  }

  /** Tickets go from the queue to a timeout, or from waiting to being handed out. */
  lemma Balanced(s: System, t: System, k: nat)
    requires t.finished == s.finished && t.withdrawn == s.withdrawn && t.timedOut == s.timedOut
      && t.connected == s.connected
    requires t.core.nextTicket == s.core.nextTicket
    requires Tickets(t.core.entries)[k] + Expired(t.sweeps)[k] == Tickets(s.core.entries)[k] + Expired(s.sweeps)[k]
    requires Idle(t.core.entries)[k] + Handed(t.toConnect)[k] == Idle(s.core.entries)[k] + Handed(s.toConnect)[k]
    ensures Keeps(s, t, k)
  {}

  lemma TryingConserves(s: System, c: Core, clock: nat -> int, k: nat, t: System)
    requires c.entries == s.core.entries && c.nextTicket == s.core.nextTicket && Counted(c) && t == Trying(s, c, clock)
    ensures true == Keeps(s, t, k)
  {
    TryingHands(s, c, clock, k);
    Balanced(s, t, k);
  }

  lemma TryingHands(s: System, c: Core, clock: nat -> int, k: nat)
    requires Counted(c)
    ensures var d, hs := Connected(c, clock), s.toConnect + [Starting(c)];
      && Tickets(d.entries)[k] == Tickets(c.entries)[k] && d.nextTicket == c.nextTicket
      && Idle(d.entries)[k] + Handed(hs)[k] == Idle(c.entries)[k] + Handed(s.toConnect)[k]
  {
    ConnectedMoves(c, clock);
    HandedAppend(s.toConnect, Starting(c));
  }

  /** What try_connect hands out is no longer idle. */
  lemma ConnectedMoves(c: Core, clock: nat -> int)
    requires Counted(c)
    ensures var d := Connected(c, clock);
      && Tickets(d.entries) == Tickets(c.entries) && Idle(c.entries) == Idle(d.entries) + multiset(Starting(c))
      && d.nextTicket == c.nextTicket
  {
    if HasSlot(c) { MarkFills(c.entries, Slots(c), clock, 0); }
  }

  lemma EnqueueConserves(s: System, step: Step, k: nat)
    requires step.Enqueue? && Enabled(s, step)
    ensures var t, made := Take(s, step), if k == s.core.nextTicket then 1 else 0;
      Places(t, k) == Places(s, k) + made && Calls(t, k) == Calls(s, k) + made
        && t.core.nextTicket == s.core.nextTicket + 1
  {
    var e := Entry(s.core.nextTicket, step.priority, step.timeout, false, Never);
    EntryAdded(s.core.entries, e, k);
    var t := Take(s, step);
    assert t.core.entries == if step.priority == 0 then s.core.entries + [e] else [e] + s.core.entries;
  }

  lemma EntryAdded(q: seq<Entry>, e: Entry, k: nat)
    requires !e.connecting
    ensures var made := if e.ticket == k then 1 else 0;
      && Tickets(q + [e])[k] == Tickets(q)[k] + made && Idle(q + [e])[k] == Idle(q)[k] + made
      && Tickets([e] + q)[k] == Tickets(q)[k] + made && Idle([e] + q)[k] == Idle(q)[k] + made
  {
    Concat(q, [e]);
    Concat([e], q);
    One(e);
  }

  lemma DoneConserves(s: System, step: Step, k: nat)
    requires step.Done?
    ensures true == Keeps(s, Take(s, step), k)
  {
    var i := IndexOf(s.core.entries, step.ticket);
    if i < |s.core.entries| {
      DoneMoves(s, step, i);
      EntryLeaves(s, Take(s, step), i, s.core.entries[i], k);
    }
  }

  /** What removing entry i does, but for the timer and the posted calls. */
  lemma DoneMoves(s: System, step: Step, i: nat)
    requires step.Done? && i == IndexOf(s.core.entries, step.ticket) < |s.core.entries|
    ensures EntryLeft(s, Take(s, step), i)
  {}

  predicate EntryLeft(s: System, t: System, i: nat)
    requires i < |s.core.entries|
  {
    var e := s.core.entries[i];
    && t.core == Wake(s.core.(entries := Without(s.core.entries, i), numConnecting :=
      s.core.numConnecting - if e.connecting then 1 else 0))
    && t.ready == s.ready && t.sweeps == s.sweeps && t.toConnect == s.toConnect && t.timedOut == s.timedOut
      && t.connected == s.connected
    && t.finished == s.finished + (if e.connecting then [e.ticket] else [])
    && t.withdrawn == s.withdrawn + (if e.connecting then [] else [e.ticket])
  }

  lemma EntryLeaves(s: System, t: System, i: nat, e: Entry, k: nat)
    requires i < |s.core.entries| && s.core.entries[i] == e && EntryLeft(s, t, i)
    ensures true == Keeps(s, t, k)
  {
    var r := Without(s.core.entries, i);
    WithoutAt(s.core.entries, i, r, k);
    LogGrows(s.finished, e.ticket, e.connecting, k);
    LogGrows(s.withdrawn, e.ticket, !e.connecting, k);
    EntryMoved(s, t, r, e, k);
  }

  lemma WithoutAt(q: seq<Entry>, i: nat, r: seq<Entry>, k: nat)
    requires i < |q| && r == Without(q, i)
    ensures Tickets(q)[k] == Tickets(r)[k] + (if q[i].ticket == k then 1 else 0)
    ensures Idle(q)[k] == Idle(r)[k] + (if q[i].ticket == k && !q[i].connecting then 1 else 0)
  {
    WithoutParts(q, i);
  }

  lemma EntryMoved(s: System, t: System, r: seq<Entry>, e: Entry, k: nat)
    requires t.core.entries == r && t.core.nextTicket == s.core.nextTicket && t.toConnect == s.toConnect
    requires t.sweeps == s.sweeps && t.timedOut == s.timedOut && t.connected == s.connected
    requires Tickets(s.core.entries)[k] == Tickets(r)[k] + (if e.ticket == k then 1 else 0)
    requires Idle(s.core.entries)[k] == Idle(r)[k] + (if e.ticket == k && !e.connecting then 1 else 0)
    requires multiset(t.finished)[k] == multiset(s.finished)[k] + (if e.connecting && e.ticket == k then 1 else 0)
    requires multiset(t.withdrawn)[k] == multiset(s.withdrawn)[k] + (if !e.connecting && e.ticket == k then 1 else 0)
    ensures Keeps(s, t, k)
  {}

  lemma LogGrows(log: seq<nat>, ticket: nat, grows: bool, k: nat)
    ensures multiset(log + (if grows then [ticket] else []))[k] == multiset(log)[k] + (if grows && ticket == k then 1
      else 0)
  {
    assert log + [] == log;
  }

  lemma TimeoutConserves(s: System, step: Step, k: nat)
    requires step.Timeout? && Enabled(s, step)
    ensures true == Keeps(s, Take(s, step), k)
  {
    SweepMoves(s.core.entries, step.now + SLACK, s.sweeps, NextExpiry(Swept(s.core, step.now).entries), k);
    Balanced(s, Take(s, step), k);
  }

  lemma SweepMoves(q: seq<Entry>, now: int, ws: seq<Sweep>, next: Time, k: nat)
    ensures Idle(Staying(q, now))[k] == Idle(q)[k]
    ensures Tickets(Staying(q, now))[k] + Expired(ws + [Sweep(Leaving(q, now), next)])[k] == Tickets(q)[k]
      + Expired(ws)[k]
  {
    SweepSplits(q, now);
    ExpiredAppend(ws, Sweep(Leaving(q, now), next));
  }

  lemma TryConnectConserves(s: System, step: Step, k: nat)
    requires step.TryConnect? && Enabled(s, step) && Counted(s.core)
    ensures true == Keeps(s, Take(s, step), k)
  {
    TryingConserves(s, s.core.(posted := s.core.posted - 1), step.clock, k, Take(s, step));
  }

  lemma FireConserves(s: System, step: Step, k: nat)
    requires step.Fire? && Enabled(s, step)
    ensures true == Keeps(s, Take(s, step), k)
  {
    var t := Take(s, step);
    assert t.core.entries == s.core.entries && t.finished == s.finished && t.withdrawn == s.withdrawn
      && t.timedOut == s.timedOut;
  }

  lemma CallConnectConserves(s: System, step: Step, k: nat)
    requires step.CallConnect? && Enabled(s, step)
    ensures true == Keeps(s, Take(s, step), k)
  {
    HandedPop(s.toConnect, step.w);
  }

  lemma CallTimeoutConserves(s: System, step: Step, k: nat)
    requires step.CallTimeout? && Enabled(s, step)
    ensures true == Keeps(s, Take(s, step), k)
  {
    ExpiredPop(s.sweeps, step.w, Take(s, step).sweeps);
  }

  lemma ResumeConserves(s: System, step: Step, k: nat)
    requires step.Resume? && Enabled(s, step) && Counted(s.core)
    ensures true == Keeps(s, Take(s, step), k)
  {
    var c := Rearmed(s.core, s.sweeps[step.w].next);
    ExpiredDrop(s.sweeps, step.w);
    TryingHands(s, c, step.clock, k);
    Balanced(s, Take(s, step), k);
  }

  /** A step moves tickets from place to place; only enqueueing makes a new one. */
  lemma StepConserves(s: System, step: Step, k: nat)
    requires Counted(s.core) && Enabled(s, step) && !step.Enqueue?
    ensures true == Keeps(s, Take(s, step), k)
  {
    match step
    case Done(_) => DoneConserves(s, step, k);
    case TryConnect(_) => TryConnectConserves(s, step, k);
    case CallConnect(_) => CallConnectConserves(s, step, k);
    case Fire => FireConserves(s, step, k);
    case Timeout(_) => TimeoutConserves(s, step, k);
    case CallTimeout(_) => CallTimeoutConserves(s, step, k);
    case Resume(_, _) => ResumeConserves(s, step, k);
  }

  lemma StepKeeps(s: System, step: Step)
    requires Inv(s) && Enabled(s, step)
    ensures Inv(Take(s, step))
  {
    var t := Take(s, step);
    StepControls(s, step);
    forall k: nat ensures Places(t, k) == Given(t.core.nextTicket, k) && Calls(t, k) == Given(t.core.nextTicket, k) {
      if step.Enqueue? { EnqueueConserves(s, step, k); } else { StepConserves(s, step, k); }
    }
  }

  // ---------------------------------------------------------------- whole runs

  /** The states reached by steps that are possible one after the other. */
  predicate Reaches(s: System, steps: seq<Step>, t: System)
    decreases |steps|
  {
    if steps == [] then s == t
    else Enabled(s, steps[0]) && Reaches(Take(s, steps[0]), steps[1..], t)
  }

  lemma {:induction false} RunKeeps(s: System, steps: seq<Step>, t: System)
    requires Inv(s) && Reaches(s, steps, t)
    ensures Inv(t)
    decreases |steps|
  {
    if steps != [] {
      StepKeeps(s, steps[0]);
      RunKeeps(Take(s, steps[0]), steps[1..], t);
    }
  }

  /** In every state of every run with a fixed limit: the limit is kept and the counter is right, no callback
      runs twice, no wakeup is lost, and the timer watches over whatever connects. */
  lemma RunSafe(limit: nat, steps: seq<Step>, t: System)
    requires Reaches(Start(limit), steps, t)
    ensures t.core.numConnecting == CountConnecting(t.core.entries)
      && (t.core.limit > 0 ==> t.core.numConnecting <= t.core.limit)
    ensures forall k: nat :: multiset(t.connected)[k] <= 1 && multiset(t.timedOut)[k] <= 1
    ensures HasIdle(t.core.entries) && HasSlot(t.core) ==> t.core.posted > 0 || t.sweeps != []
    ensures t.core.numConnecting > 0 ==> t.core.armed.At? || t.ready > 0 || WillRearm(t.sweeps)
  {
    RunKeeps(Start(limit), steps, t);
    forall k: nat ensures multiset(t.connected)[k] <= 1 && multiset(t.timedOut)[k] <= 1 {
      assert Places(t, k) <= 1 && Calls(t, k) <= 1;
    }
  }

  /** A ticket times out, or finishes, only if its connect callback was issued, and never both. */
  lemma TimeoutAfterIssue(limit: nat, steps: seq<Step>, t: System, k: nat)
    requires Reaches(Start(limit), steps, t)
    ensures k in t.timedOut || k in t.finished ==>
      Issued(t, k) == 1 && k !in t.withdrawn && k !in Tickets(t.core.entries)
    ensures !(k in t.timedOut && k in t.finished)
    ensures k in t.withdrawn ==> k !in t.connected
  {
    RunKeeps(Start(limit), steps, t);
    IdleWithin(t.core.entries, k);
    assert Places(t, k) == Given(t.core.nextTicket, k) && Calls(t, k) == Given(t.core.nextTicket, k);
    assert (k in t.timedOut <==> k in multiset(t.timedOut)) && (k in t.finished <==> k in multiset(t.finished));
    assert (k in t.withdrawn <==> k in multiset(t.withdrawn)) && (k in t.connected <==> k in multiset(t.connected));
  }

  lemma {:induction false} IdleWithin(q: seq<Entry>, k: nat)
    ensures Idle(q)[k] <= Tickets(q)[k]
  {
    if q != [] { IdleWithin(q[1..], k); }
  }

  // ---------------------------------------------------------------- the order of callbacks

  /** How often ticket k has timed out. */
  function Outs(s: System, k: nat): nat { multiset(s.timedOut)[k] + Expired(s.sweeps)[k] }

  /** A ticket times out only after its connect callback has run. */
  ghost predicate Ordered(s: System) {
    forall k: nat :: Outs(s, k) > 0 ==> multiset(s.connected)[k] > 0
  }

  lemma OutsAtTimeout(s: System, step: Step, k: nat)
    requires step.Timeout? && Enabled(s, step)
    ensures Outs(Take(s, step), k) == Outs(s, k) + multiset(Leaving(s.core.entries, step.now + SLACK))[k]
    ensures Take(s, step).connected == s.connected
  {
    ExpiredAppend(s.sweeps, Sweep(Leaving(s.core.entries, step.now + SLACK),
      NextExpiry(Swept(s.core, step.now).entries)));
  }

  lemma OutsAtCall(s: System, step: Step, k: nat)
    requires step.CallTimeout? && Enabled(s, step)
    ensures Outs(Take(s, step), k) == Outs(s, k) && Take(s, step).connected == s.connected
  {
    ExpiredPop(s.sweeps, step.w, Take(s, step).sweeps);
  }

  lemma OutsAtResume(s: System, step: Step, k: nat)
    requires step.Resume? && Enabled(s, step)
    ensures Outs(Take(s, step), k) == Outs(s, k) && Take(s, step).connected == s.connected
  {
    ExpiredDrop(s.sweeps, step.w);
  }

  /** Only a timeout section times tickets out, and connect callbacks are never undone. */
  lemma OutsChange(s: System, step: Step, k: nat)
    requires Enabled(s, step) && !step.Timeout?
    ensures Outs(Take(s, step), k) == Outs(s, k) && multiset(Take(s, step).connected)[k] >= multiset(s.connected)[k]
  {
    match step
    case CallTimeout(_) => OutsAtCall(s, step, k);
    case Resume(_, _) => OutsAtResume(s, step, k);
    case CallConnect(w) => assert Take(s, step).connected == s.connected + [s.toConnect[w][0]];
    case Enqueue(_, _) =>
    case Done(_) =>
    case TryConnect(_) =>
    case Fire =>
  }

  /** The connect callback of a ticket that times out either has run or is still handed out. */
  lemma LeavingIssued(s: System, now: int, k: nat)
    requires Inv(s) && multiset(Leaving(s.core.entries, now))[k] > 0
    ensures multiset(s.connected)[k] + Handed(s.toConnect)[k] == 1
  {
    var q := s.core.entries;
    SweepSplits(q, now);
    IdleWithin(Staying(q, now), k);
    assert Places(s, k) == Given(s.core.nextTicket, k) && Calls(s, k) == Given(s.core.nextTicket, k);
    assert Tickets(q)[k] == Tickets(Staying(q, now))[k] + multiset(Leaving(q, now))[k];
  }

  /** The order of callbacks survives a step exactly if no timeout takes out an entry whose connect
      callback is still to run. */
  lemma OrderKept(limit: nat, steps: seq<Step>, s: System, step: Step)
    requires Reaches(Start(limit), steps, s) && Ordered(s) && Enabled(s, step)
    ensures Ordered(Take(s, step)) <==>
      (step.Timeout? ==> forall k: nat ::
        k in multiset(Leaving(s.core.entries, step.now + SLACK)) ==> k !in Handed(s.toConnect))
  {
    RunKeeps(Start(limit), steps, s);
    var t := Take(s, step);
    forall k: nat ensures Outs(t, k) > 0 ==> (multiset(t.connected)[k] > 0 <==>
        (step.Timeout? && k in multiset(Leaving(s.core.entries, step.now + SLACK)) ==> k !in Handed(s.toConnect)))
    {
      if step.Timeout? { OutsAtTimeout(s, step, k); } else { OutsChange(s, step, k); }
      if step.Timeout? && k in multiset(Leaving(s.core.entries, step.now + SLACK)) {
        LeavingIssued(s, step.now + SLACK, k);
      }
    }
    if step.Timeout? && Ordered(t) {
      forall k: nat | k in multiset(Leaving(s.core.entries, step.now + SLACK)) ensures k !in Handed(s.toConnect) {
        OutsAtTimeout(s, step, k);
        assert Outs(t, k) > 0;
      }
    }
  }

  lemma ReachesStep(s: System, step: Step, steps: seq<Step>, t: System)
    requires Enabled(s, step) && Reaches(Take(s, step), steps, t)
    ensures Reaches(s, [step] + steps, t)
  {
    assert ([step] + steps)[1..] == steps;
  }

  /** One entry after it was enqueued, and after it started to connect. */
  function OneWaiting(limit: nat, timeout: int): System {
    System(Core([Entry(0, 0, timeout, false, Never)], 1, 0, limit, Never, 1), 0, [], [], [], [], [], [])
  }

  function OneConnecting(limit: nat, timeout: int, now: int): System {
    System(Core([Entry(0, 0, timeout, true, At(now + timeout))], 1, 1, limit, At(now + timeout), 0), 0, [[0]], [],
      [], [], [], [])
  }

  lemma FirstConnects(limit: nat, timeout: int, clock: nat -> int)
    ensures Take(Start(limit), Enqueue(0, timeout)) == OneWaiting(limit, timeout)
    ensures Take(OneWaiting(limit, timeout), TryConnect(clock)) == OneConnecting(limit, timeout, clock(0))
  {
    var q := OneWaiting(limit, timeout).core.entries;
    var slots := Slots(OneWaiting(limit, timeout).core);
    assert Mark(q[1..], slots - 1, clock, 1) == [] && Marked(q[1..], slots - 1) == [];
    assert Mark(q, slots, clock, 0) == [Entry(0, 0, timeout, true, At(clock(0) + timeout))] && Marked(q, slots) == [0];
  }

  lemma ThenTimesOut(limit: nat, timeout: int, start: int, now: int)
    requires start + timeout <= now
    ensures !Ordered(Take(Take(OneConnecting(limit, timeout, start), Fire), Timeout(now)))
  {
    var s := Take(OneConnecting(limit, timeout, start), Fire);
    var t := Take(s, Timeout(now));
    var q := s.core.entries;
    assert Leaving(q[1..], now + SLACK) == [] && Leaving(q, now + SLACK) == [0];
    assert t.sweeps[0].callbacks == [0];
    assert Outs(t, 0) > 0 && t.connected == [];
  }

  /** Whatever its timeout, an entry can time out before its connect callback runs: that callback is called after the
      lock is released, and nothing keeps the timer, once it is due, from being handled first. */
  lemma OutOfOrder(limit: nat, timeout: int, clock: nat -> int, now: int) returns (steps: seq<Step>, s: System)
    requires clock(0) + timeout <= now
    ensures steps == [Enqueue(0, timeout), TryConnect(clock), Fire, Timeout(now)]
    ensures Reaches(Start(limit), steps[..2], OneConnecting(limit, timeout, clock(0)))
    ensures Reaches(Start(limit), steps, s) && !Ordered(s)
  {
    FirstConnects(limit, timeout, clock);
    ThenTimesOut(limit, timeout, clock(0), now);
    var c := OneConnecting(limit, timeout, clock(0));
    s := Take(Take(c, Fire), Timeout(now));
    ReachesStep(Take(c, Fire), Timeout(now), [], s);
    ReachesStep(c, Fire, [Timeout(now)], s);
    ReachesTwo(limit, timeout, clock, [Fire, Timeout(now)], s);
    ReachesTwo(limit, timeout, clock, [], c);
    steps := [Enqueue(0, timeout), TryConnect(clock), Fire, Timeout(now)];
    assert [Fire] + [Timeout(now)] == [Fire, Timeout(now)];
    assert [Enqueue(0, timeout), TryConnect(clock)] + [Fire, Timeout(now)] == steps;
    assert steps[..2] == [Enqueue(0, timeout), TryConnect(clock)] + [];
  }

  lemma ReachesTwo(limit: nat, timeout: int, clock: nat -> int, steps: seq<Step>, s: System)
    requires Reaches(OneConnecting(limit, timeout, clock(0)), steps, s)
    ensures Reaches(Start(limit), [Enqueue(0, timeout), TryConnect(clock)] + steps, s)
  {
    FirstConnects(limit, timeout, clock);
    ReachesStep(OneWaiting(limit, timeout), TryConnect(clock), steps, s);
    ReachesStep(Start(limit), Enqueue(0, timeout), [TryConnect(clock)] + steps, s);
    assert [Enqueue(0, timeout)] + ([TryConnect(clock)] + steps) == [Enqueue(0, timeout), TryConnect(clock)] + steps;
  }
}
