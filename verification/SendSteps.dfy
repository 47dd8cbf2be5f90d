/** What becomes of the bytes of a connection: a machine on values, whose steps are messages, the ends of writes, and
    the rate limit. */
module SendSteps {
  import opened ChainedBuffer

  /** The bytes that are queued, how many of the first of them are being written, and whether the connection waits for
      its rate limit or is closed. */
  datatype Sender = Sender(queued: seq<Byte>, flight: nat, limited: bool, closed: bool)

  /** A message is written; a write ends, after an error perhaps with only some of its bytes; the rate limit sets in;
      or quota is assigned, which ends it. */
  datatype Event =
    | Message(header: seq<Byte>, body: seq<Byte>, spare1: nat, spare2: nat, quota: nat)
    | Ended(error: bool, n: nat, quota: nat)
    | Limit
    | Assign(quota: nat)

  function Least(a: nat, b: nat): nat { if a < b then a else b }

  /** Starts a write of as many bytes as there are and as the quota allows, if none is under way. */
  function Kicked(s: Sender, quota: nat): Sender {
    if s.flight > 0 || s.limited || s.closed then s else s.(flight := Least(quota, |s.queued|))
  }

  /** The bytes that leave with an event. */
  function Leaving(s: Sender, e: Event): seq<Byte>
    requires s.flight <= |s.queued|
  {
    if e.Ended? then s.queued[..if e.error then Least(e.n, s.flight) else s.flight] else []
  }

  function Next(s: Sender, e: Event): (r: Sender)
    requires s.flight <= |s.queued|
    ensures r.flight <= |r.queued|
  {
    match e
    case Message(header, body, _, _, quota) => Kicked(s.(queued := s.queued + header + body), quota)
    case Limit => s.(limited := true)
    case Assign(quota) => Kicked(s.(limited := false), quota)
    case Ended(error, _, quota) =>
      if s.flight == 0 then s else
      Kicked(s.(queued := s.queued[|Leaving(s, e)|..], flight := 0, closed := s.closed || error), quota)
  }

  const IDLE := Sender([], 0, false, false)

  /** Where a connection stands after some events. */
  function Stands(events: seq<Event>): (s: Sender)
    ensures s.flight <= |s.queued|
  {
    if events == [] then IDLE else Next(Stands(events[..|events| - 1]), events[|events| - 1])
  }

  /** The bytes that have left, and those that were written. */
  function SentBy(events: seq<Event>): seq<Byte> {
    if events == [] then [] else
    var before := events[..|events| - 1];
    SentBy(before) + Leaving(Stands(before), events[|events| - 1])
  }

  function WrittenBy(events: seq<Event>): seq<Byte> {
    if events == [] then [] else WrittenBy(events[..|events| - 1]) + Bytes(events[|events| - 1])
  }

  /** What an event adds. */
  function Bytes(e: Event): seq<Byte> { if e.Message? then e.header + e.body else [] }

  /** Whatever happens, the bytes that have left, followed by those still queued, are the bytes written. */
  lemma {:induction false} AllAccounted(events: seq<Event>)
    ensures WrittenBy(events) == SentBy(events) + Stands(events).queued
  {
    if events != [] {
      var before, e := events[..|events| - 1], events[|events| - 1];
      AllAccounted(before);
      var s := Stands(before);
      StepAccounted(s, e);
      Shift(SentBy(before), s.queued, Bytes(e), Leaving(s, e), Next(s, e).queued);
    }
  }

  lemma StepAccounted(s: Sender, e: Event)
    requires s.flight <= |s.queued|
    ensures s.queued + Bytes(e) == Leaving(s, e) + Next(s, e).queued
  {}

  lemma Shift(sent: seq<Byte>, before: seq<Byte>, more: seq<Byte>, out: seq<Byte>, after: seq<Byte>)
    requires before + more == out + after
    ensures (sent + before) + more == (sent + out) + after
  {
    assert (sent + before) + more == sent + (before + more);
    assert (sent + out) + after == sent + (out + after);
  }

  /** Nothing waits without a write under way. */
  predicate Busy(s: Sender) { s.queued != [] ==> s.flight > 0 || s.limited || s.closed }

  /** Every event that tries to write has something to write with. */
  predicate Funded(e: Event) {
    match e
    case Message(_, _, _, _, quota) => quota > 0
    case Ended(_, _, quota) => quota > 0
    case Limit => true
    case Assign(quota) => quota > 0
  }

  /** If quotas are positive, bytes never wait without a write under way, unless for the rate limit. */
  lemma {:induction false} AlwaysBusy(events: seq<Event>)
    requires forall i :: 0 <= i < |events| ==> Funded(events[i])
    ensures Busy(Stands(events))
  {
    if events != [] {
      AlwaysBusy(events[..|events| - 1]);
      assert Funded(events[|events| - 1]);
    }
  }

  /** The state after some ends of writes. */
  function After(s: Sender, quotas: seq<nat>): (r: Sender)
    requires s.flight <= |s.queued|
    ensures r.flight <= |r.queued|
    decreases |quotas|
  {
    if quotas == [] then s else After(Next(s, Ended(false, 0, quotas[0])), quotas[1..])
  }

  /** Without errors and limits all bytes leave, after no more ends of writes than there are bytes. */
  lemma {:induction false} AllSent(s: Sender, quotas: seq<nat>)
    requires s.flight <= |s.queued| && Busy(s) && !s.limited && !s.closed && |quotas| >= |s.queued|
    requires forall i :: 0 <= i < |quotas| ==> quotas[i] > 0
    ensures After(s, quotas).queued == []
    decreases |quotas|
  {
    if quotas != [] {
      var e := Ended(false, 0, quotas[0]);
      assert quotas[0] > 0;
      AllSent(Next(s, e), quotas[1..]);
    }
  }
}
