/** Runs of the bandwidth manager: requests and ticks in any order. */
module BandwidthRuns {
  import opened BandwidthShares
  import opened BandwidthQueue
  import opened BandwidthManager

  /** The queue, all requests ever queued, delivered and dropped, and for each channel what has been
      charged to it less what has been returned. */
  datatype State = State(queue: seq<Request>, asked: seq<Request>, delivered: seq<Request>, dropped: seq<Request>,
    charge: Channel -> int)

  datatype Event = Ask(r: Request) | Tick(gone: set<nat>, t: Round)

  const START := State([], [], [], [], c => 0)

  /** A peer asks for something positive, and not while it has a request queued. */
  predicate Enabled(s: State, e: Event) {
    e.Ask? ==> e.r.priority > 0 && e.r.got == 0 < e.r.size && e.r.ttl == TTL && CountPeer(s.queue, e.r.peer) == 0
  }

  function Take(s: State, e: Event): State {
    match e
    case Ask(r) => s.(queue := s.queue + [r], asked := s.asked + [r])
    case Tick(gone, t) =>
      var kept, dropped := Kept(s.queue, gone), Dropped(s.queue, gone);
      State(Left(t, kept), s.asked, s.delivered + Served(t, kept), s.dropped + dropped,
            (c: Channel) => s.charge(c) + Total(kept, c, Shares(t)) - Total(dropped, c, Got))
  }

  predicate Delivered(q: seq<Request>) { forall i :: 0 <= i < |q| ==> 0 < q[i].got <= q[i].size }

  /** What holds of channel c and of a peer in every reachable state. */
  predicate Inv(s: State, c: Channel, peer: nat) {
    && AllWaiting(s.queue) && Delivered(s.delivered)
    && s.charge(c) == Total(s.delivered, c, Got) + Total(s.queue, c, Got)
    && CountPeer(s.asked, peer) == CountPeer(s.queue, peer) + CountPeer(s.delivered, peer) + CountPeer(s.dropped, peer)
    && CountPeer(s.queue, peer) <= 1
  }

  lemma {:induction false} Concat(p: seq<Request>, q: seq<Request>, c: Channel, f: Request -> int, peer: nat)
    ensures Total(p + q, c, f) == Total(p, c, f) + Total(q, c, f)
    ensures CountPeer(p + q, peer) == CountPeer(p, peer) + CountPeer(q, peer)
  {
    if q == [] {
      assert p + q == p;
    } else {
      var m, r := q[..|q| - 1], q[|q| - 1];
      Concat(p, m, c, f, peer);
      assert p + q == (p + m) + [r];
      Append(p + m, r, c, f, peer);
    }
  }

  lemma AskKeeps(s: State, e: Event, c: Channel, peer: nat)
    requires Inv(s, c, peer) && Enabled(s, e) && e.Ask?
    ensures Inv(Take(s, e), c, peer)
  {
    Append(s.queue, e.r, c, Got, peer);
    Append(s.asked, e.r, c, Got, peer);
    PaidZero(e.r.channels, c);
  }

  lemma {:induction false} PaidZero(chs: seq<Channel>, c: Channel)
    ensures Paid(chs, c, 0) == 0
  {
    if chs != [] { PaidZero(chs[..|chs| - 1], c); }
  }

  lemma TickKeeps(s: State, e: Event, c: Channel, peer: nat)
    requires Inv(s, c, peer) && e.Tick?
    ensures Inv(Take(s, e), c, peer)
  {
    var kept, dropped := Kept(s.queue, e.gone), Dropped(s.queue, e.gone);
    var served := Served(e.t, kept);
    DropSplits(s.queue, e.gone, c, Got, peer);
    GrantSplits(e.t, kept, c, peer);
    Concat(s.delivered, served, c, Got, peer);
    Concat(s.dropped, dropped, c, Got, peer);
    forall i | 0 <= i < |served| ensures 0 < served[i].got <= served[i].size { ServedRight(e.t, kept, i); }
  }

  ghost predicate Reaches(s: State, events: seq<Event>, t: State)
    decreases |events|
  {
    if events == [] then s == t
    else Enabled(s, events[0]) && Reaches(Take(s, events[0]), events[1..], t)
  }

  lemma {:induction false} RunKeeps(s: State, events: seq<Event>, t: State, c: Channel, peer: nat)
    requires Inv(s, c, peer) && Reaches(s, events, t)
    ensures Inv(t, c, peer)
    decreases |events|
  {
    if events != [] {
      if events[0].Ask? { AskKeeps(s, events[0], c, peer); } else { TickKeeps(s, events[0], c, peer); }
      RunKeeps(Take(s, events[0]), events[1..], t, c, peer);
    }
  }

  /** In every run: what a channel has been charged, less returns, is what was delivered and what is still held;
      every request is queued, delivered or dropped, and only one of these; deliveries are positive and no larger
      than what was asked for; an overdue request in the queue holds nothing. */
  lemma RunConserves(events: seq<Event>, t: State, c: Channel, peer: nat)
    requires Reaches(START, events, t)
    ensures t.charge(c) == Total(t.delivered, c, Got) + Total(t.queue, c, Got)
    ensures CountPeer(t.asked, peer) == CountPeer(t.queue, peer) + CountPeer(t.delivered, peer)
      + CountPeer(t.dropped, peer)
    ensures CountPeer(t.queue, peer) <= 1
    ensures forall i :: 0 <= i < |t.delivered| ==> 0 < t.delivered[i].got <= t.delivered[i].size
    ensures forall i :: 0 <= i < |t.queue| && t.queue[i].ttl <= 0 ==> t.queue[i].got == 0
  {
    RunKeeps(START, events, t, c, peer);
    assert forall i :: 0 <= i < |t.queue| ==> Waiting(t.queue[i]);
  }
}
