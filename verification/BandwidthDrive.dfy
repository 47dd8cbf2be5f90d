/** What becomes of a bandwidth manager and its channels, as a function of what happens to it; the rate limit that
    follows from it; and the proof that the manager does just that. */
module BandwidthDrive {
  import opened BandwidthShares
  import opened BandwidthQueue
  import opened BandwidthManager
  import opened BandwidthRuns

  /** What happens to a manager: a peer asks for bandwidth, or time passes and some peers are gone. */
  datatype Happening = Asks(peer: nat, blk: nat, priority: nat, chs: seq<Channel?>) | Passes(dt: nat, gone: set<nat>)

  /** The state of the queue, the quota of every channel and what it has been refilled by, the requests whose peers
      have been told, in that order, and the answers that peers got at once. */
  datatype World = World(st: State, quota: Channel -> int, refills: Channel -> int, told: seq<Request>,
    answers: seq<nat>)

  predicate Fine(h: Happening) { h.Asks? ==> h.blk > 0 && h.priority > 0 && |h.chs| <= 5 }

  predicate AllFine(hs: seq<Happening>) { forall i :: 0 <= i < |hs| ==> Fine(hs[i]) }

  // ---------------------------------------------------------------- the run as a function

  /** The limited channels of a list. */
  function ThrottledBy(chs: seq<Channel?>, limit: Channel -> nat): seq<Channel> {
    if chs == [] then [] else
    var rest, c := ThrottledBy(chs[..|chs| - 1], limit), chs[|chs| - 1];
    if c != null && limit(c) > 0 then rest + [c] else rest
  }

  /** What a channel is refilled by in a tick. */
  function RefillOf(quota: int, limit: nat, q: seq<Request>, gone: set<nat>, c: Channel, dt: nat): int {
    AfterRefill(quota, limit, q, gone, c, dt) - AfterReturn(quota, limit, q, gone, c)
  }

  /** The round that quotas, limits and the queue call for. */
  function RoundFor(limit: Channel -> nat, quota: Channel -> int, q: seq<Request>, gone: set<nat>, dt: nat): Round {
    Round(c => Positive(AfterRefill(quota(c), limit(c), q, gone, c, dt)),
          c => Positive(Total(Kept(q, gone), c, Priority)),
          c => limit(c))
  }

  function RequestOf(h: Happening, limit: Channel -> nat): Request
    requires h.Asks?
  {
    Request(h.peer, h.priority, 0, h.blk, TTL, ThrottledBy(h.chs, limit))
  }

  /** One thing happens. A peer with a request in the queue does not ask. */
  function Next(w: World, limit: Channel -> nat, h: Happening): World {
    if h.Asks? then AfterAsk(w, limit, h) else AfterPass(w, limit, Cap(h.dt), h.gone)
  }

  function AfterAsk(w: World, limit: Channel -> nat, h: Happening): World
    requires h.Asks?
  {
    if CountPeer(w.st.queue, h.peer) > 0 then w
    else if ThrottledBy(h.chs, limit) == [] then w.(answers := w.answers + [h.blk])
    else w.(st := Take(w.st, Ask(RequestOf(h, limit))), answers := w.answers + [0])
  }

  function AfterPass(w: World, limit: Channel -> nat, dt: nat, gone: set<nat>): World {
    if w.st.queue == [] then w else
    var t := RoundFor(limit, w.quota, w.st.queue, gone, dt);
    World(Take(w.st, Tick(gone, t)), QuotaAfter(w, limit, dt, gone, t), RefillsAfter(w, limit, dt, gone),
          w.told + Backwards(Served(t, Kept(w.st.queue, gone))), w.answers)
  }

  function QuotaAfter(w: World, limit: Channel -> nat, dt: nat, gone: set<nat>, t: Round): Channel -> int {
    (c: Channel) => AfterRefill(w.quota(c), limit(c), w.st.queue, gone, c, dt)
                    - Limited(limit(c), Total(Kept(w.st.queue, gone), c, Shares(t)))
  }

  function RefillsAfter(w: World, limit: Channel -> nat, dt: nat, gone: set<nat>): Channel -> int {
    (c: Channel) => w.refills(c) + RefillOf(w.quota(c), limit(c), w.st.queue, gone, c, dt)
  }

  function Fresh(quota: Channel -> int): World { World(START, quota, c => 0, [], []) }

  /** All of it, in order. */
  function Driven(quota: Channel -> int, limit: Channel -> nat, hs: seq<Happening>): World {
    if hs == [] then Fresh(quota) else Next(Driven(quota, limit, hs[..|hs| - 1]), limit, hs[|hs| - 1])
  }

  // ---------------------------------------------------------------- what the run keeps

  lemma {:induction false} BackwardsTotal(q: seq<Request>, c: Channel, f: Request -> int)
    ensures Total(Backwards(q), c, f) == Total(q, c, f)
  {
    if q != [] {
      var m, r := q[..|q| - 1], q[|q| - 1];
      BackwardsTotal(m, c, f);
      Concat([r], Backwards(m), c, f, 0);
      assert [r][..0] == [];
    }
  }

  /** The books of channel c are balanced. */
  predicate Balanced(quota: int, limit: nat, w: World, c: Channel, peer: nat) {
    && Inv(w.st, c, peer) && Total(w.told, c, Got) == Total(w.st.delivered, c, Got)
    && (limit > 0 ==> quota + w.refills(c) - w.quota(c) == w.st.charge(c))
  }

  lemma AskBalances(quota: int, limit: Channel -> nat, w: World, h: Happening, c: Channel, peer: nat)
    requires Balanced(quota, limit(c), w, c, peer) && h.Asks? && Fine(h)
    ensures Balanced(quota, limit(c), AfterAsk(w, limit, h), c, peer)
  {
    if CountPeer(w.st.queue, h.peer) == 0 && ThrottledBy(h.chs, limit) != [] {
      AskKeeps(w.st, Ask(RequestOf(h, limit)), c, peer);
    }
  }

  lemma PassBalances(quota: int, limit: Channel -> nat, w: World, dt: nat, gone: set<nat>, c: Channel, peer: nat)
    requires Balanced(quota, limit(c), w, c, peer)
    ensures Balanced(quota, limit(c), AfterPass(w, limit, dt, gone), c, peer)
  {
    if w.st.queue != [] {
      var t := RoundFor(limit, w.quota, w.st.queue, gone, dt);
      var served := Served(t, Kept(w.st.queue, gone));
      TickKeeps(w.st, Tick(gone, t), c, peer);
      Concat(w.st.delivered, served, c, Got, 0);
      Concat(w.told, Backwards(served), c, Got, 0);
      BackwardsTotal(served, c, Got);
    }
  }

  lemma {:induction false} DrivenBalances(quota: Channel -> int, limit: Channel -> nat, hs: seq<Happening>,
    c: Channel, peer: nat)
    requires AllFine(hs)
    ensures Balanced(quota(c), limit(c), Driven(quota, limit, hs), c, peer)
  {
    if hs != [] {
      var w, h := Driven(quota, limit, hs[..|hs| - 1]), hs[|hs| - 1];
      DrivenBalances(quota, limit, hs[..|hs| - 1], c, peer);
      assert Fine(h);
      if h.Asks? {
        AskBalances(quota(c), limit, w, h, c, peer);
      } else {
        PassBalances(quota(c), limit, w, Cap(h.dt), h.gone, c, peer);
      }
    }
  }

  /** Over any run: the first quota of a limited channel and its refills, less what is left, are what its peers were
      told and what requests in the queue hold. */
  lemma DrivenConserves(quota: Channel -> int, limit: Channel -> nat, hs: seq<Happening>, c: Channel)
    requires AllFine(hs) && limit(c) > 0
    ensures var w := Driven(quota, limit, hs);
      quota(c) + w.refills(c) - w.quota(c) == Total(w.told, c, Got) + Total(w.st.queue, c, Got)
  {
    DrivenBalances(quota, limit, hs, c, 0);
  }

  // ---------------------------------------------------------------- the rate limit

  /** What a limit allows in the time that passes. */
  function Allowed(hs: seq<Happening>, limit: nat): nat {
    if hs == [] then 0 else
    var h := hs[|hs| - 1];
    Allowed(hs[..|hs| - 1], limit) + if h.Passes? then RateFor(limit, Cap(h.dt)) else 0
  }

  /** The bytes of a time step, rounded to the nearest. */
  function RateFor(limit: nat, dt: nat): nat {
    RateSign(limit, dt);
    (limit * dt + 500) / 1000
  }

  lemma RateSign(limit: nat, dt: nat)
    ensures (limit * dt + 500) / 1000 >= 0
  {
    MulSign(limit, dt);
  }

  /** No quota falls below zero, or below where it started; no refill exceeds the rate. */
  predicate Kempt(quota: int, w: World, c: Channel, allowed: nat) {
    && (w.quota(c) >= 0 || w.quota(c) >= quota)
    && w.refills(c) <= allowed
  }

  lemma {:induction false} HeldSign(q: seq<Request>, c: Channel)
    requires forall i :: 0 <= i < |q| ==> q[i].got >= 0
    ensures Total(q, c, Got) >= 0
  {
    if q != [] {
      HeldSign(q[..|q| - 1], c);
      PaidSign(q[|q| - 1].channels, c, q[|q| - 1].got);
    }
  }

  lemma {:induction false} PaidSign(chs: seq<Channel>, c: Channel, amount: nat)
    ensures Paid(chs, c, amount) >= 0
  {
    if chs != [] { PaidSign(chs[..|chs| - 1], c, amount); }
  }

  lemma {:induction false} DroppedWaits(q: seq<Request>, gone: set<nat>)
    requires AllWaiting(q)
    ensures forall i :: 0 <= i < |Dropped(q, gone)| ==> Dropped(q, gone)[i].got >= 0
  {
    if q != [] {
      assert AllWaiting(q[..|q| - 1]) && Waiting(q[|q| - 1]);
      DroppedWaits(q[..|q| - 1], gone);
    }
  }

  lemma PassKempt(quota: int, limit: Channel -> nat, w: World, dt: nat, gone: set<nat>, c: Channel, allowed: nat)
    requires Kempt(quota, w, c, allowed) && AllWaiting(w.st.queue) && limit(c) > 0
    ensures Kempt(quota, AfterPass(w, limit, dt, gone), c, allowed + RateFor(limit(c), dt))
  {
    var q, l := w.st.queue, limit(c);
    if q != [] {
      var kept, t := Kept(q, gone), RoundFor(limit, w.quota, q, gone, dt);
      DroppedWaits(q, gone);
      HeldSign(Dropped(q, gone), c);
      DropSplits(q, gone, c, Got, 0);
      WeightSign(kept, c);
      QuotaFloor(t, c, l, kept, AfterRefill(w.quota(c), l, q, gone, c, dt));
    }
  }

  lemma {:induction false} WeightSign(q: seq<Request>, c: Channel)
    ensures Total(q, c, Priority) >= 0
  {
    if q != [] {
      WeightSign(q[..|q| - 1], c);
      PaidSign(q[|q| - 1].channels, c, q[|q| - 1].priority);
    }
  }

  lemma {:induction false} DrivenKempt(quota: Channel -> int, limit: Channel -> nat, hs: seq<Happening>, c: Channel)
    requires AllFine(hs) && limit(c) > 0
    ensures Kempt(quota(c), Driven(quota, limit, hs), c, Allowed(hs, limit(c)))
  {
    if hs != [] {
      var w, h := Driven(quota, limit, hs[..|hs| - 1]), hs[|hs| - 1];
      DrivenKempt(quota, limit, hs[..|hs| - 1], c);
      DrivenBalances(quota, limit, hs[..|hs| - 1], c, 0);
      if h.Passes? { PassKempt(quota(c), limit, w, Cap(h.dt), h.gone, c, Allowed(hs[..|hs| - 1], limit(c))); }
    }
  }

  /** Over any run, a limited channel gives out no more than it had at first and than its limit allows in the time
      that passed, and its quota does not fall below zero, or below where it started. */
  lemma RateLimited(quota: Channel -> int, limit: Channel -> nat, hs: seq<Happening>, c: Channel)
    requires AllFine(hs) && limit(c) > 0
    ensures var w := Driven(quota, limit, hs);
      && 0 <= Total(w.st.queue, c, Got)
      && Total(w.told, c, Got) + Total(w.st.queue, c, Got) <= Positive(quota(c)) + Allowed(hs, limit(c))
      && (w.quota(c) >= 0 || w.quota(c) >= quota(c))
  {
    var w := Driven(quota, limit, hs);
    DrivenKempt(quota, limit, hs, c);
    DrivenBalances(quota, limit, hs, c, 0);
    assert forall i :: 0 <= i < |w.st.queue| ==> Waiting(w.st.queue[i]);
    HeldSign(w.st.queue, c);
  }

  // ---------------------------------------------------------------- refills

  /** A channel in use gains its rate for the time, up to three times its limit; another one gains nothing. */
  lemma RefillIs(w: World, limit: Channel -> nat, dt: nat, gone: set<nat>, c: Channel)
    requires w.st.queue != [] && limit(c) > 0
    ensures var x := AfterReturn(w.quota(c), limit(c), w.st.queue, gone, c);
      AfterPass(w, limit, dt, gone).refills(c) - w.refills(c) ==
        if !Uses(Kept(w.st.queue, gone), c) then 0
        else if x + (limit(c) * dt + 500) / 1000 <= 3 * limit(c) then (limit(c) * dt + 500) / 1000
        else 3 * limit(c) - x
  {}

  /** Whenever time passes, channel c is in use, and its rate does not pass the cap. */
  ghost predicate NeverFull(quota: Channel -> int, limit: Channel -> nat, hs: seq<Happening>, c: Channel) {
    forall n :: 0 <= n < |hs| && hs[n].Passes? ==> HasRoom(Driven(quota, limit, hs[..n]), limit, hs[n], c)
  }

  predicate HasRoom(w: World, limit: Channel -> nat, h: Happening, c: Channel)
    requires h.Passes?
  {
    && Uses(Kept(w.st.queue, h.gone), c)
    && AfterReturn(w.quota(c), limit(c), w.st.queue, h.gone, c) + RateFor(limit(c), Cap(h.dt)) <= 3 * limit(c)
  }

  /** While it is in use and the cap is not reached, a channel is refilled by exactly what its limit allows. */
  lemma {:induction false} FullRate(quota: Channel -> int, limit: Channel -> nat, hs: seq<Happening>, c: Channel)
    requires limit(c) > 0 && NeverFull(quota, limit, hs, c)
    ensures Driven(quota, limit, hs).refills(c) == Allowed(hs, limit(c))
  {
    if hs != [] {
      var m, h := hs[..|hs| - 1], hs[|hs| - 1];
      forall n | 0 <= n < |m| && m[n].Passes? ensures HasRoom(Driven(quota, limit, m[..n]), limit, m[n], c) {
        assert m[..n] == hs[..n] && m[n] == hs[n];
      }
      FullRate(quota, limit, m, c);
      if h.Passes? {
        var w := Driven(quota, limit, m);
        assert HasRoom(w, limit, h, c);
        assert w.st.queue != [];
        RefillIs(w, limit, Cap(h.dt), h.gone, c);
      }
    }
  }

  // ---------------------------------------------------------------- a lone request

  /** The same time step, n times, with nobody leaving. */
  function Passed(w: World, limit: Channel -> nat, dt: nat, n: nat): World
    decreases n
  {
    if n == 0 then w else Passed(AfterPass(w, limit, dt, {}), limit, dt, n - 1)
  }

  /** A request alone in the queue, for one limited channel whose quota is not overdrawn. */
  predicate Alone(w: World, limit: Channel -> nat, r: Request, c: Channel) {
    w.st.queue == [r] && r.channels == [c] && Waiting(r) && limit(c) > 0 && w.quota(c) >= 0
  }

  /** What it gets in a tick: all it wants, or all that the channel has after the refill. */
  function LoneShare(w: World, limit: Channel -> nat, r: Request, c: Channel, dt: nat): int {
    var quota := if w.quota(c) + (limit(c) * dt + 500) / 1000 <= 3 * limit(c)
      then w.quota(c) + (limit(c) * dt + 500) / 1000 else 3 * limit(c);
    if r.size - r.got < quota then r.size - r.got else quota
  }

  lemma LoneRound(w: World, limit: Channel -> nat, r: Request, c: Channel, dt: nat, t: Round)
    requires Alone(w, limit, r, c) && t == RoundFor(limit, w.quota, [r], {}, dt)
    ensures Kept([r], {}) == [r] && Dropped([r], {}) == []
    ensures Share(t, r) == LoneShare(w, limit, r, c, dt) && Total([r], c, Shares(t)) == Share(t, r)
    ensures 0 <= Share(t, r) <= AfterRefill(w.quota(c), limit(c), [r], {}, c, dt)
  {
    assert [r][..0] == [] && [c][..0] == [];
    assert Kept([r], {}) == [r] && Dropped([r], {}) == [];
    LoneTotal(r, c, Priority);
    LoneTotal(r, c, Shares(t));
    assert Uses([r], c);
    RateSign(limit(c), dt);
    var quota := AfterRefill(w.quota(c), limit(c), [r], {}, c, dt);
    SameFloor(Portion(t, c, r.priority), quota, r.priority);
    assert Least(t, [], r.priority, r.size - r.got) == r.size - r.got;
  }

  lemma LoneTotal(r: Request, c: Channel, f: Request -> int)
    requires r.channels == [c]
    ensures Total([r], c, f) == f(r)
  {
    assert [r][..0] == [] && [c][..0] == [];
    assert Paid([], c, f(r)) == 0 && Total([], c, f) == 0;
  }

  lemma LoneTick(w: World, limit: Channel -> nat, r: Request, c: Channel, dt: nat, share: int, r': Request)
    requires Alone(w, limit, r, c) && share == LoneShare(w, limit, r, c, dt)
    requires r' == r.(got := r.got + share, ttl := r.ttl - 1)
    ensures true == Ticked(w.told, AfterPass(w, limit, dt, {}), c, r')
  {
    var t := RoundFor(limit, w.quota, [r], {}, dt);
    LoneRound(w, limit, r, c, dt, t);
    LoneGrant(t, r, r');
    TickedBy(w, limit, r, c, dt, t, r');
  }

  /** The lone request is served, or stays as it is now. */
  predicate Ticked(told: seq<Request>, next: World, c: Channel, r': Request) {
    && next.quota(c) >= 0
    && next.st.queue == (if Complete(r') then [] else [r'])
    && next.told == told + (if Complete(r') then [r'] else [])
  }

  lemma TickedBy(w: World, limit: Channel -> nat, r: Request, c: Channel, dt: nat, t: Round, r': Request)
    requires w.st.queue == [r] && limit(c) > 0 && t == RoundFor(limit, w.quota, [r], {}, dt) && Kept([r], {}) == [r]
    requires Left(t, [r]) == (if Complete(r') then [] else [r'])
      && Served(t, [r]) == (if Complete(r') then [r'] else [])
    requires Total([r], c, Shares(t)) <= AfterRefill(w.quota(c), limit(c), [r], {}, c, dt)
    ensures true == Ticked(w.told, AfterPass(w, limit, dt, {}), c, r')
  {
    var next := AfterPass(w, limit, dt, {});
    assert next.quota(c) == QuotaAfter(w, limit, dt, {}, t)(c) >= 0;
    assert Backwards([r']) == [r'] && Backwards([]) == [];
  }

  lemma LoneGrant(t: Round, r: Request, r': Request)
    requires Grant(t, r) == r'
    ensures Left(t, [r]) == (if Complete(r') then [] else [r']) && Served(t, [r]) == if Complete(r') then [r'] else []
  {
    assert [r][..0] == [];
    assert Left(t, []) == [] && Served(t, []) == [];
  }

  lemma SameFloor(p: int, a: int, b: int)
    requires b > 0 && p * b <= a * b < (p + 1) * b
    ensures p == a
  {
    assert (a + 1) * b == a * b + b;
    if p < a { MulUp(p + 1, a, b); } else if a < p { MulUp(a + 1, p, b); }
  }

  /** A tick is worth `rate` bytes or more. */
  predicate Gives(limit: nat, dt: nat, rate: nat) {
    0 < rate <= (limit * dt + 500) / 1000 && rate <= 3 * limit
  }

  lemma ShareBounds(w: World, limit: Channel -> nat, r: Request, c: Channel, dt: nat, rate: nat)
    requires Alone(w, limit, r, c) && Gives(limit(c), dt, rate)
    ensures var share := LoneShare(w, limit, r, c, dt);
      0 < share <= r.size - r.got && (share >= rate || share == r.size - r.got)
  {}

  /** The lone request has been served, alone. */
  predicate ServedAlone(told: seq<Request>, v: World, r: Request) {
    && v.st.queue == [] && |v.told| == |told| + 1 && v.told[..|told|] == told
    && v.told[|told|].peer == r.peer && r.got < v.told[|told|].got <= r.size
  }

  lemma {:induction false} ServedIn(w: World, limit: Channel -> nat, r: Request, c: Channel, dt: nat, rate: nat,
    n: nat, worth: nat, v: World, first: Request)
    requires true == Alone(w, limit, r, c) && true == Gives(limit(c), dt, rate) && true == Later(first, r)
    requires n > 0 && worth == Worth(n, rate) && (worth >= r.size - r.got || n >= r.ttl)
    requires v == Passed(w, limit, dt, n)
    ensures true == ServedAlone(w.told, v, first)
    decreases n
  {
    var next, r' := LoneStep(w, limit, r, c, dt, rate, n, worth, first);
    PassedOnce(w, limit, dt, n, next);
    if next.st.queue == [] {
      Quiet(next, limit, dt, n - 1);
    } else {
      ServedIn(next, limit, r', c, dt, rate, n - 1, worth - rate, v, first);
    }
  }

  /** The same request, some time later. */
  predicate Later(first: Request, r: Request) { first.peer == r.peer && first.size == r.size && first.got <= r.got }

  /** A tick serves the lone request, or leaves it with less to wait for. */
  lemma LoneStep(w: World, limit: Channel -> nat, r: Request, c: Channel, dt: nat, rate: nat, n: nat, worth: nat,
    first: Request) returns (next: World, r': Request)
    requires true == Alone(w, limit, r, c) && true == Gives(limit(c), dt, rate) && true == Later(first, r)
    requires n > 0 && worth == Worth(n, rate) && (worth >= r.size - r.got || n >= r.ttl)
    ensures next == AfterPass(w, limit, dt, {})
    ensures next.st.queue == [] ==> true == ServedAlone(w.told, next, first)
    ensures next.st.queue != [] ==>
      && true == Alone(next, limit, r', c) && next.told == w.told && true == Later(first, r')
      && n > 1 && worth - rate == Worth(n - 1, rate) && (worth - rate >= r'.size - r'.got || n - 1 >= r'.ttl)
  {
    var share := LoneShare(w, limit, r, c, dt);
    next, r' := AfterPass(w, limit, dt, {}), r.(got := r.got + share, ttl := r.ttl - 1);
    LoneTick(w, limit, r, c, dt, share, r');
    ShareBounds(w, limit, r, c, dt, rate);
    if Complete(r') {
      ServedNow(w.told, next, c, first, r');
    } else {
      RestWorth(n, rate, worth, r.size - r.got, share, r.ttl);
      StillAlone(w, next, limit, r, c, r');
    }
  }

  lemma ServedNow(told: seq<Request>, next: World, c: Channel, r: Request, r': Request)
    requires Ticked(told, next, c, r') && Complete(r') && r'.peer == r.peer && r.got < r'.got <= r.size
    ensures true == ServedAlone(told, next, r)
  {
    assert next.told[..|told|] == told;
  }

  lemma StillAlone(w: World, next: World, limit: Channel -> nat, r: Request, c: Channel, r': Request)
    requires Alone(w, limit, r, c) && Ticked(w.told, next, c, r') && !Complete(r') && r.got < r'.got <= r.size
    requires r' == r.(got := r'.got, ttl := r.ttl - 1)
    ensures true == Alone(next, limit, r', c) && next.told == w.told
  {}

  lemma RestWorth(n: nat, rate: nat, worth: nat, wanted: int, share: int, ttl: int)
    requires n > 0 && worth == Worth(n, rate) && (worth >= wanted || n >= ttl) && share >= rate
    requires share < wanted && ttl > 1
    ensures n > 1 && worth - rate == Worth(n - 1, rate) && (worth - rate >= wanted - share || n - 1 >= ttl - 1)
  {
    assert Worth(1, rate) == Worth(0, rate) + rate;
  }

  function Worth(n: nat, rate: nat): (r: nat)
    ensures r == n * rate
  {
    if n == 0 then 0 else Worth(n - 1, rate) + rate
  }

  /** If the limit gives `rate` bytes or more in a tick, such a request is served, alone, as soon as the ticks are worth
      what it wants, and at the latest when its time is up. */
  lemma LoneServed(w: World, limit: Channel -> nat, r: Request, c: Channel, dt: nat, rate: nat, n: nat)
    requires w.st.queue == [r] && r.channels == [c] && Waiting(r) && limit(c) > 0 && w.quota(c) >= 0
    requires 0 < rate <= (limit(c) * dt + 500) / 1000 && rate <= 3 * limit(c)
    requires n > 0 && (n * rate >= r.size - r.got || n >= r.ttl)
    ensures var v, k := Passed(w, limit, dt, n), |w.told|;
      && v.st.queue == [] && |v.told| == k + 1 && v.told[..k] == w.told
      && v.told[k].peer == r.peer && r.got < v.told[k].got <= r.size
  {
    ServedIn(w, limit, r, c, dt, rate, n, Worth(n, rate), Passed(w, limit, dt, n), r);
  }

  lemma PassedOnce(w: World, limit: Channel -> nat, dt: nat, n: nat, next: World)
    requires n > 0 && next == AfterPass(w, limit, dt, {})
    ensures Passed(w, limit, dt, n) == Passed(next, limit, dt, n - 1)
  {}

  lemma {:induction false} Quiet(w: World, limit: Channel -> nat, dt: nat, n: nat)
    requires w.st.queue == []
    ensures Passed(w, limit, dt, n) == w
  {
    if n > 0 { Quiet(w, limit, dt, n - 1); }
  }

  /** A peer that asks an idle manager with one limited channel is served within twenty ticks. */
  lemma AskServed(w: World, limit: Channel -> nat, h: Happening, c: Channel, dt: nat)
    requires w.st.queue == [] && h.Asks? && Fine(h) && h.chs == [c] && limit(c) > 0 && w.quota(c) >= 0
    requires (limit(c) * dt + 500) / 1000 > 0
    ensures var v := Passed(AfterAsk(w, limit, h), limit, dt, 20);
      && v.st.queue == [] && v.told != [] && v.told[|v.told| - 1].peer == h.peer
      && 0 < v.told[|v.told| - 1].got <= h.blk
  {
    assert h.chs[..0] == [] && ThrottledBy(h.chs, limit) == [c];
    var r, v := RequestOf(h, limit), AfterAsk(w, limit, h);
    assert v.st.queue == [r];
    LoneServed(v, limit, r, c, dt, 1, 20);
  }

  // ---------------------------------------------------------------- the manager does it

  /** Quotas and limits as the channels have them. */
  ghost function QuotaOf(cs: set<Channel>): Channel -> int
    reads cs
  {
    var quotas := map c | c in cs :: c.quotaLeft;
    c => if c in quotas then quotas[c] else 0
  }

  ghost function LimitOf(cs: set<Channel>): Channel -> nat
    reads cs
  {
    var limits := map c | c in cs :: c.limit;
    c => if c in limits then limits[c] else 0
  }

  /** Manager and channels are as the run says. */
  ghost predicate Mirrors(m: Manager, cs: set<Channel>, limit: Channel -> nat, w: World)
    reads m, cs
  {
    && m.Valid() && !m.aborted && Within(m.queue, cs) && m.queue == w.st.queue
    && forall c :: c in cs ==> c.limit == limit(c) && c.quotaLeft == w.quota(c)
  }

  predicate Known(h: Happening, cs: set<Channel>) { h.Asks? ==> forall c: Channel :: c in h.chs ==> c in cs }

  /** Whatever happens to a manager, in any order, its queue, what it answers and tells, and the quotas of all
      channels are those of the run. */
  method Drive(m: Manager, hs: seq<Happening>, ghost cs: set<Channel>)
    returns (told: seq<Request>, answers: seq<nat>)
    requires m.Valid() && m.queue == [] && !m.aborted && AllFine(hs) && forall i :: 0 <= i < |hs| ==> Known(hs[i], cs)
    modifies m, cs`quotaLeft, cs`tmp, cs`distribute
    ensures var w := Driven(old(QuotaOf(cs)), old(LimitOf(cs)), hs);
      && told == w.told && answers == w.answers && m.Valid() && m.queue == w.st.queue
      && forall c :: c in cs ==> c.quotaLeft == w.quota(c)
  {
    told, answers := [], [];
    ghost var quota, limit := QuotaOf(cs), LimitOf(cs);
    ghost var w := Fresh(quota);
    for i := 0 to |hs|
      invariant w == Driven(quota, limit, hs[..i]) && true == Mirrors(m, cs, limit, w)
      invariant told == w.told && answers == w.answers
    {
      assert hs[..i + 1][..i] == hs[..i] && Fine(hs[i]) && Known(hs[i], cs);
      told, answers := Happen(m, hs[i], told, answers, cs, limit, w);
      w := Next(w, limit, hs[i]);
    }
    assert hs[..|hs|] == hs;
  }

  method Happen(m: Manager, h: Happening, told: seq<Request>, answers: seq<nat>, ghost cs: set<Channel>,
    ghost limit: Channel -> nat, ghost w: World)
    returns (told': seq<Request>, answers': seq<nat>)
    requires true == Mirrors(m, cs, limit, w) && Fine(h) && Known(h, cs) && told == w.told && answers == w.answers
    modifies m, cs`quotaLeft, cs`tmp, cs`distribute
    ensures true == Mirrors(m, cs, limit, Next(w, limit, h))
    ensures told' == Next(w, limit, h).told && answers' == Next(w, limit, h).answers
  {
    told', answers' := told, answers;
    if h.Asks? {
      answers' := AskManager(m, h, answers, cs, limit, w);
    } else {
      told' := Pass(m, h.dt, h.gone, told, cs, limit, w);
    }
  }

  lemma {:induction false} ThrottledIs(chs: seq<Channel?>, limit: Channel -> nat)
    requires forall c: Channel :: c in chs ==> c.limit == limit(c)
    ensures Throttled(chs) == ThrottledBy(chs, limit)
  {
    if chs != [] { ThrottledIs(chs[..|chs| - 1], limit); }
  }

  lemma {:induction false} ThrottledFrom(chs: seq<Channel?>, limit: Channel -> nat, c: Channel)
    requires c in ThrottledBy(chs, limit)
    ensures c in chs
  {
    if c in ThrottledBy(chs[..|chs| - 1], limit) { ThrottledFrom(chs[..|chs| - 1], limit, c); }
  }

  /** A peer asks; one with a request in the queue does not. */
  method AskManager(m: Manager, h: Happening, answers: seq<nat>, ghost cs: set<Channel>, ghost limit: Channel -> nat,
    ghost w: World)
    returns (answers': seq<nat>)
    requires true == Mirrors(m, cs, limit, w) && h.Asks? && Fine(h) && Known(h, cs) && answers == w.answers
    modifies m
    ensures true == Mirrors(m, cs, limit, AfterAsk(w, limit, h)) && answers' == AfterAsk(w, limit, h).answers
  {
    answers' := answers;
    if CountPeer(m.queue, h.peer) > 0 { return; }
    ThrottledIs(h.chs, limit);
    ghost var r := RequestOf(h, limit);
    forall c | c in r.channels ensures c in cs { ThrottledFrom(h.chs, limit, c); }
    assert Names(r, cs);
    var granted := m.RequestBandwidth(h.peer, h.blk, h.priority, h.chs);
    answers' := answers + [granted];
  }

  /** Two rounds agree about the channels of a queue. */
  predicate Agree(t: Round, t': Round, q: seq<Request>, cs: set<Channel>) {
    Within(q, cs) && forall c :: c in cs && Uses(q, c) ==> AgreeOn(t, t', c)
  }

  predicate AgreeOn(t: Round, t': Round, c: Channel) {
    t.limit(c) == t'.limit(c) && t.weight(c) == t'.weight(c) && (t.limit(c) > 0 ==> t.quota(c) == t'.quota(c))
  }

  lemma {:induction false} SameLeast(t: Round, t': Round, chs: seq<Channel>, priority: nat, wanted: int)
    requires forall c :: c in chs ==> AgreeOn(t, t', c)
    ensures Least(t, chs, priority, wanted) == Least(t', chs, priority, wanted)
  {
    if chs != [] {
      var c := chs[|chs| - 1];
      assert c in chs && AgreeOn(t, t', c);
      SameLeast(t, t', chs[..|chs| - 1], priority, wanted);
    }
  }

  lemma {:induction false} SameRound(t: Round, t': Round, q: seq<Request>, cs: set<Channel>)
    requires Agree(t, t', q, cs)
    ensures Left(t, q) == Left(t', q) && Served(t, q) == Served(t', q)
    ensures forall c :: c in cs ==> Total(q, c, Shares(t)) == Total(q, c, Shares(t'))
  {
    if q != [] {
      var m, r := q[..|q| - 1], q[|q| - 1];
      assert Names(r, cs) && Within(m, cs);
      SameRound(t, t', m, cs);
      SameLeast(t, t', r.channels, r.priority, r.size - r.got);
    }
  }

  /** The round of the manager is the one that the run computes. */
  lemma RoundsAgree(t: Round, m: seq<Request>, cs: set<Channel>, limit: Channel -> nat, quota: Channel -> int,
    gone: set<nat>, dt: nat)
    requires Within(m, cs)
    requires forall c :: c in cs ==>
      RoundOf(t, c, limit(c), Kept(m, gone), AfterRefill(quota(c), limit(c), m, gone, c, dt))
    ensures Agree(t, RoundFor(limit, quota, m, gone, dt), Kept(m, gone), cs)
  {
    var kept := Kept(m, gone);
    KeptWithin(m, gone, cs);
    forall c | c in cs && Uses(kept, c) ensures AgreeOn(t, RoundFor(limit, quota, m, gone, dt), c) {
      WeightSign(kept, c);
    }
  }

  lemma {:induction false} KeptWithin(q: seq<Request>, gone: set<nat>, cs: set<Channel>)
    requires Within(q, cs)
    ensures Within(Kept(q, gone), cs)
  {
    if q != [] {
      assert Within(q[..|q| - 1], cs) && Names(q[|q| - 1], cs);
      KeptWithin(q[..|q| - 1], gone, cs);
    }
  }

  /** Time passes. */
  method Pass(m: Manager, dt: nat, gone: set<nat>, told: seq<Request>, ghost cs: set<Channel>,
    ghost limit: Channel -> nat, ghost w: World)
    returns (told': seq<Request>)
    requires true == Mirrors(m, cs, limit, w) && told == w.told
    modifies m`queue, m`queuedBytes, cs`quotaLeft, cs`tmp, cs`distribute
    ensures true == Mirrors(m, cs, limit, AfterPass(w, limit, Cap(dt), gone))
    ensures told' == AfterPass(w, limit, Cap(dt), gone).told
  {
    ghost var q, quotas := m.queue, Quotas(cs);
    var delivered;
    ghost var t;
    delivered, t := m.UpdateQuotas(dt, gone, cs);
    told' := told + delivered;
    if q != [] {
      forall c | c in cs
        ensures SettledAt(t, c, limit(c), Kept(q, gone), AfterRefill(w.quota(c), limit(c), q, gone, c, Cap(dt)),
          c.quotaLeft)
      {
        assert quotas[c] == w.quota(c);
      }
      RoundsAgree(t, q, cs, limit, w.quota, gone, Cap(dt));
      SameRound(t, RoundFor(limit, w.quota, q, gone, Cap(dt)), Kept(q, gone), cs);
    } else {
      assert forall c :: c in cs ==> c.quotaLeft == Quotas(cs)[c];
    }
  }
}
