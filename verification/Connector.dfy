/**
 * The ticket protocol that bounds how many peers are dialled at once.
 *
 * The channel starts full of tickets marked false. The loop takes a peer and
 * then a ticket; a ticket marked true reports a success, any other one lets a
 * new attempt start. An attempt puts its ticket back when it ends.
 */
module Tickets {
  datatype Loop = WaitPeer | WaitTicket | Returned

  /**
   * `channel` holds the tickets in order, `running` counts the attempts that
   * are still connecting, `sending` holds the results that have not been put
   * back yet, and `left` is the number of peers still wanted.
   */
  datatype State = State(max: nat, channel: seq<bool>, running: nat, sending: seq<bool>, left: int, loop: Loop)

  /** Any attempt may finish, and any finished one may send, at any time. */
  datatype Step = TakePeer | Leave | TakeTicket | Finish(connected: bool) | Send(k: nat)

  function Init(max: nat): State {
    State(max, seq(max, _ => false), 0, [], max, if max == 0 then Returned else WaitPeer)
  }

  /** A send blocks while the channel, with room for `max` tickets, is full. */
  predicate Enabled(s: State, step: Step) {
    match step
    case TakePeer => s.loop == WaitPeer
    case Leave => s.loop != Returned
    case TakeTicket => s.loop == WaitTicket && s.channel != []
    case Finish(_) => s.running > 0
    case Send(k) => k < |s.sending| && |s.channel| < s.max
  }

  /** A ticket marked true is kept; at the last one the loop returns. */
  function Next(s: State, step: Step): State {
    if !Enabled(s, step) then s
    else
      match step
      case TakePeer => s.(loop := WaitTicket)
      case Leave => s.(loop := Returned)
      case TakeTicket =>
        var rest := s.(channel := s.channel[1..]);
        if !s.channel[0] then rest.(running := s.running + 1, loop := WaitPeer)
        else rest.(left := s.left - 1, loop := if s.left - 1 == 0 then Returned else WaitTicket)
      case Finish(connected) => s.(running := s.running - 1, sending := s.sending + [connected])
      case Send(k) => s.(sending := s.sending[..k] + s.sending[k + 1..], channel := s.channel + [s.sending[k]])
  }

  function Run(s: State, steps: seq<Step>): (r: State) {
    if steps == [] then s else Next(Run(s, steps[..|steps| - 1]), steps[|steps| - 1])
  }

  function Count(results: seq<bool>): (n: nat)
    ensures n <= |results|
  {
    if results == [] then 0
    else Count(results[..|results| - 1]) + if results[|results| - 1] then 1 else 0
  }

  /** Attempts that ended with a connection, whether or not the loop knows yet. */
  function Successes(s: State): int {
    s.max - s.left + Count(s.channel) + Count(s.sending)
  }

  predicate Inv(s: State) {
    && 0 <= s.left <= s.max
    && |s.channel| + s.running + |s.sending| == s.left
    && (s.left == 0 ==> s.loop == Returned)
  }

  lemma {:induction false} NextInv(s: State, step: Step)
    requires Inv(s)
    ensures Inv(Next(s, step)) && Next(s, step).max == s.max
  {
  }

  lemma {:induction false} RunInv(max: nat, steps: seq<Step>)
    ensures Inv(Run(Init(max), steps)) && Run(Init(max), steps).max == max
  {
    if steps != [] {
      RunInv(max, steps[..|steps| - 1]);
      NextInv(Run(Init(max), steps[..|steps| - 1]), steps[|steps| - 1]);
    }
  }

  /**
   * In every interleaving: no attempt ever waits to put its ticket back; at
   * most `max` attempts succeed, even if all that are running do; and a loop
   * that waits for a ticket will get one.
   */
  lemma {:induction false} RunSafe(max: nat, steps: seq<Step>)
    ensures var s := Run(Init(max), steps);
            && (forall k :: 0 <= k < |s.sending| ==> Enabled(s, Send(k)))
            && Successes(s) + s.running <= max
            && (s.loop == WaitTicket ==> s.channel != [] || s.running > 0 || s.sending != [])
  {
    RunInv(max, steps);
  }

  /** A loop that returns satisfied leaves exactly `max` successes and nothing behind. */
  lemma {:induction false} SatisfiedExactly(max: nat, steps: seq<Step>)
    ensures var s := Run(Init(max), steps);
            s.left == 0 ==> Successes(s) == max && s.running == 0 && s.channel == [] && s.sending == []
  {
    RunInv(max, steps);
  }

  lemma {:induction false} CountAppend(a: seq<bool>, b: seq<bool>)
    ensures Count(a + b) == Count(a) + Count(b)
  {
    if b == [] {
      assert a + b == a;
    } else {
      assert (a + b)[..|a + b| - 1] == a + b[..|b| - 1];
      CountAppend(a, b[..|b| - 1]);
    }
  }

  lemma {:induction false} CountOne(b: bool)
    ensures Count([b]) == if b then 1 else 0
  {
    assert [b][..0] == [];
  }

  lemma {:induction false} CountWithout(s: seq<bool>, k: nat)
    requires k < |s|
    ensures Count(s) == Count(s[..k] + s[k + 1..]) + Count([s[k]])
    decreases |s|
  {
    var n := |s| - 1;
    var front, rest := s[..n], s[..k] + s[k + 1..];
    CountOne(s[k]);
    if k == n {
      assert rest == front;
    } else {
      CountWithout(front, k);
      assert rest[..n - 1] == front[..k] + front[k + 1..];
      assert rest[n - 1] == s[n];
    }
  }

  /** Only an attempt that ends with a connection adds to the successes; no ticket is lost or made up. */
  lemma {:induction false} SuccessesStep(s: State, step: Step)
    ensures Successes(Next(s, step)) == Successes(s) + (if Enabled(s, step) && step == Finish(true) then 1 else 0)
  {
    if Enabled(s, step) {
      hide Count;
      match step
      case TakeTicket =>
        assert s.channel == [s.channel[0]] + s.channel[1..];
        CountAppend([s.channel[0]], s.channel[1..]);
        CountOne(s.channel[0]);
      case Finish(connected) =>
        CountAppend(s.sending, [connected]);
        CountOne(connected);
      case Send(k) =>
        CountWithout(s.sending, k);
        CountAppend(s.channel, [s.sending[k]]);
      case _ =>
    }
  }

  /** How many attempts have ended with a connection in a run. */
  function Succeeded(max: nat, steps: seq<Step>): (n: nat) {
    if steps == [] then 0
    else
      var front, step := steps[..|steps| - 1], steps[|steps| - 1];
      Succeeded(max, front) + if Enabled(Run(Init(max), front), step) && step == Finish(true) then 1 else 0
  }

  lemma {:induction false} NoSuccesses(n: nat)
    ensures Count(seq(n, _ => false)) == 0
  {
    if n > 0 {
      assert seq(n, _ => false)[..n - 1] == seq(n - 1, _ => false);
      NoSuccesses(n - 1);
    }
  }

  /** Every success is accounted for by a ticket, so there are at most `max`. */
  lemma {:induction false} AtMostMax(max: nat, steps: seq<Step>)
    ensures Succeeded(max, steps) == Successes(Run(Init(max), steps)) <= max
  {
    RunSafe(max, steps);
    if steps == [] {
      NoSuccesses(max);
    } else {
      AtMostMax(max, steps[..|steps| - 1]);
      SuccessesStep(Run(Init(max), steps[..|steps| - 1]), steps[|steps| - 1]);
    }
  }

  /** How often a kind of step has been taken in a run. */
  function Taken(max: nat, steps: seq<Step>, kind: Step -> bool): (n: nat) {
    if steps == [] then 0
    else
      var front, step := steps[..|steps| - 1], steps[|steps| - 1];
      Taken(max, front, kind) + if kind(step) && Enabled(Run(Init(max), front), step) then 1 else 0
  }

  /**
   * No peer is passed over: each one taken from the list has been dialled, and
   * its attempt has ended or is running, or is in hand while the loop waits
   * for a ticket. Only a loop that has returned may have dropped the last one.
   */
  lemma {:induction false} EveryPeerDialled(max: nat, steps: seq<Step>)
    ensures var s := Run(Init(max), steps);
            var peers := Taken(max, steps, (step: Step) => step.TakePeer?);
            var dialled := Taken(max, steps, (step: Step) => step.Finish?) + s.running;
            && (s.loop == WaitPeer ==> peers == dialled)
            && (s.loop == WaitTicket ==> peers == dialled + 1)
            && (s.loop == Returned ==> dialled <= peers <= dialled + 1)
  {
    if steps != [] {
      EveryPeerDialled(max, steps[..|steps| - 1]);
    }
  }
}

/** At most one attempt per peer at a time; later callers wait for its result. */
module SingleFlight {
  type Peer = nat
  type Caller = nat

  /** `owner` is the caller that made the request; only it writes `connected`. */
  datatype Request = Request(owner: Caller, peer: Peer, connected: bool, closed: bool)

  /** Where a caller is. Requests are named by their position. */
  datatype Place =
    | Waiting(id: nat)
    | Connecting(id: nat)
    | Removing(id: nat)
    | Closing(id: nat)
    | Returned(id: nat, result: bool)

  datatype State = State(requests: seq<Request>, ongoing: map<Peer, nat>, places: map<Caller, Place>)

  /** A caller enters at most once; callers that come again count as new ones. */
  datatype Step =
    | Call(c: Caller, peer: Peer)
    | Dialled(c: Caller, connected: bool)
    | Remove(c: Caller)
    | Close(c: Caller)
    | Wake(c: Caller)

  function Init(): State { State([], map[], map[]) }

  predicate Enabled(s: State, step: Step) {
    match step
    case Call(c, _) => c !in s.places
    case Dialled(c, _) => c in s.places && s.places[c].Connecting? && s.places[c].id < |s.requests|
    case Remove(c) => c in s.places && s.places[c].Removing? && s.places[c].id < |s.requests|
    case Close(c) => c in s.places && s.places[c].Closing? && s.places[c].id < |s.requests|
    case Wake(c) =>
      && c in s.places && s.places[c].Waiting? && s.places[c].id < |s.requests|
      && s.requests[s.places[c].id].closed
  }

  function Next(s: State, step: Step): State {
    if !Enabled(s, step) then s
    else
      match step
      case Call(c, peer) =>
        if peer in s.ongoing then s.(places := s.places[c := Waiting(s.ongoing[peer])])
        else
          var id := |s.requests|;
          State(s.requests + [Request(c, peer, false, false)], s.ongoing[peer := id], s.places[c := Connecting(id)])
      case Dialled(c, connected) =>
        var id := s.places[c].id;
        s.(requests := s.requests[id := s.requests[id].(connected := connected)], places := s.places[c := Removing(id)])
      case Remove(c) =>
        var id := s.places[c].id;
        s.(ongoing := s.ongoing - {s.requests[id].peer}, places := s.places[c := Closing(id)])
      case Close(c) =>
        var id := s.places[c].id;
        s.(requests := s.requests[id := s.requests[id].(closed := true)],
           places := s.places[c := Returned(id, s.requests[id].connected)])
      case Wake(c) =>
        var id := s.places[c].id;
        s.(places := s.places[c := Returned(id, s.requests[id].connected)])
  }

  function Run(s: State, steps: seq<Step>): (r: State) {
    if steps == [] then s else Next(Run(s, steps[..|steps| - 1]), steps[|steps| - 1])
  }

  predicate Works(p: Place) { p.Connecting? || p.Removing? || p.Closing? }

  /** What is known about where one caller is. */
  predicate PlaceInv(s: State, c: Caller)
    requires c in s.places
  {
    var place := s.places[c];
    && place.id < |s.requests|
    && var req := s.requests[place.id];
       && (Works(place) ==> req.owner == c && !req.closed)
       && (place.Connecting? || place.Removing? ==> req.peer in s.ongoing && s.ongoing[req.peer] == place.id)
       && (place.Returned? ==> req.closed && place.result == req.connected)
  }

  /** An open request has its owner at work on it. */
  predicate RequestInv(s: State, id: nat)
    requires id < |s.requests|
  {
    var req := s.requests[id];
    && req.owner in s.places
    && (!req.closed ==> Works(s.places[req.owner]) && s.places[req.owner].id == id)
  }

  predicate OngoingInv(s: State, p: Peer)
    requires p in s.ongoing
  {
    var id := s.ongoing[p];
    && id < |s.requests|
    && var req := s.requests[id];
       req.peer == p && req.owner in s.places && s.places[req.owner] in {Connecting(id), Removing(id)}
  }

  predicate Inv(s: State) {
    && (forall c :: c in s.places ==> PlaceInv(s, c))
    && (forall id :: 0 <= id < |s.requests| ==> RequestInv(s, id))
    && (forall p :: p in s.ongoing ==> OngoingInv(s, p))
  }

  lemma {:induction false} NextPlace(s: State, step: Step, c: Caller)
    requires Inv(s) && Enabled(s, step) && c in Next(s, step).places
    ensures PlaceInv(Next(s, step), c)
  {
    hide RequestInv;
    assert step.Call? || PlaceInv(s, step.c);
    assert c in s.places ==> PlaceInv(s, c);
    assert step.Call? && step.peer in s.ongoing ==> OngoingInv(s, step.peer);
  }

  lemma {:induction false} NextRequest(s: State, step: Step, id: nat)
    requires Inv(s) && Enabled(s, step) && id < |Next(s, step).requests|
    ensures RequestInv(Next(s, step), id)
  {
    hide OngoingInv;
    assert step.Call? || PlaceInv(s, step.c);
    assert id < |s.requests| ==> RequestInv(s, id);
  }

  lemma {:induction false} NextOngoing(s: State, step: Step, p: Peer)
    requires Inv(s) && Enabled(s, step) && p in Next(s, step).ongoing
    ensures OngoingInv(Next(s, step), p)
  {
    hide RequestInv;
    assert step.Call? || PlaceInv(s, step.c);
    assert p in s.ongoing ==> OngoingInv(s, p);
  }

  lemma {:induction false} NextInv(s: State, step: Step)
    requires Inv(s)
    ensures Inv(Next(s, step))
  {
    if Enabled(s, step) {
      hide PlaceInv, RequestInv, OngoingInv;
      var s' := Next(s, step);
      forall c | c in s'.places ensures PlaceInv(s', c) { NextPlace(s, step, c); }
      forall id | 0 <= id < |s'.requests| ensures RequestInv(s', id) { NextRequest(s, step, id); }
      forall p | p in s'.ongoing ensures OngoingInv(s', p) { NextOngoing(s, step, p); }
    }
  }

  lemma {:induction false} RunInv(steps: seq<Step>)
    ensures Inv(Run(Init(), steps))
  {
    if steps != [] {
      RunInv(steps[..|steps| - 1]);
      NextInv(Run(Init(), steps[..|steps| - 1]), steps[|steps| - 1]);
    }
  }

  /** In every interleaving two callers never dial the same peer at the same time. */
  lemma {:induction false} OneDialPerPeer(steps: seq<Step>, c: Caller, d: Caller)
    requires var s := Run(Init(), steps);
             c in s.places && d in s.places && s.places[c].Connecting? && s.places[d].Connecting?
    ensures var s := Run(Init(), steps);
            && s.places[c].id < |s.requests| && s.places[d].id < |s.requests|
            && (c != d ==> s.requests[s.places[c].id].peer != s.requests[s.places[d].id].peer)
  {
    var s := Run(Init(), steps);
    RunInv(steps);
    assert PlaceInv(s, c) && PlaceInv(s, d);
  }

  /** A caller that waits has a result to read, or an owner that can move on. */
  lemma {:induction false} WaiterNotStuck(steps: seq<Step>, c: Caller)
    requires var s := Run(Init(), steps); c in s.places && s.places[c].Waiting?
    ensures var s := Run(Init(), steps);
            && s.places[c].id < |s.requests|
            && var owner := s.requests[s.places[c].id].owner;
               || Enabled(s, Wake(c))
               || Enabled(s, Dialled(owner, true)) || Enabled(s, Remove(owner)) || Enabled(s, Close(owner))
  {
    var s := Run(Init(), steps);
    RunInv(steps);
    assert PlaceInv(s, c);
    assert RequestInv(s, s.places[c].id);
  }

  /** The results that dialling for request `id` has given, in order. */
  function Dials(steps: seq<Step>, id: nat): (r: seq<bool>) {
    if steps == [] then []
    else
      var front, step := steps[..|steps| - 1], steps[|steps| - 1];
      var s := Run(Init(), front);
      if step.Dialled? && Enabled(s, step) && s.places[step.c].id == id then Dials(front, id) + [step.connected]
      else Dials(front, id)
  }

  /** A request is dialled once, and its owner's result is then recorded in it. */
  predicate DialsInv(s: State, steps: seq<Step>, id: nat) {
    && (id >= |s.requests| ==> Dials(steps, id) == [])
    && (id < |s.requests| ==>
         var req := s.requests[id];
         if req.owner in s.places && s.places[req.owner] == Connecting(id) then Dials(steps, id) == []
         else Dials(steps, id) == [req.connected])
  }

  lemma {:induction false} RunDials(steps: seq<Step>, id: nat)
    ensures DialsInv(Run(Init(), steps), steps, id)
  {
    if steps != [] {
      var front, step := steps[..|steps| - 1], steps[|steps| - 1];
      var s := Run(Init(), front);
      RunInv(front);
      RunDials(front, id);
      if Enabled(s, step) {
        assert step.Call? || PlaceInv(s, step.c);
        if id < |s.requests| { assert RequestInv(s, id); }
      }
    }
  }

  /** Every caller returns what the one dial of the request it joined returned. */
  lemma {:induction false} CallersGetTheResult(steps: seq<Step>, c: Caller)
    requires var s := Run(Init(), steps); c in s.places && s.places[c].Returned?
    ensures var place := Run(Init(), steps).places[c]; Dials(steps, place.id) == [place.result]
  {
    var s := Run(Init(), steps);
    RunInv(steps);
    assert PlaceInv(s, c);
    assert RequestInv(s, s.places[c].id);
    RunDials(steps, s.places[c].id);
  }

  /** The request that a caller joins is for the peer it asked for, and stays so. */
  lemma {:induction false} JoinedRequest(steps: seq<Step>, c: Caller, peer: Peer, k: nat)
    requires k < |steps| && steps[k] == Call(c, peer) && Enabled(Run(Init(), steps[..k]), steps[k])
    ensures var s := Run(Init(), steps);
            c in s.places && s.places[c].id < |s.requests| && s.requests[s.places[c].id].peer == peer
  {
    var front, step := steps[..|steps| - 1], steps[|steps| - 1];
    var s := Run(Init(), front);
    RunInv(front);
    if k == |steps| - 1 {
      assert steps[..k] == front;
      if peer in s.ongoing { assert OngoingInv(s, peer); }
    } else {
      assert front[..k] == steps[..k];
      JoinedRequest(front, c, peer, k);
      if Enabled(s, step) && !step.Call? { assert PlaceInv(s, step.c); }
    }
  }
}
