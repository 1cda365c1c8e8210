/** The clock estimate over every run: requests and responses that are lost and reordered, a server
    clock at a constant offset from the local one, and any other traffic in between. */
module ClientClock {
  import opened Wrappers
  import opened ClientModel

  const IDS: int := 255

  /** A clock request as it left, and the local time at which it did. */
  datatype Sent = Sent(id: int, requestTime: int, at: int)

  /** What is kept of a response that counted: the round trip, the time from the request to the server's
      stamp, and how far the clock had moved since the request left. */
  datatype Counted = Counted(trip: int, delay: int, moved: int)

  /** `answered` holds the requests whose response was delivered; `last` is the last response that
      counted. */
  datatype World = World(client: Client, requests: seq<Sent>, answered: set<int>, last: Option<Counted>)

  /** Any action of the client but a clock response, or the response to the k-th request: stamped by
      the server at the local time `server` and delivered at `now`. */
  datatype Step =
    | Local(action: Action)
    | Answer(k: nat, server: int, now: int)

  /** The local time at which the action ends. */
  function TimeOf(a: Action): int {
    match a
    case Begin(now) => now
    case Request(_, _, now) => now
    case Receive(_, now) => now
    case End(now) => now
    case Leave => 0
  }

  function Requested(sent: seq<Wire>, at: int): seq<Sent> {
    if sent == [] then []
    else (if sent[0].ClockRequest? then [Sent(sent[0].id, sent[0].requestTime, at)] else []) + Requested(sent[1..], at)
  }

  /** The response echoes id and request time, and adds the server's time. */
  function Response(r: Sent, server: int, offset: int): Datagram {
    ClockSync(r.id, Some((r.requestTime, server + offset)))
  }

  /** What can happen at all: the server answered between sending and delivery. A response may be lost,
      late, and delivered any number of times. */
  predicate Possible(w: World, e: Step) {
    match e
    case Local(a) => !(a.Receive? && a.datagram.ClockSync?)
    case Answer(k, server, now) =>
      k < |w.requests| && w.requests[k].at <= server <= now < w.requests[k].at + WORD
  }

  /** Each response arrives at most once, while fewer than 255 requests were sent after its own. */
  predicate Enabled(w: World, e: Step) {
    Possible(w, e) && (e.Answer? ==> e.k !in w.answered && |w.requests| - e.k <= IDS)
  }

  function CountedNow(c: Client, r: Sent, server: int, now: int): Counted {
    Counted(now - r.at, server - r.at, c.timeShift - (r.requestTime - r.at))
  }

  function Next(w: World, e: Step, offset: int): World
    requires Possible(w, e)
  {
    match e
    case Local(a) =>
      var (c, sent) := Act(w.client, a);
      w.(client := c, requests := w.requests + Requested(sent, TimeOf(a)))
    case Answer(k, server, now) =>
      var r := w.requests[k];
      w.(client := OnDatagram(w.client, Response(r, server, offset), now),
         answered := w.answered + {k},
         last := if w.client.clockSyncId == r.id then Some(CountedNow(w.client, r, server, now)) else w.last)
  }

  ghost predicate CanHappen(w: World, es: seq<Step>, offset: int)
    decreases es
  {
    es == [] || (Possible(w, es[0]) && CanHappen(Next(w, es[0], offset), es[1..], offset))
  }

  ghost function Run(w: World, es: seq<Step>, offset: int): World
    requires CanHappen(w, es, offset)
    decreases es
  {
    if es == [] then w else Run(Next(w, es[0], offset), es[1..], offset)
  }

  /** No response of the run is delivered twice or too late. */
  ghost predicate Orderly(w: World, es: seq<Step>, offset: int)
    requires CanHappen(w, es, offset)
    decreases es
  {
    es == [] || (Enabled(w, es[0]) && Orderly(Next(w, es[0], offset), es[1..], offset))
  }

  // ---------------------------------------------------------------- any run

  /** How far off a response leaves the estimate. */
  function Error(r: Counted): int {
    r.delay + r.moved - HalfTrip(r.trip + r.moved, 0)
  }

  /** The estimate is at most half the round trip off, rounded up. */
  predicate Close(error: int, trip: int) {
    -(trip / 2) <= error <= (trip + 1) / 2
  }

  predicate Exact(w: World, offset: int) {
    w.last.Some? ==>
      0 <= w.last.value.delay <= w.last.value.trip < WORD && w.client.timeShift - offset == Error(w.last.value)
  }

  /** The estimate after a response that counts, whatever it was before. */
  lemma AnswerErrs(w: World, k: nat, server: int, now: int, offset: int)
    requires Possible(w, Answer(k, server, now)) && w.client.clockSyncId == w.requests[k].id
    ensures var w1, r := Next(w, Answer(k, server, now), offset), CountedNow(w.client, w.requests[k], server, now);
      w1.last == Some(r) && w1.client.timeShift - offset == Error(r)
  {
    hide HalfTrip;
    SameHalfTrip(Synchronized(w.client, now), w.requests[k].requestTime);
  }

  lemma SameHalfTrip(current: int, request: int)
    ensures HalfTrip(current, request) == HalfTrip(current - request, 0)
  {
  }

  lemma LocalKeepsClock(c: Client, a: Action)
    requires !(a.Receive? && a.datagram.ClockSync?)
    ensures Act(c, a).0.timeShift == c.timeShift
  {
    hide RemoveAcknowledged, Resent, Resends;
  }

  /** Over every run, with responses lost, late and repeated, the estimate is off by exactly what the last
      response that counted says. */
  lemma {:induction false} EveryRunErrs(w: World, es: seq<Step>, offset: int)
    requires Exact(w, offset) && CanHappen(w, es, offset)
    ensures Exact(Run(w, es, offset), offset)
    decreases es
  {
    if es != [] {
      hide Error, OnDatagram, Act, Requested;
      match es[0] {
        case Local(a) => LocalKeepsClock(w.client, a);
        case Answer(k, server, now) =>
          if w.client.clockSyncId == w.requests[k].id {
            AnswerErrs(w, k, server, now, offset);
          } else {
            OtherIdIgnored(w.client, w.requests[k], server, now, offset);
          }
      }
      EveryRunErrs(Next(w, es[0], offset), es[1..], offset);
    }
  }

  lemma OtherIdIgnored(c: Client, r: Sent, server: int, now: int, offset: int)
    requires c.clockSyncId != r.id
    ensures OnDatagram(c, Response(r, server, offset), now) == c.(lastTimestamp := Synchronized(c, now))
  {
  }

  /** The clock has not moved, or by one millisecond at most, hidden by the rounding; and the round trip
      as the client measures it is not negative. */
  predicate Unmoved(trip: int, moved: int) {
    0 <= trip + moved < WORD && (trip - moved) / 2 == trip / 2
  }

  lemma WordDivides(x: int)
    ensures 0 <= x - WORD * (x / WORD) < WORD
    ensures HalfTrip(x, 0) == (x - WORD * (x / WORD)) / 2
    ensures x >= WORD ==> x / WORD >= 1
    ensures x < 0 ==> x / WORD <= -1
  {
    assert x % WORD == x - WORD * (x / WORD);
  }

  /** A response leaves the estimate close whatever the time of the server's stamp exactly when the clock
      was not moved between the request and the response. */
  lemma CloseExactly(trip: int, moved: int)
    requires 0 <= trip < WORD
    ensures (forall delay | 0 <= delay <= trip :: Close(Error(Counted(trip, delay, moved)), trip))
       <==> Unmoved(trip, moved)
  {
    hide HalfTrip;
    var first, last := Counted(trip, 0, moved), Counted(trip, trip, moved);
    WordDivides(trip + moved);
    if 0 <= trip + moved < WORD {
      assert HalfTrip(trip + moved, 0) == (trip + moved) / 2;
      assert Error(first) == -((trip - moved) / 2);
    } else if trip + moved < 0 {
      assert !Close(Error(first), trip);
    } else {
      assert !Close(Error(last), trip);
    }
  }

  // ---------------------------------------------------------------- orderly runs

  /** Queued data are reliable requests. */
  predicate QueueHoldsRequests(queue: seq<MsgInfo>) {
    forall i | 0 <= i < |queue| :: queue[i].data.SyncRequest?
  }

  predicate Numbered(requests: seq<Sent>) {
    forall k | 0 <= k < |requests| :: requests[k].id == (k + 1) % IDS
  }

  /** Ids count modulo 255; as long as the last request is not answered the clock stands as it stood when
      the request left; and it did not move between the last request that counted and its response. */
  predicate Inv(w: World, offset: int) {
    && QueueHoldsRequests(w.client.queue)
    && Numbered(w.requests)
    && w.client.clockSyncId == |w.requests| % IDS
    && (forall k | k in w.answered :: 0 <= k < |w.requests|)
    && (w.requests != [] && |w.requests| - 1 !in w.answered ==>
          var last := w.requests[|w.requests| - 1]; last.requestTime == last.at + w.client.timeShift)
    && (w.last.Some? ==>
          && w.last.value.moved == 0 && 0 <= w.last.value.delay <= w.last.value.trip < WORD
          && w.client.timeShift - offset == Error(w.last.value))
  }

  lemma SameRemainder(a: int, b: int)
    ensures a % IDS == b % IDS <==> (a - b) % IDS == 0
  {
    var q := a / IDS - b / IDS;
    assert a - b == IDS * q + (a % IDS - b % IDS);
  }

  /** Of all requests, the id is that of the last one or of one a multiple of 255 before it. */
  lemma SameId(w: World, k: nat, offset: int)
    requires Inv(w, offset) && k < |w.requests|
    ensures w.client.clockSyncId == w.requests[k].id <==> (|w.requests| - 1 - k) % IDS == 0
  {
    SameRemainder(|w.requests|, k + 1);
  }

  /** A response counts exactly when it answers the last request. Then, whatever the estimate was before,
      the new one is at most half of this round trip off; otherwise the estimate stays. */
  lemma AnswerCounts(w: World, k: nat, server: int, now: int, offset: int)
    requires Inv(w, offset) && Enabled(w, Answer(k, server, now))
    ensures var w1 := Next(w, Answer(k, server, now), offset);
      && Inv(w1, offset)
      && (w.client.clockSyncId == w.requests[k].id <==> k == |w.requests| - 1)
      && (if k == |w.requests| - 1
          then Close(w1.client.timeShift - offset, now - w.requests[k].at)
          else w1.client.timeShift == w.client.timeShift && w1.last == w.last)
  {
    hide Error, Close;
    SameId(w, k, offset);
    if k == |w.requests| - 1 {
      AnswerErrs(w, k, server, now, offset);
      StillIsClose(CountedNow(w.client, w.requests[k], server, now));
    } else {
      OtherIdIgnored(w.client, w.requests[k], server, now, offset);
    }
  }

  lemma StillIsClose(r: Counted)
    requires r.moved == 0 && 0 <= r.delay <= r.trip < WORD
    ensures Close(Error(r), r.trip)
  {
    CloseExactly(r.trip, 0);
    assert r == Counted(r.trip, r.delay, 0);
  }

  lemma {:induction false} RequestedNone(sent: seq<Wire>, at: int)
    requires forall i | 0 <= i < |sent| :: !sent[i].ClockRequest?
    ensures Requested(sent, at) == []
  {
    if sent != [] { RequestedNone(sent[1..], at); }
  }

  lemma {:induction false} RequestedLast(sent: seq<Wire>, id: int, time: int, at: int)
    requires forall i | 0 <= i < |sent| :: !sent[i].ClockRequest?
    ensures Requested(sent + [ClockRequest(id, time)], at) == [Sent(id, time, at)]
  {
    var all := sent + [ClockRequest(id, time)];
    if sent != [] {
      RequestedLast(sent[1..], id, time, at);
      assert all[1..] == sent[1..] + [ClockRequest(id, time)];
    } else {
      assert all[1..] == [];
    }
  }

  lemma {:induction false} RemovedHoldsRequests(queue: seq<MsgInfo>, ackIdx: int)
    requires QueueHoldsRequests(queue)
    ensures QueueHoldsRequests(RemoveAcknowledged(queue, ackIdx))
  {
    if queue != [] && queue[0].seqIdx != ackIdx { RemovedHoldsRequests(queue[1..], ackIdx); }
  }

  lemma {:induction false} ResendsAreRequests(queue: seq<MsgInfo>, current: int)
    requires QueueHoldsRequests(queue)
    ensures QueueHoldsRequests(Resent(queue, current))
    ensures forall i | 0 <= i < |Resends(queue, current)| :: !Resends(queue, current)[i].ClockRequest?
  {
    if queue != [] { ResendsAreRequests(queue[1..], current); }
  }

  /** The new state and the clock requests of a local action: none, or one with the next id that carries
      the current estimate of the time. */
  predicate Asks(c: Client, c1: Client, asked: seq<Sent>, at: int) {
    && c1.timeShift == c.timeShift
    && QueueHoldsRequests(c1.queue)
    && (if asked == [] then c1.clockSyncId == c.clockSyncId
        else asked == [Sent(c1.clockSyncId, at + c.timeShift, at)]
             && c1.clockSyncId == if c.clockSyncId < 254 then c.clockSyncId + 1 else 0)
  }

  lemma LocalAsks(c: Client, a: Action)
    requires QueueHoldsRequests(c.queue) && !(a.Receive? && a.datagram.ClockSync?)
    ensures var (c1, sent) := Act(c, a); Asks(c, c1, Requested(sent, TimeOf(a)), TimeOf(a))
  {
    hide Requested, RemoveAcknowledged, Resent, Resends;
    var (c1, sent) := Act(c, a);
    match a
    case Begin(now) =>
      RequestedLast([], c1.clockSyncId, now + c.timeShift, now);
      assert sent == [] + sent;
    case Request(_, _, now) => RequestedNone(sent, now);
    case Leave => RequestedNone(sent, 0);
    case Receive(d, now) =>
      RequestedNone(sent, now);
      if d.Sync? || d.Ack? { RemovedHoldsRequests(c.queue, d.seqIdx); }
    case End(now) =>
      var current := Synchronized(c, now);
      ResendsAreRequests(c.queue, current);
      RequestedNone(Resends(c.queue, current), now);
      RequestedLast(Resends(c.queue, current), c1.clockSyncId, current, now);
      RequestedNone([], now);
  }

  lemma LocalKeeps(w: World, a: Action, offset: int)
    requires Inv(w, offset) && Enabled(w, Local(a))
    ensures Inv(Next(w, Local(a), offset), offset)
  {
    hide Act, Requested, QueueHoldsRequests;
    LocalAsks(w.client, a);
  }

  lemma {:induction false} RunKeeps(w: World, es: seq<Step>, offset: int)
    requires Inv(w, offset) && CanHappen(w, es, offset) && Orderly(w, es, offset)
    ensures Inv(Run(w, es, offset), offset)
    decreases es
  {
    if es != [] {
      hide Inv, Possible, Next;
      match es[0] {
        case Local(a) => LocalKeeps(w, a, offset);
        case Answer(k, server, now) => AnswerCounts(w, k, server, now, offset);
      }
      RunKeeps(Next(w, es[0], offset), es[1..], offset);
    }
  }

  function New(name: string): World {
    World(Fresh(name), [], {}, None)
  }

  /** Errors never add up: after any orderly run the estimate is at most half the round trip of the last
      response that counted off the true offset, whatever it was before that response. */
  lemma EstimateIsClose(name: string, es: seq<Step>, offset: int)
    requires CanHappen(New(name), es, offset) && Orderly(New(name), es, offset)
    requires Run(New(name), es, offset).last.Some?
    ensures var w := Run(New(name), es, offset); Close(w.client.timeShift - offset, w.last.value.trip)
  {
    hide Error, Close;
    RunKeeps(New(name), es, offset);
    StillIsClose(Run(New(name), es, offset).last.value);
  }

  // ---------------------------------------------------------------- why the conditions

  /** After any run whatever: the estimate is exactly as far off as the last response that counted says,
      so it is close for every time of the server's stamp if and only if the clock was not moved between
      that request and its response. */
  lemma EstimateExactly(name: string, es: seq<Step>, offset: int)
    requires CanHappen(New(name), es, offset) && Run(New(name), es, offset).last.Some?
    ensures var w := Run(New(name), es, offset);
      var r := w.last.value;
      && w.client.timeShift - offset == Error(r)
      && 0 <= r.delay <= r.trip
      && ((forall delay | 0 <= delay <= r.trip :: Close(Error(Counted(r.trip, delay, r.moved)), r.trip))
          <==> Unmoved(r.trip, r.moved))
  {
    EveryRunErrs(New(name), es, offset);
    var r := Run(New(name), es, offset).last.value;
    CloseExactly(r.trip, r.moved);
  }

  /** A response that counts and is delivered once more counts once more, and then the clock was moved by
      what it moved the first time: the estimate is sure to be close again only if that was nothing, up to
      rounding. */
  lemma RepeatCounts(w: World, k: nat, server: int, now: int, again: int, offset: int)
    requires Possible(w, Answer(k, server, now)) && Possible(w, Answer(k, server, again))
    requires w.client.clockSyncId == w.requests[k].id
    requires w.requests[k].requestTime == w.requests[k].at + w.client.timeShift
    ensures var w1 := Next(w, Answer(k, server, now), offset);
      Possible(w1, Answer(k, server, again))
      && var w2 := Next(w1, Answer(k, server, again), offset);
         w2.last == Some(Counted(again - w.requests[k].at, server - w.requests[k].at,
                                 w1.client.timeShift - w.client.timeShift))
         && w2.client.timeShift - offset == Error(w2.last.value)
  {
    hide Error;
    var w1 := Next(w, Answer(k, server, now), offset);
    AnswerErrs(w1, k, server, again, offset);
  }

  /** For instance, with a server 1000 ms ahead and a round trip of 20 ms, the estimate is exact after the
      first delivery and 500 ms off after the second. */
  lemma DuplicateSpoils(name: string)
    ensures var w := Next(New(name), Local(Begin(0)), 1000);
      && Possible(w, Answer(0, 10, 20))
      && var w1 := Next(w, Answer(0, 10, 20), 1000);
         w1.client.timeShift == 1000 && Possible(w1, Answer(0, 10, 20))
         && !Close(Next(w1, Answer(0, 10, 20), 1000).client.timeShift - 1000, 20)
  {
    var w := Next(New(name), Local(Begin(0)), 1000);
    RequestedLast([], 1, 0, 0);
    assert [] + [ClockRequest(1, 0)] == [ClockRequest(1, 0)];
    assert w.requests == [Sent(1, 0, 0)] && w.client.timeShift == 0;
    RepeatCounts(w, 0, 10, 20, 20, 1000);
    AnswerErrs(w, 0, 10, 20, 1000);
    assert HalfTrip(20, 0) == 10 && HalfTrip(1020, 0) == 510;
  }

  /** A response to the request 255 before the last one has the last one's id and counts. */
  lemma LateAnswerCounts(w: World, k: nat, offset: int)
    requires Inv(w, offset) && |w.requests| - k == IDS + 1
    ensures w.client.clockSyncId == w.requests[k].id
  {
    SameId(w, k, offset);
  }
}
