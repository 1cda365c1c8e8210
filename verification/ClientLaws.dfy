/** What holds of a client's session over every run: the reliable requests and their queue, the history
    mask, and the connection timeout. */
module ClientLaws {
  import opened Wrappers
  import opened Sequences
  import opened SequenceWindow
  import opened ClientModel

  // ---------------------------------------------------------------- history

  /** What the state does not show: every reliable request issued, the unbounded index of each queued
      one (the first has index 1), and the local time at which the server was last heard. */
  datatype History = History(issued: seq<Wire>, pending: seq<int>, heard: int)

  function Start(): History {
    History([], [], 0)
  }

  /** The place of the first entry with the index; the length if there is none. */
  function Place(queue: seq<MsgInfo>, ackIdx: int): (i: nat)
    ensures i <= |queue|
    ensures i < |queue| ==> queue[i].seqIdx == ackIdx
    ensures forall j | 0 <= j < i :: queue[j].seqIdx != ackIdx
  {
    if queue == [] then 0
    else if queue[0].seqIdx == ackIdx then 0
    else 1 + Place(queue[1..], ackIdx)
  }

  /** The index that a datagram acknowledges, as far as the client can see. */
  function Acknowledges(c: Client, d: Datagram): Option<int> {
    match d
    case Sync(seqIdx, _) => if seqIdx < MODULO && CheckAcknowledgement(c, seqIdx).0 then Some(seqIdx) else None
    case Ack(seqIdx) => if CheckAcknowledgement(c, seqIdx).0 then Some(seqIdx) else None
    case _ => None
  }

  function Note(c: Client, h: History, a: Action): History {
    match a
    case Begin(now) => h.(heard := now)
    case Request(syncId, delay, now) =>
      var sent := Act(c, a).1;
      if sent == [] then h else h.(issued := h.issued + sent, pending := h.pending + [|h.issued| + 1])
    case Receive(d, now) =>
      if d.Unknown? then h
      else
        var ack := Acknowledges(c, d);
        h.(heard := now, pending := if ack.Some? then Without(h.pending, Place(c.queue, ack.value)) else h.pending)
    case End(_) => h
    case Leave => h
  }

  function Notes(c: Client, h: History, actions: seq<Action>): History
    decreases actions
  {
    if actions == [] then h else Notes(Act(c, actions[0]).0, Note(c, h, actions[0]), actions[1..])
  }

  // ---------------------------------------------------------------- the invariant

  /** The entry holds the request issued under the unbounded index. */
  predicate Holds(m: MsgInfo, index: int, issued: seq<Wire>) {
    1 <= index <= |issued| && m.data == issued[index - 1] && m.seqIdx == index % MODULO
  }

  predicate Carries(w: Wire, index: int) {
    w.SyncRequest? && w.seqIdx == index % MODULO
  }

  predicate IssuedInOrder(issued: seq<Wire>) {
    forall i | 0 <= i < |issued| :: Carries(issued[i], i + 1)
  }

  /** The queue holds exactly the pending requests, in the order of issue, and at most 32. */
  predicate QueueOk(queue: seq<MsgInfo>, h: History) {
    && |queue| == |h.pending| <= BUFFER_SIZE
    && Increasing(h.pending)
    && forall i | 0 <= i < |queue| :: Holds(queue[i], h.pending[i], h.issued)
  }

  predicate Inv(c: Client, h: History) {
    && QueueOk(c.queue, h)
    && IssuedInOrder(h.issued)
    && c.local == (|h.issued| + 1) % MODULO
    && c.window.bits == 0
    && c.lastTimestamp - c.timeShift == h.heard
  }

  /** Acknowledging takes out the first entry with the index and keeps the order of the rest. */
  lemma {:induction false} RemovesFirst(queue: seq<MsgInfo>, ackIdx: int)
    ensures RemoveAcknowledged(queue, ackIdx) == Without(queue, Place(queue, ackIdx))
  {
    if queue != [] && queue[0].seqIdx != ackIdx {
      RemovesFirst(queue[1..], ackIdx);
      WithoutNext(queue[0], queue[1..], Place(queue[1..], ackIdx));
      assert [queue[0]] + queue[1..] == queue;
    }
  }

  lemma WithoutKeeps(queue: seq<MsgInfo>, h: History, i: nat)
    requires QueueOk(queue, h) && i <= |queue|
    ensures QueueOk(Without(queue, i), h.(pending := Without(h.pending, i)))
  {
    hide Increasing, Holds;
    WithoutKeepsIncreasing(h.pending, i);
    if i < |queue| {
      var q, p := Without(queue, i), Without(h.pending, i);
      forall j | 0 <= j < |q| ensures Holds(q[j], p[j], h.issued) {
        var k := if j < i then j else j + 1;
        assert q[j] == queue[k] && p[j] == h.pending[k];
      }
    }
  }

  lemma AcknowledgementKeeps(c: Client, h: History, d: Datagram, now: int)
    requires Inv(c, h) && !d.Unknown? && (d.Sync? || d.Ack?)
    ensures Inv(OnDatagram(c, d, now), Note(c, h, Receive(d, now)))
  {
    hide Check, RemoveAcknowledged, QueueOk, Place;
    ZeroStaysZero(c.window, d.seqIdx, MASK_WIDTH);
    RemovesFirst(c.queue, d.seqIdx);
    var i := Place(c.queue, d.seqIdx);
    WithoutKeeps(c.queue, h, i);
    QueueIgnoresTime(c.queue, h.(pending := Without(h.pending, i)), now);
    QueueIgnoresTime(c.queue, h, now);
    QueueIgnoresTime(Without(c.queue, i), h.(pending := Without(h.pending, i)), now);
  }

  lemma QueueIgnoresTime(queue: seq<MsgInfo>, h: History, now: int)
    ensures QueueOk(queue, h.(heard := now)) == QueueOk(queue, h)
  {
  }

  /** Issuing one more request, with the next index. */
  function Issued(h: History, w: Wire): History {
    h.(issued := h.issued + [w], pending := h.pending + [|h.issued| + 1])
  }

  lemma IssuedStaysInOrder(issued: seq<Wire>, w: Wire)
    requires IssuedInOrder(issued) && Carries(w, |issued| + 1)
    ensures IssuedInOrder(issued + [w])
  {
    hide Carries;
  }

  lemma QueueGrows(queue: seq<MsgInfo>, h: History, m: MsgInfo)
    requires QueueOk(queue, h) && |queue| < BUFFER_SIZE && m.seqIdx == (|h.issued| + 1) % MODULO
    ensures QueueOk(queue + [m], Issued(h, m.data))
  {
    var h1, q := Issued(h, m.data), queue + [m];
    forall i | 0 <= i < |queue| ensures Holds(queue[i], h.pending[i], h1.issued) && h.pending[i] <= |h.issued| {
      assert Holds(queue[i], h.pending[i], h.issued);
    }
    assert Holds(m, |h.issued| + 1, h1.issued);
  }

  lemma RequestKeeps(c: Client, h: History, syncId: int, delay: int, now: int)
    requires Inv(c, h)
    ensures Inv(Act(c, Request(syncId, delay, now)).0, Note(c, h, Request(syncId, delay, now)))
  {
    if c.started && |c.queue| < BUFFER_SIZE {
      hide QueueOk, IssuedInOrder;
      var m := MsgInfo(c.local, Synchronized(c, now), SyncRequest(syncId, delay, c.local));
      QueueGrows(c.queue, h, m);
      IssuedStaysInOrder(h.issued, m.data);
      assert Note(c, h, Request(syncId, delay, now)) == Issued(h, m.data);
    }
  }

  lemma ResentKeeps(queue: seq<MsgInfo>, h: History, current: int)
    requires QueueOk(queue, h)
    ensures QueueOk(Resent(queue, current), h)
  {
    forall i | 0 <= i < |queue| ensures Holds(Resent(queue, current)[i], h.pending[i], h.issued) {
      assert Holds(queue[i], h.pending[i], h.issued);
    }
  }

  lemma StepKeeps(c: Client, h: History, a: Action)
    requires Inv(c, h)
    ensures Inv(Act(c, a).0, Note(c, h, a))
  {
    match a
    case Begin(now) => QueueIgnoresTime(c.queue, h, now);
    case Request(syncId, delay, now) => RequestKeeps(c, h, syncId, delay, now);
    case Receive(d, now) =>
      if d.Sync? || d.Ack? {
        AcknowledgementKeeps(c, h, d, now);
      } else {
        hide QueueOk;
        QueueIgnoresTime(c.queue, h, now);
      }
    case End(now) =>
      ResentKeeps(c.queue, h, Synchronized(c, now));
      hide QueueOk, Resent;
    case Leave =>
  }

  lemma {:induction false} RunKeeps(c: Client, h: History, actions: seq<Action>)
    requires Inv(c, h)
    ensures Inv(Run(c, actions), Notes(c, h, actions))
    decreases actions
  {
    if actions != [] {
      StepKeeps(c, h, actions[0]);
      RunKeeps(Act(c, actions[0]).0, Note(c, h, actions[0]), actions[1..]);
    }
  }

  /** Every state a new session can come to. */
  lemma EveryRun(name: string, actions: seq<Action>)
    ensures Inv(Run(ClientModel.Fresh(name), actions), Notes(ClientModel.Fresh(name), Start(), actions))
  {
    RunKeeps(ClientModel.Fresh(name), Start(), actions);
  }

  // ---------------------------------------------------------------- what is sent

  /** Every request that a step sends or sends again is an exact copy of one that is pending after it;
      a full buffer sends nothing new. */
  lemma SentIsPending(c: Client, h: History, a: Action, w: Wire)
    requires Inv(c, h) && w in Act(c, a).1 && w.SyncRequest?
    ensures var h1 := Note(c, h, a);
      exists n :: n in h1.pending && 1 <= n <= |h1.issued| && h1.issued[n - 1] == w
  {
    var h1 := Note(c, h, a);
    match a
    case Begin(_) =>
    case Request(syncId, delay, now) =>
      assert h1.pending[|h1.pending| - 1] == |h1.issued| && h1.issued[|h1.issued| - 1] == w;
      assert |h1.issued| in h1.pending;
    case Receive(_, _) =>
    case Leave =>
    case End(now) =>
      var current := Synchronized(c, now);
      assert w in Resends(c.queue, current);
      var i := ResendComesFrom(c.queue, current, w);
      assert Holds(c.queue[i], h.pending[i], h.issued);
      assert h.pending[i] in h1.pending;
  }

  lemma {:induction false} ResendComesFrom(queue: seq<MsgInfo>, current: int, w: Wire) returns (i: nat)
    requires w in Resends(queue, current)
    ensures i < |queue| && queue[i].data == w && Due(queue[i], current)
  {
    if Due(queue[0], current) && queue[0].data == w {
      i := 0;
    } else {
      i := ResendComesFrom(queue[1..], current, w);
      i := i + 1;
    }
  }

  /** The places of the due entries. */
  function DuePlaces(queue: seq<MsgInfo>, current: int, offset: int): seq<int> {
    if queue == [] then []
    else (if Due(queue[0], current) then [offset] else []) + DuePlaces(queue[1..], current, offset + 1)
  }

  predicate ExactlyDue(places: seq<int>, queue: seq<MsgInfo>, current: int, offset: int) {
    && Increasing(places)
    && (forall j | 0 <= j < |places| :: offset <= places[j] < offset + |queue|)
    && forall i | offset <= i < offset + |queue| :: current - queue[i - offset].sentTime > 1000 <==> i in places
  }

  /** These datagrams are the payloads at these places, in the same order. */
  predicate PayloadsAt(sent: seq<Wire>, places: seq<int>, queue: seq<MsgInfo>, offset: int) {
    && |sent| == |places|
    && forall j | 0 <= j < |sent| :: offset <= places[j] < offset + |queue| && sent[j] == queue[places[j] - offset].data
  }

  lemma ExactlyDueBefore(tail: seq<int>, queue: seq<MsgInfo>, current: int, offset: int)
    requires queue != [] && ExactlyDue(tail, queue[1..], current, offset + 1)
    ensures ExactlyDue((if Due(queue[0], current) then [offset] else []) + tail, queue, current, offset)
  {
    var places := (if Due(queue[0], current) then [offset] else []) + tail;
    forall i | offset <= i < offset + |queue|
      ensures current - queue[i - offset].sentTime > 1000 <==> i in places
    {
      if i > offset {
        assert queue[i - offset] == queue[1..][i - (offset + 1)];
        assert i in tail <==> i in places;
      }
    }
  }

  lemma {:induction false} DuePlacesAreDue(queue: seq<MsgInfo>, current: int, offset: int)
    ensures ExactlyDue(DuePlaces(queue, current, offset), queue, current, offset)
  {
    if queue != [] {
      hide ExactlyDue;
      DuePlacesAreDue(queue[1..], current, offset + 1);
      ExactlyDueBefore(DuePlaces(queue[1..], current, offset + 1), queue, current, offset);
    }
  }

  /** What is sent again is exactly the payloads of the due entries, in queue order. */
  lemma {:induction false} ResendsAreDue(queue: seq<MsgInfo>, current: int, offset: int)
    ensures ExactlyDue(DuePlaces(queue, current, offset), queue, current, offset)
    ensures PayloadsAt(Resends(queue, current), DuePlaces(queue, current, offset), queue, offset)
  {
    DuePlacesAreDue(queue, current, offset);
    if queue != [] {
      ResendsAreDue(queue[1..], current, offset + 1);
      PayloadsBefore(Resends(queue[1..], current), DuePlaces(queue[1..], current, offset + 1), queue, offset,
                     Due(queue[0], current));
    }
  }

  lemma PayloadsBefore(sent: seq<Wire>, places: seq<int>, queue: seq<MsgInfo>, offset: int, due: bool)
    requires queue != [] && PayloadsAt(sent, places, queue[1..], offset + 1)
    ensures var first, place := if due then [queue[0].data] else [], if due then [offset] else [];
      PayloadsAt(first + sent, place + places, queue, offset)
  {
  }

  /** The end of `receive` on a session that stays started: exactly the due entries are sent again, in
      order and unchanged, no entry is due any more, and indices and payloads are as before. */
  lemma NothingIsLate(c: Client, now: int)
    requires Finish(c, now).0.started
    ensures var c1 := Finish(c, now).0;
      && |c1.queue| == |c.queue|
      && forall i | 0 <= i < |c.queue| ::
           && c1.queue[i].seqIdx == c.queue[i].seqIdx && c1.queue[i].data == c.queue[i].data
           && Synchronized(c1, now) - c1.queue[i].sentTime <= 1000
           && c1.queue[i].sentTime == (if now + c.timeShift - c.queue[i].sentTime > 1000 then now + c.timeShift
                                       else c.queue[i].sentTime)
  {
  }

  // ---------------------------------------------------------------- acknowledging

  /** The two requests were issued a multiple of 1024 requests apart. */
  predicate SameIndex(m: int, n: int) {
    (n - m) % MODULO == 0
  }

  lemma SameIndexMeans(m: int, n: int)
    ensures SameIndex(m, n) <==> m % MODULO == n % MODULO
  {
    ModuloOfDifference(n, m);
  }

  lemma HoldsIndex(c: Client, h: History, i: nat)
    requires Inv(c, h) && i < |c.queue|
    ensures |h.pending| == |c.queue| && c.queue[i].seqIdx == h.pending[i] % MODULO
  {
    assert Holds(c.queue[i], h.pending[i], h.issued);
  }

  /** Acknowledging the index of a queued request takes out that request, and no other, exactly when no
      earlier queued one was issued a multiple of 1024 requests before it. */
  lemma RemovesItsOwn(c: Client, h: History, j: nat)
    requires Inv(c, h) && j < |c.queue|
    ensures Place(c.queue, h.pending[j] % MODULO) == j
       <==> forall i | 0 <= i < j :: !SameIndex(h.pending[i], h.pending[j])
    ensures Place(c.queue, h.pending[j] % MODULO) == j
        ==> RemoveAcknowledged(c.queue, h.pending[j] % MODULO) == Without(c.queue, j)
  {
    hide Inv, SameIndex, Without, Place, RemoveAcknowledged;
    HoldsIndex(c, h, j);
    var ackIdx := h.pending[j] % MODULO;
    RemovesFirst(c.queue, ackIdx);
    forall i | 0 <= i < j ensures c.queue[i].seqIdx == ackIdx <==> SameIndex(h.pending[i], h.pending[j]) {
      HoldsIndex(c, h, i);
      SameIndexMeans(h.pending[i], h.pending[j]);
    }
  }

  /** While fewer than 1024 requests separate the oldest queued one from the next, the queued indices
      are distinct: an index stands for one queued request at most. */
  predicate Near(h: History) {
    h.pending == [] || |h.issued| + 1 - h.pending[0] <= MODULO
  }

  lemma QueuedAreDistinct(c: Client, h: History, i: nat, j: nat)
    requires Inv(c, h) && Near(h) && i < j < |c.queue|
    ensures c.queue[i].seqIdx != c.queue[j].seqIdx
  {
    assert Holds(c.queue[i], h.pending[i], h.issued) && Holds(c.queue[j], h.pending[j], h.issued);
    assert h.pending[0] <= h.pending[i] < h.pending[j] <= |h.issued|;
    ModuloOfDifference(h.pending[j], h.pending[i]);
  }

  /** Then every acknowledgement takes out its own request. */
  lemma RemovesExactly(c: Client, h: History, j: nat)
    requires Inv(c, h) && Near(h) && j < |c.queue|
    ensures RemoveAcknowledged(c.queue, h.pending[j] % MODULO) == Without(c.queue, j)
  {
    forall i | 0 <= i < j ensures !SameIndex(h.pending[i], h.pending[j]) {
      QueuedAreDistinct(c, h, i, j);
      HoldsIndex(c, h, i);
      HoldsIndex(c, h, j);
      SameIndexMeans(h.pending[i], h.pending[j]);
    }
    RemovesItsOwn(c, h, j);
  }

  lemma OwnPlace(c: Client, h: History, j: nat)
    requires Inv(c, h) && Near(h) && j < |c.queue|
    ensures |h.pending| == |c.queue| && Place(c.queue, h.pending[j] % MODULO) == j
  {
    HoldsIndex(c, h, j);
    forall i | 0 <= i < j ensures c.queue[i].seqIdx != c.queue[j].seqIdx { QueuedAreDistinct(c, h, i, j); }
  }

  /** An index that no queued request has takes nothing out. */
  lemma RemovesNothingElse(c: Client, h: History, ackIdx: int)
    requires Inv(c, h) && forall n | n in h.pending :: n % MODULO != ackIdx
    ensures RemoveAcknowledged(c.queue, ackIdx) == c.queue
  {
    RemovesFirst(c.queue, ackIdx);
    forall i | 0 <= i < |c.queue| ensures c.queue[i].seqIdx != ackIdx {
      assert Holds(c.queue[i], h.pending[i], h.issued) && h.pending[i] in h.pending;
    }
  }

  /** A datagram with this index takes an entry out of the queue. */
  predicate TakesOut(c: Client, seqIdx: int) {
    1 <= (seqIdx - c.window.remote) % MODULO < HISTORY
    && exists i :: 0 <= i < |c.queue| && c.queue[i].seqIdx == seqIdx
  }

  /** Exactly which requests leave the queue at an acknowledgement or a request of another player with an
      index below 1024: the earliest queued one with that index, if it is 1 to 31 ahead. */
  lemma LeavesExactly(c: Client, h: History, d: Datagram, now: int, n: int)
    requires Inv(c, h) && Index(c.window.remote)
    requires (d.Sync? || d.Ack?) && d.seqIdx < MODULO && n in h.pending
    ensures var h1 := Note(c, h, Receive(d, now));
      && (n !in h1.pending
          <==> 1 <= (d.seqIdx - c.window.remote) % MODULO < HISTORY && n % MODULO == d.seqIdx
               && forall m | m in h.pending && m < n :: m % MODULO != d.seqIdx)
      && (h1.pending == h.pending <==> !TakesOut(c, d.seqIdx))
  {
    hide Inv, QueueOk, Increasing, Without, Place;
    PendingAfter(c, h, d, now);
    PendingIncreases(c, h);
    PlaceIsEarliest(c, h, d.seqIdx);
    WithoutContents(h.pending, Place(c.queue, d.seqIdx), n);
    WithoutIsShorter(h.pending, Place(c.queue, d.seqIdx));
  }

  lemma NothingLeaves(c: Client, h: History, d: Datagram, now: int)
    requires Inv(c, h) && Index(c.window.remote)
    requires (d.Sync? || d.Ack?) && d.seqIdx < MODULO && !TakesOut(c, d.seqIdx)
    ensures Note(c, h, Receive(d, now)).pending == h.pending
  {
    hide Inv, QueueOk, Increasing, Without, Place;
    PendingAfter(c, h, d, now);
    PendingIncreases(c, h);
    PlaceIsEarliest(c, h, d.seqIdx);
    WithoutIsShorter(h.pending, Place(c.queue, d.seqIdx));
  }

  lemma PendingIncreases(c: Client, h: History)
    requires Inv(c, h)
    ensures Increasing(h.pending) && |h.pending| == |c.queue|
  {
  }

  lemma WithoutIsShorter(xs: seq<int>, i: nat)
    ensures Without(xs, i) == xs <==> i >= |xs|
  {
  }

  lemma PendingAfter(c: Client, h: History, d: Datagram, now: int)
    requires Inv(c, h) && Index(c.window.remote)
    requires (d.Sync? || d.Ack?) && d.seqIdx < MODULO
    ensures Note(c, h, Receive(d, now)).pending
         == if 1 <= (d.seqIdx - c.window.remote) % MODULO < HISTORY
            then Without(h.pending, Place(c.queue, d.seqIdx)) else h.pending
  {
    hide Check, RemoveAcknowledged, QueueOk, Without, Place;
    AcceptedExactly(c.window, d.seqIdx, MASK_WIDTH);
  }

  /** The first entry with an index is the earliest pending request with it. */
  lemma PlaceIsEarliest(c: Client, h: History, seqIdx: int)
    requires Inv(c, h)
    ensures var i := Place(c.queue, seqIdx);
      && (i < |c.queue| <==> exists k :: 0 <= k < |c.queue| && c.queue[k].seqIdx == seqIdx)
      && (forall n | n in h.pending ::
            (i < |h.pending| && h.pending[i] == n
             <==> n % MODULO == seqIdx && forall m | m in h.pending && m < n :: m % MODULO != seqIdx))
  {
    var i := Place(c.queue, seqIdx);
    forall k | 0 <= k < |c.queue| ensures c.queue[k].seqIdx == h.pending[k] % MODULO {
      assert Holds(c.queue[k], h.pending[k], h.issued);
    }
    if i < |c.queue| { assert h.pending[i] in h.pending; }
    forall n | n in h.pending
      ensures i < |h.pending| && h.pending[i] == n
         <==> n % MODULO == seqIdx && forall m | m in h.pending && m < n :: m % MODULO != seqIdx
    {
      var k :| 0 <= k < |h.pending| && h.pending[k] == n;
      if i < k { assert h.pending[i] < n; }
    }
  }

  /** Acknowledgements come from a server that answers reliable requests only. */
  predicate Echoes(a: Action) {
    a.Receive? && a.datagram.Ack? ==> a.datagram.seqIdx < MODULO
  }

  lemma {:induction false} RunKeepsIndex(c: Client, actions: seq<Action>)
    requires Index(c.window.remote) && forall i | 0 <= i < |actions| :: Echoes(actions[i])
    ensures Index(Run(c, actions).window.remote)
    decreases actions
  {
    if actions != [] {
      var c1 := Act(c, actions[0]).0;
      assert Echoes(actions[0]);
      hide RemoveAcknowledged, Resent, Resends;
      assert Index(c1.window.remote);
      forall i | 0 <= i < |actions[1..]| ensures Echoes(actions[1..][i]) { assert actions[1..][i] == actions[i + 1]; }
      RunKeepsIndex(c1, actions[1..]);
    }
  }

  lemma AnswerExactly(c: Client, ackIdx: int)
    requires Index(c.window.remote) && Index(ackIdx) && c.window.bits == 0
    ensures var r := CheckAcknowledgement(c, ackIdx);
      && (r.0 <==> 1 <= (ackIdx - c.window.remote) % 1024 <= 31)
      && r.1 == (if r.0 then c.(window := Window(ackIdx, 0), queue := Without(c.queue, Place(c.queue, ackIdx))) else c)
  {
    hide Check, RemoveAcknowledged, Place, Without;
    AcceptedExactly(c.window, ackIdx, MASK_WIDTH);
    RemovesFirst(c.queue, ackIdx);
  }

  /** In every reachable state an index below 1024 is accepted exactly when it is 1 to 31 ahead of the
      stored one modulo 1024; otherwise nothing changes. */
  lemma AcceptsExactly(name: string, actions: seq<Action>, ackIdx: int)
    requires Index(ackIdx) && forall i | 0 <= i < |actions| :: Echoes(actions[i])
    ensures var c := Run(ClientModel.Fresh(name), actions);
      var r := CheckAcknowledgement(c, ackIdx);
      && (r.0 <==> 1 <= (ackIdx - c.window.remote) % 1024 <= 31)
      && r.1 == (if r.0 then c.(window := Window(ackIdx, 0), queue := Without(c.queue, Place(c.queue, ackIdx))) else c)
  {
    hide Run, CheckAcknowledgement, QueueOk, IssuedInOrder, Place, Without;
    EveryRun(name, actions);
    RunKeepsIndex(ClientModel.Fresh(name), actions);
    AnswerExactly(Run(ClientModel.Fresh(name), actions), ackIdx);
  }

  /** In every reachable state a sync with an index reaches the application exactly when the index is 1 to 31
      ahead of the stored one modulo 1024, and a sync without one always does. */
  lemma SyncReaches(name: string, actions: seq<Action>, seqIdx: nat, syncId: int)
    requires forall i | 0 <= i < |actions| :: Echoes(actions[i])
    ensures var c := Run(ClientModel.Fresh(name), actions);
      Synced(c, Sync(seqIdx, syncId))
      == if seqIdx >= 1024 || 1 <= (seqIdx - c.window.remote) % 1024 <= 31 then [syncId] else []
  {
    if seqIdx < MODULO { AcceptsExactly(name, actions, seqIdx); }
  }

  /** An accepted acknowledgement hides the sync with the same index: it is refused, whatever it brings,
      until the stored index has moved on by more than 992. So a client that is acknowledged first never
      sees its own reliable sync. */
  lemma AckHidesSync(c: Client, n: int, steps: int, syncId: int)
    requires steps >= 0
    requires c.window.bits == 0 && c.window.remote == (n + steps) % MODULO
    ensures Synced(c, Sync(n % MODULO, syncId)) == [] <==> (-steps) % MODULO == 0 || (-steps) % MODULO >= HISTORY
    ensures steps <= MODULO - HISTORY ==> Synced(c, Sync(n % MODULO, syncId)) == []
  {
    hide Check;
    AcceptedExactly(c.window, n % MODULO, MASK_WIDTH);
    ModuloOfDifference(n, n + steps);
    NegativeModulo(steps);
  }

  lemma NegativeModulo(steps: int)
    ensures 1 <= steps <= MODULO - HISTORY ==> (-steps) % MODULO >= HISTORY
  {
    if 1 <= steps <= MODULO - HISTORY { ModuloOfShift(-steps, 1); }
  }

  // ---------------------------------------------------------------- the timeout

  /** The local time of the last start or handled datagram among the actions. */
  function LastHeard(actions: seq<Action>, before: int): int {
    if actions == [] then before
    else
      var a := actions[|actions| - 1];
      if a.Begin? then a.now
      else if a.Receive? && !a.datagram.Unknown? then a.now
      else LastHeard(actions[..|actions| - 1], before)
  }

  lemma {:induction false} LastHeardSplit(first: Action, rest: seq<Action>, before: int)
    ensures LastHeard([first] + rest, before) == LastHeard(rest, LastHeard([first], before))
  {
    var all := [first] + rest;
    if rest == [] {
      assert all == [first];
    } else {
      assert all[..|all| - 1] == [first] + rest[..|rest| - 1];
      LastHeardSplit(first, rest[..|rest| - 1], before);
    }
  }

  lemma {:induction false} NotesHeard(c: Client, h: History, actions: seq<Action>)
    ensures Notes(c, h, actions).heard == LastHeard(actions, h.heard)
    decreases actions
  {
    if actions != [] {
      hide Act;
      var h1 := Note(c, h, actions[0]);
      assert h1.heard == LastHeard([actions[0]], h.heard) by {
        assert [actions[0]][..0] == [];
      }
      NotesHeard(Act(c, actions[0]).0, h1, actions[1..]);
      LastHeardSplit(actions[0], actions[1..], h.heard);
      assert actions == [actions[0]] + actions[1..];
    }
  }

  /** After every run the end of `receive` stops a started session exactly when more than ten seconds of
      local time have passed since the last start or handled datagram, however often the clock was
      moved in between. */
  lemma TimesOutExactly(name: string, actions: seq<Action>, now: int)
    ensures var c := Run(ClientModel.Fresh(name), actions);
      Finish(c, now).0.started <==> c.started && now - LastHeard(actions, 0) <= 10000
  {
    EveryRun(name, actions);
    NotesHeard(ClientModel.Fresh(name), Start(), actions);
  }

  // ---------------------------------------------------------------- the ping

  /** The round-trip sample that an action brings: from a keep-alive stamped ahead of the estimate, once
      the clock was set, or from a clock response that counts. */
  function Sample(c: Client, a: Action): Option<int> {
    if !a.Receive? then None
    else
      match a.datagram
      case KeepAlive(timestamp) =>
        if timestamp.Some? && c.lastSyncTime > 0 && timestamp.value > Synchronized(c, a.now)
        then Some(timestamp.value - Synchronized(c, a.now)) else None
      case ClockSync(id, times) =>
        if c.clockSyncId == id && times.Some?
        then Some(HalfTrip(Synchronized(c, a.now), times.value.0)) else None
      case _ => None
  }

  function Distance(x: int, y: int): nat {
    if x < y then y - x else x - y
  }

  /** The ping moves only with a sample. A clock response sets it; a keep-alive takes it towards the
      sample, without passing it, and halves the distance up to rounding. */
  lemma PingFollowsSample(c: Client, a: Action)
    ensures var s, ping := Sample(c, a), Act(c, a).0.lastPing;
      && (s.None? ==> ping == c.lastPing)
      && (s.Some? && a.datagram.ClockSync? ==> ping == s.value)
      && (s.Some? && a.datagram.KeepAlive? ==>
            && (c.lastPing <= ping <= s.value || s.value <= ping <= c.lastPing)
            && Distance(c.lastPing, s.value) - 1 <= 2 * Distance(ping, s.value) <= Distance(c.lastPing, s.value) + 1)
  {
    hide Check, RemoveAcknowledged, Resent, Resends;
  }

  /** All samples of the run lie between these bounds. */
  predicate SamplesWithin(c: Client, actions: seq<Action>, low: int, high: int)
    decreases actions
  {
    actions == [] ||
    ((Sample(c, actions[0]).Some? ==> low <= Sample(c, actions[0]).value <= high)
     && SamplesWithin(Act(c, actions[0]).0, actions[1..], low, high))
  }

  /** Over every run the ping stays within any bounds that hold for its first value and all samples. */
  lemma {:induction false} PingStaysWithin(c: Client, actions: seq<Action>, low: int, high: int)
    requires low <= c.lastPing <= high && SamplesWithin(c, actions, low, high)
    ensures low <= Run(c, actions).lastPing <= high
    decreases actions
  {
    if actions != [] {
      hide Act, Sample;
      PingFollowsSample(c, actions[0]);
      SampleKind(c, actions[0]);
      PingStaysWithin(Act(c, actions[0]).0, actions[1..], low, high);
    }
  }

  /** The ping of a new session is never negative and never above its greatest sample. */
  lemma PingOfNew(name: string, actions: seq<Action>, high: nat)
    requires SamplesWithin(ClientModel.Fresh(name), actions, 0, high)
    ensures 0 <= Run(ClientModel.Fresh(name), actions).lastPing <= high
  {
    PingStaysWithin(ClientModel.Fresh(name), actions, 0, high);
  }

  lemma SampleKind(c: Client, a: Action)
    ensures var s := Sample(c, a);
      s.Some? ==> a.Receive? && (a.datagram.ClockSync? || a.datagram.KeepAlive?)
  {
  }

  // ---------------------------------------------------------------- receive as a run

  function Receives(arrivals: seq<Arrival>): seq<Action> {
    if arrivals == [] then []
    else [Receive(arrivals[0].datagram, arrivals[0].now)] + Receives(arrivals[1..])
  }

  lemma RunFirst(c: Client, a: Action, rest: seq<Action>)
    ensures Run(c, [a] + rest) == Run(Act(c, a).0, rest)
    ensures SyncedIn(c, [a] + rest)
         == (if a.Receive? then Synced(c, a.datagram) else []) + SyncedIn(Act(c, a).0, rest)
  {
    assert ([a] + rest)[1..] == rest;
  }

  lemma LoopStep(c: Client, inbox: seq<Arrival>, limit: nat, counter: nat)
    requires c.started && counter < limit && inbox != []
    ensures var c1 := Act(c, Receive(inbox[0].datagram, inbox[0].now)).0;
      ReceiveLoop(c, inbox, limit, counter)
      == if inbox[0].datagram.Unknown? then Loop(c1, counter + 1, inbox[1..], true, [])
         else
           var rest := ReceiveLoop(c1, inbox[1..], limit,
                                   if inbox[0].datagram.KeepAlive? then counter else counter + 1);
           rest.(synced := Synced(c, inbox[0].datagram) + rest.synced)
  {
    hide OnDatagram;
  }

  lemma ReceivesFirst(a: Arrival, rest: seq<Arrival>)
    ensures Receives([a] + rest) == [Receive(a.datagram, a.now)] + Receives(rest)
  {
    assert ([a] + rest)[1..] == rest;
  }

  lemma UnknownBringsNothing(c: Client, d: Datagram)
    requires d.Unknown?
    ensures Synced(c, d) + [] == []
  {
  }

  /** A call of `receive` handles its first `k` datagrams, one step each, and leaves the others unread;
      it stops early only when the session stopped, the limit is reached or a datagram is unknown. */
  lemma {:induction false} LoopIsRun(c: Client, inbox: seq<Arrival>, limit: nat, counter: nat) returns (k: nat)
    ensures var l := ReceiveLoop(c, inbox, limit, counter);
      && k <= |inbox| && l.unread == inbox[k..] && l.client == Run(c, Receives(inbox[..k]))
      && l.synced == SyncedIn(c, Receives(inbox[..k]))
      && (k == |inbox| || !l.client.started || l.counter >= limit || l.thrown)
      && (l.thrown <==> k > 0 && inbox[k - 1].datagram.Unknown?)
    decreases inbox
  {
    hide Act, Synced;
    if c.started && counter < limit && inbox != [] {
      var first := Receive(inbox[0].datagram, inbox[0].now);
      var c1 := Act(c, first).0;
      LoopStep(c, inbox, limit, counter);
      if inbox[0].datagram.Unknown? {
        k := 1;
        UnknownBringsNothing(c, inbox[0].datagram);
        RunFirst(c, first, []);
        ReceivesFirst(inbox[0], []);
        assert inbox[..1] == [inbox[0]] + [];
      } else {
        k := LoopIsRun(c1, inbox[1..], limit, if inbox[0].datagram.KeepAlive? then counter else counter + 1);
        assert inbox[..k + 1] == [inbox[0]] + inbox[1..][..k];
        ReceivesFirst(inbox[0], inbox[1..][..k]);
        RunFirst(c, first, Receives(inbox[1..][..k]));
        k := k + 1;
      }
    } else {
      k := 0;
    }
  }
}
