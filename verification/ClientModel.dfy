/** The client's side of a game session as a state machine: reliable requests with a resend queue,
    the clock estimate, the connection timeout, and one step for each datagram received. */
module ClientModel {
  import opened Wrappers
  import opened SequenceWindow

  const BUFFER_SIZE: nat := 32
  const KEEP_ALIVE_LIMIT: int := 10000
  const RESEND_INTERVAL: int := 1000
  const CLOCK_SYNC_TIMEOUT: int := 30000
  const MASK_WIDTH: int := 32
  const WORD: int := 0x1_0000_0000_0000_0000

  /** What the client sends. */
  datatype Wire =
    | SyncRequest(syncId: int, delay: int, seqIdx: int)
    | ClockRequest(id: int, requestTime: int)
    | QuitNotice(player: string)

  /** A reliable request that has not been acknowledged. */
  datatype MsgInfo = MsgInfo(seqIdx: int, sentTime: int, data: Wire)

  datatype Client = Client(
    name: string,
    started: bool,
    local: int,
    window: Window,
    queue: seq<MsgInfo>,
    timeShift: int,
    lastTimestamp: int,
    lastSyncTime: int,
    lastPing: int,
    clockSyncId: int)

  datatype Datagram =
    | Start
    | State
    | Sync(seqIdx: nat, syncId: int)
    | KeepAlive(timestamp: Option<int>)
    | Ack(seqIdx: nat)
    | ClockSync(id: int, times: Option<(int, int)>)
    | Quit(player: string)
    | Message
    | Unknown

  function Fresh(name: string): Client {
    Client(name, false, 1, Window(0, 0), [], 0, 0, 0, 0, 0)
  }

  /** `getTimeSyncronizedMS` at a local time. */
  function Synchronized(c: Client, now: int): int {
    now + c.timeShift
  }

  /** `sendClockSync` */
  function SendClockSync(c: Client, now: int): (Client, Wire) {
    var id := if c.clockSyncId < 254 then c.clockSyncId + 1 else 0;
    (c.(clockSyncId := id), ClockRequest(id, Synchronized(c, now)))
  }

  /** The end of `startup`, when the start message has arrived. */
  function Startup(c: Client, now: int): (Client, Wire) {
    var (c1, w) := SendClockSync(c.(started := true), now);
    (c1.(lastTimestamp := Synchronized(c1, now)), w)
  }

  /** `sync` with `reliable` set, on a started session: refused when the buffer is full. */
  function ReliableSync(c: Client, syncId: int, delay: int, now: int): (Client, Option<Wire>) {
    if |c.queue| >= BUFFER_SIZE then (c, None)
    else
      var w := SyncRequest(syncId, delay, c.local);
      (c.(local := Next(c.local), queue := c.queue + [MsgInfo(c.local, Synchronized(c, now), w)]), Some(w))
  }

  /** `removeAcknowledged`: the first entry with the index is taken out. */
  function RemoveAcknowledged(queue: seq<MsgInfo>, ackIdx: int): (r: seq<MsgInfo>)
    ensures |r| <= |queue|
  {
    if queue == [] then []
    else if queue[0].seqIdx == ackIdx then queue[1..]
    else [queue[0]] + RemoveAcknowledged(queue[1..], ackIdx)
  }

  /** `checkAcknowledgement` */
  function CheckAcknowledgement(c: Client, ackIdx: int): (bool, Client) {
    var (ok, w) := Check(c.window, ackIdx, MASK_WIDTH);
    (ok, c.(window := w, queue := if ok then RemoveAcknowledged(c.queue, ackIdx) else c.queue))
  }

  /** `updatePing` */
  function UpdatePing(c: Client, timestamp: int, now: int): Client {
    if c.lastSyncTime > 0 && timestamp > Synchronized(c, now) then
      c.(lastPing := (c.lastPing + (timestamp - Synchronized(c, now))) / 2)
    else c
  }

  /** Half a round trip, in 64-bit unsigned arithmetic. */
  function HalfTrip(current: int, request: int): int {
    ((current - request) % WORD) / 2
  }

  /** A clock response: it counts only for the last request sent. */
  function OnClockSync(c: Client, id: int, times: Option<(int, int)>, now: int): Client {
    if c.clockSyncId != id || times.None? then c
    else
      var ping := HalfTrip(Synchronized(c, now), times.value.0);
      c.(lastSyncTime := Synchronized(c, now), lastPing := ping,
         timeShift := c.timeShift + times.value.1 - times.value.0 - ping)
  }

  /** What a datagram does before the time of the last message is noted. */
  function Dispatch(c: Client, d: Datagram, now: int): Client {
    match d
    case Sync(seqIdx, _) => if seqIdx >= MODULO then c else CheckAcknowledgement(c, seqIdx).1
    case KeepAlive(timestamp) => if timestamp.Some? then UpdatePing(c, timestamp.value, now) else c
    case Ack(seqIdx) => CheckAcknowledgement(c, seqIdx).1
    case ClockSync(id, times) => OnClockSync(c, id, times, now)
    case Quit(player) => if player == c.name then c.(started := false) else c
    case _ => c
  }

  /** The sync ids that a datagram brings to the application: that of a sync without an index, or with one
      that is accepted. */
  function Synced(c: Client, d: Datagram): seq<int> {
    if d.Sync? && (d.seqIdx >= MODULO || CheckAcknowledgement(c, d.seqIdx).0) then [d.syncId] else []
  }

  /** One datagram that is not of an unknown type. */
  function OnDatagram(c: Client, d: Datagram, now: int): Client {
    var c1 := Dispatch(c, d, now);
    c1.(lastTimestamp := Synchronized(c1, now))
  }

  // ---------------------------------------------------------------- receive

  datatype Arrival = Arrival(datagram: Datagram, now: int)

  /** What the loop of `receive` leaves: the state, the count it returns, the datagrams not read, whether
      an unknown datagram ended the call with an exception, and the sync ids the application got. */
  datatype Loop = Loop(client: Client, counter: nat, unread: seq<Arrival>, thrown: bool, synced: seq<int>)

  /** The loop of `receive`: keep-alive messages are not counted. */
  function ReceiveLoop(c: Client, inbox: seq<Arrival>, limit: nat, counter: nat): Loop
    decreases inbox
  {
    if !c.started || counter >= limit || inbox == [] then Loop(c, counter, inbox, false, [])
    else if inbox[0].datagram.Unknown? then Loop(c, counter + 1, inbox[1..], true, [])
    else
      var rest := ReceiveLoop(OnDatagram(c, inbox[0].datagram, inbox[0].now), inbox[1..], limit,
                              if inbox[0].datagram.KeepAlive? then counter else counter + 1);
      rest.(synced := Synced(c, inbox[0].datagram) + rest.synced)
  }

  predicate TimedOut(c: Client, now: int) {
    Synchronized(c, now) > c.lastTimestamp + KEEP_ALIVE_LIMIT
  }

  predicate Due(m: MsgInfo, current: int) {
    current > m.sentTime + RESEND_INTERVAL
  }

  /** An entry after the resending: a due one has the current time. */
  function Refreshed(m: MsgInfo, current: int): MsgInfo {
    if Due(m, current) then m.(sentTime := current) else m
  }

  /** The queue after the due entries were sent again. */
  function Resent(queue: seq<MsgInfo>, current: int): (r: seq<MsgInfo>)
    ensures |r| == |queue|
    ensures forall i | 0 <= i < |r| :: r[i] == Refreshed(queue[i], current)
  {
    if queue == [] then []
    else [Refreshed(queue[0], current)] + Resent(queue[1..], current)
  }

  /** The datagrams of the due entries, in queue order. */
  function Resends(queue: seq<MsgInfo>, current: int): seq<Wire> {
    if queue == [] then []
    else (if Due(queue[0], current) then [queue[0].data] else []) + Resends(queue[1..], current)
  }

  lemma ResendsFrom(queue: seq<MsgInfo>, i: nat, current: int)
    requires i < |queue|
    ensures Resends(queue[i..], current)
         == (if Due(queue[i], current) then [queue[i].data] else []) + Resends(queue[i + 1..], current)
  {
    assert queue[i..][1..] == queue[i + 1..];
  }

  lemma ResendsNone(queue: seq<MsgInfo>, current: int)
    requires queue == []
    ensures Resends(queue, current) == []
  {
  }

  /** The end of `receive`: the timeout, the resending, and a clock request when the last one is too
      long ago. */
  function Finish(c: Client, now: int): (Client, seq<Wire>) {
    var current := Synchronized(c, now);
    if !c.started then (c, [])
    else if TimedOut(c, now) then (c.(started := false), [])
    else
      var c1 := c.(queue := Resent(c.queue, current));
      if current > c.lastSyncTime + CLOCK_SYNC_TIMEOUT then
        var (c2, w) := SendClockSync(c1, now);
        (c2, Resends(c.queue, current) + [w])
      else (c1, Resends(c.queue, current))
  }

  // ---------------------------------------------------------------- runs

  /** What can happen to a session, one atomic step each. A call of `receive` is a step for each
      datagram it handles and then `End`. */
  datatype Action =
    | Begin(now: int)
    | Request(syncId: int, delay: int, now: int)
    | Receive(datagram: Datagram, now: int)
    | End(now: int)
    | Leave

  /** One step and the datagrams it sends. A request on a session that was not started and an unknown
      datagram raise an exception and change nothing. */
  function Act(c: Client, a: Action): (Client, seq<Wire>) {
    match a
    case Begin(now) => var (c1, w) := Startup(c, now); (c1, [w])
    case Request(syncId, delay, now) =>
      if !c.started then (c, [])
      else var (c1, w) := ReliableSync(c, syncId, delay, now); (c1, if w.Some? then [w.value] else [])
    case Receive(d, now) => if d.Unknown? then (c, []) else (OnDatagram(c, d, now), [])
    case End(now) => Finish(c, now)
    case Leave => if c.started then (c.(started := false), [QuitNotice(c.name)]) else (c, [])
  }

  function Run(c: Client, actions: seq<Action>): Client
    decreases actions
  {
    if actions == [] then c else Run(Act(c, actions[0]).0, actions[1..])
  }

  /** The sync ids that the application gets in a run. */
  function SyncedIn(c: Client, actions: seq<Action>): seq<int>
    decreases actions
  {
    if actions == [] then []
    else (if actions[0].Receive? then Synced(c, actions[0].datagram) else [])
         + SyncedIn(Act(c, actions[0]).0, actions[1..])
  }
}
