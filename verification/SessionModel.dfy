/** The server's side of a game session as a state machine: one step for each message handled by the
    session actor and for each tick of its keep-alive timer. */
module SessionModel {
  import opened Wrappers
  import opened SequenceWindow

  type Address = int

  const KEEP_ALIVE_LIMIT: int := 10000
  const WEAK_CONNECTION_TIMEOUT: int := 1000
  const MASK_WIDTH: int := 64

  datatype Player = Player(address: Address, updateTimestamp: int, privateData: string, lastPing: int, weak: bool)

  datatype Shared = Shared(updateTimestamp: int, data: string)

  /** What the server keeps for each player's reliable requests. */
  datatype SeqInfo = SeqInfo(local: int, window: Window)

  datatype Phase = Waiting | Running

  /** `stats` has an entry for every player of the session: `None` for one that is not connected.
      A stopped actor handles nothing any more. */
  datatype Session = Session(
    id: int,
    stats: map<string, Option<Player>>,
    shared: Shared,
    seqs: map<string, SeqInfo>,
    phase: Phase,
    stopped: bool)

  datatype Event =
    | Ready(name: string, from: Address, now: int)
    | KeepAlive(name: string, from: Address, now: int)
    | Update(name: string, from: Address, timestamp: int, data: string, sharedData: string, now: int)
    | RequestSync(name: string, from: Address, syncId: int, seqIdx: int)
    | ClockSync(from: Address, id: int, requestTime: int, now: int)
    | Quit(name: string, from: Address)
    | Tick(now: int)

  /** What the actor sends; messages that go to every player carry the player's name. */
  datatype Out =
    | Start(name: string, to: Address)
    | Accepted(to: Address)
    | Refused(to: Address)
    | State(to: Address)
    | Sync(syncId: int, seqIdx: int)
    | Ack(to: Address, seqIdx: int)
    | ClockReply(to: Address, id: int, requestTime: int, responseTime: int)
    | QuitNotice(player: string, name: string, to: Address)
    | Ping(name: string, to: Address)
    | CloseSession(id: int)

  function Init(id: int, names: set<string>): Session {
    Session(id, map n | n in names :: None, Shared(0, ""), map[], Waiting, false)
  }

  predicate Alive(s: Session, name: string) {
    name in s.stats && s.stats[name].Some?
  }

  predicate SomeoneAlive(s: Session) {
    exists n :: n in s.stats && s.stats[n].Some?
  }

  predicate EveryoneJoined(s: Session) {
    forall n :: n in s.stats ==> s.stats[n].Some?
  }

  /** A start message to every player that is there. */
  function StartAll(s: Session): set<Out> {
    set n | n in s.stats && s.stats[n].Some? :: Start(n, s.stats[n].value.address)
  }

  /** A keep-alive to every player that is there. */
  function PingAll(s: Session): set<Out> {
    set n | n in s.stats && s.stats[n].Some? :: Ping(n, s.stats[n].value.address)
  }

  // ---------------------------------------------------------------- the handlers

  /** In the waiting phase a player of the session joins (again); the one that completes the player
      set starts the session. */
  function OnReady(s: Session, name: string, from: Address, now: int): (Session, set<Out>) {
    if s.phase == Running then (s, {})
    else if name !in s.stats then (s, {Refused(from)})
    else
      var s1 := s.(stats := s.stats[name := Some(Player(from, 0, "", now, false))],
                   seqs := s.seqs[name := SeqInfo(1, Window(0, 0))]);
      if EveryoneJoined(s1) then (s1.(phase := Running), StartAll(s1))
      else (s1, {Accepted(from)})
  }

  /** A keep-alive of a player that is not there raises an exception, which is answered. */
  function OnKeepAlive(s: Session, name: string, from: Address, now: int): (Session, set<Out>) {
    if name !in s.stats then (s, {})
    else if s.stats[name].None? then (s, {Refused(from)})
    else (s.(stats := s.stats[name := Some(s.stats[name].value.(lastPing := now))]), {})
  }

  function OnUpdate(s: Session, e: Event): (Session, set<Out>)
    requires e.Update?
  {
    if s.phase == Waiting || !Alive(s, e.name) || s.stats[e.name].value.updateTimestamp >= e.timestamp then (s, {})
    else
      var p := s.stats[e.name].value.(updateTimestamp := e.timestamp, privateData := e.data, lastPing := e.now);
      var shared := if e.sharedData != "" && s.shared.updateTimestamp < e.timestamp
                    then Shared(e.timestamp, e.sharedData) else s.shared;
      (s.(stats := s.stats[e.name := Some(p)], shared := shared), {State(e.from)})
  }

  /** A reliable request is scheduled and acknowledged if its index is new, under the next index of
      the player's own counter; a simple one is always scheduled. */
  function OnRequestSync(s: Session, e: Event): (Session, set<Out>)
    requires e.RequestSync?
  {
    if s.phase == Waiting then (s, {})
    else if e.seqIdx >= MODULO then (s, {Sync(e.syncId, MODULO + 1)})
    else if e.name !in s.seqs then (s, {})
    else
      var info := s.seqs[e.name];
      var (ok, w) := Check(info.window, e.seqIdx, MASK_WIDTH);
      if !ok then (s, {})
      else (s.(seqs := s.seqs[e.name := SeqInfo(Next(info.local), w)]),
            {Sync(e.syncId, info.local), Ack(e.from, e.seqIdx)})
  }

  /** `quitImpl`: the last player to leave closes the session. */
  function Leave(s: Session, name: string): (Session, set<Out>) {
    if !Alive(s, name) then (s, {})
    else
      var s1 := s.(stats := s.stats[name := None]);
      if SomeoneAlive(s1) then (s1, {}) else (s1.(stopped := true), {CloseSession(s.id)})
  }

  function OnQuit(s: Session, name: string, from: Address): (Session, set<Out>) {
    if s.phase == Waiting then (s, {})
    else
      var r := Leave(s, name);
      (r.0, r.1 + set n | n in r.0.stats && r.0.stats[n].Some? && r.0.stats[n].value.address != from
                      :: QuitNotice(name, n, r.0.stats[n].value.address))
  }

  predicate Lost(p: Player, now: int) {
    now > p.lastPing && now - p.lastPing > KEEP_ALIVE_LIMIT
  }

  /** What `checkConnection` makes of one player. */
  function Checked(p: Option<Player>, now: int): Option<Player> {
    if p.None? || now <= p.value.lastPing then p
    else if Lost(p.value, now) then None
    else Some(p.value.(weak := now - p.value.lastPing > WEAK_CONNECTION_TIMEOUT))
  }

  /** The keep-alive timer: lost players leave, the others are pinged. */
  function OnTick(s: Session, now: int): (Session, set<Out>) {
    if s.phase == Waiting then (s, {})
    else
      var s1 := s.(stats := map n | n in s.stats :: Checked(s.stats[n], now));
      if SomeoneAlive(s) && !SomeoneAlive(s1) then (s1.(stopped := true), {CloseSession(s.id)})
      else (s1, PingAll(s1))
  }

  function Handle(s: Session, e: Event): (Session, set<Out>) {
    match e
    case Ready(name, from, now) => OnReady(s, name, from, now)
    case KeepAlive(name, from, now) => OnKeepAlive(s, name, from, now)
    case Update(_, _, _, _, _, _) => OnUpdate(s, e)
    case RequestSync(_, _, _, _) => OnRequestSync(s, e)
    case ClockSync(from, id, requestTime, now) =>
      (s, if s.phase == Running then {ClockReply(from, id, requestTime, now)} else {})
    case Quit(name, from) => OnQuit(s, name, from)
    case Tick(now) => OnTick(s, now)
  }

  /** One step of the actor. */
  function Step(s: Session, e: Event): (Session, set<Out>) {
    if s.stopped then (s, {}) else Handle(s, e)
  }

  /** The session after some events. */
  function Run(s: Session, es: seq<Event>): Session
    decreases es
  {
    if es == [] then s else Run(Step(s, es[0]).0, es[1..])
  }

  /** What the session sends at each of the events. */
  function Outs(s: Session, es: seq<Event>): seq<set<Out>>
    decreases es
  {
    if es == [] then [] else [Step(s, es[0]).1] + Outs(Step(s, es[0]).0, es[1..])
  }
}
