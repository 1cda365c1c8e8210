/** Room actors and the registry they share: what each message does to one room and to the registry. */
module LobbyModel {
  import opened Wrappers
  import opened Sequences

  const LOBBIES_MAX_NUMBER: nat := 256

  const FLAG_EJECTED: int := 1
  const FLAG_JOINED: int := 2
  const FLAG_LEFT: int := 4
  const FLAG_NEW_HOST: int := 8
  const FLAG_CLOSED_BY_HOST: int := 16

  /** A player in a room; `actor` stands for its connection. */
  datatype Player = Player(actor: nat, name: string, ready: bool)

  datatype RoomInfo = RoomInfo(
    name: string, host: string, description: string,
    playersLimit: int, playersReserved: int, playersNumber: nat,
    players: seq<string>, userParam: string)

  datatype Mode = Starting | Running | Zombie | Stopped

  datatype Lobby = Lobby(
    name: string, description: string, players: seq<Player>,
    limit: int, reserved: int, userParam: string, mode: Mode)

  const NewLobby: Lobby := Lobby("", "", [], 0, 0, "", Starting)

  datatype Out =
    | RoomReply(to: nat)
    | RoomExists(to: nat)
    | Failed(to: nat)
    | RoomIsFull(to: nat)
    | NameExists(to: nat)
    | Ejected(to: nat, flags: int)
    | ReconfigureFailed(to: nat)
    | Reconfigured(to: nat)
    | Notice(sender: string, flags: int, except: Option<nat>)

  // ---------------------------------------------------------------- the registry

  datatype Entry = Entry(handler: nat, info: RoomInfo)

  type Registry = map<string, Entry>

  datatype Status = Success | AlreadyExists | Full

  function Register(r: Registry, handler: nat, info: RoomInfo): (Registry, Status) {
    if info.name in r then (r, AlreadyExists)
    else if |r| >= LOBBIES_MAX_NUMBER then (r, Full)
    else (r[info.name := Entry(handler, info)], Success)
  }

  function Unregister(r: Registry, name: string): Registry {
    r - {name}
  }

  function UpdateInfo(r: Registry, name: string, info: RoomInfo): Registry {
    if name in r then r[name := Entry(r[name].handler, info)] else r
  }

  // ---------------------------------------------------------------- one room

  function Names(players: seq<Player>): (ns: seq<string>)
    ensures |ns| == |players| && forall i | 0 <= i < |ns| :: ns[i] == players[i].name
  {
    if players == [] then [] else [players[0].name] + Names(players[1..])
  }

  function MakeRoomInfo(l: Lobby): RoomInfo
    requires l.players != []
  {
    RoomInfo(l.name, l.players[0].name, l.description, l.limit, l.reserved, |l.players|, Names(l.players), l.userParam)
  }

  /** The first player with this connection, or the number of players. */
  function FindActor(players: seq<Player>, actor: nat): (i: nat)
    ensures i <= |players| && (i < |players| ==> players[i].actor == actor)
    ensures forall j | 0 <= j < i :: players[j].actor != actor
  {
    if players == [] || players[0].actor == actor then 0 else 1 + FindActor(players[1..], actor)
  }

  /** The first player with this name, or the number of players. */
  function FindName(players: seq<Player>, name: string): (i: nat)
    ensures i <= |players| && (i < |players| ==> players[i].name == name)
    ensures forall j | 0 <= j < i :: players[j].name != name
  {
    if players == [] || players[0].name == name then 0 else 1 + FindName(players[1..], name)
  }

  /** `m_players -= player`: the first equal one is taken out. */
  function Remove(players: seq<Player>, p: Player): seq<Player> {
    if players == [] then []
    else if players[0] == p then players[1..]
    else [players[0]] + Remove(players[1..], p)
  }

  datatype Message =
    | Init(sender: nat, hostName: string, roomName: string, description: string,
           limit: int, reserved: int, userParam: string)
    | Join(sender: nat, playerName: string)
    | EjectPlayer(sender: nat, playerName: string)
    | Reconfigure(sender: nat, newLimit: int, newReserved: int)
    | Disconnected(sender: nat)
    | Close

  datatype Result = Result(lobby: Lobby, registry: Registry, out: set<Out>)

  /** A running room needs a player to be its host. */
  predicate Hosted(l: Lobby) {
    l.mode == Running ==> l.players != []
  }

  function OnInit(l: Lobby, self: nat, r: Registry, m: Message): Result
    requires m.Init?
  {
    var l1 := Lobby(m.roomName, m.description, l.players + [Player(m.sender, m.hostName, false)],
                    m.limit, m.reserved, m.userParam, l.mode);
    var (r1, status) := Register(r, self, MakeRoomInfo(l1));
    match status
    case Success => Result(l1.(mode := Running), r1, {RoomReply(m.sender)})
    case AlreadyExists => Result(l1.(mode := Zombie), r1, {RoomExists(m.sender)})
    case Full => Result(l1.(mode := Zombie), r1, {Failed(m.sender)})
  }

  function OnJoin(l: Lobby, r: Registry, sender: nat, name: string): Result {
    if |l.players| >= l.limit - l.reserved then Result(l, r, {RoomIsFull(sender)})
    else if FindName(l.players, name) < |l.players| then Result(l, r, {NameExists(sender)})
    else
      var l1 := l.(players := l.players + [Player(sender, name, false)]);
      Result(l1, UpdateInfo(r, l.name, MakeRoomInfo(l1)), {RoomReply(sender), Notice(name, FLAG_JOINED, Some(sender))})
  }

  /** Only the host ejects, and not itself; the registry is not told. */
  function OnEject(l: Lobby, r: Registry, sender: nat, name: string): Result
    requires l.players != []
  {
    var i := FindName(l.players, name);
    if l.players[0].actor != sender || l.players[0].name == name || i == |l.players| then Result(l, r, {})
    else Result(l.(players := Remove(l.players, l.players[i])), r,
                {Ejected(l.players[i].actor, FLAG_EJECTED), Notice(name, FLAG_LEFT, None)})
  }

  function OnReconfigure(l: Lobby, r: Registry, sender: nat, newLimit: int, newReserved: int): Result
    requires l.players != []
  {
    if l.players[0].actor != sender then Result(l, r, {})
    else if |l.players| > newLimit - newReserved then Result(l, r, {ReconfigureFailed(sender)})
    else
      var l1 := l.(limit := newLimit, reserved := newReserved);
      Result(l1, UpdateInfo(r, l.name, MakeRoomInfo(l1)), set p | p in l.players :: Reconfigured(p.actor))
  }

  function OnDisconnected(l: Lobby, r: Registry, sender: nat): Result
    requires l.players != []
  {
    var i := FindActor(l.players, sender);
    if i == |l.players| then Result(l, r, {})
    else
      var p := l.players[i];
      var newHost := p == l.players[0];
      var l1 := l.(players := Remove(l.players, p));
      if l1.players != [] then
        Result(l1, UpdateInfo(r, l.name, MakeRoomInfo(l1)),
               {Notice(p.name, FLAG_LEFT + (if newHost then FLAG_NEW_HOST else 0), Some(sender))})
      else Result(l1.(mode := Stopped), Unregister(r, l.name), {})
  }

  function OnClose(l: Lobby, r: Registry): Result {
    Result(l.(mode := Stopped), Unregister(r, l.name),
           set p | p in l.players :: Ejected(p.actor, FLAG_EJECTED + FLAG_CLOSED_BY_HOST))
  }

  /** What a room does with a message in each of its modes. */
  function Handle(l: Lobby, self: nat, r: Registry, m: Message): Result
    requires Hosted(l)
  {
    match l.mode
    case Starting => if m.Init? then OnInit(l, self, r, m) else Result(l, r, {})
    case Running =>
      (match m
       case Init(_, _, _, _, _, _, _) => Result(l, r, {})
       case Join(sender, name) => OnJoin(l, r, sender, name)
       case EjectPlayer(sender, name) => OnEject(l, r, sender, name)
       case Reconfigure(sender, newLimit, newReserved) => OnReconfigure(l, r, sender, newLimit, newReserved)
       case Disconnected(sender) => OnDisconnected(l, r, sender)
       case Close => OnClose(l, r))
    case Zombie => if m.Disconnected? then Result(l.(mode := Stopped), r, {}) else Result(l, r, {})
    case Stopped => Result(l, r, {})
  }

  // ---------------------------------------------------------------- names and removal

  ghost predicate Distinct(players: seq<Player>) {
    forall i, j | 0 <= i < j < |players| :: players[i].name != players[j].name
  }

  /** Among players with distinct names exactly the given one is taken out. */
  lemma {:induction false} RemoveAt(players: seq<Player>, i: nat)
    requires Distinct(players) && i < |players|
    ensures Remove(players, players[i]) == Without(players, i)
  {
    if i == 0 {
      assert players[..0] + players[1..] == players[1..];
    } else {
      assert players[0].name != players[i].name;
      RemoveAt(players[1..], i - 1);
      WithoutNext(players[0], players[1..], i - 1);
      assert [players[0]] + players[1..] == players;
    }
  }

  lemma {:induction false} NamesWithout(players: seq<Player>, i: nat)
    requires i < |players|
    ensures Names(Without(players, i)) == Without(Names(players), i)
  {
    var w := Without(players, i);
    assert forall k | 0 <= k < |w| :: Names(w)[k] == Without(Names(players), i)[k];
  }

  /** `xs` is what is left of `ys` after deletions. */
  predicate Subsequence(xs: seq<string>, ys: seq<string>) {
    if xs == [] then true
    else if ys == [] then false
    else if xs[0] == ys[0] then Subsequence(xs[1..], ys[1..])
    else Subsequence(xs, ys[1..])
  }

  lemma {:induction false} SubsequenceOfSelf(xs: seq<string>)
    ensures Subsequence(xs, xs)
  {
    if xs != [] { SubsequenceOfSelf(xs[1..]); }
  }

  lemma {:induction false} SubsequenceSkip(xs: seq<string>, ys: seq<string>)
    requires ys != [] && Subsequence(xs, ys[1..])
    ensures Subsequence(xs, ys)
    decreases |ys|, 0
  {
    if xs != [] && xs[0] == ys[0] { SubsequenceTail(xs, ys[1..]); }
  }

  lemma {:induction false} SubsequenceTail(xs: seq<string>, ys: seq<string>)
    requires xs != [] && Subsequence(xs, ys)
    ensures Subsequence(xs[1..], ys)
    decreases |ys|, 1
  {
    if xs[0] == ys[0] {
      SubsequenceSkip(xs[1..], ys);
    } else {
      SubsequenceTail(xs, ys[1..]);
      SubsequenceSkip(xs[1..], ys);
    }
  }

  lemma {:induction false} SubsequenceWithout(xs: seq<string>, i: nat, ys: seq<string>)
    requires i < |xs| && Subsequence(xs, ys)
    ensures Subsequence(Without(xs, i), ys)
    decreases |ys|
  {
    if i == 0 {
      SubsequenceTail(xs, ys);
      assert Without(xs, 0) == xs[1..];
    } else {
      assert Without(xs, i)[0] == xs[0];
      if xs[0] == ys[0] {
        SubsequenceWithout(xs[1..], i - 1, ys[1..]);
        assert Without(xs, i)[1..] == Without(xs[1..], i - 1);
      } else {
        SubsequenceWithout(xs, i, ys[1..]);
      }
    }
  }
}
