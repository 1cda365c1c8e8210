/** The registry and the room actors as they work, with fields updated in place. */
module Lobby {
  import opened Wrappers
  import opened LobbyModel
  import L = LobbyLaws

  /** The registry that all rooms share. */
  class Depot {
    var lobbies: Registry

    constructor ()
      ensures lobbies == map[]
    {
      lobbies := map[];
    }

    /** `registerLobby` */
    method RegisterLobby(handler: nat, info: RoomInfo) returns (status: Status)
      modifies this
      ensures (lobbies, status) == Register(old(lobbies), handler, info)
    {
      if info.name in lobbies {
        return AlreadyExists;
      }
      if |lobbies| >= LOBBIES_MAX_NUMBER {
        return Full;
      }
      lobbies := lobbies[info.name := Entry(handler, info)];
      status := Success;
    }

    /** `unregisterLobby` */
    method UnregisterLobby(name: string)
      modifies this
      ensures lobbies == Unregister(old(lobbies), name)
    {
      lobbies := lobbies - {name};
    }

    /** `updateRoomInfo`: an unknown room is ignored */
    method UpdateRoomInfo(name: string, info: RoomInfo)
      modifies this
      ensures lobbies == UpdateInfo(old(lobbies), name, info)
    {
      if name in lobbies {
        lobbies := lobbies[name := Entry(lobbies[name].handler, info)];
      }
    }
  }

  /** One room. */
  class LobbyActor {
    const self: nat
    const depot: Depot
    var name: string
    var description: string
    var players: seq<Player>
    var playersLimit: int
    var playersReserved: int
    var userParam: string
    var mode: Mode

    /** The room of the model that the fields stand for. */
    function Abs(): LobbyModel.Lobby
      reads this
    {
      LobbyModel.Lobby(name, description, players, playersLimit, playersReserved, userParam, mode)
    }

    /** What a handler did, in the model's terms. */
    function Done(out: set<Out>): Result
      reads this, depot
    {
      Result(Abs(), depot.lobbies, out)
    }

    constructor (self: nat, depot: Depot)
      ensures Abs() == NewLobby && Hosted(Abs()) && L.Sound(Abs()) && this.self == self && this.depot == depot
    {
      this.self := self;
      this.depot := depot;
      name, description, players := "", "", [];
      playersLimit, playersReserved, userParam, mode := 0, 0, "", Starting;
    }

    /** `Init` */
    method Init(m: Message) returns (out: set<Out>)
      requires m.Init? && mode == Starting
      modifies this, depot
      ensures Done(out) == OnInit(old(Abs()), self, old(depot.lobbies), m)
    {
      name := m.roomName;
      description := m.description;
      playersLimit := m.limit;
      playersReserved := m.reserved;
      players := players + [Player(m.sender, m.hostName, false)];
      userParam := m.userParam;
      var status := depot.RegisterLobby(self, MakeRoomInfo(Abs()));
      match status
      case Success =>
        out := {RoomReply(m.sender)};
        mode := Running;
      case AlreadyExists =>
        out := {RoomExists(m.sender)};
        mode := Zombie;
      case Full =>
        out := {Failed(m.sender)};
        mode := Zombie;
    }

    /** `Join` */
    method Join(sender: nat, playerName: string) returns (out: set<Out>)
      modifies this`players, depot
      ensures Done(out) == OnJoin(old(Abs()), old(depot.lobbies), sender, playerName)
    {
      if |players| < playersLimit - playersReserved {
        if FindName(players, playerName) == |players| {
          players := players + [Player(sender, playerName, false)];
          depot.UpdateRoomInfo(name, MakeRoomInfo(Abs()));
          out := {RoomReply(sender), Notice(playerName, FLAG_JOINED, Some(sender))};
        } else {
          out := {NameExists(sender)};
        }
      } else {
        out := {RoomIsFull(sender)};
      }
    }

    /** `EjectPlayer` */
    method EjectPlayer(sender: nat, playerName: string) returns (out: set<Out>)
      requires players != []
      modifies this`players
      ensures Done(out) == OnEject(old(Abs()), old(depot.lobbies), sender, playerName)
    {
      out := {};
      var host := players[0];
      if host.actor == sender && host.name != playerName {
        var i := FindName(players, playerName);
        if i < |players| {
          var player := players[i];
          players := Remove(players, player);
          out := {Ejected(player.actor, FLAG_EJECTED), Notice(playerName, FLAG_LEFT, None)};
        }
      }
    }

    /** `Reconfigure` */
    method Reconfigure(sender: nat, newLimit: int, newReserved: int) returns (out: set<Out>)
      requires players != []
      modifies this`playersLimit, this`playersReserved, depot
      ensures Done(out) == OnReconfigure(old(Abs()), old(depot.lobbies), sender, newLimit, newReserved)
    {
      out := {};
      if players[0].actor == sender {
        if |players| > newLimit - newReserved {
          out := {ReconfigureFailed(sender)};
        } else {
          playersLimit := newLimit;
          playersReserved := newReserved;
          depot.UpdateRoomInfo(name, MakeRoomInfo(Abs()));
          out := set p | p in players :: Reconfigured(p.actor);
        }
      }
    }

    /** `Disconnected` */
    method Disconnected(sender: nat) returns (out: set<Out>)
      requires players != []
      modifies this`players, this`mode, depot
      ensures mode == old(mode) || mode == Stopped
      ensures Done(out) == OnDisconnected(old(Abs()), old(depot.lobbies), sender)
    {
      out := {};
      var i := FindActor(players, sender);
      if i < |players| {
        var player := players[i];
        var newHost := player == players[0];
        players := Remove(players, player);
        if players != [] {
          depot.UpdateRoomInfo(name, MakeRoomInfo(Abs()));
          out := {Notice(player.name, FLAG_LEFT + (if newHost then FLAG_NEW_HOST else 0), Some(sender))};
        } else {
          depot.UnregisterLobby(name);
          mode := Stopped;
        }
      }
    }

    /** `Close` */
    method Close() returns (out: set<Out>)
      modifies this`mode, depot
      ensures Done(out) == OnClose(old(Abs()), old(depot.lobbies))
    {
      out := set p | p in players :: Ejected(p.actor, FLAG_EJECTED + FLAG_CLOSED_BY_HOST);
      depot.UnregisterLobby(name);
      mode := Stopped;
    }

    /** One message, in the mode the room is in. The room is ready for the next one, and a room that was
        sound (see `LobbyLaws.Sound`) stays so. */
    method Receive(m: Message) returns (out: set<Out>)
      requires Hosted(Abs())
      modifies this, depot
      ensures Done(out) == Handle(old(Abs()), self, old(depot.lobbies), m)
      ensures Hosted(Abs())
      ensures L.Sound(old(Abs())) && L.SensibleInit(m) ==> L.Sound(Abs())
    {
      L.HandleKeepsHosted(Abs(), self, depot.lobbies, m);
      if L.Sound(Abs()) && L.SensibleInit(m) { L.HandleKeepsSound(Abs(), self, depot.lobbies, m); }
      out := {};
      match mode
      case Starting =>
        if m.Init? { out := Init(m); }
      case Running =>
        match m {
          case Init(_, _, _, _, _, _, _) =>
          case Join(sender, playerName) => out := Join(sender, playerName);
          case EjectPlayer(sender, playerName) => out := EjectPlayer(sender, playerName);
          case Reconfigure(sender, newLimit, newReserved) => out := Reconfigure(sender, newLimit, newReserved);
          case Disconnected(sender) => out := Disconnected(sender);
          case Close => out := Close();
        }
      case Zombie =>
        if m.Disconnected? { mode := Stopped; }
      case Stopped =>
    }
  }
}
