/** Who gets which message of a room, and what a room is: for every kind of message exactly when it is sent, and
    the room's whole content as a function of the messages it got. */
module LobbyAnswers {
  import opened Wrappers
  import opened LobbyModel
  import opened LobbyLaws

  /** A player of this name. */
  predicate HasName(players: seq<Player>, name: string) {
    exists j :: 0 <= j < |players| && players[j].name == name
  }

  /** The first player of this name. */
  predicate FirstNamed(players: seq<Player>, name: string, i: int) {
    0 <= i < |players| && players[i].name == name && forall j | 0 <= j < i :: players[j].name != name
  }

  /** The first player with this connection. */
  predicate FirstActor(players: seq<Player>, actor: nat, i: int) {
    0 <= i < |players| && players[i].actor == actor && forall j | 0 <= j < i :: players[j].actor != actor
  }

  /** A message that asks a starting room to be created. */
  predicate Creates(l: Lobby, m: Message) {
    l.mode == Starting && m.Init?
  }

  /** A message that a running room lets a new player in for. */
  predicate Admits(l: Lobby, m: Message) {
    l.mode == Running && m.Join? && |l.players| < l.limit - l.reserved && !HasName(l.players, m.playerName)
  }

  /** A message by which the host takes out another player. */
  predicate Expels(l: Lobby, m: Message) {
    l.mode == Running && m.EjectPlayer? && l.players != [] && l.players[0].actor == m.sender
    && l.players[0].name != m.playerName && HasName(l.players, m.playerName)
  }

  /** A reconfiguration by the host. */
  predicate HostAsks(l: Lobby, m: Message) {
    l.mode == Running && m.Reconfigure? && l.players != [] && l.players[0].actor == m.sender
  }

  lemma NameFound(players: seq<Player>, name: string)
    ensures HasName(players, name) <==> FindName(players, name) < |players|
  {
    if FindName(players, name) < |players| { assert players[FindName(players, name)].name == name; }
  }

  /** What a creation answers and what becomes of the room. */
  lemma CreationAnswers(l: Lobby, self: nat, r: Registry, m: Message)
    requires m.Init?
    ensures var a := OnInit(l, self, r, m);
      a.out == {if m.roomName in r then RoomExists(m.sender)
                else if |r| >= 256 then Failed(m.sender) else RoomReply(m.sender)}
      && a.lobby.mode == (if m.roomName !in r && |r| < 256 then Running else Zombie)
  {
    hide Names;
  }

  // ---------------------------------------------------------------- what is sent

  /** A creator gets its room if the name is free and fewer than 256 rooms are registered, and a new player if
      it is admitted. */
  lemma RoomReplyIsSent(l: Lobby, self: nat, r: Registry, m: Message, to: nat)
    requires Hosted(l)
    ensures RoomReply(to) in Handle(l, self, r, m).out
       <==> (Creates(l, m) && m.roomName !in r && |r| < 256 && to == m.sender) || (Admits(l, m) && to == m.sender)
  {
    hide MakeRoomInfo, UpdateInfo, Remove, OnInit, HasName;
    if m.Init? { CreationAnswers(l, self, r, m); }
    if m.Join? { NameFound(l.players, m.playerName); }
  }

  /** Otherwise it is told which of the two it was. */
  lemma CreationIsRefused(l: Lobby, self: nat, r: Registry, m: Message, to: nat)
    requires Hosted(l)
    ensures RoomExists(to) in Handle(l, self, r, m).out <==> Creates(l, m) && m.roomName in r && to == m.sender
    ensures Failed(to) in Handle(l, self, r, m).out
       <==> Creates(l, m) && m.roomName !in r && |r| >= 256 && to == m.sender
  {
    hide MakeRoomInfo, UpdateInfo, Remove, OnInit;
    if m.Init? { CreationAnswers(l, self, r, m); }
  }

  /** A player that is not admitted is told that the room is full, or else that its name is taken. */
  lemma JoinIsRefused(l: Lobby, self: nat, r: Registry, m: Message, to: nat)
    requires Hosted(l)
    ensures RoomIsFull(to) in Handle(l, self, r, m).out
       <==> l.mode == Running && m.Join? && |l.players| >= l.limit - l.reserved && to == m.sender
    ensures NameExists(to) in Handle(l, self, r, m).out
       <==> l.mode == Running && m.Join? && |l.players| < l.limit - l.reserved && HasName(l.players, m.playerName)
            && to == m.sender
  {
    hide MakeRoomInfo, UpdateInfo, Remove, OnInit, HasName;
    if m.Init? { CreationAnswers(l, self, r, m); }
    if m.Join? { NameFound(l.players, m.playerName); }
  }

  /** Told that they are out are the player that the host ejects, and all players of a room that is closed. */
  lemma EjectionIsTold(l: Lobby, self: nat, r: Registry, m: Message, to: nat, flags: int)
    requires Hosted(l)
    ensures Ejected(to, flags) in Handle(l, self, r, m).out
       <==> (Expels(l, m) && flags == 1
             && exists i :: FirstNamed(l.players, m.playerName, i) && to == l.players[i].actor)
            || (l.mode == Running && m.Close? && flags == 17 && exists p :: p in l.players && to == p.actor)
  {
    hide Names, MakeRoomInfo, UpdateInfo, Remove, Unregister;
    if m.EjectPlayer? && FindName(l.players, m.playerName) < |l.players| {
      assert FirstNamed(l.players, m.playerName, FindName(l.players, m.playerName));
    }
  }

  /** A host whose players do not fit is refused; otherwise exactly the players are told. */
  lemma ReconfigurationIsTold(l: Lobby, self: nat, r: Registry, m: Message, to: nat)
    requires Hosted(l)
    ensures ReconfigureFailed(to) in Handle(l, self, r, m).out
       <==> HostAsks(l, m) && |l.players| > m.newLimit - m.newReserved && to == m.sender
    ensures Reconfigured(to) in Handle(l, self, r, m).out
       <==> HostAsks(l, m) && |l.players| <= m.newLimit - m.newReserved && exists p :: p in l.players && to == p.actor
  {
    hide Names, MakeRoomInfo, UpdateInfo, Remove, Unregister;
  }

  /** The others are notified of a player that is admitted, everyone of one that is ejected, and the others of one
      that leaves, unless nobody is left; the new-host flag says that the host left. */
  lemma NoticeIsSent(l: Lobby, self: nat, r: Registry, m: Message, o: Out)
    requires Hosted(l) && o.Notice?
    ensures o in Handle(l, self, r, m).out
       <==> (Admits(l, m) && o == Notice(m.playerName, 2, Some(m.sender)))
            || (Expels(l, m) && o == Notice(m.playerName, 4, None))
            || (l.mode == Running && m.Disconnected? && |l.players| > 1
                && exists i :: FirstActor(l.players, m.sender, i)
                     && o == Notice(l.players[i].name, if l.players[i] == l.players[0] then 12 else 4, Some(m.sender)))
  {
    hide Names, MakeRoomInfo, UpdateInfo, Unregister, Remove;
    if m.EjectPlayer? && FindName(l.players, m.playerName) < |l.players| {
      assert HasName(l.players, m.playerName);
    }
    if m.Disconnected? {
      var i := FindActor(l.players, m.sender);
      if i < |l.players| {
        assert FirstActor(l.players, m.sender, i);
        RemoveOne(l.players, i);
      }
    }
  }

  lemma {:induction false} RemoveOne(players: seq<Player>, i: nat)
    requires i < |players|
    ensures |Remove(players, players[i])| == |players| - 1
  {
    if players[0] != players[i] { RemoveOne(players[1..], i - 1); }
  }

  // ---------------------------------------------------------------- what the room becomes

  /** A room that is created runs, with just its creator, or is a zombie; a zombie stops when its creator leaves;
      a running room stops when it is closed and when the last one leaves. */
  lemma ModeFollows(l: Lobby, self: nat, r: Registry, m: Message)
    requires Hosted(l)
    ensures Handle(l, self, r, m).lobby.mode ==
      if Creates(l, m) then (if m.roomName !in r && |r| < 256 then Running else Zombie)
      else if l.mode == Zombie && m.Disconnected? then Stopped
      else if l.mode == Running && m.Close? then Stopped
      else if l.mode == Running && m.Disconnected? && |l.players| == 1 && l.players[0].actor == m.sender then Stopped
      else l.mode
  {
    hide MakeRoomInfo, UpdateInfo, Unregister, Remove, OnInit;
    if m.Init? { CreationAnswers(l, self, r, m); }
    if l.mode == Running && m.Disconnected? {
      var i := FindActor(l.players, m.sender);
      if i < |l.players| { RemoveOne(l.players, i); }
    }
  }

  /** A host's request with places for its players is stored and registered; any other one changes neither room
      nor registry. */
  lemma ReconfiguresExactly(l: Lobby, self: nat, r: Registry, m: Message)
    requires l.mode == Running && l.players != [] && m.Reconfigure?
    ensures var a := Handle(l, self, r, m);
      if HostAsks(l, m) && |l.players| <= m.newLimit - m.newReserved then
        && a.lobby == l.(limit := m.newLimit, reserved := m.newReserved)
        && (l.name in r ==>
              && l.name in a.registry && a.registry[l.name].handler == r[l.name].handler
              && a.registry[l.name].info.playersLimit == m.newLimit
              && a.registry[l.name].info.playersReserved == m.newReserved)
      else a.lobby == l && a.registry == r
  {
    hide Names;
  }

  /** What a room is made of. */
  datatype Content = Content(name: string, description: string, userParam: string, limit: int, reserved: int,
                             players: seq<Player>)

  function DropNamed(players: seq<Player>, name: string): seq<Player> {
    if players == [] then []
    else if players[0].name == name then players[1..]
    else [players[0]] + DropNamed(players[1..], name)
  }

  function DropActor(players: seq<Player>, actor: nat): seq<Player> {
    if players == [] then []
    else if players[0].actor == actor then players[1..]
    else [players[0]] + DropActor(players[1..], actor)
  }

  /** The content after one more message, from content and message alone. */
  function After(c: Option<Content>, m: Message): Option<Content> {
    if c.None? then
      if m.Init? then
        Some(Content(m.roomName, m.description, m.userParam, m.limit, m.reserved,
                     [Player(m.sender, m.hostName, false)]))
      else None
    else
      var v := c.value;
      var isHost := !m.Close? && v.players != [] && v.players[0].actor == m.sender;
      match m
      case Join(sender, name) =>
        if |v.players| < v.limit - v.reserved && !HasName(v.players, name)
        then Some(v.(players := v.players + [Player(sender, name, false)])) else c
      case EjectPlayer(_, name) =>
        if isHost && v.players[0].name != name then Some(v.(players := DropNamed(v.players, name))) else c
      case Reconfigure(_, limit, reserved) =>
        if isHost && |v.players| <= limit - reserved then Some(v.(limit := limit, reserved := reserved)) else c
      case Disconnected(sender) => Some(v.(players := DropActor(v.players, sender)))
      case _ => c
  }

  function Replay(c: Option<Content>, ms: seq<Message>): Option<Content>
    decreases ms
  {
    if ms == [] then c else Replay(After(c, ms[0]), ms[1..])
  }

  /** The messages that room `h` got in a run that began with so many rooms. */
  function MessagesTo(es: seq<Event>, h: nat, rooms: nat): seq<Message>
    decreases es
  {
    if es == [] then []
    else if es[0].NewRoom? then MessagesTo(es[1..], h, rooms + 1)
    else (if es[0].room == h && h < rooms then [es[0].message] else []) + MessagesTo(es[1..], h, rooms)
  }

  function ContentOf(l: Lobby): Content {
    Content(l.name, l.description, l.userParam, l.limit, l.reserved, l.players)
  }

  /** A room that has not started has no content yet, and a running one has this content. */
  predicate Agrees(l: Lobby, c: Option<Content>) {
    && (l.mode == Starting ==> c == None && l.players == [])
    && (l.mode == Running ==> c == Some(ContentOf(l)))
  }

  lemma {:induction false} RemoveIsDropNamed(players: seq<Player>, i: nat)
    requires Distinct(players) && i < |players|
    ensures Remove(players, players[i]) == DropNamed(players, players[i].name)
  {
    if i > 0 {
      assert players[0].name != players[i].name;
      RemoveIsDropNamed(players[1..], i - 1);
    }
  }

  lemma {:induction false} RemoveIsDropActor(players: seq<Player>, i: nat, actor: nat)
    requires Distinct(players) && FirstActor(players, actor, i)
    ensures Remove(players, players[i]) == DropActor(players, actor)
  {
    if i > 0 {
      assert players[0].name != players[i].name && players[0].actor != actor;
      forall j | 0 <= j < i - 1 ensures players[1..][j].actor != actor { assert players[1..][j] == players[j + 1]; }
      RemoveIsDropActor(players[1..], i - 1, actor);
    }
  }

  lemma {:induction false} DropNobody(players: seq<Player>, name: string, actor: nat)
    ensures !HasName(players, name) ==> DropNamed(players, name) == players
    ensures (forall p | p in players :: p.actor != actor) ==> DropActor(players, actor) == players
  {
    if players != [] {
      DropNobody(players[1..], name, actor);
      if !HasName(players, name) {
        assert players[0].name != name;
        forall j | 0 <= j < |players[1..]| ensures players[1..][j].name != name {
          assert players[1..][j] == players[j + 1];
        }
      }
      assert [players[0]] + players[1..] == players;
    }
  }

  lemma EjectAgrees(l: Lobby, r: Registry, m: Message)
    requires l.mode == Running && l.players != [] && Distinct(l.players) && m.EjectPlayer?
    ensures Some(ContentOf(OnEject(l, r, m.sender, m.playerName).lobby)) == After(Some(ContentOf(l)), m)
  {
    hide Remove, Distinct;
    var i := FindName(l.players, m.playerName);
    DropNobody(l.players, m.playerName, 0);
    if i < |l.players| { RemoveIsDropNamed(l.players, i); } else { assert !HasName(l.players, m.playerName); }
  }

  lemma DisconnectAgrees(l: Lobby, r: Registry, m: Message)
    requires l.mode == Running && l.players != [] && Distinct(l.players) && m.Disconnected?
    ensures Some(ContentOf(OnDisconnected(l, r, m.sender).lobby)) == After(Some(ContentOf(l)), m)
  {
    hide Remove, Distinct, MakeRoomInfo, UpdateInfo, Unregister;
    var i := FindActor(l.players, m.sender);
    DropNobody(l.players, "", m.sender);
    if i < |l.players| { RemoveIsDropActor(l.players, i, m.sender); }
  }

  lemma OthersAgree(l: Lobby, self: nat, r: Registry, m: Message)
    requires l.mode == Running && l.players != [] && !m.EjectPlayer? && !m.Disconnected?
    ensures var a := Handle(l, self, r, m).lobby;
      a.mode == Running ==> Some(ContentOf(a)) == After(Some(ContentOf(l)), m)
  {
    hide Names, MakeRoomInfo, UpdateInfo, Unregister, OnEject, OnDisconnected;
  }

  lemma StartAgrees(l: Lobby, self: nat, r: Registry, m: Message)
    requires l.mode != Running && Agrees(l, None)
    ensures Agrees(Handle(l, self, r, m).lobby, After(None, m))
  {
    hide Names, MakeRoomInfo, Register;
    if m.Init? && l.mode == Starting {
      var p := Player(m.sender, m.hostName, false);
      assert [] + [p] == [p] && l.players == [];
    }
  }

  lemma StaysSilent(l: Lobby, self: nat, r: Registry, m: Message)
    requires l.mode == Zombie || l.mode == Stopped
    ensures var a := Handle(l, self, r, m).lobby; a.mode == Zombie || a.mode == Stopped
  {
  }

  /** Every message does to a room what it does to the content. */
  lemma MessageAgrees(l: Lobby, self: nat, r: Registry, m: Message, c: Option<Content>)
    requires Hosted(l) && (l.mode == Running ==> Distinct(l.players)) && Agrees(l, c)
    ensures Agrees(Handle(l, self, r, m).lobby, After(c, m))
  {
    hide Handle, After, Distinct, ContentOf;
    if l.mode == Running {
      RunningStays(l, self, r, m);
      if m.EjectPlayer? {
        EjectAgrees(l, r, m);
      } else if m.Disconnected? {
        DisconnectAgrees(l, r, m);
      } else {
        OthersAgree(l, self, r, m);
      }
    } else if l.mode == Starting {
      StartAgrees(l, self, r, m);
    } else {
      StaysSilent(l, self, r, m);
    }
  }

  lemma RunningStays(l: Lobby, self: nat, r: Registry, m: Message)
    requires l.mode == Running && l.players != []
    ensures var a := Handle(l, self, r, m).lobby; a.mode == Running || a.mode == Stopped
    ensures m.EjectPlayer? ==> Handle(l, self, r, m) == OnEject(l, r, m.sender, m.playerName)
    ensures m.Disconnected? ==> Handle(l, self, r, m) == OnDisconnected(l, r, m.sender)
  {
    hide Names, MakeRoomInfo, UpdateInfo, Unregister, Remove;
  }

  lemma RoomFacts(s: System, h: nat)
    requires SystemInv(s) && h < |s.rooms|
    ensures Hosted(s.rooms[h].lobby) && (s.rooms[h].lobby.mode == Running ==> Distinct(s.rooms[h].lobby.players))
  {
    hide Distinct, Before, AllCached, AllOwned;
    assert RoomOk(s.rooms[h]);
  }

  lemma StepAgrees(s: System, e: Event, h: nat, c: Option<Content>)
    requires SystemInv(s) && (if h < |s.rooms| then Agrees(s.rooms[h].lobby, c) else c == None)
    ensures var s1 := SystemStep(s, e);
      var c1 := Replay(c, MessagesTo([e], h, |s.rooms|));
      if h < |s1.rooms| then Agrees(s1.rooms[h].lobby, c1) else c1 == None
  {
    hide Handle, After, SystemInv, StaleAfter, JoinedAfter, Agrees;
    assert [e][1..] == [];
    assert MessagesTo([], h, |s.rooms|) == [] && MessagesTo([], h, |s.rooms| + 1) == [];
    if e.Send? && e.room == h && h < |s.rooms| {
      RoomFacts(s, h);
      MessageAgrees(s.rooms[h].lobby, h, s.registry, e.message, c);
      assert [e.message][1..] == [] && [e.message] + [] == [e.message];
    } else if e.NewRoom? {
      NewAgrees();
    }
  }

  lemma NewAgrees()
    ensures Agrees(NewLobby, None)
  {
  }

  lemma {:induction false} ReplaySplit(c: Option<Content>, a: seq<Message>, b: seq<Message>)
    ensures Replay(c, a + b) == Replay(Replay(c, a), b)
    decreases a
  {
    hide After;
    if a == [] {
      assert a + b == b;
    } else {
      assert (a + b)[0] == a[0] && (a + b)[1..] == a[1..] + b;
      ReplaySplit(After(c, a[0]), a[1..], b);
    }
  }

  lemma MessagesSplit(e: Event, es: seq<Event>, h: nat, rooms: nat)
    ensures MessagesTo([e] + es, h, rooms)
         == MessagesTo([e], h, rooms) + MessagesTo(es, h, if e.NewRoom? then rooms + 1 else rooms)
  {
    assert ([e] + es)[1..] == es && [e][1..] == [];
  }

  lemma RoomsGrow(s: System, e: Event)
    requires SystemInv(s)
    ensures |SystemStep(s, e).rooms| == if e.NewRoom? then |s.rooms| + 1 else |s.rooms|
  {
    hide Handle, StaleAfter, JoinedAfter;
  }

  lemma {:induction false} RunAgrees(s: System, es: seq<Event>, h: nat, c: Option<Content>)
    requires SystemInv(s) && (if h < |s.rooms| then Agrees(s.rooms[h].lobby, c) else c == None)
    ensures var s1 := RunSystem(s, es);
      h < |s1.rooms| ==> Agrees(s1.rooms[h].lobby, Replay(c, MessagesTo(es, h, |s.rooms|)))
    decreases es
  {
    hide SystemInv, SystemStep, Agrees, MessagesTo, After;
    if es == [] {
      NoMessages(h, |s.rooms|);
    } else {
      SystemStepKeeps(s, es[0]);
      StepAgrees(s, es[0], h, c);
      RoomsGrow(s, es[0]);
      var first := MessagesTo([es[0]], h, |s.rooms|);
      RunAgrees(SystemStep(s, es[0]), es[1..], h, Replay(c, first));
      assert es == [es[0]] + es[1..];
      MessagesSplit(es[0], es[1..], h, |s.rooms|);
      ReplaySplit(c, first, MessagesTo(es[1..], h, |SystemStep(s, es[0]).rooms|));
    }
  }

  lemma NoMessages(h: nat, rooms: nat)
    ensures MessagesTo([], h, rooms) == []
  {
  }

  /** In every reachable state a running room is what the messages it got make of it: name, description and
      parameter of its creation; limit and reserved places of its last granted reconfiguration, or else of its
      creation; and its players, one by one. */
  lemma RoomIsReplayed(es: seq<Event>, h: nat)
    requires h < |Reached(es).rooms| && Reached(es).rooms[h].lobby.mode == Running
    ensures Replay(None, MessagesTo(es, h, 0)) == Some(ContentOf(Reached(es).rooms[h].lobby))
  {
    hide RunSystem, Replay, MessagesTo, ContentOf;
    InitialHolds();
    RunAgrees(Initial, es, h, None);
  }

  /** So no room ever has more players than the places that were asked for. */
  lemma FitsWhatWasAsked(es: seq<Event>, h: nat)
    requires forall i | 0 <= i < |es| :: Sensible(es[i])
    requires h < |Reached(es).rooms| && Reached(es).rooms[h].lobby.mode == Running
    ensures var c := Replay(None, MessagesTo(es, h, 0));
      c.Some? && c.value.players == Reached(es).rooms[h].lobby.players
      && 1 <= |c.value.players| <= c.value.limit - c.value.reserved
  {
    hide Reached, Replay, MessagesTo;
    RoomIsReplayed(es, h);
    RoomsAreSound(es, h);
  }
}
