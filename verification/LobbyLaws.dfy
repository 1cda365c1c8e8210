/** All rooms and the registry together, over every run of messages to any rooms in any order. */
module LobbyLaws {
  import opened Wrappers
  import opened Sequences
  import opened LobbyModel

  /** A room actor with its history: whether someone was ejected since the registry was last told, and
      at what times the current players joined. */
  datatype Room = Room(lobby: Lobby, stale: bool, joined: seq<nat>)

  /** The actor number of a room is its place in the sequence. */
  datatype System = System(rooms: seq<Room>, registry: Registry, clock: nat)

  const Initial: System := System([], map[], 0)

  datatype Event = NewRoom | Send(room: nat, message: Message)

  // ---------------------------------------------------------------- one room on its own

  /** A running room has a host, its players have different names, and they are kept in the order in
      which they joined. */
  ghost predicate RoomOk(r: Room) {
    && (r.lobby.mode == Starting ==> r.lobby.players == [])
    && (r.lobby.mode == Running ==>
          && r.lobby.players != [] && Distinct(r.lobby.players)
          && |r.joined| == |r.lobby.players|
          && Increasing(r.joined))
  }

  ghost predicate Before(r: Room, clock: nat) {
    forall i | 0 <= i < |r.joined| :: r.joined[i] < clock
  }

  /** The join times after a message: a new player is the last one, a removed one takes its time
      away. */
  function JoinedAfter(r: Room, after: Lobby, m: Message, clock: nat): seq<nat> {
    if |after.players| > |r.lobby.players| then r.joined + [clock]
    else if |after.players| < |r.lobby.players| && Leaver(r.lobby, m) < |r.joined| then
      Without(r.joined, Leaver(r.lobby, m))
    else r.joined
  }

  /** The message made the room tell the registry: a join, a departure or a successful
      reconfiguration. */
  predicate Refreshes(before: Lobby, after: Lobby, m: Message) {
    && before.mode == Running
    && ((m.Join? && |after.players| > |before.players|)
        || (m.Disconnected? && |after.players| < |before.players|)
        || (m.Reconfigure? && before.players != [] && before.players[0].actor == m.sender
            && |before.players| <= m.newLimit - m.newReserved))
  }

  /** Whether someone was ejected since the registry was last told. */
  function StaleAfter(r: Room, after: Lobby, m: Message): bool {
    if r.lobby.mode == Starting || Refreshes(r.lobby, after, m) then false
    else r.stale || (m.EjectPlayer? && after.players != r.lobby.players)
  }

  function RoomStep(r: Room, self: nat, registry: Registry, m: Message, clock: nat): (Room, Result)
    requires Hosted(r.lobby)
  {
    var after := Handle(r.lobby, self, registry, m);
    (Room(after.lobby, StaleAfter(r, after.lobby, m),
          JoinedAfter(r, after.lobby, m, clock)), after)
  }

  /** Which player a message takes out of a running room. */
  function Leaver(l: Lobby, m: Message): nat {
    if m.Disconnected? then FindActor(l.players, m.sender)
    else if m.EjectPlayer? then FindName(l.players, m.playerName)
    else |l.players|
  }

  /** A message adds a new last player with a new name, takes exactly one player out, or leaves the
      players as they are; only a disconnection can take out the host, and only one that leaves
      nobody or a close message ends the room. */
  ghost predicate PlayersFollow(before: Lobby, after: Lobby, m: Message) {
    var i := Leaver(before, m);
    && (after.players == before.players
        || (m.Join? && after.players == before.players + [Player(m.sender, m.playerName, false)]
            && forall j | 0 <= j < |before.players| :: before.players[j].name != m.playerName)
        || (i < |before.players| && after.players == Without(before.players, i) && (m.EjectPlayer? ==> i > 0)))
    && (m.Disconnected? && i < |before.players| ==> after.players == Without(before.players, i))
    && after.mode == (if m.Close? || (m.Disconnected? && i < |before.players| == 1) then Stopped else Running)
  }

  lemma EjectShape(l: Lobby, registry: Registry, m: Message)
    requires l.mode == Running && l.players != [] && Distinct(l.players) && m.EjectPlayer?
    ensures PlayersFollow(l, OnEject(l, registry, m.sender, m.playerName).lobby, m)
  {
    hide Remove, Distinct;
    var i := FindName(l.players, m.playerName);
    if i < |l.players| { RemoveAt(l.players, i); }
  }

  lemma DisconnectShape(l: Lobby, registry: Registry, m: Message)
    requires l.mode == Running && l.players != [] && Distinct(l.players) && m.Disconnected?
    ensures PlayersFollow(l, OnDisconnected(l, registry, m.sender).lobby, m)
  {
    hide Remove, Distinct, MakeRoomInfo, UpdateInfo;
    var i := FindActor(l.players, m.sender);
    if i < |l.players| { RemoveAt(l.players, i); }
  }

  lemma PlayersShape(l: Lobby, self: nat, registry: Registry, m: Message)
    requires l.mode == Running && l.players != [] && Distinct(l.players)
    ensures PlayersFollow(l, Handle(l, self, registry, m).lobby, m)
  {
    if m.EjectPlayer? {
      hide OnEject, PlayersFollow;
      EjectShape(l, registry, m);
    } else if m.Disconnected? {
      hide OnDisconnected, PlayersFollow;
      DisconnectShape(l, registry, m);
    } else {
      hide Distinct, Names, MakeRoomInfo, UpdateInfo, OnEject, OnDisconnected;
    }
  }

  lemma WithoutKeepsDistinct(ps: seq<Player>, i: nat)
    requires i < |ps| && Distinct(ps)
    ensures Distinct(Without(ps, i))
  {
    var w := Without(ps, i);
    forall a, b | 0 <= a < b < |w| ensures w[a].name != w[b].name {
      assert w[a] == ps[if a < i then a else a + 1] && w[b] == ps[if b < i then b else b + 1];
    }
  }

  /** Names stay different and join times in step with the players. */
  lemma PlayersStayOk(r: Room, after: Lobby, m: Message, clock: nat)
    requires RoomOk(r) && Before(r, clock) && r.lobby.mode == Running && PlayersFollow(r.lobby, after, m)
    ensures var r1 := Room(after, StaleAfter(r, after, m), JoinedAfter(r, after, m, clock));
      RoomOk(r1) && Before(r1, clock + 1)
  {
    hide StaleAfter, FindActor, FindName;
    var i := Leaver(r.lobby, m);
    if i < |r.lobby.players| {
      hide Increasing, Distinct;
      WithoutKeepsIncreasing(r.joined, i);
      WithoutKeepsDistinct(r.lobby.players, i);
      WithoutStaysBefore(r.joined, i, clock);
    }
  }

  lemma WithoutStaysBefore(xs: seq<nat>, i: nat, clock: nat)
    requires forall k | 0 <= k < |xs| :: xs[k] < clock
    ensures forall k | 0 <= k < |Without(xs, i)| :: Without(xs, i)[k] < clock
  {
  }

  /** Every message keeps a room well formed. */
  lemma RoomStepKeeps(r: Room, self: nat, registry: Registry, m: Message, clock: nat)
    requires RoomOk(r) && Before(r, clock) && (r.lobby.mode == Starting ==> r.joined == [])
    ensures Hosted(r.lobby)
    ensures var r1 := RoomStep(r, self, registry, m, clock).0;
      RoomOk(r1) && Before(r1, clock + 1) && (r1.lobby.mode == Starting ==> r1.joined == [])
  {
    if r.lobby.mode == Running {
      hide Handle, FindActor, FindName, Increasing, Distinct;
      PlayersShape(r.lobby, self, registry, m);
      PlayersStayOk(r, Handle(r.lobby, self, registry, m).lobby, m, clock);
    }
  }

  // ---------------------------------------------------------------- rooms and registry

  /** What the registry says of a running room: its own handler; host, limit and reserved places as
      they are; a player list that the real one is left of by deletions, and equal unless someone was
      ejected since. */
  ghost predicate Cached(r: Room, self: nat, registry: Registry) {
    && r.lobby.players != [] && r.lobby.name in registry
    && registry[r.lobby.name].handler == self
    && (var info := registry[r.lobby.name].info;
        && info.name == r.lobby.name && info.host == r.lobby.players[0].name
        && info.playersLimit == r.lobby.limit && info.playersReserved == r.lobby.reserved
        && info.description == r.lobby.description && info.userParam == r.lobby.userParam
        && info.playersNumber == |info.players|
        && Subsequence(Names(r.lobby.players), info.players)
        && (!r.stale ==> info.players == Names(r.lobby.players))
        && (r.stale ==> |info.players| > |r.lobby.players|))
  }

  ghost predicate SystemInv(s: System) {
    && |s.registry| <= LOBBIES_MAX_NUMBER
    && RoomsOk(s) && AllCached(s) && AllOwned(s)
  }

  /** The registered handler is a running room of that name. */
  predicate Owned(s: System, n: string)
    requires n in s.registry
  {
    var h := s.registry[n].handler;
    h < |s.rooms| && s.rooms[h].lobby.mode == Running && s.rooms[h].lobby.name == n
  }

  function SystemStep(s: System, e: Event): System
    requires SystemInv(s)
  {
    match e
    case NewRoom => s.(rooms := s.rooms + [Room(NewLobby, false, [])])
    case Send(h, m) =>
      if h >= |s.rooms| then s
      else
        var (r, result) := RoomStep(s.rooms[h], h, s.registry, m, s.clock);
        System(s.rooms[h := r], result.registry, s.clock + 1)
  }

  /** What a message to one room leaves alone in the registry: every entry but that of the room's own
      name; for a room that is not running, and for a failed start, everything. */
  ghost predicate OnlyOwn(r: Room, r1: Room, before: Registry, after: Registry) {
    var own := r1.lobby.name;
    && |after| <= LOBBIES_MAX_NUMBER
    && (forall n | n != own :: (n in after <==> n in before))
    && (forall n | n != own && n in before :: after[n] == before[n])
    && (r.lobby.mode == Running ==>
          && r1.lobby.name == r.lobby.name
          && (r1.lobby.mode == Running || (r1.lobby.mode == Stopped && own !in after)))
    && (r.lobby.mode != Running && r1.lobby.mode != Running ==> after == before)
    && (r.lobby.mode != Running && r1.lobby.mode == Running ==> r.lobby.mode == Starting && own !in before)
  }

  /** A running room tells the registry about itself, takes itself out at the end, or is silent. */
  lemma RegistryShape(l: Lobby, self: nat, registry: Registry, m: Message)
    requires l.mode == Running && l.players != []
    ensures var a := Handle(l, self, registry, m);
      a.lobby.name == l.name
      && (a.lobby.mode == Stopped || a.lobby.mode == Running)
      && (a.lobby.mode == Stopped ==> a.registry == Unregister(registry, l.name))
      && (a.lobby.mode == Running ==>
            a.registry == registry || exists info :: a.registry == UpdateInfo(registry, l.name, info))
  {
    hide Names, Remove, MakeRoomInfo, UpdateInfo, Unregister;
  }

  lemma UpdateTouchesOwn(registry: Registry, name: string, info: RoomInfo)
    ensures var after := UpdateInfo(registry, name, info);
      |after| == |registry| && after.Keys == registry.Keys
      && forall n | n != name && n in registry :: after[n] == registry[n]
  {
    var after := UpdateInfo(registry, name, info);
    assert after.Keys == registry.Keys;
    SameKeys(registry, after);
  }

  lemma SilentIsOwn(r: Room, r1: Room, registry: Registry)
    requires r.lobby.mode == Running && r1.lobby.mode == Running && r1.lobby.name == r.lobby.name
    requires |registry| <= LOBBIES_MAX_NUMBER
    ensures OnlyOwn(r, r1, registry, registry)
  {
  }

  lemma UpdateIsOwn(r: Room, r1: Room, registry: Registry, info: RoomInfo)
    requires r.lobby.mode == Running && r1.lobby.mode == Running && r1.lobby.name == r.lobby.name
    requires |registry| <= LOBBIES_MAX_NUMBER
    ensures OnlyOwn(r, r1, registry, UpdateInfo(registry, r.lobby.name, info))
  {
    hide UpdateInfo;
    UpdateTouchesOwn(registry, r.lobby.name, info);
  }

  lemma RemovalIsOwn(r: Room, r1: Room, registry: Registry)
    requires r.lobby.mode == Running && r1.lobby.mode == Stopped && r1.lobby.name == r.lobby.name
    requires |registry| <= LOBBIES_MAX_NUMBER
    ensures OnlyOwn(r, r1, registry, Unregister(registry, r.lobby.name))
  {
    FewerKeys(registry, r.lobby.name);
  }

  lemma RunningTouchesOwn(r: Room, self: nat, registry: Registry, m: Message, clock: nat)
    requires RoomOk(r) && r.lobby.mode == Running && |registry| <= LOBBIES_MAX_NUMBER
    ensures var (r1, result) := RoomStep(r, self, registry, m, clock);
      OnlyOwn(r, r1, registry, result.registry)
  {
    hide Handle, UpdateInfo, Unregister, Distinct, OnlyOwn;
    RegistryShape(r.lobby, self, registry, m);
    var (r1, a) := RoomStep(r, self, registry, m, clock);
    if a.lobby.mode == Stopped {
      RemovalIsOwn(r, r1, registry);
    } else if a.registry == registry {
      SilentIsOwn(r, r1, registry);
    } else {
      var info :| a.registry == UpdateInfo(registry, r.lobby.name, info);
      UpdateIsOwn(r, r1, registry, info);
    }
  }

  lemma StartingTouchesOwn(r: Room, self: nat, registry: Registry, m: Message, clock: nat)
    requires RoomOk(r) && r.lobby.mode != Running && |registry| <= LOBBIES_MAX_NUMBER
    ensures var (r1, result) := RoomStep(r, self, registry, m, clock);
      OnlyOwn(r, r1, registry, result.registry)
  {
    hide Names, Distinct;
  }

  lemma SameKeys(a: Registry, b: Registry)
    requires a.Keys == b.Keys
    ensures |a| == |b|
  {
    assert |a.Keys| == |a| && |b.Keys| == |b|;
  }

  lemma FewerKeys(a: Registry, n: string)
    ensures |Unregister(a, n)| <= |a|
  {
    var b := Unregister(a, n);
    assert b.Keys == a.Keys - {n};
    if n in a { assert |b.Keys| == |a.Keys| - 1; } else { assert b == a; }
  }

  /** Telling the registry makes the entry exact. */
  lemma ToldIsCached(r: Room, self: nat, registry: Registry)
    requires !r.stale && r.lobby.players != []
    requires r.lobby.name in registry && registry[r.lobby.name].handler == self
    ensures Cached(r, self, UpdateInfo(registry, r.lobby.name, MakeRoomInfo(r.lobby)))
  {
    SubsequenceOfSelf(Names(r.lobby.players));
  }

  lemma CacheFollowsInit(r: Room, self: nat, registry: Registry, m: Message, clock: nat)
    requires RoomOk(r) && r.lobby.mode == Starting
    ensures var (r1, result) := RoomStep(r, self, registry, m, clock);
      r1.lobby.mode == Running ==> Cached(r1, self, result.registry)
  {
    hide Subsequence, Distinct, Names;
    var (r1, result) := RoomStep(r, self, registry, m, clock);
    if r1.lobby.mode == Running { SubsequenceOfSelf(Names(r1.lobby.players)); }
  }

  lemma CacheFollowsEject(r: Room, self: nat, registry: Registry, m: Message, clock: nat)
    requires RoomOk(r) && r.lobby.mode == Running && Cached(r, self, registry) && m.EjectPlayer?
    ensures var (r1, result) := RoomStep(r, self, registry, m, clock);
      Cached(r1, self, result.registry)
  {
    hide Subsequence, Distinct, Names, Remove, FindName, RoomOk;
    var l := r.lobby;
    var i := FindName(l.players, m.playerName);
    if RoomStep(r, self, registry, m, clock).0.lobby.players != l.players {
      EjectedIsWithout(r, i);
      NamesWithout(l.players, i);
      SubsequenceWithout(Names(l.players), i, registry[l.name].info.players);
    }
  }

  lemma EjectedIsWithout(r: Room, i: nat)
    requires RoomOk(r) && r.lobby.mode == Running && i < |r.lobby.players|
    ensures Remove(r.lobby.players, r.lobby.players[i]) == Without(r.lobby.players, i)
  {
    RemoveAt(r.lobby.players, i);
  }

  /** A message that tells the registry leaves it with exactly what the room is now; any other but an
      ejection changes neither. */
  lemma RefreshOrNothing(r: Room, self: nat, registry: Registry, m: Message)
    requires RoomOk(r) && r.lobby.mode == Running && !m.EjectPlayer?
    ensures var a := Handle(r.lobby, self, registry, m);
      a.lobby.mode == Running ==>
        a.lobby.name == r.lobby.name && a.lobby.players != []
        && (if Refreshes(r.lobby, a.lobby, m)
            then a.registry == UpdateInfo(registry, a.lobby.name, MakeRoomInfo(a.lobby))
            else a.lobby == r.lobby && a.registry == registry)
  {
    hide Names, Remove, UpdateInfo, MakeRoomInfo;
    PlayersShape(r.lobby, self, registry, m);
  }

  /** A running room's entry follows it. */
  lemma CacheFollows(r: Room, self: nat, registry: Registry, m: Message, clock: nat)
    requires RoomOk(r) && (r.lobby.mode == Running ==> Cached(r, self, registry))
    ensures var (r1, result) := RoomStep(r, self, registry, m, clock);
      r1.lobby.mode == Running ==> Cached(r1, self, result.registry)
  {
    var (r1, result) := RoomStep(r, self, registry, m, clock);
    if r.lobby.mode == Starting {
      CacheFollowsInit(r, self, registry, m, clock);
    } else if r.lobby.mode == Running {
      if m.EjectPlayer? {
        CacheFollowsEject(r, self, registry, m, clock);
      } else {
        hide Subsequence, Distinct, Names, Handle, UpdateInfo, MakeRoomInfo, RoomOk;
        RefreshOrNothing(r, self, registry, m);
        if r1.lobby.mode == Running {
          if Refreshes(r.lobby, r1.lobby, m) { ToldIsCached(r1, self, registry); }
        }
      }
    }
  }

  // ---------------------------------------------------------------- every run

  /** The rooms alone. */
  ghost predicate RoomsOk(s: System) {
    forall h | 0 <= h < |s.rooms| :: RoomOk(s.rooms[h]) && Before(s.rooms[h], s.clock)
      && (s.rooms[h].lobby.mode == Starting ==> s.rooms[h].joined == [])
  }

  ghost predicate AllCached(s: System) {
    forall h | 0 <= h < |s.rooms| && s.rooms[h].lobby.mode == Running :: Cached(s.rooms[h], h, s.registry)
  }

  ghost predicate AllOwned(s: System) {
    forall n | n in s.registry :: Owned(s, n)
  }

  lemma SendKeepsRooms(s: System, h: nat, m: Message)
    requires SystemInv(s) && h < |s.rooms|
    ensures RoomsOk(SystemStep(s, Send(h, m)))
  {
    hide RoomStep, RoomOk, Before, AllCached, AllOwned;
    RoomStepKeeps(s.rooms[h], h, s.registry, m, s.clock);
    forall k | 0 <= k < |s.rooms| ensures Before(s.rooms[k], s.clock + 1) { Later(s.rooms[k], s.clock); }
  }

  lemma SendTouchesOwn(s: System, h: nat, m: Message)
    requires SystemInv(s) && h < |s.rooms|
    ensures var (r1, result) := RoomStep(s.rooms[h], h, s.registry, m, s.clock);
      OnlyOwn(s.rooms[h], r1, s.registry, result.registry)
  {
    hide RoomStep, RoomOk, Before, Cached, AllOwned, OnlyOwn;
    if s.rooms[h].lobby.mode == Running {
      RunningTouchesOwn(s.rooms[h], h, s.registry, m, s.clock);
    } else {
      StartingTouchesOwn(s.rooms[h], h, s.registry, m, s.clock);
    }
  }

  lemma SendKeepsCached(s: System, h: nat, m: Message)
    requires SystemInv(s) && h < |s.rooms|
    ensures AllCached(SystemStep(s, Send(h, m)))
  {
    hide RoomStep, Before, Cached, AllOwned, OnlyOwn;
    SendTouchesOwn(s, h, m);
    CacheFollows(s.rooms[h], h, s.registry, m, s.clock);
    var (r1, result) := RoomStep(s.rooms[h], h, s.registry, m, s.clock);
    forall k | 0 <= k < |s.rooms| && k != h && s.rooms[k].lobby.mode == Running
      ensures Cached(s.rooms[k], k, result.registry)
    {
      OtherStaysCached(s, k, h, r1, result.registry);
    }
  }

  lemma RoomHosted(s: System, h: nat)
    requires SystemInv(s) && h < |s.rooms|
    ensures Hosted(s.rooms[h].lobby)
  {
    hide Distinct, Before, AllCached, AllOwned;
    assert RoomOk(s.rooms[h]);
  }

  lemma CachedHandler(r: Room, self: nat, registry: Registry)
    requires Cached(r, self, registry)
    ensures r.lobby.name in registry && registry[r.lobby.name].handler == self
  {
  }

  lemma SendKeepsOwned(s: System, h: nat, m: Message)
    requires SystemInv(s) && h < |s.rooms|
    ensures AllOwned(SystemStep(s, Send(h, m)))
  {
    hide RoomStep, RoomsOk, Cached;
    RoomHosted(s, h);
    SendTouchesOwn(s, h, m);
    SendKeepsCached(s, h, m);
    var s1 := SystemStep(s, Send(h, m));
    var (r1, result) := RoomStep(s.rooms[h], h, s.registry, m, s.clock);
    forall n | n in s1.registry ensures Owned(s1, n) {
      if r1.lobby.mode == Running && n == r1.lobby.name {
        assert s1.rooms[h] == r1;
        CachedHandler(r1, h, s1.registry);
      } else {
        assert Owned(s, n);
      }
    }
  }

  lemma SystemStepKeeps(s: System, e: Event)
    requires SystemInv(s)
    ensures SystemInv(SystemStep(s, e))
  {
    hide RoomStep, Before, Cached, OnlyOwn;
    match e
    case Send(h, m) =>
      if h < |s.rooms| {
        SendKeepsRooms(s, h, m);
        SendKeepsCached(s, h, m);
        SendKeepsOwned(s, h, m);
        SendTouchesOwn(s, h, m);
        OwnSize(s.rooms[h], RoomStep(s.rooms[h], h, s.registry, m, s.clock).0, s.registry, SystemStep(s, e).registry);
      }
    case NewRoom =>
      NewRoomOk(s.clock);
      forall n | n in s.registry ensures Owned(SystemStep(s, e), n) { assert Owned(s, n); }
  }

  lemma OwnSize(r: Room, r1: Room, before: Registry, after: Registry)
    requires OnlyOwn(r, r1, before, after)
    ensures |after| <= LOBBIES_MAX_NUMBER
  {
  }

  lemma NewRoomOk(clock: nat)
    ensures RoomOk(Room(NewLobby, false, [])) && Before(Room(NewLobby, false, []), clock)
  {
  }

  lemma Later(r: Room, clock: nat)
    requires Before(r, clock)
    ensures Before(r, clock + 1)
  {
  }

  /** Two running rooms never share a name, so the entry of the one is not that of the other. */
  lemma OtherStaysCached(s: System, k: nat, h: nat, r1: Room, after: Registry)
    requires SystemInv(s) && k < |s.rooms| && h < |s.rooms| && k != h && s.rooms[k].lobby.mode == Running
    requires OnlyOwn(s.rooms[h], r1, s.registry, after)
    ensures Cached(s.rooms[k], k, after)
  {
    hide RoomOk, Before, Subsequence;
    assert Cached(s.rooms[k], k, s.registry);
    if s.rooms[h].lobby.mode == Running { assert Cached(s.rooms[h], h, s.registry); }
  }

  /** The system after a run of messages. */
  ghost function RunSystem(s: System, es: seq<Event>): (r: System)
    requires SystemInv(s)
    ensures SystemInv(r)
    decreases es
  {
    if es == [] then s
    else
      SystemStepKeeps(s, es[0]);
      RunSystem(SystemStep(s, es[0]), es[1..])
  }

  ghost function Reached(es: seq<Event>): (r: System)
    ensures SystemInv(r)
  {
    RunSystem(Initial, es)
  }

  /** In every reachable state registry entries and running rooms correspond one to one, by name and
      handler, and there are at most 256 of them. */
  lemma OneToOne(es: seq<Event>, h: nat, k: nat, n: string)
    requires h < |Reached(es).rooms| && k < |Reached(es).rooms|
    ensures var s := Reached(es);
      && |s.registry| <= LOBBIES_MAX_NUMBER
      && (n in s.registry ==> s.registry[n].handler < |s.rooms|)
      && (n in s.registry && s.registry[n].handler == h
          <==> s.rooms[h].lobby.mode == Running && s.rooms[h].lobby.name == n)
      && (s.rooms[h].lobby.mode == s.rooms[k].lobby.mode == Running && s.rooms[h].lobby.name == s.rooms[k].lobby.name
          ==> h == k)
  {
    hide RoomOk, Before, Subsequence, Reached;
    var s := Reached(es);
    if n in s.registry { assert Owned(s, n); }
    if s.rooms[h].lobby.mode == Running { assert Cached(s.rooms[h], h, s.registry); }
    if s.rooms[k].lobby.mode == Running { assert Cached(s.rooms[k], k, s.registry); }
  }

  /** In every reachable state each running room's entry has its current host, limit and reserved
      places; its real player list is the registered one after deletions, and the same one if and only if
      nobody was ejected since the registry was last told. */
  lemma RegistryIsConservative(es: seq<Event>, h: nat)
    requires h < |Reached(es).rooms| && Reached(es).rooms[h].lobby.mode == Running
    ensures var s := Reached(es);
      var r := s.rooms[h];
      && r.lobby.players != [] && r.lobby.name in s.registry
      && (var info := s.registry[r.lobby.name].info;
          && info.host == r.lobby.players[0].name
          && info.name == r.lobby.name
          && info.playersLimit == r.lobby.limit && info.playersReserved == r.lobby.reserved
          && info.description == r.lobby.description && info.userParam == r.lobby.userParam
          && info.playersNumber == |info.players|
          && Subsequence(Names(r.lobby.players), info.players)
          && (info.players == Names(r.lobby.players) <==> !r.stale))
  {
    hide RoomOk, Before, Subsequence, Reached;
    var s := Reached(es);
    assert Cached(s.rooms[h], h, s.registry);
  }

  /** A host that creates a room, lets another player join and ejects it. */
  function Ejection(host: string, guest: string, name: string): seq<Event> {
    [NewRoom, Send(0, Init(1, host, name, "", 2, 0, "")), Send(0, Join(2, guest)), Send(0, EjectPlayer(1, guest))]
  }

  lemma RunFirst(s: System, e: Event, es: seq<Event>)
    requires SystemInv(s)
    ensures SystemInv(SystemStep(s, e)) && RunSystem(s, [e] + es) == RunSystem(SystemStep(s, e), es)
  {
    hide SystemInv, SystemStep;
    SystemStepKeeps(s, e);
    var all := [e] + es;
    assert all != [] && all[0] == e && all[1..] == es;
  }

  /** The same three messages at the room itself. */
  lemma EjectionInRoom(host: string, guest: string, name: string)
    requires host != guest
    ensures var a := Handle(NewLobby, 0, map[], Init(1, host, name, "", 2, 0, ""));
      && Hosted(a.lobby) && a.lobby.mode == Running
      && var b := Handle(a.lobby, 0, a.registry, Join(2, guest));
      && Hosted(b.lobby) && b.lobby.mode == Running
      && var c := Handle(b.lobby, 0, b.registry, EjectPlayer(1, guest));
      && c.lobby.mode == Running && c.lobby.players == [Player(1, host, false)]
      && name in c.registry && c.registry[name].info.players == [host, guest]
  {
    var one, two := Player(1, host, false), Player(2, guest, false);
    var players := [one, two];
    var a := Handle(NewLobby, 0, map[], Init(1, host, name, "", 2, 0, ""));
    assert a.lobby.players == [one];
    var b := Handle(a.lobby, 0, a.registry, Join(2, guest));
    assert b.lobby.players == players;
    assert Names(players) == [host, guest];
    assert Distinct(players) && FindName(players, guest) == 1;
    RemoveAt(players, 1);
    assert Without(players, 1) == [one];
  }

  /** After that, whatever the names, the room has one player and its entry lists two. */
  lemma EjectionIsNotRegistered(host: string, guest: string, name: string)
    requires host != guest
    ensures var s := Reached(Ejection(host, guest, name));
      && |s.rooms| == 1 && s.rooms[0].lobby.mode == Running && Names(s.rooms[0].lobby.players) == [host]
      && name in s.registry && s.registry[name].info.players == [host, guest]
  {
    hide RunSystem, SystemInv, Handle, StaleAfter, JoinedAfter;
    InitialHolds();
    EjectionInRoom(host, guest, name);
    var es := Ejection(host, guest, name);
    var s1 := SystemStep(Initial, es[0]);
    RunFirst(Initial, es[0], es[1..]);
    var s2 := SystemStep(s1, es[1]);
    RunFirst(s1, es[1], es[2..]);
    var s3 := SystemStep(s2, es[2]);
    RunFirst(s2, es[2], es[3..]);
    var s4 := SystemStep(s3, es[3]);
    RunFirst(s3, es[3], []);
    RunNothing(s4);
    assert es == [es[0]] + es[1..] && es[1..] == [es[1]] + es[2..];
    assert es[2..] == [es[2]] + es[3..] && es[3..] == [es[3]] + [];
    assert Names(s4.rooms[0].lobby.players) == [host];
  }

  lemma RunNothing(s: System)
    requires SystemInv(s)
    ensures RunSystem(s, []) == s
  {
  }

  lemma InitialHolds()
    ensures SystemInv(Initial)
  {
  }

  lemma ZombieLeavesRegistry(l: Lobby, self: nat, registry: Registry, m: Message)
    requires Hosted(l)
    requires l.mode == Zombie || Handle(l, self, registry, m).lobby.mode == Zombie
    ensures Handle(l, self, registry, m).registry == registry
  {
    hide Names, MakeRoomInfo, UpdateInfo, Unregister, Remove;
  }

  /** A room whose start failed never changes the registry again. */
  lemma ZombieIsHarmless(s: System, h: nat, m: Message)
    requires SystemInv(s) && h < |s.rooms|
    requires s.rooms[h].lobby.mode == Zombie || SystemStep(s, Send(h, m)).rooms[h].lobby.mode == Zombie
    ensures SystemStep(s, Send(h, m)).registry == s.registry
  {
    hide Handle, SystemInv, StaleAfter, JoinedAfter;
    RoomHosted(s, h);
    ZombieLeavesRegistry(s.rooms[h].lobby, h, s.registry, m);
  }

  // ---------------------------------------------------------------- capacity and host

  /** The arguments the client checks before it sends a creation request. */
  predicate Sensible(e: Event) {
    e.Send? ==> SensibleInit(e.message)
  }

  predicate WithinCapacity(r: Room) {
    r.lobby.mode == Running ==> |r.lobby.players| <= r.lobby.limit - r.lobby.reserved
  }

  /** A running room grows only below its capacity, and its capacity changes only to one that its
      players fit. */
  lemma CapacityShape(l: Lobby, self: nat, registry: Registry, m: Message)
    requires l.mode == Running && l.players != [] && Distinct(l.players)
    ensures var a := Handle(l, self, registry, m).lobby;
      && (m.Reconfigure? ==> a.players == l.players && (a == l || |a.players| <= a.limit - a.reserved))
      && (!m.Reconfigure? ==> a.limit == l.limit && a.reserved == l.reserved)
      && (|a.players| <= |l.players| || (|a.players| == |l.players| + 1 && |l.players| < l.limit - l.reserved))
  {
    hide Names, Remove, MakeRoomInfo, UpdateInfo, Distinct;
    PlayersShape(l, self, registry, m);
  }

  /** Creation arguments that the client's check lets through. */
  predicate SensibleInit(m: Message) {
    m.Init? ==> m.limit >= 1 && 0 <= m.reserved <= m.limit - 1
  }

  /** A room that is not started is empty; a running one has a host, different names and no more players
      than unreserved places. */
  ghost predicate Sound(l: Lobby) {
    && (l.mode == Starting ==> l.players == [])
    && (l.mode == Running ==> l.players != [] && Distinct(l.players) && |l.players| <= l.limit - l.reserved)
  }

  lemma AppendKeepsDistinct(ps: seq<Player>, p: Player)
    requires Distinct(ps)
    ensures (forall j | 0 <= j < |ps| :: ps[j].name != p.name) ==> Distinct(ps + [p])
  {
  }

  /** A room that follows a message and still fits its capacity stays sound. */
  lemma SoundFollows(l: Lobby, after: Lobby, m: Message)
    requires Sound(l) && l.mode == Running && PlayersFollow(l, after, m)
    requires after.mode == Running ==> |after.players| <= after.limit - after.reserved
    ensures Sound(after)
  {
    hide FindActor, FindName, Distinct;
    if m.Join? { AppendKeepsDistinct(l.players, Player(m.sender, m.playerName, false)); }
    if Leaver(l, m) < |l.players| { WithoutKeepsDistinct(l.players, Leaver(l, m)); }
  }

  lemma StartKeepsSound(l: Lobby, self: nat, registry: Registry, m: Message)
    requires Sound(l) && SensibleInit(m) && l.mode != Running
    ensures Sound(Handle(l, self, registry, m).lobby)
  {
    hide Names, MakeRoomInfo, Register;
  }

  /** Every message keeps a room sound, whatever the registry says. */
  lemma HandleKeepsSound(l: Lobby, self: nat, registry: Registry, m: Message)
    requires Sound(l) && SensibleInit(m)
    ensures Sound(Handle(l, self, registry, m).lobby)
  {
    if l.mode == Running {
      hide Handle, PlayersFollow, Distinct;
      PlayersShape(l, self, registry, m);
      CapacityShape(l, self, registry, m);
      SoundFollows(l, Handle(l, self, registry, m).lobby, m);
    } else {
      StartKeepsSound(l, self, registry, m);
    }
  }

  lemma {:induction false} RemoveLosesOne(players: seq<Player>, p: Player)
    ensures |players| - 1 <= |Remove(players, p)| <= |players|
  {
    if players != [] && players[0] != p { RemoveLosesOne(players[1..], p); }
  }

  /** A running room always keeps a host, even if its names were not different. */
  lemma HandleKeepsHosted(l: Lobby, self: nat, registry: Registry, m: Message)
    requires Hosted(l)
    ensures Hosted(Handle(l, self, registry, m).lobby)
  {
    hide Names, MakeRoomInfo, UpdateInfo, Remove;
    if m.EjectPlayer? && FindName(l.players, m.playerName) < |l.players| {
      RemoveLosesOne(l.players, l.players[FindName(l.players, m.playerName)]);
    }
  }

  lemma CapacityStep(r: Room, self: nat, registry: Registry, m: Message, clock: nat)
    requires RoomOk(r) && WithinCapacity(r) && SensibleInit(m)
    ensures WithinCapacity(RoomStep(r, self, registry, m, clock).0)
  {
    hide Handle;
    HandleKeepsSound(r.lobby, self, registry, m);
  }

  predicate AllFit(s: System) {
    forall h | 0 <= h < |s.rooms| :: WithinCapacity(s.rooms[h])
  }

  lemma CapacityStepAll(s: System, e: Event)
    requires SystemInv(s) && AllFit(s) && Sensible(e)
    ensures AllFit(SystemStep(s, e))
  {
    hide RoomStep, WithinCapacity, Cached, AllOwned, RoomOk, Before;
    NewRoomFits();
    if e.Send? && e.room < |s.rooms| {
      CapacityStep(s.rooms[e.room], e.room, s.registry, e.message, s.clock);
    }
  }

  lemma {:induction false} CapacityKept(s: System, es: seq<Event>)
    requires SystemInv(s) && AllFit(s) && forall i | 0 <= i < |es| :: Sensible(es[i])
    ensures AllFit(RunSystem(s, es))
    decreases es
  {
    if es != [] {
      hide SystemStep, SystemInv, AllFit, Sensible;
      SystemStepKeeps(s, es[0]);
      CapacityStepAll(s, es[0]);
      CapacityKept(SystemStep(s, es[0]), es[1..]);
    }
  }

  lemma RoomFits(r: Room)
    ensures WithinCapacity(r) && r.lobby.mode == Running ==> |r.lobby.players| <= r.lobby.limit - r.lobby.reserved
  {
  }

  lemma NewRoomFits()
    ensures WithinCapacity(Room(NewLobby, false, []))
  {
  }

  /** In every reachable state, if every room was created with sensible arguments, each running room
      has a host, players with different names, no more of them than unreserved places, and its host
      is the player that joined first of those still there. */
  lemma RoomsAreSound(es: seq<Event>, h: nat)
    requires forall i | 0 <= i < |es| :: Sensible(es[i])
    requires h < |Reached(es).rooms| && Reached(es).rooms[h].lobby.mode == Running
    ensures var r := Reached(es).rooms[h];
      && 1 <= |r.lobby.players| <= r.lobby.limit - r.lobby.reserved
      && Distinct(r.lobby.players)
      && |r.joined| == |r.lobby.players|
      && (forall i | 1 <= i < |r.joined| :: r.joined[0] < r.joined[i])
  {
    hide WithinCapacity;
    CapacityKept(Initial, es);
    var s := Reached(es);
    RoomFits(s.rooms[h]);
    assert RoomOk(s.rooms[h]) && WithinCapacity(s.rooms[h]);
  }

  predicate AnnouncesHost(o: Out) {
    o.Notice? && o.flags == FLAG_LEFT + FLAG_NEW_HOST
  }

  /** A notice carries the new-host flag exactly when a departure changes the host of a room that goes
      on, and no other message changes the host. */
  lemma NewHostIsAnnounced(r: Room, self: nat, registry: Registry, m: Message, clock: nat)
    requires RoomOk(r) && r.lobby.mode == Running && RoomStep(r, self, registry, m, clock).0.lobby.mode == Running
    ensures var (r1, result) := RoomStep(r, self, registry, m, clock);
      r1.lobby.players != []
      && (r1.lobby.players[0].name != r.lobby.players[0].name
          <==> exists o :: o in result.out && AnnouncesHost(o))
      && (r1.lobby.players[0] != r.lobby.players[0] ==> m.Disconnected?)
  {
    hide Names, UpdateInfo;
    var l := r.lobby;
    PlayersShape(l, self, registry, m);
    var (r1, result) := RoomStep(r, self, registry, m, clock);
    if m.Disconnected? && FindActor(l.players, m.sender) < |l.players| {
      var i := FindActor(l.players, m.sender);
      var flags := FLAG_LEFT + (if l.players[i] == l.players[0] then FLAG_NEW_HOST else 0);
      assert result.out == {Notice(l.players[i].name, flags, Some(m.sender))};
      if i == 0 {
        assert AnnouncesHost(Notice(l.players[0].name, flags, Some(m.sender)));
        assert r1.lobby.players[0] == l.players[1];
      } else {
        assert l.players[0].name != l.players[i].name;
      }
    }
  }
}
