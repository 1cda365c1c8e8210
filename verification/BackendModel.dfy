/** The backend's table of sessions together with all session actors and the close messages on their
    way: every interleaving of creations, session events and delayed closes. */
module BackendModel {
  import opened Wrappers
  import opened SessionModel
  import L = SessionLaws

  const MAX_SESSIONS: nat := 256

  /** An entry of the session table; `handler` stands for the session actor. */
  datatype SessionInfo = SessionInfo(id: int, name: string, handler: nat)

  /** The session array and the stack of free ids, its top first. */
  datatype Table = Table(slots: seq<Option<SessionInfo>>, free: seq<int>)

  function EmptyTable(): Table {
    Table(seq(MAX_SESSIONS, _ => None), seq(MAX_SESSIONS, i => i))
  }

  /** `CreateSession`: the id of the new session, or -1 when there is no free one. */
  function Create(t: Table, name: string, handler: nat): (Table, int)
    requires TableInv(t)
  {
    if t.free == [] then (t, -1)
    else
      var id := t.free[0];
      (Table(t.slots[id := Some(SessionInfo(id, name, handler))], t.free[1..]), id)
  }

  /** `CloseSession` */
  function Close(t: Table, id: int): Table
    requires 0 <= id < |t.slots|
  {
    if t.slots[id].Some? then Table(t.slots[id := None], [id] + t.free) else t
  }

  /** The number of occupied slots. */
  function Occupied(slots: seq<Option<SessionInfo>>): nat {
    if slots == [] then 0 else (if slots[0].Some? then 1 else 0) + Occupied(slots[1..])
  }

  /** The table alone: the free stack has no duplicates, an id is on it exactly when its slot is
      empty, and occupied slots and free ids make up the whole table. */
  ghost predicate TableInv(t: Table) {
    && |t.slots| == MAX_SESSIONS
    && (forall i | 0 <= i < |t.free| :: 0 <= t.free[i] < MAX_SESSIONS)
    && (forall i, j | 0 <= i < j < |t.free| :: t.free[i] != t.free[j])
    && (forall id | 0 <= id < MAX_SESSIONS :: t.slots[id].None? <==> id in t.free)
    && (forall id | 0 <= id < MAX_SESSIONS && t.slots[id].Some? :: t.slots[id].value.id == id)
    && Occupied(t.slots) + |t.free| == MAX_SESSIONS
  }

  lemma {:induction false} OccupiedUpdate(slots: seq<Option<SessionInfo>>, id: nat, x: Option<SessionInfo>)
    requires id < |slots|
    ensures Occupied(slots[id := x]) + (if slots[id].Some? then 1 else 0)
         == Occupied(slots) + (if x.Some? then 1 else 0)
  {
    if id == 0 {
      assert slots[0 := x][1..] == slots[1..];
    } else {
      OccupiedUpdate(slots[1..], id - 1, x);
      assert slots[id := x][1..] == slots[1..][id - 1 := x];
    }
  }

  lemma {:induction false} NoneOccupied(slots: seq<Option<SessionInfo>>)
    requires forall i | 0 <= i < |slots| :: slots[i].None?
    ensures Occupied(slots) == 0
  {
    if slots != [] { NoneOccupied(slots[1..]); }
  }

  lemma {:induction false} AllOccupied(slots: seq<Option<SessionInfo>>)
    ensures Occupied(slots) <= |slots|
    ensures Occupied(slots) == |slots| <==> forall i | 0 <= i < |slots| :: slots[i].Some?
  {
    if slots != [] {
      AllOccupied(slots[1..]);
      assert forall i | 1 <= i < |slots| :: slots[i] == slots[1..][i - 1];
      assert forall i | 0 <= i < |slots[1..]| :: slots[1..][i] == slots[i + 1];
    }
  }

  lemma EmptyTableHolds()
    ensures TableInv(EmptyTable())
  {
    NoneOccupied(EmptyTable().slots);
    forall id | 0 <= id < MAX_SESSIONS ensures id in EmptyTable().free {
      assert EmptyTable().free[id] == id;
    }
  }

  /** Creating takes a free id, which its slot then shows; it fails exactly when all 256 slots are
      taken. */
  lemma CreateKeeps(t: Table, name: string, handler: nat)
    requires TableInv(t)
    ensures var (t1, id) := Create(t, name, handler);
      && TableInv(t1)
      && (id == -1 <==> forall i | 0 <= i < MAX_SESSIONS :: t.slots[i].Some?)
      && (id != -1 ==>
            && 0 <= id < MAX_SESSIONS && t.slots[id].None?
            && t1.slots == t.slots[id := Some(SessionInfo(id, name, handler))])
      && (id == -1 ==> t1 == t)
  {
    AllOccupied(t.slots);
    if t.free != [] {
      var id := t.free[0];
      assert id in t.free;
      OccupiedUpdate(t.slots, id, Some(SessionInfo(id, name, handler)));
      var (t1, _) := Create(t, name, handler);
      assert t.free == [id] + t1.free;
      assert id !in t1.free;
    }
  }

  /** Closing an occupied slot makes exactly its id free again. */
  lemma CloseKeeps(t: Table, id: int)
    requires TableInv(t) && 0 <= id < MAX_SESSIONS
    ensures TableInv(Close(t, id))
  {
    if t.slots[id].Some? {
      OccupiedUpdate(t.slots, id, None);
      assert id !in t.free;
    }
  }

  // ---------------------------------------------------------------- the whole system

  /** A close message under way. The message itself is the id only; the sender is recorded to say
      what the id refers to. */
  datatype Message = Message(id: int, sender: nat)

  /** `actors` are all sessions ever created, in order of creation. */
  datatype System = System(table: Table, actors: seq<Session>, closing: seq<Message>)

  datatype Event =
    | CreateSession(name: string, players: set<string>)
    | AtSession(actor: nat, event: SessionModel.Event)
    | DeliverClose(index: nat)

  const Initial: System := System(EmptyTable(), [], [])

  /** The actor occupies the slot of its id. */
  predicate Holds(s: System, actor: nat) {
    actor < |s.actors| && 0 <= s.actors[actor].id < |s.table.slots|
    && s.table.slots[s.actors[actor].id].Some? && s.table.slots[s.actors[actor].id].value.handler == actor
  }

  /** A close message of this actor is under way. */
  ghost predicate Leaving(s: System, actor: nat) {
    exists i :: 0 <= i < |s.closing| && s.closing[i].sender == actor
  }

  /** A session that has not stopped has its slot and has sent nothing; a stopped one has its slot
      exactly as long as its close message is under way. */
  ghost predicate ActorOk(s: System, a: nat)
    requires a < |s.actors|
  {
    L.Inv(s.actors[a]) && 0 <= s.actors[a].id < MAX_SESSIONS
    && if s.actors[a].stopped then Holds(s, a) <==> Leaving(s, a) else Holds(s, a) && !Leaving(s, a)
  }

  /** A message under way carries the id of its sender. */
  predicate MessageOk(s: System, m: Message) {
    m.sender < |s.actors| && m.id == s.actors[m.sender].id
  }

  /** The session in a slot has the slot's id. */
  predicate SlotOk(s: System, id: int)
    requires 0 <= id < |s.table.slots|
  {
    s.table.slots[id].Some? ==>
      s.table.slots[id].value.handler < |s.actors| && s.actors[s.table.slots[id].value.handler].id == id
  }

  ghost predicate SystemInv(s: System) {
    && TableInv(s.table)
    && (forall a | 0 <= a < |s.actors| :: ActorOk(s, a))
    && (forall id | 0 <= id < MAX_SESSIONS :: SlotOk(s, id))
    && (forall i | 0 <= i < |s.closing| :: MessageOk(s, s.closing[i]))
    && (forall i, j | 0 <= i < j < |s.closing| :: s.closing[i].sender != s.closing[j].sender)
  }

  /** A close message under way refers to the stopped session that still occupies its slot. */
  lemma MessageMeansSender(s: System, index: nat)
    requires SystemInv(s) && index < |s.closing|
    ensures var m := s.closing[index];
      m.sender < |s.actors| && s.actors[m.sender].stopped && Holds(s, m.sender) && 0 <= m.id < MAX_SESSIONS
      && m.id == s.actors[m.sender].id
  {
    hide L.Inv, TableInv;
    var m := s.closing[index];
    assert MessageOk(s, m) && Leaving(s, m.sender);
    assert ActorOk(s, m.sender);
  }

  /** One step: a session is created, an actor handles an event (and sends a close message when its
      last player leaves), or any one of the close messages arrives. */
  function SystemStep(s: System, e: Event): System
    requires SystemInv(s)
  {
    match e
    case CreateSession(name, players) =>
      var (t, id) := Create(s.table, name, |s.actors|);
      if id < 0 then s.(table := t) else s.(table := t, actors := s.actors + [Init(id, players)])
    case AtSession(actor, event) =>
      if actor >= |s.actors| then s
      else
        var (a, o) := Step(s.actors[actor], event);
        s.(actors := s.actors[actor := a],
           closing := if SessionModel.CloseSession(a.id) in o then s.closing + [Message(a.id, actor)] else s.closing)
    case DeliverClose(index) =>
      if index >= |s.closing| then s
      else
        MessageMeansSender(s, index);
        s.(table := Close(s.table, s.closing[index].id), closing := s.closing[..index] + s.closing[index + 1..])
  }

  lemma InitialHolds()
    ensures SystemInv(Initial)
  {
    EmptyTableHolds();
  }

  lemma InitFacts(id: int, players: set<string>)
    ensures Init(id, players).id == id && !Init(id, players).stopped && L.Inv(Init(id, players))
  {
    L.InitHolds(id, players);
  }

  lemma TableLength(t: Table)
    requires TableInv(t)
    ensures |t.slots| == MAX_SESSIONS
  {
  }

  lemma CreateStepKeeps(s: System, name: string, players: set<string>)
    requires SystemInv(s)
    ensures SystemInv(SystemStep(s, CreateSession(name, players)))
  {
    hide Create, TableInv, L.Inv, Init;
    CreateKeeps(s.table, name, |s.actors|);
    TableLength(s.table);
    var (t, id) := Create(s.table, name, |s.actors|);
    var s1 := SystemStep(s, CreateSession(name, players));
    if id >= 0 {
      InitFacts(id, players);
      forall a | 0 <= a < |s1.actors| ensures ActorOk(s1, a) {
        if a < |s.actors| {
          assert ActorOk(s, a) && (Leaving(s1, a) <==> Leaving(s, a));
        } else {
          forall i | 0 <= i < |s.closing| ensures s.closing[i].sender != a { assert MessageOk(s, s.closing[i]); }
        }
      }
      forall i | 0 <= i < MAX_SESSIONS ensures SlotOk(s1, i) { assert SlotOk(s, i); }
      forall i | 0 <= i < |s1.closing| ensures MessageOk(s1, s1.closing[i]) { assert MessageOk(s, s.closing[i]); }
    }
  }

  /** The session sends its close message exactly when it stops. */
  lemma ClosesWhenStopped(s: System, actor: nat, event: SessionModel.Event)
    requires SystemInv(s) && actor < |s.actors|
    ensures var was, r := s.actors[actor], Step(s.actors[actor], event);
      && L.Inv(was) && L.Inv(r.0) && r.0.id == was.id && (was.stopped ==> r.0.stopped)
      && (SessionModel.CloseSession(r.0.id) in r.1 <==> !was.stopped && r.0.stopped)
  {
    hide Step, TableInv, L.Inv, SlotOk, MessageOk, Holds;
    assert ActorOk(s, actor);
    L.StepKeeps(s.actors[actor], event);
    L.ClosesExactly(s.actors[actor], event);
  }

  lemma ActorKeepsActors(s: System, actor: nat, event: SessionModel.Event, a: nat)
    requires SystemInv(s) && actor < |s.actors| && a < |s.actors|
    ensures ActorOk(SystemStep(s, AtSession(actor, event)), a)
  {
    hide Step, TableInv, L.Inv, SlotOk, MessageOk, Leaving;
    var r := Step(s.actors[actor], event);
    var closes := SessionModel.CloseSession(r.0.id) in r.1;
    ClosesWhenStopped(s, actor, event);
    assert ActorOk(s, actor) && ActorOk(s, a);
    ClosingGrows(s, SystemStep(s, AtSession(actor, event)), Message(r.0.id, actor), a, closes);
  }

  lemma ActorKeepsMessages(s: System, actor: nat, event: SessionModel.Event)
    requires SystemInv(s) && actor < |s.actors|
    ensures var s1 := SystemStep(s, AtSession(actor, event));
      && (forall i | 0 <= i < |s1.closing| :: MessageOk(s1, s1.closing[i]))
      && forall i, k | 0 <= i < k < |s1.closing| :: s1.closing[i].sender != s1.closing[k].sender
  {
    hide Step, TableInv, L.Inv, SlotOk, Holds;
    ClosesWhenStopped(s, actor, event);
    var s1 := SystemStep(s, AtSession(actor, event));
    forall i | 0 <= i < |s1.closing| ensures MessageOk(s1, s1.closing[i]) {
      if i < |s.closing| { assert MessageOk(s, s.closing[i]); }
    }
    assert ActorOk(s, actor);
    if !s.actors[actor].stopped {
      forall i | 0 <= i < |s.closing| ensures s.closing[i].sender != actor { assert !Leaving(s, actor); }
    }
  }

  lemma ActorStepKeeps(s: System, actor: nat, event: SessionModel.Event)
    requires SystemInv(s)
    ensures SystemInv(SystemStep(s, AtSession(actor, event)))
  {
    if actor < |s.actors| {
      hide Step, TableInv, L.Inv, ActorOk, MessageOk;
      TableLength(s.table);
      var s1 := SystemStep(s, AtSession(actor, event));
      ClosesWhenStopped(s, actor, event);
      ActorKeepsMessages(s, actor, event);
      forall a | 0 <= a < |s1.actors| ensures ActorOk(s1, a) { ActorKeepsActors(s, actor, event, a); }
      forall i | 0 <= i < MAX_SESSIONS ensures SlotOk(s1, i) { assert SlotOk(s, i); }
    }
  }

  lemma ClosingGrows(s: System, s1: System, m: Message, a: nat, closes: bool)
    requires s1.closing == if closes then s.closing + [m] else s.closing
    ensures Leaving(s1, a) <==> Leaving(s, a) || (closes && a == m.sender)
  {
    if Leaving(s, a) {
      var i :| 0 <= i < |s.closing| && s.closing[i].sender == a;
      assert s1.closing[i].sender == a;
    }
    if closes { assert s1.closing[|s.closing|] == m; }
  }

  lemma ClosingShrinks(s: System, s1: System, index: nat, a: nat)
    requires index < |s.closing| && s1.closing == s.closing[..index] + s.closing[index + 1..]
    requires forall i, j | 0 <= i < j < |s.closing| :: s.closing[i].sender != s.closing[j].sender
    ensures Leaving(s1, a) <==> Leaving(s, a) && a != s.closing[index].sender
  {
    if Leaving(s, a) && a != s.closing[index].sender {
      var i :| 0 <= i < |s.closing| && s.closing[i].sender == a;
      assert s1.closing[if i < index then i else i - 1].sender == a;
    }
    if Leaving(s1, a) {
      var i :| 0 <= i < |s1.closing| && s1.closing[i].sender == a;
      assert s.closing[if i < index then i else i + 1].sender == a;
    }
  }

  lemma DeliverKeepsActors(s: System, index: nat, a: nat)
    requires SystemInv(s) && index < |s.closing| && a < |s.actors|
    ensures ActorOk(SystemStep(s, DeliverClose(index)), a)
  {
    hide TableInv, L.Inv, Leaving;
    MessageMeansSender(s, index);
    TableLength(s.table);
    assert ActorOk(s, a);
    ClosingShrinks(s, SystemStep(s, DeliverClose(index)), index, a);
  }

  lemma DeliverKeepsMessages(s: System, index: nat)
    requires SystemInv(s) && index < |s.closing|
    ensures var s1 := SystemStep(s, DeliverClose(index));
      && (forall i | 0 <= i < |s1.closing| :: MessageOk(s1, s1.closing[i]))
      && forall i, k | 0 <= i < k < |s1.closing| :: s1.closing[i].sender != s1.closing[k].sender
  {
    hide TableInv, L.Inv, ActorOk, SlotOk, Close;
    var s1 := SystemStep(s, DeliverClose(index));
    forall i | 0 <= i < |s1.closing| ensures MessageOk(s1, s1.closing[i]) {
      assert MessageOk(s, s.closing[if i < index then i else i + 1]);
    }
  }

  lemma DeliverStepKeeps(s: System, index: nat)
    requires SystemInv(s)
    ensures SystemInv(SystemStep(s, DeliverClose(index)))
  {
    if index < |s.closing| {
      hide TableInv, L.Inv, ActorOk, MessageOk;
      MessageMeansSender(s, index);
      TableLength(s.table);
      var s1 := SystemStep(s, DeliverClose(index));
      CloseKeeps(s.table, s.closing[index].id);
      DeliverKeepsMessages(s, index);
      forall a | 0 <= a < |s1.actors| ensures ActorOk(s1, a) { DeliverKeepsActors(s, index, a); }
      forall i | 0 <= i < MAX_SESSIONS ensures SlotOk(s1, i) { assert SlotOk(s, i); }
    }
  }

  lemma SystemStepKeeps(s: System, e: Event)
    requires SystemInv(s)
    ensures SystemInv(SystemStep(s, e))
  {
    hide SystemInv, SystemStep;
    match e
    case CreateSession(name, players) => CreateStepKeeps(s, name, players);
    case AtSession(actor, event) => ActorStepKeeps(s, actor, event);
    case DeliverClose(index) => DeliverStepKeeps(s, index);
  }

  /** The system after a run: every interleaving of creations, session events and deliveries. */
  ghost function RunSystem(s: System, es: seq<Event>): (r: System)
    requires SystemInv(s)
    ensures SystemInv(r)
    decreases es
  {
    if es == [] then s
    else
      SystemStepKeeps(s, es[0]);
      RunSystem(SystemStep(s, es[0]), es[1..])
  }

  /** The reachable states. */
  ghost function Reached(es: seq<Event>): (r: System)
    ensures SystemInv(r)
  {
    InitialHolds();
    RunSystem(Initial, es)
  }

  /** In every reachable state: occupied slots and free ids are 256 together; an id is free exactly
      when its slot is empty; and creation fails exactly when all slots are taken. */
  lemma EveryRunCounts(es: seq<Event>, name: string, id: int)
    requires 0 <= id < MAX_SESSIONS
    ensures var s := Reached(es);
      && Occupied(s.table.slots) + |s.table.free| == MAX_SESSIONS
      && (s.table.slots[id].None? <==> id in s.table.free)
      && (Create(s.table, name, |s.actors|).1 == -1 <==> forall i | 0 <= i < MAX_SESSIONS :: s.table.slots[i].Some?)
  {
    hide SystemStep, Create, Reached;
    var s := Reached(es);
    CreateKeeps(s.table, name, |s.actors|);
  }

  /** In every reachable state a close message under way refers to a session that has stopped and
      still occupies the slot; delivering it takes the slot from that session and from no other. */
  lemma EveryCloseHitsItsSender(es: seq<Event>, index: nat, a: nat)
    requires index < |Reached(es).closing|
    ensures var s := Reached(es);
      var m, s1 := s.closing[index], SystemStep(s, DeliverClose(index));
      && m.sender < |s.actors| && s.actors[m.sender].stopped
      && Holds(s, m.sender) && !Holds(s1, m.sender)
      && (a != m.sender ==> (Holds(s1, a) <==> Holds(s, a)))
  {
    hide Reached, TableInv, L.Inv;
    MessageMeansSender(Reached(es), index);
  }

  // ---------------------------------------------------------------- which session

  /** Ids are a stack: the id freed last is the next one given out. */
  lemma ClosedIsNext(t: Table, id: int, name: string, handler: nat)
    requires TableInv(t) && 0 <= id < MAX_SESSIONS && t.slots[id].Some?
    ensures TableInv(Close(t, id)) && Create(Close(t, id), name, handler).1 == id
  {
    CloseKeeps(t, id);
  }

  function CreateTimes(t: Table, k: nat): Table
    requires TableInv(t)
    decreases k
  {
    if k == 0 then t
    else
      CreateKeeps(t, "", 0);
      CreateTimes(Create(t, "", 0).0, k - 1)
  }

  lemma {:induction false} TakenFromTop(t: Table, k: nat)
    requires TableInv(t) && k <= |t.free|
    ensures CreateTimes(t, k).free == t.free[k..]
    decreases k
  {
    if k > 0 {
      hide TableInv;
      CreateKeeps(t, "", 0);
      TakenFromTop(Create(t, "", 0).0, k - 1);
    }
  }

  lemma {:induction false} TimesKeeps(t: Table, k: nat)
    requires TableInv(t)
    ensures TableInv(CreateTimes(t, k))
    decreases k
  {
    if k > 0 {
      hide TableInv;
      CreateKeeps(t, "", 0);
      TimesKeeps(Create(t, "", 0).0, k - 1);
    }
  }

  /** A new backend gives out the ids from 0 on. */
  lemma FirstIds(k: nat, name: string, handler: nat)
    requires k < 256
    ensures TableInv(EmptyTable()) && TableInv(CreateTimes(EmptyTable(), k))
    ensures Create(CreateTimes(EmptyTable(), k), name, handler).1 == k
  {
    hide TableInv;
    EmptyTableHolds();
    TimesKeeps(EmptyTable(), k);
    TakenFromTop(EmptyTable(), k);
    assert EmptyTable().free[k] == k;
  }

  /** Creating adds one session, which waits for exactly the players given and occupies the slot of its id under
      its name, and leaves the others alone; when all 256 slots are taken it changes nothing. */
  lemma CreatesExactly(s: System, name: string, players: set<string>)
    requires SystemInv(s)
    ensures var s1, a := SystemStep(s, CreateSession(name, players)), |s.actors|;
      if exists id :: 0 <= id < 256 && s.table.slots[id].None? then
        && |s1.actors| == a + 1 && s1.actors[..a] == s.actors && s1.closing == s.closing
        && s1.actors[a].phase == Waiting && s1.actors[a].stats.Keys == players
        && (forall n :: n in players ==> s1.actors[a].stats[n].None?)
        && Holds(s1, a) && s1.table.slots[s1.actors[a].id].value.name == name
      else s1 == s
  {
    hide TableInv, L.Inv, Create;
    CreateKeeps(s.table, name, |s.actors|);
    TableLength(s.table);
    var (t, id) := Create(s.table, name, |s.actors|);
    if id >= 0 { assert s.table.slots[id].None?; }
  }
}
