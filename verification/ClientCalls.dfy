/** What a client's session makes of the calls of its application and of the datagrams it gets: which requests
    it issues for which calls, when it is started, and what it sends when. */
module ClientCalls {
  import opened Wrappers
  import opened Sequences
  import opened SequenceWindow
  import opened ClientModel
  import opened ClientLaws

  // ---------------------------------------------------------------- the calls

  /** What the application asked for. */
  datatype Call = Call(syncId: int, delay: int)

  /** A reliable request is granted on a started session with fewer than 32 requests waiting. */
  predicate Granted(c: Client, a: Action) {
    a.Request? && c.started && |c.queue| < 32
  }

  /** The granted calls of a run. */
  function Calls(c: Client, actions: seq<Action>): seq<Call>
    decreases actions
  {
    if actions == [] then []
    else (if Granted(c, actions[0]) then [Call(actions[0].syncId, actions[0].delay)] else [])
         + Calls(Act(c, actions[0]).0, actions[1..])
  }

  /** The n-th request carries what the n-th call asked for, and n modulo 1024. */
  predicate IssuedAs(issued: seq<Wire>, calls: seq<Call>) {
    && |issued| == |calls|
    && forall i | 0 <= i < |issued| :: issued[i] == SyncRequest(calls[i].syncId, calls[i].delay, (i + 1) % 1024)
  }

  /** A granted call sends and queues one request, with the current time; any other one has no effect. */
  lemma RequestExactly(c: Client, h: History, syncId: int, delay: int, now: int)
    requires Inv(c, h)
    ensures var (c1, sent) := Act(c, Request(syncId, delay, now));
      var idx := (|h.issued| + 1) % 1024;
      var w := SyncRequest(syncId, delay, idx);
      if c.started && |c.queue| < 32 then
        && sent == [w]
        && c1.queue == c.queue + [MsgInfo(idx, now + c.timeShift, w)]
        && c1 == c.(queue := c1.queue, local := c1.local)
      else (c1, sent) == (c, [])
  {
  }

  lemma NoteIssues(c: Client, h: History, a: Action)
    requires Inv(c, h)
    ensures Note(c, h, a).issued
         == if Granted(c, a) then h.issued + [SyncRequest(a.syncId, a.delay, (|h.issued| + 1) % 1024)] else h.issued
  {
    hide Acknowledges, Place, QueueOk;
  }

  lemma {:induction false} NotesIssue(c: Client, h: History, actions: seq<Action>, before: seq<Call>)
    requires Inv(c, h) && IssuedAs(h.issued, before)
    ensures IssuedAs(Notes(c, h, actions).issued, before + Calls(c, actions))
    decreases actions
  {
    hide Inv, Act, Note;
    if actions == [] {
      assert before + [] == before;
    } else {
      var a := actions[0];
      var call := if Granted(c, a) then [Call(a.syncId, a.delay)] else [];
      StepKeeps(c, h, a);
      NoteIssues(c, h, a);
      NotesIssue(Act(c, a).0, Note(c, h, a), actions[1..], before + call);
      assert (before + call) + Calls(Act(c, a).0, actions[1..]) == before + (call + Calls(Act(c, a).0, actions[1..]));
    }
  }

  /** Over every run the requests issued are those of the granted calls, in the order of the calls. */
  lemma IssuedAreCalls(name: string, actions: seq<Action>)
    ensures IssuedAs(Notes(ClientModel.Fresh(name), ClientLaws.Start(), actions).issued,
                     Calls(ClientModel.Fresh(name), actions))
  {
    hide Notes, Calls;
    NotesIssue(ClientModel.Fresh(name), ClientLaws.Start(), actions, []);
    assert [] + Calls(ClientModel.Fresh(name), actions) == Calls(ClientModel.Fresh(name), actions);
  }

  // ---------------------------------------------------------------- started or not

  /** The actions that stop a started session: leaving, the player's own quit, and the end of `receive` more
      than ten seconds after the server was last heard. */
  predicate Stops(name: string, a: Action, heard: int) {
    a.Leave? || (a.Receive? && a.datagram == Quit(name)) || (a.End? && a.now - heard > 10000)
  }

  lemma StartedStep(c: Client, h: History, a: Action)
    requires Inv(c, h)
    ensures Act(c, a).0.started <==> a.Begin? || (c.started && !Stops(c.name, a, h.heard))
    ensures Act(c, a).0.name == c.name
  {
    hide QueueOk, RemoveAcknowledged, Check, Resent, Resends;
  }

  lemma {:induction false} RunLast(c: Client, actions: seq<Action>, a: Action)
    ensures Run(c, actions + [a]) == Act(Run(c, actions), a).0
    decreases actions
  {
    hide Act;
    var all := actions + [a];
    if actions == [] {
      assert all[0] == a && all[1..] == [];
    } else {
      assert all[0] == actions[0] && all[1..] == actions[1..] + [a];
      RunLast(Act(c, actions[0]).0, actions[1..], a);
    }
  }

  lemma {:induction false} RunKeepsName(c: Client, actions: seq<Action>)
    ensures Run(c, actions).name == c.name
    decreases actions
  {
    if actions != [] {
      NameStays(c, actions[0]);
      hide Act;
      RunKeepsName(Act(c, actions[0]).0, actions[1..]);
    }
  }

  lemma NameStays(c: Client, a: Action)
    ensures Act(c, a).0.name == c.name
  {
    hide RemoveAcknowledged, Check, Resent, Resends;
  }

  /** The session was begun and has not been stopped since. */
  predicate BegunAndNotStopped(name: string, actions: seq<Action>) {
    exists b :: 0 <= b < |actions| && actions[b].Begin? && NotStoppedAfter(name, actions, b)
  }

  predicate NotStoppedAfter(name: string, actions: seq<Action>, b: nat) {
    forall k | b < k < |actions| :: !Stops(name, actions[k], LastHeard(actions[..k], 0))
  }

  lemma BegunLast(name: string, actions: seq<Action>, a: Action)
    ensures BegunAndNotStopped(name, actions + [a])
       <==> a.Begin? || (BegunAndNotStopped(name, actions) && !Stops(name, a, LastHeard(actions, 0)))
  {
    hide Stops, LastHeard;
    var all := actions + [a];
    assert all[..|actions|] == actions;
    forall k | 0 <= k < |actions| ensures all[k] == actions[k] && all[..k] == actions[..k] {}
    if a.Begin? { assert NotStoppedAfter(name, all, |actions|); }
    if BegunAndNotStopped(name, actions) && !Stops(name, a, LastHeard(actions, 0)) {
      var b :| 0 <= b < |actions| && actions[b].Begin? && NotStoppedAfter(name, actions, b);
      assert NotStoppedAfter(name, all, b);
    }
    if BegunAndNotStopped(name, all) && !a.Begin? {
      var b :| 0 <= b < |all| && all[b].Begin? && NotStoppedAfter(name, all, b);
      assert b < |actions| && NotStoppedAfter(name, actions, b);
    }
  }

  /** After every run a session is started if and only if it was begun and neither left, nor quit by the server
      under its own name, nor found silent for more than ten seconds since. */
  lemma {:induction false} StartedExactly(name: string, actions: seq<Action>)
    ensures Run(ClientModel.Fresh(name), actions).started <==> BegunAndNotStopped(name, actions)
    decreases |actions|
  {
    if actions != [] {
      hide Run, Act, Inv, BegunAndNotStopped, Stops, LastHeard;
      var before, a := actions[..|actions| - 1], actions[|actions| - 1];
      assert actions == before + [a];
      var c, h := Run(ClientModel.Fresh(name), before), Notes(ClientModel.Fresh(name), ClientLaws.Start(), before);
      StartedExactly(name, before);
      EveryRun(name, before);
      NotesHeard(ClientModel.Fresh(name), ClientLaws.Start(), before);
      RunKeepsName(ClientModel.Fresh(name), before);
      RunLast(ClientModel.Fresh(name), before, a);
      StartedStep(c, h, a);
      BegunLast(name, before, a);
    }
  }

  // ---------------------------------------------------------------- clock requests

  /** A response to the last clock request, with both times. */
  predicate Counts(c: Client, a: Action) {
    a.Receive? && a.datagram.ClockSync? && a.datagram.id == c.clockSyncId && a.datagram.times.Some?
  }

  /** The last counting response of a run: when it arrived and how far it moved the clock. */
  datatype Set = Set(at: int, moved: int)

  function LastSet(c: Client, actions: seq<Action>, before: Option<Set>): Option<Set>
    decreases actions
  {
    if actions == [] then before
    else
      var c1 := Act(c, actions[0]).0;
      LastSet(c1, actions[1..],
              if Counts(c, actions[0]) then Some(Set(actions[0].now, c1.timeShift - c.timeShift)) else before)
  }

  /** The time kept of the last counting response is the estimate that was valid just before it. */
  predicate SetOk(c: Client, set': Option<Set>) {
    c.lastSyncTime == if set'.Some? then set'.value.at + c.timeShift - set'.value.moved else 0
  }

  lemma SetStep(c: Client, a: Action, set': Option<Set>)
    requires SetOk(c, set')
    ensures var c1 := Act(c, a).0;
      SetOk(c1, if Counts(c, a) then Some(Set(a.now, c1.timeShift - c.timeShift)) else set')
  {
    hide RemoveAcknowledged, Check, Resent, Resends, HalfTrip;
  }

  lemma {:induction false} SetKept(c: Client, actions: seq<Action>, set': Option<Set>)
    requires SetOk(c, set')
    ensures SetOk(Run(c, actions), LastSet(c, actions, set'))
    decreases actions
  {
    if actions != [] {
      var c1 := Act(c, actions[0]).0;
      SetStep(c, actions[0], set');
      hide Act, SetOk;
      var last := if Counts(c, actions[0]) then Some(Set(actions[0].now, c1.timeShift - c.timeShift)) else set';
      SetKept(c1, actions[1..], last);
    }
  }

  lemma NoClockAmongResends(queue: seq<MsgInfo>, h: History, current: int)
    requires QueueOk(queue, h) && IssuedInOrder(h.issued)
    ensures forall w | w in Resends(queue, current) :: w.SyncRequest?
  {
    forall w | w in Resends(queue, current) ensures w.SyncRequest? {
      var i := ResendComesFrom(queue, current, w);
      assert Holds(queue[i], h.pending[i], h.issued);
      assert Carries(h.issued[h.pending[i] - 1], h.pending[i]);
    }
  }

  /** A clock request goes out exactly at a start and at the end of `receive` on a session that stays started
      and whose estimate is more than 30 seconds past the last counting response. */
  lemma AsksStep(c: Client, h: History, a: Action)
    requires Inv(c, h)
    ensures (exists id, time :: ClockRequest(id, time) in Act(c, a).1)
       <==> a.Begin? || (a.End? && Act(c, a).0.started && a.now + c.timeShift - c.lastSyncTime > 30000)
    ensures forall id, time :: ClockRequest(id, time) in Act(c, a).1 ==>
      id == Act(c, a).0.clockSyncId && time == a.now + c.timeShift
  {
    hide RemoveAcknowledged, Check, Resent, Resends, QueueOk;
    NoClockAmongResends(c.queue, h, if a.End? then Synchronized(c, a.now) else 0);
    var (c1, sent) := Act(c, a);
    if a.Begin? { assert sent[0] in sent && sent[0] == ClockRequest(c1.clockSyncId, a.now + c.timeShift); }
    if a.End? && c1.started && a.now + c.timeShift - c.lastSyncTime > 30000 {
      assert sent[|sent| - 1] in sent && sent[|sent| - 1] == ClockRequest(c1.clockSyncId, a.now + c.timeShift);
    }
  }

  /** After every run, the end of `receive` on a session that stays started asks for the clock if and only if
      the local time since the last counting response, plus how far that response moved the clock, is more
      than 30 seconds. After a response that moved the clock far ahead it asks again at once. */
  lemma AsksExactly(name: string, actions: seq<Action>, now: int)
    ensures var c, last := Run(ClientModel.Fresh(name), actions), LastSet(ClientModel.Fresh(name), actions, None);
      (exists id, time :: ClockRequest(id, time) in Act(c, End(now)).1)
      <==> Act(c, End(now)).0.started
           && (if last.Some? then now - last.value.at + last.value.moved else now + c.timeShift) > 30000
  {
    hide Act, Run;
    var c := Run(ClientModel.Fresh(name), actions);
    EveryRun(name, actions);
    SetKept(ClientModel.Fresh(name), actions, None);
    AsksStep(c, Notes(ClientModel.Fresh(name), ClientLaws.Start(), actions), End(now));
  }

  /** The player's quit goes out exactly when a started session is left. */
  lemma SaysGoodbye(c: Client, h: History, a: Action, player: string)
    requires Inv(c, h)
    ensures QuitNotice(player) in Act(c, a).1 <==> a.Leave? && c.started && player == c.name
  {
    hide RemoveAcknowledged, Check, Resent, Resends, QueueOk;
    NoClockAmongResends(c.queue, h, if a.End? then Synchronized(c, a.now) else 0);
  }

  // ---------------------------------------------------------------- the count of receive

  function Counted(arrivals: seq<Arrival>): nat {
    if arrivals == [] then 0 else (if arrivals[0].datagram.KeepAlive? then 0 else 1) + Counted(arrivals[1..])
  }

  /** A call of `receive` returns the number of datagrams it read that are no keep-alives, and reads on while
      that number is below the limit. */
  lemma {:induction false} CountsExactly(c: Client, inbox: seq<Arrival>, limit: nat, counter: nat)
    ensures var l := ReceiveLoop(c, inbox, limit, counter);
      && |l.unread| <= |inbox|
      && l.counter == counter + Counted(inbox[..|inbox| - |l.unread|])
      && (counter <= limit ==> l.counter <= limit)
    decreases inbox
  {
    hide OnDatagram, Synced;
    var l := ReceiveLoop(c, inbox, limit, counter);
    if c.started && counter < limit && inbox != [] {
      if inbox[0].datagram.Unknown? {
        assert inbox[..1] == [inbox[0]] && Counted([inbox[0]]) == 1 + Counted([inbox[0]][1..]);
      } else {
        var next := if inbox[0].datagram.KeepAlive? then counter else counter + 1;
        CountsExactly(OnDatagram(c, inbox[0].datagram, inbox[0].now), inbox[1..], limit, next);
        var k := |inbox| - |l.unread|;
        assert inbox[..k][1..] == inbox[1..][..k - 1];
      }
    }
  }
}
