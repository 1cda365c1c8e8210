/** Who gets which message of the server's session, and what the session stores of its players: for every kind
    of message exactly when it is sent, and for every entry exactly what changes it. */
module SessionAnswers {
  import opened Wrappers
  import opened SequenceWindow
  import opened SessionModel
  import opened SessionLaws

  /** The event is handled in the running phase. */
  predicate Runs(s: Session) {
    s.phase == Running && !s.stopped
  }

  // ---------------------------------------------------------------- what is sent

  /** A start message goes to each player at its address, when the last missing one gets ready. */
  lemma StartIsSent(s: Session, e: Event, n: string, a: Address)
    requires Inv(s)
    ensures Start(n, a) in Step(s, e).1
       <==> s.phase == Waiting && e.Ready? && e.name in s.stats && n in s.stats
            && (forall m :: m in s.stats && m != e.name ==> s.stats[m].Some?)
            && a == if n == e.name then e.from else s.stats[n].value.address
  {
    StartsExactly(s, e);
    if s.phase == Waiting && e.Ready? && e.name in s.stats {
      var s1 := s.(stats := s.stats[e.name := Some(Player(e.from, 0, "", e.now, false))],
                   seqs := s.seqs[e.name := SeqInfo(1, Window(0, 0))]);
      if forall m :: m in s.stats && m != e.name ==> s.stats[m].Some? {
        assert Completes(s, e) && EveryoneJoined(s1);
      }
      if EveryoneJoined(s1) {
        forall m | m in s.stats && m != e.name ensures s.stats[m].Some? { assert m in s1.stats; }
        assert Step(s, e).1 == StartAll(s1);
        if n in s.stats { assert s1.stats[n].Some?; }
      } else {
        assert Step(s, e).1 == {Accepted(e.from)};
      }
    }
  }

  /** A player that gets ready is told so, as long as another one is missing. */
  lemma AcceptedIsSent(s: Session, e: Event, to: Address)
    requires Inv(s)
    ensures Accepted(to) in Step(s, e).1
       <==> s.phase == Waiting && e.Ready? && e.name in s.stats && to == e.from
            && exists m :: m in s.stats && m != e.name && s.stats[m].None?
  {
    if s.phase == Waiting && e.Ready? && e.name in s.stats {
      var s1 := s.(stats := s.stats[e.name := Some(Player(e.from, 0, "", e.now, false))],
                   seqs := s.seqs[e.name := SeqInfo(1, Window(0, 0))]);
      if m :| m in s.stats && m != e.name && s.stats[m].None? { assert m in s1.stats; }
    }
  }

  /** Refused are strangers that get ready, and keep-alives of players that are not there. */
  lemma RefusedIsSent(s: Session, e: Event, to: Address)
    requires Inv(s)
    ensures Refused(to) in Step(s, e).1
       <==> !s.stopped
            && ((s.phase == Waiting && e.Ready? && e.name !in s.stats && to == e.from)
                || (e.KeepAlive? && e.name in s.stats && s.stats[e.name].None? && to == e.from))
  {
    hide Check;
  }

  /** The state goes to the sender of each update that is taken. */
  lemma StateIsSent(s: Session, e: Event, to: Address)
    ensures State(to) in Step(s, e).1
       <==> Runs(s) && e.Update? && e.name in s.stats && s.stats[e.name].Some?
            && s.stats[e.name].value.updateTimestamp < e.timestamp && to == e.from
  {
    hide Check;
  }

  /** A sync goes out for each simple request, without an index, and for each reliable one that the window
      accepts, under the number of the requests taken from its player. */
  lemma SyncIsSent(s: Session, e: Event, syncId: int, seqIdx: int)
    ensures Sync(syncId, seqIdx) in Step(s, e).1
       <==> Runs(s) && e.RequestSync? && syncId == e.syncId
            && if e.seqIdx >= 1024 then seqIdx == 1025
               else e.name in s.seqs && Check(s.seqs[e.name].window, e.seqIdx, 64).0 && seqIdx == s.seqs[e.name].local
  {
    hide Check;
  }

  /** An acknowledgement goes to the sender of each reliable request that the window accepts. */
  lemma AckIsSent(s: Session, e: Event, to: Address, seqIdx: int)
    ensures Ack(to, seqIdx) in Step(s, e).1
       <==> Runs(s) && e.RequestSync? && e.seqIdx < 1024 && e.name in s.seqs
            && Check(s.seqs[e.name].window, e.seqIdx, 64).0 && to == e.from && seqIdx == e.seqIdx
  {
    hide Check;
  }

  /** A clock response goes to the sender of each clock request. */
  lemma ClockReplyIsSent(s: Session, e: Event, to: Address, id: int, requestTime: int, responseTime: int)
    ensures ClockReply(to, id, requestTime, responseTime) in Step(s, e).1
       <==> Runs(s) && e.ClockSync? && to == e.from && id == e.id && requestTime == e.requestTime
            && responseTime == e.now
  {
    hide Check;
  }

  /** A quit is told to every other player that is there, unless it has the sender's address. */
  lemma QuitIsTold(s: Session, e: Event, player: string, n: string, to: Address)
    requires Inv(s)
    ensures QuitNotice(player, n, to) in Step(s, e).1
       <==> Runs(s) && e.Quit? && player == e.name && n in s.stats && n != e.name && s.stats[n].Some?
            && to == s.stats[n].value.address && to != e.from
  {
    hide Check;
    if s.phase == Running && e.Quit? && !s.stopped {
      var r := Leave(s, e.name);
      assert r.0.stats == if Alive(s, e.name) then s.stats[e.name := None] else s.stats;
      assert QuitNotice(player, n, to) !in r.1;
      if n in s.stats && n != e.name { assert n in r.0.stats && r.0.stats[n] == s.stats[n]; }
      if e.name in r.0.stats { assert r.0.stats[e.name].None?; }
    }
  }

  /** A tick of the timer sends a keep-alive to every player that is still there after it, and nothing else
      does. */
  lemma PingIsSent(s: Session, e: Event, n: string, a: Address)
    requires Inv(s)
    ensures var (t, o) := Step(s, e);
      Ping(n, a) in o <==> Runs(s) && e.Tick? && Alive(t, n) && t.stats[n].value.address == a
  {
    hide Check;
  }

  // ---------------------------------------------------------------- what is stored

  /** What an event does to a player that stays: the address stays; a newer update brings its time and data;
      a sign of life is noted; and a tick after the last one marks the player weak or well. */
  lemma PlayerFollows(s: Session, e: Event, p: string)
    requires Inv(s) && Runs(s) && Alive(s, p) && Alive(Step(s, e).0, p)
    ensures var a, b := s.stats[p].value, Step(s, e).0.stats[p].value;
      var taken := e.Update? && e.name == p && a.updateTimestamp < e.timestamp;
      && b.address == a.address
      && b.updateTimestamp == (if taken then e.timestamp else a.updateTimestamp)
      && b.privateData == (if taken then e.data else a.privateData)
      && b.lastPing == (if taken || (e.KeepAlive? && e.name == p) then e.now else a.lastPing)
      && b.weak == (if e.Tick? && e.now > a.lastPing then e.now - a.lastPing > 1000 else a.weak)
  {
    hide Check;
  }

  /** The other parts of a running session: only an update that is taken and brings newer shared data changes
      the shared data, and a ready message changes nothing at all. */
  lemma RestFollows(s: Session, e: Event)
    requires Runs(s)
    ensures var t := Step(s, e).0;
      && t.shared == (if e.Update? && e.name in s.stats && s.stats[e.name].Some?
                         && s.stats[e.name].value.updateTimestamp < e.timestamp
                         && e.sharedData != "" && s.shared.updateTimestamp < e.timestamp
                      then Shared(e.timestamp, e.sharedData) else s.shared)
      && t.phase == Running && t.seqs.Keys == s.seqs.Keys
    ensures e.Ready? ==> Step(s, e) == (s, {})
  {
    hide Check;
    var t := Step(s, e).0;
    if e.RequestSync? && e.name in s.seqs {
      var info := s.seqs[e.name];
      var w := Check(info.window, e.seqIdx, MASK_WIDTH).1;
      assert s.seqs[e.name := SeqInfo(Next(info.local), w)].Keys == s.seqs.Keys;
    }
  }

  /** From where a player joined a waiting session, and when it was last heard there. */
  datatype Joining = Joining(from: Address, heard: int)

  function JoinedBy(es: seq<Event>, p: string, before: Option<Joining>): Option<Joining>
    decreases es
  {
    if es == [] then before
    else
      var e := es[0];
      JoinedBy(es[1..], p,
               if e.Ready? && e.name == p then Some(Joining(e.from, e.now))
               else if e.KeepAlive? && e.name == p && before.Some? then Some(before.value.(heard := e.now))
               else before)
  }

  predicate Holds(s: Session, p: string, joined: Option<Joining>) {
    && p in s.stats
    && s.stats[p] == (if joined.Some? then Some(Player(joined.value.from, 0, "", joined.value.heard, false)) else None)
    && (joined.Some? ==> p in s.seqs && s.seqs[p] == SeqInfo(1, Window(0, 0)))
  }

  lemma WaitingStep(s: Session, e: Event, p: string, joined: Option<Joining>)
    requires Inv(s) && s.phase == Waiting && Holds(s, p, joined)
    ensures Holds(Step(s, e).0, p, JoinedBy([e], p, joined))
  {
    hide Check;
    JoinedOne(e, p, joined);
  }

  lemma {:induction false} JoiningKept(s: Session, es: seq<Event>, p: string, joined: Option<Joining>)
    requires Inv(s) && Holds(s, p, joined) && Run(s, es).phase == Waiting
    ensures Holds(Run(s, es), p, JoinedBy(es, p, joined))
    decreases es
  {
    if es != [] {
      var t := Step(s, es[0]).0;
      StepKeeps(s, es[0]);
      RunKeeps(t, es[1..]);
      RunKeeps(s, es);
      WaitingStep(s, es[0], p, joined);
      JoinedOne(es[0], p, joined);
      hide Step, Holds;
      JoiningKept(t, es[1..], p, JoinedBy([es[0]], p, joined));
    }
  }

  /** As long as a session waits, a player of it is there exactly when it got ready, with the address of its last
      ready message, the time of its last sign of life since, no data, and a fresh window. */
  lemma WaitsAsJoined(id: int, names: set<string>, es: seq<Event>, p: string)
    requires Run(Init(id, names), es).phase == Waiting && p in names
    ensures Holds(Run(Init(id, names), es), p, JoinedBy(es, p, None))
  {
    InitHolds(id, names);
    JoiningKept(Init(id, names), es, p, None);
  }

  /** So the start message reaches each player at the address of its last ready message. */
  lemma StartsWhereJoined(id: int, names: set<string>, es: seq<Event>, e: Event, n: string, a: Address)
    requires Start(n, a) in Step(Run(Init(id, names), es), e).1
    ensures n in names && JoinedBy(es + [e], n, None).Some? && a == JoinedBy(es + [e], n, None).value.from
  {
    hide Step;
    var s := Run(Init(id, names), es);
    InitHolds(id, names);
    RunKeeps(Init(id, names), es);
    StartIsSent(s, e, n, a);
    WaitsAsJoined(id, names, es, n);
    JoinedLast(es, e, n, None);
    JoinedOne(e, n, JoinedBy(es, n, None));
  }

  lemma JoinedOne(e: Event, p: string, before: Option<Joining>)
    ensures JoinedBy([e], p, before)
         == if e.Ready? && e.name == p then Some(Joining(e.from, e.now))
            else if e.KeepAlive? && e.name == p && before.Some? then Some(before.value.(heard := e.now))
            else before
  {
    assert [e][1..] == [];
  }

  lemma {:induction false} JoinedLast(es: seq<Event>, e: Event, p: string, before: Option<Joining>)
    ensures JoinedBy(es + [e], p, before) == JoinedBy([e], p, JoinedBy(es, p, before))
    decreases es
  {
    var all := es + [e];
    if es == [] {
      assert all == [e];
    } else {
      assert all[0] == es[0] && all[1..] == es[1..] + [e];
      JoinedOne(es[0], p, before);
      JoinedLast(es[1..], e, p, JoinedBy([es[0]], p, before));
    }
  }
}
