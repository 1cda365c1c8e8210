/** The session actor as it works: fields updated in place by one handler for each message, proved
    to do what `SessionModel` says. */
module SessionActor {
  import opened Wrappers
  import opened SequenceWindow
  import M = SessionModel
  import L = SessionLaws

  class SessionActor {
    const id: int
    var stats: map<string, Option<M.Player>>
    var sharedStats: M.Shared
    var seqStats: map<string, M.SeqInfo>
    var state: M.Phase
    var stopped: bool

    /** The state of the model that the fields stand for. */
    function Abs(): M.Session
      reads this
    {
      M.Session(id, stats, sharedStats, seqStats, state, stopped)
    }

    constructor (id: int, players: seq<string>)
      ensures Abs() == M.Init(id, set n | n in players) && L.Inv(Abs()) && L.MasksZero(Abs())
    {
      this.id := id;
      stats := map n | n in players :: None;
      sharedStats := M.Shared(0, "");
      seqStats := map[];
      state := M.Waiting;
      stopped := false;
      new;
      L.InitHolds(id, set n | n in players);
    }

    /** `checkAcknowlegment` */
    method CheckAcknowledgment(ackIdx: int, player: string) returns (ok: bool)
      modifies this`seqStats
      ensures ok == (player in old(seqStats) && Check(old(seqStats)[player].window, ackIdx, M.MASK_WIDTH).0)
      ensures seqStats == if !ok then old(seqStats)
        else
          var info := old(seqStats)[player];
          old(seqStats)[player := info.(window := Check(info.window, ackIdx, M.MASK_WIDTH).1)]
    {
      if player !in seqStats { return false; }
      var info := seqStats[player];
      var remote, bits := info.window.remote, info.window.bits;
      if remote == ackIdx {
        return false;
      }
      if ackIdx > remote && ackIdx - remote < HISTORY {
        var shifted := ShiftLeft(bits, ackIdx - remote, M.MASK_WIDTH);
        seqStats := seqStats[player := M.SeqInfo(info.local, Window(ackIdx, shifted))];
        return true;
      }
      if MODULO + ackIdx > remote && MODULO + ackIdx - remote < HISTORY {
        var shifted := ShiftLeft(bits, MODULO + ackIdx - remote, M.MASK_WIDTH);
        seqStats := seqStats[player := M.SeqInfo(info.local, Window(ackIdx, shifted))];
        return true;
      }
      return false; // the fourth branch repeats the second guard and is never reached
    }

    method Ready(name: string, from: M.Address, now: int) returns (out: set<M.Out>)
      modifies this
      ensures (Abs(), out) == M.OnReady(old(Abs()), name, from, now)
    {
      out := {};
      if state == M.Waiting {
        if name in stats {
          stats := stats[name := Some(M.Player(from, 0, "", now, false))];
          seqStats := seqStats[name := M.SeqInfo(1, Window(0, 0))];
          if forall n | n in stats :: stats[n].Some? {
            state := M.Running;
            out := set n | n in stats && stats[n].Some? :: M.Start(n, stats[n].value.address);
          } else {
            out := {M.Accepted(from)};
          }
        } else {
          out := {M.Refused(from)};
        }
      }
    }

    method KeepAlive(name: string, from: M.Address, now: int) returns (out: set<M.Out>)
      modifies this
      ensures (Abs(), out) == M.OnKeepAlive(old(Abs()), name, from, now)
    {
      out := {};
      if name in stats {
        if stats[name].None? {
          return {M.Refused(from)};
        }
        stats := stats[name := Some(stats[name].value.(lastPing := now))];
      }
    }

    method Update(e: M.Event) returns (out: set<M.Out>)
      requires e.Update?
      modifies this
      ensures (Abs(), out) == M.OnUpdate(old(Abs()), e)
    {
      out := {};
      if state == M.Running && e.name in stats && stats[e.name].Some? {
        var player := stats[e.name].value;
        if player.updateTimestamp < e.timestamp {
          player := player.(updateTimestamp := e.timestamp);
          player := player.(privateData := e.data);
          player := player.(lastPing := e.now);
          stats := stats[e.name := Some(player)];
          if e.sharedData != "" && sharedStats.updateTimestamp < e.timestamp {
            sharedStats := M.Shared(e.timestamp, e.sharedData);
          }
          out := {M.State(e.from)};
        }
      }
    }

    method RequestSync(e: M.Event) returns (out: set<M.Out>)
      requires e.RequestSync?
      modifies this
      ensures (Abs(), out) == M.OnRequestSync(old(Abs()), e)
    {
      out := {};
      if state == M.Running {
        if e.seqIdx < MODULO {
          var ok := CheckAcknowledgment(e.seqIdx, e.name);
          if ok {
            var info := seqStats[e.name];
            assert old(seqStats)[e.name := info][e.name := M.SeqInfo(Next(info.local), info.window)]
                == old(seqStats)[e.name := M.SeqInfo(Next(info.local), info.window)];
            seqStats := seqStats[e.name := M.SeqInfo(Next(info.local), info.window)];
            out := {M.Sync(e.syncId, info.local), M.Ack(e.from, e.seqIdx)};
          }
        } else {
          out := {M.Sync(e.syncId, MODULO + 1)};
        }
      }
    }

    method ClockSync(from: M.Address, id: int, requestTime: int, now: int) returns (out: set<M.Out>)
      ensures (Abs(), out) == M.Handle(Abs(), M.ClockSync(from, id, requestTime, now))
    {
      out := if state == M.Running then {M.ClockReply(from, id, requestTime, now)} else {};
    }

    /** `quitImpl` */
    method QuitImpl(name: string) returns (out: set<M.Out>)
      modifies this
      ensures (Abs(), out) == M.Leave(old(Abs()), name)
    {
      out := {};
      if name in stats && stats[name].Some? {
        stats := stats[name := None];
        if forall n | n in stats :: stats[n].None? {
          stopped := true;
          out := {M.CloseSession(id)};
        }
      }
    }

    method Quit(name: string, from: M.Address) returns (out: set<M.Out>)
      modifies this
      ensures (Abs(), out) == M.OnQuit(old(Abs()), name, from)
    {
      out := {};
      if state == M.Running {
        out := QuitImpl(name);
        out := out + set n | n in stats && stats[n].Some? && stats[n].value.address != from
                       :: M.QuitNotice(name, n, stats[n].value.address);
      }
    }

    /** What leaving and closing do together, for one player or for many. */
    twostate predicate ClosedByLast(out: set<M.Out>)
      reads this
    {
      var closing := M.SomeoneAlive(old(Abs())) && !M.SomeoneAlive(Abs());
      out == (if closing then {M.CloseSession(id)} else {}) && stopped == (old(stopped) || closing)
      && sharedStats == old(sharedStats) && seqStats == old(seqStats) && state == old(state)
    }

    /** The body of the loop of `checkConnection`. */
    method CheckPlayer(name: string, now: int) returns (out: set<M.Out>)
      requires name in stats
      modifies this
      ensures stats == old(stats)[name := M.Checked(old(stats)[name], now)]
      ensures ClosedByLast(out)
    {
      out := {};
      var player := stats[name];
      if player.Some? && now > player.value.lastPing {
        assert M.Alive(Abs(), name);
        if now - player.value.lastPing > M.KEEP_ALIVE_LIMIT {
          out := QuitImpl(name);
        } else {
          stats := stats[name := Some(player.value.(weak := now - player.value.lastPing > M.WEAK_CONNECTION_TIMEOUT))];
          assert M.Alive(Abs(), name);
        }
      }
    }

    /** `checkConnection`: the players one after the other, in any order; each that was silent for
        too long leaves at once, and the one that is the last to leave closes the session. */
    method CheckConnection(now: int) returns (out: set<M.Out>)
      modifies this
      ensures stats == map n | n in old(stats) :: M.Checked(old(stats)[n], now)
      ensures ClosedByLast(out)
    {
      out := {};
      var names := stats.Keys;
      while names != {}
        invariant names <= stats.Keys == old(stats).Keys
        invariant forall n | n in stats ::
          stats[n] == if n in names then old(stats)[n] else M.Checked(old(stats)[n], now)
        invariant ClosedByLast(out)
        decreases names
      {
        ghost var someone := M.SomeoneAlive(Abs());
        var name :| name in names;
        names := names - {name};
        var o := CheckPlayer(name, now);
        assert !someone ==> !M.SomeoneAlive(Abs());
        out := out + o;
      }
    }

    /** The keep-alive timer's task. */
    method Tick(now: int) returns (out: set<M.Out>)
      modifies this
      ensures (Abs(), out) == M.OnTick(old(Abs()), now)
    {
      out := {};
      if state == M.Running {
        out := CheckConnection(now);
        var pings := set n | n in stats && stats[n].Some? :: M.Ping(n, stats[n].value.address);
        assert pings == M.PingAll(Abs());
        assert stats == M.OnTick(old(Abs()), now).0.stats;
        assert {} + pings == pings && out + {} == out;
        assert !M.SomeoneAlive(Abs()) ==> pings == {};
        out := out + pings;
      }
    }

    /** One message or one tick; a stopped actor handles nothing. The invariants of `SessionLaws` are kept. */
    method Receive(e: M.Event) returns (out: set<M.Out>)
      modifies this
      ensures (Abs(), out) == M.Step(old(Abs()), e)
      ensures L.Inv(old(Abs())) ==> L.Inv(Abs())
      ensures L.MasksZero(old(Abs())) ==> L.MasksZero(Abs())
    {
      if L.Inv(Abs()) { L.StepKeeps(Abs(), e); }
      if L.MasksZero(Abs()) { L.StepKeepsWindows(Abs(), e); }
      out := {};
      if !stopped {
        match e
        case Ready(name, from, now) => out := Ready(name, from, now);
        case KeepAlive(name, from, now) => out := KeepAlive(name, from, now);
        case Update(_, _, _, _, _, _) => out := Update(e);
        case RequestSync(_, _, _, _) => out := RequestSync(e);
        case ClockSync(from, i, requestTime, now) => out := ClockSync(from, i, requestTime, now);
        case Quit(name, from) => out := Quit(name, from);
        case Tick(now) => out := Tick(now);
      }
    }
  }
}
