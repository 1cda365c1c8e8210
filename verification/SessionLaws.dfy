/** What holds of a session over every run of its actor. */
module SessionLaws {
  import opened Wrappers
  import opened Sequences
  import opened SequenceWindow
  import opened SessionModel

  // ---------------------------------------------------------------- life cycle

  /** The state invariant: someone is missing as long as the session waits, and a running session has
      stopped exactly when nobody is left. */
  ghost predicate Inv(s: Session) {
    && (s.phase == Waiting ==>
          && !s.stopped && s.shared == Shared(0, "")
          && (s.stats == map[] || exists n :: n in s.stats && s.stats[n].None?)
          && forall n :: Alive(s, n) ==>
               s.stats[n].value.updateTimestamp == 0 && n in s.seqs && s.seqs[n] == SeqInfo(1, Window(0, 0)))
    && (s.phase == Running ==>
          && s.stats != map[] && s.seqs.Keys >= s.stats.Keys
          && (s.stopped <==> !SomeoneAlive(s)))
  }

  lemma InitHolds(id: int, names: set<string>)
    ensures Inv(Init(id, names)) && Init(id, names).stats.Keys == names
  {
    var s := Init(id, names);
    if names != {} {
      var n :| n in names;
      assert n in s.stats && s.stats[n].None?;
    } else {
      assert s.stats == map[];
    }
  }

  /** One step keeps the invariant, the names and the id; it never goes back to waiting. */
  lemma StepKeeps(s: Session, e: Event)
    requires Inv(s)
    ensures var t := Step(s, e).0;
      Inv(t) && t.stats.Keys == s.stats.Keys && t.id == s.id
      && (s.phase == Running ==> t.phase == Running) && (s.stopped ==> t == s)
  {
    hide Check, OnReady;
    var t := Step(s, e).0;
    if !s.stopped {
      match e
      case Ready(name, from, now) => ReadyKeeps(s, name, from, now);
      case KeepAlive(name, from, now) =>
        if name in s.stats && s.stats[name].Some? {
          OneChanged(s, t, name);
        }
      case Update(name, _, _, _, _, _) =>
        if s.phase == Running && Alive(s, name) { OneChanged(s, t, name); }
      case Quit(name, from) =>
        if s.phase == Running { assert t == Leave(s, name).0; }
      case Tick(now) =>
      case RequestSync(_, _, _, _) =>
      case ClockSync(_, _, _, _) =>
    }
  }

  lemma ReadyKeeps(s: Session, name: string, from: Address, now: int)
    requires Inv(s)
    ensures var t := OnReady(s, name, from, now).0;
      Inv(t) && t.stats.Keys == s.stats.Keys && t.id == s.id && (s.phase == Running ==> t.phase == Running)
  {
    var t := OnReady(s, name, from, now).0;
    if s.phase == Waiting && name in s.stats {
      var s1 := s.(stats := s.stats[name := Some(Player(from, 0, "", now, false))],
                   seqs := s.seqs[name := SeqInfo(1, Window(0, 0))]);
      assert Alive(s1, name);
      assert t.stats == s1.stats;
      if t.phase == Running {
        assert SomeoneAlive(t);
        forall n | n in t.stats ensures n in t.seqs { assert Alive(s1, n); }
      }
    }
  }

  /** Changing an entry without connecting or disconnecting anyone. */
  lemma OneChanged(s: Session, t: Session, name: string)
    requires name in s.stats && s.stats[name].Some? && t.stats.Keys == s.stats.Keys && t.stats[name].Some?
    requires forall n | n in s.stats && n != name :: t.stats[n] == s.stats[n]
    ensures SomeoneAlive(s) && SomeoneAlive(t)
    ensures (exists n :: n in s.stats && s.stats[n].None?) ==> exists n :: n in t.stats && t.stats[n].None?
  {
    if n :| n in s.stats && s.stats[n].None? { assert n in t.stats && t.stats[n].None?; }
  }

  lemma {:induction false} RunKeeps(s: Session, es: seq<Event>)
    requires Inv(s)
    ensures var t := Run(s, es);
      Inv(t) && t.stats.Keys == s.stats.Keys && t.id == s.id
      && (s.phase == Running ==> t.phase == Running) && (s.stopped ==> t == s)
    decreases es
  {
    if es != [] {
      StepKeeps(s, es[0]);
      RunKeeps(Step(s, es[0]).0, es[1..]);
    }
  }

  // ---------------------------------------------------------------- entering the running phase

  ghost predicate HasStart(o: set<Out>) {
    exists n, a :: Start(n, a) in o
  }

  /** The ready message of the last missing player. */
  predicate Completes(s: Session, e: Event) {
    e.Ready? && e.name in s.stats && forall n :: n in s.stats && n != e.name ==> s.stats[n].Some?
  }

  /** A waiting session starts running exactly at the ready message that completes the player set,
      and exactly then sends start messages: one to each player, at the address it joined from. */
  lemma StartsExactly(s: Session, e: Event)
    requires Inv(s)
    ensures var (t, o) := Step(s, e);
      && (s.phase == Waiting ==> (t.phase == Running <==> Completes(s, e)))
      && (HasStart(o) <==> s.phase == Waiting && t.phase == Running)
      && (HasStart(o) ==>
            && (forall n :: n in t.stats ==> t.stats[n].Some?)
            && o == StartAll(t))
  {
    var (t, o) := Step(s, e);
    if s.phase == Waiting && e.Ready? && e.name in s.stats {
      var s1 := s.(stats := s.stats[e.name := Some(Player(e.from, 0, "", e.now, false))],
                   seqs := s.seqs[e.name := SeqInfo(1, Window(0, 0))]);
      assert EveryoneJoined(s1) <==> Completes(s, e) by {
        if EveryoneJoined(s1) {
          forall n | n in s.stats && n != e.name ensures s.stats[n].Some? { assert n in s1.stats; }
        }
      }
      if t.phase == Running {
        assert Start(e.name, e.from) in o by { assert e.name in t.stats && t.stats[e.name].Some?; }
      }
    }
  }

  /** The number of events at which start messages go out. */
  ghost function Starts(os: seq<set<Out>>): nat {
    if os == [] then 0 else (if HasStart(os[0]) then 1 else 0) + Starts(os[1..])
  }

  /** Over every run start messages go out at most once: at one event if the session came to run,
      at none otherwise. */
  lemma {:induction false} StartsOnce(s: Session, es: seq<Event>)
    requires Inv(s)
    ensures Starts(Outs(s, es)) == if s.phase == Waiting && Run(s, es).phase == Running then 1 else 0
    decreases es
  {
    if es != [] {
      var t := Step(s, es[0]).0;
      StepKeeps(s, es[0]);
      StartsExactly(s, es[0]);
      StartsOnce(t, es[1..]);
      RunKeeps(t, es[1..]);
      assert Outs(s, es)[1..] == Outs(t, es[1..]);
    }
  }

  // ---------------------------------------------------------------- leaving

  ghost predicate HasClose(o: set<Out>) {
    exists id :: CloseSession(id) in o
  }

  /** A close message goes out exactly when the last player leaves, and carries the session's id. */
  lemma ClosesExactly(s: Session, e: Event)
    requires Inv(s)
    ensures var (t, o) := Step(s, e);
      && (HasClose(o) <==> !s.stopped && t.stopped)
      && (HasClose(o) ==> CloseSession(s.id) in o && (forall id :: CloseSession(id) in o ==> id == s.id))
      && (HasClose(o) <==> s.phase == Running && SomeoneAlive(s) && !SomeoneAlive(t))
  {
    StepKeeps(s, e);
    var (t, o) := Step(s, e);
    if !s.stopped && t.stopped {
      assert CloseSession(s.id) in o;
    }
  }

  ghost function Closes(os: seq<set<Out>>): nat {
    if os == [] then 0 else (if HasClose(os[0]) then 1 else 0) + Closes(os[1..])
  }

  /** Over every run the close message is sent at most once, and it is sent if and only if the session
      stops. */
  lemma {:induction false} ClosesOnce(s: Session, es: seq<Event>)
    requires Inv(s)
    ensures Closes(Outs(s, es)) == if !s.stopped && Run(s, es).stopped then 1 else 0
    decreases es
  {
    if es != [] {
      var t := Step(s, es[0]).0;
      StepKeeps(s, es[0]);
      ClosesExactly(s, es[0]);
      ClosesOnce(t, es[1..]);
      RunKeeps(t, es[1..]);
      assert Outs(s, es)[1..] == Outs(t, es[1..]);
    }
  }

  /** Once running, a player that is not there never comes back. */
  lemma {:induction false} GoneForGood(s: Session, es: seq<Event>, p: string)
    requires s.phase == Running && !Alive(s, p)
    ensures !Alive(Run(s, es), p)
    decreases es
  {
    if es != [] {
      GoneForGood(Step(s, es[0]).0, es[1..], p);
    }
  }

  /** While the session runs, a player is taken out by its quit message or by a tick of the timer more
      than ten seconds after it was last heard, and by nothing else. */
  lemma DepartsExactly(s: Session, e: Event, p: string)
    requires s.phase == Running && !s.stopped && Alive(s, p)
    ensures !Alive(Step(s, e).0, p)
       <==> (e.Quit? && e.name == p) || (e.Tick? && e.now - s.stats[p].value.lastPing > 10000)
  {
    hide Check;
  }

  /** The session hears the player: a keep-alive, or an update that it takes. */
  predicate Hears(s: Session, e: Event, p: string) {
    !s.stopped && Alive(s, p)
    && ((e.KeepAlive? && e.name == p)
        || (e.Update? && e.name == p && s.phase == Running && s.stats[p].value.updateTimestamp < e.timestamp))
  }

  /** When the player was last heard in the run. */
  function LastHeard(s: Session, es: seq<Event>, p: string, before: int): int
    decreases es
  {
    if es == [] then before
    else LastHeard(Step(s, es[0]).0, es[1..], p, if Hears(s, es[0], p) then es[0].now else before)
  }

  lemma {:induction false} LastPingIsHeard(s: Session, es: seq<Event>, p: string)
    requires s.phase == Running && Alive(Run(s, es), p)
    ensures Alive(s, p) && Run(s, es).phase == Running
    ensures Run(s, es).stats[p].value.lastPing == LastHeard(s, es, p, s.stats[p].value.lastPing)
    decreases es
  {
    if es != [] {
      hide Check;
      var t := Step(s, es[0]).0;
      LastPingIsHeard(t, es[1..], p);
      assert Alive(s, p);
      assert t.stats[p].value.lastPing == if Hears(s, es[0], p) then es[0].now else s.stats[p].value.lastPing;
    }
  }

  /** After every run, a tick of the timer takes out exactly the players not heard for more than ten
      seconds. */
  lemma SilentAreDropped(s: Session, es: seq<Event>, p: string, now: int)
    requires s.phase == Running && !Run(s, es).stopped && Alive(Run(s, es), p)
    ensures Alive(s, p)
    ensures Alive(Step(Run(s, es), Tick(now)).0, p)
       <==> now - LastHeard(s, es, p, s.stats[p].value.lastPing) <= 10000
  {
    LastPingIsHeard(s, es, p);
    DepartsExactly(Run(s, es), Tick(now), p);
  }

  // ---------------------------------------------------------------- last writer wins

  predicate IsUpdate(e: Event, p: string, timestamp: int, data: string) {
    e.Update? && e.name == p && e.timestamp == timestamp && e.data == data
  }

  /** An update of the player with this timestamp and data is among the events. */
  ghost predicate Delivered(es: seq<Event>, p: string, timestamp: int, data: string) {
    exists i :: 0 <= i < |es| && IsUpdate(es[i], p, timestamp, data)
  }

  lemma DeliveredStep(es: seq<Event>, p: string, timestamp: int, data: string)
    requires es != []
    ensures Delivered(es, p, timestamp, data)
       <==> IsUpdate(es[0], p, timestamp, data) || Delivered(es[1..], p, timestamp, data)
  {
    if Delivered(es[1..], p, timestamp, data) {
      var i :| 0 <= i < |es[1..]| && IsUpdate(es[1..][i], p, timestamp, data);
      assert es[i + 1] == es[1..][i];
    }
    if Delivered(es, p, timestamp, data) {
      var i :| 0 <= i < |es| && IsUpdate(es[i], p, timestamp, data);
      if i > 0 { assert es[1..][i - 1] == es[i]; }
    }
  }

  lemma AliveBefore(s: Session, e: Event, p: string)
    requires s.phase == Running && Alive(Step(s, e).0, p)
    ensures Alive(s, p)
    ensures var a, b := s.stats[p].value, Step(s, e).0.stats[p].value;
      if !s.stopped && e.Update? && e.name == p && e.timestamp > a.updateTimestamp
      then b.updateTimestamp == e.timestamp && b.privateData == e.data
      else b.updateTimestamp == a.updateTimestamp && b.privateData == a.privateData
  {
  }

  /** While a player is there, its data is that of its update with the greatest timestamp, whatever
      the order, repetition and mixture of the events. */
  lemma {:induction false} LatestWins(s: Session, es: seq<Event>, p: string)
    requires Inv(s) && s.phase == Running && Alive(Run(s, es), p)
    ensures Alive(s, p)
    ensures var a, b := s.stats[p].value, Run(s, es).stats[p].value;
      && b.updateTimestamp >= a.updateTimestamp
      && (forall ts, d :: Delivered(es, p, ts, d) ==> ts <= b.updateTimestamp)
      && (if b.updateTimestamp == a.updateTimestamp then b.privateData == a.privateData
          else Delivered(es, p, b.updateTimestamp, b.privateData))
    decreases es
  {
    if es != [] {
      var t := Step(s, es[0]).0;
      StepKeeps(s, es[0]);
      RunKeeps(t, es[1..]);
      LatestWins(t, es[1..], p);
      AliveBefore(s, es[0], p);
      assert !s.stopped;
      var a, b := s.stats[p].value, Run(s, es).stats[p].value;
      forall ts, d | Delivered(es, p, ts, d) ensures ts <= b.updateTimestamp {
        DeliveredStep(es, p, ts, d);
      }
      DeliveredStep(es, p, b.updateTimestamp, b.privateData);
    }
  }

  /** Two runs that deliver the same updates of a player, in any orders and with any repetition and
      any other events between them, leave the same data, if no two different updates share a
      timestamp. */
  lemma OrderDoesNotMatter(s: Session, es1: seq<Event>, es2: seq<Event>, p: string)
    requires Inv(s) && s.phase == Running && Alive(Run(s, es1), p) && Alive(Run(s, es2), p)
    requires forall ts, d :: Delivered(es1, p, ts, d) <==> Delivered(es2, p, ts, d)
    requires forall ts, d1, d2 :: Delivered(es1, p, ts, d1) && Delivered(es1, p, ts, d2) ==> d1 == d2
    ensures var b1, b2 := Run(s, es1).stats[p].value, Run(s, es2).stats[p].value;
      b1.updateTimestamp == b2.updateTimestamp && b1.privateData == b2.privateData
  {
    LatestWins(s, es1, p);
    LatestWins(s, es2, p);
  }

  /** Right after the start every player's timestamp is 0, so any update with a positive timestamp
      beats it. */
  lemma StartsAtZero(s: Session, e: Event, p: string)
    requires Inv(s) && s.phase == Waiting && Step(s, e).0.phase == Running && p in s.stats
    ensures var t := Step(s, e).0;
      Alive(t, p) && t.stats[p].value.updateTimestamp == 0 && t.shared == Shared(0, "")
      && p in t.seqs && t.seqs[p] == SeqInfo(1, Window(0, 0))
  {
    StartsExactly(s, e);
    assert p != e.name ==> Alive(s, p);
  }

  // ---------------------------------------------------------------- shared data

  /** The actor takes this update, and it carries shared data. */
  predicate TakesShared(s: Session, e: Event) {
    e.Update? && !s.stopped && s.phase == Running && Alive(s, e.name)
    && s.stats[e.name].value.updateTimestamp < e.timestamp && e.sharedData != ""
  }

  /** An update with this timestamp and shared data is taken somewhere in the run. */
  ghost predicate SharedTaken(s: Session, es: seq<Event>, shared: Shared)
    decreases es
  {
    es != [] &&
    ((TakesShared(s, es[0]) && shared == Shared(es[0].timestamp, es[0].sharedData))
     || SharedTaken(Step(s, es[0]).0, es[1..], shared))
  }

  /** The shared timestamp never decreases and is the maximum over the updates taken with shared
      data; the shared data is that of such an update. */
  lemma {:induction false} SharedIsLatestTaken(s: Session, es: seq<Event>)
    ensures var t := Run(s, es);
      && t.shared.updateTimestamp >= s.shared.updateTimestamp
      && (forall x :: SharedTaken(s, es, x) ==> x.updateTimestamp <= t.shared.updateTimestamp)
      && (t.shared == s.shared || SharedTaken(s, es, t.shared))
    decreases es
  {
    if es != [] {
      var t := Step(s, es[0]).0;
      SharedIsLatestTaken(t, es[1..]);
      assert if TakesShared(s, es[0]) && s.shared.updateTimestamp < es[0].timestamp
             then t.shared == Shared(es[0].timestamp, es[0].sharedData) else t.shared == s.shared;
    }
  }

  // ---------------------------------------------------------------- the windows of all players

  /** No mask ever leaves 0. */
  predicate MasksZero(s: Session) {
    forall p | p in s.seqs :: s.seqs[p].window.bits == 0
  }

  predicate IndicesOk(s: Session) {
    forall p | p in s.seqs :: Index(s.seqs[p].local) && Index(s.seqs[p].window.remote)
  }

  /** A client sends no negative index. */
  predicate NonNegative(e: Event) {
    e.RequestSync? ==> e.seqIdx >= 0
  }

  lemma StepKeepsWindows(s: Session, e: Event)
    requires MasksZero(s)
    ensures MasksZero(Step(s, e).0)
    ensures IndicesOk(s) && NonNegative(e) ==> IndicesOk(Step(s, e).0)
  {
    hide Check, OnUpdate, OnKeepAlive, OnQuit, OnTick;
    if e.RequestSync? && e.name in s.seqs {
      var w := s.seqs[e.name].window;
      ZeroStaysZero(w, e.seqIdx, MASK_WIDTH);
      AcceptedInGeneral(w, e.seqIdx, MASK_WIDTH);
    } else {
      OthersKeepWindows(s, e);
    }
  }

  lemma OthersKeepWindows(s: Session, e: Event)
    requires e.RequestSync? ==> e.name !in s.seqs
    ensures forall p | p in Step(s, e).0.seqs ::
      (p in s.seqs && Step(s, e).0.seqs[p] == s.seqs[p]) || Step(s, e).0.seqs[p] == SeqInfo(1, Window(0, 0))
  {
  }

  lemma {:induction false} RunKeepsWindows(s: Session, es: seq<Event>)
    requires MasksZero(s)
    ensures MasksZero(Run(s, es))
    ensures IndicesOk(s) && (forall i | 0 <= i < |es| :: NonNegative(es[i])) ==> IndicesOk(Run(s, es))
    decreases es
  {
    if es != [] {
      hide Step, MasksZero, IndicesOk;
      StepKeepsWindows(s, es[0]);
      RunKeepsWindows(Step(s, es[0]).0, es[1..]);
      if forall i | 0 <= i < |es| :: NonNegative(es[i]) {
        forall i | 0 <= i < |es[1..]| ensures NonNegative(es[1..][i]) { assert es[1..][i] == es[i + 1]; }
      }
    }
  }

  /** In every reachable state in which the session runs, a reliable request of a player with an index
      from 0 to 1023 is scheduled and acknowledged exactly when the index is 1 to 31 ahead of the stored
      one modulo 1024; the index is then stored, and otherwise nothing is changed or sent. */
  lemma AcceptsExactly(id: int, names: set<string>, es: seq<Event>, e: Event)
    requires forall i | 0 <= i < |es| :: NonNegative(es[i])
    requires e.RequestSync? && Index(e.seqIdx)
    requires var s := Run(Init(id, names), es); s.phase == Running && !s.stopped && e.name in s.seqs
    ensures var s := Run(Init(id, names), es);
      var info := s.seqs[e.name];
      Step(s, e) ==
        if 1 <= (e.seqIdx - info.window.remote) % 1024 <= 31 then
          (s.(seqs := s.seqs[e.name := SeqInfo(Next(info.local), Window(e.seqIdx, 0))]),
           {Sync(e.syncId, info.local), Ack(e.from, e.seqIdx)})
        else (s, {})
  {
    hide Run, Check;
    RunKeepsWindows(Init(id, names), es);
    var s := Run(Init(id, names), es);
    AcceptedExactly(s.seqs[e.name].window, e.seqIdx, MASK_WIDTH);
  }

  // ---------------------------------------------------------------- reliable requests

  predicate Reliable(e: Event, p: string) {
    e.RequestSync? && e.name == p && e.seqIdx < MODULO
  }

  /** The reliable requests carry the wrapped form of the unbounded indices `ns`. */
  predicate Wrapped(es: seq<Event>, ns: seq<int>, p: string)
    requires |ns| == |es|
  {
    forall i | 0 <= i < |es| :: Reliable(es[i], p) ==> es[i].seqIdx == ns[i] % MODULO
  }

  /** No request is mistaken for another one: each is unambiguous for the highest index taken before. */
  predicate InWindow(highest: int, es: seq<Event>, ns: seq<int>, p: string)
    requires |ns| == |es|
    decreases es
  {
    es == [] ||
    ((Reliable(es[0], p) ==> Unambiguous(highest, ns[0]))
     && InWindow(if Reliable(es[0], p) && Fresh(highest, ns[0]) then ns[0] else highest, es[1..], ns[1..], p))
  }

  /** The indices an unbounded receiver takes. */
  function Taken(highest: int, es: seq<Event>, ns: seq<int>, p: string): seq<int>
    requires |ns| == |es|
    decreases es
  {
    if es == [] then []
    else if Reliable(es[0], p) && Fresh(highest, ns[0]) then [ns[0]] + Taken(ns[0], es[1..], ns[1..], p)
    else Taken(highest, es[1..], ns[1..], p)
  }

  /** At each event the actor does what the unbounded receiver does: a fresh request is scheduled
      under the next index `k` and acknowledged, a stale one is dropped. */
  ghost predicate Schedules(s: Session, es: seq<Event>, ns: seq<int>, p: string, highest: int, k: nat)
    requires |ns| == |es|
    decreases es
  {
    es == [] ||
    (var (t, o) := Step(s, es[0]);
     if !Reliable(es[0], p) then Schedules(t, es[1..], ns[1..], p, highest, k)
     else if Fresh(highest, ns[0]) then
       o == {Sync(es[0].syncId, k % MODULO), Ack(es[0].from, es[0].seqIdx)}
       && Schedules(t, es[1..], ns[1..], p, ns[0], k + 1)
     else o == {} && Schedules(t, es[1..], ns[1..], p, highest, k))
  }

  /** The state the actor keeps for an unbounded receiver. */
  predicate Tracks(s: Session, p: string, highest: int, k: int) {
    p in s.seqs && s.seqs[p] == SeqInfo(k % MODULO, Window(highest % MODULO, 0))
  }

  lemma NextCounts(k: nat)
    ensures Next(k % MODULO) == (k + 1) % MODULO
  {
  }

  lemma RequestStep(s: Session, e: Event, n: int, p: string, highest: int, k: nat)
    requires s.phase == Running && !s.stopped && Tracks(s, p, highest, k)
    requires Reliable(e, p) && e.seqIdx == n % MODULO && Unambiguous(highest, n)
    ensures var (t, o) := Step(s, e);
      if Fresh(highest, n) then
        o == {Sync(e.syncId, k % MODULO), Ack(e.from, e.seqIdx)} && Tracks(t, p, n, k + 1)
      else o == {} && Tracks(t, p, highest, k)
  {
    hide Check, Unambiguous;
    CheckIsFresh(highest, n, MASK_WIDTH);
    NextCounts(k);
  }

  /** The modulo window refines an unbounded counter: over every run of lost, duplicated and
      reordered requests none of which is ambiguous, mixed with any other events, exactly the fresh
      ones are scheduled and acknowledged, under consecutive indices, and the state is the
      unbounded one modulo 1024. */
  lemma {:induction false} WindowRefinesCounter(s: Session, es: seq<Event>, ns: seq<int>, p: string,
                                                highest: int, k: nat)
    requires Inv(s) && s.phase == Running && !Run(s, es).stopped
    requires |ns| == |es| && Tracks(s, p, highest, k) && Wrapped(es, ns, p) && InWindow(highest, es, ns, p)
    ensures Schedules(s, es, ns, p, highest, k)
    ensures var taken := Taken(highest, es, ns, p);
      Tracks(Run(s, es), p, if taken == [] then highest else taken[|taken| - 1], k + |taken|)
    decreases es
  {
    if es != [] {
      hide Check, Unambiguous, Step, Wrapped, Inv, Tracks, Fresh, Reliable;
      var (t, o) := Step(s, es[0]);
      StepKeeps(s, es[0]);
      RunKeeps(t, es[1..]);
      assert !s.stopped;
      WrappedRest(es, ns, p);
      if Reliable(es[0], p) {
        RequestStep(s, es[0], ns[0], p, highest, k);
        if Fresh(highest, ns[0]) {
          WindowRefinesCounter(t, es[1..], ns[1..], p, ns[0], k + 1);
        } else {
          WindowRefinesCounter(t, es[1..], ns[1..], p, highest, k);
        }
      } else {
        OthersKeepSeqs(s, es[0], p);
        WindowRefinesCounter(t, es[1..], ns[1..], p, highest, k);
      }
    }
  }

  lemma WrappedRest(es: seq<Event>, ns: seq<int>, p: string)
    requires |ns| == |es| && es != [] && Wrapped(es, ns, p)
    ensures Reliable(es[0], p) ==> es[0].seqIdx == ns[0] % MODULO
    ensures Wrapped(es[1..], ns[1..], p)
  {
    forall i | 0 <= i < |es[1..]| && Reliable(es[1..][i], p) ensures es[1..][i].seqIdx == ns[1..][i] % MODULO {
      assert es[1..][i] == es[i + 1];
    }
  }

  lemma OthersKeepSeqs(s: Session, e: Event, p: string)
    requires s.phase == Running && !Reliable(e, p) && p in s.seqs
    ensures p in Step(s, e).0.seqs && Step(s, e).0.seqs[p] == s.seqs[p]
  {
    hide Check;
  }

  predicate AllAbove(xs: seq<int>, bound: int) {
    forall i | 0 <= i < |xs| :: xs[i] > bound
  }

  predicate Among(xs: seq<int>, ys: seq<int>) {
    forall x | x in xs :: x in ys
  }

  /** What the unbounded receiver takes is strictly increasing: each request at most once, in the
      order of issue. */
  lemma {:induction false} TakenInOrder(highest: int, es: seq<Event>, ns: seq<int>, p: string)
    requires |ns| == |es|
    ensures AllAbove(Taken(highest, es, ns, p), highest)
    ensures Increasing(Taken(highest, es, ns, p)) && Among(Taken(highest, es, ns, p), ns)
    decreases es
  {
    if es != [] {
      var isNew := Reliable(es[0], p) && Fresh(highest, ns[0]);
      var next := if isNew then ns[0] else highest;
      TakenInOrder(next, es[1..], ns[1..], p);
      var tail := Taken(next, es[1..], ns[1..], p);
      assert AllAbove(tail, next) && Increasing(tail) && Among(tail, ns[1..]);
      assert Among(ns[1..], ns);
    }
  }
}
