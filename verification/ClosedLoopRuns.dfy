/** Joint runs of a client and the server that show how far the laws of ClosedLoop reach: one that blocks the
    client, and one in which its own sync takes out a request that the server never got. */
module ClosedLoopRuns {
  import opened Sequences
  import opened SequenceWindow
  import opened ClosedLoop
  import S = SessionModel
  import L = SessionLaws
  import M = ClientModel
  import C = ClientLaws
  import D = Delivery

  // ---------------------------------------------------------------- building a run

  /** The run is allowed and leads from the one state to the other. */
  ghost predicate Leads(j0: Joint, ms: seq<Move>, p: string, j: Joint) {
    CanRun(j0, ms, p) && Run(j0, ms, p) == j
  }

  lemma {:induction false} Extend(j0: Joint, ms: seq<Move>, p: string, j: Joint, m: Move)
    requires Leads(j0, ms, p, j) && Allowed(j, m, p)
    ensures Leads(j0, ms + [m], p, After(j, m, p))
    decreases ms
  {
    hide Allowed, After;
    var all := ms + [m];
    if ms == [] {
      assert all[0] == m && all[1..] == [] && j == j0;
      assert CanRun(After(j, m, p), all[1..], p) && Run(After(j, m, p), all[1..], p) == After(j, m, p);
    } else {
      Extend(After(j0, ms[0], p), ms[1..], p, j, m);
      assert all[0] == ms[0] && all[1..] == ms[1..] + [m];
    }
  }

  /** What a started client and the server have come to. */
  ghost predicate At(j: Joint, p: string, pending: seq<int>, issued: nat, highest: int, taken: seq<int>, remote: int) {
    && Inv(j, p) && j.client.started
    && j.history.pending == pending && |j.history.issued| == issued
    && j.highest == highest && j.taken == taken && j.client.window.remote == remote
  }

  /** A copy of the request `n`. */
  function Copy(j: Joint, p: string, from: S.Address, n: int): S.Event
    requires 1 <= n <= |j.history.issued| && j.history.issued[n - 1].SyncRequest?
  {
    S.RequestSync(p, from, j.history.issued[n - 1].syncId, n % MODULO)
  }

  const Ask: Move := AtClient(M.Request(0, 0, 0))

  lemma BeginStep(name: string, server: S.Session, p: string)
    requires Ready(server, p)
    ensures var j, m := Begin(name, server), AtClient(M.Begin(0));
      Allowed(j, m, p) && At(After(j, m, p), p, [], 0, 0, [], 0)
  {
    hide C.Inv;
    BeginHolds(name, server, p);
    OtherKeeps(Begin(name, server), M.Begin(0), p);
  }

  lemma AskStep(j: Joint, p: string, pending: seq<int>, issued: nat, highest: int, taken: seq<int>, remote: int)
    requires At(j, p, pending, issued, highest, taken, remote) && |pending| < M.BUFFER_SIZE
    ensures Allowed(j, Ask, p)
    ensures At(After(j, Ask, p), p, pending + [issued + 1], issued + 1, highest, taken, remote)
  {
    hide C.Inv, AllAccounted, ServerOk, TakenOk, Increasing;
    ClientFacts(j.client, j.history);
    OtherKeeps(j, Ask.action, p);
  }

  lemma CopyStays(s: S.Session, e: S.Event)
    requires e.RequestSync? && !s.stopped
    ensures !S.Step(s, e).0.stopped
  {
    hide Check;
  }

  lemma TakeStep(j: Joint, p: string, pending: seq<int>, issued: nat, highest: int, taken: seq<int>, remote: int,
                 from: S.Address, n: int)
    returns (m: Move)
    requires At(j, p, pending, issued, highest, taken, remote) && 1 <= n <= issued && Fresh(highest, n)
    ensures Allowed(j, m, p) && At(After(j, m, p), p, pending, issued, n, taken + [n], remote)
    ensures m.AtServer? && m.n == n && L.Reliable(m.event, p)
  {
    hide C.Inv, AllAccounted, TakenOk, S.Step, L.Inv, Unambiguous;
    ClientFacts(j.client, j.history);
    assert C.Carries(j.history.issued[n - 1], n);
    var e := Copy(j, p, from, n);
    m := AtServer(e, n);
    CopyStays(j.server, e);
    ServerKeeps(j, e, n, p);
  }

  lemma AckStep(j: Joint, p: string, pending: seq<int>, issued: nat, highest: int, taken: seq<int>, remote: int, i: nat)
    requires At(j, p, pending, issued, highest, taken, remote) && C.Near(j.history)
    requires i < |pending| && pending[i] in taken && 1 <= (pending[i] % MODULO - remote) % MODULO < HISTORY
    ensures var m := AckArrives(pending[i], 0);
      Allowed(j, m, p)
      && At(After(j, m, p), p, Without(pending, i), issued, highest, taken, pending[i] % MODULO)
  {
    hide C.Inv, AllAccounted, ServerOk, Increasing, Without, C.Place;
    ClientFacts(j.client, j.history);
    var n := pending[i];
    var a := M.Receive(M.Ack(n % MODULO), 0);
    C.OwnPlace(j.client, j.history, i);
    C.PendingAfter(j.client, j.history, a.datagram, 0);
    AnswerKeeps(j, a, p);
    AckedMoves(j.client, j.history, n % MODULO);
  }

  lemma AckedMoves(c: M.Client, h: C.History, seqIdx: nat)
    requires C.Inv(c, h) && Index(c.window.remote) && Index(seqIdx)
    requires 1 <= (seqIdx - c.window.remote) % MODULO < HISTORY
    ensures var c1 := M.Act(c, M.Receive(M.Ack(seqIdx), 0)).0;
      c1.started == c.started && c1.window.remote == seqIdx
  {
    hide Check, M.RemoveAcknowledged;
    AcceptedExactly(c.window, seqIdx, M.MASK_WIDTH);
  }

  /** The numbers from `low` to `high`. */
  function Range(low: int, high: int): (r: seq<int>)
    ensures |r| == if low <= high then high - low + 1 else 0
    ensures forall i | 0 <= i < |r| :: r[i] == low + i
    decreases high - low + 1
  {
    if low > high then [] else Range(low, high - 1) + [high]
  }

  lemma {:induction false} AskMany(j0: Joint, ms: seq<Move>, p: string, j: Joint, pending: seq<int>, issued: nat,
                                   highest: int, taken: seq<int>, remote: int, k: nat)
    returns (ms1: seq<Move>, j1: Joint)
    requires Leads(j0, ms, p, j) && At(j, p, pending, issued, highest, taken, remote)
    requires |pending| + k <= M.BUFFER_SIZE
    ensures Leads(j0, ms1, p, j1)
    ensures At(j1, p, pending + Range(issued + 1, issued + k), issued + k, highest, taken, remote)
    decreases k
  {
    hide Leads, At, Allowed, After;
    if k == 0 {
      ms1, j1 := ms, j;
      assert pending + [] == pending;
    } else {
      ms1, j1 := AskMany(j0, ms, p, j, pending, issued, highest, taken, remote, k - 1);
      var before := pending + Range(issued + 1, issued + k - 1);
      AskStep(j1, p, before, issued + k - 1, highest, taken, remote);
      Extend(j0, ms1, p, j1, Ask);
      ms1, j1 := ms1 + [Ask], After(j1, Ask, p);
      assert before + [issued + k] == pending + Range(issued + 1, issued + k);
    }
  }

  lemma Started(name: string, server: S.Session, p: string) returns (ms: seq<Move>, j: Joint)
    requires Ready(server, p)
    ensures Leads(Begin(name, server), ms, p, j) && At(j, p, [], 0, 0, [], 0)
  {
    hide At, Allowed, After;
    var m := AtClient(M.Begin(0));
    BeginStep(name, server, p);
    j := After(Begin(name, server), m, p);
    Extend(Begin(name, server), [], p, Begin(name, server), m);
    ms := [] + [m];
  }

  // ---------------------------------------------------------------- the own sync loses a request

  /** Two requests, of which the second reaches the server first: its sync goes out, to its sender too, with
      index 1. There it takes out the first request, which the server never got: after it that request neither
      waits nor was taken. */
  lemma OwnSyncLosesRequest(name: string, server: S.Session, p: string, from: S.Address)
    returns (ms: seq<Move>, m: Move)
    requires Ready(server, p)
    ensures CanRun(Begin(name, server), ms, p)
    ensures var j := Run(Begin(name, server), ms, p);
      && Allowed(j, m, p) && m.AtServer? && m.n == 2 && m.event.RequestSync?
      && S.Sync(m.event.syncId, 1) in S.Step(j.server, m.event).1
      && var j1 := After(j, m, p);
         var j2 := ClientActs(j1, M.Receive(M.Sync(1, m.event.syncId), 0));
         1 in j1.history.pending && 1 !in j2.history.pending && 1 !in j2.taken
  {
    hide At, Allowed, After, Leads;
    var j;
    ms, j := Started(name, server, p);
    ms, j := AskMany(Begin(name, server), ms, p, j, [], 0, 0, [], 0, 2);
    m := TakeStep(j, p, [] + Range(1, 2), 2, 0, [], 0, from, 2);
    OwnSyncStep(j, p, m);
    LeadsMeans(Begin(name, server), ms, p, j);
  }

  lemma LeadsMeans(j0: Joint, ms: seq<Move>, p: string, j: Joint)
    requires Leads(j0, ms, p, j)
    ensures CanRun(j0, ms, p) && Run(j0, ms, p) == j
  {
  }

  lemma OwnSyncStep(j: Joint, p: string, m: Move)
    requires At(j, p, [] + Range(1, 2), 2, 0, [], 0) && Allowed(j, m, p)
    requires m.AtServer? && m.n == 2 && L.Reliable(m.event, p)
    requires At(After(j, m, p), p, [] + Range(1, 2), 2, 2, [] + [2], 0)
    ensures S.Sync(m.event.syncId, 1) in S.Step(j.server, m.event).1
    ensures var j1 := After(j, m, p);
      var j2 := ClientActs(j1, M.Receive(M.Sync(1, m.event.syncId), 0));
      1 in j1.history.pending && 1 !in j2.history.pending && 1 !in j2.taken
  {
    hide C.Inv, AllAccounted, ServerOk, C.Place, S.Step, Without, C.Note, M.Act;
    ServerStep(j, m.event, 2, p);
    var j1 := After(j, m, p);
    var pending := j1.history.pending;
    assert pending == [1, 2];
    ClientFacts(j1.client, j1.history);
    C.OwnPlace(j1.client, j1.history, 0);
    C.PendingAfter(j1.client, j1.history, M.Sync(1, m.event.syncId), 0);
    WithoutContents(pending, 0, 1);
  }

  // ---------------------------------------------------------------- a blocked client is reached

  /** Thirty requests are overtaken by the 31st, which is acknowledged; two more are issued and the second of
      them overtakes the first. Its acknowledgement is lost. Then the queue is full, with 31 requests that the
      server never gets and one that it has: the client is blocked. */
  lemma BlockedIsReached(name: string, server: S.Session, p: string, from: S.Address) returns (ms: seq<Move>)
    requires Ready(server, p)
    ensures CanRun(Begin(name, server), ms, p)
    ensures var j := Run(Begin(name, server), ms, p);
      Inv(j, p) && Blocked(j) && |AllOvertaken(j)| == 31 && Lost(j) == {33}
  {
    hide At, Allowed, After, Leads;
    var j0 := Begin(name, server);
    var j, m;
    ms, j := Started(name, server, p);
    ms, j := AskMany(j0, ms, p, j, [], 0, 0, [], 0, 31);
    var first := [] + Range(1, 31);
    m := TakeStep(j, p, first, 31, 0, [], 0, from, 31);
    Extend(j0, ms, p, j, m);
    ms, j := ms + [m], After(j, m, p);
    m := AckArrives(31, 0);
    NearAt(j, p, first, 31, 31, [] + [31], 0);
    AckStep(j, p, first, 31, 31, [] + [31], 0, 30);
    Extend(j0, ms, p, j, m);
    ms, j := ms + [m], After(j, m, p);
    ms, j := AskMany(j0, ms, p, j, Without(first, 30), 31, 31, [] + [31], 31, 2);
    var full := Without(first, 30) + Range(32, 33);
    m := TakeStep(j, p, full, 33, 31, [] + [31], 31, from, 33);
    Extend(j0, ms, p, j, m);
    ms, j := ms + [m], After(j, m, p);
    FullIsBlocked(j, p, full);
    LeadsMeans(j0, ms, p, j);
  }

  lemma NearAt(j: Joint, p: string, pending: seq<int>, issued: nat, highest: int, taken: seq<int>, remote: int)
    requires At(j, p, pending, issued, highest, taken, remote) && issued <= MODULO
    ensures C.Near(j.history)
  {
    hide C.Inv;
    ClientFacts(j.client, j.history);
    if pending != [] { assert pending[0] in pending; }
  }

  lemma RangeContents(low: int, high: int, n: int)
    ensures n in Range(low, high) <==> low <= n <= high
  {
    if low <= n <= high { assert Range(low, high)[n - low] == n; }
  }

  lemma FullContents(full: seq<int>)
    requires full == Without([] + Range(1, 31), 30) + Range(32, 33)
    ensures Listed(full)
  {
    var range := Range(1, 31);
    assert [] + range == range && Without(range, 30) == Range(1, 30);
    forall n ensures n in full <==> 1 <= n <= 33 && n != 31 {
      RangeContents(1, 30, n);
      RangeContents(32, 33, n);
      hide Range;
    }
  }

  /** The indices of a queue that FullContents describes. */
  ghost predicate Listed(pending: seq<int>) {
    |pending| == 32 && forall n :: n in pending <==> 1 <= n <= 33 && n != 31
  }

  ghost predicate Last(j: Joint) {
    Listed(j.history.pending) && j.highest == 33 && |j.history.issued| == 33 && j.taken == [31, 33]
  }

  lemma ThenOvertaken(j: Joint, n: int)
    requires Last(j)
    ensures n in AllOvertaken(j) <==> 0 < n <= 30 || n == 32
    ensures n in Lost(j) <==> n == 33
    ensures n in j.history.pending ==> Overtaken(j, n) || n in j.taken
  {
  }

  lemma LastIsBlocked(j: Joint)
    requires Last(j)
    ensures Blocked(j) && |AllOvertaken(j)| == 31 && Lost(j) == {33}
  {
    hide AllOvertaken, Lost, Overtaken, Listed, Between;
    forall n ensures n in AllOvertaken(j) <==> n in Between(0, 30) + {32} { ThenOvertaken(j, n); }
    assert AllOvertaken(j) == Between(0, 30) + {32};
    forall n ensures n in Lost(j) <==> n in {33} { ThenOvertaken(j, n); }
    assert Lost(j) == {33};
    forall n | n in j.history.pending ensures Overtaken(j, n) || n in j.taken { ThenOvertaken(j, n); }
    ListedLength(j.history.pending);
  }

  lemma ListedLength(pending: seq<int>)
    requires Listed(pending)
    ensures |pending| == 32
  {
  }

  lemma FullIsBlocked(j: Joint, p: string, full: seq<int>)
    requires full == Without([] + Range(1, 31), 30) + Range(32, 33)
    requires At(j, p, full, 33, 33, [] + [31] + [33], 31)
    ensures Inv(j, p) && Blocked(j) && |AllOvertaken(j)| == 31 && Lost(j) == {33}
  {
    hide Inv, Blocked, AllOvertaken, Lost, Listed, Range, Without;
    FullContents(full);
    assert j.taken == [31, 33];
    LastIsBlocked(j);
  }
}
