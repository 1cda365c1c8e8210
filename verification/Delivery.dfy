/** A client and the server together: what becomes of the reliable requests that a client issues when
    the network loses, repeats and reorders their datagrams. */
module Delivery {
  import opened Wrappers
  import opened SequenceWindow
  import opened Sequences
  import S = SessionModel
  import L = SessionLaws
  import M = ClientModel
  import C = ClientLaws
  import K = ClientClock
  import A = ClientCalls

  /** Each reliable request that reaches the server is a copy of the request issued under the index `ns`
      gives: nothing else is known about loss, repetition and order. */
  predicate Copies(es: seq<S.Event>, ns: seq<int>, p: string, issued: seq<M.Wire>)
    requires |ns| == |es|
  {
    forall i | 0 <= i < |es| :: L.Reliable(es[i], p) ==> IsCopy(es[i], ns[i], issued)
  }

  predicate IsCopy(e: S.Event, n: int, issued: seq<M.Wire>) {
    && e.RequestSync? && 1 <= n <= |issued| && issued[n - 1].SyncRequest?
    && e.seqIdx == issued[n - 1].seqIdx && e.syncId == issued[n - 1].syncId
  }

  lemma CopiesRest(es: seq<S.Event>, ns: seq<int>, p: string, issued: seq<M.Wire>)
    requires |ns| == |es| && es != [] && Copies(es, ns, p, issued)
    ensures Copies(es[1..], ns[1..], p, issued)
  {
    forall i | 0 <= i < |es[1..]| && L.Reliable(es[1..][i], p) ensures IsCopy(es[1..][i], ns[1..][i], issued) {
      assert es[1..][i] == es[i + 1];
    }
  }

  lemma CopiesAreWrapped(es: seq<S.Event>, ns: seq<int>, p: string, issued: seq<M.Wire>)
    requires |ns| == |es| && C.IssuedInOrder(issued) && Copies(es, ns, p, issued)
    ensures L.Wrapped(es, ns, p)
  {
    forall i | 0 <= i < |es| && L.Reliable(es[i], p) ensures es[i].seqIdx == ns[i] % MODULO {
      assert IsCopy(es[i], ns[i], issued) && C.Carries(issued[ns[i] - 1], ns[i]);
    }
  }

  ghost predicate HasSync(o: set<S.Out>) {
    exists id, idx :: S.Sync(id, idx) in o
  }

  /** The sync ids that the server schedules for the player's reliable requests, in order. */
  ghost function Scheduled(s: S.Session, es: seq<S.Event>, p: string): seq<int>
    decreases es
  {
    if es == [] then []
    else
      var (t, o) := S.Step(s, es[0]);
      (if L.Reliable(es[0], p) && HasSync(o) then [es[0].syncId] else []) + Scheduled(t, es[1..], p)
  }

  /** The sync ids are those of the requests issued under these indices. */
  predicate IdsOf(ids: seq<int>, ns: seq<int>, issued: seq<M.Wire>) {
    && |ids| == |ns|
    && forall i | 0 <= i < |ids| ::
         1 <= ns[i] <= |issued| && issued[ns[i] - 1].SyncRequest? && ids[i] == issued[ns[i] - 1].syncId
  }

  lemma IdsOfFirst(e: S.Event, n: int, ids: seq<int>, ns: seq<int>, issued: seq<M.Wire>)
    requires IsCopy(e, n, issued) && IdsOf(ids, ns, issued)
    ensures IdsOf([e.syncId] + ids, [n] + ns, issued)
  {
  }

  lemma {:induction false} ScheduledAreTaken(s: S.Session, es: seq<S.Event>, ns: seq<int>, p: string,
                                             highest: int, k: nat, issued: seq<M.Wire>)
    requires |ns| == |es| && Copies(es, ns, p, issued) && L.Schedules(s, es, ns, p, highest, k)
    ensures IdsOf(Scheduled(s, es, p), L.Taken(highest, es, ns, p), issued)
    decreases es
  {
    hide S.Step, Copies, IdsOf, IsCopy;
    if es == [] {
      NoIds(issued);
    } else {
      var (t, o) := S.Step(s, es[0]);
      CopiesRest(es, ns, p, issued);
      if !L.Reliable(es[0], p) {
        ScheduledAreTaken(t, es[1..], ns[1..], p, highest, k, issued);
        assert Scheduled(s, es, p) == Scheduled(t, es[1..], p);
      } else {
        CopiesFirst(es, ns, p, issued);
        if Fresh(highest, ns[0]) {
          assert S.Sync(es[0].syncId, k % MODULO) in o;
          ScheduledAreTaken(t, es[1..], ns[1..], p, ns[0], k + 1, issued);
          IdsOfFirst(es[0], ns[0], Scheduled(t, es[1..], p), L.Taken(ns[0], es[1..], ns[1..], p), issued);
        } else {
          assert !HasSync(o);
          ScheduledAreTaken(t, es[1..], ns[1..], p, highest, k, issued);
          assert Scheduled(s, es, p) == Scheduled(t, es[1..], p);
        }
      }
    }
  }

  lemma NoIds(issued: seq<M.Wire>)
    ensures IdsOf([], [], issued)
  {
  }

  lemma CopiesFirst(es: seq<S.Event>, ns: seq<int>, p: string, issued: seq<M.Wire>)
    requires |ns| == |es| && es != [] && Copies(es, ns, p, issued) && L.Reliable(es[0], p)
    ensures IsCopy(es[0], ns[0], issued)
  {
  }

  /** The sync ids are those that the application gave in these calls. */
  predicate AskedFor(ids: seq<int>, ns: seq<int>, calls: seq<A.Call>) {
    && |ids| == |ns|
    && forall i | 0 <= i < |ids| :: 1 <= ns[i] <= |calls| && ids[i] == calls[ns[i] - 1].syncId
  }

  lemma IdsAreAskedFor(ids: seq<int>, ns: seq<int>, issued: seq<M.Wire>, calls: seq<A.Call>)
    requires IdsOf(ids, ns, issued) && A.IssuedAs(issued, calls)
    ensures AskedFor(ids, ns, calls)
  {
  }

  /** End to end: whatever a client does and whatever the network loses, repeats and reorders within the
      window, a server that starts with the player's first request schedules some of the application's
      calls, each at most once, in the order in which they were made and with the sync ids they gave. */
  lemma InIssueOrder(name: string, actions: seq<M.Action>, s: S.Session, es: seq<S.Event>, ns: seq<int>, p: string)
    returns (taken: seq<int>)
    requires L.Inv(s) && s.phase == S.Running && !S.Run(s, es).stopped && L.Tracks(s, p, 0, 1)
    requires |ns| == |es| && L.InWindow(0, es, ns, p)
    requires Copies(es, ns, p, C.Notes(M.Fresh(name), C.Start(), actions).issued)
    ensures Increasing(taken)
    ensures AskedFor(Scheduled(s, es, p), taken, A.Calls(M.Fresh(name), actions))
    ensures L.Tracks(S.Run(s, es), p, if taken == [] then 0 else taken[|taken| - 1], 1 + |taken|)
  {
    hide S.Step, Copies, IdsOf, C.Notes, L.InWindow, S.Run, L.Inv, L.Tracks;
    var issued := C.Notes(M.Fresh(name), C.Start(), actions).issued;
    C.EveryRun(name, actions);
    CopiesAreWrapped(es, ns, p, issued);
    L.WindowRefinesCounter(s, es, ns, p, 0, 1);
    L.TakenInOrder(0, es, ns, p);
    ScheduledAreTaken(s, es, ns, p, 0, 1, issued);
    taken := L.Taken(0, es, ns, p);
    A.IssuedAreCalls(name, actions);
    IdsAreAskedFor(Scheduled(s, es, p), taken, issued, A.Calls(M.Fresh(name), actions));
  }

  // ---------------------------------------------------------------- clock responses

  /** The datagram that a reply of the server is. */
  function AsDatagram(reply: S.Out): M.Datagram
    requires reply.ClockReply?
  {
    M.ClockSync(reply.id, Some((reply.requestTime, reply.responseTime)))
  }

  /** A running server's one answer to a clock request is the response that the clock laws assume: the
      request's own id and time, and the server's time. */
  lemma ServerResponds(s: S.Session, r: K.Sent, from: S.Address, server: int, offset: int)
    requires s.phase == S.Running && !s.stopped
    ensures var out := S.Step(s, S.ClockSync(from, r.id, r.requestTime, server + offset)).1;
      exists reply :: out == {reply} && reply.ClockReply? && reply.to == from
        && AsDatagram(reply) == K.Response(r, server, offset)
  {
    var reply := S.ClockReply(from, r.id, r.requestTime, server + offset);
    assert S.Step(s, S.ClockSync(from, r.id, r.requestTime, server + offset)).1 == {reply};
    assert AsDatagram(reply) == K.Response(r, server, offset);
  }
}
