/** A client and the server in one run, with requests one way and acknowledgements and syncs the other: when
    leaving the client's queue means that the server has the request, and what becomes of a request that was
    overtaken. */
module ClosedLoop {
  import opened Wrappers
  import opened Sequences
  import opened SequenceWindow
  import S = SessionModel
  import L = SessionLaws
  import M = ClientModel
  import C = ClientLaws
  import D = Delivery

  /** The two sides; the indices the server took, in order, and the highest of them; and those of which
      an acknowledgement is or was under way. */
  datatype Joint = Joint(client: M.Client, history: C.History, server: S.Session,
                         highest: int, taken: seq<int>, acked: set<int>)

  /** Any action of the client but the receipt of an acknowledgement; the receipt of one that was sent for
      the request `n`; any event at the server, a reliable request of the player being a copy of the
      request `n`. Copies, acknowledgements and syncs may be lost, repeated and late. */
  datatype Move =
    | AtClient(action: M.Action)
    | AckArrives(n: int, now: int)
    | AtServer(event: S.Event, n: int)

  ghost predicate HasAck(o: set<S.Out>) {
    exists to, idx :: S.Ack(to, idx) in o
  }

  /** A datagram with this index takes nothing out of the client's queue but a request that the server
      took. */
  predicate LosesNothing(j: Joint, seqIdx: int) {
    var i := C.Place(j.client.queue, seqIdx);
    1 <= (seqIdx - j.client.window.remote) % MODULO < HISTORY && i < |j.history.pending|
    ==> j.history.pending[i] in j.taken
  }

  /** The index of a sync that the action receives. */
  function SyncIndex(a: M.Action): Option<nat> {
    if a.Receive? && a.datagram.Sync? && a.datagram.seqIdx < MODULO then Some(a.datagram.seqIdx) else None
  }

  /** More than 992 behind the highest index taken: an index of such a copy can look new. */
  predicate Stale(highest: int, n: int) {
    n < highest - (MODULO - HISTORY)
  }

  /** The assumptions: a datagram to the client loses nothing; a stale copy is unambiguous for the server; and
      the server does not stop. */
  predicate Allowed(j: Joint, m: Move, p: string) {
    match m
    case AtClient(a) =>
      !(a.Receive? && a.datagram.Ack?) && (SyncIndex(a).Some? ==> LosesNothing(j, SyncIndex(a).value))
    case AckArrives(n, _) => n in j.acked && LosesNothing(j, n % MODULO)
    case AtServer(e, n) =>
      && !S.Step(j.server, e).0.stopped
      && (L.Reliable(e, p) ==>
            D.IsCopy(e, n, j.history.issued) && (Stale(j.highest, n) ==> Unambiguous(j.highest, n)))
  }

  ghost function After(j: Joint, m: Move, p: string): Joint {
    match m
    case AtClient(a) => ClientActs(j, a)
    case AckArrives(n, now) => ClientActs(j, M.Receive(M.Ack(n % MODULO), now))
    case AtServer(e, n) =>
      var (t, o) := S.Step(j.server, e);
      var isNew := L.Reliable(e, p) && Fresh(j.highest, n);
      j.(server := t,
         highest := if isNew then n else j.highest,
         taken := if isNew then j.taken + [n] else j.taken,
         acked := if L.Reliable(e, p) && HasAck(o) then j.acked + {n} else j.acked)
  }

  function ClientActs(j: Joint, a: M.Action): Joint {
    j.(client := M.Act(j.client, a).0, history := C.Note(j.client, j.history, a))
  }

  ghost predicate CanRun(j: Joint, ms: seq<Move>, p: string)
    decreases ms
  {
    ms == [] || (Allowed(j, ms[0], p) && CanRun(After(j, ms[0], p), ms[1..], p))
  }

  ghost function Run(j: Joint, ms: seq<Move>, p: string): Joint
    decreases ms
  {
    if ms == [] then j else Run(After(j, ms[0], p), ms[1..], p)
  }

  // ---------------------------------------------------------------- the invariant

  /** Every index issued is waiting or was taken. */
  predicate AllAccounted(issued: nat, pending: seq<int>, taken: seq<int>) {
    forall n | 1 <= n <= issued :: n in pending || n in taken
  }

  /** What was taken was issued, is not above the highest index, which is one of them, and was acknowledged;
      nothing else was. */
  predicate TakenOk(issued: nat, highest: int, taken: seq<int>, acked: set<int>) {
    && Increasing(taken)
    && (highest == 0 || highest in taken)
    && (forall n | n in taken :: 1 <= n <= issued && n <= highest)
    && (forall n | n in taken :: n in acked) && (forall n | n in acked :: n in taken)
  }

  /** A full queue holds the newest request. */
  predicate FullHasNewest(issued: nat, pending: seq<int>) {
    && |pending| <= M.BUFFER_SIZE
    && (|pending| == M.BUFFER_SIZE ==> pending[M.BUFFER_SIZE - 1] == issued)
  }

  ghost predicate ServerOk(j: Joint, p: string) {
    && L.Inv(j.server) && j.server.phase == S.Running && !j.server.stopped
    && L.Tracks(j.server, p, j.highest, 1 + |j.taken|)
  }

  ghost predicate Inv(j: Joint, p: string) {
    && C.Inv(j.client, j.history) && Index(j.client.window.remote)
    && ServerOk(j, p)
    && TakenOk(|j.history.issued|, j.highest, j.taken, j.acked)
    && AllAccounted(|j.history.issued|, j.history.pending, j.taken)
    && FullHasNewest(|j.history.issued|, j.history.pending)
  }

  lemma ServerUntouched(j: Joint, j1: Joint, p: string)
    requires j1.server == j.server && j1.highest == j.highest && j1.taken == j.taken
    ensures ServerOk(j1, p) == ServerOk(j, p)
  {
  }

  lemma ClientFacts(c: M.Client, h: C.History)
    requires C.Inv(c, h)
    ensures C.IssuedInOrder(h.issued) && Increasing(h.pending) && |h.pending| == |c.queue| <= M.BUFFER_SIZE
    ensures forall n | n in h.pending :: 1 <= n <= |h.issued|
  {
    forall n | n in h.pending ensures 1 <= n <= |h.issued| {
      var i :| 0 <= i < |h.pending| && h.pending[i] == n;
      assert C.Holds(c.queue[i], n, h.issued);
    }
  }

  // ---------------------------------------------------------------- the client's moves

  predicate IsAnswer(a: M.Action) {
    a.Receive? && (a.datagram.Ack? || a.datagram.Sync?) && a.datagram.seqIdx < MODULO
  }

  /** Any action but an acknowledgement or a sync with an index leaves the pending requests or adds the next
      one. */
  lemma OtherActions(c: M.Client, h: C.History, a: M.Action)
    requires C.Inv(c, h) && Index(c.window.remote) && !IsAnswer(a) && !(a.Receive? && a.datagram.Ack?)
    ensures var h1 := C.Note(c, h, a);
      (h1.pending == h.pending && h1.issued == h.issued)
      || (a.Request? && h1.pending == h.pending + [|h.issued| + 1] && |h1.issued| == |h.issued| + 1)
    ensures Index(M.Act(c, a).0.window.remote)
  {
    hide C.Inv, Check, Without, M.RemoveAcknowledged, M.Resent, M.Resends, C.Place;
  }

  lemma AnswerKeepsIndex(c: M.Client, h: C.History, a: M.Action)
    requires Index(c.window.remote) && IsAnswer(a)
    ensures Index(M.Act(c, a).0.window.remote) && C.Note(c, h, a).issued == h.issued
  {
    hide Check, M.RemoveAcknowledged;
    AcceptedInGeneral(c.window, a.datagram.seqIdx, M.MASK_WIDTH);
  }

  lemma AccountedWithout(issued: nat, pending: seq<int>, taken: seq<int>, i: nat)
    requires AllAccounted(issued, pending, taken) && Increasing(pending)
    requires i < |pending| && 1 <= pending[i] <= issued
    ensures AllAccounted(issued, Without(pending, i), taken) <==> pending[i] in taken
    ensures |Without(pending, i)| == |pending| - 1
  {
    WithoutContents(pending, i, pending[i]);
    forall n | 1 <= n <= issued && n != pending[i] ensures n in Without(pending, i) || n in taken {
      WithoutContents(pending, i, n);
      assert n in pending || n in taken;
    }
  }

  /** An acknowledgement or a sync with an index keeps every request accounted for if and only if what it takes
      out, if anything, was taken by the server. */
  lemma AccountedExactly(j: Joint, a: M.Action, p: string)
    requires Inv(j, p) && IsAnswer(a)
    ensures AllAccounted(|j.history.issued|, C.Note(j.client, j.history, a).pending, j.taken)
       <==> LosesNothing(j, a.datagram.seqIdx)
    ensures var after := C.Note(j.client, j.history, a).pending;
      after == j.history.pending || |after| == |j.history.pending| - 1
  {
    hide C.Inv, C.Note, AllAccounted, Increasing, ServerOk, Without, C.Place;
    ClientFacts(j.client, j.history);
    C.PendingAfter(j.client, j.history, a.datagram, a.now);
    var i := C.Place(j.client.queue, a.datagram.seqIdx);
    if i < |j.history.pending| {
      assert j.history.pending[i] in j.history.pending;
      AccountedWithout(|j.history.issued|, j.history.pending, j.taken, i);
    } else {
      C.WithoutIsShorter(j.history.pending, i);
    }
  }

  lemma AnswerKeeps(j: Joint, a: M.Action, p: string)
    requires Inv(j, p) && IsAnswer(a) && LosesNothing(j, a.datagram.seqIdx)
    ensures Inv(ClientActs(j, a), p) && ClientActs(j, a).history.issued == j.history.issued
  {
    hide C.Inv, C.Note, M.Act, AllAccounted, ServerOk, LosesNothing, Increasing;
    C.StepKeeps(j.client, j.history, a);
    AnswerKeepsIndex(j.client, j.history, a);
    AccountedExactly(j, a, p);
    ServerUntouched(j, ClientActs(j, a), p);
  }

  lemma AccountedGrows(issued: nat, pending: seq<int>, taken: seq<int>)
    requires AllAccounted(issued, pending, taken)
    ensures AllAccounted(issued + 1, pending + [issued + 1], taken)
  {
    forall n | 1 <= n <= issued + 1 ensures n in pending + [issued + 1] || n in taken {
      if n <= issued { assert n in pending || n in taken; }
    }
  }

  lemma OtherKeeps(j: Joint, a: M.Action, p: string)
    requires Inv(j, p) && !IsAnswer(a) && !(a.Receive? && a.datagram.Ack?)
    ensures Inv(ClientActs(j, a), p)
    ensures var h, h1 := j.history, ClientActs(j, a).history;
      (h1.pending == h.pending && h1.issued == h.issued)
      || (a.Request? && h1.pending == h.pending + [|h.issued| + 1] && |h1.issued| == |h.issued| + 1)
  {
    hide C.Inv, C.Note, M.Act, AllAccounted, Increasing, ServerOk;
    C.StepKeeps(j.client, j.history, a);
    OtherActions(j.client, j.history, a);
    ClientFacts(ClientActs(j, a).client, ClientActs(j, a).history);
    AccountedGrows(|j.history.issued|, j.history.pending, j.taken);
    ServerUntouched(j, ClientActs(j, a), p);
  }

  // ---------------------------------------------------------------- the server's moves

  lemma AccountedMore(issued: nat, pending: seq<int>, taken: seq<int>, n: int)
    requires AllAccounted(issued, pending, taken)
    ensures AllAccounted(issued, pending, taken + [n])
  {
    forall k | 1 <= k <= issued ensures k in pending || k in taken + [n] {
      assert k in pending || k in taken;
    }
  }

  lemma TakenGrows(issued: nat, highest: int, taken: seq<int>, acked: set<int>, n: int)
    requires TakenOk(issued, highest, taken, acked)
    ensures highest < n && 1 <= n <= issued ==> TakenOk(issued, n, taken + [n], acked + {n})
  {
    if highest < n && 1 <= n <= issued {
      var t := taken + [n];
      forall a, b | 0 <= a < b < |t| ensures t[a] < t[b] {
        assert t[a] == taken[a] && taken[a] in taken;
        if b < |taken| { assert taken[a] < taken[b]; }
      }
    }
  }

  /** The server is never more than 32 requests behind the client: those above the highest index taken all
      wait in the queue. */
  lemma NeverFarAhead(j: Joint, p: string)
    requires Inv(j, p)
    ensures 0 <= j.highest <= |j.history.issued| && |j.history.issued| - j.highest <= M.BUFFER_SIZE
  {
    hide C.Inv, ServerOk;
    ClientFacts(j.client, j.history);
    var ahead := Between(j.highest, |j.history.issued|);
    forall n | n in ahead ensures n in Elements(j.history.pending) {
      assert n in j.history.pending || n in j.taken;
    }
    SubsetSize(ahead, Elements(j.history.pending));
    ElementsSize(j.history.pending);
  }

  /** So only a stale copy can be ambiguous. */
  lemma OnlyStaleIsAmbiguous(j: Joint, n: int, p: string)
    requires Inv(j, p) && n <= |j.history.issued| && !Stale(j.highest, n)
    ensures Unambiguous(j.highest, n)
  {
    hide Inv, Unambiguous;
    NeverFarAhead(j, p);
    ReachIsUnambiguous(j.highest, n);
  }

  /** What the server answers to a copy: a fresh one is scheduled under the next sync index and
      acknowledged, any other one is dropped. */
  lemma ServerStep(j: Joint, e: S.Event, n: int, p: string)
    requires Inv(j, p) && Allowed(j, AtServer(e, n), p)
    ensures ServerOk(After(j, AtServer(e, n), p), p)
    ensures L.Reliable(e, p) ==>
      1 <= n <= |j.history.issued|
      && S.Step(j.server, e).1 ==
           if Fresh(j.highest, n)
           then {S.Sync(e.syncId, (|j.taken| + 1) % MODULO), S.Ack(e.from, n % MODULO)} else {}
  {
    hide L.Inv, S.Handle, Unambiguous, C.Inv, AllAccounted, TakenOk;
    L.StepKeeps(j.server, e);
    if L.Reliable(e, p) {
      if !Stale(j.highest, n) { OnlyStaleIsAmbiguous(j, n, p); }
      ClientFacts(j.client, j.history);
      assert C.Carries(j.history.issued[n - 1], n);
      L.RequestStep(j.server, e, n, p, j.highest, 1 + |j.taken|);
    } else {
      L.OthersKeepSeqs(j.server, e, p);
    }
  }

  /** The server takes and acknowledges exactly the fresh copies. */
  lemma ServerKeeps(j: Joint, e: S.Event, n: int, p: string)
    requires Inv(j, p) && Allowed(j, AtServer(e, n), p)
    ensures Inv(After(j, AtServer(e, n), p), p)
    ensures var j1 := After(j, AtServer(e, n), p);
      j1.history == j.history && j1.client == j.client && j1.highest >= j.highest
      && (j1.taken == j.taken || (j1.taken == j.taken + [n] && n > j.highest))
  {
    hide C.Inv, AllAccounted, Unambiguous, L.Inv, Increasing, S.Step;
    ServerStep(j, e, n, p);
    if L.Reliable(e, p) && Fresh(j.highest, n) {
      assert S.Ack(e.from, n % MODULO) in S.Step(j.server, e).1;
      TakenGrows(|j.history.issued|, j.highest, j.taken, j.acked, n);
      AccountedMore(|j.history.issued|, j.history.pending, j.taken, n);
    }
  }

  // ---------------------------------------------------------------- every run

  /** The action of the client that a move is. */
  function ActionOf(m: Move): M.Action
    requires !m.AtServer?
  {
    if m.AtClient? then m.action else M.Receive(M.Ack(m.n % MODULO), m.now)
  }

  lemma MoveKeeps(j: Joint, m: Move, p: string)
    requires Inv(j, p) && Allowed(j, m, p)
    ensures Inv(After(j, m, p), p)
  {
    hide Inv, S.Step, M.Act, C.Note, LosesNothing;
    if m.AtServer? {
      ServerKeeps(j, m.event, m.n, p);
    } else if IsAnswer(ActionOf(m)) {
      AnswerKeeps(j, ActionOf(m), p);
    } else {
      OtherKeeps(j, ActionOf(m), p);
    }
  }

  lemma {:induction false} RunKeeps(j: Joint, ms: seq<Move>, p: string)
    requires Inv(j, p) && CanRun(j, ms, p)
    ensures Inv(Run(j, ms, p), p)
    decreases ms
  {
    if ms != [] {
      hide Inv, Allowed, After;
      MoveKeeps(j, ms[0], p);
      RunKeeps(After(j, ms[0], p), ms[1..], p);
    }
  }

  /** A running session at which the player has sent no reliable request yet. */
  ghost predicate Ready(server: S.Session, p: string) {
    L.Inv(server) && server.phase == S.Running && !server.stopped && L.Tracks(server, p, 0, 1)
  }

  function Begin(name: string, server: S.Session): Joint {
    Joint(M.Fresh(name), C.Start(), server, 0, [], {})
  }

  lemma BeginHolds(name: string, server: S.Session, p: string)
    requires Ready(server, p)
    ensures Inv(Begin(name, server), p)
  {
  }

  /** In every joint run each request that the client issued and no longer waits for was taken by the
      server, so its sync was scheduled. */
  lemma GoneMeansTaken(name: string, server: S.Session, ms: seq<Move>, p: string, n: int)
    requires Ready(server, p) && CanRun(Begin(name, server), ms, p)
    requires 1 <= n <= |Run(Begin(name, server), ms, p).history.issued|
    ensures var j := Run(Begin(name, server), ms, p);
      && Increasing(j.taken)
      && (n !in j.history.pending ==> n in j.taken)
      && (n in j.taken <==> n in j.acked)
  {
    hide C.Inv, Run, CanRun, Ready;
    BeginHolds(name, server, p);
    RunKeeps(Begin(name, server), ms, p);
  }

  // ---------------------------------------------------------------- what loses nothing

  /** A sync whose index takes no entry out at all. */
  lemma IdleSyncLosesNothing(j: Joint, seqIdx: int, p: string)
    requires Inv(j, p) && !C.TakesOut(j.client, seqIdx)
    ensures LosesNothing(j, seqIdx)
  {
    hide C.Inv;
    ClientFacts(j.client, j.history);
    var i := C.Place(j.client.queue, seqIdx);
    if i < |j.client.queue| { assert j.client.queue[i].seqIdx == seqIdx; }
  }

  /** An acknowledgement or a sync that carries the index of a request taken, if no other pending request has
      the same index; in particular if all pending ones are less than 1024 from it. */
  lemma OwnIndexLosesNothing(j: Joint, n: int, p: string)
    requires Inv(j, p) && n in j.taken && forall k | k in j.history.pending :: C.SameIndex(k, n) ==> k == n
    ensures LosesNothing(j, n % MODULO)
  {
    hide C.Inv, C.SameIndex;
    ClientFacts(j.client, j.history);
    var i := C.Place(j.client.queue, n % MODULO);
    if i < |j.history.pending| {
      C.HoldsIndex(j.client, j.history, i);
      C.SameIndexMeans(j.history.pending[i], n);
      assert j.history.pending[i] in j.history.pending;
    }
  }

  lemma NearIndexLosesNothing(j: Joint, n: int, p: string)
    requires Inv(j, p) && n in j.taken && forall k | k in j.history.pending :: -MODULO < k - n < MODULO
    ensures LosesNothing(j, n % MODULO)
  {
    forall k | k in j.history.pending && C.SameIndex(k, n) ensures k == n {
      assert -MODULO < k - n < MODULO;
    }
    OwnIndexLosesNothing(j, n, p);
  }

  // ---------------------------------------------------------------- the overtaken

  /** The request was issued and is behind the highest index taken, but was not taken itself. */
  predicate Overtaken(j: Joint, n: int) {
    1 <= n <= |j.history.issued| && n <= j.highest && n !in j.taken
  }

  /** Taking a later request overtakes every earlier one that was not taken before. */
  lemma TakingOvertakes(j: Joint, e: S.Event, n: int, p: string, earlier: int)
    requires Inv(j, p) && Allowed(j, AtServer(e, n), p) && L.Reliable(e, p) && Fresh(j.highest, n)
    requires 1 <= earlier < n && earlier !in j.taken
    ensures Overtaken(After(j, AtServer(e, n), p), earlier)
  {
    hide Inv, S.Step, Unambiguous;
  }

  lemma OvertakenStays(j: Joint, m: Move, p: string, n: int)
    requires Inv(j, p) && Allowed(j, m, p) && Overtaken(j, n)
    ensures Overtaken(After(j, m, p), n)
  {
    hide Inv, S.Step, M.Act, C.Note, LosesNothing;
    if m.AtServer? {
      ServerKeeps(j, m.event, m.n, p);
    } else if IsAnswer(ActionOf(m)) {
      AnswerKeeps(j, ActionOf(m), p);
    } else {
      OtherKeeps(j, ActionOf(m), p);
    }
  }

  /** An overtaken request is never taken, hence never acknowledged, and stays queued for good: it is sent
      again and again in vain. */
  lemma {:induction false} OvertakenForGood(j: Joint, ms: seq<Move>, p: string, n: int)
    requires Inv(j, p) && CanRun(j, ms, p) && Overtaken(j, n)
    ensures var j1 := Run(j, ms, p);
      Overtaken(j1, n) && n in j1.history.pending && n !in j1.acked
    decreases ms
  {
    hide Allowed, After, C.Inv, ServerOk;
    if ms != [] {
      MoveKeeps(j, ms[0], p);
      OvertakenStays(j, ms[0], p, n);
      OvertakenForGood(After(j, ms[0], p), ms[1..], p, n);
    }
  }

  function AllOvertaken(j: Joint): set<int> {
    set n | n in j.history.pending && Overtaken(j, n)
  }

  lemma NewestIsNotOvertaken(j: Joint, p: string)
    requires Inv(j, p)
    ensures !Overtaken(j, |j.history.issued|)
  {
    hide C.Inv, ServerOk, AllAccounted;
  }

  /** The newest request is never overtaken, and a full queue holds it: so at most 31 requests of the queue
      are. */
  lemma AtMost31Overtaken(j: Joint, p: string)
    requires Inv(j, p)
    ensures |AllOvertaken(j)| <= M.BUFFER_SIZE - 1
    ensures |j.history.pending| == M.BUFFER_SIZE ==> |j.history.issued| in j.history.pending
  {
    hide C.Inv, ServerOk, AllAccounted, TakenOk, Overtaken;
    var pending := j.history.pending;
    NewestIsNotOvertaken(j, p);
    ClientFacts(j.client, j.history);
    var older := if |pending| == M.BUFFER_SIZE then pending[..M.BUFFER_SIZE - 1] else pending;
    forall n | n in AllOvertaken(j) ensures n in Elements(older) {
      var i :| 0 <= i < |pending| && pending[i] == n;
      assert i < |older| && older[i] == n;
    }
    SubsetSize(AllOvertaken(j), Elements(older));
    ElementsSize(older);
  }

  /** The same in every joint run. */
  lemma NeverAllOvertaken(name: string, server: S.Session, ms: seq<Move>, p: string)
    requires Ready(server, p) && CanRun(Begin(name, server), ms, p)
    ensures var j := Run(Begin(name, server), ms, p);
      && |AllOvertaken(j)| <= M.BUFFER_SIZE - 1
      && !Overtaken(j, |j.history.issued|)
      && (|j.history.pending| == M.BUFFER_SIZE ==> |j.history.issued| in j.history.pending)
  {
    hide Inv, Run, CanRun, Ready, Overtaken, AllOvertaken;
    BeginHolds(name, server, p);
    RunKeeps(Begin(name, server), ms, p);
    AtMost31Overtaken(Run(Begin(name, server), ms, p), p);
    NewestIsNotOvertaken(Run(Begin(name, server), ms, p), p);
  }

  // ---------------------------------------------------------------- a blocked client

  /** The queue is full of requests that the server will never acknowledge again: overtaken or taken. */
  predicate Blocked(j: Joint) {
    |j.history.pending| == M.BUFFER_SIZE && forall n | n in j.history.pending :: Overtaken(j, n) || n in j.taken
  }

  /** The requests that wait although the server took them. */
  function Lost(j: Joint): set<int> {
    set n | n in j.history.pending && n in j.taken
  }

  /** The move brings no acknowledgement and no sync with the index of one of these requests. */
  predicate Silent(m: Move, waiting: set<int>) {
    && (m.AckArrives? ==> forall n | n in waiting :: n % MODULO != m.n % MODULO)
    && (m.AtClient? && SyncIndex(m.action).Some? ==>
          forall n | n in waiting :: n % MODULO != SyncIndex(m.action).value)
  }

  /** A datagram that loses nothing and has the index of no request that waits although it was taken takes
      nothing out. */
  lemma SilentTakesNothing(j: Joint, a: M.Action, p: string)
    requires Inv(j, p) && IsAnswer(a) && LosesNothing(j, a.datagram.seqIdx)
    requires forall n | n in Lost(j) :: n % MODULO != a.datagram.seqIdx
    ensures C.Note(j.client, j.history, a).pending == j.history.pending
  {
    hide C.Inv, C.Note, AllAccounted, Increasing, ServerOk, Without;
    ClientFacts(j.client, j.history);
    C.PendingAfter(j.client, j.history, a.datagram, a.now);
    var i := C.Place(j.client.queue, a.datagram.seqIdx);
    C.WithoutIsShorter(j.history.pending, i);
    if i < |j.history.pending| {
      C.HoldsIndex(j.client, j.history, i);
      var n := j.history.pending[i];
      assert n in j.history.pending && n % MODULO == a.datagram.seqIdx;
      assert n !in Lost(j);
    }
  }

  lemma BlockedStays(j: Joint, m: Move, p: string)
    requires Inv(j, p) && Allowed(j, m, p) && Blocked(j) && Silent(m, Lost(j))
    ensures var j1 := After(j, m, p);
      Inv(j1, p) && Blocked(j1) && Lost(j1) == Lost(j)
  {
    hide C.Inv, S.Step, M.Act, C.Note, LosesNothing, AllAccounted, Increasing, ServerOk, Overtaken;
    var j1 := After(j, m, p);
    MoveKeeps(j, m, p);
    forall n | n in j.history.pending && Overtaken(j, n) ensures Overtaken(j1, n) { OvertakenStays(j, m, p, n); }
    if m.AtServer? {
      ServerKeeps(j, m.event, m.n, p);
    } else if IsAnswer(ActionOf(m)) {
      SilentTakesNothing(j, ActionOf(m), p);
    } else {
      OtherKeeps(j, ActionOf(m), p);
    }
    assert j1.history.pending == j.history.pending;
    SameLost(j, j1);
  }

  lemma SameLost(j: Joint, j1: Joint)
    requires j1.history.pending == j.history.pending && forall n | n in j.taken :: n in j1.taken
    requires forall n | n in j.history.pending && n !in j.taken :: Overtaken(j1, n)
    ensures Lost(j1) == Lost(j)
  {
    forall n | n in j.history.pending ensures n in j1.taken <==> n in j.taken {
      if n !in j.taken { assert Overtaken(j1, n); }
    }
    assert forall n :: n in Lost(j1) <==> n in Lost(j);
  }

  /** Once the queue is full of overtaken and taken requests, and as long as no acknowledgement and no sync with
      the index of one of the taken ones arrives, every reliable request is refused, whatever else happens. */
  lemma {:induction false} BlockedForGood(j: Joint, ms: seq<Move>, p: string, syncId: int, delay: int, now: int)
    requires Inv(j, p) && CanRun(j, ms, p) && Blocked(j) && forall i | 0 <= i < |ms| :: Silent(ms[i], Lost(j))
    ensures var c := Run(j, ms, p).client;
      |c.queue| == M.BUFFER_SIZE && M.ReliableSync(c, syncId, delay, now) == (c, None)
    decreases ms
  {
    if ms == [] {
      ClientFacts(j.client, j.history);
    } else {
      hide Inv, Allowed, After, Blocked, Lost, Silent;
      assert Silent(ms[0], Lost(j));
      BlockedStays(j, ms[0], p);
      forall i | 0 <= i < |ms[1..]| ensures Silent(ms[1..][i], Lost(j)) { assert ms[1..][i] == ms[i + 1]; }
      BlockedForGood(After(j, ms[0], p), ms[1..], p, syncId, delay, now);
    }
  }

  // ---------------------------------------------------------------- the own syncs

  /** The requests before `n` that were not taken. */
  function Skipped(taken: seq<int>, n: int): set<int> {
    set m | 1 <= m < n && m !in taken
  }

  /** The k-th request taken goes out as the sync with index k modulo 1024, to the client that issued it too.
      That is the request's own index exactly when the number of requests skipped before it is a multiple of
      1024. */
  lemma OwnSyncIndex(j: Joint, p: string, k: nat)
    requires Inv(j, p) && 1 <= k <= |j.taken|
    ensures |Skipped(j.taken, j.taken[k - 1])| == j.taken[k - 1] - k
    ensures C.SameIndex(k, j.taken[k - 1]) <==> |Skipped(j.taken, j.taken[k - 1])| % MODULO == 0
  {
    hide C.Inv, ServerOk, AllAccounted, Skipped, Increasing;
    assert j.taken[k - 1] in j.taken;
    SkippedSize(j.taken, k);
  }

  lemma FirstTaken(taken: seq<int>, k: nat, m: int)
    requires Increasing(taken) && 1 <= k <= |taken|
    ensures m in taken[..k] <==> m in taken && m <= taken[k - 1]
  {
    if m in taken {
      var i :| 0 <= i < |taken| && taken[i] == m;
      if i < k { assert taken[..k][i] == m; }
    }
  }

  lemma SkippedSize(taken: seq<int>, k: nat)
    requires Increasing(taken) && 1 <= k <= |taken| && forall n | n in taken :: n >= 1
    ensures |Skipped(taken, taken[k - 1])| == taken[k - 1] - k
  {
    var n, first, skipped := taken[k - 1], taken[..k], Skipped(taken, taken[k - 1]);
    assert n in taken;
    FirstIncreasing(taken, k);
    ElementsSize(first);
    hide Increasing;
    forall m ensures m in Between(0, n) <==> m in Elements(first) + skipped { FirstTaken(taken, k, m); }
    assert Between(0, n) == Elements(first) + skipped;
    forall m ensures !(m in Elements(first) && m in skipped) { FirstTaken(taken, k, m); }
    assert Elements(first) !! skipped;
  }

  lemma FirstIncreasing(taken: seq<int>, k: nat)
    requires Increasing(taken) && k <= |taken|
    ensures Increasing(taken[..k])
  {
  }

  /** So while nothing is overtaken the own sync of a request loses nothing, if no other pending request has its
      index. */
  lemma OwnSyncLosesNothing(j: Joint, p: string, k: nat)
    requires Inv(j, p) && 1 <= k <= |j.taken| && Skipped(j.taken, j.taken[k - 1]) == {}
    requires forall m | m in j.history.pending :: C.SameIndex(m, k) ==> m == k
    ensures j.taken[k - 1] == k && LosesNothing(j, k % MODULO)
  {
    hide Inv, LosesNothing, C.SameIndex, Skipped;
    OwnSyncIndex(j, p, k);
    assert k in j.taken;
    OwnIndexLosesNothing(j, k, p);
  }

  /** Once the acknowledgement of such a request is accepted, its own sync no longer reaches the client's
      application, until the stored index has moved on by more than 992. */
  lemma AckHidesOwnSync(j: Joint, p: string, k: nat, steps: int, syncId: int)
    requires Inv(j, p) && 1 <= k <= |j.taken| && Skipped(j.taken, j.taken[k - 1]) == {}
    requires 0 <= steps <= MODULO - HISTORY && j.client.window.remote == (j.taken[k - 1] + steps) % MODULO
    ensures M.Synced(j.client, M.Sync(k % MODULO, syncId)) == []
  {
    hide C.QueueOk, ServerOk, AllAccounted, Skipped, M.Synced;
    OwnSyncIndex(j, p, k);
    C.AckHidesSync(j.client, k, steps, syncId);
  }
}
