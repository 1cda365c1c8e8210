/** Where the reliable requests of a client stop being reliable: runs that show the limits of what
    ClientLaws states. */
module ClientLimits {
  import opened SequenceWindow
  import opened Sequences
  import opened ClientModel
  import opened ClientLaws

  /** A request of another player, delivered under the index of an own request that the server has not
      acknowledged, takes that request out of the queue: leaving the queue does not mean that the
      server has it. `ClientLaws.LeavesExactly` says exactly when this happens, and
      `ClosedLoop.GoneMeansTaken` what holds of all runs in which it does not. */
  lemma SyncLooksLikeAck(name: string, syncId: int, delay: int, now: int, other: int)
    ensures var c := Run(ClientModel.Fresh(name), [Begin(now), Request(syncId, delay, now)]);
      |c.queue| == 1 && Act(c, Receive(Sync(1, other), now)).0.queue == []
  {
    var fresh' := ClientModel.Fresh(name);
    var begun := Act(fresh', Begin(now)).0;
    var asked := Act(begun, Request(syncId, delay, now)).0;
    RunFirst(fresh', Begin(now), [Request(syncId, delay, now)]);
    RunFirst(begun, Request(syncId, delay, now), []);
    assert [Request(syncId, delay, now)] + [] == [Request(syncId, delay, now)];
    assert [Begin(now)] + [Request(syncId, delay, now)] == [Begin(now), Request(syncId, delay, now)];
    AcceptedExactly(asked.window, 1, MASK_WIDTH);
  }

  /** `k` requests from the index `from` on, each acknowledged at once. */
  function Exchanges(from: int, k: nat): seq<Action>
    decreases k
  {
    if k == 0 then []
    else [Request(0, 0, 0)] + ([Receive(Ack(from % MODULO), 0)] + Exchanges(from + 1, k - 1))
  }

  /** One request is waiting, `from` is the next index and the last acknowledgement is 1 or 2 behind. */
  predicate Waits(c: Client, m: MsgInfo, from: int, acked: int) {
    c.started && c.queue == [m] && c.local == from % MODULO && c.window == Window(acked % MODULO, 0)
  }

  lemma SecondRemoved(m: MsgInfo, e: MsgInfo)
    requires m.seqIdx != e.seqIdx
    ensures RemoveAcknowledged([m, e], e.seqIdx) == [m]
  {
    assert [m, e][1..] == [e] && [e][1..] == [];
    assert RemoveAcknowledged([e], e.seqIdx) == [];
  }

  lemma ExchangeOnce(c: Client, m: MsgInfo, from: int, acked: int)
    requires Waits(c, m, from, acked) && 1 <= from - acked <= 2 && m.seqIdx != from % MODULO
    ensures var c1 := Act(c, Request(0, 0, 0)).0;
      Waits(Act(c1, Receive(Ack(from % MODULO), 0)).0, m, from + 1, from)
  {
    hide Check, Unambiguous, Place, Without, RemoveAcknowledged;
    var c1 := Act(c, Request(0, 0, 0)).0;
    FreshIsUnambiguous(acked, from);
    CheckIsFresh(acked, from, MASK_WIDTH);
    var e := MsgInfo(c.local, Synchronized(c, 0), SyncRequest(0, 0, c.local));
    assert c1.queue == [m, e];
    SecondRemoved(m, e);
  }

  lemma {:induction false} Exchanged(c: Client, m: MsgInfo, from: int, acked: int, k: nat)
    requires Waits(c, m, from, acked) && 1 <= from - acked <= 2
    requires forall n | from <= n < from + k :: n % MODULO != m.seqIdx
    ensures Waits(Run(c, Exchanges(from, k)), m, from + k, if k == 0 then acked else from + k - 1)
    decreases k
  {
    hide Waits, Act;
    if k > 0 {
      ExchangeOnce(c, m, from, acked);
      var c1 := Act(c, Request(0, 0, 0)).0;
      var c2 := Act(c1, Receive(Ack(from % MODULO), 0)).0;
      Exchanged(c2, m, from + 1, from, k - 1);
      RunFirst(c, Request(0, 0, 0), [Receive(Ack(from % MODULO), 0)] + Exchanges(from + 1, k - 1));
      RunFirst(c1, Receive(Ack(from % MODULO), 0), Exchanges(from + 1, k - 1));
    }
  }

  function LongWait(): seq<Action> {
    [Begin(0)] + ([Request(0, 0, 0)] + Exchanges(2, MODULO - 1))
  }

  lemma FirstWaits(name: string) returns (m: MsgInfo)
    ensures var asked := Act(Act(ClientModel.Fresh(name), Begin(0)).0, Request(0, 0, 0)).0;
      m.seqIdx == 1 && Waits(asked, m, 2, 0)
  {
    var begun := Act(ClientModel.Fresh(name), Begin(0)).0;
    m := MsgInfo(1, 0, SyncRequest(0, 0, 1));
    assert Act(begun, Request(0, 0, 0)).0.queue == [] + [m];
  }

  lemma AfterLongWait(name: string) returns (m: MsgInfo)
    ensures m.seqIdx == 1 && Waits(Run(ClientModel.Fresh(name), LongWait()), m, MODULO + 1, MODULO)
  {
    hide Act, Run, Exchanges, Waits;
    var begun := Act(ClientModel.Fresh(name), Begin(0)).0;
    var asked := Act(begun, Request(0, 0, 0)).0;
    m := FirstWaits(name);
    RunFirst(ClientModel.Fresh(name), Begin(0), [Request(0, 0, 0)] + Exchanges(2, MODULO - 1));
    RunFirst(begun, Request(0, 0, 0), Exchanges(2, MODULO - 1));
    Exchanged(asked, m, 2, 0, MODULO - 1);
  }

  /** The bound of 1024 is sharp. While the first request waits, 1023 others are acknowledged; the next
      one has the same index as the first, and the acknowledgement of the new one takes out the old. The exact
      condition is that of `ClientLaws.RemovesItsOwn`. */
  lemma LongWaitConfuses(name: string)
    ensures var c := Run(ClientModel.Fresh(name), LongWait());
      var c1 := Act(c, Request(0, 0, 0)).0;
      && |c1.queue| == 2 && c1.queue[0].seqIdx == c1.queue[1].seqIdx == 1
      && Act(c1, Receive(Ack(1), 0)).0.queue == [c1.queue[1]]
  {
    hide LongWait, Run;
    var m := AfterLongWait(name);
    var c := Run(ClientModel.Fresh(name), LongWait());
    var c1 := Act(c, Request(0, 0, 0)).0;
    assert c1.queue == [m] + [MsgInfo(1, Synchronized(c, 0), SyncRequest(0, 0, 1))];
    AcceptedExactly(c1.window, 1, MASK_WIDTH);
    assert RemoveAcknowledged(c1.queue, 1) == c1.queue[1..];
  }
}
