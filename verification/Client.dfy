/** The client's session as it works, with fields updated in place. */
module Client {
  import opened Wrappers
  import opened SequenceWindow
  import M = ClientModel

  class Session {
    const playerName: string
    var started: bool
    var localSeqIdx: int
    var remoteSeqIdx: int
    var previousIdxBits: int
    var outputQueue: seq<M.MsgInfo>
    var timeShift: int
    var lastTimestamp: int
    var lastSyncTime: int
    var lastPing: int
    var clockSyncId: int

    /** The state of the model that the fields stand for. */
    function Abs(): M.Client
      reads this
    {
      M.Client(playerName, started, localSeqIdx, Window(remoteSeqIdx, previousIdxBits), outputQueue,
               timeShift, lastTimestamp, lastSyncTime, lastPing, clockSyncId)
    }

    constructor (playerName: string)
      ensures Abs() == M.Fresh(playerName)
    {
      this.playerName := playerName;
      started := false;
      localSeqIdx, remoteSeqIdx, previousIdxBits, outputQueue := 1, 0, 0, [];
      timeShift, lastTimestamp, lastSyncTime, lastPing, clockSyncId := 0, 0, 0, 0, 0;
    }

    /** `getNextSeqIdx` */
    method GetNextSeqIdx() returns (idx: int)
      modifies this`localSeqIdx
      ensures idx == old(localSeqIdx) && localSeqIdx == Next(idx)
    {
      idx := localSeqIdx;
      localSeqIdx := if localSeqIdx < MODULO - 1 then localSeqIdx + 1 else 0;
    }

    /** `sendClockSync` */
    method SendClockSync(now: int) returns (sent: M.Wire)
      modifies this`clockSyncId
      ensures (Abs(), sent) == M.SendClockSync(old(Abs()), now)
    {
      clockSyncId := if clockSyncId < 254 then clockSyncId + 1 else 0;
      sent := M.ClockRequest(clockSyncId, now + timeShift);
    }

    /** The end of `startup` */
    method Startup(now: int) returns (sent: M.Wire)
      modifies this
      ensures (Abs(), sent) == M.Startup(old(Abs()), now)
    {
      started := true;
      sent := SendClockSync(now);
      lastTimestamp := now + timeShift;
    }

    /** `sync`: on a session that was not started it raises an exception. */
    method Sync(syncId: int, delay: int, reliable: bool, now: int) returns (thrown: bool, ok: bool, sent: seq<M.Wire>)
      modifies this`localSeqIdx, this`outputQueue
      ensures thrown <==> !started
      ensures thrown || !reliable ==> Abs() == old(Abs())
      ensures ok && reliable ==> sent == [M.SyncRequest(syncId, delay, old(localSeqIdx))]
      ensures !thrown && reliable ==> (ok <==> |old(outputQueue)| < 32)
      ensures !thrown && !reliable ==> ok && sent == [M.SyncRequest(syncId, delay, MODULO + 1)]
      ensures !thrown && reliable ==>
        var (c, w) := M.ReliableSync(old(Abs()), syncId, delay, now);
        Abs() == c && (if ok then w.Some? && sent == [w.value] else w.None? && sent == [])
    {
      thrown, ok, sent := false, false, [];
      if !started {
        thrown := true;
        return;
      }
      if reliable {
        if |outputQueue| >= M.BUFFER_SIZE {
          return;
        }
        var seqIdx := GetNextSeqIdx();
        var message := M.SyncRequest(syncId, delay, seqIdx);
        outputQueue := outputQueue + [M.MsgInfo(seqIdx, now + timeShift, message)];
        sent := [message];
      } else {
        sent := [M.SyncRequest(syncId, delay, MODULO + 1)];
      }
      ok := true;
    }

    /** `quit` */
    method Quit() returns (sent: seq<M.Wire>)
      modifies this`started
      ensures (Abs(), sent) == M.Act(old(Abs()), M.Leave)
    {
      sent := [];
      if started {
        sent := [M.QuitNotice(playerName)];
        started := false;
      }
    }

    /** `removeAcknowledged` */
    method RemoveAcknowledged(ackIdx: int)
      modifies this`outputQueue
      ensures outputQueue == M.RemoveAcknowledged(old(outputQueue), ackIdx)
    {
      var idx := 0;
      while idx < |outputQueue| && outputQueue[idx].seqIdx != ackIdx
        invariant 0 <= idx <= |outputQueue|
        invariant M.RemoveAcknowledged(outputQueue, ackIdx)
               == outputQueue[..idx] + M.RemoveAcknowledged(outputQueue[idx..], ackIdx)
      {
        assert outputQueue[idx..][1..] == outputQueue[idx + 1..];
        assert outputQueue[..idx + 1] == outputQueue[..idx] + [outputQueue[idx]];
        idx := idx + 1;
      }
      if idx < |outputQueue| {
        assert outputQueue[idx..][1..] == outputQueue[idx + 1..];
        outputQueue := outputQueue[..idx] + outputQueue[idx + 1..];
      } else {
        assert outputQueue[..idx] == outputQueue;
      }
    }

    /** `checkAcknowledgement` */
    method CheckAcknowledgement(ackIdx: int) returns (ok: bool)
      modifies this`outputQueue, this`remoteSeqIdx, this`previousIdxBits
      ensures (ok, Abs()) == M.CheckAcknowledgement(old(Abs()), ackIdx)
    {
      if ackIdx == remoteSeqIdx {
        return false;
      }
      if ackIdx > remoteSeqIdx && ackIdx - remoteSeqIdx < HISTORY {
        RemoveAcknowledged(ackIdx);
        previousIdxBits := ShiftLeft(previousIdxBits, ackIdx - remoteSeqIdx, M.MASK_WIDTH);
        remoteSeqIdx := ackIdx;
        return true;
      }
      if MODULO + ackIdx > remoteSeqIdx && MODULO + ackIdx - remoteSeqIdx < HISTORY {
        RemoveAcknowledged(ackIdx);
        previousIdxBits := ShiftLeft(previousIdxBits, MODULO + ackIdx - remoteSeqIdx, M.MASK_WIDTH);
        remoteSeqIdx := ackIdx;
        return true;
      }
      return false; // the fourth branch repeats the second guard and is never reached
    }

    /** `updatePing` */
    method UpdatePing(timestamp: int, now: int)
      modifies this`lastPing
      ensures Abs() == M.UpdatePing(old(Abs()), timestamp, now)
      ensures var sample := timestamp - (now + timeShift);
        if lastSyncTime > 0 && sample > 0
        then old(lastPing) <= lastPing <= sample || sample <= lastPing <= old(lastPing)
        else lastPing == old(lastPing)
    {
      if lastSyncTime > 0 {
        var currTime := now + timeShift;
        if timestamp > currTime {
          lastPing := (lastPing + (timestamp - currTime)) / 2;
        }
      }
    }

    /** The dispatch of `receive` for one datagram of a known type. */
    method OnDatagram(d: M.Datagram, now: int) returns (synced: seq<int>)
      requires !d.Unknown?
      modifies this
      ensures started == (old(started) && d != M.Quit(playerName))
      ensures lastTimestamp == now + timeShift
      ensures Abs() == M.OnDatagram(old(Abs()), d, now)
      ensures synced == M.Synced(old(Abs()), d)
    {
      synced := [];
      match d {
        case Sync(seqIdx, syncId) =>
          var ok := seqIdx >= MODULO;
          if !ok {
            ok := CheckAcknowledgement(seqIdx);
          }
          if ok {
            synced := [syncId];
          }
        case KeepAlive(timestamp) =>
          if timestamp.Some? && lastSyncTime > 0 {
            UpdatePing(timestamp.value, now);
          }
        case Ack(ackIdx) =>
          var _ := CheckAcknowledgement(ackIdx);
        case ClockSync(id, times) =>
          if clockSyncId == id && times.Some? {
            var currTime, requestTime := now + timeShift, times.value.0;
            lastSyncTime := currTime;
            lastPing := M.HalfTrip(currTime, requestTime);
            timeShift := timeShift + times.value.1 - requestTime - lastPing;
          }
        case Quit(player) =>
          if player == playerName {
            started := false;
          }
        case _ =>
      }
      lastTimestamp := now + timeShift;
    }

    /** The loop of `receive` over the datagrams that have arrived. */
    method ReceiveLoop(inbox: seq<M.Arrival>, limit: nat)
      returns (counter: nat, unread: seq<M.Arrival>, thrown: bool, synced: seq<int>)
      modifies this
      ensures M.Loop(Abs(), counter, unread, thrown, synced) == M.ReceiveLoop(old(Abs()), inbox, limit, 0)
    {
      hide M.OnDatagram, M.Synced;
      counter, unread, thrown, synced := 0, inbox, false, [];
      ghost var all := M.ReceiveLoop(Abs(), inbox, limit, 0);
      assert [] + all.synced == all.synced;
      while started && counter < limit && unread != []
        invariant var rest := M.ReceiveLoop(Abs(), unread, limit, counter);
          all == rest.(synced := synced + rest.synced)
        decreases |unread|
      {
        ghost var here, before := Abs(), synced;
        ghost var first := unread[0];
        var a := unread[0];
        counter, unread := counter + 1, unread[1..];
        if a.datagram.Unknown? {
          thrown := true;
          assert synced + [] == synced;
          return;
        }
        var ids := OnDatagram(a.datagram, a.now);
        synced := synced + ids;
        if a.datagram.KeepAlive? {
          counter := counter - 1;
        }
        ghost var left := M.ReceiveLoop(Abs(), unread, limit, counter);
        assert before + (M.Synced(here, first.datagram) + left.synced) == synced + left.synced;
      }
      assert synced + [] == synced;
    }

    /** The resending loop of `receive` */
    method Resend(currentTime: int) returns (sent: seq<M.Wire>)
      modifies this`outputQueue
      ensures outputQueue == M.Resent(old(outputQueue), currentTime)
      ensures sent == M.Resends(old(outputQueue), currentTime)
    {
      hide M.Resends, M.Resent;
      sent := [];
      var idx := 0;
      ghost var queue := outputQueue;
      assert queue[0..] == queue;
      while idx < |outputQueue|
        invariant 0 <= idx <= |outputQueue| == |queue|
        invariant forall j | 0 <= j < idx :: outputQueue[j] == M.Refreshed(queue[j], currentTime)
        invariant forall j | idx <= j < |queue| :: outputQueue[j] == queue[j]
        invariant M.Resends(queue, currentTime) == sent + M.Resends(queue[idx..], currentTime)
      {
        var msg := outputQueue[idx];
        M.ResendsFrom(queue, idx, currentTime);
        if currentTime > msg.sentTime + M.RESEND_INTERVAL {
          sent := sent + [msg.data];
          outputQueue := outputQueue[idx := msg.(sentTime := currentTime)];
        }
        idx := idx + 1;
      }
      M.ResendsNone(queue[idx..], currentTime);
      assert outputQueue == M.Resent(queue, currentTime);
    }

    /** `receive` */
    method Receive(inbox: seq<M.Arrival>, limit: nat, now: int)
      returns (counter: nat, unread: seq<M.Arrival>, thrown: bool, sent: seq<M.Wire>, synced: seq<int>)
      modifies this
      ensures var loop := M.ReceiveLoop(old(Abs()), inbox, limit, 0);
        && counter == loop.counter && unread == loop.unread && thrown == loop.thrown && synced == loop.synced
        && (if thrown then Abs() == loop.client && sent == [] else (Abs(), sent) == M.Finish(loop.client, now))
    {
      sent := [];
      counter, unread, thrown, synced := ReceiveLoop(inbox, limit);
      if thrown { return; }
      var currentTime := now + timeShift;
      if started {
        if currentTime > lastTimestamp + M.KEEP_ALIVE_LIMIT {
          started := false;
        }
      }
      if started {
        sent := Resend(currentTime);
        if currentTime > lastSyncTime + M.CLOCK_SYNC_TIMEOUT {
          var request := SendClockSync(now);
          sent := sent + [request];
        }
      }
    }
  }
}
