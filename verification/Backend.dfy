/** The backend as it works: the session array and the free-id stack, updated in place. */
module Backend {
  import opened Wrappers
  import opened SessionModel
  import B = BackendModel

  class Backend {
    const sessions: array<Option<B.SessionInfo>>
    var freeSessions: seq<int>

    /** The table of the model that the fields stand for. */
    ghost function Abs(): B.Table
      reads this, sessions
    {
      B.Table(sessions[..], freeSessions)
    }

    constructor ()
      ensures Abs() == B.EmptyTable() && B.TableInv(Abs()) && fresh(sessions)
    {
      sessions := new Option<B.SessionInfo>[B.MAX_SESSIONS](_ => None);
      freeSessions := seq(B.MAX_SESSIONS, i => i);
      new;
      assert sessions[..] == B.EmptyTable().slots;
      B.EmptyTableHolds();
    }

    /** `CreateSession`, given the actor that was created for it */
    method CreateSession(name: string, handler: nat) returns (id: int)
      requires B.TableInv(Abs())
      modifies this`freeSessions, sessions
      ensures B.TableInv(old(Abs())) && (Abs(), id) == B.Create(old(Abs()), name, handler)
      ensures B.TableInv(Abs())
    {
      B.CreateKeeps(Abs(), name, handler);
      id := -1;
      if freeSessions != [] {
        id := freeSessions[0];
        freeSessions := freeSessions[1..];
      }
      if id >= 0 {
        sessions[id] := Some(B.SessionInfo(id, name, handler));
        assert sessions[..] == old(sessions[..])[id := Some(B.SessionInfo(id, name, handler))];
      }
    }

    /** `CloseSession` */
    method CloseSession(id: int)
      requires B.TableInv(Abs()) && 0 <= id < B.MAX_SESSIONS
      modifies this`freeSessions, sessions
      ensures Abs() == B.Close(old(Abs()), id) && B.TableInv(Abs())
    {
      B.CloseKeeps(Abs(), id);
      if sessions[id].Some? {
        sessions[id] := None;
        assert sessions[..] == old(sessions[..])[id := None];
        freeSessions := [id] + freeSessions;
      }
    }

    /** `Envelop`: a message goes to the session in the addressed slot; an address outside the array
        raises an exception, which is answered. */
    method Envelop(sessionId: int) returns (handler: Option<nat>, refused: bool)
      requires B.TableInv(Abs())
      ensures refused <==> !(0 <= sessionId < B.MAX_SESSIONS)
      ensures handler.Some? <==> !refused && sessionId !in freeSessions
      ensures handler.Some? ==>
        exists name :: Abs().slots[sessionId] == Some(B.SessionInfo(sessionId, name, handler.value))
    {
      handler, refused := None, false;
      if !(0 <= sessionId < sessions.Length) {
        return None, true;
      }
      assert Abs().slots[sessionId].None? <==> sessionId in freeSessions;
      if sessions[sessionId].Some? {
        handler := Some(sessions[sessionId].value.handler);
        assert Abs().slots[sessionId] == Some(B.SessionInfo(sessionId, sessions[sessionId].value.name, handler.value));
      }
    }
  }
}
