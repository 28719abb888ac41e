/**
 The hub and the agent client as the objects of the source.  Every method is
 proved to move its object's table exactly as the function of `RelaySpec` that
 the protocol steps through.
 */
module RelayObjects {
  import opened Prelude
  import Spec = RelaySpec

  type SessionId = Spec.SessionId

  datatype BrowserMessage = Raw(payload: string) | ExitNotice(retryable: bool)

  /** A browser's WebSocket; a write to a closed connection fails and leaves no trace. */
  class BrowserSocket {
    var open: bool
    var sent: seq<BrowserMessage>

    constructor ()
      ensures open && sent == []
    {
      open, sent := true, [];
    }

    method Write(message: BrowserMessage)
      modifies this`sent
      ensures sent == if open then old(sent) + [message] else old(sent)
    {
      if open {
        sent := sent + [message];
      }
    }

    method Close()
      modifies this`open
      ensures !open
    {
      open := false;
    }
  }

  datatype Outgoing = Open(id: SessionId) | Message(id: SessionId) | Close(id: SessionId)

  /** The hub's end of an agent connection; `open` is false once writes fail. */
  class AgentSocket {
    var open: bool
    var sent: seq<Outgoing>

    constructor ()
      ensures open && sent == []
    {
      open, sent := true, [];
    }

    method Write(envelope: Outgoing) returns (ok: bool)
      modifies this`sent
      ensures ok == open
      ensures sent == if ok then old(sent) + [envelope] else old(sent)
    {
      ok := open;
      if ok {
        sent := sent + [envelope];
      }
    }
  }

  datatype Incoming =
    | AgentMessage(id: SessionId, payload: string, valid: bool, retryable: bool)
    | AgentClose(id: SessionId, retryable: bool)
    | Unexpected

  class HostAgentHub {
    var agent: AgentSocket?
    var browsers: map<SessionId, BrowserSocket>

    ghost function View(): Spec.Hub<AgentSocket, BrowserSocket>
      reads this
    {
      var bound: Option<AgentSocket> := if agent == null then None else Some(agent);
      Spec.Hub(bound, browsers)
    }

    constructor ()
      ensures View() == Spec.Hub(None, map[])
    {
      agent, browsers := null, map[];
    }

    method AttachAgent(newcomer: AgentSocket) returns (accepted: bool)
      modifies this
      ensures accepted == (old(agent) == null)
      ensures agent == (if accepted then newcomer else old(agent)) && browsers == old(browsers)
      ensures View() == Spec.AttachAgent(old(View()), newcomer)
    {
      accepted := agent == null;
      if accepted {
        agent := newcomer;
      }
    }

    /** Clears the table, closes the connection and sends every bound browser away with a retryable exit. */
    method DetachAgent(leaving: AgentSocket)
      modifies this, leaving`open, browsers.Values
      ensures View() == Spec.DetachAgent(old(View()), leaving)
      ensures old(agent) != leaving ==> unchanged(this) && unchanged(leaving) && unchanged(old(browsers.Values))
      ensures old(agent) == leaving ==> agent == null && browsers == map[] && !leaving.open
      ensures old(agent) == leaving ==>
        forall b | b in old(browsers.Values) ::
          !b.open && b.sent == old(b.sent) + (if old(b.open) then [ExitNotice(true)] else [])
    {
      if agent != leaving {
        return;
      }
      agent := null;
      var remaining, bound := browsers.Keys, [];
      ghost var all := browsers;
      while remaining != {}
        invariant agent == null && remaining == browsers.Keys <= all.Keys
        invariant forall id | id in browsers :: browsers[id] == all[id]
        invariant forall b :: b in bound <==> exists id :: id in all && id !in browsers && all[id] == b
        invariant forall b | b in all.Values :: b.open == old(b.open) && b.sent == old(b.sent)
        decreases remaining
      {
        var id :| id in remaining;
        bound := bound + [browsers[id]];
        browsers, remaining := browsers - {id}, remaining - {id};
      }
      leaving.open := false;
      forall b ensures b in bound <==> b in all.Values {
        if b in all.Values {
          var id :| id in all && all[id] == b;
          assert id !in browsers;
        }
      }
      SendAway(bound);
    }

    /** Each browser gets a retryable exit and is closed; one that is already closed gets nothing. */
    static method SendAway(bound: seq<BrowserSocket>)
      modifies bound
      ensures forall b | b in bound ::
        !b.open && b.sent == old(b.sent) + (if old(b.open) then [ExitNotice(true)] else [])
    {
      for i := 0 to |bound|
        invariant forall k | 0 <= k < |bound| && bound[k] in bound[..i] ::
          !bound[k].open && bound[k].sent ==
            old(bound[k].sent) + (if old(bound[k].open) then [ExitNotice(true)] else [])
        invariant forall k | 0 <= k < |bound| && bound[k] !in bound[..i] ::
          bound[k].open == old(bound[k].open) && bound[k].sent == old(bound[k].sent)
      {
        assert bound[..i + 1] == bound[..i] + [bound[i]];
        bound[i].Write(ExitNotice(true));
        bound[i].Close();
      }
      assert bound[..|bound|] == bound;
    }

    method RegisterBrowser(id: SessionId, browser: BrowserSocket)
      returns (result: Result<AgentSocket, Spec.RegisterError>)
      modifies this
      ensures match Spec.RegisterBrowser(old(View()), id, browser)
        case Ok((hub, bound)) => result == Ok(bound) && View() == hub
        case Err(error) => result == Err(error) && View() == old(View())
      ensures result.Ok? <==> old(agent) != null && |old(browsers)| < 32
      ensures result.Ok? ==> result.value == agent && browsers == old(browsers)[id := browser]
      ensures result.Err? ==> browsers == old(browsers) && result.error.AgentOffline? == (agent == null)
      ensures agent == old(agent)
    {
      if agent == null {
        return Err(Spec.AgentOffline);
      }
      if |browsers| >= Spec.MAX_HUB_SESSIONS {
        return Err(Spec.TooManySessions);
      }
      browsers := browsers[id := browser];
      return Ok(agent);
    }

    /** The departing browser's entry goes first; only then is the close written, and a lost close detaches. */
    method UnregisterBrowser(id: SessionId, bound: AgentSocket)
      modifies this, bound, browsers.Values
      ensures bound.sent == if old(bound.open) then old(bound.sent) + [Close(id)] else old(bound.sent)
      ensures View() ==
        if old(bound.open) then Spec.UnregisterBrowser(old(View()), id)
        else Spec.DetachAgent(Spec.UnregisterBrowser(old(View()), id), bound)
      ensures id !in browsers && (old(bound.open) || agent != bound)
      ensures agent == old(agent) ==> browsers == old(browsers) - {id}
      ensures agent != old(agent) ==> !old(bound.open) && old(agent) == bound && agent == null && browsers == map[]
    {
      browsers := browsers - {id};
      var ok := bound.Write(Close(id));
      if !ok {
        DetachAgent(bound);
      }
    }

    /** A message goes to the one browser bound to its id; a close also ends that binding. */
    method RouteAgentEnvelope(source: AgentSocket, envelope: Incoming)
      modifies this, browsers.Values
      ensures envelope.AgentClose? ==> View() == Spec.RouteClose(old(View()), source, envelope.id)
      ensures agent == old(agent)
      ensures browsers ==
        if envelope.AgentClose? && old(agent) == source then old(browsers) - {envelope.id} else old(browsers)
      ensures envelope.Unexpected? || old(agent) != source || envelope.id !in old(browsers) ==>
        unchanged(old(browsers.Values))
      ensures !envelope.Unexpected? && old(agent) == source && envelope.id in old(browsers) ==>
        var b := old(browsers[envelope.id]);
        var passedOn := envelope.AgentMessage? && envelope.payload != "" && envelope.valid;
        var message := if passedOn then Raw(envelope.payload) else ExitNotice(envelope.retryable);
        && b.sent == old(b.sent) + (if old(b.open) then [message] else [])
        && b.open == (old(b.open) && passedOn)
        && forall other | other in old(browsers.Values) && other != b :: unchanged(other)
    {
      if envelope.Unexpected? {
        return;
      }
      if agent != source {
        return;
      }
      var browser: BrowserSocket? := if envelope.id in browsers then browsers[envelope.id] else null;
      if envelope.AgentClose? {
        browsers := browsers - {envelope.id};
      }
      if browser == null {
        return;
      }
      if envelope.AgentMessage? && envelope.payload != "" && envelope.valid {
        browser.Write(Raw(envelope.payload));
        return;
      }
      browser.Write(ExitNotice(envelope.retryable));
      browser.Close();
    }
  }

  /** A local PTY with its shell; `closeOnce` of the source is the `released` flag. */
  class LocalTerminalSession {
    const sessionID: SessionId
    var running: bool
    var released: bool

    constructor (id: SessionId)
      ensures sessionID == id && running && !released
    {
      sessionID, running, released := id, true, false;
    }

    method Close()
      modifies this
      ensures released && running == (old(released) && old(running))
    {
      if !released {
        released, running := true, false;
      }
    }
  }

  class AgentClient {
    var sessions: map<SessionId, LocalTerminalSession?>

    ghost function View(): Spec.Sessions<LocalTerminalSession>
      reads this
    {
      map id | id in sessions :: if sessions[id] == null then None else Some(sessions[id])
    }

    constructor ()
      ensures View() == map[]
    {
      sessions := map[];
    }

    method OpenSession(id: SessionId)
      modifies this
      ensures View() == Spec.OpenSession(old(View()), id)
      ensures sessions ==
        if id in old(sessions) || |old(sessions)| >= 32 then old(sessions) else old(sessions)[id := null]
    {
      assert View().Keys == sessions.Keys;
      assert |View().Keys| == |sessions.Keys|;
      if id in sessions || |sessions| >= Spec.MAX_AGENT_SESSIONS {
        return;
      }
      sessions := sessions[id := null];
    }

    /** The locked part of a connect: the started PTY is stored, or released if its session is gone. */
    method StoreSession(session: LocalTerminalSession) returns (activated: bool)
      modifies this, session
      ensures activated == (session.sessionID in old(sessions))
      ensures sessions == if activated then old(sessions)[session.sessionID := session] else old(sessions)
      ensures View() == if activated then old(View())[session.sessionID := Some(session)] else old(View())
      ensures if activated then unchanged(session) else session.released
    {
      activated := session.sessionID in sessions;
      if activated {
        sessions := sessions[session.sessionID := session];
      } else {
        session.Close();
      }
    }

    method CloseSession(id: SessionId)
      modifies this, Spec.PtysOf(View(), id)
      ensures View() == Spec.CloseSession(old(View()), id)
      ensures sessions == old(sessions) - {id}
      ensures id in old(sessions) && old(sessions[id]) != null ==> old(sessions[id]).released
    {
      var session: LocalTerminalSession? := if id in sessions then sessions[id] else null;
      assert session != null ==> session in Spec.PtysOf(View(), id);
      sessions := sessions - {id};
      if session != null {
        session.Close();
      }
    }

    /** Only the PTY that still owns the entry announces its end. */
    method SessionExited(session: LocalTerminalSession) returns (announce: bool)
      modifies this
      ensures announce == (session.sessionID in old(sessions) && old(sessions[session.sessionID]) == session)
      ensures sessions == if announce then old(sessions) - {session.sessionID} else old(sessions)
      ensures View() == Spec.SessionExited(old(View()), session.sessionID, session)
    {
      var id := session.sessionID;
      announce := id in sessions && sessions[id] == session;
      if announce {
        sessions := sessions - {id};
      }
    }

    /** The table is emptied in one step; afterwards every PTY it held is released. */
    method CloseAllSessions()
      modifies this, Spec.AllPtys(View())
      ensures View() == map[] && sessions == map[]
      ensures forall id | id in old(sessions) && old(sessions[id]) != null :: old(sessions[id]).released
    {
      ghost var table := View();
      var live: seq<LocalTerminalSession> := [];
      var remaining := sessions.Keys;
      while remaining != {}
        invariant remaining <= sessions.Keys && sessions == old(sessions)
        invariant forall p | p in live :: p in Spec.AllPtys(table)
        invariant forall id | id in sessions && id !in remaining && sessions[id] != null :: sessions[id] in live
        decreases remaining
      {
        var id :| id in remaining;
        var session := sessions[id];
        if session != null {
          assert table[id] == Some(session);
          live := live + [session];
        }
        remaining := remaining - {id};
      }
      forall p | p in Spec.AllPtys(table) ensures p in live {
        var id :| id in table && table[id] == Some(p);
        assert sessions[id] == p;
      }
      sessions := map[];
      var i := 0;
      while i < |live|
        invariant 0 <= i <= |live| && sessions == map[]
        invariant forall k | 0 <= k < i :: live[k].released
      {
        live[i].Close();
        i := i + 1;
      }
    }
  }
}
