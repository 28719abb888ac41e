/**
 The two tables of the host-agent relay, as functions on values.

 The hub's table (`backend/handlers/host_agent.go`) binds browser sessions to
 the one attached agent; the agent's table (`backend/cmd/host-agent/main.go`)
 binds the same session ids to local PTYs.  Each function is one critical
 section of the source.  The protocol in `RelayProtocol` steps through these
 functions, and the classes in `RelayObjects` are proved to compute them.
 */
module RelaySpec {
  import opened Prelude

  // A session id is a fresh random value; only its identity matters.
  type SessionId = nat

  const MAX_HUB_SESSIONS := 32
  const MAX_AGENT_SESSIONS := 32

  datatype Hub<C, B> = Hub(agent: Option<C>, browsers: map<SessionId, B>)

  datatype RegisterError = AgentOffline | TooManySessions

  function AttachAgent<C, B>(hub: Hub<C, B>, agent: C): Hub<C, B> {
    if hub.agent.None? then hub.(agent := Some(agent)) else hub
  }

  function DetachAgent<C(==), B>(hub: Hub<C, B>, agent: C): Hub<C, B> {
    if hub.agent != Some(agent) then hub else Hub(None, map[])
  }

  function RegisterBrowser<C, B>(hub: Hub<C, B>, id: SessionId, browser: B)
    : Result<(Hub<C, B>, C), RegisterError>
  {
    if hub.agent.None? then Err(AgentOffline)
    else if |hub.browsers| >= MAX_HUB_SESSIONS then Err(TooManySessions)
    else Ok((hub.(browsers := hub.browsers[id := browser]), hub.agent.value))
  }

  function UnregisterBrowser<C, B>(hub: Hub<C, B>, id: SessionId): Hub<C, B> {
    hub.(browsers := hub.browsers - {id})
  }

  /** The browser an envelope of `agent` is handed to, if any. */
  function RouteTarget<C(==), B>(hub: Hub<C, B>, agent: C, id: SessionId): Option<B> {
    if hub.agent == Some(agent) && id in hub.browsers then Some(hub.browsers[id]) else None
  }

  function RouteClose<C(==), B>(hub: Hub<C, B>, agent: C, id: SessionId): Hub<C, B> {
    if hub.agent == Some(agent) then UnregisterBrowser(hub, id) else hub
  }

  // The agent's table: `None` is a session the hub opened whose PTY has not started.
  type Sessions<P> = map<SessionId, Option<P>>

  function OpenSession<P>(sessions: Sessions<P>, id: SessionId): Sessions<P> {
    if id in sessions || |sessions| >= MAX_AGENT_SESSIONS then sessions else sessions[id := None]
  }

  function CloseSession<P>(sessions: Sessions<P>, id: SessionId): Sessions<P> {
    sessions - {id}
  }

  /** The PTYs that closing session `id` has to release. */
  function PtysOf<P(==)>(sessions: Sessions<P>, id: SessionId): set<P> {
    if id in sessions && sessions[id].Some? then {sessions[id].value} else {}
  }

  function AllPtys<P(==)>(sessions: Sessions<P>): set<P> {
    set id | id in sessions && sessions[id].Some? :: sessions[id].value
  }

  predicate Owns<P(==)>(sessions: Sessions<P>, id: SessionId, pty: P) {
    id in sessions && sessions[id] == Some(pty)
  }

  function SessionExited<P(==)>(sessions: Sessions<P>, id: SessionId, pty: P): Sessions<P> {
    if Owns(sessions, id, pty) then sessions - {id} else sessions
  }
}
