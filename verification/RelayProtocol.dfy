/**
 The relay as a state machine.  One action is one critical section, one write
 to a link, or one step of a PTY; any thread may be preempted between two
 actions.  Each direction of a link can break on its own at any moment.
 */
module RelayProtocol {
  import opened Prelude
  import opened RelaySpec

  type ConnId = nat
  type BrowserId = nat
  type PtyId = nat

  // What the browser's JSON payload asks the agent for.  `Refused` is of a type the
  // agent does not know, or input that cannot be written to the PTY.
  datatype Request = Malformed | Connect | Disconnect | Refused | Other

  datatype ToAgent = Open(id: SessionId) | Payload(id: SessionId, request: Request) | Close(id: SessionId)

  datatype Notice = Ready | FileBrowser | Output | Exit | Error

  datatype ToHub = Reply(id: SessionId, notice: Notice) | Closed(id: SessionId)

  // Hub thread of one agent connection: registration read, serving, returned.
  datatype HubPhase = Pending | Serving | Returned

  // The agent's read loop.  `Releasing` is the part of closeSession and
  // closeAllSessions that runs after the table's lock was given back.
  datatype AgentPc =
    | Idle
    | Starting(id: SessionId)
    | Started(id: SessionId, pty: PtyId)
    | Activating(id: SessionId, pty: PtyId)
    | Releasing(ptys: set<PtyId>, stop: bool)
    | Stopped

  datatype Link = Link(
    phase: HubPhase,
    closing: bool,        // the hub is about to close the connection
    toAgentOk: bool,
    toHubOk: bool,
    down: seq<ToAgent>,
    up: seq<ToHub>,
    sessions: Sessions<PtyId>,
    pc: AgentPc)

  // Hub thread of one browser, from registration to the end of serveBrowser.
  datatype BrowserPhase =
    | Opening
    | Forwarding
    | WriteFailed
    | Leaving
    | OwesClose
    | CloseFailed
    | Finished(delivered: bool)

  datatype Thread = Thread(conn: ConnId, browser: BrowserId, phase: BrowserPhase)

  datatype Terminator = ByClose | ByDisconnect | ByFailedActivation | ByLinkLoss | ByNaturalExit

  datatype OutputPhase = Silent | Reading | OwesExit | OwesClosed | Ended

  // `removedBy`, `exits` and `closes` are history: who took the table entry, and
  // how often the output loop sent the exit message and the close envelope.
  datatype Pty = Pty(
    conn: ConnId,
    id: SessionId,
    running: bool,
    output: OutputPhase,
    removedBy: Option<Terminator>,
    exits: nat,
    closes: nat)

  datatype State = State(
    hub: Hub<ConnId, BrowserId>,
    links: map<ConnId, Link>,
    threads: map<SessionId, Thread>,
    ptys: map<PtyId, Pty>)

  const INITIAL := State(Hub(None, map[]), map[], map[], map[])

  datatype Action =
    | Dial(c: ConnId)
    | Attach(c: ConnId)
    | Route(c: ConnId)
    | ServeReturns(c: ConnId)
    | CloseLink(c: ConnId)
    | BreakToAgent(c: ConnId)
    | BreakToHub(c: ConnId)
    | Register(id: SessionId, b: BrowserId)
    | WriteOpen(id: SessionId)
    | Forward(id: SessionId, request: Request)
    | BrowserGone(id: SessionId)
    | DetachFailed(id: SessionId)
    | Unregister(id: SessionId)
    | WriteClose(id: SessionId)
    | AgentRead(c: ConnId)
    | StartPty(c: ConnId, p: PtyId)
    | StartFails(c: ConnId)
    | Install(c: ConnId)
    | Activate(c: ConnId)
    | Release(c: ConnId, p: PtyId)
    | AgentStops(c: ConnId)
    | ShellEnds(p: PtyId)
    | EmitOutput(p: PtyId)   // shell output, or the late answer of a file operation
    | OutputEnds(p: PtyId)
    | SendExit(p: PtyId)
    | SendClosed(p: PtyId)

  predicate Enabled(s: State, a: Action) {
    match a
    case Dial(c) => c !in s.links
    case Attach(c) => c in s.links && s.links[c].phase.Pending?
    case Route(c) => c in s.links && s.links[c].phase.Serving? && s.links[c].up != []
    case ServeReturns(c) => c in s.links && s.links[c].phase.Serving?
    case CloseLink(c) => c in s.links && s.links[c].closing
    case BreakToAgent(c) => c in s.links
    case BreakToHub(c) => c in s.links
    case Register(id, b) =>
      id !in s.threads && RegisterBrowser(s.hub, id, b).Ok? && s.hub.agent.value in s.links
    case WriteOpen(id) => At(s, id, Opening)
    case Forward(id, _) => At(s, id, Forwarding)
    case BrowserGone(id) => At(s, id, Forwarding)
    case DetachFailed(id) => At(s, id, WriteFailed) || At(s, id, CloseFailed)
    case Unregister(id) => At(s, id, Leaving)
    case WriteClose(id) => At(s, id, OwesClose)
    case AgentRead(c) => c in s.links && s.links[c].pc.Idle? && s.links[c].down != []
    case StartPty(c, p) => c in s.links && s.links[c].pc.Starting? && p !in s.ptys
    case StartFails(c) => c in s.links && s.links[c].pc.Starting?
    case Install(c) => c in s.links && s.links[c].pc.Started? && s.links[c].pc.pty in s.ptys
    case Activate(c) => c in s.links && s.links[c].pc.Activating? && s.links[c].pc.pty in s.ptys
    case Release(c, p) =>
      c in s.links && s.links[c].pc.Releasing? && p in s.links[c].pc.ptys && p in s.ptys
    case AgentStops(c) => c in s.links && s.links[c].pc.Idle?
    case ShellEnds(p) => p in s.ptys
    case EmitOutput(p) => p in s.ptys && !s.ptys[p].output.Silent? && s.ptys[p].conn in s.links
    case OutputEnds(p) =>
      p in s.ptys && s.ptys[p].output.Reading? && !s.ptys[p].running && s.ptys[p].conn in s.links
    case SendExit(p) => p in s.ptys && s.ptys[p].output.OwesExit? && s.ptys[p].conn in s.links
    case SendClosed(p) => p in s.ptys && s.ptys[p].output.OwesClosed? && s.ptys[p].conn in s.links
  }

  predicate At(s: State, id: SessionId, phase: BrowserPhase) {
    id in s.threads && s.threads[id].phase == phase && s.threads[id].conn in s.links
  }

  function SetLink(s: State, c: ConnId, link: Link): State {
    s.(links := s.links[c := link])
  }

  function SetPhase(s: State, id: SessionId, phase: BrowserPhase): State
    requires id in s.threads
  {
    s.(threads := s.threads[id := s.threads[id].(phase := phase)])
  }

  // A write appends to the link when that direction still works and is lost otherwise.
  function SendDown(link: Link, e: ToAgent): Link {
    if link.toAgentOk then link.(down := link.down + [e]) else link
  }

  function SendUp(link: Link, e: ToHub): Link {
    if link.toHubOk then link.(up := link.up + [e]) else link
  }

  function Detach(s: State, c: ConnId): State
    requires c in s.links
  {
    if s.hub.agent != Some(c) then s
    else SetLink(s.(hub := DetachAgent(s.hub, c)), c, s.links[c].(closing := true))
  }

  function AfterRelease(ptys: set<PtyId>, stop: bool): AgentPc {
    if ptys != {} then Releasing(ptys, stop) else if stop then Stopped else Idle
  }

  function Remove(ptys: map<PtyId, Pty>, gone: set<PtyId>, who: Terminator): map<PtyId, Pty> {
    map p | p in ptys :: if p in gone then ptys[p].(removedBy := Some(who)) else ptys[p]
  }

  // closeSession on the read loop: take the entry, then release its PTY outside the lock.
  function CloseEntry(s: State, c: ConnId, link: Link, id: SessionId, who: Terminator): State {
    var gone := PtysOf(link.sessions, id);
    SetLink(s.(ptys := Remove(s.ptys, gone, who)), c,
            link.(sessions := CloseSession(link.sessions, id), pc := AfterRelease(gone, false)))
  }

  function HandlePayload(s: State, c: ConnId, link: Link, id: SessionId, request: Request): State {
    if request.Malformed? then SetLink(s, c, SendUp(link, Reply(id, Error)))
    else if id !in link.sessions then SetLink(s, c, link)
    else if request.Connect? then
      if link.sessions[id].Some? then SetLink(s, c, SendUp(link, Reply(id, Error)))
      else SetLink(s, c, link.(pc := Starting(id)))
    else if link.sessions[id].None? then SetLink(s, c, SendUp(link, Reply(id, Error)))
    else if request.Disconnect? then CloseEntry(s, c, link, id, ByDisconnect)
    else if request.Refused? then SetLink(s, c, SendUp(link, Reply(id, Error)))
    else SetLink(s, c, link)
  }

  function HandleEnvelope(s: State, c: ConnId, link: Link, e: ToAgent): State {
    match e
    case Open(id) => SetLink(s, c, link.(sessions := OpenSession(link.sessions, id)))
    case Payload(id, request) => HandlePayload(s, c, link, id, request)
    case Close(id) => CloseEntry(s, c, link, id, ByClose)
  }

  // ---- the hub's threads of an agent connection

  function DoAttach(s: State, c: ConnId): State
    requires c in s.links
  {
    if s.hub.agent.None? then
      SetLink(s.(hub := AttachAgent(s.hub, c)), c, s.links[c].(phase := Serving))
    else
      SetLink(s, c, s.links[c].(phase := Returned, toAgentOk := false, toHubOk := false))
  }

  function DoRoute(s: State, c: ConnId): State
    requires c in s.links && s.links[c].up != []
  {
    var link := s.links[c];
    var s' := SetLink(s, c, link.(up := link.up[1..]));
    match link.up[0]
    case Reply(_, _) => s'
    case Closed(id) => s'.(hub := RouteClose(s.hub, c, id))
  }

  function DoServeReturns(s: State, c: ConnId): State
    requires c in s.links
  {
    var s' := Detach(s, c);
    SetLink(s', c, s'.links[c].(phase := Returned, closing := true))
  }

  // ---- the hub's threads of a browser

  function DoRegister(s: State, id: SessionId, b: BrowserId): State
    requires RegisterBrowser(s.hub, id, b).Ok?
  {
    var (hub, agent) := RegisterBrowser(s.hub, id, b).value;
    s.(hub := hub, threads := s.threads[id := Thread(agent, b, Opening)])
  }

  function WriteStep(s: State, id: SessionId, e: ToAgent, sent: BrowserPhase, failed: BrowserPhase): State
    requires id in s.threads && s.threads[id].conn in s.links
  {
    var c := s.threads[id].conn;
    SetPhase(SetLink(s, c, SendDown(s.links[c], e)), id, if s.links[c].toAgentOk then sent else failed)
  }

  function DoDetachFailed(s: State, id: SessionId): State
    requires id in s.threads && s.threads[id].conn in s.links
  {
    SetPhase(Detach(s, s.threads[id].conn), id,
             if s.threads[id].phase.WriteFailed? then Leaving else Finished(false))
  }

  // ---- the agent's read loop

  function DoAgentRead(s: State, c: ConnId): State
    requires c in s.links && s.links[c].down != []
  {
    HandleEnvelope(s, c, s.links[c].(down := s.links[c].down[1..]), s.links[c].down[0])
  }

  function DoStartPty(s: State, c: ConnId, p: PtyId): State
    requires c in s.links && s.links[c].pc.Starting?
  {
    var id := s.links[c].pc.id;
    SetLink(s.(ptys := s.ptys[p := Pty(c, id, true, Silent, None, 0, 0)]), c, s.links[c].(pc := Started(id, p)))
  }

  // The stillExists check of handleSessionMessage.
  function DoInstall(s: State, c: ConnId): State
    requires c in s.links && s.links[c].pc.Started? && s.links[c].pc.pty in s.ptys
  {
    var link := s.links[c];
    var Started(id, p) := link.pc;
    if id in link.sessions then
      SetLink(s, c, link.(sessions := link.sessions[id := Some(p)], pc := Activating(id, p)))
    else
      SetLink(s.(ptys := s.ptys[p := s.ptys[p].(running := false, removedBy := Some(ByClose))]),
              c, link.(pc := Idle))
  }

  function DoActivate(s: State, c: ConnId): State
    requires c in s.links && s.links[c].pc.Activating? && s.links[c].pc.pty in s.ptys
  {
    var link := s.links[c];
    var Activating(id, p) := link.pc;
    if link.toHubOk then
      SetLink(s.(ptys := s.ptys[p := s.ptys[p].(output := Reading)]), c,
              SendUp(SendUp(link, Reply(id, Ready)), Reply(id, FileBrowser)).(pc := Idle))
    else CloseEntry(s, c, link, id, ByFailedActivation)
  }

  function DoRelease(s: State, c: ConnId, p: PtyId): State
    requires c in s.links && s.links[c].pc.Releasing? && p in s.ptys
  {
    var link := s.links[c];
    SetLink(s.(ptys := s.ptys[p := s.ptys[p].(running := false)]), c,
            link.(pc := AfterRelease(link.pc.ptys - {p}, link.pc.stop)))
  }

  // closeAllSessions at the end of runAgentConnection.
  function DoAgentStops(s: State, c: ConnId): State
    requires c in s.links
  {
    var link := s.links[c];
    var gone := AllPtys(link.sessions);
    SetLink(s.(ptys := Remove(s.ptys, gone, ByLinkLoss)), c,
            link.(sessions := map[], pc := AfterRelease(gone, true)))
  }

  // ---- the output loop of a PTY

  function DoEmitOutput(s: State, p: PtyId): State
    requires p in s.ptys && s.ptys[p].conn in s.links
  {
    var pty := s.ptys[p];
    SetLink(s, pty.conn, SendUp(s.links[pty.conn], Reply(pty.id, Output)))
  }

  function DoOutputEnds(s: State, p: PtyId): State
    requires p in s.ptys && s.ptys[p].conn in s.links
  {
    var pty := s.ptys[p];
    var link := s.links[pty.conn];
    if Owns(link.sessions, pty.id, p) then
      SetLink(s.(ptys := s.ptys[p := pty.(output := OwesExit, removedBy := Some(ByNaturalExit))]), pty.conn,
              link.(sessions := SessionExited(link.sessions, pty.id, p)))
    else s.(ptys := s.ptys[p := pty.(output := Ended)])
  }

  function DoSendExit(s: State, p: PtyId): State
    requires p in s.ptys && s.ptys[p].conn in s.links
  {
    var pty := s.ptys[p];
    SetLink(s.(ptys := s.ptys[p := pty.(output := OwesClosed, exits := pty.exits + 1)]), pty.conn,
            SendUp(s.links[pty.conn], Reply(pty.id, Exit)))
  }

  function DoSendClosed(s: State, p: PtyId): State
    requires p in s.ptys && s.ptys[p].conn in s.links
  {
    var pty := s.ptys[p];
    SetLink(s.(ptys := s.ptys[p := pty.(output := Ended, closes := pty.closes + 1)]), pty.conn,
            SendUp(s.links[pty.conn], Closed(pty.id)))
  }

  function Next(s: State, a: Action): State
    requires Enabled(s, a)
  {
    match a
    case Dial(c) => SetLink(s, c, Link(Pending, false, true, true, [], [], map[], Idle))
    case Attach(c) => DoAttach(s, c)
    case Route(c) => DoRoute(s, c)
    case ServeReturns(c) => DoServeReturns(s, c)
    case CloseLink(c) => SetLink(s, c, s.links[c].(toAgentOk := false, toHubOk := false))
    case BreakToAgent(c) => SetLink(s, c, s.links[c].(toAgentOk := false))
    case BreakToHub(c) => SetLink(s, c, s.links[c].(toHubOk := false))
    case Register(id, b) => DoRegister(s, id, b)
    case WriteOpen(id) => WriteStep(s, id, Open(id), Forwarding, WriteFailed)
    case Forward(id, request) =>
      WriteStep(s, id, Payload(id, request), if request.Disconnect? then Leaving else Forwarding, WriteFailed)
    case BrowserGone(id) => SetPhase(s, id, Leaving)
    case DetachFailed(id) => DoDetachFailed(s, id)
    case Unregister(id) => SetPhase(s.(hub := UnregisterBrowser(s.hub, id)), id, OwesClose)
    case WriteClose(id) => WriteStep(s, id, Close(id), Finished(true), CloseFailed)
    case AgentRead(c) => DoAgentRead(s, c)
    case StartPty(c, p) => DoStartPty(s, c, p)
    case StartFails(c) => SetLink(s, c, SendUp(s.links[c], Reply(s.links[c].pc.id, Error)).(pc := Idle))
    case Install(c) => DoInstall(s, c)
    case Activate(c) => DoActivate(s, c)
    case Release(c, p) => DoRelease(s, c, p)
    case AgentStops(c) => DoAgentStops(s, c)
    case ShellEnds(p) => s.(ptys := s.ptys[p := s.ptys[p].(running := false)])
    case EmitOutput(p) => DoEmitOutput(s, p)
    case OutputEnds(p) => DoOutputEnds(s, p)
    case SendExit(p) => DoSendExit(s, p)
    case SendClosed(p) => DoSendClosed(s, p)
  }

  predicate Executes(s: State, run: seq<Action>)
    decreases |run|
  {
    run == [] || (Enabled(s, run[0]) && Executes(Next(s, run[0]), run[1..]))
  }

  function After(s: State, run: seq<Action>): State
    requires Executes(s, run)
    decreases |run|
  {
    if run == [] then s else After(Next(s, run[0]), run[1..])
  }
}
