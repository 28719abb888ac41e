/** What the relay promises, for every reachable state and every step. */
module RelayTheorems {
  import opened Prelude
  import opened RelaySpec
  import opened RelayProtocol
  import opened RelayInvariant
  import opened RelaySafety

  // The envelopes that announce the end of a session.
  predicate Announcement(e: ToHub) {
    e.Closed? || e.notice.Exit?
  }

  // ---- sessions do not leak

  /** A session the agent holds still has somebody, or something, that will end it. */
  lemma NoLeakedSession(s: State, c: ConnId, id: SessionId)
    requires Reachable(s) && c in s.links && id in s.links[c].sessions
    ensures
      || (id in s.threads && OwesCloseOn(s.threads[id], c))
      || Close(id) in s.links[c].down
      || !s.links[c].toAgentOk
  {
    ReachableKeeps(s);
    assert LinkAt(s, c);
    DrainedOrClosing(s.links[c].sessions.Keys, s.links[c].down, id);
  }

  predicate NoneOwed(s: State, c: ConnId) {
    forall id | id in s.threads :: !OwesCloseOn(s.threads[id], c)
  }

  predicate Quiet(s: State, c: ConnId) {
    forall p | p in s.ptys && s.ptys[p].conn == c :: !s.ptys[p].running
  }

  // No entry and no reader in the middle of a start or a release: no live PTY.
  lemma EmptyTableIsQuiet(s: State, c: ConnId)
    requires Inv(s) && c in s.links && s.links[c].sessions == map[]
    requires s.links[c].pc.Idle? || s.links[c].pc.Stopped?
    ensures Quiet(s, c)
  {
    forall p | p in s.ptys && s.ptys[p].conn == c ensures !s.ptys[p].running { assert PtyAt(s, p); }
  }

  /** When every browser has left and the link is drained, nothing is left at the agent. */
  lemma DrainedAgentHoldsNothing(s: State, c: ConnId)
    requires Reachable(s) && c in s.links && s.links[c].toAgentOk
    requires s.links[c].down == [] && s.links[c].pc.Idle? && NoneOwed(s, c)
    ensures s.links[c].sessions == map[] && Quiet(s, c)
  {
    ReachableKeeps(s);
    assert LinkAt(s, c);
    assert Drain(s.links[c].sessions.Keys, []) == s.links[c].sessions.Keys;
    forall id ensures id !in s.links[c].sessions {}
    EmptyTableIsQuiet(s, c);
  }

  /** After closeAllSessions nothing is left either, whatever the browsers still do. */
  lemma StoppedAgentHoldsNothing(s: State, c: ConnId)
    requires Reachable(s) && c in s.links && s.links[c].pc.Stopped?
    ensures s.links[c].sessions == map[] && Quiet(s, c)
  {
    ReachableKeeps(s);
    assert LinkAt(s, c);
    EmptyTableIsQuiet(s, c);
  }

  /** When the agent's connection ends, its table is emptied at once and every PTY in it is on its way out. */
  lemma StoppingReleases(s: State, c: ConnId)
    requires Enabled(s, AgentStops(c))
    ensures var link := Next(s, AgentStops(c)).links[c];
      && link.sessions == map[] && (link.pc.Stopped? || (link.pc.Releasing? && link.pc.stop))
      && forall id, p | Owns(s.links[c].sessions, id, p) :: BeingReleased(link, p)
  {
    hide Remove;
    forall id, p | Owns(s.links[c].sessions, id, p) ensures p in AllPtys(s.links[c].sessions) {
      assert s.links[c].sessions[id] == Some(p);
    }
  }

  predicate AgentAction(a: Action, c: ConnId) {
    (a.AgentRead? || a.StartPty? || a.StartFails? || a.Install? || a.Activate? || a.Release?) && a.c == c
  }

  predicate Drained(link: Link) {
    (link.pc.Idle? && link.down == []) || link.pc.Stopped?
  }

  function PcRank(pc: AgentPc): nat {
    match pc
    case Idle => 0
    case Starting(_) => 5
    case Started(_, _) => 4
    case Activating(_, _) => 3
    case Releasing(ptys, _) => |ptys|
    case Stopped => 0
  }

  /** More than the steps the agent can still take on its own. */
  function Remaining(link: Link): nat {
    6 * |link.down| + PcRank(link.pc)
  }

  predicate Closer(s: State, s': State, c: ConnId) {
    && c in s.links && c in s'.links && s'.threads == s.threads && s'.hub == s.hub
    && s'.links[c].toAgentOk == s.links[c].toAgentOk
    && Remaining(s'.links[c]) < Remaining(s.links[c])
  }

  // Handling one envelope neither writes to the hub's side of the link nor reads further.
  ghost predicate KeepsQueues(s: State, s': State, c: ConnId, link: Link) {
    && s'.threads == s.threads && s'.hub == s.hub && c in s'.links
    && s'.links == s.links[c := s'.links[c]]
    && s'.links[c].down == link.down && s'.links[c].toAgentOk == link.toAgentOk
    && (link.pc.Idle? ==> PcRank(s'.links[c].pc) <= 5)
    && (forall r | r in s'.links[c].up :: r in link.up || !Announcement(r))
  }

  lemma ClosingKeepsQueues(s: State, c: ConnId, link: Link, id: SessionId, who: Terminator)
    ensures KeepsQueues(s, CloseEntry(s, c, link, id, who), c, link)
  {
  }

  // The table is left alone: at most an answer is sent, or a start begins.
  lemma AnsweringKeepsQueues(s: State, c: ConnId, link: Link, link': Link, id: SessionId)
    requires || link' == link || (link'.pc.Starting? && link' == link.(pc := link'.pc))
             || link' == SendUp(link, Reply(id, Error))
    ensures KeepsQueues(s, SetLink(s, c, link'), c, link)
  {
  }

  lemma PayloadKeepsQueues(s: State, c: ConnId, link: Link, id: SessionId, request: Request)
    ensures KeepsQueues(s, HandlePayload(s, c, link, id, request), c, link)
  {
    hide CloseEntry, KeepsQueues, SendUp;
    ClosingKeepsQueues(s, c, link, id, ByDisconnect);
    AnsweringKeepsQueues(s, c, link, link, id);
    AnsweringKeepsQueues(s, c, link, SendUp(link, Reply(id, Error)), id);
    AnsweringKeepsQueues(s, c, link, link.(pc := Starting(id)), id);
  }

  lemma HandlingKeepsQueues(s: State, c: ConnId, link: Link, e: ToAgent)
    ensures KeepsQueues(s, HandleEnvelope(s, c, link, e), c, link)
  {
    hide CloseEntry, HandlePayload, OpenSession;
    match e
    case Open(_) =>
    case Close(id) => ClosingKeepsQueues(s, c, link, id, ByClose);
    case Payload(id, request) => PayloadKeepsQueues(s, c, link, id, request);
  }

  lemma ActivateProgresses(s: State, c: ConnId)
    requires Enabled(s, Activate(c))
    ensures Closer(s, DoActivate(s, c), c)
  {
    assert |PtysOf(s.links[c].sessions, s.links[c].pc.id)| <= 1;
  }

  lemma ReleaseProgresses(s: State, c: ConnId, p: PtyId)
    requires Enabled(s, Release(c, p))
    ensures Closer(s, DoRelease(s, c, p), c)
  {
  }

  lemma StartingProgresses(s: State, c: ConnId, a: Action)
    requires Enabled(s, a) && AgentAction(a, c) && (a.StartPty? || a.StartFails? || a.Install?)
    ensures Closer(s, Next(s, a), c)
  {
    hide DoActivate, DoRelease, DoAgentRead, HandleEnvelope, AfterRelease, PtysOf, Remove;
  }

  /** Every step the agent takes on its own brings it closer. */
  lemma AgentStepIsCloser(s: State, c: ConnId, a: Action)
    requires Enabled(s, a) && AgentAction(a, c)
    ensures Closer(s, Next(s, a), c)
  {
    hide DoActivate, DoRelease, DoInstall, DoStartPty, HandleEnvelope, AfterRelease, PtysOf, Remove;
    match a {
      case AgentRead(_) =>
        HandlingKeepsQueues(s, c, s.links[c].(down := s.links[c].down[1..]), s.links[c].down[0]);
      case Activate(_) => ActivateProgresses(s, c);
      case Release(_, p) => ReleaseProgresses(s, c, p);
      case _ => StartingProgresses(s, c, a);
    }
  }

  // The reader never gets stuck before it has read everything.
  lemma AgentProgresses(s: State, c: ConnId) returns (a: Action)
    requires Inv(s) && c in s.links && !Drained(s.links[c])
    ensures AgentAction(a, c) && Enabled(s, a) && Closer(s, Next(s, a), c)
  {
    hide Next, Closer;
    assert PcOk(s.ptys, c, s.links[c]) by { assert LinkAt(s, c); }
    match s.links[c].pc {
      case Idle => a := AgentRead(c);
      case Starting(_) => a := StartFails(c);
      case Started(_, _) => a := Install(c);
      case Activating(_, _) => a := Activate(c);
      case Releasing(gone, _) =>
        var p :| p in gone;
        assert Unattended(s.ptys, c, p);
        a := Release(c, p);
    }
    AgentStepIsCloser(s, c, a);
  }

  lemma {:induction false} AfterAppend(s: State, run: seq<Action>, a: Action)
    requires Executes(s, run) && Enabled(After(s, run), a)
    ensures Executes(s, run + [a]) && After(s, run + [a]) == Next(After(s, run), a)
    decreases |run|
  {
    if run == [] {
      assert Executes(Next(s, a), []);
    } else {
      assert (run + [a])[1..] == run[1..] + [a];
      AfterAppend(Next(s, run[0]), run[1..], a);
    }
  }

  lemma {:induction false} AgentCanDrain(s: State, c: ConnId) returns (run: seq<Action>)
    requires Inv(s) && c in s.links
    ensures Executes(s, run) && forall a | a in run :: AgentAction(a, c)
    ensures var s' := After(s, run);
      c in s'.links && Drained(s'.links[c]) && s'.threads == s.threads && s'.hub == s.hub
      && s'.links[c].toAgentOk == s.links[c].toAgentOk
    decreases Remaining(s.links[c])
  {
    if Drained(s.links[c]) {
      run := [];
    } else {
      var a := AgentProgresses(s, c);
      StepKeeps(s, a);
      var rest := AgentCanDrain(Next(s, a), c);
      run := [a] + rest;
      assert run[1..] == rest;
    }
  }

  lemma {:induction false} RunReaches(s: State, run: seq<Action>)
    requires Reachable(s) && Executes(s, run)
    ensures Reachable(After(s, run))
    decreases |run|
  {
    if run != [] {
      var prefix :| Executes(INITIAL, prefix) && After(INITIAL, prefix) == s;
      AfterAppend(INITIAL, prefix, run[0]);
      RunReaches(Next(s, run[0]), run[1..]);
    }
  }

  /** Once the last browser is gone the agent's own steps empty its table and end every PTY. */
  lemma AgentEmptiesItself(s: State, c: ConnId) returns (run: seq<Action>)
    requires Reachable(s) && c in s.links && s.links[c].toAgentOk && NoneOwed(s, c)
    ensures Executes(s, run) && forall a | a in run :: AgentAction(a, c)
    ensures c in After(s, run).links && After(s, run).links[c].sessions == map[] && Quiet(After(s, run), c)
  {
    ReachableKeeps(s);
    run := AgentCanDrain(s, c);
    RunReaches(s, run);
    if After(s, run).links[c].pc.Stopped? {
      StoppedAgentHoldsNothing(After(s, run), c);
    } else {
      DrainedAgentHoldsNothing(After(s, run), c);
    }
  }

  /** A run of the agent's own steps is short, and the hub's side sees nothing of it. */
  lemma {:induction false} AgentRunIsShort(s: State, c: ConnId, run: seq<Action>)
    requires c in s.links && Executes(s, run) && forall a | a in run :: AgentAction(a, c)
    ensures |run| <= Remaining(s.links[c])
    ensures var s' := After(s, run);
      c in s'.links && s'.threads == s.threads && s'.hub == s.hub && s'.links[c].toAgentOk == s.links[c].toAgentOk
    decreases |run|
  {
    if run != [] {
      hide Next, Remaining, Enabled;
      AgentStepIsCloser(s, c, run[0]);
      assert forall a | a in run[1..] :: a in run;
      AgentRunIsShort(Next(s, run[0]), c, run[1..]);
    }
  }

  /**
   Once the last browser is gone, the agent's own steps come to an end in every
   order and with every outcome of its starts, and then its table is empty and
   every PTY has ended.
   */
  lemma EveryRunEmpties(s: State, c: ConnId, run: seq<Action>)
    requires Reachable(s) && c in s.links && s.links[c].toAgentOk && NoneOwed(s, c)
    requires Executes(s, run) && forall a | a in run :: AgentAction(a, c)
    ensures |run| <= Remaining(s.links[c])
    ensures var s' := After(s, run);
      c in s'.links &&
      ((forall a | AgentAction(a, c) :: !Enabled(s', a)) ==> s'.links[c].sessions == map[] && Quiet(s', c))
  {
    hide Next, Enabled;
    AgentRunIsShort(s, c, run);
    RunReaches(s, run);
    var s' := After(s, run);
    ReachableKeeps(s');
    if !Drained(s'.links[c]) {
      var a := AgentProgresses(s', c);
    } else if s'.links[c].pc.Stopped? {
      StoppedAgentHoldsNothing(s', c);
    } else {
      DrainedAgentHoldsNothing(s', c);
    }
  }

  // ---- who is bound to whom

  /** Both tables stay within 32 entries and every registered browser is bound to the attached agent. */
  lemma BindingHolds(s: State)
    requires Reachable(s)
    ensures |s.hub.browsers| <= 32
    ensures forall c | c in s.links :: |s.links[c].sessions| <= 32
    ensures forall id | id in s.hub.browsers ::
      id in s.threads && s.hub.agent == Some(s.threads[id].conn) && s.threads[id].browser == s.hub.browsers[id]
  {
    ReachableKeeps(s);
    forall c | c in s.links ensures |s.links[c].sessions| <= 32 { assert LinkAt(s, c); }
    forall id | id in s.hub.browsers
      ensures id in s.threads && s.hub.agent == Some(s.threads[id].conn)
      ensures s.threads[id].browser == s.hub.browsers[id]
    {
      assert BrowserAt(s, id);
    }
  }

  /**
   Exactly while its agent is attached and its session bound, an envelope is
   handed to the browser that opened the session on that very connection; a
   close takes the session out of the hub's table.
   */
  lemma RouteReachesOpener(s: State, c: ConnId)
    requires Reachable(s) && Enabled(s, Route(c))
    ensures var e := s.links[c].up[0];
      && e.id in s.threads && s.threads[e.id].conn == c
      && RouteTarget(s.hub, c, e.id) ==
         (if s.hub.agent == Some(c) && e.id in s.hub.browsers then Some(s.threads[e.id].browser) else None)
    ensures var e, s' := s.links[c].up[0], Next(s, Route(c));
      && s'.hub.agent == s.hub.agent && s'.links == s.links[c := s.links[c].(up := s.links[c].up[1..])]
      && s'.hub.browsers ==
         if e.Closed? && s.hub.agent == Some(c) then s.hub.browsers - {e.id} else s.hub.browsers
  {
    ReachableKeeps(s);
    var e := s.links[c].up[0];
    assert LinkAt(s, c) && e in s.links[c].up && KnownTo(s.threads, c, e.id);
    BindingHolds(s);
  }

  /** The first agent to dial is attached; another is turned away and its connection closed. */
  lemma AttachDecides(s: State, c: ConnId)
    requires Enabled(s, Attach(c))
    ensures var s' := Next(s, Attach(c));
      if s.hub.agent.None? then
        s'.hub == s.hub.(agent := Some(c)) && s'.links == s.links[c := s.links[c].(phase := Serving)]
      else
        && s'.hub == s.hub
        && s'.links == s.links[c := s.links[c].(phase := Returned, toAgentOk := false, toHubOk := false)]
  {
  }

  /** When serving ends or a close is lost, the attached agent's table is cleared and its connection gets closed. */
  lemma DetachingCloses(s: State, a: Action, c: ConnId)
    requires Enabled(s, a) && s.hub.agent == Some(c) && c in s.links
    requires a == ServeReturns(c) || (a.DetachFailed? && s.threads[a.id].conn == c)
    ensures Next(s, a).hub == Hub(None, map[]) && Enabled(Next(s, a), CloseLink(c))
    ensures var link := Next(Next(s, a), CloseLink(c)).links[c]; !link.toAgentOk && !link.toHubOk
  {
  }

  /** A new browser is admitted exactly while an agent is attached and fewer than 32 sessions are bound. */
  lemma RegisterBinds(s: State, id: SessionId, b: BrowserId)
    requires Reachable(s) && id !in s.threads
    ensures Enabled(s, Register(id, b)) <==> s.hub.agent.Some? && |s.hub.browsers| < 32
    ensures Enabled(s, Register(id, b)) ==>
      var s' := Next(s, Register(id, b));
      && s'.hub == Hub(s.hub.agent, s.hub.browsers[id := b]) && s'.links == s.links
      && s'.threads == s.threads[id := Thread(s.hub.agent.value, b, Opening)]
  {
    ReachableKeeps(s);
  }

  /** A hub's write arrives behind everything written before, or fails and turns its thread towards detaching. */
  lemma HubWritesInOrder(s: State, id: SessionId, a: Action, e: ToAgent)
    requires Enabled(s, a)
    requires || (a == WriteOpen(id) && e == Open(id)) || (a == WriteClose(id) && e == Close(id))
             || (a.Forward? && a.id == id && e == Payload(id, a.request))
    ensures var c, s' := s.threads[id].conn, Next(s, a);
      && s'.links[c].down == s.links[c].down + (if s.links[c].toAgentOk then [e] else [])
      && s'.threads[id].phase ==
         (if !s.links[c].toAgentOk then if e.Close? then CloseFailed else WriteFailed
          else if e.Close? then Finished(true)
          else if e == Payload(id, Disconnect) then Leaving else Forwarding)
  {
  }

  // The reading half of `RequestIsHandled`, on the link whose envelope is already taken.
  ghost predicate Handled(link: Link, link': Link, id: SessionId, request: Request) {
    var held := id in link.sessions;
    var running := held && link.sessions[id].Some?;
    && link'.down == link.down
    && (link'.pc == Starting(id) <==> held && !running && request.Connect?)
    && (running && request.Disconnect? ==>
          link'.sessions == link.sessions - {id} && BeingReleased(link', link.sessions[id].value))
    && (!(running && request.Disconnect?) ==> link'.sessions == link.sessions)
    && link'.up == link.up +
         (if link.toHubOk &&
             (request.Malformed? || (held && running == request.Connect?) || (running && request.Refused?))
          then [Reply(id, Error)] else [])
  }

  lemma ClosingReleases(s: State, c: ConnId, link: Link, id: SessionId, who: Terminator, p: PtyId)
    requires Owns(link.sessions, id, p)
    ensures CloseEntry(s, c, link, id, who).links[c] ==
      link.(sessions := link.sessions - {id}, pc := Releasing({p}, false))
  {
    hide Remove;
    assert PtysOf(link.sessions, id) == {p};
  }

  lemma PayloadIsHandled(s: State, c: ConnId, link: Link, id: SessionId, request: Request)
    requires link.pc.Idle?
    ensures Handled(link, HandlePayload(s, c, link, id, request).links[c], id, request)
  {
    hide CloseEntry, CloseSession, AfterRelease, PtysOf;
    if id in link.sessions && link.sessions[id].Some? {
      ClosingReleases(s, c, link, id, ByDisconnect, link.sessions[id].value);
    }
  }

  /**
   What the agent does with a browser's request: a connect starts a PTY for a
   session that has none, a disconnect ends one that runs, and a request that
   does not fit is answered with an error while the hub hears the agent.
   */
  lemma RequestIsHandled(s: State, c: ConnId, id: SessionId, request: Request)
    requires Enabled(s, AgentRead(c)) && s.links[c].down[0] == Payload(id, request)
    ensures var link := s.links[c].(down := s.links[c].down[1..]);
      Handled(link, Next(s, AgentRead(c)).links[c], id, request)
  {
    hide HandlePayload, Handled;
    PayloadIsHandled(s, c, s.links[c].(down := s.links[c].down[1..]), id, request);
  }

  /** Output, the exit message, the close envelope and a failed start's error each follow what was sent before. */
  lemma AgentWritesInOrder(s: State, a: Action, c: ConnId, e: ToHub)
    requires Enabled(s, a)
    requires || (a.EmitOutput? && c == s.ptys[a.p].conn && e == Reply(s.ptys[a.p].id, Output))
             || (a.SendExit? && c == s.ptys[a.p].conn && e == Reply(s.ptys[a.p].id, Exit))
             || (a.SendClosed? && c == s.ptys[a.p].conn && e == Closed(s.ptys[a.p].id))
             || (a == StartFails(c) && e == Reply(s.links[c].pc.id, Error))
    ensures Next(s, a).links[c].up == s.links[c].up + (if s.links[c].toHubOk then [e] else [])
  {
  }

  /** A stored PTY is announced and read, or, when the hub cannot hear it, ended again. */
  lemma ActivationIsAnnounced(s: State, c: ConnId)
    requires Inv(s) && Enabled(s, Activate(c))
    ensures var Activating(id, p) := s.links[c].pc;
      var s' := Next(s, Activate(c));
      if s.links[c].toHubOk then
        && s'.links[c].up == s.links[c].up + [Reply(id, Ready), Reply(id, FileBrowser)]
        && s'.links[c].sessions == s.links[c].sessions && s'.ptys[p].output.Reading?
      else
        && s'.links[c].up == s.links[c].up && s'.links[c].sessions == s.links[c].sessions - {id}
        && BeingReleased(s'.links[c], p)
  {
    hide CloseEntry, CloseSession, AfterRelease, PtysOf, Remove;
    assert LinkAt(s, c);
    ClosingReleases(s, c, s.links[c], s.links[c].pc.id, ByFailedActivation, s.links[c].pc.pty);
  }

  /** A connection that is no longer attached cannot change the hub's tables any more. */
  lemma StaleAgentIsPowerless(s: State, a: Action, c: ConnId)
    requires Enabled(s, a) && s.hub.agent != Some(c)
    requires a == Route(c) || a == ServeReturns(c) || a == CloseLink(c)
             || (a.DetachFailed? && s.threads[a.id].conn == c)
    ensures Next(s, a).hub == s.hub
  {
  }

  /** A browser leaves the hub's table only by its own thread, by its agent's close, or with its agent. */
  lemma BrowserLeavesOnlyBy(s: State, a: Action, id: SessionId)
    requires Reachable(s) && Enabled(s, a) && id in s.hub.browsers
    ensures
      || (id in Next(s, a).hub.browsers && Next(s, a).hub.browsers[id] == s.hub.browsers[id])
      || a == Unregister(id)
      || (a.Route? && s.hub.agent == Some(a.c) && s.links[a.c].up[0] == Closed(id))
      || Next(s, a).hub == Hub(None, map[])
  {
    hide SendDown, SendUp, OpenSession, CloseSession, SessionExited, PtysOf, AllPtys, AfterRelease, Owns, Remove;
    ReachableKeeps(s);
    assert BrowserAt(s, id);
  }

  /** If the agent could not be told about a departure, it is no longer the attached agent. */
  lemma UndeliveredCloseDetaches(s: State, id: SessionId)
    requires Reachable(s) && id in s.threads && s.threads[id].phase == Finished(false)
    ensures s.hub.agent != Some(s.threads[id].conn) && id !in s.hub.browsers
  {
    ReachableKeeps(s);
    assert ThreadAt(s, id) && BrowserAt(s, id);
  }

  // ---- who owns a PTY

  /** A live PTY sits in exactly one table entry, or the read loop is storing or releasing it. */
  lemma LivePtyIsOwned(s: State, p: PtyId)
    requires Reachable(s) && p in s.ptys && s.ptys[p].running
    ensures s.ptys[p].conn in s.links
    ensures var link := s.links[s.ptys[p].conn];
      Attended(link, p, s.ptys[p].id) || BeingReleased(link, p)
    ensures forall c, id | c in s.links && Owns(s.links[c].sessions, id, p) ::
      c == s.ptys[p].conn && id == s.ptys[p].id
  {
    ReachableKeeps(s);
    assert PtyAt(s, p);
    forall c, id | c in s.links && Owns(s.links[c].sessions, id, p)
      ensures c == s.ptys[p].conn && id == s.ptys[p].id
    {
      assert LinkAt(s, c) && SlotOk(s.ptys, c, id, s.links[c].sessions[id]);
    }
  }

  /** The `stillExists` check always succeeds, and storing the PTY overwrites no other one. */
  lemma InstallFindsItsSession(s: State, c: ConnId)
    requires Reachable(s) && c in s.links && s.links[c].pc.Started?
    ensures var Started(id, p) := s.links[c].pc;
      && id in s.links[c].sessions && s.links[c].sessions[id].None?
      && p in s.ptys && Enabled(s, Install(c))
      && Owns(Next(s, Install(c)).links[c].sessions, id, p)
  {
    ReachableKeeps(s);
    assert LinkAt(s, c);
  }

  // Whatever a critical section takes out of a table had no terminator yet.
  lemma TableEntriesAreLive(s: State, c: ConnId)
    requires Inv(s) && c in s.links
    ensures forall p | p in AllPtys(s.links[c].sessions) :: p in s.ptys && s.ptys[p].removedBy.None?
    ensures forall id :: PtysOf(s.links[c].sessions, id) <= AllPtys(s.links[c].sessions)
  {
    forall p | p in AllPtys(s.links[c].sessions) ensures p in s.ptys && s.ptys[p].removedBy.None? {
      assert LinkAt(s, c);
      var id :| id in s.links[c].sessions && s.links[c].sessions[id] == Some(p);
      assert SlotOk(s.ptys, c, id, s.links[c].sessions[id]);
      assert PtyAt(s, p);
    }
  }

  lemma HubKeepsPtys(s: State, a: Action)
    requires Enabled(s, a) && !ReaderAction(a) && !PtyAction(a)
    ensures Next(s, a).ptys == s.ptys
  {
    hide AttachAgent, DetachAgent, UnregisterBrowser, RouteClose, SendDown, SendUp, DoAgentRead, DoStartPty, DoInstall,
      DoActivate, DoRelease, DoAgentStops, DoEmitOutput, DoOutputEnds, DoSendExit, DoSendClosed;
  }

  predicate Settled(ptys: map<PtyId, Pty>, ptys': map<PtyId, Pty>, p: PtyId) {
    p in ptys ==> p in ptys' && (ptys[p].removedBy.Some? ==> ptys'[p].removedBy == ptys[p].removedBy)
  }

  lemma ClosingSettles(s: State, c: ConnId, link: Link, id: SessionId, who: Terminator, p: PtyId)
    requires forall q | q in PtysOf(link.sessions, id) :: q in s.ptys && s.ptys[q].removedBy.None?
    ensures Settled(s.ptys, CloseEntry(s, c, link, id, who).ptys, p)
  {
  }

  lemma HandlingSettles(s: State, c: ConnId, link: Link, e: ToAgent, p: PtyId)
    requires forall q | q in PtysOf(link.sessions, e.id) :: q in s.ptys && s.ptys[q].removedBy.None?
    ensures Settled(s.ptys, HandleEnvelope(s, c, link, e).ptys, p)
  {
    hide PtysOf, CloseEntry, SendUp, OpenSession, Settled;
    ClosingSettles(s, c, link, e.id, ByClose, p);
    ClosingSettles(s, c, link, e.id, ByDisconnect, p);
    NothingSettles(s.ptys, p);
  }

  lemma NothingSettles(ptys: map<PtyId, Pty>, p: PtyId)
    ensures Settled(ptys, ptys, p)
  {
  }

  lemma ReaderSettles(s: State, a: Action, p: PtyId)
    requires Inv(s) && Enabled(s, a) && ReaderAction(a)
    ensures Settled(s.ptys, Next(s, a).ptys, p)
  {
    hide Inv, LinkAt, DoAgentRead, DoActivate, DoAgentStops, DoInstall, Settled;
    match a
    case AgentRead(c) =>
      TableEntriesAreLive(s, c);
      HandlingSettles(s, c, s.links[c].(down := s.links[c].down[1..]), s.links[c].down[0], p);
      assert DoAgentRead(s, c) ==
        HandleEnvelope(s, c, s.links[c].(down := s.links[c].down[1..]), s.links[c].down[0]) by { ReadIs(s, c); }
    case Activate(c) => ActivatingSettles(s, c, p);
    case AgentStops(c) => StoppingSettles(s, c, p);
    case Install(c) => InstallingSettles(s, c, p);
    case StartPty(_, _) => ReleasingSettles(s, a, p);
    case StartFails(_) => ReleasingSettles(s, a, p);
    case Release(_, _) => ReleasingSettles(s, a, p);
  }

  lemma ReadIs(s: State, c: ConnId)
    requires Enabled(s, AgentRead(c))
    ensures DoAgentRead(s, c) ==
      HandleEnvelope(s, c, s.links[c].(down := s.links[c].down[1..]), s.links[c].down[0])
  {
    hide HandleEnvelope;
  }

  lemma ActivatingSettles(s: State, c: ConnId, p: PtyId)
    requires Inv(s) && Enabled(s, Activate(c))
    ensures Settled(s.ptys, DoActivate(s, c).ptys, p)
  {
    hide Inv, CloseEntry, SendUp, PtysOf;
    TableEntriesAreLive(s, c);
    ClosingSettles(s, c, s.links[c], s.links[c].pc.id, ByFailedActivation, p);
  }

  lemma StoppingSettles(s: State, c: ConnId, p: PtyId)
    requires Inv(s) && Enabled(s, AgentStops(c))
    ensures Settled(s.ptys, DoAgentStops(s, c).ptys, p)
  {
    hide Inv, AfterRelease, AllPtys;
    TableEntriesAreLive(s, c);
  }

  lemma InstallingSettles(s: State, c: ConnId, p: PtyId)
    requires Inv(s) && Enabled(s, Install(c))
    ensures Settled(s.ptys, DoInstall(s, c).ptys, p)
  {
    hide Inv;
    FreshPtyIsOpen(s, c);
  }

  lemma ReleasingSettles(s: State, a: Action, p: PtyId)
    requires Enabled(s, a) && (a.StartPty? || a.StartFails? || a.Release?)
    ensures Settled(s.ptys, Next(s, a).ptys, p)
  {
    hide AfterRelease, SendUp;
  }

  lemma FreshPtyIsOpen(s: State, c: ConnId)
    requires Inv(s) && Enabled(s, Install(c))
    ensures s.ptys[s.links[c].pc.pty].removedBy.None? && s.links[c].pc.id in s.links[c].sessions
  {
    assert LinkAt(s, c) && PtyAt(s, s.links[c].pc.pty);
  }

  lemma LoopKeepsTerminator(s: State, a: Action, p: PtyId)
    requires Inv(s) && Enabled(s, a) && PtyAction(a) && p in s.ptys
    ensures p in Next(s, a).ptys
    ensures s.ptys[p].removedBy.Some? ==> Next(s, a).ptys[p].removedBy == s.ptys[p].removedBy
  {
    hide DoAttach, DoRoute, DoServeReturns, DoRegister, WriteStep, DoDetachFailed, DoAgentRead, DoStartPty, DoInstall,
      DoActivate, DoRelease, DoAgentStops, SendUp;
    assert PtyAt(s, p);
  }

  /** A PTY is never forgotten, and a recorded terminator stays. */
  lemma TerminatorStays(s: State, a: Action, p: PtyId)
    requires Inv(s) && Enabled(s, a) && p in s.ptys
    ensures p in Next(s, a).ptys
    ensures s.ptys[p].removedBy.Some? ==> Next(s, a).ptys[p].removedBy == s.ptys[p].removedBy
  {
    hide Next, Inv;
    if ReaderAction(a) {
      ReaderSettles(s, a, p);
    } else if PtyAction(a) {
      LoopKeepsTerminator(s, a, p);
    } else {
      HubKeepsPtys(s, a);
    }
  }

  /** Exactly one terminator takes a PTY's entry: it is recorded when the entry goes, and stays. */
  lemma TerminatorIsFinal(s: State, a: Action, p: PtyId)
    requires Inv(s) && Enabled(s, a) && p in s.ptys
    ensures var s' := Next(s, a);
      && p in s'.ptys && s'.ptys[p].conn in s'.links
      && (s.ptys[p].removedBy.Some? ==> s'.ptys[p].removedBy == s.ptys[p].removedBy)
      && (s'.ptys[p].removedBy.None? <==> Attended(s'.links[s'.ptys[p].conn], p, s'.ptys[p].id))
  {
    StepKeeps(s, a);
    var s' := Next(s, a);
    assert PtyAt(s', p);
    TerminatorStays(s, a, p);
  }

  lemma {:induction false} TerminatorIsForever(s: State, run: seq<Action>, p: PtyId)
    requires Inv(s) && Executes(s, run) && p in s.ptys && s.ptys[p].removedBy.Some?
    ensures var s' := After(s, run);
      && p in s'.ptys && s'.ptys[p].removedBy == s.ptys[p].removedBy
      && forall c, id | c in s'.links :: !Owns(s'.links[c].sessions, id, p)
    decreases |run|
  {
    if run == [] {
      forall c, id | c in s.links ensures !Owns(s.links[c].sessions, id, p) {
        TableEntriesAreLive(s, c);
      }
    } else {
      StepKeeps(s, run[0]);
      TerminatorStays(s, run[0], p);
      TerminatorIsForever(Next(s, run[0]), run[1..], p);
    }
  }

  // ---- the announcement of an exit

  /** The exit message and the close envelope are each sent at most once, in order, and only by natural exit. */
  lemma ExitAnnouncedOnce(s: State, p: PtyId)
    requires Reachable(s) && p in s.ptys
    ensures s.ptys[p].closes <= s.ptys[p].exits <= 1
    ensures s.ptys[p].exits == 1 ==> s.ptys[p].removedBy == Some(ByNaturalExit) && !s.ptys[p].running
    ensures s.ptys[p].output.Ended? && s.ptys[p].removedBy == Some(ByNaturalExit) ==> s.ptys[p].closes == 1
  {
    ReachableKeeps(s);
    assert PtyAt(s, p);
  }

  predicate SendsUp(a: Action) {
    a.AgentRead? || a.StartFails? || a.Activate? || a.EmitOutput? || a.SendExit? || a.SendClosed?
  }

  // Whatever is in the link afterwards was there before.
  predicate NothingSentUp(s: State, s': State, c: ConnId) {
    c in s'.links ==> forall e | e in s'.links[c].up :: c in s.links && e in s.links[c].up
  }

  lemma HubSendsNothingUp(s: State, a: Action, c: ConnId)
    requires Enabled(s, a) && !ReaderAction(a) && !PtyAction(a)
    ensures NothingSentUp(s, Next(s, a), c)
  {
    hide DoAgentRead, DoStartPty, DoInstall, DoActivate, DoRelease, DoAgentStops, DoEmitOutput, DoOutputEnds,
      DoSendExit, DoSendClosed, AttachAgent, DetachAgent, RegisterBrowser, RouteClose, UnregisterBrowser;
  }

  lemma AgentSendsNothingUp(s: State, a: Action, c: ConnId)
    requires Enabled(s, a) && (ReaderAction(a) || PtyAction(a)) && !SendsUp(a)
    ensures NothingSentUp(s, Next(s, a), c)
  {
    hide DoAttach, DoRoute, DoServeReturns, DoRegister, WriteStep, DoDetachFailed, DoAgentRead, DoActivate,
      DoEmitOutput, DoSendExit, DoSendClosed, Remove, PtysOf, AllPtys, AfterRelease, SessionExited, Owns;
  }

  lemma OthersSendNothingUp(s: State, a: Action, c: ConnId)
    requires Enabled(s, a) && !SendsUp(a)
    ensures NothingSentUp(s, Next(s, a), c)
  {
    hide Next, Enabled, NothingSentUp;
    if ReaderAction(a) || PtyAction(a) {
      AgentSendsNothingUp(s, a, c);
    } else {
      HubSendsNothingUp(s, a, c);
    }
  }

  /** An announcement enters a link only in the counted send of its own PTY. */
  lemma OnlyOutputLoopAnnounces(s: State, a: Action, c: ConnId, e: ToHub)
    requires Enabled(s, a) && c in Next(s, a).links && e in Next(s, a).links[c].up && Announcement(e)
    requires c in s.links ==> e !in s.links[c].up
    ensures (a.SendExit? || a.SendClosed?) && s.ptys[a.p].conn == c && s.ptys[a.p].id == e.id
    ensures Next(s, a).ptys[a.p].exits + Next(s, a).ptys[a.p].closes == s.ptys[a.p].exits + s.ptys[a.p].closes + 1
  {
    hide DoAttach, DoRoute, DoServeReturns, DoRegister, WriteStep, DoDetachFailed, DoStartPty, DoInstall, DoRelease,
      DoAgentStops, DoOutputEnds, HandleEnvelope, Remove, PtysOf, CloseSession;
    if !SendsUp(a) {
      OthersSendNothingUp(s, a, c);
      assert false;
    } else if a.AgentRead? {
      HandlingKeepsQueues(s, a.c, s.links[a.c].(down := s.links[a.c].down[1..]), s.links[a.c].down[0]);
      assert false;
    }
  }

  /**
   A PTY whose output ends while it still has its table entry gives it up, and
   then sends the exit message and the close envelope; any other ends silently.
   */
  lemma NaturalExitIsAnnounced(s: State, p: PtyId)
    requires Enabled(s, OutputEnds(p))
    ensures var c, id := s.ptys[p].conn, s.ptys[p].id;
      var s1 := Next(s, OutputEnds(p));
      if Owns(s.links[c].sessions, id, p) then
        && s1.links[c].sessions == s.links[c].sessions - {id} && s1.ptys[p].removedBy == Some(ByNaturalExit)
        && Executes(s1, [SendExit(p), SendClosed(p)])
        && var s3 := After(s1, [SendExit(p), SendClosed(p)]);
        && p in s3.ptys && c in s3.links && s3.ptys[p].output.Ended?
        && s3.links[c].up == s.links[c].up + (if s.links[c].toHubOk then [Reply(id, Exit), Closed(id)] else [])
      else s1.links == s.links && s1.ptys[p] == s.ptys[p].(output := Ended)
  {
    var c, id := s.ptys[p].conn, s.ptys[p].id;
    var s1 := Next(s, OutputEnds(p));
    if Owns(s.links[c].sessions, id, p) {
      OutputEndsIs(s, p);
      AnnouncesBoth(s1, p);
    }
  }

  lemma OutputEndsIs(s: State, p: PtyId)
    requires Enabled(s, OutputEnds(p)) && Owns(s.links[s.ptys[p].conn].sessions, s.ptys[p].id, p)
    ensures var c, id, s1 := s.ptys[p].conn, s.ptys[p].id, Next(s, OutputEnds(p));
      && s1.ptys[p] == s.ptys[p].(output := OwesExit, removedBy := Some(ByNaturalExit))
      && s1.links == s.links[c := s.links[c].(sessions := s.links[c].sessions - {id})]
  {
  }

  lemma AnnouncesBoth(s: State, p: PtyId)
    requires p in s.ptys && s.ptys[p].output.OwesExit? && s.ptys[p].conn in s.links
    ensures Executes(s, [SendExit(p), SendClosed(p)])
    ensures var c, id, s' := s.ptys[p].conn, s.ptys[p].id, After(s, [SendExit(p), SendClosed(p)]);
      && p in s'.ptys && c in s'.links && s'.ptys[p].output.Ended?
      && s'.links[c].up == s.links[c].up + (if s.links[c].toHubOk then [Reply(id, Exit), Closed(id)] else [])
  {
    var s1 := Next(s, SendExit(p));
    var s2 := Next(s1, SendClosed(p));
    assert [SendExit(p), SendClosed(p)][1..] == [SendClosed(p)] && [SendClosed(p)][1..] == [];
    assert Executes(s2, []) && Executes(s1, [SendClosed(p)]);
    assert After(s1, [SendClosed(p)]) == s2;
  }
}
