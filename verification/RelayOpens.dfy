/** When the agent honours an `open`: exactly while its own table has room. */
module RelayOpens {
  import opened Prelude
  import opened RelaySpec
  import opened RelayProtocol
  import opened RelayInvariant
  import opened RelaySafety
  import opened RelayTheorems

  // Every announced session is new to the agent.
  predicate OpensFresh(link: Link) {
    && (forall i, j | 0 <= i < j < |link.down| :: link.down[i].Open? && link.down[j].Open? ==>
          link.down[i].id != link.down[j].id)
    && (forall i | 0 <= i < |link.down| :: link.down[i].Open? ==> link.down[i].id !in link.sessions)
  }

  // What one step may do to the hub's side of a link and to the table behind it.
  predicate Evolves(before: Link, after: Link) {
    || (after.down == before.down && after.sessions.Keys <= before.sessions.Keys)
    || (|after.down| == |before.down| + 1 && after.down[..|before.down|] == before.down
        && after.sessions == before.sessions)
    || (before.down != [] && after.down == before.down[1..]
        && after.sessions.Keys <= Absorb(before.sessions.Keys, before.down[0]))
  }

  lemma HandlingEvolves(s: State, c: ConnId)
    requires Enabled(s, AgentRead(c))
    ensures Evolves(s.links[c], DoAgentRead(s, c).links[c])
  {
    var link := s.links[c].(down := s.links[c].down[1..]);
    HandlingKeepsQueues(s, c, link, s.links[c].down[0]);
    match s.links[c].down[0]
    case Open(id) =>
    case Close(id) => assert CloseSession(link.sessions, id).Keys == link.sessions.Keys - {id};
    case Payload(id, request) =>
      assert CloseSession(link.sessions, id).Keys <= link.sessions.Keys;
      if request.Malformed? || id !in link.sessions || request.Connect? || request.Refused? ||
         link.sessions[id].None? {
      } else if request.Disconnect? {
        assert HandleEnvelope(s, c, link, s.links[c].down[0]) == CloseEntry(s, c, link, id, ByDisconnect);
      }
  }

  lemma HubStepEvolves(s: State, a: Action, c: ConnId)
    requires Enabled(s, a) && c in s.links && !ReaderAction(a) && !PtyAction(a)
    ensures c in Next(s, a).links && Evolves(s.links[c], Next(s, a).links[c])
  {
    hide AttachAgent, DetachAgent, UnregisterBrowser, RouteClose, Absorb,
      DoAgentRead, DoStartPty, DoInstall, DoActivate, DoRelease, DoAgentStops,
      DoEmitOutput, DoOutputEnds, DoSendExit, DoSendClosed;
  }

  lemma ReaderStepEvolves(s: State, a: Action, c: ConnId)
    requires Enabled(s, a) && c in s.links && ReaderAction(a) && !a.AgentRead?
    requires a.Install? ==> s.links[a.c].pc.id in s.links[a.c].sessions
    ensures c in Next(s, a).links && Evolves(s.links[c], Next(s, a).links[c])
  {
    hide DoAttach, DoRoute, DoServeReturns, DoRegister, WriteStep, DoDetachFailed, HandleEnvelope,
      DoEmitOutput, DoOutputEnds, DoSendExit, DoSendClosed, Remove, PtysOf, AllPtys, AfterRelease;
  }

  lemma PtyStepEvolves(s: State, a: Action, c: ConnId)
    requires Enabled(s, a) && c in s.links && PtyAction(a)
    ensures c in Next(s, a).links && Evolves(s.links[c], Next(s, a).links[c])
  {
    hide DoAttach, DoRoute, DoServeReturns, DoRegister, WriteStep, DoDetachFailed,
      DoAgentRead, DoStartPty, DoInstall, DoActivate, DoRelease, DoAgentStops;
  }

  lemma AgentStepEvolves(s: State, a: Action, c: ConnId)
    requires Enabled(s, a) && c in s.links && (ReaderAction(a) || PtyAction(a)) && !a.AgentRead?
    requires a.Install? ==> s.links[a.c].pc.id in s.links[a.c].sessions
    ensures c in Next(s, a).links && Evolves(s.links[c], Next(s, a).links[c])
  {
    hide Evolves, Next;
    if PtyAction(a) {
      PtyStepEvolves(s, a, c);
    } else {
      ReaderStepEvolves(s, a, c);
    }
  }

  lemma StepEvolves(s: State, a: Action, c: ConnId)
    requires Inv(s) && Enabled(s, a) && c in s.links
    ensures c in Next(s, a).links && Evolves(s.links[c], Next(s, a).links[c])
  {
    if !ReaderAction(a) && !PtyAction(a) {
      HubStepEvolves(s, a, c);
    } else if a.AgentRead? {
      HandlingKeepsQueues(s, a.c, s.links[a.c].(down := s.links[a.c].down[1..]), s.links[a.c].down[0]);
      if a.c == c {
        HandlingEvolves(s, c);
      }
    } else {
      assert a.Install? ==> s.links[a.c].pc.id in s.links[a.c].sessions by {
        if a.Install? {
          assert LinkAt(s, a.c);
        }
      }
      AgentStepEvolves(s, a, c);
    }
  }

  lemma AgentNeverOpens(s: State, a: Action, c: ConnId)
    requires Enabled(s, a) && c in s.links && c in Next(s, a).links && (ReaderAction(a) || PtyAction(a))
    requires a.Install? ==> s.links[a.c].pc.id in s.links[a.c].sessions
    ensures |Next(s, a).links[c].down| <= |s.links[c].down|
  {
    if a.AgentRead? {
      HandlingKeepsQueues(s, a.c, s.links[a.c].(down := s.links[a.c].down[1..]), s.links[a.c].down[0]);
    } else if PtyAction(a) {
      NoPtyWritesDown(s, a, c);
    } else {
      NoReaderWritesDown(s, a, c);
    }
  }

  lemma NoReaderWritesDown(s: State, a: Action, c: ConnId)
    requires Enabled(s, a) && c in s.links && c in Next(s, a).links && ReaderAction(a) && !a.AgentRead?
    ensures Next(s, a).links[c].down == s.links[c].down
  {
    hide DoAttach, DoRoute, DoServeReturns, DoRegister, WriteStep, DoDetachFailed, HandleEnvelope,
      DoEmitOutput, DoOutputEnds, DoSendExit, DoSendClosed, Remove, PtysOf, AllPtys, AfterRelease, CloseSession;
  }

  lemma NoPtyWritesDown(s: State, a: Action, c: ConnId)
    requires Enabled(s, a) && c in s.links && c in Next(s, a).links && PtyAction(a)
    ensures Next(s, a).links[c].down == s.links[c].down
  {
    hide DoAttach, DoRoute, DoServeReturns, DoRegister, WriteStep, DoDetachFailed, SessionExited, Owns,
      DoAgentRead, DoStartPty, DoInstall, DoActivate, DoRelease, DoAgentStops;
  }

  lemma OpensComeFromOpening(s: State, a: Action, c: ConnId)
    requires Enabled(s, a) && c in s.links && c in Next(s, a).links
    requires a.Install? ==> s.links[a.c].pc.id in s.links[a.c].sessions
    requires |Next(s, a).links[c].down| > |s.links[c].down| && Next(s, a).links[c].down[|s.links[c].down|].Open?
    ensures var id := Next(s, a).links[c].down[|s.links[c].down|].id;
      id in s.threads && s.threads[id].phase.Opening?
  {
    hide DoAgentRead, DoStartPty, DoInstall, DoActivate, DoRelease, DoAgentStops,
      DoEmitOutput, DoOutputEnds, DoSendExit, DoSendClosed;
    if ReaderAction(a) || PtyAction(a) {
      AgentNeverOpens(s, a, c);
    }
  }

  lemma EvolvingStaysFresh(before: Link, after: Link)
    requires OpensFresh(before) && Evolves(before, after)
    requires |after.down| > |before.down| && after.down[|before.down|].Open? ==>
      var e := after.down[|before.down|];
      e !in before.down && e.id !in before.sessions
    ensures OpensFresh(after)
  {
  }

  ghost predicate AllFresh(s: State) {
    forall c | c in s.links :: OpensFresh(s.links[c])
  }

  lemma StoringFindsEntry(s: State, a: Action)
    requires Inv(s) && Enabled(s, a)
    ensures a.Install? ==> s.links[a.c].pc.id in s.links[a.c].sessions
  {
    if a.Install? {
      assert LinkAt(s, a.c);
    }
  }

  // A session whose thread has yet to write its open is unknown to every link.
  lemma OpeningIsUnknown(s: State, c: ConnId, id: SessionId)
    requires Inv(s) && c in s.links && id in s.threads && s.threads[id].phase.Opening?
    ensures Open(id) !in s.links[c].down && id !in s.links[c].sessions
  {
    assert LinkAt(s, c) && !KnownTo(s.threads, c, id);
  }

  lemma LinkStaysFresh(s: State, a: Action, c: ConnId)
    requires Inv(s) && AllFresh(s) && Enabled(s, a) && c in s.links
    ensures c in Next(s, a).links && OpensFresh(Next(s, a).links[c])
  {
    hide Next, Inv, OpensFresh, Evolves;
    StepEvolves(s, a, c);
    StoringFindsEntry(s, a);
    var before, after := s.links[c], Next(s, a).links[c];
    if |after.down| > |before.down| && after.down[|before.down|].Open? {
      OpensComeFromOpening(s, a, c);
      OpeningIsUnknown(s, c, after.down[|before.down|].id);
    }
    EvolvingStaysFresh(before, after);
  }

  lemma DialledLinkIsFresh(s: State, a: Action, c: ConnId)
    requires Enabled(s, a) && c !in s.links && c in Next(s, a).links && !ReaderAction(a) && !PtyAction(a)
    ensures OpensFresh(Next(s, a).links[c])
  {
    hide DoAgentRead, DoStartPty, DoInstall, DoActivate, DoRelease, DoAgentStops, DoEmitOutput, DoOutputEnds,
      DoSendExit, DoSendClosed, AttachAgent, DetachAgent, RegisterBrowser, RouteClose, UnregisterBrowser;
  }

  lemma AgentAddsNoLink(s: State, a: Action, c: ConnId)
    requires Enabled(s, a) && c in Next(s, a).links && (ReaderAction(a) || PtyAction(a))
    ensures c in s.links
  {
    hide DoAttach, DoRoute, DoServeReturns, DoRegister, WriteStep, DoDetachFailed, Remove, PtysOf, AllPtys,
      AfterRelease, SessionExited, Owns, HandleEnvelope;
    if a.AgentRead? {
      HandlingKeepsQueues(s, a.c, s.links[a.c].(down := s.links[a.c].down[1..]), s.links[a.c].down[0]);
    }
  }

  lemma NewLinkIsFresh(s: State, a: Action, c: ConnId)
    requires Enabled(s, a) && c !in s.links && c in Next(s, a).links
    ensures OpensFresh(Next(s, a).links[c])
  {
    hide Next, Enabled, OpensFresh;
    if ReaderAction(a) || PtyAction(a) {
      AgentAddsNoLink(s, a, c);
      assert false;
    }
    DialledLinkIsFresh(s, a, c);
  }

  lemma StepStaysFresh(s: State, a: Action)
    requires Inv(s) && AllFresh(s) && Enabled(s, a)
    ensures AllFresh(Next(s, a))
  {
    hide Next, Inv, OpensFresh;
    forall c | c in Next(s, a).links ensures OpensFresh(Next(s, a).links[c]) {
      if c in s.links {
        LinkStaysFresh(s, a, c);
      } else {
        NewLinkIsFresh(s, a, c);
      }
    }
  }

  lemma {:induction false} RunStaysFresh(s: State, run: seq<Action>)
    requires Inv(s) && AllFresh(s) && Executes(s, run)
    ensures AllFresh(After(s, run))
    decreases |run|
  {
    if run != [] {
      StepKeeps(s, run[0]);
      StepStaysFresh(s, run[0]);
      RunStaysFresh(Next(s, run[0]), run[1..]);
    }
  }

  /** Reading an `open` registers the session if and only if the table holds fewer than 32. */
  lemma OpenHonouredIffRoom(s: State, c: ConnId)
    requires Reachable(s) && Enabled(s, AgentRead(c)) && s.links[c].down[0].Open?
    ensures var id := s.links[c].down[0].id;
      var after := Next(s, AgentRead(c)).links[c].sessions;
      && id !in s.links[c].sessions
      && (id in after <==> |s.links[c].sessions| < 32)
      && after == if |s.links[c].sessions| < 32 then s.links[c].sessions[id := None] else s.links[c].sessions
  {
    var run :| Executes(INITIAL, run) && After(INITIAL, run) == s;
    RunStaysFresh(INITIAL, run);
    assert OpensFresh(s.links[c]);
  }

  // ---- an open can be dropped although the hub accepted the browser

  // `n` sessions are open at the only agent, whose link is idle and drained.
  predicate Crowd(s: State, n: nat) {
    && s.hub.agent == Some(0) && |s.hub.browsers| == n
    && s.links.Keys == {0} && s.links[0].toAgentOk && s.links[0].down == [] && s.links[0].pc.Idle?
    && |s.links[0].sessions| == n
    && (forall id | id in s.threads :: id < n)
    && (n > 0 ==> 0 in s.threads && s.threads[0] == Thread(0, 0, Forwarding) && 0 in s.hub.browsers)
  }

  lemma ReachAction(s: State, a: Action)
    requires Reachable(s) && Enabled(s, a)
    ensures Reachable(Next(s, a))
  {
    assert Executes(Next(s, a), []);
    assert Executes(s, [a]) && After(s, [a]) == Next(s, a);
    RunReaches(s, [a]);
  }

  lemma ReachRegister(s: State, i: nat) returns (s': State)
    requires Reachable(s) && i !in s.threads && s.hub.agent == Some(0) && |s.hub.browsers| < 32 && 0 in s.links
    ensures Reachable(s') && s'.links == s.links
    ensures s'.hub == s.hub.(browsers := s.hub.browsers[i := i])
    ensures s'.threads == s.threads[i := Thread(0, i, Opening)]
  {
    ReachAction(s, Register(i, i));
    s' := DoRegister(s, i, i);
  }

  lemma ReachOpen(s: State, i: nat) returns (s': State)
    requires Reachable(s) && At(s, i, Opening) && s.threads[i].conn == 0 && s.links[0].toAgentOk
    ensures Reachable(s') && s'.hub == s.hub
    ensures s'.links == s.links[0 := s.links[0].(down := s.links[0].down + [Open(i)])]
    ensures s'.threads == s.threads[i := s.threads[i].(phase := Forwarding)]
  {
    ReachAction(s, WriteOpen(i));
    s' := WriteStep(s, i, Open(i), Forwarding, WriteFailed);
  }

  lemma ReachRead(s: State, c: ConnId)
    requires Reachable(s) && c in s.links && s.links[c].pc.Idle? && s.links[c].down != []
    ensures Reachable(DoAgentRead(s, c))
  {
    ReachAction(s, AgentRead(c));
  }

  // A new browser is registered at an idle, drained link and its open is written.
  lemma ReachAnnounced(s: State, i: nat) returns (s': State)
    requires Reachable(s) && i !in s.threads && s.hub.agent == Some(0) && |s.hub.browsers| < 32
    requires s.links.Keys == {0} && s.links[0].down == [] && s.links[0].toAgentOk
    ensures Reachable(s') && s'.hub == s.hub.(browsers := s.hub.browsers[i := i])
    ensures s'.links.Keys == {0} && s'.links[0] == s.links[0].(down := [Open(i)])
    ensures s'.threads == s.threads[i := Thread(0, i, Forwarding)]
  {
    hide Reachable;
    var s1 := ReachRegister(s, i);
    s' := ReachOpen(s1, i);
  }

  lemma AnotherBrowser(s: State, i: nat) returns (s': State)
    requires i < 32 && Reachable(s) && Crowd(s, i)
    ensures Reachable(s') && Crowd(s', i + 1)
  {
    var s1 := ReachAnnounced(s, i);
    assert s1.links[0].down[0] == Open(i);
    OpenHonouredIffRoom(s1, 0);
    ReachBrowsers(s, i);
    ReachRead(s1, 0);
    s' := DoAgentRead(s1, 0);
  }

  lemma ReachBrowsers(s: State, i: nat)
    requires Reachable(s) && i !in s.threads
    ensures i !in s.hub.browsers
  {
    BindingHolds(s);
  }

  lemma {:induction false} CrowdReachable(n: nat) returns (s: State)
    requires n <= 32
    ensures Reachable(s) && Crowd(s, n)
  {
    if n == 0 {
      assert Executes(INITIAL, []);
      ReachAction(INITIAL, Dial(0));
      var s1 := Next(INITIAL, Dial(0));
      ReachAction(s1, Attach(0));
      s := DoAttach(s1, 0);
    } else {
      var s1 := CrowdReachable(n - 1);
      s := AnotherBrowser(s1, n - 1);
    }
  }

  lemma FirstBrowserLeaves(s: State, n: nat) returns (s': State)
    requires Reachable(s) && Crowd(s, n) && n == 32
    ensures Reachable(s') && s'.links == s.links && s'.threads.Keys == s.threads.Keys
    ensures s'.hub.agent == Some(0) && |s'.hub.browsers| == 31
  {
    ReachAction(s, BrowserGone(0));
    var s1 := SetPhase(s, 0, Leaving);
    ReachAction(s1, Unregister(0));
    s' := SetPhase(s1.(hub := UnregisterBrowser(s1.hub, 0)), 0, OwesClose);
    assert s'.hub.browsers.Keys == s.hub.browsers.Keys - {0};
    assert |s'.hub.browsers.Keys| == |s.hub.browsers.Keys| - 1;
  }

  /** Browser 0 has left the hub's table but not yet written its close; browser 32 takes the slot. */
  lemma OpenCanBeDropped() returns (s: State)
    ensures Reachable(s) && Enabled(s, AgentRead(0)) && s.links[0].down[0] == Open(32)
    ensures 32 in s.hub.browsers && At(s, 32, Forwarding)
    ensures 32 !in Next(s, AgentRead(0)).links[0].sessions
  {
    var s0 := CrowdReachable(32);
    var s1 := FirstBrowserLeaves(s0, 32);
    s := ReachAnnounced(s1, 32);
    assert s.links[0].down[0] == Open(32);
    OpenHonouredIffRoom(s, 0);
  }
}
