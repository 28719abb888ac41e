/** The agent's own steps keep the invariant, hence so does every run. */
module RelaySafety {
  import opened Prelude
  import opened RelaySpec
  import opened RelayProtocol
  import opened RelayInvariant

  lemma ClosedEntryReader(s: State, c: ConnId, link: Link, id: SessionId, who: Terminator)
    requires Inv(s) && c in s.links && link.sessions == s.links[c].sessions
    ensures var gone := PtysOf(link.sessions, id);
      ReaderOk(Remove(s.ptys, gone, who), c,
               link.(sessions := CloseSession(link.sessions, id), pc := AfterRelease(gone, false)))
  {
    assert LinkAt(s, c);
    var gone := PtysOf(link.sessions, id);
    var ptys := Remove(s.ptys, gone, who);
    var sessions := CloseSession(link.sessions, id);
    assert sessions.Keys == link.sessions.Keys - {id};
    assert |sessions.Keys| <= |link.sessions.Keys|;
    forall j | j in link.sessions ensures SlotOk(ptys, c, j, link.sessions[j]) {
      assert SlotOk(s.ptys, c, j, link.sessions[j]);
    }
  }

  lemma ClosedEntryHeld(ptys: Ptys, c: ConnId, link: Link, id: SessionId, who: Terminator, p: PtyId)
    requires link.pc.Idle? || (link.pc.Activating? && link.pc.id == id)
    requires p in ptys && ptys[p].conn == c && HeldOk(link, p, ptys[p]) && HistoryOk(ptys[p])
    requires id in link.sessions ==> SlotOk(ptys, c, id, link.sessions[id])
    requires !who.ByNaturalExit?
    ensures var gone := PtysOf(link.sessions, id);
      var pty := Remove(ptys, gone, who)[p];
      HeldOk(link.(sessions := CloseSession(link.sessions, id), pc := AfterRelease(gone, false)), p, pty)
      && HistoryOk(pty)
  {
    var gone := PtysOf(link.sessions, id);
    assert p in gone ==> Owns(link.sessions, id, p) && ptys[p].id == id;
  }

  // closeSession on the read loop; `link` is the agent's link with some envelopes read.
  lemma CloseEntryKeeps(s: State, c: ConnId, link: Link, id: SessionId, who: Terminator)
    requires Inv(s) && c in s.links
    requires link.phase == s.links[c].phase && link.toAgentOk == s.links[c].toAgentOk
    requires link.sessions == s.links[c].sessions && link.pc == s.links[c].pc
    requires link.pc.Idle? || (link.pc.Activating? && link.pc.id == id)
    requires Drain(link.sessions.Keys - {id}, link.down) <= Drain(s.links[c].sessions.Keys, s.links[c].down)
    requires MentionsOk(s.threads, c, link)
    requires !who.ByNaturalExit?
    ensures Inv(CloseEntry(s, c, link, id, who))
  {
    hide Inv, PtyFits, ReaderOk, PtysOf, AfterRelease, MentionsOk;
    var gone := PtysOf(link.sessions, id);
    var ptys := Remove(s.ptys, gone, who);
    var after := link.(sessions := CloseSession(link.sessions, id), pc := AfterRelease(gone, false));
    assert after.sessions.Keys == link.sessions.Keys - {id};
    ClosedEntryReader(s, c, link, id, who);
    RemovedAreOwn(s, c, id, who);
    forall p ensures PtyFits(s.threads, c, after, ptys, p) {
      ClosedEntryFits(s, c, link, id, who, p);
    }
    assert MentionsOk(s.threads, c, after) by { SameMentions(s.threads, c, link, after); }
    AgentStep(s, c, after, ptys);
  }

  lemma RemovedAreOwn(s: State, c: ConnId, id: SessionId, who: Terminator)
    requires Inv(s) && c in s.links
    ensures var ptys := Remove(s.ptys, PtysOf(s.links[c].sessions, id), who);
      && ptys.Keys == s.ptys.Keys
      && forall p | p in s.ptys :: ptys[p].conn == s.ptys[p].conn && (s.ptys[p].conn != c ==> ptys[p] == s.ptys[p])
  {
    assert LinkAt(s, c);
    assert id in s.links[c].sessions ==> SlotOk(s.ptys, c, id, s.links[c].sessions[id]);
  }

  lemma SameMentions(threads: map<SessionId, Thread>, c: ConnId, link: Link, after: Link)
    requires MentionsOk(threads, c, link) && after.up == link.up && after.down == link.down
    requires after.sessions.Keys <= link.sessions.Keys
    ensures MentionsOk(threads, c, after)
  {
  }

  lemma ClosedEntryFits(s: State, c: ConnId, link: Link, id: SessionId, who: Terminator, p: PtyId)
    requires Inv(s) && c in s.links && link.sessions == s.links[c].sessions && link.pc == s.links[c].pc
    requires link.pc.Idle? || (link.pc.Activating? && link.pc.id == id)
    requires !who.ByNaturalExit?
    ensures var gone := PtysOf(link.sessions, id);
      var after := link.(sessions := CloseSession(link.sessions, id), pc := AfterRelease(gone, false));
      PtyFits(s.threads, c, after, Remove(s.ptys, gone, who), p)
  {
    assert id in link.sessions ==> SlotOk(s.ptys, c, id, link.sessions[id]) by { assert LinkAt(s, c); }
    assert PtyAt(s, p);
    if p in s.ptys && s.ptys[p].conn == c {
      ClosedEntryHeld(s.ptys, c, link, id, who, p);
    }
  }

  // The reader moves on without touching a PTY or losing an entry.
  lemma ReaderStep(s: State, c: ConnId, link: Link)
    requires Inv(s) && c in s.links
    requires link.phase == s.links[c].phase && link.toAgentOk == s.links[c].toAgentOk
    requires forall id | id in s.links[c].sessions ::
      id in link.sessions && link.sessions[id] == s.links[c].sessions[id]
    requires forall id | id in link.sessions && id !in s.links[c].sessions :: link.sessions[id].None?
    requires |link.sessions| <= MAX_AGENT_SESSIONS
    requires Drain(link.sessions.Keys, link.down) <= Drain(s.links[c].sessions.Keys, s.links[c].down)
    requires MentionsOk(s.threads, c, link)
    requires s.links[c].pc.Idle? || s.links[c].pc.Starting?
    requires link.pc.Idle? || (link.pc.Starting? && link.pc.id in link.sessions && link.sessions[link.pc.id].None?)
    ensures Inv(SetLink(s, c, link))
  {
    assert LinkAt(s, c);
    forall p ensures PtyFits(s.threads, c, link, s.ptys, p)
    {
      assert PtyAt(s, p);
    }
    AgentStep(s, c, link, s.ptys);
    assert s.(ptys := s.ptys) == s;
  }

  lemma OpenKeeps(s: State, c: ConnId)
    requires Inv(s) && Enabled(s, AgentRead(c)) && s.links[c].down[0].Open?
    ensures Inv(DoAgentRead(s, c))
  {
    hide Inv, MentionsOk;
    var link := s.links[c];
    var id := link.down[0].id;
    var after := link.(down := link.down[1..], sessions := OpenSession(link.sessions, id));
    DrainMonotone(after.sessions.Keys, link.sessions.Keys + {id}, after.down);
    OpenRead(s, c);
    ReaderStep(s, c, after);
  }

  // What is left once an open was read.
  lemma OpenRead(s: State, c: ConnId)
    requires Inv(s) && Enabled(s, AgentRead(c)) && s.links[c].down[0].Open?
    ensures var link := s.links[c];
      var sessions := OpenSession(link.sessions, link.down[0].id);
      && |sessions| <= MAX_AGENT_SESSIONS
      && MentionsOk(s.threads, c, link.(down := link.down[1..], sessions := sessions))
  {
    assert LinkAt(s, c);
    assert s.links[c].down[0] in s.links[c].down;
  }

  lemma PayloadKeeps(s: State, c: ConnId)
    requires Inv(s) && Enabled(s, AgentRead(c)) && s.links[c].down[0].Payload?
    ensures Inv(DoAgentRead(s, c))
  {
    hide Inv, CloseEntry;
    var link := s.links[c];
    var Payload(id, request) := link.down[0];
    var rest := link.(down := link.down[1..]);
    if request.Malformed?
       || (id in link.sessions && (request.Connect? || request.Refused? || link.sessions[id].None?)) {
      PayloadAnswered(s, c);
    } else if id in link.sessions && request.Disconnect? {
      PayloadRead(s, c);
      DrainMonotone(link.sessions.Keys - {id}, link.sessions.Keys, rest.down);
      CloseEntryKeeps(s, c, rest, id, ByDisconnect);
    } else {
      PayloadRead(s, c);
      ReaderStep(s, c, rest);
    }
  }

  // What is left once a payload was read.
  lemma PayloadRead(s: State, c: ConnId)
    requires Inv(s) && Enabled(s, AgentRead(c)) && s.links[c].down[0].Payload?
    ensures var link := s.links[c];
      var rest := link.(down := link.down[1..]);
      && KnownTo(s.threads, c, link.down[0].id) && MentionsOk(s.threads, c, rest)
      && MentionsOk(s.threads, c, SendUp(rest, Reply(link.down[0].id, Error)))
      && |link.sessions| <= MAX_AGENT_SESSIONS
  {
    assert LinkAt(s, c);
    assert s.links[c].down[0] in s.links[c].down;
  }

  lemma PayloadAnswered(s: State, c: ConnId)
    requires Inv(s) && Enabled(s, AgentRead(c)) && s.links[c].down[0].Payload?
    requires var link := s.links[c];
      var Payload(id, request) := link.down[0];
      request.Malformed? || (id in link.sessions && (request.Connect? || request.Refused? || link.sessions[id].None?))
    ensures Inv(DoAgentRead(s, c))
  {
    hide Inv, CloseEntry;
    PayloadRead(s, c);
    var link := s.links[c];
    var Payload(id, request) := link.down[0];
    var rest := link.(down := link.down[1..]);
    if !request.Malformed? && request.Connect? && link.sessions[id].None? {
      ReaderStep(s, c, rest.(pc := Starting(id)));
    } else {
      ReaderStep(s, c, SendUp(rest, Reply(id, Error)));
    }
  }

  lemma CloseKeeps(s: State, c: ConnId)
    requires Inv(s) && Enabled(s, AgentRead(c)) && s.links[c].down[0].Close?
    ensures Inv(DoAgentRead(s, c))
  {
    assert LinkAt(s, c);
    var link := s.links[c];
    CloseEntryKeeps(s, c, link.(down := link.down[1..]), link.down[0].id, ByClose);
  }

  lemma AgentReadKeeps(s: State, c: ConnId)
    requires Inv(s) && Enabled(s, AgentRead(c))
    ensures Inv(DoAgentRead(s, c))
  {
    match s.links[c].down[0]
    case Open(_) => OpenKeeps(s, c);
    case Payload(_, _) => PayloadKeeps(s, c);
    case Close(_) => CloseKeeps(s, c);
  }

  lemma StartPtyKeeps(s: State, c: ConnId, p: PtyId)
    requires Inv(s) && Enabled(s, StartPty(c, p))
    ensures Inv(DoStartPty(s, c, p))
  {
    assert LinkAt(s, c);
    var link := s.links[c];
    var id := link.pc.id;
    var ptys := s.ptys[p := Pty(c, id, true, Silent, None, 0, 0)];
    var after := link.(pc := Started(id, p));
    forall j | j in link.sessions ensures SlotOk(ptys, c, j, link.sessions[j]) {
      assert SlotOk(s.ptys, c, j, link.sessions[j]);
    }
    forall q ensures PtyFits(s.threads, c, after, ptys, q)
    {
      assert PtyAt(s, q);
    }
    AgentStep(s, c, after, ptys);
  }

  lemma StartFailsKeeps(s: State, c: ConnId)
    requires Inv(s) && Enabled(s, StartFails(c))
    ensures Inv(SetLink(s, c, SendUp(s.links[c], Reply(s.links[c].pc.id, Error)).(pc := Idle)))
  {
    assert LinkAt(s, c);
    ReaderStep(s, c, SendUp(s.links[c], Reply(s.links[c].pc.id, Error)).(pc := Idle));
  }

  lemma InstallKeeps(s: State, c: ConnId)
    requires Inv(s) && Enabled(s, Install(c))
    ensures Inv(DoInstall(s, c))
  {
    assert LinkAt(s, c);
    var link := s.links[c];
    var Started(id, p) := link.pc;
    var after := link.(sessions := link.sessions[id := Some(p)], pc := Activating(id, p));
    assert after.sessions.Keys == link.sessions.Keys;
    assert |after.sessions.Keys| == |link.sessions.Keys|;
    forall q ensures PtyFits(s.threads, c, after, s.ptys, q)
    {
      assert PtyAt(s, q);
    }
    AgentStep(s, c, after, s.ptys);
    assert s.(ptys := s.ptys) == s;
  }

  lemma ActivateKeeps(s: State, c: ConnId)
    requires Inv(s) && Enabled(s, Activate(c))
    ensures Inv(DoActivate(s, c))
  {
    assert LinkAt(s, c);
    var link := s.links[c];
    var Activating(id, p) := link.pc;
    if link.toHubOk {
      var ptys := s.ptys[p := s.ptys[p].(output := Reading)];
      var after := SendUp(SendUp(link, Reply(id, Ready)), Reply(id, FileBrowser)).(pc := Idle);
      forall j | j in link.sessions ensures SlotOk(ptys, c, j, link.sessions[j]) {
        assert SlotOk(s.ptys, c, j, link.sessions[j]);
      }
      forall q ensures PtyFits(s.threads, c, after, ptys, q)
      {
        assert PtyAt(s, q) && PtyAt(s, p);
      }
      AgentStep(s, c, after, ptys);
    } else {
      DrainMonotone(link.sessions.Keys - {id}, link.sessions.Keys, link.down);
      CloseEntryKeeps(s, c, link, id, ByFailedActivation);
    }
  }

  lemma ReleaseKeeps(s: State, c: ConnId, p: PtyId)
    requires Inv(s) && Enabled(s, Release(c, p))
    ensures Inv(DoRelease(s, c, p))
  {
    assert LinkAt(s, c) && PtyAt(s, p);
    var link := s.links[c];
    assert Unattended(s.ptys, c, p);
    var ptys := s.ptys[p := s.ptys[p].(running := false)];
    var after := link.(pc := AfterRelease(link.pc.ptys - {p}, link.pc.stop));
    forall j | j in link.sessions ensures SlotOk(ptys, c, j, link.sessions[j]) {
      assert SlotOk(s.ptys, c, j, link.sessions[j]);
    }
    forall q | q in link.pc.ptys ensures Unattended(ptys, c, q) { assert Unattended(s.ptys, c, q); }
    forall q ensures PtyFits(s.threads, c, after, ptys, q)
    {
      assert PtyAt(s, q);
    }
    AgentStep(s, c, after, ptys);
  }

  lemma AgentStopsKeeps(s: State, c: ConnId)
    requires Inv(s) && Enabled(s, AgentStops(c))
    ensures Inv(DoAgentStops(s, c))
  {
    var link := s.links[c];
    var gone := AllPtys(link.sessions);
    var ptys := Remove(s.ptys, gone, ByLinkLoss);
    var after := link.(sessions := map[], pc := AfterRelease(gone, true));
    DrainMonotone({}, link.sessions.Keys, link.down);
    assert after.sessions.Keys == {};
    forall p | p in gone ensures p in s.ptys && s.ptys[p].conn == c && Owns(link.sessions, s.ptys[p].id, p) {
      assert LinkAt(s, c);
      var j :| j in link.sessions && link.sessions[j] == Some(p);
      assert SlotOk(s.ptys, c, j, link.sessions[j]);
    }
    assert ReaderOk(ptys, c, after) by {
      forall p | p in gone ensures Unattended(ptys, c, p) {}
    }
    assert MentionsOk(s.threads, c, after) by { assert LinkAt(s, c); }
    forall p ensures PtyFits(s.threads, c, after, ptys, p) {
      assert PtyAt(s, p);
      assert p in s.ptys && s.ptys[p].conn == c && p !in gone ==> !Owns(link.sessions, s.ptys[p].id, p);
    }
    AgentStep(s, c, after, ptys);
  }

  // ---- steps of a PTY

  // Only PTY `p` changes, and the table keeps its entry if it has one.
  lemma PtyStep(s: State, p: PtyId, pty: Pty, link: Link)
    requires Inv(s) && p in s.ptys && s.ptys[p].conn in s.links
    requires pty.conn == s.ptys[p].conn && pty.id == s.ptys[p].id && pty.removedBy == s.ptys[p].removedBy
    requires HistoryOk(pty) && (pty.running ==> s.ptys[p].running)
    requires pty.output.Silent? <==> s.ptys[p].output.Silent?
    requires link == s.links[pty.conn].(up := link.up)
    requires forall e | e in link.up :: e in s.links[pty.conn].up || e.id == pty.id
    ensures Inv(SetLink(s.(ptys := s.ptys[p := pty]), pty.conn, link))
  {
    var c := pty.conn;
    var ptys := s.ptys[p := pty];
    assert MentionsOk(s.threads, c, link) by { assert LinkAt(s, c) && PtyAt(s, p); }
    assert ReaderOk(ptys, c, link) by {
      assert LinkAt(s, c);
      forall j | j in link.sessions ensures SlotOk(ptys, c, j, link.sessions[j]) {
        assert SlotOk(s.ptys, c, j, link.sessions[j]);
      }
      if link.pc.Releasing? {
        forall q | q in link.pc.ptys ensures Unattended(ptys, c, q) { assert Unattended(s.ptys, c, q); }
      }
    }
    forall q ensures PtyFits(s.threads, c, link, ptys, q) { assert PtyAt(s, q); }
    AgentStep(s, c, link, ptys);
  }

  // sessionExited finds its own PTY in the table.
  lemma NaturalExitKeeps(s: State, p: PtyId)
    requires Inv(s) && Enabled(s, OutputEnds(p))
    requires Owns(s.links[s.ptys[p].conn].sessions, s.ptys[p].id, p)
    ensures Inv(DoOutputEnds(s, p))
  {
    var pty := s.ptys[p].(output := OwesExit, removedBy := Some(ByNaturalExit));
    var c := pty.conn;
    var prior := s.links[c];
    var link := prior.(sessions := SessionExited(prior.sessions, pty.id, p));
    var ptys := s.ptys[p := pty];
    hide Inv, ReaderOk, PtyFits, MentionsOk;
    assert link.sessions.Keys == prior.sessions.Keys - {pty.id};
    DrainMonotone(link.sessions.Keys, prior.sessions.Keys, link.down);
    assert MentionsOk(s.threads, c, prior) by { LinkMentions(s, c); }
    SameMentions(s.threads, c, prior, link);
    ExitedReader(s, p);
    forall q ensures PtyFits(s.threads, c, link, ptys, q) {
      ExitedFits(s, p, q);
    }
    AgentStep(s, c, link, ptys);
  }

  lemma LinkMentions(s: State, c: ConnId)
    requires Inv(s) && c in s.links
    ensures MentionsOk(s.threads, c, s.links[c])
  {
    assert LinkAt(s, c);
  }

  lemma ExitedReader(s: State, p: PtyId)
    requires Inv(s) && Enabled(s, OutputEnds(p))
    requires Owns(s.links[s.ptys[p].conn].sessions, s.ptys[p].id, p)
    ensures var pty := s.ptys[p].(output := OwesExit, removedBy := Some(ByNaturalExit));
      var prior := s.links[pty.conn];
      ReaderOk(s.ptys[p := pty], pty.conn, prior.(sessions := SessionExited(prior.sessions, pty.id, p)))
  {
    var pty := s.ptys[p].(output := OwesExit, removedBy := Some(ByNaturalExit));
    var c, ptys := pty.conn, s.ptys[p := pty];
    var prior := s.links[c];
    var link := prior.(sessions := SessionExited(prior.sessions, pty.id, p));
    assert LinkAt(s, c) && PtyAt(s, p);
    assert link.sessions.Keys == prior.sessions.Keys - {pty.id};
    assert |link.sessions.Keys| <= |prior.sessions.Keys|;
    forall j | j in link.sessions ensures SlotOk(ptys, c, j, link.sessions[j]) {
      assert SlotOk(s.ptys, c, j, prior.sessions[j]);
    }
    if link.pc.Releasing? {
      forall q | q in link.pc.ptys ensures Unattended(ptys, c, q) { assert Unattended(s.ptys, c, q); }
    }
  }

  lemma ExitedFits(s: State, p: PtyId, q: PtyId)
    requires Inv(s) && Enabled(s, OutputEnds(p))
    requires Owns(s.links[s.ptys[p].conn].sessions, s.ptys[p].id, p)
    ensures var pty := s.ptys[p].(output := OwesExit, removedBy := Some(ByNaturalExit));
      var prior := s.links[pty.conn];
      var link := prior.(sessions := SessionExited(prior.sessions, pty.id, p));
      PtyFits(s.threads, pty.conn, link, s.ptys[p := pty], q)
  {
    assert LinkAt(s, s.ptys[p].conn) && PtyAt(s, p) && PtyAt(s, q);
  }

  lemma OutputEndsKeeps(s: State, p: PtyId)
    requires Inv(s) && Enabled(s, OutputEnds(p))
    ensures Inv(DoOutputEnds(s, p))
  {
    var pty := s.ptys[p];
    var link := s.links[pty.conn];
    if Owns(link.sessions, pty.id, p) {
      NaturalExitKeeps(s, p);
    } else {
      assert HistoryOk(pty) by { assert PtyAt(s, p); }
      PtyStep(s, p, pty.(output := Ended), link);
      assert SetLink(s.(ptys := s.ptys[p := pty.(output := Ended)]), pty.conn, link) == DoOutputEnds(s, p);
    }
  }

  lemma ShellEndsKeeps(s: State, p: PtyId)
    requires Inv(s) && p in s.ptys
    ensures Inv(s.(ptys := s.ptys[p := s.ptys[p].(running := false)]))
  {
    assert PtyAt(s, p);
    var pty := s.ptys[p].(running := false);
    PtyStep(s, p, pty, s.links[pty.conn]);
    assert SetLink(s.(ptys := s.ptys[p := pty]), pty.conn, s.links[pty.conn]) == s.(ptys := s.ptys[p := pty]);
  }

  lemma EmitOutputKeeps(s: State, p: PtyId)
    requires Inv(s) && Enabled(s, EmitOutput(p))
    ensures Inv(DoEmitOutput(s, p))
  {
    var pty := s.ptys[p];
    assert HistoryOk(pty) by { assert PtyAt(s, p); }
    PtyStep(s, p, pty, SendUp(s.links[pty.conn], Reply(pty.id, Output)));
    assert s.(ptys := s.ptys[p := pty]) == s;
  }

  lemma SendExitKeeps(s: State, p: PtyId)
    requires Inv(s) && Enabled(s, SendExit(p))
    ensures Inv(DoSendExit(s, p))
  {
    var pty := s.ptys[p];
    assert HistoryOk(pty) by { assert PtyAt(s, p); }
    PtyStep(s, p, pty.(output := OwesClosed, exits := pty.exits + 1),
            SendUp(s.links[pty.conn], Reply(pty.id, Exit)));
  }

  lemma SendClosedKeeps(s: State, p: PtyId)
    requires Inv(s) && Enabled(s, SendClosed(p))
    ensures Inv(DoSendClosed(s, p))
  {
    var pty := s.ptys[p];
    assert HistoryOk(pty) by { assert PtyAt(s, p); }
    PtyStep(s, p, pty.(output := Ended, closes := pty.closes + 1),
            SendUp(s.links[pty.conn], Closed(pty.id)));
  }

  // ---- every run

  lemma BreakKeeps(s: State, c: ConnId, toAgentOk: bool, toHubOk: bool)
    requires Inv(s) && c in s.links && (toAgentOk ==> s.links[c].toAgentOk)
    ensures Inv(SetLink(s, c, s.links[c].(toAgentOk := toAgentOk, toHubOk := toHubOk)))
  {
    assert LinkAt(s, c);
    LinkStep(s, c, s.links[c].(toAgentOk := toAgentOk, toHubOk := toHubOk));
  }

  lemma ServeReturnsKeeps(s: State, c: ConnId)
    requires Inv(s) && Enabled(s, ServeReturns(c))
    ensures Inv(DoServeReturns(s, c))
  {
    DetachKeeps(s, c);
    var mid := Detach(s, c);
    assert LinkAt(mid, c);
    LinkStep(mid, c, mid.links[c].(phase := Returned, closing := true));
  }

  lemma BrowserGoneKeeps(s: State, id: SessionId)
    requires Inv(s) && Enabled(s, BrowserGone(id))
    ensures Inv(SetPhase(s, id, Leaving))
  {
    assert LinkAt(s, s.threads[id].conn) && BrowserAt(s, id);
    ThreadStep(s, id, Leaving);
  }

  predicate ReaderAction(a: Action) {
    a.AgentRead? || a.StartPty? || a.StartFails? || a.Install? || a.Activate? || a.Release? || a.AgentStops?
  }

  predicate PtyAction(a: Action) {
    a.ShellEnds? || a.EmitOutput? || a.OutputEnds? || a.SendExit? || a.SendClosed?
  }

  lemma HubActionKeeps(s: State, a: Action)
    requires Inv(s) && Enabled(s, a) && !ReaderAction(a) && !PtyAction(a)
    ensures Inv(Next(s, a))
  {
    hide SetLink, SetPhase, SendUp, SendDown, Inv, DoAttach, DoRoute, DoServeReturns, DoRegister, WriteStep,
      DoDetachFailed, DoAgentRead, DoStartPty, DoInstall, DoActivate, DoRelease, DoAgentStops, DoEmitOutput,
      DoOutputEnds, DoSendExit, DoSendClosed;
    match a
    case Dial(c) => DialKeeps(s, c);
    case Attach(c) => AttachKeeps(s, c);
    case Route(c) => RouteKeeps(s, c);
    case ServeReturns(c) => ServeReturnsKeeps(s, c);
    case CloseLink(c) => BreakKeeps(s, c, false, false);
    case BreakToAgent(c) => BreakKeeps(s, c, false, s.links[c].toHubOk);
    case BreakToHub(c) => BreakKeeps(s, c, s.links[c].toAgentOk, false);
    case Register(id, b) => RegisterKeeps(s, id, b);
    case WriteOpen(id) => WriteKeeps(s, id, Open(id), Forwarding, WriteFailed);
    case Forward(id, request) =>
      WriteKeeps(s, id, Payload(id, request), if request.Disconnect? then Leaving else Forwarding, WriteFailed);
    case BrowserGone(id) => BrowserGoneKeeps(s, id);
    case DetachFailed(id) => DetachFailedKeeps(s, id);
    case Unregister(id) => UnregisterKeeps(s, id);
    case WriteClose(id) => WriteKeeps(s, id, Close(id), Finished(true), CloseFailed);
    case _ =>
  }

  lemma ReaderActionKeeps(s: State, a: Action)
    requires Inv(s) && Enabled(s, a) && ReaderAction(a)
    ensures Inv(Next(s, a))
  {
    hide SetLink, SetPhase, SendUp, SendDown, Inv, DoAttach, DoRoute, DoServeReturns, DoRegister, WriteStep,
      DoDetachFailed, DoAgentRead, DoStartPty, DoInstall, DoActivate, DoRelease, DoAgentStops, DoEmitOutput,
      DoOutputEnds, DoSendExit, DoSendClosed;
    match a
    case AgentRead(c) => AgentReadKeeps(s, c);
    case StartPty(c, p) => StartPtyKeeps(s, c, p);
    case StartFails(c) => StartFailsKeeps(s, c);
    case Install(c) => InstallKeeps(s, c);
    case Activate(c) => ActivateKeeps(s, c);
    case Release(c, p) => ReleaseKeeps(s, c, p);
    case AgentStops(c) => AgentStopsKeeps(s, c);
    case _ =>
  }

  lemma PtyActionKeeps(s: State, a: Action)
    requires Inv(s) && Enabled(s, a) && PtyAction(a)
    ensures Inv(Next(s, a))
  {
    hide SetLink, SetPhase, SendUp, SendDown, Inv, DoAttach, DoRoute, DoServeReturns, DoRegister, WriteStep,
      DoDetachFailed, DoAgentRead, DoStartPty, DoInstall, DoActivate, DoRelease, DoAgentStops, DoEmitOutput,
      DoOutputEnds, DoSendExit, DoSendClosed;
    match a
    case ShellEnds(p) => ShellEndsKeeps(s, p);
    case EmitOutput(p) => EmitOutputKeeps(s, p);
    case OutputEnds(p) => OutputEndsKeeps(s, p);
    case SendExit(p) => SendExitKeeps(s, p);
    case SendClosed(p) => SendClosedKeeps(s, p);
    case _ =>
  }

  lemma StepKeeps(s: State, a: Action)
    requires Inv(s) && Enabled(s, a)
    ensures Inv(Next(s, a))
  {
    hide Inv, Next;
    if ReaderAction(a) {
      ReaderActionKeeps(s, a);
    } else if PtyAction(a) {
      PtyActionKeeps(s, a);
    } else {
      HubActionKeeps(s, a);
    }
  }

  lemma {:induction false} RunKeeps(s: State, run: seq<Action>)
    requires Inv(s) && Executes(s, run)
    ensures Inv(After(s, run))
    decreases |run|
  {
    if run != [] {
      StepKeeps(s, run[0]);
      RunKeeps(Next(s, run[0]), run[1..]);
    }
  }

  ghost predicate Reachable(s: State) {
    exists run :: Executes(INITIAL, run) && After(INITIAL, run) == s
  }

  lemma ReachableKeeps(s: State)
    requires Reachable(s)
    ensures Inv(s)
  {
    var run :| Executes(INITIAL, run) && After(INITIAL, run) == s;
    RunKeeps(INITIAL, run);
  }
}
