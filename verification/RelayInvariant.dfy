/** The inductive invariant of the relay, one predicate per table. */
module RelayInvariant {
  import opened Prelude
  import opened RelaySpec
  import opened RelayProtocol

  // What an envelope does to the set of ids the agent may hold, capacity aside.
  function Absorb(ids: set<SessionId>, e: ToAgent): set<SessionId> {
    match e
    case Open(id) => ids + {id}
    case Payload(_, _) => ids
    case Close(id) => ids - {id}
  }

  /** The ids the agent may still hold once it has read all of `queue`. */
  function Drain(ids: set<SessionId>, queue: seq<ToAgent>): set<SessionId>
    decreases |queue|
  {
    if queue == [] then ids else Drain(Absorb(ids, queue[0]), queue[1..])
  }

  lemma {:induction false} DrainAppend(ids: set<SessionId>, queue: seq<ToAgent>, e: ToAgent)
    ensures Drain(ids, queue + [e]) == Absorb(Drain(ids, queue), e)
    decreases |queue|
  {
    if queue == [] {
      assert Drain(Absorb(ids, e), []) == Absorb(ids, e);
    } else {
      assert (queue + [e])[1..] == queue[1..] + [e];
      DrainAppend(Absorb(ids, queue[0]), queue[1..], e);
    }
  }

  lemma {:induction false} DrainMonotone(few: set<SessionId>, many: set<SessionId>, queue: seq<ToAgent>)
    requires few <= many
    ensures Drain(few, queue) <= Drain(many, queue)
    decreases |queue|
  {
    if queue != [] {
      DrainMonotone(Absorb(few, queue[0]), Absorb(many, queue[0]), queue[1..]);
    }
  }

  lemma {:induction false} DrainedOrClosing(ids: set<SessionId>, queue: seq<ToAgent>, id: SessionId)
    requires id in ids
    ensures id in Drain(ids, queue) || Close(id) in queue
    decreases |queue|
  {
    if queue != [] && queue[0] != Close(id) {
      DrainedOrClosing(Absorb(ids, queue[0]), queue[1..], id);
    }
  }

  // The browser has announced the session to its agent and not yet closed it there.
  predicate OwesCloseOn(t: Thread, c: ConnId) {
    t.conn == c && (t.phase.Forwarding? || t.phase.WriteFailed? || t.phase.Leaving? || t.phase.OwesClose?)
  }

  type Threads = map<SessionId, Thread>

  predicate KnownTo(threads: Threads, c: ConnId, id: SessionId) {
    id in threads && threads[id].conn == c && !threads[id].phase.Opening?
  }

  predicate HubOk(hub: Hub<ConnId, BrowserId>, links: map<ConnId, Link>) {
    && |hub.browsers| <= MAX_HUB_SESSIONS
    && (hub.agent.None? ==> hub.browsers == map[])
    && (hub.agent.Some? ==> hub.agent.value in links && links[hub.agent.value].phase.Serving?)
  }

  // A registered browser is bound to the agent that is attached right now.
  predicate BrowserOk(agent: Option<ConnId>, browser: BrowserId, t: Thread) {
    && agent == Some(t.conn)
    && t.browser == browser
    && (t.phase.Opening? || t.phase.Forwarding? || t.phase.WriteFailed? || t.phase.Leaving?)
  }

  predicate ThreadOk(agent: Option<ConnId>, link: Link, t: Thread) {
    && !link.phase.Pending?
    && (t.phase.WriteFailed? || t.phase.CloseFailed? || t.phase == Finished(false) ==> !link.toAgentOk)
    && (t.phase == Finished(false) ==> agent != Some(t.conn))
  }

  predicate MentionsOk(threads: Threads, c: ConnId, link: Link) {
    && (forall id | id in link.sessions :: KnownTo(threads, c, id))
    && (forall e | e in link.down :: KnownTo(threads, c, e.id))
    && (forall e | e in link.up :: KnownTo(threads, c, e.id))
  }

  // While the hub can reach the agent, draining the link leaves only sessions
  // whose browser still has to send its close.
  predicate OwedOk(threads: Threads, c: ConnId, link: Link) {
    link.toAgentOk ==>
      forall id | id in Drain(link.sessions.Keys, link.down) :: id in threads && OwesCloseOn(threads[id], c)
  }

  type Ptys = map<PtyId, Pty>

  predicate SlotOk(ptys: Ptys, c: ConnId, id: SessionId, slot: Option<PtyId>) {
    slot.Some? ==> slot.value in ptys && ptys[slot.value].conn == c && ptys[slot.value].id == id
  }

  predicate Unattended(ptys: Ptys, c: ConnId, p: PtyId) {
    p in ptys && ptys[p].conn == c && ptys[p].removedBy.Some?
  }

  predicate PcOk(ptys: Ptys, c: ConnId, link: Link) {
    match link.pc
    case Idle => true
    case Starting(id) => id in link.sessions && link.sessions[id].None?
    case Started(id, p) =>
      id in link.sessions && link.sessions[id].None? && p in ptys
      && ptys[p].conn == c && ptys[p].id == id && ptys[p].output.Silent?
    case Activating(id, p) => Owns(link.sessions, id, p) && p in ptys && ptys[p].output.Silent?
    case Releasing(gone, stop) =>
      gone != {} && (stop ==> link.sessions == map[]) && forall p | p in gone :: Unattended(ptys, c, p)
    case Stopped => link.sessions == map[]
  }

  predicate ReaderOk(ptys: Ptys, c: ConnId, link: Link) {
    && |link.sessions| <= MAX_AGENT_SESSIONS
    && PcOk(ptys, c, link)
    && (forall id | id in link.sessions :: SlotOk(ptys, c, id, link.sessions[id]))
  }

  // A PTY without a terminator is in its table entry, or on its way there.
  predicate Attended(link: Link, p: PtyId, id: SessionId) {
    Owns(link.sessions, id, p) || link.pc == Started(id, p)
  }

  predicate BeingReleased(link: Link, p: PtyId) {
    link.pc.Releasing? && p in link.pc.ptys
  }

  predicate HeldOk(link: Link, p: PtyId, pty: Pty) {
    && (pty.removedBy.None? <==> Attended(link, p, pty.id))
    && (pty.running ==> Attended(link, p, pty.id) || BeingReleased(link, p))
  }

  // Only a natural exit announces the end, and each part of it once.
  predicate HistoryOk(pty: Pty) {
    var natural := pty.removedBy == Some(ByNaturalExit);
    && (natural ==> !pty.running && !pty.output.Silent? && !pty.output.Reading?)
    && (pty.output.OwesExit? || pty.output.OwesClosed? ==> natural)
    && pty.exits == (if natural && !pty.output.OwesExit? then 1 else 0)
    && pty.closes == (if natural && pty.output.Ended? then 1 else 0)
  }

  predicate BrowserAt(s: State, id: SessionId) {
    id in s.hub.browsers ==> id in s.threads && BrowserOk(s.hub.agent, s.hub.browsers[id], s.threads[id])
  }

  predicate ThreadAt(s: State, id: SessionId) {
    id in s.threads ==>
      var t := s.threads[id];
      t.conn in s.links && ThreadOk(s.hub.agent, s.links[t.conn], t)
  }

  predicate LinkAt(s: State, c: ConnId) {
    c in s.links ==>
      var link := s.links[c];
      MentionsOk(s.threads, c, link) && OwedOk(s.threads, c, link) && ReaderOk(s.ptys, c, link)
  }

  predicate PtyAt(s: State, p: PtyId) {
    p in s.ptys ==>
      var pty := s.ptys[p];
      && pty.conn in s.links && KnownTo(s.threads, pty.conn, pty.id)
      && HeldOk(s.links[pty.conn], p, pty) && HistoryOk(pty)
  }

  // The explicit triggers keep one table's facts from unfolding the next table's.
  ghost predicate Inv(s: State) {
    && HubOk(s.hub, s.links)
    && (forall id {:trigger BrowserAt(s, id)} :: BrowserAt(s, id))
    && (forall id {:trigger ThreadAt(s, id)} :: ThreadAt(s, id))
    && (forall c {:trigger LinkAt(s, c)} :: LinkAt(s, c))
    && (forall p {:trigger PtyAt(s, p)} :: PtyAt(s, p))
  }

  // ---- steps that touch one link only

  lemma LinkStep(s: State, c: ConnId, link: Link)
    requires Inv(s) && c in s.links
    requires link.sessions == s.links[c].sessions && link.pc == s.links[c].pc
    requires link.phase == s.links[c].phase || (!link.phase.Pending? && s.hub.agent != Some(c))
    requires link.toAgentOk ==> s.links[c].toAgentOk && link.down == s.links[c].down
    requires forall e | e in link.down :: e in s.links[c].down
    requires forall e | e in link.up :: KnownTo(s.threads, c, e.id)
    ensures Inv(SetLink(s, c, link))
  {
    var s' := SetLink(s, c, link);
    forall id ensures BrowserAt(s', id) && ThreadAt(s', id) { assert BrowserAt(s, id) && ThreadAt(s, id); }
    forall d ensures LinkAt(s', d) { assert LinkAt(s, d); }
    forall p ensures PtyAt(s', p) { assert PtyAt(s, p); }
  }

  lemma HubStep(s: State, hub: Hub<ConnId, BrowserId>)
    requires Inv(s) && HubOk(hub, s.links)
    requires forall id | id in hub.browsers :: id in s.hub.browsers && hub.browsers[id] == s.hub.browsers[id]
    requires hub.agent != s.hub.agent ==> hub.browsers == map[]
    requires hub.agent.Some? && hub.agent != s.hub.agent ==>
      forall id | id in s.threads :: s.threads[id].conn == hub.agent.value ==> s.threads[id].phase != Finished(false)
    ensures Inv(s.(hub := hub))
  {
    var s' := s.(hub := hub);
    forall id ensures BrowserAt(s', id) && ThreadAt(s', id) { assert BrowserAt(s, id) && ThreadAt(s, id); }
    forall d ensures LinkAt(s', d) { assert LinkAt(s, d); }
    forall p ensures PtyAt(s', p) { assert PtyAt(s, p); }
  }

  lemma DialKeeps(s: State, c: ConnId)
    requires Inv(s) && c !in s.links
    ensures Inv(SetLink(s, c, Link(Pending, false, true, true, [], [], map[], Idle)))
  {
    var s' := SetLink(s, c, Link(Pending, false, true, true, [], [], map[], Idle));
    forall id ensures BrowserAt(s', id) && ThreadAt(s', id) { assert BrowserAt(s, id) && ThreadAt(s, id); }
    forall d ensures LinkAt(s', d) { assert LinkAt(s, d); }
    forall p ensures PtyAt(s', p) { assert PtyAt(s, p); }
  }

  lemma AttachKeeps(s: State, c: ConnId)
    requires Inv(s) && c in s.links && s.links[c].phase.Pending?
    ensures Inv(DoAttach(s, c))
  {
    assert LinkAt(s, c);
    if s.hub.agent.Some? {
      LinkStep(s, c, s.links[c].(phase := Returned, toAgentOk := false, toHubOk := false));
    } else {
      LinkStep(s, c, s.links[c].(phase := Serving));
      forall id | id in s.threads ensures s.threads[id].conn != c { assert ThreadAt(s, id); }
      HubStep(SetLink(s, c, s.links[c].(phase := Serving)), AttachAgent(s.hub, c));
    }
  }

  lemma RouteKeeps(s: State, c: ConnId)
    requires Inv(s) && c in s.links && s.links[c].up != []
    ensures Inv(DoRoute(s, c))
  {
    var link := s.links[c];
    LinkStep(s, c, link.(up := link.up[1..])) by { assert LinkAt(s, c); }
    var mid := SetLink(s, c, link.(up := link.up[1..]));
    if link.up[0].Closed? {
      HubStep(mid, RouteClose(s.hub, c, link.up[0].id));
    }
  }

  lemma DetachKeeps(s: State, c: ConnId)
    requires Inv(s) && c in s.links
    ensures Inv(Detach(s, c))
    ensures Detach(s, c).hub.agent != Some(c)
  {
    assert LinkAt(s, c);
    if s.hub.agent == Some(c) {
      HubStep(s, DetachAgent(s.hub, c));
      LinkStep(s.(hub := DetachAgent(s.hub, c)), c, s.links[c].(closing := true));
    }
  }

  // ---- steps of the hub's browser threads

  lemma ThreadStep(s: State, id: SessionId, phase: BrowserPhase)
    requires Inv(s) && id in s.threads && s.threads[id].conn in s.links
    requires !phase.Opening?
    requires phase.WriteFailed? || phase.CloseFailed? || phase == Finished(false) ==>
      !s.links[s.threads[id].conn].toAgentOk
    requires phase == Finished(false) ==> s.hub.agent != Some(s.threads[id].conn)
    requires id in s.hub.browsers ==> phase.Forwarding? || phase.WriteFailed? || phase.Leaving?
    requires var c := s.threads[id].conn;
      s.links[c].toAgentOk && id in Drain(s.links[c].sessions.Keys, s.links[c].down) ==>
        OwesCloseOn(s.threads[id].(phase := phase), c)
    ensures Inv(SetPhase(s, id, phase))
  {
    var s' := SetPhase(s, id, phase);
    forall j ensures BrowserAt(s', j) && ThreadAt(s', j) { assert BrowserAt(s, j) && ThreadAt(s, j); }
    forall d ensures LinkAt(s', d) { assert LinkAt(s, d); }
    forall p ensures PtyAt(s', p) { assert PtyAt(s, p); }
  }

  lemma RegisterKeeps(s: State, id: SessionId, b: BrowserId)
    requires Inv(s) && id !in s.threads && RegisterBrowser(s.hub, id, b).Ok?
    ensures Inv(DoRegister(s, id, b))
  {
    var s' := DoRegister(s, id, b);
    assert |s'.hub.browsers| <= |s.hub.browsers| + 1;
    forall j ensures BrowserAt(s', j) && ThreadAt(s', j) { assert BrowserAt(s, j) && ThreadAt(s, j); }
    forall d ensures LinkAt(s', d) { assert LinkAt(s, d); }
    forall p ensures PtyAt(s', p) { assert PtyAt(s, p); }
  }

  lemma SendDownKeeps(s: State, c: ConnId, e: ToAgent)
    requires Inv(s) && c in s.links && KnownTo(s.threads, c, e.id)
    requires e.Open? ==> OwesCloseOn(s.threads[e.id], c)
    ensures Inv(SetLink(s, c, SendDown(s.links[c], e)))
    ensures s.links[c].toAgentOk && e.Close? ==>
      var link := SendDown(s.links[c], e);
      e.id !in Drain(link.sessions.Keys, link.down)
  {
    assert LinkAt(s, c);
    DrainAppend(s.links[c].sessions.Keys, s.links[c].down, e);
    var s' := SetLink(s, c, SendDown(s.links[c], e));
    forall j ensures BrowserAt(s', j) && ThreadAt(s', j) { assert BrowserAt(s, j) && ThreadAt(s, j); }
    forall d ensures LinkAt(s', d) { assert LinkAt(s, d); }
    forall p ensures PtyAt(s', p) { assert PtyAt(s, p); }
  }

  lemma WriteKeeps(s: State, id: SessionId, e: ToAgent, sent: BrowserPhase, failed: BrowserPhase)
    requires Inv(s) && id in s.threads && s.threads[id].conn in s.links && e.id == id
    requires if e.Close? then s.threads[id].phase.OwesClose? && sent == Finished(true) && failed.CloseFailed?
             else (sent.Forwarding? || sent.Leaving?) && failed.WriteFailed?
                  && (if e.Open? then s.threads[id].phase.Opening? else s.threads[id].phase.Forwarding?)
    ensures Inv(WriteStep(s, id, e, sent, failed))
  {
    var c := s.threads[id].conn;
    assert LinkAt(s, c) && BrowserAt(s, id);
    if !s.links[c].toAgentOk {
      ThreadStep(s, id, failed);
      assert SetLink(s, c, SendDown(s.links[c], e)) == s;
    } else if e.Close? {
      SendDownKeeps(s, c, e);
      ThreadStep(SetLink(s, c, SendDown(s.links[c], e)), id, sent);
    } else {
      ThreadStep(s, id, sent);
      var mid := SetPhase(s, id, sent);
      SendDownKeeps(mid, c, e);
      assert SetLink(mid, c, SendDown(mid.links[c], e)) == WriteStep(s, id, e, sent, failed);
    }
  }

  lemma DetachFailedKeeps(s: State, id: SessionId)
    requires Inv(s) && Enabled(s, DetachFailed(id))
    ensures Inv(DoDetachFailed(s, id))
  {
    var c := s.threads[id].conn;
    assert ThreadAt(s, id);
    DetachKeeps(s, c);
    var mid := Detach(s, c);
    assert BrowserAt(mid, id);
    ThreadStep(mid, id, if s.threads[id].phase.WriteFailed? then Leaving else Finished(false));
  }

  lemma UnregisterKeeps(s: State, id: SessionId)
    requires Inv(s) && Enabled(s, Unregister(id))
    ensures Inv(SetPhase(s.(hub := UnregisterBrowser(s.hub, id)), id, OwesClose))
  {
    var hub := UnregisterBrowser(s.hub, id);
    assert hub.browsers.Keys == s.hub.browsers.Keys - {id};
    HubStep(s, hub);
    ThreadStep(s.(hub := hub), id, OwesClose);
  }

  // ---- steps of the agent

  predicate PtyFits(threads: Threads, c: ConnId, link: Link, ptys: Ptys, p: PtyId) {
    p in ptys && ptys[p].conn == c ==>
      KnownTo(threads, c, ptys[p].id) && HeldOk(link, p, ptys[p]) && HistoryOk(ptys[p])
  }

  // The table of connection `c`, its reader and its PTYs change together.
  lemma AgentStep(s: State, c: ConnId, link: Link, ptys: Ptys)
    requires Inv(s) && c in s.links
    requires link.phase == s.links[c].phase && link.toAgentOk == s.links[c].toAgentOk
    requires Drain(link.sessions.Keys, link.down) <= Drain(s.links[c].sessions.Keys, s.links[c].down)
    requires MentionsOk(s.threads, c, link) && ReaderOk(ptys, c, link)
    requires s.ptys.Keys <= ptys.Keys
    requires forall p | p in ptys :: p !in s.ptys ==> ptys[p].conn == c
    requires forall p | p in s.ptys :: ptys[p].conn == s.ptys[p].conn && (s.ptys[p].conn != c ==> ptys[p] == s.ptys[p])
    requires forall p {:trigger PtyFits(s.threads, c, link, ptys, p)} :: PtyFits(s.threads, c, link, ptys, p)
    ensures Inv(SetLink(s.(ptys := ptys), c, link))
  {
    var s' := SetLink(s.(ptys := ptys), c, link);
    forall j ensures BrowserAt(s', j) && ThreadAt(s', j) { assert BrowserAt(s, j) && ThreadAt(s, j); }
    forall d ensures LinkAt(s', d) { assert LinkAt(s, d) && LinkAt(s, c); }
    forall p ensures PtyAt(s', p) { assert PtyAt(s, p) && PtyFits(s.threads, c, link, ptys, p); }
  }
}
