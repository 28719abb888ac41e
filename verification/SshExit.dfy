/**
 How an SSH terminal session ends (`backend/handlers/server.go`): the keepalive,
 the transport monitor, the user and the remote shell race to end it, each in
 critical sections of one mutex, and the page reconnects only if the transport
 failed.
 */
module SshExit {
  import opened Prelude

  // How waiting for the remote shell returned.
  datatype WaitResult = Finished | ExitReported | ExitMissing | TransportError

  /** Only an error of the transport itself counts; an exit status, reported or missing, does not. */
  predicate IsRetryable(result: WaitResult) {
    result.TransportError?
  }

  datatype Session = Session(
    closed: bool,
    transportFailure: bool,
    released: bool,        // close has run
    browserStarted: bool,  // the file browser's initialisation has run
    browser: bool,         // an SFTP client is stored
    openBrowsers: int)     // SFTP clients opened and not yet closed

  const STARTED := Session(false, false, false, false, false, 0)

  // ---- the critical sections

  datatype Event =
    | FailureSeen                      // by the keepalive or the monitor
    | Close                            // by the user, the keepalive or the exit goroutine
    | Finalize(result: WaitResult)     // by the exit goroutine
    | BrowserReady                     // the SFTP client finished opening

  predicate Enabled(s: Session, e: Event) {
    e.BrowserReady? ==> !s.browserStarted
  }

  function Record(s: Session): Session {
    if s.closed then s else s.(transportFailure := true)
  }

  function Release(s: Session): Session {
    if s.released then s
    else s.(closed := true, released := true, browser := false,
            openBrowsers := if s.browser then s.openBrowsers - 1 else s.openBrowsers)
  }

  function Verdict(s: Session, result: WaitResult): bool {
    if s.closed && !s.transportFailure then false else IsRetryable(result) || s.transportFailure
  }

  function Store(s: Session): Session {
    if s.closed then s.(browserStarted := true)
    else s.(browserStarted := true, browser := true, openBrowsers := s.openBrowsers + 1)
  }

  function Step(s: Session, e: Event): Session {
    match e
    case FailureSeen => Record(s)
    case Close => Release(s)
    case Finalize(_) => s.(closed := true)
    case BrowserReady => if Enabled(s, e) then Store(s) else s
  }

  function Run(s: Session, events: seq<Event>): Session
    decreases |events|
  {
    if events == [] then s else Step(Run(s, events[..|events| - 1]), events[|events| - 1])
  }

  // ---- what happened, read off the events alone

  predicate Closes(e: Event) {
    e.Close? || e.Finalize?
  }

  predicate WasClosed(events: seq<Event>) {
    exists j :: 0 <= j < |events| && Closes(events[j])
  }

  /** A transport failure was seen before anything closed the session. */
  predicate FailedFirst(events: seq<Event>) {
    exists i :: 0 <= i < |events| && events[i].FailureSeen? && !WasClosed(events[..i])
  }

  lemma {:induction false} FlagsTellHistory(events: seq<Event>)
    ensures Run(STARTED, events).closed <==> WasClosed(events)
    ensures Run(STARTED, events).transportFailure <==> FailedFirst(events)
    ensures Run(STARTED, events).released ==> Run(STARTED, events).closed
    decreases |events|
  {
    if events != [] {
      var front, last := events[..|events| - 1], events[|events| - 1];
      FlagsTellHistory(front);
      if WasClosed(front) {
        var j :| 0 <= j < |front| && Closes(front[j]);
        assert Closes(events[j]);
      }
      if Closes(last) {
        assert Closes(events[|events| - 1]);
      }
      if FailedFirst(front) {
        var i :| 0 <= i < |front| && front[i].FailureSeen? && !WasClosed(front[..i]);
        assert events[..i] == front[..i] && events[i].FailureSeen?;
      }
      if FailedFirst(events) {
        var i :| 0 <= i < |events| && events[i].FailureSeen? && !WasClosed(events[..i]);
        if i < |front| {
          assert front[..i] == events[..i] && front[i].FailureSeen?;
        }
      }
    }
  }

  /**
   Over every interleaving, the page is told to reconnect exactly when a
   transport failure was seen before anything closed the session, or nothing
   had closed it yet and the wait itself failed in the transport.
   */
  lemma VerdictIsExact(events: seq<Event>, result: WaitResult)
    ensures Verdict(Run(STARTED, events), result) <==>
      FailedFirst(events) || (!WasClosed(events) && result.TransportError?)
  {
    FlagsTellHistory(events);
  }

  lemma {:induction false} FlagIsFrozen(s: Session, events: seq<Event>)
    requires s.closed
    ensures Run(s, events).closed && Run(s, events).transportFailure == s.transportFailure
    decreases |events|
  {
    if events != [] {
      FlagIsFrozen(s, events[..|events| - 1]);
    }
  }

  lemma {:induction false} RunAppend(s: Session, a: seq<Event>, b: seq<Event>)
    ensures Run(s, a + b) == Run(Run(s, a), b)
    decreases |b|
  {
    if b == [] {
      assert a + b == a;
    } else {
      assert (a + b)[..|a + b| - 1] == a + b[..|b| - 1];
      RunAppend(s, a, b[..|b| - 1]);
    }
  }

  /** Once the session is closed, whatever comes later cannot change what the exit is told. */
  lemma VerdictIsSettled(before: seq<Event>, after: seq<Event>, result: WaitResult)
    requires WasClosed(before)
    ensures Verdict(Run(STARTED, before + after), result) <==> FailedFirst(before)
  {
    FlagsTellHistory(before);
    FlagIsFrozen(Run(STARTED, before), after);
    RunAppend(STARTED, before, after);
  }

  // ---- the file browser's SFTP client

  ghost predicate BrowserFits(s: Session) {
    && s.openBrowsers == (if s.browser then 1 else 0)
    && (s.browser ==> s.browserStarted && !s.released)
    && (s.released ==> s.closed)
  }

  lemma {:induction false} BrowserIsReleased(events: seq<Event>)
    ensures BrowserFits(Run(STARTED, events))
    decreases |events|
  {
    if events != [] {
      BrowserIsReleased(events[..|events| - 1]);
    }
  }

  predicate WasReleased(events: seq<Event>) {
    exists j :: 0 <= j < |events| && events[j].Close?
  }

  lemma {:induction false} ReleasedTellsHistory(events: seq<Event>)
    ensures Run(STARTED, events).released <==> WasReleased(events)
    ensures Run(STARTED, events).browserStarted <==> exists k :: 0 <= k < |events| && events[k].BrowserReady?
    decreases |events|
  {
    if events != [] {
      var front, last := events[..|events| - 1], events[|events| - 1];
      ReleasedTellsHistory(front);
      assert forall k | 0 <= k < |front| :: front[k] == events[k];
      assert events[|events| - 1] == last;
    }
  }

  /** No SFTP client outlives the session, also when it finishes opening while the session closes. */
  lemma NoBrowserLeaks(events: seq<Event>)
    requires WasReleased(events)
    ensures Run(STARTED, events).openBrowsers == 0 && !Run(STARTED, events).browser
  {
    BrowserIsReleased(events);
    ReleasedTellsHistory(events);
  }

  /** The SFTP client that the `i`-th event finished opening; the initialisation runs once. */
  predicate FirstReady(events: seq<Event>, i: nat) {
    i < |events| && events[i].BrowserReady? && forall k | 0 <= k < i :: !events[k].BrowserReady?
  }

  /** The client opened while nothing had closed the session, and the session was not released since. */
  ghost predicate BrowserServes(events: seq<Event>) {
    (exists i: nat :: FirstReady(events, i) && !WasClosed(events[..i])) && !WasReleased(events)
  }

  lemma ServesOneMore(front: seq<Event>, e: Event)
    ensures BrowserServes(front + [e]) <==>
      && !e.Close? && !WasReleased(front)
      && (BrowserServes(front)
          || (e.BrowserReady? && !WasClosed(front) && forall k | 0 <= k < |front| :: !front[k].BrowserReady?))
  {
    hide WasClosed;
    var events := front + [e];
    assert events[..|front|] == front && events[|front|] == e;
    forall k: nat | k < |front|
      ensures events[k] == front[k] && events[..k] == front[..k] && (FirstReady(events, k) <==> FirstReady(front, k))
    {
      assert forall j | 0 <= j < k :: events[j] == front[j];
    }
    assert WasReleased(events) <==> WasReleased(front) || e.Close? by {
      if WasReleased(events) && !e.Close? {
        var j :| 0 <= j < |events| && events[j].Close?;
        assert front[j].Close?;
      }
      if j :| 0 <= j < |front| && front[j].Close? {
        assert events[j].Close?;
      }
    }
    assert FirstReady(events, |front|) <==> e.BrowserReady? && forall k | 0 <= k < |front| :: !front[k].BrowserReady?;
  }

  /** The page can use an SFTP client exactly if it finished opening in time and the session was not released since. */
  lemma {:induction false} BrowserIsExact(events: seq<Event>)
    ensures Run(STARTED, events).browser <==> BrowserServes(events)
    decreases |events|
  {
    if events != [] {
      hide BrowserServes, WasClosed, WasReleased;
      var front, last := events[..|events| - 1], events[|events| - 1];
      assert events == front + [last];
      BrowserIsExact(front);
      FlagsTellHistory(front);
      ReleasedTellsHistory(front);
      BrowserIsReleased(front);
      ServesOneMore(front, last);
    }
  }

  // ---- the connection object

  class SshTerminalConnection {
    var closed: bool
    var transportFailure: bool
    var closeRan: bool
    var browserStarted: bool
    var sftpClient: bool
    var openClients: int

    ghost function View(): Session
      reads this
    {
      Session(closed, transportFailure, closeRan, browserStarted, sftpClient, openClients)
    }

    constructor ()
      ensures View() == STARTED
    {
      closed, transportFailure, closeRan := false, false, false;
      browserStarted, sftpClient, openClients := false, false, 0;
    }

    method MarkTransportFailure()
      modifies this`transportFailure
      ensures transportFailure == (old(transportFailure) || !closed)
      ensures View() == Step(old(View()), FailureSeen)
    {
      if closed {
        return;
      }
      transportFailure := true;
    }

    method CloseConnection()
      modifies this
      ensures old(closeRan) ==> unchanged(this)
      ensures !old(closeRan) ==>
        closed && closeRan && !sftpClient && openClients == old(openClients) - if old(sftpClient) then 1 else 0
      ensures transportFailure == old(transportFailure) && browserStarted == old(browserStarted)
      ensures View() == Step(old(View()), Close)
    {
      if !closeRan {
        closeRan := true;
        closed := true;
        var client := sftpClient;
        sftpClient := false;
        if client {
          openClients := openClients - 1;
        }
      }
    }

    /** The two critical sections with nothing in between; other threads may also run there. */
    method CloseAfterTransportFailure()
      modifies this
      ensures View() == Step(Step(old(View()), FailureSeen), Close)
    {
      if !closed {
        transportFailure := true;
      }
      CloseConnection();
    }

    method FinalizeAfterExit(result: WaitResult) returns (retryable: bool)
      modifies this`closed
      ensures closed && (retryable <==> transportFailure || (!old(closed) && result.TransportError?))
      ensures retryable == Verdict(old(View()), result)
      ensures View() == Step(old(View()), Finalize(result))
    {
      retryable := IsRetryable(result) || transportFailure;
      if closed && !transportFailure {
        retryable := false;
      }
      closed := true;
    }

    method InitializeFileBrowser()
      requires !browserStarted
      modifies this`browserStarted, this`sftpClient, this`openClients
      ensures browserStarted && sftpClient == (old(sftpClient) || !closed)
      ensures openClients == old(openClients) + if closed then 0 else 1
      ensures View() == Step(old(View()), BrowserReady)
    {
      browserStarted := true;
      if closed {
        return;
      }
      sftpClient := true;
      openClients := openClients + 1;
    }
  }
}
