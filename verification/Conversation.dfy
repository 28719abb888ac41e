/**
 The life of a customer conversation (`backend/handlers/socket.go`,
 `backend/repository/socket.go`): connection handlers, grace timers, closes and
 deletes run concurrently; each store call and each hub call is one step.
 */
module Conversation {
  import opened Prelude

  const GRACE := 10000000000

  datatype Status = Open | Closed | Deleted

  datatype Row = Row(status: Status, online: bool)

  // ---- the guarded updates of the store; None when the guard fails

  function SetOnline(row: Row, online: bool): Option<Row> {
    if row.status == Open then Some(row.(online := online)) else None
  }

  function CloseRow(row: Row): Option<Row> {
    if row.status == Open then Some(Row(Closed, false)) else None
  }

  function DeleteRow(row: Row): Option<Row> {
    if row.status != Deleted then Some(Row(Deleted, false)) else None
  }

  // The token is right; the query also asks for an open conversation.
  predicate Admits(row: Option<Row>) {
    row.Some? && row.value.status == Open
  }

  // ---- the concurrent system around one conversation

  // Where a connection's handler stands.
  datatype Stage = Found | Admitted | Entered | Serving

  // A grace timer: asleep since a disconnect, past its check, or past setting the row offline.
  datatype Timer = Asleep(left: int) | Checked(left: int, at: int) | Offlined(left: int, at: int)

  datatype State = State(
    now: int,
    row: Option<Row>,
    handlers: map<int, Stage>,
    customers: set<int>,
    timers: map<int, Timer>,
    nextTimer: int)

  const START := State(0, None, map[], {}, map[], 0)

  datatype Action =
    | Tick(elapsed: int)
    | Create(c: int)     // a connection without an id gets a new conversation
    | Find(c: int)       // a connection with the id finds the conversation
    | Validate(c: int)   // its token is accepted
    | Reject(c: int)
    | Enter(c: int)      // addCustomer
    | GoOnline(c: int)
    | Leave(c: int)      // removeCustomer; the last one starts a timer
    | Wake(t: int)       // the timer looks at the customer count
    | GoOffline(t: int)
    | TimerClose(t: int)
    | CustomerClose
    | Delete
    // statements that fail, and a created row that cannot be read back
    | CreateUnread
    | OnlineFails(c: int)
    | OfflineFails(t: int)
    | CloseFails(t: int)

  predicate Enabled(s: State, a: Action) {
    match a
    case Tick(elapsed) => elapsed >= 0
    case Create(c) => s.row.None? && c !in s.handlers && c !in s.customers
    case Find(c) => s.row.Some? && s.row.value.status != Deleted && c !in s.handlers && c !in s.customers
    case Validate(c) => c in s.handlers && s.handlers[c] == Found && Admits(s.row)
    case Reject(c) => c in s.handlers && s.handlers[c] == Found
    case Enter(c) => c in s.handlers && s.handlers[c] == Admitted
    case GoOnline(c) => c in s.handlers && s.handlers[c] == Entered
    case Leave(c) => c in s.handlers && s.handlers[c] == Serving
    case Wake(t) => t in s.timers && s.timers[t].Asleep? && s.timers[t].left + GRACE <= s.now
    case GoOffline(t) => t in s.timers && s.timers[t].Checked?
    case TimerClose(t) => t in s.timers && s.timers[t].Offlined?
    case CustomerClose => Admits(s.row)
    case Delete => s.row.Some?
    case CreateUnread => s.row.None?
    case OnlineFails(c) => c in s.handlers && s.handlers[c] == Entered
    case OfflineFails(t) => t in s.timers && s.timers[t].Checked?
    case CloseFails(t) => t in s.timers && s.timers[t].Offlined?
  }

  function Updated(row: Option<Row>, after: Option<Row>): Option<Row> {
    if after.Some? then after else row
  }

  function Departed(s: State, c: int): State {
    var rest := s.customers - {c};
    var gone := s.(handlers := s.handlers - {c}, customers := rest);
    if rest == {} then gone.(timers := s.timers[s.nextTimer := Asleep(s.now)], nextTimer := s.nextTimer + 1) else gone
  }

  function Step(s: State, a: Action): State
    requires Enabled(s, a)
  {
    match a
    case Tick(elapsed) => s.(now := s.now + elapsed)
    case Create(c) => s.(row := Some(Row(Open, true)), handlers := s.handlers[c := Admitted])
    case Find(c) => s.(handlers := s.handlers[c := Found])
    case Validate(c) => s.(handlers := s.handlers[c := Admitted])
    case Reject(c) => s.(handlers := s.handlers - {c})
    case Enter(c) => s.(handlers := s.handlers[c := Entered], customers := s.customers + {c})
    case GoOnline(c) =>
      s.(handlers := s.handlers[c := Serving],
         row := if s.row.Some? then Updated(s.row, SetOnline(s.row.value, true)) else s.row)
    case Leave(c) => Departed(s, c)
    case Wake(t) =>
      if s.customers != {} then s.(timers := s.timers - {t})
      else s.(timers := s.timers[t := Checked(s.timers[t].left, s.now)])
    case GoOffline(t) =>
      s.(timers := s.timers[t := Offlined(s.timers[t].left, s.timers[t].at)],
         row := if s.row.Some? then Updated(s.row, SetOnline(s.row.value, false)) else s.row)
    case TimerClose(t) =>
      s.(timers := s.timers - {t}, row := if s.row.Some? then Updated(s.row, CloseRow(s.row.value)) else s.row)
    case CustomerClose => s.(row := Updated(s.row, CloseRow(s.row.value)))
    case Delete => s.(row := Updated(s.row, DeleteRow(s.row.value)))
    case CreateUnread => s.(row := Some(Row(Open, true)))
    case OnlineFails(c) => s.(handlers := s.handlers[c := Serving])
    case OfflineFails(t) => s.(timers := s.timers[t := Offlined(s.timers[t].left, s.timers[t].at)])
    case CloseFails(t) => s.(timers := s.timers - {t})
  }

  /** An action that is not possible where it is tried does nothing. */
  function Next(s: State, a: Action): State {
    if Enabled(s, a) then Step(s, a) else s
  }

  function Run(actions: seq<Action>): State {
    if actions == [] then START else Next(Run(actions[..|actions| - 1]), actions[|actions| - 1])
  }

  /** The `k`-th action was possible. */
  predicate Takes(actions: seq<Action>, k: nat) {
    k < |actions| && Enabled(Run(actions[..k]), actions[k])
  }

  lemma RunOne(actions: seq<Action>, a: Action)
    ensures Run(actions + [a]) == Next(Run(actions), a)
  {
  }

  // ---- the status of the row

  /** How far the conversation has come: none, open, closed, deleted. */
  function Rank(row: Option<Row>): int {
    match row
    case None => 0
    case Some(r) => if r.status == Open then 1 else if r.status == Closed then 2 else 3
  }

  ghost predicate Fits(s: State) {
    && (s.row.Some? && s.row.value.online ==> s.row.value.status == Open)
    && (forall c | c in s.handlers && (s.handlers[c] == Entered || s.handlers[c] == Serving) :: c in s.customers)
    && (forall t | t in s.timers :: t < s.nextTimer)
  }

  lemma NextFits(s: State, a: Action)
    requires Fits(s)
    ensures Fits(Next(s, a))
  {
  }

  lemma {:induction false} RunFits(actions: seq<Action>)
    ensures Fits(Run(actions))
    decreases |actions|
  {
    hide Fits, Next;
    if actions == [] {
      StartFits();
    } else {
      RunFits(actions[..|actions| - 1]);
      NextFits(Run(actions[..|actions| - 1]), actions[|actions| - 1]);
    }
  }

  lemma StartFits()
    ensures Fits(START)
  {
  }

  /** The status only moves forward, from none to open to closed to deleted, whatever runs when. */
  lemma NextMovesForward(s: State, a: Action)
    ensures Rank(s.row) <= Rank(Next(s, a).row)
  {
  }

  lemma {:induction false} StatusMovesForward(actions: seq<Action>, k: nat)
    requires k <= |actions|
    ensures Rank(Run(actions[..k]).row) <= Rank(Run(actions).row)
    decreases |actions|
  {
    hide Next, Rank;
    if k == |actions| {
      assert actions[..k] == actions;
    } else {
      var front := actions[..|actions| - 1];
      StatusMovesForward(front, k);
      assert front[..k] == actions[..k];
      NextMovesForward(Run(front), actions[|actions| - 1]);
    }
  }

  /** An online conversation is open. */
  lemma OnlineIsOpen(actions: seq<Action>)
    requires Run(actions).row.Some? && Run(actions).row.value.online
    ensures Run(actions).row.value.status == Open
  {
    RunFits(actions);
  }

  /** Once closed or deleted, no later connection is admitted and nothing puts the conversation online again. */
  lemma ClosedIsNeverReadmitted(actions: seq<Action>, k: nat, l: nat)
    requires k <= l && Takes(actions, l) && Rank(Run(actions[..k]).row) >= 2
    ensures !actions[l].Validate? && !actions[l].Create? && !actions[l].CustomerClose?
    ensures var row := Run(actions[..l]).row; row.Some? && !row.value.online && row.value.status != Open
  {
    assert actions[..l][..k] == actions[..k];
    StatusMovesForward(actions[..l], k);
    RunFits(actions[..l]);
  }

  // ---- the status as history

  datatype Kind = Creating | Closing | Deleting

  predicate OfKind(a: Action, kind: Kind) {
    match kind
    case Creating => a.Create? || a.CreateUnread?
    case Closing => a.TimerClose? || a.CustomerClose?
    case Deleting => a.Delete?
  }

  /** An action of this kind was taken. */
  ghost predicate Happened(actions: seq<Action>, kind: Kind) {
    exists k: nat :: Takes(actions, k) && OfKind(actions[k], kind)
  }

  lemma HappenedOneMore(front: seq<Action>, a: Action, kind: Kind)
    ensures Happened(front + [a], kind) <==> Happened(front, kind) || (Enabled(Run(front), a) && OfKind(a, kind))
  {
    hide Run, Enabled;
    var longer := front + [a];
    assert longer[..|front|] == front && longer[|front|] == a;
    forall l: nat | l < |front| ensures Takes(longer, l) == Takes(front, l) && longer[l] == front[l] {
      assert longer[..l] == front[..l];
    }
    if Happened(front, kind) {
      var k: nat :| Takes(front, k) && OfKind(front[k], kind);
      assert Takes(longer, k);
    }
    if Enabled(Run(front), a) && OfKind(a, kind) {
      assert Takes(longer, |front|);
    }
  }

  /** Connections and timers belong to a conversation that was created. */
  predicate HasRow(s: State) {
    s.handlers != map[] || s.timers != map[] ==> s.row.Some?
  }

  lemma StatusOneMore(s: State, a: Action)
    requires HasRow(s) && Enabled(s, a)
    ensures HasRow(Step(s, a))
    ensures Step(s, a).row.Some? <==> s.row.Some? || OfKind(a, Creating)
    ensures Step(s, a).row.Some? ==>
      Step(s, a).row.value.status ==
        if OfKind(a, Deleting) || (s.row.Some? && s.row.value.status == Deleted) then Deleted
        else if OfKind(a, Closing) || (s.row.Some? && s.row.value.status == Closed) then Closed
        else Open
  {
    assert a.TimerClose? ==> s.timers != map[];
  }

  ghost predicate StatusTells(s: State, created: bool, closed: bool, deleted: bool) {
    && HasRow(s) && (s.row.Some? <==> created) && (closed || deleted ==> created)
    && (created ==> s.row.value.status == if deleted then Deleted else if closed then Closed else Open)
  }

  lemma StatusTellsMore(s: State, a: Action, created: bool, closed: bool, deleted: bool)
    requires StatusTells(s, created, closed, deleted) && Enabled(s, a)
    ensures StatusTells(Step(s, a), created || OfKind(a, Creating), closed || OfKind(a, Closing),
      deleted || OfKind(a, Deleting))
  {
    hide HasRow, OfKind, Step, Enabled;
    StatusOneMore(s, a);
    if OfKind(a, Closing) || OfKind(a, Deleting) {
      NothingEndsBefore(s, a);
    }
  }

  /**
   Over every interleaving, the conversation exists exactly if it was created,
   is deleted exactly if somebody deleted it, and is otherwise closed exactly if
   a timer or a customer closed it.
   */
  lemma {:induction false} StatusIsHistory(actions: seq<Action>)
    ensures StatusTells(Run(actions), Happened(actions, Creating), Happened(actions, Closing),
      Happened(actions, Deleting))
    decreases |actions|
  {
    hide Happened, StatusTells, OfKind, Step, Enabled;
    if actions == [] {
      NothingHappened();
    } else {
      var front, a := actions[..|actions| - 1], actions[|actions| - 1];
      assert actions == front + [a];
      StatusIsHistory(front);
      HappenedOneMore(front, a, Creating);
      HappenedOneMore(front, a, Closing);
      HappenedOneMore(front, a, Deleting);
      if Enabled(Run(front), a) {
        StatusTellsMore(Run(front), a, Happened(front, Creating), Happened(front, Closing), Happened(front, Deleting));
      }
    }
  }

  lemma NothingHappened()
    ensures StatusTells(START, false, false, false) && forall kind :: !Happened([], kind)
  {
  }

  lemma NothingEndsBefore(s: State, a: Action)
    requires HasRow(s) && Enabled(s, a) && (OfKind(a, Closing) || OfKind(a, Deleting))
    ensures s.row.Some?
  {
    assert a.TimerClose? ==> s.timers != map[];
  }

  // ---- what a timer has seen

  /** The `i`-th action is the departure of the last customer, and it starts timer `t`. */
  ghost predicate StartsTimer(actions: seq<Action>, i: nat, t: int, left: int) {
    && Takes(actions, i) && actions[i].Leave?
    && var s := Run(actions[..i]);
       s.nextTimer == t && s.customers == {actions[i].c} && s.now == left
  }

  /** The `j`-th action is the timer's check: it finds no customer, and the grace period has passed. */
  ghost predicate ChecksEmpty(actions: seq<Action>, j: nat, t: int, left: int, at: int) {
    && Takes(actions, j) && actions[j] == Wake(t)
    && var s := Run(actions[..j]);
       s.customers == {} && s.now == at && left + GRACE <= at
  }

  /** A timer's record is true: its departure happened and, past its check, so did that. */
  ghost predicate Recorded(actions: seq<Action>, t: int, timer: Timer) {
    if timer.Asleep? then exists i: nat :: StartsTimer(actions, i, t, timer.left)
    else exists i: nat, j: nat ::
      i < j && StartsTimer(actions, i, t, timer.left) && ChecksEmpty(actions, j, t, timer.left, timer.at)
  }

  lemma StartStays(actions: seq<Action>, a: Action, i: nat, t: int, left: int)
    requires StartsTimer(actions, i, t, left)
    ensures StartsTimer(actions + [a], i, t, left)
  {
    assert (actions + [a])[..i] == actions[..i];
  }

  lemma CheckStays(actions: seq<Action>, a: Action, j: nat, t: int, left: int, at: int)
    requires ChecksEmpty(actions, j, t, left, at)
    ensures ChecksEmpty(actions + [a], j, t, left, at)
  {
    assert (actions + [a])[..j] == actions[..j];
  }

  lemma RecordStays(actions: seq<Action>, a: Action, t: int, timer: Timer)
    requires Recorded(actions, t, timer)
    ensures Recorded(actions + [a], t, timer)
  {
    hide StartsTimer, ChecksEmpty;
    if timer.Asleep? {
      var i: nat :| StartsTimer(actions, i, t, timer.left);
      StartStays(actions, a, i, t, timer.left);
    } else {
      var i: nat, j: nat :| i < j && StartsTimer(actions, i, t, timer.left)
        && ChecksEmpty(actions, j, t, timer.left, timer.at);
      StartStays(actions, a, i, t, timer.left);
      CheckStays(actions, a, j, t, timer.left, timer.at);
    }
  }

  lemma DepartureRecorded(actions: seq<Action>, c: int)
    requires Enabled(Run(actions), Leave(c)) && Run(actions).customers - {c} == {}
    ensures Recorded(actions + [Leave(c)], Run(actions).nextTimer, Asleep(Run(actions).now))
  {
    var after := actions + [Leave(c)];
    RunFits(actions);
    assert after[..|actions|] == actions;
    assert Run(actions).customers == {c};
    assert StartsTimer(after, |actions|, Run(actions).nextTimer, Run(actions).now);
  }

  lemma CheckRecorded(actions: seq<Action>, t: int)
    requires Enabled(Run(actions), Wake(t)) && Run(actions).customers == {}
    requires Recorded(actions, t, Run(actions).timers[t])
    ensures Recorded(actions + [Wake(t)], t, Checked(Run(actions).timers[t].left, Run(actions).now))
  {
    var s, after := Run(actions), actions + [Wake(t)];
    var left := s.timers[t].left;
    assert after[..|actions|] == actions;
    assert ChecksEmpty(after, |actions|, t, left, s.now);
    var i: nat :| StartsTimer(actions, i, t, left);
    StartStays(actions, Wake(t), i, t, left);
  }

  lemma {:induction false} TimersAreRecorded(actions: seq<Action>, t: int)
    requires t in Run(actions).timers
    ensures Recorded(actions, t, Run(actions).timers[t])
    decreases |actions|
  {
    hide Recorded;
    if actions != [] {
      var front, a := actions[..|actions| - 1], actions[|actions| - 1];
      assert actions == front + [a];
      var s := Run(front);
      if t in s.timers && s.timers[t] == Run(actions).timers[t] {
        TimersAreRecorded(front, t);
        RecordStays(front, a, t, s.timers[t]);
      } else if a.Leave? {
        DepartureRecorded(front, a.c);
      } else if a.Wake? {
        TimersAreRecorded(front, t);
        CheckRecorded(front, t);
      } else {
        TimersAreRecorded(front, t);
        RecordStays(front, a, t, s.timers[t]);
        SameRecord(actions, t, s.timers[t], Run(actions).timers[t]);
      }
    }
  }

  lemma SameRecord(actions: seq<Action>, t: int, a: Timer, b: Timer)
    requires a.Checked? && b == Offlined(a.left, a.at) && Recorded(actions, t, a)
    ensures Recorded(actions, t, b)
  {
  }

  /**
   A timer closes a conversation only after its last customer left at least ten
   seconds before a check that found no customer.
   */
  lemma TimerClosesAfterGrace(actions: seq<Action>, k: nat, t: int)
    requires Takes(actions, k) && actions[k] == TimerClose(t)
    ensures exists i: nat, j: nat, left, at ::
      i < j < k && StartsTimer(actions[..k], i, t, left) && ChecksEmpty(actions[..k], j, t, left, at)
        && left + 10000000000 <= at
  {
    var front := actions[..k];
    TimersAreRecorded(front, t);
    var timer := Run(front).timers[t];
    var i: nat, j: nat :| i < j && StartsTimer(front, i, t, timer.left)
      && ChecksEmpty(front, j, t, timer.left, timer.at);
  }

  lemma {:induction false} NobodyEnters(actions: seq<Action>, i: nat, j: nat)
    requires i <= j <= |actions| && Run(actions[..i]).customers == {}
    requires forall k | i <= k < j && Takes(actions, k) :: !actions[k].Enter?
    ensures Run(actions[..j]).customers == {}
    decreases j
  {
    if i < j {
      NobodyEnters(actions, i, j - 1);
      assert actions[..j] == actions[..j - 1] + [actions[j - 1]];
      RunOne(actions[..j - 1], actions[j - 1]);
      assert Enabled(Run(actions[..j - 1]), actions[j - 1]) ==> Takes(actions, j - 1);
    }
  }

  lemma NobodyLeaves(actions: seq<Action>, i: nat, k: nat, t: int, left: int)
    requires StartsTimer(actions, i, t, left) && i < k < |actions|
    requires forall l | i < l <= k && Takes(actions, l) :: !actions[l].Enter?
    ensures !(Takes(actions, k) && actions[k].Leave?)
  {
    assert actions[..i + 1] == actions[..i] + [actions[i]];
    RunOne(actions[..i], actions[i]);
    NobodyEnters(actions, i + 1, k);
    RunFits(actions[..k]);
  }

  // ---- when the grace period is whole

  /** The `i`-th action is the departure of the last customer. */
  predicate Empties(actions: seq<Action>, i: nat) {
    Takes(actions, i) && actions[i].Leave? && Run(actions[..i]).customers == {actions[i].c}
  }

  /** Some timer's grace period has not passed yet. */
  predicate GraceRuns(s: State) {
    exists t | t in s.timers :: s.now < s.timers[t].left + GRACE
  }

  lemma {:induction false} ClockAdvances(actions: seq<Action>, i: nat, j: nat)
    requires i <= j <= |actions|
    ensures Run(actions[..i]).now <= Run(actions[..j]).now
    decreases j
  {
    if i < j {
      ClockAdvances(actions, i, j - 1);
      assert actions[..j] == actions[..j - 1] + [actions[j - 1]];
      RunOne(actions[..j - 1], actions[j - 1]);
    }
  }

  /** A timer sleeps through its grace period. */
  lemma {:induction false} TimerSleeps(actions: seq<Action>, i: nat, j: nat)
    requires Empties(actions, i) && i < j <= |actions|
    requires Run(actions[..j]).now < Run(actions[..i]).now + GRACE
    ensures var t, s := Run(actions[..i]).nextTimer, Run(actions[..j]);
      t in s.timers && s.timers[t] == Asleep(Run(actions[..i]).now) && t < s.nextTimer
    decreases j
  {
    hide Run;
    assert actions[..j] == actions[..j - 1] + [actions[j - 1]];
    RunOne(actions[..j - 1], actions[j - 1]);
    if i < j - 1 {
      ClockAdvances(actions, j - 1, j);
      TimerSleeps(actions, i, j - 1);
    }
  }

  lemma RecordedDeparture(actions: seq<Action>, t: int, timer: Timer) returns (i: nat)
    requires Recorded(actions, t, timer)
    ensures StartsTimer(actions, i, t, timer.left) && Empties(actions, i) && Run(actions[..i]).now == timer.left
  {
    hide Run;
    if timer.Asleep? {
      i :| StartsTimer(actions, i, t, timer.left);
    } else {
      var start: nat, check: nat :| start < check && StartsTimer(actions, start, t, timer.left)
        && ChecksEmpty(actions, check, t, timer.left, timer.at);
      i := start;
    }
  }

  /** The conversation was emptied less than ten seconds ago exactly while some timer's grace period runs. */
  lemma GraceRunsIffEmptied(actions: seq<Action>)
    ensures GraceRuns(Run(actions)) <==>
      exists i: nat :: Empties(actions, i) && Run(actions).now < Run(actions[..i]).now + GRACE
  {
    var s := Run(actions);
    if GraceRuns(s) {
      var t :| t in s.timers && s.now < s.timers[t].left + GRACE;
      TimersAreRecorded(actions, t);
      var i := RecordedDeparture(actions, t, s.timers[t]);
    }
    if i: nat :| Empties(actions, i) && s.now < Run(actions[..i]).now + GRACE {
      assert actions[..|actions|] == actions;
      TimerSleeps(actions, i, |actions|);
    }
  }

  /**
   A timer's close comes at least ten seconds after every departure that left
   the conversation empty exactly if no other timer's grace period runs.
   */
  lemma GraceIsWhole(actions: seq<Action>, k: nat, t: int)
    requires Takes(actions, k) && actions[k] == TimerClose(t)
    ensures
      (forall i: nat | i < k && Empties(actions, i) :: Run(actions[..i]).now + GRACE <= Run(actions[..k]).now) <==>
      !GraceRuns(Run(actions[..k]))
  {
    hide Run;
    GraceRunsIffEmptied(actions[..k]);
    assert forall i: nat | i < k :: actions[..k][..i] == actions[..i] && actions[..k][i] == actions[i];
  }

  /** If nobody entered between a timer's departure and its close, the grace period was whole. */
  lemma QuietGraceIsWhole(actions: seq<Action>, i: nat, k: nat, t: int, left: int)
    requires StartsTimer(actions, i, t, left) && i < k
    requires Takes(actions, k) && actions[k] == TimerClose(t) && Run(actions[..k]).timers[t].left == left
    requires forall l | i < l <= k && Takes(actions, l) :: !actions[l].Enter?
    ensures !GraceRuns(Run(actions[..k]))
  {
    hide Run;
    forall l: nat | l < k && Empties(actions, l)
      ensures Run(actions[..l]).now + GRACE <= Run(actions[..k]).now
    {
      if l > i {
        NobodyLeaves(actions, i, l, t, left);
        assert false;
      }
      ClockAdvances(actions, l, i);
      TimerIsPast(actions, k, t);
    }
    GraceIsWhole(actions, k, t);
  }

  /** When a timer closes, its own grace period has passed. */
  lemma TimerIsPast(actions: seq<Action>, k: nat, t: int)
    requires Takes(actions, k) && actions[k] == TimerClose(t)
    ensures Run(actions[..k]).timers[t].left + GRACE <= Run(actions[..k]).now
  {
    hide Run;
    var front := actions[..k];
    TimersAreRecorded(front, t);
    var timer := Run(front).timers[t];
    var i: nat, j: nat :| i < j && StartsTimer(front, i, t, timer.left)
      && ChecksEmpty(front, j, t, timer.left, timer.at);
    ClockAdvances(front, j, k);
    assert front[..k] == front;
  }

  // ---- whom a timer's close can hit

  /** Customer `c` enters with the `e`-th action and does not leave again. */
  ghost predicate Stays(actions: seq<Action>, e: nat, c: int) {
    Takes(actions, e) && actions[e] == Enter(c) && forall l: nat | e < l && Takes(actions, l) :: actions[l] != Leave(c)
  }

  lemma StaysOneMore(actions: seq<Action>, a: Action, e: nat, c: int)
    requires e < |actions|
    ensures Stays(actions + [a], e, c) <==> Stays(actions, e, c) && !(Enabled(Run(actions), a) && a == Leave(c))
  {
    hide Run;
    var longer := actions + [a];
    assert longer[..|actions|] == actions && longer[|actions|] == a;
    forall l: nat | l < |actions| ensures Takes(longer, l) == Takes(actions, l) && longer[l] == actions[l] {
      assert longer[..l] == actions[..l];
    }
    if Stays(longer, e, c) {
      forall l: nat | e < l && Takes(actions, l) ensures actions[l] != Leave(c) {
        assert Takes(longer, l);
      }
      assert Enabled(Run(actions), a) ==> Takes(longer, |actions|);
    }
  }

  /** A customer is connected exactly if it entered and has not left. */
  lemma {:induction false} CustomersStay(actions: seq<Action>, c: int)
    ensures c in Run(actions).customers <==> exists e: nat :: Stays(actions, e, c)
    decreases |actions|
  {
    if actions != [] {
      hide Stays, Run;
      var front, a := actions[..|actions| - 1], actions[|actions| - 1];
      assert actions == front + [a];
      CustomersStay(front, c);
      RunOne(front, a);
      if c in Run(actions).customers {
        StaysForward(front, a, c);
      }
      if e: nat :| Stays(actions, e, c) {
        StaysBack(front, a, e, c);
      }
    }
  }

  lemma StaysForward(front: seq<Action>, a: Action, c: int)
    requires c in Run(front).customers <==> exists e: nat :: Stays(front, e, c)
    requires c in Next(Run(front), a).customers
    ensures exists e: nat :: Stays(front + [a], e, c)
  {
    hide Run;
    assert (front + [a])[..|front|] == front;
    if Enabled(Run(front), a) && a == Enter(c) {
      assert Stays(front + [a], |front|, c);
    } else {
      var e: nat :| Stays(front, e, c);
      StaysOneMore(front, a, e, c);
    }
  }

  lemma StaysBack(front: seq<Action>, a: Action, e: nat, c: int)
    requires c in Run(front).customers <==> exists e: nat :: Stays(front, e, c)
    requires Stays(front + [a], e, c)
    ensures c in Next(Run(front), a).customers
  {
    hide Run;
    assert (front + [a])[..|front|] == front;
    if e < |front| {
      StaysOneMore(front, a, e, c);
    }
  }

  /**
   A timer's close finds nobody connected exactly if everyone who entered since
   its check has left again.
   */
  lemma CloseHitsWhoStays(actions: seq<Action>, j: nat, k: nat, t: int, left: int, at: int)
    requires Takes(actions, k) && actions[k] == TimerClose(t) && j < k && ChecksEmpty(actions, j, t, left, at)
    ensures Run(actions[..k]).customers == {} <==>
      forall e: nat, c | j < e < k && Takes(actions, e) && actions[e] == Enter(c) ::
        exists l: nat :: e < l < k && Takes(actions, l) && actions[l] == Leave(c)
  {
    hide Run;
    var front := actions[..k];
    assert forall l: nat | l < k :: front[..l] == actions[..l] && front[l] == actions[l];
    assert forall l: nat | l < k :: Takes(front, l) == Takes(actions, l);
    forall e: nat, c | j < e < k && Takes(actions, e) && actions[e] == Enter(c)
      ensures Run(front).customers == {} ==> exists l: nat :: e < l < k && Takes(actions, l) && actions[l] == Leave(c)
    {
      CustomersStay(front, c);
      if Run(front).customers == {} {
        assert !Stays(front, e, c);
        var l: nat :| e < l && Takes(front, l) && front[l] == Leave(c);
        assert l < k && Takes(actions, l);
      }
    }
    if exists c :: c in Run(front).customers {
      var c :| c in Run(front).customers;
      CustomersStay(front, c);
      var e: nat :| Stays(front, e, c);
      if e < j {
        StillStays(actions, e, j, k, c);
        CustomersStay(actions[..j], c);
      }
      assert e != j;
      assert Takes(actions, e) && actions[e] == Enter(c);
      assert forall l: nat | e < l < k && Takes(actions, l) :: actions[l] != Leave(c) by {
        assert forall l: nat | e < l && Takes(front, l) :: front[l] != Leave(c);
      }
    }
  }

  lemma StillStays(actions: seq<Action>, e: nat, j: nat, k: nat, c: int)
    requires e < j <= k <= |actions| && Stays(actions[..k], e, c)
    ensures Stays(actions[..j], e, c)
  {
    hide Run;
    var front, start := actions[..k], actions[..j];
    assert forall l: nat | l < j :: front[..l] == start[..l] && front[l] == start[l];
    forall l: nat | e < l && Takes(start, l) ensures start[l] != Leave(c) {
      assert Takes(front, l);
    }
    assert Takes(front, e) && Takes(start, e);
  }

  // ---- when an open conversation is shown as online

  /** The `k`-th action sets the flag: a creation, or a connection that goes online. */
  predicate MarksOnline(actions: seq<Action>, k: nat) {
    Takes(actions, k) && (actions[k].Create? || actions[k].CreateUnread? || actions[k].GoOnline?)
  }

  /** No timer has cleared the flag since it was last set. */
  ghost predicate LastMarkIsOnline(actions: seq<Action>) {
    exists k: nat :: MarksOnline(actions, k) && forall l: nat | k < l && Takes(actions, l) :: !actions[l].GoOffline?
  }

  lemma LastMarkOneMore(front: seq<Action>, a: Action)
    ensures LastMarkIsOnline(front + [a]) <==>
      || (Enabled(Run(front), a) && (a.Create? || a.CreateUnread? || a.GoOnline?))
      || (LastMarkIsOnline(front) && !(Enabled(Run(front), a) && a.GoOffline?))
  {
    hide Run;
    var longer := front + [a];
    assert longer[..|front|] == front && longer[|front|] == a;
    forall l: nat | l < |front| ensures Takes(longer, l) == Takes(front, l) && longer[l] == front[l] {
      assert longer[..l] == front[..l];
    }
    assert Takes(longer, |front|) == Enabled(Run(front), a);
    if LastMarkIsOnline(front) {
      var k: nat :| MarksOnline(front, k) && forall l: nat | k < l && Takes(front, l) :: !front[l].GoOffline?;
      assert MarksOnline(longer, k);
    }
    if LastMarkIsOnline(longer) {
      var k: nat :| MarksOnline(longer, k) && forall l: nat | k < l && Takes(longer, l) :: !longer[l].GoOffline?;
      if k < |front| {
        assert MarksOnline(front, k);
        assert forall l: nat | k < l && Takes(front, l) :: Takes(longer, l);
      }
    }
    if Enabled(Run(front), a) && (a.Create? || a.CreateUnread? || a.GoOnline?) {
      assert MarksOnline(longer, |front|);
    }
  }

  /** An open conversation is online exactly if no timer cleared its flag since it was last set. */
  lemma {:induction false} OnlineIsLastMark(actions: seq<Action>)
    requires Run(actions).row.Some? && Run(actions).row.value.status == Open
    ensures Run(actions).row.value.online <==> LastMarkIsOnline(actions)
    decreases |actions|
  {
    hide LastMarkIsOnline;
    var front, a := actions[..|actions| - 1], actions[|actions| - 1];
    assert actions == front + [a];
    LastMarkOneMore(front, a);
    NextMovesForward(Run(front), a);
    if Run(front).row.Some? {
      OnlineIsLastMark(front);
    }
  }

  /**
   The flag of an open conversation says whether a customer is connected exactly
   if it was last set, not cleared, just when somebody entered and has not left.
   */
  lemma FlagAgrees(actions: seq<Action>)
    requires Run(actions).row.Some? && Run(actions).row.value.status == Open
    ensures (Run(actions).row.value.online <==> Run(actions).customers != {}) <==>
      (LastMarkIsOnline(actions) <==> exists e: nat, c :: Stays(actions, e, c))
  {
    hide Run, LastMarkIsOnline, Stays;
    OnlineIsLastMark(actions);
    SomebodyStays(actions);
  }

  lemma SomebodyStays(actions: seq<Action>)
    ensures Run(actions).customers != {} <==> exists e: nat, c :: Stays(actions, e, c)
  {
    hide Run, Stays;
    if exists c :: c in Run(actions).customers {
      var c :| c in Run(actions).customers;
      CustomersStay(actions, c);
      var e: nat :| Stays(actions, e, c);
    }
    if e: nat, c :| Stays(actions, e, c) {
      CustomersStay(actions, c);
    }
  }

  // ---- what the timer does not promise

  lemma Extend(actions: seq<Action>, a: Action) returns (longer: seq<Action>)
    requires Enabled(Run(actions), a)
    ensures longer == actions + [a] && Run(longer) == Step(Run(actions), a)
  {
    longer := actions + [a];
    RunOne(actions, a);
  }

  lemma NothingRun()
    ensures Run([]) == START
  {
  }

  /** A visit from connection to departure. */
  lemma Visit(actions: seq<Action>, c: int) returns (longer: seq<Action>)
    requires var s := Run(actions);
      && c !in s.handlers && s.customers == {} && (s.row.None? || s.row.value.status == Open)
    ensures var s := Run(actions);
      Run(longer) == s.(row := Some(Row(Open, true)), handlers := s.handlers - {c},
                        timers := s.timers[s.nextTimer := Asleep(s.now)], nextTimer := s.nextTimer + 1)
  {
    hide Run;
    var s := Run(actions);
    if s.row.None? {
      longer := Extend(actions, Create(c));
    } else {
      longer := Extend(actions, Find(c));
      longer := Extend(longer, Validate(c));
    }
    longer := Extend(longer, Enter(c));
    longer := Extend(longer, GoOnline(c));
    longer := Extend(longer, Leave(c));
    assert s.customers + {c} - {c} == {};
    assert s.handlers[c := Serving] - {c} == s.handlers - {c};
  }

  /** An earlier disconnect's timer can close the conversation one second after the latest disconnect. */
  lemma GraceCanBeCutShort() returns (actions: seq<Action>, left: int)
    ensures Enabled(Run(actions), TimerClose(0)) && Run(actions).row == Some(Row(Open, false))
    ensures 1 in Run(actions).timers && Run(actions).timers[1] == Asleep(left)
    ensures Run(actions).now < left + GRACE
  {
    hide Run;
    assert Run([]) == START by { NothingRun(); }
    actions := Visit([], 1);
    actions := Extend(actions, Tick(9000000000));
    left := 9000000000;
    actions := Visit(actions, 2);
    actions := Extend(actions, Tick(1000000000));
    actions := Extend(actions, Wake(0));
    actions := Extend(actions, GoOffline(0));
  }

  /** A customer who enters between the check and the close is cut off. */
  lemma CloseCanHitACustomer() returns (actions: seq<Action>)
    ensures Enabled(Run(actions), TimerClose(0)) && Run(actions).row == Some(Row(Open, false))
      && Run(actions).customers == {2}
  {
    hide Run;
    assert Run([]) == START by { NothingRun(); }
    actions := Visit([], 1);
    actions := Extend(actions, Tick(GRACE));
    actions := Extend(actions, Wake(0));
    actions := Extend(actions, Find(2));
    actions := Extend(actions, Validate(2));
    actions := Extend(actions, Enter(2));
    actions := Extend(actions, GoOffline(0));
  }

  // ---- the hub's customer sets and the store's rows

  class SocketHub {
    var customers: map<string, set<int>>

    /** No conversation keeps an empty set. */
    predicate Valid()
      reads this
    {
      forall id | id in customers :: customers[id] != {}
    }

    function Members(id: string): set<int>
      reads this
    {
      if id in customers then customers[id] else {}
    }

    constructor ()
      ensures Valid() && forall id :: Members(id) == {}
    {
      customers := map[];
    }

    method AddCustomer(id: string, client: int) returns (count: nat)
      requires Valid()
      modifies this
      ensures Valid() && Members(id) == old(Members(id)) + {client} && count == |Members(id)| > 0
      ensures forall other | other != id :: Members(other) == old(Members(other))
    {
      customers := customers[id := Members(id) + {client}];
      assert client in customers[id];
      count := |customers[id]|;
    }

    method RemoveCustomer(id: string, client: int) returns (remaining: nat)
      requires Valid()
      modifies this
      ensures Valid() && Members(id) == old(Members(id)) - {client} && remaining == |Members(id)|
      ensures forall other | other != id :: Members(other) == old(Members(other))
    {
      if id in customers {
        customers := customers[id := customers[id] - {client}];
      }
      remaining := |Members(id)|;
      if remaining == 0 {
        customers := customers - {id};
      }
    }

    method CustomerCount(id: string) returns (count: nat)
      ensures count == 0 <==> Members(id) == {}
    {
      count := |Members(id)|;
    }
  }

  class ConversationStore {
    var rows: map<string, Row>

    function RowOf(id: string): Option<Row>
      reads this
    {
      if id in rows then Some(rows[id]) else None
    }

    constructor ()
      ensures forall id :: RowOf(id) == None
    {
      rows := map[];
    }

    /** `works` and `reread` say whether the INSERT and the query after it work. */
    method CreateSocketConversation(id: string, works: bool, reread: bool) returns (created: bool)
      modifies this
      ensures created <==> old(RowOf(id)).None? && works && reread
      ensures RowOf(id) == if old(RowOf(id)).None? && works then Some(Row(Open, true)) else old(RowOf(id))
      ensures forall other | other != id :: RowOf(other) == old(RowOf(other))
    {
      if id in rows || !works {
        return false;
      }
      rows := rows[id := Row(Open, true)];
      return reread;
    }

    method ValidateSocketConversationToken(id: string, right: bool, works: bool) returns (valid: bool)
      ensures valid <==> works && right && Admits(RowOf(id))
    {
      valid := works && right && id in rows && rows[id].status == Open;
    }

    /** UPDATE ... WHERE the guard holds; one row or none is affected, none if the statement fails. */
    method Update(id: string, change: Row -> Option<Row>, works: bool) returns (affected: bool)
      modifies this
      ensures affected <==> works && old(RowOf(id)).Some? && change(old(RowOf(id)).value).Some?
      ensures RowOf(id) == if affected then change(old(RowOf(id)).value) else old(RowOf(id))
      ensures forall other | other != id :: RowOf(other) == old(RowOf(other))
    {
      affected := false;
      if works && id in rows {
        var after := change(rows[id]);
        if after.Some? {
          rows := rows[id := after.value];
          affected := true;
        }
      }
    }

    /** The row is closed even when reading it back fails, which the caller is told as a failure. */
    method CloseSocketConversation(id: string, works: bool, reread: bool) returns (closed: bool)
      modifies this
      ensures closed <==> works && reread && Admits(old(RowOf(id)))
      ensures RowOf(id) == if works && Admits(old(RowOf(id))) then Some(Row(Closed, false)) else old(RowOf(id))
      ensures forall other | other != id :: RowOf(other) == old(RowOf(other))
    {
      closed := Update(id, CloseRow, works);
      closed := closed && reread;
    }

    method SetSocketConversationOnline(id: string, online: bool, works: bool) returns (updated: bool)
      modifies this
      ensures updated <==> works && Admits(old(RowOf(id)))
      ensures RowOf(id) == if updated then Some(Row(Open, online)) else old(RowOf(id))
      ensures forall other | other != id :: RowOf(other) == old(RowOf(other))
    {
      updated := Update(id, row => SetOnline(row, online), works);
    }

    method SoftDeleteSocketConversation(id: string, works: bool) returns (deleted: bool)
      modifies this
      ensures deleted <==> works && old(RowOf(id)).Some? && old(RowOf(id)).value.status != Deleted
      ensures RowOf(id) == if deleted then Some(Row(Deleted, false)) else old(RowOf(id))
      ensures forall other | other != id :: RowOf(other) == old(RowOf(other))
    {
      deleted := Update(id, DeleteRow, works);
    }
  }
}
