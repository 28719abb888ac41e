/**
 The sliding-window limit on new customer conversations
 (`backend/handlers/socket.go`).  Times are nanoseconds on one clock.
 */
module RateLimiter {
  import Permissions

  const MINUTE := 60000000000
  const LIMIT := 3

  // ---- the rule on one key

  /** The attempts still inside the window that ends now. */
  function Recent(attempts: seq<int>, now: int): (r: seq<int>)
    ensures |r| <= |attempts|
  {
    if attempts == [] then []
    else if attempts[0] > now - MINUTE then [attempts[0]] + Recent(attempts[1..], now)
    else Recent(attempts[1..], now)
  }

  predicate Grants(attempts: seq<int>, now: int) {
    |Recent(attempts, now)| < LIMIT
  }

  function After(attempts: seq<int>, now: int): seq<int> {
    if Grants(attempts, now) then Recent(attempts, now) + [now] else Recent(attempts, now)
  }

  // ---- runs of one key

  // The clock is read before the lock is taken, so attempts may be processed out of order of their times.

  /** No attempt is processed with a time more than `lag` before that of an earlier one. */
  predicate Lags(times: seq<int>, lag: nat) {
    forall i, j | 0 <= i < j < |times| :: times[i] - lag <= times[j]
  }

  predicate Sorted(s: seq<int>) {
    Lags(s, 0)
  }

  function Log(times: seq<int>): seq<int> {
    if times == [] then [] else After(Log(times[..|times| - 1]), times[|times| - 1])
  }

  /** The times of the attempts that were let through, as they were processed. */
  function Granted(times: seq<int>): seq<int> {
    if times == [] then []
    else
      var front, now := times[..|times| - 1], times[|times| - 1];
      Granted(front) + if Grants(Log(front), now) then [now] else []
  }

  /** The latest time processed so far. */
  function Highest(times: seq<int>): (r: int)
    requires times != []
    ensures r in times && forall x | x in times :: x <= r
  {
    if |times| == 1 then times[0]
    else
      assert times == times[..|times| - 1] + [times[|times| - 1]];
      var before := Highest(times[..|times| - 1]);
      if before > times[|times| - 1] then before else times[|times| - 1]
  }

  lemma {:induction false} RecentConcat(a: seq<int>, b: seq<int>, now: int)
    ensures Recent(a + b, now) == Recent(a, now) + Recent(b, now)
    decreases |a|
  {
    if a == [] {
      assert a + b == b;
    } else {
      assert (a + b)[1..] == a[1..] + b;
      RecentConcat(a[1..], b, now);
    }
  }

  /** Filtering for an earlier window first changes nothing. */
  lemma {:induction false} RecentTwice(s: seq<int>, earlier: int, now: int)
    requires earlier <= now
    ensures Recent(Recent(s, earlier), now) == Recent(s, now)
    decreases |s|
  {
    if s != [] {
      RecentTwice(s[1..], earlier, now);
      var rest := Recent(s[1..], earlier);
      assert ([s[0]] + rest)[1..] == rest;
    }
  }

  lemma {:induction false} RecentBounds(s: seq<int>, now: int)
    ensures forall x | x in Recent(s, now) :: x in s && x > now - MINUTE
    ensures |Recent(s, now)| == |s| ==> Recent(s, now) == s
    decreases |s|
  {
    if s != [] {
      RecentBounds(s[1..], now);
      assert s == [s[0]] + s[1..];
    }
  }

  lemma {:induction false} AllRecent(attempts: seq<int>, now: int)
    requires forall x | x in attempts :: x > now - MINUTE
    ensures Recent(attempts, now) == attempts
    decreases |attempts|
  {
    if attempts != [] {
      assert attempts[0] in attempts && forall x | x in attempts[1..] :: x in attempts;
      AllRecent(attempts[1..], now);
      assert attempts == [attempts[0]] + attempts[1..];
    }
  }

  lemma {:induction false} NoneRecent(s: seq<int>, now: int)
    requires forall x | x in s :: x <= now - MINUTE
    ensures Recent(s, now) == []
    decreases |s|
  {
    if s != [] {
      assert s[0] in s && forall x | x in s[1..] :: x in s;
      NoneRecent(s[1..], now);
    }
  }

  lemma {:induction false} LogIsShort(times: seq<int>)
    ensures |Log(times)| <= LIMIT
    decreases |times|
  {
    if times != [] {
      LogIsShort(times[..|times| - 1]);
    }
  }

  /**
   Whatever the order, the log holds every grant of the minute before the
   latest time seen; in order of time it holds nothing else.
   */
  lemma {:induction false} LogIsRecentGrants(times: seq<int>)
    requires times != []
    ensures Recent(Log(times), Highest(times)) == Recent(Granted(times), Highest(times)) && |Log(times)| <= LIMIT
    ensures Sorted(times) ==> Log(times) == Recent(Granted(times), times[|times| - 1])
    decreases |times|
  {
    var front, now := times[..|times| - 1], times[|times| - 1];
    var log, grants, high := Log(front), Granted(front), Highest(times);
    var added := if Grants(log, now) then [now] else [];
    assert After(log, now) == Recent(log, now) + added;
    RecentConcat(Recent(log, now), added, high);
    RecentConcat(grants, added, high);
    RecentTwice(log, now, high);
    if front != [] {
      LogIsRecentGrants(front);
      RecentTwice(log, Highest(front), high);
      RecentTwice(grants, Highest(front), high);
    }
    LogIsShort(times);
    if Sorted(times) {
      SortedLogIsRecent(times);
    }
  }

  lemma StoredIsRecent(log: seq<int>, now: int)
    ensures Recent(After(log, now), now) == After(log, now)
  {
    hide Recent;
    RecentBounds(log, now);
    AllRecent(After(log, now), now);
  }

  lemma SortedLogIsRecent(times: seq<int>)
    requires times != [] && Sorted(times)
    ensures Highest(times) == times[|times| - 1] && Recent(Log(times), times[|times| - 1]) == Log(times)
  {
    hide After, Recent;
    StoredIsRecent(Log(times[..|times| - 1]), times[|times| - 1]);
    var k :| 0 <= k < |times| && times[k] == Highest(times);
    assert times[|times| - 1] in times;
  }

  lemma {:induction false} RecentHas(s: seq<int>, i: nat, now: int)
    requires i < |s| && s[i] > now - MINUTE
    ensures |Recent(s, now)| > 0
    decreases |s|
  {
    if i > 0 {
      RecentHas(s[1..], i - 1, now);
    }
  }

  lemma RecentHasThree(s: seq<int>, i: nat, j: nat, k: nat, now: int)
    requires i < j < k < |s| && s[i] > now - MINUTE && s[j] > now - MINUTE && s[k] > now - MINUTE
    ensures |Recent(s, now)| >= 3
  {
    hide Recent;
    var a, b, c := s[..i + 1], s[i + 1..j + 1], s[j + 1..];
    RecentHas(a, i, now);
    RecentHas(b, j - i - 1, now);
    RecentHas(c, k - j - 1, now);
    RecentConcat(a, b, now);
    RecentConcat(a + b, c, now);
    assert s == (a + b) + c;
  }

  /**
   Of any four grants, one lies at least a minute less the lag before the one
   processed last.
   */
  lemma {:induction false} FourGrantsSpan(times: seq<int>, lag: nat, i: nat, j: nat, k: nat, l: nat)
    requires Lags(times, lag) && i < j < k < l < |Granted(times)|
    ensures var g := Granted(times);
      g[l] - g[i] >= MINUTE - lag || g[l] - g[j] >= MINUTE - lag || g[l] - g[k] >= MINUTE - lag
    decreases |times|
  {
    hide Recent;
    var front, now := times[..|times| - 1], times[|times| - 1];
    var g := Granted(front);
    if l < |g| {
      FourGrantsSpan(front, lag, i, j, k, l);
    } else {
      var high := Highest(times);
      var top :| 0 <= top < |times| && times[top] == high;
      assert high - lag <= now;
      if g[i] > high - MINUTE && g[j] > high - MINUTE && g[k] > high - MINUTE {
        RecentHasThree(g, i, j, k, high);
        LateRefusal(front, now);
        assert false;
      }
    }
  }

  /** Three grants in the minute before the latest time seen, this attempt's included, refuse the attempt. */
  lemma LateRefusal(front: seq<int>, now: int)
    requires front != [] && |Recent(Granted(front), Highest(front + [now]))| >= LIMIT
    ensures !Grants(Log(front), now)
  {
    var high := Highest(front + [now]);
    LogIsRecentGrants(front);
    assert Highest(front) in front + [now];
    RecentTwice(Log(front), Highest(front), high);
    RecentTwice(Granted(front), Highest(front), high);
    RecentTwice(Log(front), now, high);
  }

  /** If attempts are processed in the order of their times, any four grants span at least a minute. */
  lemma FourGrantsSpanAMinute(times: seq<int>, i: nat)
    requires Sorted(times) && i + 3 < |Granted(times)|
    ensures Granted(times)[i + 3] - Granted(times)[i] >= MINUTE
  {
    FourGrantsSpan(times, 0, i, i + 1, i + 2, i + 3);
    GrantedLags(times, 0);
  }

  lemma LagsJoin(a: seq<int>, b: seq<int>, lag: nat)
    requires Lags(a, lag) && Lags(b, lag) && forall x, y | x in a && y in b :: x - lag <= y
    ensures Lags(a + b, lag)
  {
    var s := a + b;
    forall i, j | 0 <= i < j < |s| ensures s[i] - lag <= s[j] {
      if i < |a| <= j {
        assert a[i] in a && b[j - |a|] in b;
      }
    }
  }

  lemma {:induction false} GrantedLags(times: seq<int>, lag: nat)
    requires Lags(times, lag)
    ensures Lags(Granted(times), lag) && forall x | x in Granted(times) :: x in times
    decreases |times|
  {
    if times != [] {
      var front, now := times[..|times| - 1], times[|times| - 1];
      GrantedLags(front, lag);
      assert forall x | x in front :: x - lag <= now;
      LagsJoin(Granted(front), [now], lag);
    }
  }

  lemma OneMore(front: seq<int>, now: int, times: seq<int>)
    requires times == front + [now]
    ensures Log(times) == After(Log(front), now)
    ensures Granted(times) == Granted(front) + if Grants(Log(front), now) then [now] else []
  {
    assert times[..|front|] == front;
  }

  /** Two attempts, a third a minute after both, and two that were kept waiting: all are granted. */
  lemma LateRun(a: int, b: int, c: int, d: int, e: int)
    requires b - MINUTE < a <= c - MINUTE && b <= c - MINUTE && d <= c && e <= c && e - MINUTE < d
    ensures Granted([a, b, c, d, e]) == [a, b, c, d, e] && Log([a, b, c, d, e]) == [c, d, e]
  {
    hide Log, Granted, Recent;
    assert Log([]) == [] && Granted([]) == [] && Recent([], a) == [] by { NothingProcessed(a); }
    OneMore([], a, [a]);
    assert Log([a]) == [a] && Granted([a]) == [a];
    AllRecent([a], b);
    OneMore([a], b, [a, b]);
    assert Log([a, b]) == [a, b] && Granted([a, b]) == [a, b];
    NoneRecent([a, b], c);
    OneMore([a, b], c, [a, b, c]);
    assert Log([a, b, c]) == [c] && Granted([a, b, c]) == [a, b, c];
    AllRecent([c], d);
    OneMore([a, b, c], d, [a, b, c, d]);
    assert Log([a, b, c, d]) == [c, d] && Granted([a, b, c, d]) == [a, b, c, d];
    AllRecent([c, d], e);
    OneMore([a, b, c, d], e, [a, b, c, d, e]);
  }

  lemma NothingProcessed(now: int)
    ensures Log([]) == [] && Granted([]) == [] && Recent([], now) == []
  {
  }

  /** No better bound than a minute less the lag holds: four grants can span exactly that. */
  lemma LagBoundIsTight(lag: nat)
    requires lag <= MINUTE
    ensures var times := [0, 0, MINUTE, MINUTE - lag, MINUTE - lag];
      Lags(times, lag) && Granted(times) == times
  {
    LateRun(0, 0, MINUTE, MINUTE - lag, MINUTE - lag);
  }

  /**
   Processed out of order, four attempts within less than a minute are granted,
   and the time announced after a refusal is not exact.
   */
  lemma OutOfOrderGrants() returns (times: seq<int>)
    ensures times == [0, 100000000, 60100000000, 59900000000, 59950000000] && Granted(times) == times
    ensures times[4] - times[0] == MINUTE - 50000000
    ensures var log := Log(times);
      |log| == LIMIT && !Grants(log, 60200000000) && exists now :: now < RetryAt(log) && Grants(log, now)
  {
    times := [0, 100000000, 60100000000, 59900000000, 59950000000];
    LateRun(0, 100000000, 60100000000, 59900000000, 59950000000);
    var log := Log(times);
    AllRecent(log, 60200000000);
    AnnouncedTimeIsExact(log);
    assert log[1] < log[0];
  }

  // ---- what a refusal promises

  /** When the first of a full log leaves the window. */
  function RetryAt(attempts: seq<int>): int
    requires attempts != []
  {
    attempts[0] + MINUTE
  }

  predicate OldestFirst(attempts: seq<int>)
    requires attempts != []
  {
    forall i | 0 <= i < |attempts| :: attempts[0] <= attempts[i]
  }

  /** With a full log, attempts before every entry has aged a minute are refused and change nothing. */
  lemma FullStaysFull(attempts: seq<int>, now: int)
    requires |attempts| == LIMIT && forall x | x in attempts :: now < x + MINUTE
    ensures !Grants(attempts, now) && After(attempts, now) == attempts
  {
    AllRecent(attempts, now);
  }

  lemma {:induction false} LeavingShortens(attempts: seq<int>, now: int, i: nat)
    requires i < |attempts| && attempts[i] + MINUTE <= now
    ensures |Recent(attempts, now)| < |attempts|
    decreases |attempts|
  {
    if i > 0 {
      LeavingShortens(attempts[1..], now, i - 1);
    }
  }

  /** The announced time is exact if and only if the first stored attempt is the oldest. */
  lemma AnnouncedTimeIsExact(attempts: seq<int>)
    requires |attempts| == LIMIT
    ensures Grants(attempts, RetryAt(attempts))
    ensures (forall now | now < RetryAt(attempts) :: !Grants(attempts, now)) <==> OldestFirst(attempts)
  {
    LeavingShortens(attempts, RetryAt(attempts), 0);
    if OldestFirst(attempts) {
      forall now | now < RetryAt(attempts) ensures !Grants(attempts, now) {
        FullStaysFull(attempts, now);
      }
    } else {
      var i :| 0 <= i < |attempts| && attempts[i] < attempts[0];
      var now := attempts[i] + MINUTE;
      LeavingShortens(attempts, now, i);
      assert now < RetryAt(attempts) && Grants(attempts, now);
    }
  }

  /** Attempts before the announced time are all refused and do not move it; one exactly then is granted. */
  lemma {:induction false} RefusalIsExact(attempts: seq<int>, between: seq<int>)
    requires |attempts| == LIMIT && OldestFirst(attempts)
    requires forall i | 0 <= i < |between| :: between[i] < RetryAt(attempts)
    ensures Replayed(attempts, between) == attempts
    ensures forall i | 0 <= i < |between| :: !Grants(Replayed(attempts, between[..i]), between[i])
    ensures Grants(attempts, RetryAt(attempts))
    decreases |between|
  {
    if between == [] {
      AnnouncedTimeIsExact(attempts);
    } else {
      var front := between[..|between| - 1];
      RefusalIsExact(attempts, front);
      FullStaysFull(attempts, between[|between| - 1]);
      forall i | 0 <= i < |between| ensures !Grants(Replayed(attempts, between[..i]), between[i]) {
        if i < |front| {
          assert between[..i] == front[..i];
        } else {
          assert between[..i] == front;
        }
      }
    }
  }

  function Replayed(attempts: seq<int>, times: seq<int>): seq<int> {
    if times == [] then attempts else After(Replayed(attempts, times[..|times| - 1]), times[|times| - 1])
  }

  lemma {:induction false} RecentLags(s: seq<int>, lag: nat, now: int)
    requires Lags(s, lag)
    ensures Lags(Recent(s, now), lag)
    decreases |s|
  {
    if s != [] {
      assert forall i | 0 <= i < |s[1..]| :: s[1..][i] == s[i + 1] && s[0] - lag <= s[i + 1];
      RecentLags(s[1..], lag, now);
      RecentBounds(s[1..], now);
      LagsJoin([s[0]], Recent(s[1..], now), lag);
    }
  }

  lemma {:induction false} LogLags(times: seq<int>, lag: nat)
    requires Lags(times, lag)
    ensures Lags(Log(times), lag) && forall x | x in Log(times) :: x in times
    decreases |times|
  {
    if times != [] {
      var front, now := times[..|times| - 1], times[|times| - 1];
      hide Recent;
      LogLags(front, lag);
      RecentLags(Log(front), lag, now);
      RecentBounds(Log(front), now);
      assert forall x | x in front :: x - lag <= now;
      LagsJoin(Recent(Log(front), now), [now], lag);
    }
  }

  /**
   After a refusal exactly three attempts are stored.  The announced time is
   off by no more than the lag, so it is exact if attempts come in order.
   */
  lemma RefusedLogIsFull(times: seq<int>, lag: nat, now: int)
    requires Lags(times + [now], lag) && !Grants(Log(times), now)
    ensures var log := After(Log(times), now);
      |log| == LIMIT && Lags(log, lag) && (lag == 0 ==> OldestFirst(log))
    ensures var log := After(Log(times), now);
      forall next | next + lag < RetryAt(log) :: !Grants(log, next)
  {
    LogIsShort(times);
    RecentBounds(Log(times), now);
    assert forall i | 0 <= i < |times| :: (times + [now])[i] == times[i];
    LogLags(times, lag);
    var log := After(Log(times), now);
    forall next | next + lag < RetryAt(log) ensures !Grants(log, next) {
      FullStaysFull(log, next);
    }
  }

  // ---- the handler's map of slices over shared arrays

  datatype Slice = Slice(data: array<int>, length: nat)

  lemma {:induction false} RecentAppend(s: seq<int>, x: int, now: int)
    ensures Recent(s + [x], now) == Recent(s, now) + (if x > now - MINUTE then [x] else [])
    decreases |s|
  {
    if s == [] {
      assert [x][1..] == [];
    } else {
      assert (s + [x])[1..] == s[1..] + [x];
      RecentAppend(s[1..], x, now);
    }
  }

  /** Filter the slice into the front of its own array. */
  method FilterInPlace(slice: Slice, now: int) returns (kept: nat)
    requires slice.length <= slice.data.Length
    modifies slice.data
    ensures kept <= slice.length && slice.data[..kept] == Recent(old(slice.data[..slice.length]), now)
  {
    kept := 0;
    var data := slice.data;
    ghost var before := data[..slice.length];
    for i := 0 to slice.length
      invariant kept <= i && data[..kept] == Recent(before[..i], now)
      invariant forall k | i <= k < slice.length :: data[k] == before[k]
    {
      assert before[..i + 1] == before[..i] + [before[i]];
      RecentAppend(before[..i], before[i], now);
      if data[i] > now - MINUTE {
        ghost var front := data[..kept];
        data[kept] := data[i];
        assert data[..kept + 1] == front + [before[i]];
        kept := kept + 1;
      }
    }
    assert before[..slice.length] == before;
  }

  /** append: in place while there is room, otherwise into a new array. */
  method Appended(slice: Slice, x: int) returns (r: Slice)
    requires slice.length <= slice.data.Length
    modifies slice.data
    ensures r.length == slice.length + 1 <= r.data.Length
    ensures r.data[..r.length] == old(slice.data[..slice.length]) + [x]
    ensures r.data == slice.data || fresh(r.data)
  {
    if slice.length < slice.data.Length {
      slice.data[slice.length] := x;
      r := Slice(slice.data, slice.length + 1);
    } else {
      var grown := new int[2 * slice.length + 1];
      forall i | 0 <= i < slice.length {
        grown[i] := slice.data[i];
      }
      grown[slice.length] := x;
      r := Slice(grown, slice.length + 1);
    }
  }

  lemma FirstIsGranted(now: int)
    ensures Grants(Log([]), now)
  {
  }

  lemma NothingRecent(now: int)
    ensures Recent([], now) == []
  {
  }

  function KeyOf(clientKey: string): string {
    var key := Permissions.Trim(clientKey);
    if key == "" then "unknown" else key
  }

  /** Keys are told apart by their text without blanks around it, where an empty text counts as "unknown". */
  predicate SameClient(a: string, b: string) {
    var x, y := Permissions.Trim(a), Permissions.Trim(b);
    x == y || (x == "" && y == "unknown") || (x == "unknown" && y == "")
  }

  lemma KeysAreClients(a: string, b: string)
    ensures KeyOf(a) == KeyOf(b) <==> SameClient(a, b)
  {
  }

  datatype Attempt = Attempt(clientKey: string, time: int)

  /** The times of one client's attempts. */
  function TimesOf(history: seq<Attempt>, clientKey: string): seq<int> {
    if history == [] then []
    else
      var last := history[|history| - 1];
      TimesOf(history[..|history| - 1], clientKey) + (if SameClient(last.clientKey, clientKey) then [last.time] else [])
  }

  lemma OneMoreAttempt(history: seq<Attempt>, attempt: Attempt, clientKey: string)
    ensures TimesOf(history + [attempt], clientKey) ==
      TimesOf(history, clientKey) + if SameClient(attempt.clientKey, clientKey) then [attempt.time] else []
    ensures Log(TimesOf(history + [attempt], clientKey)) ==
      var log := Log(TimesOf(history, clientKey));
      if SameClient(attempt.clientKey, clientKey) then After(log, attempt.time) else log
  {
    hide SameClient, Log;
    assert (history + [attempt])[..|history|] == history;
    var times := TimesOf(history, clientKey);
    if SameClient(attempt.clientKey, clientKey) {
      OneMore(times, attempt.time, times + [attempt.time]);
    } else {
      assert times + [] == times;
    }
  }

  lemma {:induction false} NeverTried(history: seq<Attempt>, clientKey: string)
    requires forall a | a in history :: !SameClient(a.clientKey, clientKey)
    ensures TimesOf(history, clientKey) == []
    decreases |history|
  {
    if history != [] {
      NeverTried(history[..|history| - 1], clientKey);
    }
  }

  class Limiter {
    var attempts: map<string, Slice>
    ghost var history: seq<Attempt>
    ghost var Repr: set<object>

    ghost predicate Valid()
      reads this, Repr
    {
      && this !in Repr
      && (forall k | k in attempts :: attempts[k].data in Repr && attempts[k].length <= attempts[k].data.Length)
      && (forall k, l | k in attempts && l in attempts && k != l :: attempts[k].data != attempts[l].data)
    }

    ghost function Contents(key: string): seq<int>
      requires Valid()
      reads this, Repr
    {
      if key in attempts then attempts[key].data[..attempts[key].length] else []
    }

    /** What is stored for a client comes from that client's own attempts alone. */
    ghost predicate Faithful()
      requires Valid()
      reads this, Repr
    {
      forall clientKey :: Contents(KeyOf(clientKey)) == Log(TimesOf(history, clientKey))
    }

    constructor ()
      ensures Valid() && Faithful() && Repr == {} && history == []
    {
      attempts, history, Repr := map[], [], {};
      new;
      assert forall clientKey :: TimesOf([], clientKey) == [];
    }

    /** Point the key at a slice whose array no other key uses. */
    method Put(key: string, slice: Slice)
      requires Valid() && slice.length <= slice.data.Length && slice.data as object != this
      requires forall k | k in attempts && k != key :: attempts[k].data != slice.data
      modifies this
      ensures Valid() && Repr == old(Repr) + {slice.data} && history == old(history)
      ensures Contents(key) == slice.data[..slice.length]
      ensures forall k | k != key :: Contents(k) == old(Contents(k))
    {
      attempts := attempts[key := slice];
      Repr := Repr + {slice.data};
    }

    /** Keep what is recent at the front of the key's array. */
    method Slide(key: string, now: int) returns (kept: nat)
      requires Valid() && key in attempts
      modifies attempts[key].data
      ensures Valid() && key in attempts && kept <= attempts[key].length
      ensures attempts[key].data[..kept] == Recent(old(Contents(key)), now)
      ensures forall k | k != key :: Contents(k) == old(Contents(k))
    {
      kept := FilterInPlace(attempts[key], now);
    }

    /**
     Decides by what is stored for the client; see `AllowNewConversation`.
     `later` is the clock when the remaining wait is computed.
     */
    method Decide(key: string, now: int, later: int) returns (allowed: bool, delay: int)
      requires Valid() && now <= later
      modifies this, Repr
      ensures Valid() && fresh(Repr - old(Repr)) && history == old(history)
      ensures allowed == Grants(old(Contents(key)), now)
      ensures Contents(key) == After(old(Contents(key)), now)
      ensures forall other | other != key :: Contents(other) == old(Contents(other))
      ensures !allowed ==> later + delay == RetryAt(Contents(key))
      ensures allowed ==> delay == 0
    {
      hide Recent;
      if key !in attempts {
        NothingRecent(now);
        var created := new int[1];
        created[0] := now;
        Put(key, Slice(created, 1));
        assert created[..1] == [now];
        return true, 0;
      }
      var slice := attempts[key];
      var kept := Slide(key, now);
      if kept >= LIMIT {
        Put(key, Slice(slice.data, kept));
        return false, slice.data[0] + MINUTE - later;
      }
      var grown := Appended(Slice(slice.data, kept), now);
      Put(key, grown);
      return true, 0;
    }

    /**
     A client's attempt is decided by that client's own earlier attempts and
     nobody else's, so a client that never tried before is let through.
     */
    method AllowNewConversation(clientKey: string, now: int, later: int) returns (allowed: bool, delay: int)
      requires Valid() && Faithful() && now <= later
      modifies this, Repr
      ensures Valid() && Faithful() && fresh(Repr - old(Repr)) && history == old(history) + [Attempt(clientKey, now)]
      ensures allowed == Grants(Log(TimesOf(old(history), clientKey)), now)
      ensures (forall a | a in old(history) :: !SameClient(a.clientKey, clientKey)) ==> allowed
      ensures !allowed ==> later + delay == RetryAt(Log(TimesOf(history, clientKey)))
      ensures allowed ==> delay == 0
      ensures forall other | !SameClient(other, clientKey) :: Contents(KeyOf(other)) == old(Contents(KeyOf(other)))
    {
      hide KeyOf, Grants, After, Log, TimesOf, SameClient, RetryAt;
      ghost var before := history;
      KeysAreClients(clientKey, clientKey);
      allowed, delay := Decide(KeyOf(clientKey), now, later);
      history := history + [Attempt(clientKey, now)];
      forall client ensures Contents(KeyOf(client)) == Log(TimesOf(history, client)) {
        KeysAreClients(clientKey, client);
        OneMoreAttempt(before, Attempt(clientKey, now), client);
      }
      forall other | !SameClient(other, clientKey)
        ensures Contents(KeyOf(other)) == old(Contents(KeyOf(other)))
      {
        KeysAreClients(other, clientKey);
      }
      if forall a | a in before :: !SameClient(a.clientKey, clientKey) {
        NeverTried(before, clientKey);
        FirstIsGranted(now);
      }
    }
  }
}
