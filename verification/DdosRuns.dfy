/** What connection admission guarantees over whole runs of checks, closes,
clean-ups and queries, in any order and at any non-decreasing times. */
module DdosRuns {
  import opened Basics
  import opened SpacedLogs
  import opened DdosProtection

  datatype Op =
    | CheckOp(ip: IpAddr)
    | CloseOp(ip: IpAddr)
    | CleanupOp
    | IsBlockedOp(ip: IpAddr)
    | StatsOp

  function Step(config: Config, table: Table, now: int, op: Op): Table {
    match op
    case CheckOp(ip) => Check(config, table, ip, now).0
    case CloseOp(ip) => Close(table, ip)
    case CleanupOp => Cleanup(config, table, now)
    case IsBlockedOp(_) => table
    case StatsOp => table
  }

  /** The table after a run that started with an empty one. */
  function After(config: Config, run: Run<Op>): Table {
    match run
    case Start(_) => map[]
    case Then(before, now, op) => Step(config, After(config, before), now, op)
  }

  /** Did the last operation of the run accept a connection from `ip`? */
  predicate Accepts(config: Config, run: Run<Op>, ip: IpAddr) {
    && run.Then?
    && run.op == CheckOp(ip)
    && Check(config, After(config, run.before), ip, run.now).1 == Accepted
  }

  /** The times at which connections from `ip` were accepted, oldest first. */
  function AcceptTimes(config: Config, run: Run<Op>, ip: IpAddr): seq<int> {
    match run
    case Start(_) => []
    case Then(before, now, _) =>
      AcceptTimes(config, before, ip) + if Accepts(config, run, ip) then [now] else []
  }

  // ---- The sliding window ------------------------------------------------

  lemma {:induction false} NothingRecent(times: seq<int>, now: int, age: nat)
    requires forall i :: 0 <= i < |times| ==> Elapsed(now, times[i]) >= age
    ensures Recent(times, now, age) == []
  {
    if times != [] {
      NothingRecent(times[..|times| - 1], now, age);
    }
  }

  /** Filtering an ordered list by age keeps exactly a tail of it. */
  lemma {:induction false} RecentIsTail(times: seq<int>, now: int, age: nat) returns (k: nat)
    requires Ordered(times)
    ensures k <= |times| && Recent(times, now, age) == times[k..]
    ensures forall i :: 0 <= i < k ==> Elapsed(now, times[i]) >= age
    ensures forall i :: k <= i < |times| ==> Elapsed(now, times[i]) < age
  {
    var last := |times| - 1;
    if times == [] {
      k := 0;
    } else if Elapsed(now, times[last]) < age {
      k := RecentIsTail(times[..last], now, age);
      assert times[..last][k..] + [times[last]] == times[k..];
    } else {
      k := |times|;
      NothingRecent(times, now, age);
    }
  }

  /** `recent` is the log from position `k` on; what precedes has left the window. */
  ghost predicate HoldsTail(log: seq<int>, recent: seq<int>, k: nat, window: nat, clock: int) {
    && k <= |log|
    && recent == log[k..]
    && (forall i :: 0 <= i < k ==> log[i] + window <= clock)
    && Ordered(log)
    && (forall i :: 0 <= i < |log| ==> log[i] <= clock)
  }

  /** Filtering by age moves the start of the tail and loses nothing recent. */
  lemma FilterKeepsTail(log: seq<int>, recent: seq<int>, k: nat, window: nat, clock: int, now: int)
    returns (k': nat)
    requires HoldsTail(log, recent, k, window, clock) && clock <= now
    ensures HoldsTail(log, Recent(recent, now, window), k', window, now)
  {
    var dropped := RecentIsTail(recent, now, window);
    k' := k + dropped;
    assert recent[dropped..] == log[k'..];
    forall i | 0 <= i < k' ensures log[i] + window <= now {
      if k <= i {
        assert log[i] == recent[i - k];
      }
    }
  }

  /** Accepting while fewer than `rate` connections are recent keeps the spacing. */
  lemma AcceptKeepsTail(log: seq<int>, recent: seq<int>, k: nat, window: nat, rate: nat, now: int)
    requires HoldsTail(log, recent, k, window, now) && Spaced(log, rate, window) && |recent| < rate
    ensures HoldsTail(log + [now], recent + [now], k, window, now) && Spaced(log + [now], rate, window)
  {
    assert (log + [now])[k..] == log[k..] + [now];
    assert |log| - rate < k;
  }

  lemma CheckKeepsTail(config: Config, info: IpInfo, log: seq<int>, k: nat, clock: int, now: int)
    returns (k': nat)
    requires HoldsTail(log, info.recent, k, config.rateWindow, clock) && clock <= now
    requires Spaced(log, config.connectionRatePerMinute, config.rateWindow)
    ensures
      var (info', verdict) := Admit(config, info, now);
      var log' := log + if verdict == Accepted then [now] else [];
      && HoldsTail(log', info'.recent, k', config.rateWindow, now)
      && Spaced(log', config.connectionRatePerMinute, config.rateWindow)
  {
    k' := FilterKeepsTail(log, info.recent, k, config.rateWindow, clock, now);
    var recent := Recent(info.recent, now, config.rateWindow);
    if Admit(config, info, now).1 == Accepted {
      AcceptKeepsTail(log, recent, k', config.rateWindow, config.connectionRatePerMinute, now);
    } else {
      assert log + [] == log;
    }
  }

  lemma RemovalKeepsTail(config: Config, info: IpInfo, log: seq<int>, k: nat, clock: int, now: int)
    requires HoldsTail(log, info.recent, k, config.rateWindow, clock) && clock <= now
    requires !Keep(config, info, now)
    ensures HoldsTail(log, [], |log|, config.rateWindow, now)
  {
    forall i | 0 <= i < |log| ensures log[i] + config.rateWindow <= now {
      if k <= i {
        assert log[i] == info.recent[i - k];
      }
    }
  }

  /** The entry of an address remembers every accepted connection that can still
  matter, and accepted connections are spaced by the rate limit. */
  lemma {:induction false} TailRemembered(config: Config, run: Run<Op>, ip: IpAddr) returns (k: nat)
    requires Monotone(run)
    ensures HoldsTail(AcceptTimes(config, run, ip), Lookup(After(config, run), ip).recent,
                      k, config.rateWindow, Clock(run))
    ensures Spaced(AcceptTimes(config, run, ip), config.connectionRatePerMinute, config.rateWindow)
  {
    match run
    case Start(_) => k := 0;
    case Then(before, now, op) =>
      k := TailRemembered(config, before, ip);
      var info, log := Lookup(After(config, before), ip), AcceptTimes(config, before, ip);
      if op == CheckOp(ip) && !BlockedAt(info, now) {
        k := CheckKeepsTail(config, info, log, k, Clock(before), now);
      } else {
        assert AcceptTimes(config, run, ip) == log;
        if op == CleanupOp && !Keep(config, info, now) {
          RemovalKeepsTail(config, info, log, k, Clock(before), now);
          k := |log|;
        } else {
          assert Lookup(After(config, run), ip).recent == info.recent;
        }
      }
  }

  /** No half-open interval of length `rateWindow` holds more accepted
  connections of one address than the configured rate. */
  lemma SlidingWindowBound(config: Config, run: Run<Op>, ip: IpAddr, lo: int)
    requires Monotone(run)
    ensures |Within(AcceptTimes(config, run, ip), lo, config.rateWindow)| <= config.connectionRatePerMinute
  {
    var _ := TailRemembered(config, run, ip);
    SpacedCount(AcceptTimes(config, run, ip), config.connectionRatePerMinute, config.rateWindow, lo);
  }

  // ---- Blocking ----------------------------------------------------------

  /** A limit rejection leaves the address blocked until its block ends, whatever
  else happens, clean-ups included. */
  lemma {:induction false} BlockPersists(config: Config, rejection: Run<Op>, later: Run<Op>, ip: IpAddr)
    requires Monotone(later) && Continues(later, rejection)
    requires rejection.Then? && rejection.op == CheckOp(ip)
    requires Check(config, After(config, rejection.before), ip, rejection.now).1 == LimitExceeded
    requires Clock(later) < rejection.now + config.blockDuration
    ensures Lookup(After(config, later), ip).blockedUntil == Some(rejection.now + config.blockDuration)
  {
    if later != rejection {
      BlockPersists(config, rejection, later.before, ip);
    }
  }

  /** Nothing is accepted from an address before `blockDuration` has passed since
  a limit rejection, and every check in between is answered "blocked". */
  lemma BlockIsHonoured(config: Config, rejection: Run<Op>, later: Run<Op>, ip: IpAddr, now: int)
    requires Monotone(later) && Continues(later, rejection) && Clock(later) <= now
    requires rejection.Then? && rejection.op == CheckOp(ip)
    requires Check(config, After(config, rejection.before), ip, rejection.now).1 == LimitExceeded
    requires now < rejection.now + config.blockDuration
    ensures Check(config, After(config, later), ip, now).1 == Blocked
  {
    BlockPersists(config, rejection, later, ip);
  }

  // ---- Open connections --------------------------------------------------

  function Closes(run: Run<Op>, ip: IpAddr): nat {
    match run
    case Start(_) => 0
    case Then(before, _, op) => Closes(before, ip) + if op == CloseOp(ip) then 1 else 0
  }

  /** At no point of the run were more connections closed than accepted. */
  ghost predicate Disciplined(config: Config, run: Run<Op>) {
    && (forall ip :: Closes(run, ip) <= |AcceptTimes(config, run, ip)|)
    && (run.Then? ==> Disciplined(config, run.before))
  }

  /** The connections of `ip` accepted and not closed since; a close without any is lost. */
  function Open(config: Config, run: Run<Op>, ip: IpAddr): nat {
    match run
    case Start(_) => 0
    case Then(before, _, op) =>
      var open := Open(config, before, ip);
      if Accepts(config, run, ip) then open + 1
      else if op == CloseOp(ip) && open > 0 then open - 1
      else open
  }

  /** The count of an address is its open connections, never more than the limit; while
  no more are closed than accepted, that is accepts minus closes. */
  lemma {:induction false} ActivePerIp(config: Config, run: Run<Op>, ip: IpAddr)
    ensures Lookup(After(config, run), ip).active == Open(config, run, ip) <= config.maxConnectionsPerIp
    ensures Disciplined(config, run) ==> Open(config, run, ip) == |AcceptTimes(config, run, ip)| - Closes(run, ip)
  {
    if run.Then? {
      ActivePerIp(config, run.before, ip);
    }
  }

  function TotalAccepted(config: Config, run: Run<Op>): nat {
    match run
    case Start(_) => 0
    case Then(before, now, op) =>
      TotalAccepted(config, before) + if op.CheckOp? && Accepts(config, run, op.ip) then 1 else 0
  }

  function TotalClosed(run: Run<Op>): nat {
    match run
    case Start(_) => 0
    case Then(before, _, op) => TotalClosed(before) + if op.CloseOp? then 1 else 0
  }

  /** How many closes were lost. */
  function Lost(config: Config, run: Run<Op>): nat {
    match run
    case Start(_) => 0
    case Then(before, _, op) =>
      Lost(config, before) + if op.CloseOp? && Open(config, before, op.ip) == 0 then 1 else 0
  }

  lemma {:induction false} NoneLost(config: Config, run: Run<Op>)
    requires Disciplined(config, run)
    ensures Lost(config, run) == 0
  {
    if run.Then? {
      NoneLost(config, run.before);
      if run.op.CloseOp? {
        ActivePerIp(config, run.before, run.op.ip);
        assert Closes(run, run.op.ip) <= |AcceptTimes(config, run, run.op.ip)|;
      }
    }
  }

  /** Replacing the entry of one address changes the number of connections by the
  change of that entry. */
  lemma UpdateConnections(table: Table, ip: IpAddr, info: IpInfo)
    ensures |Connections(table[ip := info])| == |Connections(table)| - Lookup(table, ip).active + info.active
  {
    var others := table - {ip};
    assert others[ip := info] == table[ip := info];
    CountConnections(others, ip, info);
    if ip in table {
      assert others[ip := table[ip]] == table;
      CountConnections(others, ip, table[ip]);
    } else {
      assert others == table;
    }
  }

  /** The reported number of active connections is accepts minus closes, not counting
  closes that were lost. */
  lemma {:induction false} ActiveTotal(config: Config, run: Run<Op>)
    ensures |Connections(After(config, run))| == TotalAccepted(config, run) - (TotalClosed(run) - Lost(config, run))
    ensures Disciplined(config, run) ==> Lost(config, run) == 0
  {
    if Disciplined(config, run) {
      NoneLost(config, run);
    }
    match run
    case Start(_) =>
      assert Connections(After(config, run)) == {};
    case Then(before, now, op) =>
      ActiveTotal(config, before);
      var table := After(config, before);
      match op
      case CheckOp(ip) =>
        if !BlockedAt(Lookup(table, ip), now) {
          UpdateConnections(table, ip, Admit(config, Lookup(table, ip), now).0);
        }
      case CloseOp(ip) =>
        ActivePerIp(config, before, ip);
        if ip in table {
          UpdateConnections(table, ip, After(config, run)[ip]);
        }
      case CleanupOp =>
        assert Connections(Cleanup(config, table, now)) == Connections(table);
      case IsBlockedOp(_) =>
      case StatsOp =>
  }

  // ---- The decision in terms of the history --------------------------------

  /** When `ip` last ran into a limit, if it ever did. */
  function LastRejection(config: Config, run: Run<Op>, ip: IpAddr): Option<int> {
    match run
    case Start(_) => None
    case Then(before, now, op) =>
      if op == CheckOp(ip) && Check(config, After(config, before), ip, now).1 == LimitExceeded then Some(now)
      else LastRejection(config, before, ip)
  }

  /** The limiter without any state: what a check at `now` must answer, given the
  accepted times, the open connections and the last rejection of the address. */
  ghost function Reference(config: Config, accepted: seq<int>, open: nat, rejection: Option<int>, now: int): Verdict {
    if rejection.Some? && now < rejection.value + config.blockDuration then Blocked
    else if || |Within(accepted, now - config.rateWindow + 1, config.rateWindow)| >= config.connectionRatePerMinute
            || open >= config.maxConnectionsPerIp then LimitExceeded
    else Accepted
  }

  lemma {:induction false} BlockMatchesHistory(config: Config, run: Run<Op>, ip: IpAddr, now: int)
    requires Monotone(run) && Clock(run) <= now
    ensures
      var rejection := LastRejection(config, run, ip);
      BlockedAt(Lookup(After(config, run), ip), now) <==>
        rejection.Some? && now < rejection.value + config.blockDuration
  {
    if run.Then? {
      BlockMatchesHistory(config, run.before, ip, run.now);
      BlockMatchesHistory(config, run.before, ip, now);
    }
  }

  /** Counting the recent entries of a list counts the log entries in the window. */
  lemma RecentCount(log: seq<int>, recent: seq<int>, k: nat, window: nat, clock: int, now: int)
    requires HoldsTail(log, recent, k, window, clock) && clock <= now
    ensures |Recent(recent, now, window)| == |Within(log, now - window + 1, window)|
  {
    var dropped := RecentIsTail(recent, now, window);
    var inside := Within(log, now - window + 1, window);
    forall i ensures i in inside <==> i in Range(k + dropped, |log| - k - dropped) {
      if k <= i < |log| {
        assert log[i] == recent[i - k];
      }
    }
    assert inside == Range(k + dropped, |log| - k - dropped);
  }

  /** Every decision is the one the reference takes from the history alone. */
  lemma DecisionMatchesHistory(config: Config, run: Run<Op>, ip: IpAddr, now: int)
    requires Monotone(run) && Clock(run) <= now
    ensures Check(config, After(config, run), ip, now).1 ==
            Reference(config, AcceptTimes(config, run, ip), Open(config, run, ip),
                      LastRejection(config, run, ip), now)
  {
    var k := TailRemembered(config, run, ip);
    var log, info := AcceptTimes(config, run, ip), Lookup(After(config, run), ip);
    BlockMatchesHistory(config, run, ip, now);
    RecentCount(log, info.recent, k, config.rateWindow, Clock(run), now);
    ActivePerIp(config, run, ip);
  }

  // ---- Clean-up is invisible ---------------------------------------------

  datatype Answer =
    | Decision(verdict: Verdict)
    | Flag(blocked: bool)
    | Totals(blockedIps: nat, activeConnections: nat)

  /** Everything the callers were told during the run, except how many addresses
  are being tracked. */
  ghost function Answers(config: Config, run: Run<Op>): seq<Answer> {
    match run
    case Start(_) => []
    case Then(before, now, op) =>
      Answers(config, before) + Reply(config, After(config, before), now, op)
  }

  ghost function Reply(config: Config, table: Table, now: int, op: Op): seq<Answer> {
    match op
    case CheckOp(ip) => [Decision(Check(config, table, ip, now).1)]
    case CloseOp(_) => []
    case CleanupOp => []
    case IsBlockedOp(ip) => [Flag(BlockedAt(Lookup(table, ip), now))]
    case StatsOp => [Totals(|BlockedIps(table, now)|, |Connections(table)|)]
  }

  function WithoutCleanups(run: Run<Op>): Run<Op> {
    match run
    case Start(_) => run
    case Then(before, now, op) =>
      if op == CleanupOp then WithoutCleanups(before) else Then(WithoutCleanups(before), now, op)
  }

  /** The part of an entry that can still influence an answer at `now` or later. */
  function View(config: Config, info: IpInfo, now: int): IpInfo {
    IpInfo(info.active, Recent(info.recent, now, config.rateWindow),
           if BlockedAt(info, now) then info.blockedUntil else None)
  }

  ghost predicate Similar(config: Config, a: Table, b: Table, now: int) {
    forall ip :: View(config, Lookup(a, ip), now) == View(config, Lookup(b, ip), now)
  }

  lemma {:induction false} RecentTwice(times: seq<int>, early: int, now: int, age: nat)
    requires early <= now
    ensures Recent(Recent(times, early, age), now, age) == Recent(times, now, age)
  {
    if times != [] {
      var last := |times| - 1;
      RecentTwice(times[..last], early, now, age);
      var kept := Recent(times[..last], early, age);
      if Elapsed(early, times[last]) < age {
        assert (kept + [times[last]])[..|kept|] == kept;
      } else {
        assert Recent(times, early, age) == kept;
      }
    }
  }

  lemma SimilarLater(config: Config, a: Table, b: Table, early: int, now: int)
    requires Similar(config, a, b, early) && early <= now
    ensures Similar(config, a, b, now)
  {
    forall ip ensures View(config, Lookup(a, ip), now) == View(config, Lookup(b, ip), now) {
      var x, y := Lookup(a, ip), Lookup(b, ip);
      assert View(config, x, early) == View(config, y, early);
      RecentTwice(x.recent, early, now, config.rateWindow);
      RecentTwice(y.recent, early, now, config.rateWindow);
      assert BlockedAt(x, now) ==> BlockedAt(x, early);
      assert BlockedAt(y, now) ==> BlockedAt(y, early);
    }
  }

  /** Removing idle entries does not change the view of any address. */
  lemma CleanupIsSimilar(config: Config, table: Table, now: int)
    ensures Similar(config, table, Cleanup(config, table, now), now)
  {
    forall ip
      ensures View(config, Lookup(table, ip), now) == View(config, Lookup(Cleanup(config, table, now), ip), now)
    {
      if ip in table && !Keep(config, table[ip], now) {
        NothingRecent(table[ip].recent, now, config.rateWindow);
      }
    }
  }

  /** Operations answer alike on similar tables and keep them similar. */
  lemma SimilarStep(config: Config, a: Table, b: Table, now: int, op: Op)
    requires Similar(config, a, b, now) && op != CleanupOp
    ensures Similar(config, Step(config, a, now, op), Step(config, b, now, op), now)
    ensures Reply(config, a, now, op) == Reply(config, b, now, op)
  {
    match op
    case CheckOp(ip) =>
      SimilarCheck(config, a, b, now, ip);
    case CloseOp(ip) =>
      assert View(config, Lookup(a, ip), now) == View(config, Lookup(b, ip), now);
      forall other
        ensures View(config, Lookup(Close(a, ip), other), now) == View(config, Lookup(Close(b, ip), other), now)
      {
        assert View(config, Lookup(a, other), now) == View(config, Lookup(b, other), now);
      }
    case IsBlockedOp(ip) =>
      assert View(config, Lookup(a, ip), now) == View(config, Lookup(b, ip), now);
    case StatsOp =>
      SimilarTotals(config, a, b, now);
  }

  lemma SimilarAdmit(config: Config, x: IpInfo, y: IpInfo, now: int)
    requires View(config, x, now) == View(config, y, now) && !BlockedAt(x, now)
    ensures Admit(config, x, now).1 == Admit(config, y, now).1
    ensures View(config, Admit(config, x, now).0, now) == View(config, Admit(config, y, now).0, now)
  {
    assert !BlockedAt(y, now);
  }

  lemma SimilarCheck(config: Config, a: Table, b: Table, now: int, ip: IpAddr)
    requires Similar(config, a, b, now)
    ensures Check(config, a, ip, now).1 == Check(config, b, ip, now).1
    ensures Similar(config, Check(config, a, ip, now).0, Check(config, b, ip, now).0, now)
  {
    var a', b' := Check(config, a, ip, now).0, Check(config, b, ip, now).0;
    assert View(config, Lookup(a, ip), now) == View(config, Lookup(b, ip), now);
    if !BlockedAt(Lookup(a, ip), now) {
      SimilarAdmit(config, Lookup(a, ip), Lookup(b, ip), now);
      forall other ensures View(config, Lookup(a', other), now) == View(config, Lookup(b', other), now) {
        assert other != ip ==> View(config, Lookup(a, other), now) == View(config, Lookup(b, other), now);
      }
    }
  }

  lemma SimilarTotals(config: Config, a: Table, b: Table, now: int)
    requires Similar(config, a, b, now)
    ensures BlockedIps(a, now) == BlockedIps(b, now) && Connections(a) == Connections(b)
  {
    forall ip ensures ip in BlockedIps(a, now) <==> ip in BlockedIps(b, now) {
      assert View(config, Lookup(a, ip), now) == View(config, Lookup(b, ip), now);
    }
    forall c ensures c in Connections(a) <==> c in Connections(b) {
      assert View(config, Lookup(a, c.ip), now) == View(config, Lookup(b, c.ip), now);
    }
  }

  lemma {:induction false} RunsStaySimilar(config: Config, run: Run<Op>)
    requires Monotone(run)
    ensures Similar(config, After(config, run), After(config, WithoutCleanups(run)), Clock(run))
    ensures Answers(config, run) == Answers(config, WithoutCleanups(run))
  {
    if run.Then? {
      var a, b := After(config, run.before), After(config, WithoutCleanups(run.before));
      RunsStaySimilar(config, run.before);
      SimilarLater(config, a, b, Clock(run.before), run.now);
      if run.op == CleanupOp {
        CleanupIsSimilar(config, a, run.now);
        forall ip
          ensures View(config, Lookup(After(config, run), ip), run.now) == View(config, Lookup(b, ip), run.now)
        {
          assert View(config, Lookup(a, ip), run.now) == View(config, Lookup(b, ip), run.now);
        }
      } else {
        SimilarStep(config, a, b, run.now, run.op);
      }
    }
  }

  /** Two runs that differ only in where clean-ups happen give the same answers. */
  lemma CleanupIsInvisible(config: Config, one: Run<Op>, two: Run<Op>)
    requires Monotone(one) && Monotone(two) && WithoutCleanups(one) == WithoutCleanups(two)
    ensures Answers(config, one) == Answers(config, two)
  {
    RunsStaySimilar(config, one);
    RunsStaySimilar(config, two);
  }
}
