/** The per-address request limiter of the HTTP API: a fixed window that restarts
on demand, blocking, and removal of entries an hour old. */
module IpRateLimit {
  import opened Basics
  import opened SpacedLogs

  datatype Config = Config(maxRequestsPerMinute: nat, blockSeconds: nat)

  datatype Entry = Entry(requests: nat, lastReset: int, blockedUntil: Option<int>)

  type Table = map<IpAddr, Entry>

  datatype Verdict = Accepted | Blocked | LimitExceeded

  const WINDOW: int := 60 * SECOND
  const RETENTION: int := 3600 * SECOND

  predicate BlockedAt(entry: Entry, now: int) {
    entry.blockedUntil.Some? && now < entry.blockedUntil.value
  }

  /** The window a request at `now` is counted in. */
  function Reopened(entry: Entry, now: int): Entry {
    if Elapsed(now, entry.lastReset) > WINDOW then Entry(0, now, None) else entry.(blockedUntil := None)
  }

  function Decide(config: Config, entry: Entry, now: int): (Entry, Verdict) {
    if BlockedAt(entry, now) then (entry, Blocked)
    else
      var open := Reopened(entry, now);
      if open.requests >= config.maxRequestsPerMinute then
        (open.(blockedUntil := Some(now + config.blockSeconds * SECOND)), LimitExceeded)
      else
        (open.(requests := open.requests + 1), Accepted)
  }

  function Check(config: Config, table: Table, ip: IpAddr, now: int): (Table, Verdict) {
    var (entry, verdict) := Decide(config, if ip in table then table[ip] else Entry(0, now, None), now);
    (table[ip := entry], verdict)
  }

  function Cleanup(table: Table, now: int): Table {
    map ip | ip in table && Elapsed(now, table[ip].lastReset) < RETENTION :: table[ip]
  }

  class RateLimitState {
    const config: Config
    var ipLimiters: Table

    constructor (config: Config)
      ensures this.config == config && ipLimiters == map[]
    {
      this.config := config;
      ipLimiters := map[];
    }

    method CheckIpRateLimit(ip: IpAddr, now: int) returns (verdict: Verdict)
      modifies this
      ensures (ipLimiters, verdict) == Check(config, old(ipLimiters), ip, now)
    {
      if ip !in ipLimiters {
        ipLimiters := ipLimiters[ip := Entry(0, now, None)];
      }
      var limit := ipLimiters[ip];
      match limit.blockedUntil {
        case Some(until) =>
          if now < until {
            assert old(ipLimiters) == old(ipLimiters)[ip := limit];
            return Blocked;
          }
          limit := limit.(blockedUntil := None);
        case None =>
      }
      if Elapsed(now, limit.lastReset) > WINDOW {
        limit := limit.(requests := 0, lastReset := now);
      }
      if limit.requests >= config.maxRequestsPerMinute {
        limit := limit.(blockedUntil := Some(now + config.blockSeconds * SECOND));
        verdict := LimitExceeded;
      } else {
        limit := limit.(requests := limit.requests + 1);
        verdict := Accepted;
      }
      ipLimiters := ipLimiters[ip := limit];
      assert ipLimiters == old(ipLimiters)[ip := limit];
    }

    method CleanupOldEntries(now: int)
      modifies this
      ensures ipLimiters == Cleanup(old(ipLimiters), now)
    {
      var left := ipLimiters.Keys;
      var kept: Table := map[];
      while left != {}
        invariant left <= ipLimiters.Keys
        invariant kept ==
                  map ip | ip in ipLimiters && ip !in left && Elapsed(now, ipLimiters[ip].lastReset) < RETENTION
                      :: ipLimiters[ip]
        invariant ipLimiters == old(ipLimiters)
        decreases left
      {
        var ip :| ip in left;
        if Elapsed(now, ipLimiters[ip].lastReset) < RETENTION {
          kept := kept[ip := ipLimiters[ip]];
        }
        left := left - {ip};
      }
      ipLimiters := kept;
    }
  }

  // ---- Runs --------------------------------------------------------------

  datatype Op = CheckOp(ip: IpAddr) | CleanupOp

  function After(config: Config, run: Run<Op>): Table {
    match run
    case Start(_) => map[]
    case Then(before, now, CheckOp(ip)) => Check(config, After(config, before), ip, now).0
    case Then(before, now, CleanupOp) => Cleanup(After(config, before), now)
  }

  predicate Accepts(config: Config, run: Run<Op>, ip: IpAddr) {
    && run.Then?
    && run.op == CheckOp(ip)
    && Check(config, After(config, run.before), ip, run.now).1 == Accepted
  }

  function AcceptTimes(config: Config, run: Run<Op>, ip: IpAddr): seq<int> {
    match run
    case Start(_) => []
    case Then(before, now, _) =>
      AcceptTimes(config, before, ip) + if Accepts(config, run, ip) then [now] else []
  }

  /** What the entry of an address, present or removed, says about its log. */
  ghost predicate Explains(config: Config, entry: Option<Entry>, log: seq<int>, clock: int) {
    var cap := config.maxRequestsPerMinute;
    && Ordered(log)
    && (forall i :: 0 <= i < |log| ==> log[i] <= clock)
    && Spaced(log, 2 * cap - 1, WINDOW + 1)
    && match entry
       case Some(e) => Tracks(log, Window(e.requests, e.lastReset), cap, WINDOW + 1)
       case None => Settled(log, |log|, cap, WINDOW + 1, clock)
  }

  function Find(table: Table, ip: IpAddr): Option<Entry> {
    if ip in table then Some(table[ip]) else None
  }

  lemma NewEntryExplains(config: Config, log: seq<int>, clock: int, now: int)
    requires config.maxRequestsPerMinute >= 1 && clock <= now
    requires Explains(config, None, log, clock)
    ensures
      var (entry, verdict) := Decide(config, Entry(0, now, None), now);
      verdict == Accepted && Explains(config, Some(entry), log + [now], now)
  {
    OpenWindow(log, config.maxRequestsPerMinute, WINDOW + 1, now);
  }

  lemma DecideExplains(config: Config, entry: Entry, log: seq<int>, clock: int, now: int)
    requires config.maxRequestsPerMinute >= 1 && clock <= now
    requires Explains(config, Some(entry), log, clock)
    ensures
      var (entry', verdict) := Decide(config, entry, now);
      Explains(config, Some(entry'), if verdict == Accepted then log + [now] else log, now)
  {
    var cap, w := config.maxRequestsPerMinute, Window(entry.requests, entry.lastReset);
    if !BlockedAt(entry, now) {
      if Elapsed(now, w.start) > WINDOW {
        WindowRunsOut(log, w, cap, WINDOW + 1, now);
        OpenWindow(log, cap, WINDOW + 1, now);
      } else if w.count < cap {
        ExtendWindow(log, w, cap, WINDOW + 1, now);
      }
    }
  }

  lemma {:induction false} EntryExplainsLog(config: Config, run: Run<Op>, ip: IpAddr)
    requires Monotone(run) && config.maxRequestsPerMinute >= 1
    ensures Explains(config, Find(After(config, run), ip), AcceptTimes(config, run, ip), Clock(run))
  {
    match run
    case Start(_) =>
    case Then(before, now, op) =>
      EntryExplainsLog(config, before, ip);
      var entry, log := Find(After(config, before), ip), AcceptTimes(config, before, ip);
      assert log + [] == log;
      if op == CheckOp(ip) {
        match entry
        case None => NewEntryExplains(config, log, Clock(before), now);
        case Some(e) => DecideExplains(config, e, log, Clock(before), now);
      } else if op == CleanupOp && entry.Some? && Find(After(config, run), ip).None? {
        WindowRunsOut(log, Window(entry.value.requests, entry.value.lastReset),
                      config.maxRequestsPerMinute, WINDOW + 1, now);
      }
  }

  lemma {:induction false} ZeroLimitAcceptsNothing(config: Config, run: Run<Op>, ip: IpAddr)
    requires config.maxRequestsPerMinute == 0
    ensures AcceptTimes(config, run, ip) == []
  {
    if run.Then? {
      ZeroLimitAcceptsNothing(config, run.before, ip);
    }
  }

  /** The most requests of one address that 60 seconds can hold. */
  function Burst(config: Config): nat {
    if config.maxRequestsPerMinute == 0 then 0 else 2 * config.maxRequestsPerMinute - 1
  }

  /** No closed interval of 60 seconds holds more than `Burst` accepted requests
  of one address, clean-ups included. */
  lemma FixedWindowBound(config: Config, run: Run<Op>, ip: IpAddr, lo: int)
    requires Monotone(run)
    ensures |Within(AcceptTimes(config, run, ip), lo, WINDOW + 1)| <= Burst(config)
  {
    if config.maxRequestsPerMinute == 0 {
      ZeroLimitAcceptsNothing(config, run, ip);
      assert Within(AcceptTimes(config, run, ip), lo, WINDOW + 1) == {};
    } else {
      EntryExplainsLog(config, run, ip);
      SpacedCount(AcceptTimes(config, run, ip), Burst(config), WINDOW + 1, lo);
    }
  }

  // ---- The bound is reached ------------------------------------------------

  /** What a run has led to for `ip`: its entry, and its log. */
  predicate Shows(config: Config, run: Run<Op>, ip: IpAddr, entry: Option<Entry>, log: seq<int>, now: int) {
    && Monotone(run) && Clock(run) <= now
    && Find(After(config, run), ip) == entry
    && AcceptTimes(config, run, ip) == log
  }

  /** A request is accepted if the open window has room. */
  lemma FillOne(config: Config, run: Run<Op>, ip: IpAddr, e: Entry, log: seq<int>, now: int) returns (next: Run<Op>)
    requires Shows(config, run, ip, Some(e), log, now) && e.blockedUntil == None
    requires e.lastReset <= now <= e.lastReset + WINDOW && e.requests < config.maxRequestsPerMinute
    ensures Shows(config, next, ip, Some(e.(requests := e.requests + 1)), log + [now], now)
  {
    next := Then(run, now, CheckOp(ip));
    assert Accepts(config, next, ip);
  }

  lemma {:induction false} FillWindow(config: Config, run: Run<Op>, ip: IpAddr, e: Entry, log: seq<int>,
                                      now: int, n: nat)
    returns (next: Run<Op>)
    requires Shows(config, run, ip, Some(e), log, now) && e.blockedUntil == None
    requires e.lastReset <= now <= e.lastReset + WINDOW && e.requests + n <= config.maxRequestsPerMinute
    ensures Shows(config, next, ip, Some(e.(requests := e.requests + n)), log + Times(now, n), now)
  {
    if n == 0 {
      next := run;
      NoTimes(log, now);
    } else {
      next := FillWindow(config, run, ip, e, log, now, n - 1);
      next := FillOne(config, next, ip, e.(requests := e.requests + n - 1), log + Times(now, n - 1), now);
      TimesThenOne(log, now, n - 1);
    }
  }

  /** A check at `now` opens a new window. */
  predicate Reopens(entry: Option<Entry>, now: int) {
    entry.Some? ==> entry.value.blockedUntil == None && now - entry.value.lastReset > WINDOW
  }

  /** A window that opens at `opens` takes all its other requests at `fills`. */
  lemma FullWindow(config: Config, run: Run<Op>, ip: IpAddr, entry: Option<Entry>, log: seq<int>,
                   opens: int, fills: int)
    returns (next: Run<Op>)
    requires config.maxRequestsPerMinute >= 1 && opens <= fills <= opens + WINDOW
    requires Shows(config, run, ip, entry, log, opens) && Reopens(entry, opens)
    ensures Shows(config, next, ip, Some(Entry(config.maxRequestsPerMinute, opens, None)),
                  log + [opens] + Times(fills, config.maxRequestsPerMinute - 1), fills)
  {
    var first := Then(run, opens, CheckOp(ip));
    assert Accepts(config, first, ip);
    assert Shows(config, first, ip, Some(Entry(1, opens, None)), log + [opens], opens);
    next := FillWindow(config, first, ip, Entry(1, opens, None), log + [opens], fills, config.maxRequestsPerMinute - 1);
  }

  /** For every positive limit some run fits `Burst` requests into 60 seconds. */
  lemma BurstIsReached(config: Config, ip: IpAddr) returns (run: Run<Op>, lo: int)
    requires config.maxRequestsPerMinute >= 1
    ensures Monotone(run) && |Within(AcceptTimes(config, run, ip), lo, WINDOW + 1)| == Burst(config)
  {
    var m := config.maxRequestsPerMinute;
    lo := 1;
    run := FullWindow(config, Start(0), ip, None, [], 0, WINDOW);
    var log := [] + [0] + Times(WINDOW, m - 1);
    run := FullWindow(config, run, ip, Some(Entry(m, 0, None)), log, WINDOW + 1, WINDOW + 1);
    assert log + [WINDOW + 1] + Times(WINDOW + 1, m - 1) == TwoWindows(m, WINDOW + 1);
    TwoWindowsCount(m, WINDOW + 1);
  }

  // ---- How long a block lasts ----------------------------------------------

  const SAFE_BLOCK: int := RETENTION - WINDOW

  /** The last operation of the run rejected `ip` for exceeding the limit. */
  predicate Rejects(config: Config, run: Run<Op>, ip: IpAddr) {
    && run.Then?
    && run.op == CheckOp(ip)
    && Check(config, After(config, run.before), ip, run.now).1 == LimitExceeded
  }

  lemma {:induction false} BlockPersists(config: Config, rejection: Run<Op>, later: Run<Op>, ip: IpAddr)
    requires Monotone(later) && Continues(later, rejection) && Rejects(config, rejection, ip)
    requires Clock(later) < rejection.now + config.blockSeconds * SECOND
    requires Clock(later) < rejection.now + SAFE_BLOCK
    ensures ip in After(config, later)
    ensures After(config, later)[ip].blockedUntil == Some(rejection.now + config.blockSeconds * SECOND)
    ensures After(config, later)[ip].lastReset >= rejection.now - WINDOW
  {
    if later != rejection {
      BlockPersists(config, rejection, later.before, ip);
    }
  }

  /** A rejected address stays refused for its block duration, up to 59 minutes. */
  lemma BlockIsHonoured(config: Config, rejection: Run<Op>, later: Run<Op>, ip: IpAddr, now: int)
    requires Monotone(later) && Continues(later, rejection) && Rejects(config, rejection, ip)
    requires Clock(later) <= now < rejection.now + config.blockSeconds * SECOND
    requires now < rejection.now + SAFE_BLOCK
    ensures Check(config, After(config, later), ip, now).1 == Blocked
  {
    BlockPersists(config, rejection, later, ip);
  }

  /** In no run is a request accepted before the configured block is over. */
  ghost predicate HonoursBlocks(config: Config) {
    forall rejection: Run<Op>, later: Run<Op>, ip: IpAddr, now: int ::
      && Monotone(later) && Continues(later, rejection) && Rejects(config, rejection, ip)
      && Clock(later) <= now < rejection.now + config.blockSeconds * SECOND
      ==> Check(config, After(config, later), ip, now).1 != Accepted
  }

  /** A block longer than 59 minutes can be cut short by a clean-up. */
  lemma LongBlockCutShort(config: Config, ip: IpAddr)
    returns (rejection: Run<Op>, later: Run<Op>, now: int)
    requires config.maxRequestsPerMinute >= 1 && config.blockSeconds * SECOND > SAFE_BLOCK
    ensures Monotone(later) && Continues(later, rejection) && Rejects(config, rejection, ip)
    ensures Clock(later) <= now < rejection.now + config.blockSeconds * SECOND
    ensures Check(config, After(config, later), ip, now).1 == Accepted
  {
    var full := FullWindow(config, Start(0), ip, None, [], 0, 0);
    rejection := Then(full, WINDOW, CheckOp(ip));
    later := Then(rejection, RETENTION, CleanupOp);
    now := RETENTION;
    assert Continues(later.before, rejection);
  }

  /** Blocks are honoured in every run exactly when they last at most 59 minutes
  (or the limit is zero, when nothing is ever accepted). */
  lemma HonoursBlocksExactly(config: Config, ip: IpAddr)
    ensures HonoursBlocks(config) <==>
            config.maxRequestsPerMinute == 0 || config.blockSeconds * SECOND <= SAFE_BLOCK
  {
    if config.maxRequestsPerMinute >= 1 {
      if config.blockSeconds * SECOND > SAFE_BLOCK {
        var rejection, later, now := LongBlockCutShort(config, ip);
      } else {
        forall rejection: Run<Op>, later: Run<Op>, ip: IpAddr, now: int |
          && Monotone(later) && Continues(later, rejection) && Rejects(config, rejection, ip)
          && Clock(later) <= now < rejection.now + config.blockSeconds * SECOND
          ensures Check(config, After(config, later), ip, now).1 != Accepted
        {
          BlockIsHonoured(config, rejection, later, ip, now);
        }
      }
    }
  }
}
