/** The decisions of the API limiter in terms of the history alone: which requests were
accepted, when windows opened, when the address was last rejected, and which clean-ups
made the limiter forget it. */
module IpRateHistory {
  import opened Basics
  import opened IpRateLimit

  /** The last operation of the run decided about `ip`, rather than finding it blocked. */
  predicate Decides(config: Config, run: Run<Op>, ip: IpAddr) {
    && run.Then? && run.op == CheckOp(ip)
    && Check(config, After(config, run.before), ip, run.now).1 != Blocked
  }

  /** A window that opened at `open` is over. */
  predicate IsOver(open: Option<int>, now: int) {
    open.Some? ==> now - open.value > WINDOW
  }

  /** When the current window of `ip` opened, unless a clean-up an hour later or more made
  the limiter forget the address. */
  function Opened(config: Config, run: Run<Op>, ip: IpAddr): Option<int> {
    match run
    case Start(_) => None
    case Then(before, now, op) =>
      var open := Opened(config, before, ip);
      if Decides(config, run, ip) && IsOver(open, now) then Some(now)
      else if op == CleanupOp && open.Some? && now - open.value >= RETENTION then None
      else open
  }

  /** When `ip` last exceeded the limit, unless forgotten since. */
  function Rejection(config: Config, run: Run<Op>, ip: IpAddr): Option<int> {
    match run
    case Start(_) => None
    case Then(before, now, op) =>
      if Rejects(config, run, ip) then Some(now)
      else if Opened(config, run, ip).None? then None
      else Rejection(config, before, ip)
  }

  /** How many of the accepted requests came at `from` or later. */
  function Since(log: seq<int>, from: int): nat {
    if log == [] then 0
    else Since(log[..|log| - 1], from) + if log[|log| - 1] >= from then 1 else 0
  }

  /** The limiter without any state: what a check at `now` must answer. */
  function Reference(config: Config, accepted: seq<int>, open: Option<int>, rejection: Option<int>, now: int): Verdict {
    if rejection.Some? && now < rejection.value + config.blockSeconds * SECOND then Blocked
    else
      var used := if IsOver(open, now) then 0 else Since(accepted, open.value);
      if used >= config.maxRequestsPerMinute then LimitExceeded else Accepted
  }

  /** The entry of an address holds what its history says. */
  ghost predicate Matches(config: Config, entry: Option<Entry>, log: seq<int>, open: Option<int>,
                          rejection: Option<int>, clock: int)
  {
    match entry
    case None =>
      open == None && rejection == None && forall i :: 0 <= i < |log| ==> log[i] < clock
    case Some(e) =>
      && open == Some(e.lastReset) && e.lastReset <= clock
      && e.requests == Since(log, e.lastReset)
      && (forall i :: 0 <= i < |log| ==> log[i] <= clock && log[i] <= e.lastReset + WINDOW)
      && match e.blockedUntil
         case Some(until) => rejection.Some? && until == rejection.value + config.blockSeconds * SECOND
         case None => rejection.Some? ==> rejection.value + config.blockSeconds * SECOND <= clock
  }

  lemma {:induction false} NoneSince(log: seq<int>, from: int)
    requires forall i :: 0 <= i < |log| ==> log[i] < from
    ensures Since(log, from) == 0
  {
    if log != [] {
      NoneSince(log[..|log| - 1], from);
    }
  }

  lemma OneMoreSince(log: seq<int>, from: int, now: int)
    requires from <= now
    ensures Since(log + [now], from) == Since(log, from) + 1
  {
    assert (log + [now])[..|log|] == log;
  }

  /** Deciding about a matching entry answers as the reference does, and the entry it leaves
  matches again. */
  lemma DecideMatches(config: Config, entry: Option<Entry>, log: seq<int>, open: Option<int>,
                      rejection: Option<int>, clock: int, now: int)
    requires Matches(config, entry, log, open, rejection, clock) && clock <= now
    ensures
      var (entry', verdict) := Decide(config, if entry.Some? then entry.value else Entry(0, now, None), now);
      && verdict == Reference(config, log, open, rejection, now)
      && Matches(config, Some(entry'), if verdict == Accepted then log + [now] else log,
                 if verdict != Blocked && IsOver(open, now) then Some(now) else open,
                 if verdict == LimitExceeded then Some(now) else rejection, now)
  {
    if IsOver(open, now) {
      NoneSince(log, now);
      OneMoreSince(log, now, now);
    } else {
      OneMoreSince(log, open.value, now);
    }
  }

  lemma {:induction false} EntryMatches(config: Config, run: Run<Op>, ip: IpAddr)
    requires Monotone(run)
    ensures Matches(config, Find(After(config, run), ip), AcceptTimes(config, run, ip),
                    Opened(config, run, ip), Rejection(config, run, ip), Clock(run))
  {
    match run
    case Start(_) =>
    case Then(before, now, op) =>
      EntryMatches(config, before, ip);
      assert AcceptTimes(config, before, ip) + [] == AcceptTimes(config, before, ip);
      if op == CheckOp(ip) {
        DecideMatches(config, Find(After(config, before), ip), AcceptTimes(config, before, ip),
                      Opened(config, before, ip), Rejection(config, before, ip), Clock(before), now);
      }
  }

  /** In every run every decision is the one the reference takes from the history alone. */
  lemma DecisionMatchesHistory(config: Config, run: Run<Op>, ip: IpAddr, now: int)
    requires Monotone(run) && Clock(run) <= now
    ensures Check(config, After(config, run), ip, now).1 ==
            Reference(config, AcceptTimes(config, run, ip), Opened(config, run, ip), Rejection(config, run, ip), now)
  {
    EntryMatches(config, run, ip);
    DecideMatches(config, Find(After(config, run), ip), AcceptTimes(config, run, ip),
                  Opened(config, run, ip), Rejection(config, run, ip), Clock(run), now);
  }

  /** Every block ends: once it is over, and more than 60 seconds after the window opened, a
  request is accepted. */
  lemma BlockEnds(config: Config, run: Run<Op>, ip: IpAddr, now: int)
    requires Monotone(run) && Clock(run) <= now && config.maxRequestsPerMinute >= 1
    requires
      var open, rejection := Opened(config, run, ip), Rejection(config, run, ip);
      && (rejection.Some? ==> rejection.value + config.blockSeconds * SECOND <= now)
      && (open.Some? ==> open.value + WINDOW < now)
    ensures Check(config, After(config, run), ip, now).1 == Accepted
  {
    DecisionMatchesHistory(config, run, ip, now);
  }
}
