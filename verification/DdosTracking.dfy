/** What the statistics of connection admission report: which addresses are tracked after a
clean-up, and which are blocked, in terms of the history. */
module DdosTracking {
  import opened Basics
  import opened DdosProtection
  import opened DdosRuns

  /** The last operation of the run decided about `ip`, rather than finding it blocked. */
  predicate Decides(config: Config, run: Run<Op>, ip: IpAddr) {
    && run.Then? && run.op == CheckOp(ip)
    && Check(config, After(config, run.before), ip, run.now).1 != Blocked
  }

  /** The accepted times of `ip` that its last decision left: those that were within the
  window then. */
  function Left(config: Config, run: Run<Op>, ip: IpAddr): seq<int> {
    match run
    case Start(_) => []
    case Then(before, now, _) =>
      var left := Left(config, before, ip);
      if !Decides(config, run, ip) then left
      else Recent(left, now, config.rateWindow) + if Accepts(config, run, ip) then [now] else []
  }

  predicate AnyYounger(times: seq<int>, now: int, age: nat) {
    exists i :: 0 <= i < |times| && Elapsed(now, times[i]) < age
  }

  /** An entry has the times its last decision left, or was removed when all of them were
  two windows old. */
  ghost predicate KeepsLeft(config: Config, info: IpInfo, left: seq<int>, clock: int) {
    info.recent == left || (info.recent == [] && !AnyYounger(left, clock, 2 * config.rateWindow))
  }

  lemma NothingRecentLeft(times: seq<int>, clock: int, now: int, window: nat)
    requires !AnyYounger(times, clock, 2 * window) && clock <= now
    ensures Recent(times, now, window) == []
  {
    forall i | 0 <= i < |times| ensures Elapsed(now, times[i]) >= window {
      assert Elapsed(clock, times[i]) >= 2 * window;
    }
    NothingRecent(times, now, window);
  }

  lemma NotYoungerLater(times: seq<int>, clock: int, now: int, age: nat)
    requires !AnyYounger(times, clock, age) && clock <= now
    ensures !AnyYounger(times, now, age)
  {
    forall i | 0 <= i < |times| ensures Elapsed(now, times[i]) >= age {
      assert Elapsed(clock, times[i]) >= age;
    }
  }

  /** A decision leaves the same times whether or not the entry had been removed. */
  lemma AdmitKeepsLeft(config: Config, info: IpInfo, left: seq<int>, clock: int, now: int)
    requires KeepsLeft(config, info, left, clock) && clock <= now
    ensures
      var (info', verdict) := Admit(config, info, now);
      info'.recent == Recent(left, now, config.rateWindow) + if verdict == Accepted then [now] else []
  {
    if info.recent != left {
      NothingRecentLeft(left, clock, now, config.rateWindow);
    }
  }

  lemma {:induction false} EntryKeepsLeft(config: Config, run: Run<Op>, ip: IpAddr)
    requires Monotone(run)
    ensures KeepsLeft(config, Lookup(After(config, run), ip), Left(config, run, ip), Clock(run))
  {
    match run
    case Start(_) =>
    case Then(before, now, op) =>
      EntryKeepsLeft(config, before, ip);
      var info, left := Lookup(After(config, before), ip), Left(config, before, ip);
      if Decides(config, run, ip) {
        AdmitKeepsLeft(config, info, left, Clock(before), now);
      } else if info.recent != left {
        NotYoungerLater(left, Clock(before), now, 2 * config.rateWindow);
      }
  }

  /** After a clean-up an address is tracked exactly if it has an open connection, its last
  decision left an accepted time less than two windows old, or it is blocked. */
  lemma TrackedExactly(config: Config, run: Run<Op>, ip: IpAddr, now: int)
    requires Monotone(run) && Clock(run) <= now
    ensures
      var rejection := LastRejection(config, run, ip);
      ip in After(config, Then(run, now, CleanupOp)) <==>
        || Open(config, run, ip) > 0
        || AnyYounger(Left(config, run, ip), now, 2 * config.rateWindow)
        || (rejection.Some? && now < rejection.value + config.blockDuration)
  {
    EntryKeepsLeft(config, run, ip);
    ActivePerIp(config, run, ip);
    BlockMatchesHistory(config, run, ip, now);
    var info, left := Lookup(After(config, run), ip), Left(config, run, ip);
    if info.recent != left {
      NotYoungerLater(left, Clock(run), now, 2 * config.rateWindow);
    }
  }

  /** The blocked addresses reported are those whose last limit rejection is less than the
  block duration ago. */
  lemma BlockedIpsMatchHistory(config: Config, run: Run<Op>, now: int, ip: IpAddr)
    requires Monotone(run) && Clock(run) <= now
    ensures
      var rejection := LastRejection(config, run, ip);
      ip in BlockedIps(After(config, run), now) <==>
        rejection.Some? && now < rejection.value + config.blockDuration
  {
    BlockMatchesHistory(config, run, ip, now);
  }
}
