/** Port allocation under interleaving: many scans, each probe a step of its own,
leases that expire, and owners that release their ports. */
module PortLeases {
  import opened Basics
  import opened Redis
  import opened PortAllocator

  type Pid = nat

  /** One allocation, from its first probe to its release. */
  datatype Process =
    | Scanning(owner: Owner, ttl: nat, start: int, attempts: nat)
    | Holding(port: int, from: int, until: int)
    | Failed
    | Released

  datatype State = State(ports: Keys<int, Owner>, procs: map<Pid, Process>)

  datatype Op =
    | BeginOp(pid: Pid, owner: Owner, ttl: nat, start: int)
    | ProbeOp(pid: Pid)
    | ReleaseOp(pid: Pid)

  function Probe(s: State, pid: Pid, now: int): State
    requires pid in s.procs && s.procs[pid].Scanning?
  {
    var p := s.procs[pid];
    var port := Nth(p.start, p.attempts);
    if p.ttl == 0 then s.(procs := s.procs[pid := Failed])
    else if !Live(s.ports, port, now) then
      State(SetNxEx(s.ports, port, p.owner, now, p.ttl),
            s.procs[pid := Holding(port, now, now + p.ttl * SECOND)])
    else
      s.(procs := s.procs[pid := if p.attempts + 1 < MAX_ATTEMPTS then p.(attempts := p.attempts + 1) else Failed])
  }

  function Release(s: State, pid: Pid): State
    requires pid in s.procs && s.procs[pid].Holding?
  {
    State(Del(s.ports, s.procs[pid].port), s.procs[pid := Released])
  }

  /** Operations that do not apply to the process have no effect. */
  function Step(s: State, now: int, op: Op): State {
    match op
    case BeginOp(pid, owner, ttl, start) =>
      if pid in s.procs || !(FIRST <= start < LAST) then s
      else s.(procs := s.procs[pid := Scanning(owner, ttl, start, 0)])
    case ProbeOp(pid) =>
      if pid in s.procs && s.procs[pid].Scanning? then Probe(s, pid, now) else s
    case ReleaseOp(pid) =>
      if pid in s.procs && s.procs[pid].Holding? then Release(s, pid) else s
  }

  function After(run: Run<Op>): State {
    match run
    case Start(_) => State(map[], map[])
    case Then(before, now, op) => Step(After(before), now, op)
  }

  predicate Holds(s: State, pid: Pid) {
    pid in s.procs && s.procs[pid].Holding?
  }

  // ---- Exclusivity ---------------------------------------------------------------

  /** The leases of two unreleased allocations have a moment in common. */
  predicate Overlap(a: Process, b: Process)
    requires a.Holding? && b.Holding?
  {
    a.from < b.until && b.from < a.until
  }

  ghost predicate Exclusive(s: State) {
    forall p, q :: p != q && Holds(s, p) && Holds(s, q) && Overlap(s.procs[p], s.procs[q]) ==>
      s.procs[p].port != s.procs[q].port
  }

  /** Current leases are backed by their Redis key; scans stay within bounds. */
  ghost predicate Backed(s: State, clock: int) {
    forall pid :: pid in s.procs ==>
      match s.procs[pid]
      case Scanning(_, _, start, attempts) => InRange(start) && attempts < MAX_ATTEMPTS
      case Holding(port, from, until) =>
        && InRange(port) && from <= clock && from < until
        && (clock < until ==> port in s.ports && s.ports[port].deadline == until)
      case _ => true
  }

  ghost predicate Sound(s: State, clock: int) {
    Exclusive(s) && Backed(s, clock)
  }

  lemma ProbeKeepsExclusive(s: State, pid: Pid, now: int)
    requires Sound(s, now) && pid in s.procs && s.procs[pid].Scanning?
    ensures Exclusive(Probe(s, pid, now))
  {
    var s' := Probe(s, pid, now);
    forall q | q != pid && Holds(s', q) && Holds(s', pid) && s'.procs[q].port == s'.procs[pid].port
      ensures !Overlap(s'.procs[pid], s'.procs[q])
    {
      assert s.procs[q] == s'.procs[q];
    }
  }

  lemma ProbeKeepsBacked(s: State, pid: Pid, now: int)
    requires Backed(s, now) && pid in s.procs && s.procs[pid].Scanning?
    ensures Backed(Probe(s, pid, now), now)
  {
    NthInRange(s.procs[pid].start, s.procs[pid].attempts);
  }

  /** Nobody else currently leases the port that `pid` is about to release. */
  ghost predicate Harmless(s: State, pid: Pid, now: int)
    requires Holds(s, pid)
  {
    forall q :: q != pid && Holds(s, q) && s.procs[q].port == s.procs[pid].port ==> s.procs[q].until <= now
  }

  lemma HarmlessReleaseKeepsSound(s: State, pid: Pid, now: int)
    requires Sound(s, now) && Holds(s, pid) && Harmless(s, pid, now)
    ensures Sound(Release(s, pid), now)
  {
  }

  /** An owner that releases before its lease ends disturbs nobody. */
  lemma TimelyIsHarmless(s: State, pid: Pid, now: int)
    requires Sound(s, now) && Holds(s, pid) && now < s.procs[pid].until
    ensures Harmless(s, pid, now)
  {
    forall q | q != pid && Holds(s, q) && s.procs[q].port == s.procs[pid].port
      ensures s.procs[q].until <= now
    {
      assert !Overlap(s.procs[pid], s.procs[q]);
    }
  }

  ghost predicate HarmlessReleases(run: Run<Op>) {
    run.Then? ==>
      && HarmlessReleases(run.before)
      && (run.op.ReleaseOp? && Holds(After(run.before), run.op.pid) ==>
            Harmless(After(run.before), run.op.pid, run.now))
  }

  lemma {:induction false} RunStaysSound(run: Run<Op>)
    requires Monotone(run) && HarmlessReleases(run)
    ensures Sound(After(run), Clock(run))
  {
    if run.Then? {
      RunStaysSound(run.before);
      var s := After(run.before);
      match run.op
      case BeginOp(_, _, _, _) =>
      case ProbeOp(pid) =>
        if pid in s.procs && s.procs[pid].Scanning? {
          ProbeKeepsExclusive(s, pid, run.now);
          ProbeKeepsBacked(s, pid, run.now);
        }
      case ReleaseOp(pid) =>
        if Holds(s, pid) {
          HarmlessReleaseKeepsSound(s, pid, run.now);
        }
    }
  }

  /** Every release of the run happens while the lease is running. */
  predicate TimelyReleases(run: Run<Op>) {
    run.Then? ==>
      && TimelyReleases(run.before)
      && (run.op.ReleaseOp? && Holds(After(run.before), run.op.pid) ==>
            run.now < After(run.before).procs[run.op.pid].until)
  }

  lemma {:induction false} TimelyReleasesAreHarmless(run: Run<Op>)
    requires Monotone(run) && TimelyReleases(run)
    ensures HarmlessReleases(run)
  {
    if run.Then? {
      TimelyReleasesAreHarmless(run.before);
      RunStaysSound(run.before);
      if run.op.ReleaseOp? && Holds(After(run.before), run.op.pid) {
        TimelyIsHarmless(After(run.before), run.op.pid, run.now);
      }
    }
  }

  /** In every interleaving of probes, expiries and timely releases, unreleased
  allocations whose leases overlap hold different ports, all within the range. */
  lemma PortsAreExclusive(run: Run<Op>, p: Pid, q: Pid)
    requires Monotone(run) && TimelyReleases(run)
    requires p != q && Holds(After(run), p) && Holds(After(run), q)
    ensures InRange(After(run).procs[p].port)
    ensures Overlap(After(run).procs[p], After(run).procs[q]) ==>
              After(run).procs[p].port != After(run).procs[q].port
  {
    TimelyReleasesAreHarmless(run);
    RunStaysSound(run);
  }

  // ---- Exactly when a release is safe ----------------------------------------------

  /** `later` continues `run` without any release. */
  predicate Extends(later: Run<Op>, run: Run<Op>) {
    later == run || (later.Then? && !later.op.ReleaseOp? && Extends(later.before, run))
  }

  /** Whatever allocations follow, overlapping leases keep to different ports. */
  ghost predicate StaysExclusive(run: Run<Op>) {
    forall later :: Monotone(later) && Extends(later, run) ==> Exclusive(After(later))
  }

  lemma {:induction false} ExtensionIsHarmless(later: Run<Op>, run: Run<Op>)
    requires HarmlessReleases(run) && Extends(later, run)
    ensures HarmlessReleases(later)
  {
    if later != run {
      ExtensionIsHarmless(later.before, run);
    }
  }

  lemma {:induction false} UnusedPid(pids: set<Pid>) returns (bound: Pid)
    ensures forall pid :: pid in pids ==> pid < bound
  {
    if pids == {} {
      bound := 0;
    } else {
      var pid :| pid in pids;
      var rest := UnusedPid(pids - {pid});
      bound := if rest > pid then rest else pid + 1;
      forall other | other in pids ensures other < bound {
        assert other == pid || other in pids - {pid};
      }
    }
  }

  /** The lease of `pid` is running. */
  predicate Leases(s: State, pid: Pid, now: int) {
    Holds(s, pid) && s.procs[pid].from <= now < s.procs[pid].until
  }

  /** A scan that reaches a leased port whose key is gone is granted a second lease. */
  lemma GrantedTwice(s: State, holder: Pid, prober: Pid, now: int)
    requires Leases(s, holder, now) && !Live(s.ports, s.procs[holder].port, now)
    requires prober in s.procs && s.procs[prober].Scanning? && s.procs[prober].ttl >= 1
    requires Nth(s.procs[prober].start, s.procs[prober].attempts) == s.procs[holder].port
    ensures !Exclusive(Step(s, now, ProbeOp(prober)))
  {
    var s' := Step(s, now, ProbeOp(prober));
    assert Holds(s', prober) && Holds(s', holder) && Overlap(s'.procs[prober], s'.procs[holder]);
  }

  /** Any port but the last can be where a new scan begins. */
  lemma TakenBelowLast(run: Run<Op>, holder: Pid, f: Pid) returns (later: Run<Op>)
    requires
      var s, now := After(run), Clock(run);
      && Monotone(run) && Leases(s, holder, now) && f !in s.procs
      && FIRST <= s.procs[holder].port < LAST && !Live(s.ports, s.procs[holder].port, now)
    ensures Monotone(later) && Extends(later, run) && !Exclusive(After(later))
  {
    var now := Clock(run);
    var begun := Then(run, now, BeginOp(f, "next", 1, After(run).procs[holder].port));
    assert Extends(begun, run);
    later := Then(begun, now, ProbeOp(f));
    GrantedTwice(After(begun), holder, f, now);
  }

  /** A new scan that begins below the last port leaves that port occupied. */
  lemma Occupy(run: Run<Op>, f: Pid) returns (later: Run<Op>)
    requires Monotone(run) && f !in After(run).procs
    ensures Monotone(later) && Extends(later, run) && Clock(later) == Clock(run)
    ensures Live(After(later).ports, LAST - 1, Clock(run))
    ensures Live(After(later).ports, LAST, Clock(run)) <==> Live(After(run).ports, LAST, Clock(run))
    ensures forall pid :: pid != f ==>
              && (pid in After(later).procs <==> pid in After(run).procs)
              && (pid in After(run).procs ==> After(later).procs[pid] == After(run).procs[pid])
  {
    var now := Clock(run);
    var begun := Then(run, now, BeginOp(f, "next", 1, LAST - 1));
    later := Then(begun, now, ProbeOp(f));
    assert After(begun).procs[f] == Scanning("next", 1, LAST - 1, 0);
  }

  /** The last port is reached by a scan that finds the one below it occupied. */
  lemma TakenLast(run: Run<Op>, holder: Pid, f: Pid) returns (later: Run<Op>)
    requires
      var s, now := After(run), Clock(run);
      && Monotone(run) && Leases(s, holder, now) && f !in s.procs && Live(s.ports, LAST - 1, now)
      && s.procs[holder].port == LAST && !Live(s.ports, LAST, now)
    ensures Monotone(later) && Extends(later, run) && !Exclusive(After(later))
  {
    var now := Clock(run);
    var begun := Then(run, now, BeginOp(f, "next", 1, LAST - 1));
    assert After(begun).procs[f] == Scanning("next", 1, LAST - 1, 0);
    var advanced := Then(begun, now, ProbeOp(f));
    assert After(advanced).procs[f] == Scanning("next", 1, LAST - 1, 1);
    assert Extends(begun, run) && Extends(advanced, run);
    assert Nth(LAST - 1, 1) == LAST;
    later := Then(advanced, now, ProbeOp(f));
    GrantedTwice(After(advanced), holder, f, now);
  }

  lemma {:induction false} ExtendsTransitive(later: Run<Op>, middle: Run<Op>, run: Run<Op>)
    requires Extends(later, middle) && Extends(middle, run)
    ensures Extends(later, run)
  {
    if later != middle {
      ExtendsTransitive(later.before, middle, run);
    }
  }

  lemma TakenAgain(run: Run<Op>, holder: Pid) returns (later: Run<Op>)
    requires
      var s, now := After(run), Clock(run);
      && Monotone(run) && Leases(s, holder, now)
      && InRange(s.procs[holder].port) && !Live(s.ports, s.procs[holder].port, now)
    ensures Monotone(later) && Extends(later, run) && !Exclusive(After(later))
  {
    var f := UnusedPid(After(run).procs.Keys);
    if After(run).procs[holder].port < LAST {
      later := TakenBelowLast(run, holder, f);
    } else {
      var occupied := Occupy(run, f);
      later := TakenLast(occupied, holder, f + 1);
      ExtendsTransitive(later, occupied, run);
    }
  }

  /** After a release all further allocations stay exclusive exactly when nobody else
  was leasing the port at that moment. */
  lemma ReleaseIsSafeExactly(run: Run<Op>, pid: Pid, now: int)
    requires Monotone(run) && HarmlessReleases(run) && Clock(run) <= now && Holds(After(run), pid)
    ensures StaysExclusive(Then(run, now, ReleaseOp(pid))) <==> Harmless(After(run), pid, now)
  {
    var s, released := After(run), Then(run, now, ReleaseOp(pid));
    RunStaysSound(run);
    if Harmless(s, pid, now) {
      forall later | Monotone(later) && Extends(later, released) ensures Exclusive(After(later)) {
        ExtensionIsHarmless(later, released);
        RunStaysSound(later);
      }
    } else {
      var holder :| holder != pid && Holds(s, holder) && s.procs[holder].port == s.procs[pid].port
                    && now < s.procs[holder].until;
      var later := TakenAgain(released, holder);
    }
  }

  /** An owner that outlives its lease and then releases it breaks exclusivity. */
  lemma LateReleaseBreaksExclusivity() returns (run: Run<Op>)
    ensures Monotone(run) && !Exclusive(After(run))
  {
    var first := Then(Then(Start(0), 0, BeginOp(0, "late", 1, FIRST)), 0, ProbeOp(0));
    assert After(first).procs == map[0 := Holding(FIRST, 0, SECOND)];
    var second := Then(Then(first, SECOND, BeginOp(1, "next", 1, FIRST)), SECOND, ProbeOp(1));
    assert After(second).procs[1] == Holding(FIRST, SECOND, 2 * SECOND);
    ReleaseIsSafeExactly(second, 0, SECOND);
    assert !Harmless(After(second), 0, SECOND) by {
      assert Holds(After(second), 1);
    }
    run :| Monotone(run) && Extends(run, Then(second, SECOND, ReleaseOp(0))) && !Exclusive(After(run));
  }

  // ---- Progress ----------------------------------------------------------------

  /** The ports that were taken at some step since process `pid` began. */
  ghost function TakenDuring(run: Run<Op>, pid: Pid): set<int> {
    match run
    case Start(_) => {}
    case Then(before, now, _) =>
      if pid !in After(before).procs then {}
      else TakenDuring(before, pid) + LivePorts(After(before).ports, now)
  }

  /** Every port a scan has probed in vain was taken at some step of the scan. */
  lemma {:induction false} ProbedWereTaken(run: Run<Op>, pid: Pid, j: nat)
    requires pid in After(run).procs && After(run).procs[pid].Scanning? && j < After(run).procs[pid].attempts
    ensures Nth(After(run).procs[pid].start, j) in TakenDuring(run, pid)
  {
    var s, p := After(run.before), After(run).procs[pid];
    if pid in s.procs && s.procs[pid].Scanning? && j < s.procs[pid].attempts {
      ProbedWereTaken(run.before, pid, j);
    } else {
      assert run.op == ProbeOp(pid) && Live(s.ports, Nth(p.start, j), run.now);
    }
  }

  /** The last step of the run gave up the scan of `pid` for want of a free port. */
  predicate GivesUp(run: Run<Op>, pid: Pid) {
    && run.Then? && run.op == ProbeOp(pid)
    && pid in After(run.before).procs && After(run.before).procs[pid].Scanning?
    && After(run.before).procs[pid].ttl >= 1
    && After(run).procs[pid] == Failed
  }

  /** How many ports process `pid` has probed. */
  function Probes(run: Run<Op>, pid: Pid): nat {
    if run.Start? then 0
    else
      var procs := After(run.before).procs;
      Probes(run.before, pid) + if run.op == ProbeOp(pid) && pid in procs && procs[pid].Scanning? then 1 else 0
  }

  /** Every scan ends after at most 1000 probes, and starts within the range. */
  lemma {:induction false} ScanEnds(run: Run<Op>, pid: Pid)
    ensures Probes(run, pid) <= MAX_ATTEMPTS
    ensures pid !in After(run).procs ==> Probes(run, pid) == 0
    ensures pid in After(run).procs && After(run).procs[pid].Scanning? ==>
              Probes(run, pid) == After(run).procs[pid].attempts < MAX_ATTEMPTS && InRange(After(run).procs[pid].start)
  {
    if run.Then? {
      ScanEnds(run.before, pid);
    }
  }

  /** A scan fails only if at least 1000 different ports were taken while it ran. */
  lemma FailureMeansThousandTaken(run: Run<Op>, pid: Pid)
    requires GivesUp(run, pid)
    ensures |TakenDuring(run, pid)| >= MAX_ATTEMPTS
  {
    var s := After(run.before);
    var p := s.procs[pid];
    ScanEnds(run.before, pid);
    forall j: nat | j < MAX_ATTEMPTS ensures Nth(p.start, j) in TakenDuring(run, pid) {
      if j < p.attempts {
        ProbedWereTaken(run.before, pid, j);
      } else {
        assert Live(s.ports, Nth(p.start, j), run.now);
      }
    }
    Pigeonhole(p.start, TakenDuring(run, pid));
  }
}
