/** Exactly how many ports, taken over the whole of a scan, can make it fail: a thousand,
even if only one is taken at a time. */
module PortStarvation {
  import opened Basics
  import opened PortAllocator
  import opened PortLeases
  import opened Redis

  /** At no step of the run was more than one port taken. */
  ghost predicate OneAtATime(run: Run<Op>) {
    && |LivePorts(After(run).ports, Clock(run))| <= 1
    && (run.Then? ==> OneAtATime(run.before))
  }

  /** A run of instantaneous steps to state `s`, and the ports taken since process 0 began. */
  ghost predicate Reaches(run: Run<Op>, s: State, taken: set<int>) {
    && Monotone(run) && Clock(run) == 0 && TimelyReleases(run) && OneAtATime(run)
    && After(run) == s && 0 in s.procs
    && TakenDuring(run, 0) <= taken
  }

  lemma ReachesNext(run: Run<Op>, s: State, taken: set<int>, op: Op, s': State, port: int)
    requires Reaches(run, s, taken) && port in taken
    requires s' == Step(s, 0, op) && 0 in s'.procs && s.ports.Keys <= {port} && s'.ports.Keys <= {port}
    requires op.ReleaseOp? && Holds(s, op.pid) ==> 0 < s.procs[op.pid].until
    ensures Reaches(Then(run, 0, op), s', taken)
  {
    assert LivePorts(s.ports, 0) <= {port};
    SubsetSize(LivePorts(s'.ports, 0), {port});
  }

  /** The port that attempt `n` of process 0 is about to probe. */
  function Target(n: nat): int
    requires n >= 1
  {
    FIRST + n - 1
  }

  function Scanner(n: nat): Process {
    if n < MAX_ATTEMPTS then Scanning("scan", 1, FIRST, n) else Failed
  }

  /** Process 0 has probed in vain `n` times, and process `n` still has the last port. */
  function Obstructing(procs: map<Pid, Process>, n: nat): State
    requires n >= 1
  {
    State(map[Target(n) := Stored("other", SECOND)], procs[n := Holding(Target(n), 0, SECOND)][0 := Scanner(n)])
  }

  /** Someone else takes just the port that process 0 is about to try. */
  lemma TakeTarget(run: Run<Op>, procs: map<Pid, Process>, n: nat, taken: set<int>) returns (next: Run<Op>)
    requires 1 <= n <= MAX_ATTEMPTS && Reaches(run, State(map[], procs), taken)
    requires n !in procs && Target(n) in taken
    ensures Reaches(next, State(map[Target(n) := Stored("other", SECOND)],
                                procs[n := Holding(Target(n), 0, SECOND)]), taken)
  {
    var port := Target(n);
    var begun := State(map[], procs[n := Scanning("other", 1, port, 0)]);
    ReachesNext(run, State(map[], procs), taken, BeginOp(n, "other", 1, port), begun, port);
    next := Then(Then(run, 0, BeginOp(n, "other", 1, port)), 0, ProbeOp(n));
    assert Nth(port, 0) == port;
    var holds := State(map[port := Stored("other", SECOND)], procs[n := Holding(port, 0, SECOND)]);
    assert Step(begun, 0, ProbeOp(n)) == holds;
    ReachesNext(next.before, begun, taken, ProbeOp(n), holds, port);
  }

  lemma TargetIsTaken(procs: map<Pid, Process>, n: nat)
    requires 1 <= n <= MAX_ATTEMPTS && 0 in procs && procs[0] == Scanner(n - 1)
    ensures
      var s := State(map[Target(n) := Stored("other", SECOND)], procs[n := Holding(Target(n), 0, SECOND)]);
      Step(s, 0, ProbeOp(0)) == Obstructing(procs, n)
  {
    NthWraps(FIRST, n - 1);
    assert procs[n := Holding(Target(n), 0, SECOND)][0] == Scanning("scan", 1, FIRST, n - 1);
  }

  /** Then process 0 probes in vain. */
  lemma ProbeTarget(run: Run<Op>, procs: map<Pid, Process>, n: nat, taken: set<int>) returns (next: Run<Op>)
    requires 1 <= n <= MAX_ATTEMPTS && Reaches(run, State(map[], procs), taken)
    requires n !in procs && Target(n) in taken && procs[0] == Scanner(n - 1)
    ensures Reaches(next, Obstructing(procs, n), taken)
    ensures n == MAX_ATTEMPTS ==> GivesUp(next, 0)
  {
    var port := Target(n);
    var s := State(map[port := Stored("other", SECOND)], procs[n := Holding(port, 0, SECOND)]);
    next := TakeTarget(run, procs, n, taken);
    TargetIsTaken(procs, n);
    ReachesNext(next, s, taken, ProbeOp(0), Obstructing(procs, n), port);
    next := Then(next, 0, ProbeOp(0));
  }

  /** And the other process gives the port back. */
  lemma GiveBack(run: Run<Op>, procs: map<Pid, Process>, n: nat, taken: set<int>) returns (next: Run<Op>)
    requires 1 <= n <= MAX_ATTEMPTS && Reaches(run, Obstructing(procs, n), taken) && Target(n) in taken
    ensures Reaches(next, State(map[], procs[n := Released][0 := Scanner(n)]), taken)
  {
    var s, s' := Obstructing(procs, n), State(map[], procs[n := Released][0 := Scanner(n)]);
    assert s.ports - {Target(n)} == map[];
    assert s.procs[n := Released] == s'.procs;
    assert Step(s, 0, ReleaseOp(n)) == s';
    next := Then(run, 0, ReleaseOp(n));
    ReachesNext(run, s, taken, ReleaseOp(n), s', Target(n));
  }

  lemma ReachesMore(run: Run<Op>, s: State, taken: set<int>, more: set<int>)
    requires Reaches(run, s, taken) && taken <= more
    ensures Reaches(run, s, more)
  {
  }

  lemma Begin() returns (run: Run<Op>)
    ensures Reaches(run, State(map[], map[0 := Scanner(0)]), {})
  {
    run := Then(Start(0), 0, BeginOp(0, "scan", 1, FIRST));
    assert LivePorts(map[], 0) == {};
  }

  lemma ObstructOnce(run: Run<Op>, procs: map<Pid, Process>, n: nat) returns (next: Run<Op>)
    requires 1 <= n <= MAX_ATTEMPTS && Reaches(run, State(map[], procs), Probed(FIRST, n - 1))
    requires n !in procs && procs[0] == Scanner(n - 1)
    ensures Reaches(next, State(map[], procs[n := Released][0 := Scanner(n)]), Probed(FIRST, n))
  {
    NthWraps(FIRST, n - 1);
    ReachesMore(run, State(map[], procs), Probed(FIRST, n - 1), Probed(FIRST, n));
    next := ProbeTarget(run, procs, n, Probed(FIRST, n));
    next := GiveBack(next, procs, n, Probed(FIRST, n));
  }

  /** Before each of the first `n` probes of process 0 someone else takes the port, and
  gives it back right after. */
  lemma {:induction false} Obstruct(n: nat) returns (run: Run<Op>, procs: map<Pid, Process>)
    requires n <= MAX_ATTEMPTS
    ensures Reaches(run, State(map[], procs), Probed(FIRST, n))
    ensures 0 in procs && procs[0] == Scanner(n) && forall pid: Pid :: pid in procs ==> pid <= n
  {
    if n == 0 {
      run := Begin();
      procs := map[0 := Scanner(0)];
    } else {
      run, procs := Obstruct(n - 1);
      run := ObstructOnce(run, procs, n);
      procs := procs[n := Released][0 := Scanner(n)];
    }
  }

  /** It is the ports taken over the whole scan that count: a scan can fail although no
  more than one port is ever taken at a time, and no more than 1000 altogether. */
  lemma OnePortCanStarve() returns (run: Run<Op>)
    ensures Monotone(run) && TimelyReleases(run) && OneAtATime(run)
    ensures GivesUp(run, 0) && |TakenDuring(run, 0)| <= MAX_ATTEMPTS
  {
    var procs;
    run, procs := Obstruct(MAX_ATTEMPTS - 1);
    NthWraps(FIRST, MAX_ATTEMPTS - 1);
    ReachesMore(run, State(map[], procs), Probed(FIRST, MAX_ATTEMPTS - 1), Probed(FIRST, MAX_ATTEMPTS));
    run := ProbeTarget(run, procs, MAX_ATTEMPTS, Probed(FIRST, MAX_ATTEMPTS));
    ProbedSize(FIRST, MAX_ATTEMPTS);
    SubsetSize(TakenDuring(run, 0), Probed(FIRST, MAX_ATTEMPTS));
  }

  /** No scan during which at most `n` different ports are taken fails. */
  ghost predicate ScansSucceed(n: nat) {
    forall run: Run<Op>, pid: Pid :: Monotone(run) && |TakenDuring(run, pid)| <= n ==> !GivesUp(run, pid)
  }

  /** That is so exactly for fewer than 1000 ports. */
  lemma ScansSucceedExactly(n: nat)
    ensures ScansSucceed(n) <==> n < MAX_ATTEMPTS
  {
    if n < MAX_ATTEMPTS {
      forall run: Run<Op>, pid: Pid | Monotone(run) && |TakenDuring(run, pid)| <= n ensures !GivesUp(run, pid) {
        if GivesUp(run, pid) {
          FailureMeansThousandTaken(run, pid);
        }
      }
    } else {
      var run := OnePortCanStarve();
    }
  }
}
