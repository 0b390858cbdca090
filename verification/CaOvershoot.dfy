/** The bounds on interleaved issuance are reached: in one window, and in one hour that
spans two. */
module CaOvershoot {
  import opened Basics
  import opened CaInterleaving
  import opened CaLimiter
  import opened SpacedLogs

  /** Requests `from` + 1 to `upto`, all of one client. */
  function Requests(client: Client, from: nat, upto: nat): (m: map<Request, Client>)
    ensures forall req :: req in m <==> from < req <= upto
    ensures forall req :: req in m ==> m[req] == client
  {
    if upto <= from then map[] else Requests(client, from, upto - 1)[upto := client]
  }

  lemma {:induction false} PendingRequests(client: Client, from: nat, upto: nat)
    requires from <= upto
    ensures |PendingIn(Requests(client, from, upto), client)| == upto - from
  {
    if from < upto {
      PendingRequests(client, from, upto - 1);
      AddPending(Requests(client, from, upto - 1), upto, client, client);
    }
  }

  datatype Case = Case(limit: nat, client: Client, p: nat)

  /** What a run of one client, with at most `p` requests in flight, has led to. */
  datatype Stage = Stage(count: Option<Count>, inFlight: map<Request, Client>, log: seq<int>)

  ghost predicate Reaches(c: Case, run: Run<Op>, stage: Stage, now: int) {
    var s := After(c.limit, run);
    && Monotone(run) && Clock(run) <= now && AtMost(c.limit, run, c.client, c.p)
    && s.limiter.limit == c.limit
    && Find(s, c.client) == stage.count
    && s.inFlight == stage.inFlight
    && RecordTimes(c.limit, run, c.client) == stage.log
  }

  /** The window of the client is over, or there is none yet. */
  predicate IsOver(count: Option<Count>, now: int) {
    count.Some? ==> now - count.value.lastReset >= HOUR
  }

  function Next(count: Option<Count>, now: int): Count {
    if IsOver(count, now) then Count(1, now) else Count(count.value.issued + 1, count.value.lastReset)
  }

  /** Request k + 1 is admitted while requests 1 to k are in flight. */
  lemma AdmitOne(c: Case, run: Run<Op>, stage: Stage, k: nat, now: int) returns (next: Run<Op>)
    requires Reaches(c, run, stage, now) && stage.inFlight == Requests(c.client, 0, k) && k < c.p
    requires IsOver(stage.count, now)
    ensures Reaches(c, next, stage.(inFlight := Requests(c.client, 0, k + 1)), now)
  {
    next := Then(run, now, CheckOp(k + 1, c.client));
    PendingRequests(c.client, 0, k + 1);
  }

  lemma {:induction false} AdmitMany(c: Case, run: Run<Op>, stage: Stage, k: nat, now: int) returns (next: Run<Op>)
    requires Reaches(c, run, stage, now) && stage.inFlight == map[] && k <= c.p && IsOver(stage.count, now)
    ensures Reaches(c, next, stage.(inFlight := Requests(c.client, 0, k)), now)
  {
    if k == 0 {
      next := run;
    } else {
      next := AdmitMany(c, run, stage, k - 1, now);
      next := AdmitOne(c, next, stage.(inFlight := Requests(c.client, 0, k - 1)), k - 1, now);
    }
  }

  /** The first of the requests in flight is recorded. */
  lemma RecordOne(c: Case, run: Run<Op>, stage: Stage, k: nat, now: int) returns (next: Run<Op>)
    requires Reaches(c, run, stage, now) && stage.inFlight == Requests(c.client, k, c.p) && k < c.p
    ensures Reaches(c, next, Stage(Some(Next(stage.count, now)), Requests(c.client, k + 1, c.p),
                                   stage.log + [now]), now)
  {
    next := Then(run, now, RecordOp(k + 1));
    assert Requests(c.client, k, c.p) - {k + 1} == Requests(c.client, k + 1, c.p);
    PendingRequests(c.client, k + 1, c.p);
  }

  /** All of them are recorded in the running window. */
  lemma {:induction false} RecordMany(c: Case, run: Run<Op>, stage: Stage, k: nat, now: int) returns (next: Run<Op>)
    requires Reaches(c, run, stage, now) && stage.inFlight == Requests(c.client, k, c.p) && k <= c.p
    requires !IsOver(stage.count, now)
    ensures
      var count := stage.count.value;
      Reaches(c, next, Stage(Some(Count(count.issued + c.p - k, count.lastReset)), map[],
                             stage.log + Times(now, c.p - k)), now)
    decreases c.p - k
  {
    if k == c.p {
      next := run;
      assert Requests(c.client, k, c.p) == map[];
      NoTimes(stage.log, now);
    } else {
      next := RecordOne(c, run, stage, k, now);
      var recorded := Stage(Some(Next(stage.count, now)), Requests(c.client, k + 1, c.p), stage.log + [now]);
      next := RecordMany(c, next, recorded, k + 1, now);
      OneThenTimes(stage.log, now, c.p - k - 1);
    }
  }

  /** A further request is admitted and recorded while others are in flight. */
  lemma IssueOne(c: Case, run: Run<Op>, stage: Stage, now: int) returns (next: Run<Op>)
    requires Reaches(c, run, stage, now) && stage.inFlight == Requests(c.client, 1, c.p) && c.p >= 1
    requires !IsOver(stage.count, now) && stage.count.value.issued < c.limit
    ensures Reaches(c, next, stage.(count := Some(Next(stage.count, now)), log := stage.log + [now]), now)
  {
    var checked := Then(run, now, CheckOp(0, c.client));
    next := Then(checked, now, RecordOp(0));
    AddPending(stage.inFlight, 0, c.client, c.client);
    PendingRequests(c.client, 1, c.p);
    assert After(c.limit, checked).inFlight == stage.inFlight[0 := c.client];
    assert After(c.limit, next).inFlight == stage.inFlight;
    assert RecordTimes(c.limit, checked, c.client) == stage.log + [];
  }

  lemma {:induction false} IssueMany(c: Case, run: Run<Op>, stage: Stage, n: nat, now: int) returns (next: Run<Op>)
    requires Reaches(c, run, stage, now) && stage.inFlight == Requests(c.client, 1, c.p) && c.p >= 1
    requires !IsOver(stage.count, now) && (n == 0 || stage.count.value.issued + n <= c.limit)
    ensures
      var count := stage.count.value;
      Reaches(c, next, stage.(count := Some(Count(count.issued + n, count.lastReset)),
                              log := stage.log + Times(now, n)), now)
  {
    if n == 0 {
      next := run;
      NoTimes(stage.log, now);
    } else {
      next := IssueMany(c, run, stage, n - 1, now);
      var count := stage.count.value;
      var issued := stage.(count := Some(Count(count.issued + n - 1, count.lastReset)),
                           log := stage.log + Times(now, n - 1));
      next := IssueOne(c, next, issued, now);
      TimesThenOne(stage.log, now, n - 1);
    }
  }

  lemma ReachesLater(c: Case, run: Run<Op>, stage: Stage, now: int, later: int)
    requires Reaches(c, run, stage, now) && now <= later
    ensures Reaches(c, run, stage, later)
  {
  }

  /** `p` requests are admitted and the first is recorded, which opens a window. */
  lemma OpenWindow(c: Case, run: Run<Op>, stage: Stage, now: int) returns (next: Run<Op>)
    requires c.p >= 1 && Reaches(c, run, stage, now) && stage.inFlight == map[] && IsOver(stage.count, now)
    ensures Reaches(c, next, Stage(Some(Count(1, now)), Requests(c.client, 1, c.p), stage.log + [now]), now)
  {
    next := AdmitMany(c, run, stage, c.p, now);
    next := RecordOne(c, next, stage.(inFlight := Requests(c.client, 0, c.p)), 0, now);
  }

  /** Further requests are issued up to the limit, and the rest recorded on top. */
  lemma FillWindow(c: Case, run: Run<Op>, stage: Stage, opens: int, now: int) returns (next: Run<Op>)
    requires c.p >= 1 && Reaches(c, run, stage, now) && opens <= now < opens + HOUR
    requires stage.count == Some(Count(1, opens)) && stage.inFlight == Requests(c.client, 1, c.p)
    ensures
      var cap := WindowCap(c.limit, c.p);
      Reaches(c, next, Stage(Some(Count(cap, opens)), map[], stage.log + Times(now, cap - 1)), now)
  {
    var more := if c.limit == 0 then 0 else c.limit - 1;
    next := IssueMany(c, run, stage, more, now);
    var issued := stage.(count := Some(Count(1 + more, opens)), log := stage.log + Times(now, more));
    next := RecordMany(c, next, issued, 1, now);
    TimesThenTimes(stage.log, now, more, c.p - 1);
  }

  /** A window that opens at `opens` and is filled beyond the limit at `fills`. */
  lemma FullWindow(c: Case, run: Run<Op>, stage: Stage, opens: int, fills: int) returns (next: Run<Op>)
    requires c.p >= 1 && Reaches(c, run, stage, opens) && stage.inFlight == map[] && IsOver(stage.count, opens)
    requires opens <= fills < opens + HOUR
    ensures
      var cap := WindowCap(c.limit, c.p);
      Reaches(c, next, Stage(Some(Count(cap, opens)), map[], stage.log + [opens] + Times(fills, cap - 1)), fills)
  {
    var begun := Stage(Some(Count(1, opens)), Requests(c.client, 1, c.p), stage.log + [opens]);
    next := OpenWindow(c, run, stage, opens);
    ReachesLater(c, next, begun, opens, fills);
    next := FillWindow(c, next, begun, opens, fills);
  }

  lemma StartReaches(c: Case)
    ensures Reaches(c, Start(0), Stage(None, map[], []), 0)
  {
    assert Pending(After(c.limit, Start(0)), c.client) == {};
  }

  /** For every limit and every `p` some run with at most `p` requests in flight
  records exactly max(limit, 1) + p - 1 certificates in one window. */
  lemma OvershootIsReached(limit: nat, client: Client, p: nat) returns (run: Run<Op>)
    requires p >= 1
    ensures Monotone(run) && AtMost(limit, run, client, p)
    ensures client in After(limit, run).limiter.counts
    ensures After(limit, run).limiter.counts[client].issued == WindowCap(limit, p)
  {
    var c := Case(limit, client, p);
    StartReaches(c);
    run := FullWindow(c, Start(0), Stage(None, map[], []), 0, 0);
  }

  /** And some run records twice that, less one, within one hour. */
  lemma HourlyBoundIsReached(limit: nat, client: Client, p: nat) returns (run: Run<Op>, lo: int)
    requires p >= 1
    ensures Monotone(run) && AtMost(limit, run, client, p)
    ensures |Within(RecordTimes(limit, run, client), lo, HOUR)| == 2 * WindowCap(limit, p) - 1
  {
    var c, cap := Case(limit, client, p), WindowCap(limit, p);
    StartReaches(c);
    lo := 1;
    run := FullWindow(c, Start(0), Stage(None, map[], []), 0, HOUR - 1);
    var first := Stage(Some(Count(cap, 0)), map[], [] + [0] + Times(HOUR - 1, cap - 1));
    ReachesLater(c, run, first, HOUR - 1, HOUR);
    run := FullWindow(c, run, first, HOUR, HOUR);
    assert first.log + [HOUR] + Times(HOUR, cap - 1) == TwoWindows(cap, HOUR);
    TwoWindowsCount(cap, HOUR);
  }
}
