/** Requests to the certificate authority, interleaved.

A request takes the limiter's lock twice: once to be checked and, after the
certificate was generated, once to be recorded. Other requests may run in
between, so the limit can be overshot; this module proves by exactly how much.
*/
module CaInterleaving {
  import opened Basics
  import opened SpacedLogs
  import opened CaLimiter

  type Request = nat

  /** The limiter and the requests that were admitted and have not finished. */
  datatype State = State(limiter: Limiter, inFlight: map<Request, Client>)

  datatype Op =
    | CheckOp(req: Request, client: Client)  // a new request asks to be admitted
    | RecordOp(req: Request)                 // an admitted request records its certificate
    | AbandonOp(req: Request)                // an admitted request fails before recording

  function Step(s: State, now: int, op: Op): State {
    match op
    case CheckOp(req, client) =>
      if req in s.inFlight || IsLimited(s.limiter, client, now) then s
      else s.(inFlight := s.inFlight[req := client])
    case RecordOp(req) =>
      if req !in s.inFlight then s
      else State(Record(s.limiter, s.inFlight[req], now), s.inFlight - {req})
    case AbandonOp(req) => s.(inFlight := s.inFlight - {req})
  }

  function After(limit: nat, run: Run<Op>): State {
    match run
    case Start(_) => State(Limiter(limit, map[], 0), map[])
    case Then(before, now, op) => Step(After(limit, before), now, op)
  }

  /** The admitted, unfinished requests of one client. */
  ghost function Pending(s: State, client: Client): set<Request> {
    PendingIn(s.inFlight, client)
  }

  ghost function PendingIn(inFlight: map<Request, Client>, client: Client): set<Request> {
    set req | req in inFlight && inFlight[req] == client
  }

  /** At no point of the run does `client` have more than `p` requests in flight. */
  ghost predicate AtMost(limit: nat, run: Run<Op>, client: Client, p: nat) {
    && |Pending(After(limit, run), client)| <= p
    && (run.Then? ==> AtMost(limit, run.before, client, p))
  }

  predicate Records(limit: nat, run: Run<Op>, client: Client) {
    && run.Then? && run.op.RecordOp?
    && run.op.req in After(limit, run.before).inFlight
    && After(limit, run.before).inFlight[run.op.req] == client
  }

  /** When certificates of `client` were recorded, oldest first. */
  function RecordTimes(limit: nat, run: Run<Op>, client: Client): seq<int> {
    match run
    case Start(_) => []
    case Then(before, now, _) =>
      RecordTimes(limit, before, client) + if Records(limit, run, client) then [now] else []
  }

  /** The most certificates one hourly window can record. A limit of zero still
  lets the first request of a client through. */
  function WindowCap(limit: nat, p: nat): nat
    requires p >= 1
  {
    (if limit == 0 then 1 else limit) + p - 1
  }

  /** What the limiter knows about one client, its log and its pending requests. */
  ghost predicate Bounded(limit: nat, count: Option<Count>, pending: nat, log: seq<int>, p: nat, clock: int)
    requires p >= 1
  {
    var cap := WindowCap(limit, p);
    && pending <= p
    && Ordered(log)
    && (forall i :: 0 <= i < |log| ==> log[i] <= clock)
    && Spaced(log, 2 * cap - 1, HOUR)
    && match count
       case None => log == []
       case Some(c) =>
         && Tracks(log, Window(c.issued, c.lastReset), cap, HOUR)
         && (clock < c.lastReset + HOUR ==> c.issued + pending <= cap)
  }

  function Find(s: State, client: Client): Option<Count> {
    if client in s.limiter.counts then Some(s.limiter.counts[client]) else None
  }

  /** Recording one pending request keeps the bound. */
  lemma RecordKeepsBound(l: Limiter, client: Client, count: Option<Count>, pending: nat, log: seq<int>,
                         p: nat, clock: int, now: int)
    requires p >= 1 && clock <= now && pending >= 1
    requires count == if client in l.counts then Some(l.counts[client]) else None
    requires Bounded(l.limit, count, pending, log, p, clock)
    ensures Bounded(l.limit, Some(NextCount(l, client, now)), pending - 1, log + [now], p, now)
  {
    var cap := WindowCap(l.limit, p);
    match count
    case None =>
      OpenWindow(log, cap, HOUR, now);
    case Some(c) =>
      var w := Window(c.issued, c.lastReset);
      if now - c.lastReset >= HOUR {
        WindowRunsOut(log, w, cap, HOUR, now);
        OpenWindow(log, cap, HOUR, now);
      } else {
        ExtendWindow(log, w, cap, HOUR, now);
      }
  }

  lemma AddPending(m: map<Request, Client>, req: Request, c: Client, client: Client)
    requires req !in m
    ensures |PendingIn(m[req := c], client)| == |PendingIn(m, client)| + if c == client then 1 else 0
  {
    if c == client {
      assert PendingIn(m[req := c], client) == PendingIn(m, client) + {req};
    } else {
      assert PendingIn(m[req := c], client) == PendingIn(m, client);
    }
  }

  lemma DropPending(m: map<Request, Client>, req: Request, client: Client)
    ensures |PendingIn(m - {req}, client)| ==
            |PendingIn(m, client)| - if req in m && m[req] == client then 1 else 0
  {
    if req in m {
      assert (m - {req})[req := m[req]] == m;
      AddPending(m - {req}, req, m[req], client);
    } else {
      assert m - {req} == m;
    }
  }

  /** How an operation changes the number of pending requests of a client. */
  lemma PendingStep(s: State, now: int, op: Op, client: Client)
    ensures
      var s' := Step(s, now, op);
      match op
      case CheckOp(req, c) =>
        |Pending(s', client)| == |Pending(s, client)| + if c == client && s' != s then 1 else 0
      case RecordOp(req) =>
        |Pending(s', client)| ==
        |Pending(s, client)| - if req in s.inFlight && s.inFlight[req] == client then 1 else 0
      case AbandonOp(req) => |Pending(s', client)| <= |Pending(s, client)|
  {
    match op
    case CheckOp(req, c) =>
      if req !in s.inFlight {
        AddPending(s.inFlight, req, c, client);
      }
    case RecordOp(req) => DropPending(s.inFlight, req, client);
    case AbandonOp(req) => DropPending(s.inFlight, req, client);
  }

  lemma {:induction false} LimitStays(limit: nat, run: Run<Op>)
    ensures After(limit, run).limiter.limit == limit
  {
    if run.Then? {
      LimitStays(limit, run.before);
    }
  }

  lemma {:induction false} StaysBounded(limit: nat, run: Run<Op>, client: Client, p: nat)
    requires Monotone(run) && p >= 1 && AtMost(limit, run, client, p)
    ensures
      var s := After(limit, run);
      Bounded(limit, Find(s, client), |Pending(s, client)|, RecordTimes(limit, run, client), p, Clock(run))
  {
    match run
    case Start(_) =>
    case Then(before, now, op) =>
      StaysBounded(limit, before, client, p);
      LimitStays(limit, before);
      var s, log := After(limit, before), RecordTimes(limit, before, client);
      PendingStep(s, now, op, client);
      if Records(limit, run, client) {
        RecordKeepsBound(s.limiter, client, Find(s, client), |Pending(s, client)|, log, p, Clock(before), now);
      } else {
        assert RecordTimes(limit, run, client) == log;
        assert Find(After(limit, run), client) == Find(s, client);
      }
  }

  /** How many certificates the run recorded, for all clients. */
  function TotalRecorded(limit: nat, run: Run<Op>): nat {
    match run
    case Start(_) => 0
    case Then(before, _, op) =>
      TotalRecorded(limit, before) + if op.RecordOp? && op.req in After(limit, before).inFlight then 1 else 0
  }

  /** The total reported is the number of certificates recorded. */
  lemma {:induction false} TotalIsExact(limit: nat, run: Run<Op>)
    ensures After(limit, run).limiter.total == TotalRecorded(limit, run)
  {
    if run.Then? {
      TotalIsExact(limit, run.before);
    }
  }

  /** With at most `p` requests of a client in flight, every hourly window records
  at most max(limit, 1) + p - 1 certificates, and every interval of one hour fewer
  than twice as many. */
  lemma InterleavingBound(limit: nat, run: Run<Op>, client: Client, p: nat, lo: int)
    requires Monotone(run) && p >= 1 && AtMost(limit, run, client, p)
    ensures client in After(limit, run).limiter.counts ==>
              After(limit, run).limiter.counts[client].issued <= WindowCap(limit, p)
    ensures |Within(RecordTimes(limit, run, client), lo, HOUR)| <= 2 * WindowCap(limit, p) - 1
  {
    StaysBounded(limit, run, client, p);
    SpacedCount(RecordTimes(limit, run, client), 2 * WindowCap(limit, p) - 1, HOUR, lo);
  }

  /** One request at a time never exceeds a positive limit. */
  lemma SequentialBound(limit: nat, run: Run<Op>, client: Client)
    requires Monotone(run) && limit >= 1 && AtMost(limit, run, client, 1)
    requires client in After(limit, run).limiter.counts
    ensures After(limit, run).limiter.counts[client].issued <= limit
  {
    InterleavingBound(limit, run, client, 1, 0);
  }
}
