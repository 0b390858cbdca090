/** The router's wildcard certificate: issued by the certificate authority, cached,
and re-issued before it expires, all within the authority's issuance limit. */
module WildcardRotation {
  import opened Arithmetic
  import opened Basics
  import opened CaLimiter

  datatype Config = Config(rootDomain: string, validity: int, renewBefore: int, includeLocalhost: bool)

  /** The authority's settings that issuance depends on. */
  datatype CaConfig = CaConfig(maxTtl: int, certsPerHour: nat)

  const DEFAULT_MAX_TTL: int := 2 * HOUR
  const DEFAULT_CERTS_PER_HOUR: nat := 10

  datatype Cert = Cert(serial: string, expiresAt: int)

  datatype Outcome =
    | Served(cert: Cert)
    | BadRequest
    | RateLimited
    | TtlTooLong
    | GenerationFailed

  /** One call reads the clock up to four times, in this order: for the renewal
  test, for the limiter, for the validity of the new certificate, and to record it. */
  datatype Readings = Readings(renewal: int, check: int, generate: int, record: int)

  /** What key generation yields, if it succeeds: the new serial number. */
  type Generation = Option<string>

  function SubjectAltNames(config: Config): (names: seq<string>) {
    ["*." + config.rootDomain, config.rootDomain] + if config.includeLocalhost then ["localhost"] else []
  }

  function Wildcard(config: Config): Client {
    SubjectAltNames(config)[0]
  }

  /** Issue a server certificate for `fqdn`, limited per name. */
  function Issue(ca: CaConfig, limiter: Limiter, fqdn: Client, ttl: int, at: Readings, made: Generation)
    : (Limiter, Outcome)
  {
    if fqdn == "" then (limiter, BadRequest)
    else if IsLimited(limiter, fqdn, at.check) then (limiter, RateLimited)
    else if ttl > ca.maxTtl then (limiter, TtlTooLong)
    else if made.None? then (limiter, GenerationFailed)
    else (Record(limiter, fqdn, at.record), Served(Cert(made.value, at.generate + ttl)))
  }

  datatype State = State(limiter: Limiter, cached: Option<Cert>)

  predicate NeedsRenewal(config: Config, cert: Cert, now: int) {
    cert.expiresAt - now <= config.renewBefore
  }

  /** Serve the cached certificate, or issue and cache a new one. */
  function Certificate(config: Config, ca: CaConfig, s: State, at: Readings, made: Generation): (State, Outcome) {
    if s.cached.Some? && !NeedsRenewal(config, s.cached.value, at.renewal) then (s, Served(s.cached.value))
    else
      var (limiter, outcome) := Issue(ca, s.limiter, Wildcard(config), config.validity, at, made);
      (State(limiter, if outcome.Served? then Some(outcome.cert) else s.cached), outcome)
  }

  class CertificateAuthority {
    const config: CaConfig
    const limiter: RateLimiter

    constructor (config: CaConfig)
      ensures this.config == config && fresh(limiter)
      ensures limiter.Value() == Limiter(config.certsPerHour, map[], 0)
    {
      this.config := config;
      limiter := new RateLimiter(config.certsPerHour);
    }

    method IssueServerCertificate(fqdn: string, ttl: int, at: Readings, made: Generation) returns (outcome: Outcome)
      modifies limiter
      ensures (limiter.Value(), outcome) == Issue(config, old(limiter.Value()), fqdn, ttl, at, made)
    {
      if fqdn == "" {
        return BadRequest;
      }
      var limited := limiter.IsRateLimited(fqdn, at.check);
      if limited {
        return RateLimited;
      }
      if ttl > config.maxTtl {
        return TtlTooLong;
      }
      match made
      case None => return GenerationFailed;
      case Some(serial) =>
        limiter.RecordIssuance(fqdn, at.record);
        return Served(Cert(serial, at.generate + ttl));
    }
  }

  class CertificateManager {
    const config: Config
    const ca: CertificateAuthority
    var cached: Option<Cert>

    /** A manager over an authority of its own, whose cap never rejects the
    configured validity. */
    constructor (config: Config)
      ensures this.config == config && fresh(ca) && fresh(ca.limiter)
      ensures ca.config == OwnAuthority(config)
      ensures Value() == State(Limiter(DEFAULT_CERTS_PER_HOUR, map[], 0), None)
    {
      this.config := config;
      cached := None;
      ca := new CertificateAuthority(OwnAuthority(config));
    }

    function Value(): State
      reads this, ca.limiter
    {
      State(ca.limiter.Value(), cached)
    }

    method CurrentCertificate(at: Readings, made: Generation) returns (outcome: Outcome)
      modifies this, ca.limiter
      ensures (Value(), outcome) == Certificate(config, ca.config, old(Value()), at, made)
    {
      if cached.Some? && !NeedsRenewal(config, cached.value, at.renewal) {
        return Served(cached.value);
      }
      outcome := ca.IssueServerCertificate(SubjectAltNames(config)[0], config.validity, at, made);
      if outcome.Served? {
        cached := Some(outcome.cert);
      }
    }
  }

  function OwnAuthority(config: Config): CaConfig {
    CaConfig(if config.validity > DEFAULT_MAX_TTL then config.validity else DEFAULT_MAX_TTL, DEFAULT_CERTS_PER_HOUR)
  }

  // ---- Runs ----------------------------------------------------------------

  datatype Op =
    | CertificateOp(renewal: int, check: int, generate: int, made: Generation)
    | OtherIssuance(fqdn: Client)  // a certificate recorded for some other name

  /** The readings of a call that ends at `now`. */
  function At(op: Op, now: int): Readings
    requires op.CertificateOp?
  {
    Readings(op.renewal, op.check, op.generate, now)
  }

  function After(config: Config, ca: CaConfig, run: Run<Op>): State {
    match run
    case Start(_) => State(Limiter(ca.certsPerHour, map[], 0), None)
    case Then(before, now, op) =>
      var s := After(config, ca, before);
      match op
      case CertificateOp(_, _, _, made) => Certificate(config, ca, s, At(op, now), made).0
      case OtherIssuance(fqdn) => s.(limiter := Record(s.limiter, fqdn, now))
  }

  /** The readings of a call made once the clock shows `clock`, ending at `now`,
  with at most `delay` between generating a certificate and recording it. */
  predicate InOrder(clock: int, op: Op, now: int, delay: nat)
    requires op.CertificateOp?
  {
    clock <= op.renewal <= op.check <= op.generate <= now <= op.generate + delay
  }

  /** Time goes forward, and nobody else issues for the wildcard name. */
  predicate Timely(config: Config, run: Run<Op>, delay: nat) {
    match run
    case Start(_) => true
    case Then(before, now, op) =>
      && Timely(config, before, delay)
      && match op
         case CertificateOp(_, _, _, _) => InOrder(Clock(before), op, now, delay)
         case OtherIssuance(fqdn) => Clock(before) <= now && fqdn != Wildcard(config)
  }

  /** The time from issuing a certificate to its being due for renewal. */
  function Lifetime(config: Config): int {
    config.validity - config.renewBefore
  }

  function AtLeastOne(n: nat): nat {
    if n == 0 then 1 else n
  }

  /** How much of the first lifetime of a window can pass before the window begins. */
  function Slack(config: Config, delay: nat): int {
    if delay <= Lifetime(config) then delay else Lifetime(config)
  }

  /** Enough issuances per hour for the configured lifetime. */
  predicate Sustainable(config: Config, ca: CaConfig, delay: nat) {
    && Lifetime(config) > 0
    && AtLeastOne(ca.certsPerHour) * Lifetime(config) >= HOUR + Slack(config, delay)
  }

  /** The next renewal, which is neither before the cached certificate is due nor in
  the past, comes no earlier than the issuances of the window allow. */
  ghost predicate Paced(config: Config, ca: CaConfig, s: State, delay: nat, clock: int) {
    && s.limiter.limit == ca.certsPerHour
    && match s.cached
       case None => Wildcard(config) !in s.limiter.counts
       case Some(cert) =>
         && Wildcard(config) in s.limiter.counts
         && var count := s.limiter.counts[Wildcard(config)];
            var pace := count.lastReset - Slack(config, delay) + count.issued * Lifetime(config);
            && count.issued >= 1
            && (cert.expiresAt - config.renewBefore >= pace || clock >= pace)
  }

  /** A paced manager whose certificate is due is not limited. */
  lemma DueIsNotLimited(config: Config, ca: CaConfig, s: State, delay: nat, clock: int, renewal: int, check: int)
    requires Sustainable(config, ca, delay) && Paced(config, ca, s, delay, clock) && clock <= renewal <= check
    requires s.cached.Some? ==> NeedsRenewal(config, s.cached.value, renewal)
    ensures !IsLimited(s.limiter, Wildcard(config), check)
  {
    if s.cached.Some? && s.limiter.counts[Wildcard(config)].issued >= ca.certsPerHour {
      MulAtLeast(s.limiter.counts[Wildcard(config)].issued, AtLeastOne(ca.certsPerHour), Lifetime(config));
    }
  }

  lemma IssueStaysPaced(config: Config, ca: CaConfig, s: State, delay: nat, clock: int, op: Op, now: int,
                        serial: string)
    requires Sustainable(config, ca, delay) && Paced(config, ca, s, delay, clock)
    requires op.CertificateOp? && InOrder(clock, op, now, delay)
    requires s.cached.Some? ==> NeedsRenewal(config, s.cached.value, op.renewal)
    ensures Paced(config, ca, State(Record(s.limiter, Wildcard(config), now),
                                    Some(Cert(serial, op.generate + config.validity))), delay, now)
  {
    var name, life := Wildcard(config), Lifetime(config);
    if s.cached.Some? {
      var n := s.limiter.counts[name].issued;
      assert (n + 1) * life == n * life + life;
    }
    assert 1 * life == life;
  }

  /** A call of a paced manager is served unless generation fails, what it serves is
  not due for renewal, and the manager stays paced. */
  lemma CallStaysPaced(config: Config, ca: CaConfig, s: State, delay: nat, clock: int, op: Op, now: int)
    requires config.validity <= ca.maxTtl
    requires Sustainable(config, ca, delay) && Paced(config, ca, s, delay, clock)
    requires op.CertificateOp? && InOrder(clock, op, now, delay)
    ensures
      var (s', outcome) := Certificate(config, ca, s, At(op, now), op.made);
      && Paced(config, ca, s', delay, now)
      && (outcome.Served? || (outcome == GenerationFailed && op.made == None))
      && (outcome.Served? ==> !NeedsRenewal(config, outcome.cert, op.renewal))
      && (outcome.Served? && s.cached != Some(outcome.cert) && delay < Lifetime(config) ==>
            !NeedsRenewal(config, outcome.cert, now))
  {
    if s.cached.None? || NeedsRenewal(config, s.cached.value, op.renewal) {
      DueIsNotLimited(config, ca, s, delay, clock, op.renewal, op.check);
      if op.made.Some? {
        IssueStaysPaced(config, ca, s, delay, clock, op, now, op.made.value);
      }
    }
  }

  lemma {:induction false} RunStaysPaced(config: Config, ca: CaConfig, run: Run<Op>, delay: nat)
    requires config.validity <= ca.maxTtl && Sustainable(config, ca, delay) && Timely(config, run, delay)
    ensures Paced(config, ca, After(config, ca, run), delay, Clock(run))
  {
    match run
    case Start(_) =>
    case Then(before, now, op) =>
      RunStaysPaced(config, ca, before, delay);
      if op.CertificateOp? {
        CallStaysPaced(config, ca, After(config, ca, before), delay, Clock(before), op, now);
      }
  }

  /** With a sustainable configuration no call of any run is refused by the
  limiter, and every certificate served has more than `renewBefore` left when it is
  looked up; a new one even when the call returns, if recording takes less than a
  lifetime. */
  lemma RotationNeverStarves(config: Config, ca: CaConfig, run: Run<Op>, delay: nat, op: Op, now: int)
    requires config.validity <= ca.maxTtl && Sustainable(config, ca, delay) && Timely(config, run, delay)
    requires op.CertificateOp? && InOrder(Clock(run), op, now, delay)
    ensures
      var s := After(config, ca, run);
      match Certificate(config, ca, s, At(op, now), op.made).1
      case Served(cert) =>
        && cert.expiresAt - op.renewal > config.renewBefore
        && (s.cached != Some(cert) && delay < Lifetime(config) ==> cert.expiresAt - now > config.renewBefore)
      case GenerationFailed => op.made == None
      case _ => false
  {
    RunStaysPaced(config, ca, run, delay);
    CallStaysPaced(config, ca, After(config, ca, run), delay, Clock(run), op, now);
  }

  // ---- Exactly when rotation is never starved ----------------------------------

  /** No call of any run, in which recording takes at most `delay`, is refused by the
  limiter. */
  ghost predicate NeverLimited(config: Config, ca: CaConfig, delay: nat) {
    forall run: Run<Op>, op: Op, now: int ::
      Timely(config, run, delay) && op.CertificateOp? && InOrder(Clock(run), op, now, delay) ==>
        Certificate(config, ca, After(config, ca, run), At(op, now), op.made).1 != RateLimited
  }

  /** A call whose readings before recording are all `now`, and that succeeds. */
  function Prompt(now: int): Op {
    CertificateOp(now, now, now, Some("serial"))
  }

  /** `k` calls, each as soon as the certificate of the one before is due; only the
  first takes time to be recorded. */
  function Impatient(k: nat, step: nat, slow: nat): Run<Op> {
    if k == 0 then Start(0)
    else if k == 1 then Then(Start(0), slow, Prompt(0))
    else Then(Impatient(k - 1, step, slow), (k - 1) * step, Prompt((k - 1) * step))
  }

  /** The state after `k` such calls. */
  ghost predicate Impatience(config: Config, ca: CaConfig, s: State, k: nat, last: int, slow: nat) {
    && s.limiter.limit == ca.certsPerHour
    && s.limiter.counts == map[Wildcard(config) := Count(k, slow)]
    && s.cached == Some(Cert("serial", last + config.validity))
  }

  /** One more call, when the certificate is due and the window has room. */
  lemma OneMoreCall(config: Config, ca: CaConfig, s: State, k: nat, last: int, slow: nat, now: int)
    requires config.validity <= ca.maxTtl && Impatience(config, ca, s, k, last, slow)
    requires last + Lifetime(config) <= now < slow + HOUR && k < AtLeastOne(ca.certsPerHour) && k >= 1
    ensures Impatience(config, ca, Certificate(config, ca, s, At(Prompt(now), now), Some("serial")).0, k + 1, now, slow)
  {
  }

  lemma {:induction false} ImpatientState(config: Config, ca: CaConfig, k: nat, step: nat, slow: nat)
    requires config.validity <= ca.maxTtl && step >= Lifetime(config) && slow <= step
    requires 1 <= k <= AtLeastOne(ca.certsPerHour) && k * step < HOUR + slow
    ensures Timely(config, Impatient(k, step, slow), slow) && Clock(Impatient(k, step, slow)) <= k * step
    ensures Impatience(config, ca, After(config, ca, Impatient(k, step, slow)), k, (k - 1) * step, slow)
  {
    assert k * step == (k - 1) * step + step;
    if k == 1 {
      assert After(config, ca, Start(0)) == State(Limiter(ca.certsPerHour, map[], 0), None);
    } else {
      assert (k - 1) * step == (k - 2) * step + step;
      ImpatientState(config, ca, k - 1, step, slow);
      OneMoreCall(config, ca, After(config, ca, Impatient(k - 1, step, slow)), k - 1, (k - 2) * step, slow,
                  (k - 1) * step);
    }
  }

  lemma {:induction false} TimelyMore(config: Config, run: Run<Op>, delay: nat, more: nat)
    requires Timely(config, run, delay) && delay <= more
    ensures Timely(config, run, more)
  {
    if run.Then? {
      TimelyMore(config, run.before, delay, more);
    }
  }

  /** Too few issuances for the lifetime: calling at every renewal runs into the limit. */
  lemma ImpatienceIsLimited(config: Config, ca: CaConfig, step: nat, slow: nat, delay: nat)
    requires config.validity <= ca.maxTtl && step >= Lifetime(config) && slow <= step && slow <= delay
    requires AtLeastOne(ca.certsPerHour) * step < HOUR + slow
    ensures !NeverLimited(config, ca, delay)
  {
    var k := AtLeastOne(ca.certsPerHour);
    var run, op, now := Impatient(k, step, slow), Prompt(k * step), k * step;
    ImpatientState(config, ca, k, step, slow);
    TimelyMore(config, run, slow, delay);
    assert k * step == (k - 1) * step + step;
    assert Timely(config, run, delay) && InOrder(Clock(run), op, now, delay);
    assert Certificate(config, ca, After(config, ca, run), At(op, now), op.made).1 == RateLimited;
  }

  /** An authority that never grants the validity never counts the name either. */
  lemma {:induction false} NeverIssued(config: Config, ca: CaConfig, run: Run<Op>, delay: nat)
    requires config.validity > ca.maxTtl && Timely(config, run, delay)
    ensures After(config, ca, run).cached == None
    ensures Wildcard(config) !in After(config, ca, run).limiter.counts
  {
    if run.Then? {
      NeverIssued(config, ca, run.before, delay);
    }
  }

  /** Then every call of every run is refused for the validity. */
  lemma TooLongIsRefused(config: Config, ca: CaConfig, run: Run<Op>, delay: nat, op: Op, now: int)
    requires config.validity > ca.maxTtl && Timely(config, run, delay) && op.CertificateOp?
    ensures Certificate(config, ca, After(config, ca, run), At(op, now), op.made).1 == TtlTooLong
  {
    NeverIssued(config, ca, run, delay);
  }

  /** A request for a server certificate that is not served uses up nothing; one that is
  counts once, for its own name, and is good for what was asked from its generation on. */
  lemma IssuanceCountsOnce(ca: CaConfig, limiter: Limiter, fqdn: Client, ttl: int, at: Readings, made: Generation,
                           other: Client, now: int)
    requires other != fqdn
    ensures
      var (limiter', outcome) := Issue(ca, limiter, fqdn, ttl, at, made);
      match outcome
      case Served(cert) =>
        && fqdn != "" && cert.expiresAt == at.generate + ttl <= at.generate + ca.maxTtl && Some(cert.serial) == made
        && limiter'.total == limiter.total + 1
        && IsLimited(limiter', other, now) == IsLimited(limiter, other, now)
      case _ => limiter' == limiter && (fqdn == "" <==> outcome == BadRequest)
  {
  }

  /** However long recording takes, rotation is never refused by the limiter exactly
  when max(certs per hour, 1) lifetimes cover an hour and the delay, of which no more
  than a lifetime counts (or when nothing can be issued at all). */
  lemma NeverLimitedExactly(config: Config, ca: CaConfig, delay: nat)
    ensures NeverLimited(config, ca, delay) <==> config.validity > ca.maxTtl || Sustainable(config, ca, delay)
  {
    if config.validity > ca.maxTtl {
      forall run: Run<Op>, op: Op, now: int |
        Timely(config, run, delay) && op.CertificateOp? && InOrder(Clock(run), op, now, delay)
        ensures Certificate(config, ca, After(config, ca, run), At(op, now), op.made).1 != RateLimited
      {
        NeverIssued(config, ca, run, delay);
      }
    } else if Sustainable(config, ca, delay) {
      forall run: Run<Op>, op: Op, now: int |
        Timely(config, run, delay) && op.CertificateOp? && InOrder(Clock(run), op, now, delay)
        ensures Certificate(config, ca, After(config, ca, run), At(op, now), op.made).1 != RateLimited
      {
        RotationNeverStarves(config, ca, run, delay, op, now);
      }
    } else if Lifetime(config) > 0 {
      ImpatienceIsLimited(config, ca, Lifetime(config), Slack(config, delay), delay);
    } else {
      ImpatienceIsLimited(config, ca, 0, 0, delay);
    }
  }

  /** A manager over its own authority is never refused exactly when ten lifetimes
  cover an hour and the delay: six minutes suffice only if recording takes no time. */
  lemma OwnAuthorityNeverLimitedExactly(config: Config, delay: nat)
    ensures NeverLimited(config, OwnAuthority(config), delay) <==>
            Lifetime(config) > 0 && 10 * Lifetime(config) >= HOUR + Slack(config, delay)
    ensures NeverLimited(config, OwnAuthority(config), 0) <==> Lifetime(config) >= 360 * SECOND
    ensures Lifetime(config) == 360 * SECOND && delay > 0 ==> !NeverLimited(config, OwnAuthority(config), delay)
  {
    NeverLimitedExactly(config, OwnAuthority(config), delay);
    NeverLimitedExactly(config, OwnAuthority(config), 0);
  }
}
