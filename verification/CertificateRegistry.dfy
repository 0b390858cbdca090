/** The registry of issued certificates: a map in memory in front of an optional
durable store that survives restarts of the process. */
module CertificateRegistry {
  import opened Basics
  import opened Redis

  type Serial = string

  datatype Cert = Cert(serial: Serial, clientId: string, expiresAt: int)

  /** The certificates in memory and the durable records, if there is a store. */
  datatype State = State(active: map<Serial, Cert>, store: Option<Keys<Serial, Cert>>)

  function Register(s: State, cert: Cert, now: int): State {
    var ttl := WholeSeconds(cert.expiresAt - now);
    State(s.active[cert.serial := cert],
          if s.store.Some? && ttl > 0 then Some(SetEx(s.store.value, cert.serial, cert, now, ttl)) else s.store)
  }

  /** Look a serial up in memory, then in the store, caching what the store has. */
  function Find(s: State, serial: Serial, now: int): (State, Option<Cert>) {
    if serial in s.active then (s, Some(s.active[serial]))
    else if s.store.None? then (s, None)
    else
      match Get(s.store.value, serial, now)
      case None => (s, None)
      case Some(cert) => (s.(active := s.active[serial := cert]), Some(cert))
  }

  function Validate(s: State, serial: Serial, now: int): (State, bool) {
    var (s', found) := Find(s, serial, now);
    (s', found.Some? && found.value.expiresAt > now)
  }

  function Remove(s: State, serial: Serial): (State, bool) {
    (State(s.active - {serial}, if s.store.Some? then Some(Del(s.store.value, serial)) else None),
     serial in s.active)
  }

  /** Revocation, and whether the certificate was known. */
  function Revoke(s: State, serial: Serial, now: int): (State, bool) {
    var (s', found) := Find(s, serial, now);
    var (s'', removed) := Remove(s', serial);
    (s'', found.Some? || removed)
  }

  function Cleanup(s: State, now: int): State {
    s.(active := map serial | serial in s.active && s.active[serial].expiresAt > now :: s.active[serial])
  }

  /** A new process starts with an empty memory over the same store. */
  function Restart(s: State): State {
    s.(active := map[])
  }

  class Store {
    var entries: Keys<Serial, Cert>

    constructor ()
      ensures entries == map[]
    {
      entries := map[];
    }
  }

  class Registry {
    var activeCerts: map<Serial, Cert>
    const store: Store?

    /** A registry over a store, or in memory only. */
    constructor (store: Store?)
      ensures this.store == store && activeCerts == map[]
    {
      this.store := store;
      activeCerts := map[];
    }

    function Value(): State
      reads this, store
    {
      State(activeCerts, if store == null then None else Some(store.entries))
    }

    method RegisterCertificate(cert: Cert, now: int)
      modifies this, store
      ensures Value() == Register(old(Value()), cert, now)
    {
      if store != null {
        var ttl := WholeSeconds(cert.expiresAt - now);
        if ttl > 0 {
          store.entries := SetEx(store.entries, cert.serial, cert, now, ttl);
        }
      }
      activeCerts := activeCerts[cert.serial := cert];
    }

    method GetCertificate(serial: Serial, now: int) returns (found: Option<Cert>)
      modifies this
      ensures (Value(), found) == Find(old(Value()), serial, now)
    {
      if serial in activeCerts {
        return Some(activeCerts[serial]);
      }
      if store == null {
        return None;
      }
      found := Get(store.entries, serial, now);
      if found.Some? {
        activeCerts := activeCerts[serial := found.value];
      }
    }

    method IsCertificateValid(serial: Serial, now: int) returns (valid: bool)
      modifies this
      ensures (Value(), valid) == Validate(old(Value()), serial, now)
    {
      var found := GetCertificate(serial, now);
      match found
      case Some(cert) => valid := cert.expiresAt > now;
      case None => valid := false;
    }

    method RemoveCertificate(serial: Serial) returns (removed: bool)
      modifies this, store
      ensures (Value(), removed) == Remove(old(Value()), serial)
    {
      if store != null {
        store.entries := Del(store.entries, serial);
      }
      removed := serial in activeCerts;
      activeCerts := activeCerts - {serial};
    }

    method RevokeCertificate(serial: Serial, now: int) returns (known: bool)
      modifies this, store
      ensures (Value(), known) == Revoke(old(Value()), serial, now)
    {
      var found := GetCertificate(serial, now);
      var removed := RemoveCertificate(serial);
      known := found.Some? || removed;
    }

    method CleanupExpired(now: int) returns (removed: nat)
      modifies this
      ensures Value() == Cleanup(old(Value()), now)
      ensures removed == |old(activeCerts)| - |activeCerts|
    {
      var left := activeCerts.Keys;
      var kept: map<Serial, Cert> := map[];
      while left != {}
        invariant left <= activeCerts.Keys
        invariant kept == map serial | serial in activeCerts && serial !in left && activeCerts[serial].expiresAt > now
                              :: activeCerts[serial]
        invariant activeCerts == old(activeCerts)
        decreases left
      {
        var serial :| serial in left;
        if activeCerts[serial].expiresAt > now {
          kept := kept[serial := activeCerts[serial]];
        }
        left := left - {serial};
      }
      SubsetSize(kept.Keys, activeCerts.Keys);
      removed := |activeCerts| - |kept|;
      activeCerts := kept;
    }
  }

  // ---- Runs ----------------------------------------------------------------

  datatype Op =
    | RegisterOp(cert: Cert)
    | ValidateOp(serial: Serial)
    | RevokeOp(serial: Serial)
    | CleanupOp
    | RestartOp

  function Step(s: State, now: int, op: Op): State {
    match op
    case RegisterOp(cert) => Register(s, cert, now)
    case ValidateOp(serial) => Validate(s, serial, now).0
    case RevokeOp(serial) => Revoke(s, serial, now).0
    case CleanupOp => Cleanup(s, now)
    case RestartOp => Restart(s)
  }

  function After(durable: bool, run: Run<Op>): State {
    match run
    case Start(_) => State(map[], if durable then Some(map[]) else None)
    case Then(before, now, op) => Step(After(durable, before), now, op)
  }

  /** The certificates registered under `serial` since it was last revoked. */
  function Standing(run: Run<Op>, serial: Serial): set<Cert> {
    match run
    case Start(_) => {}
    case Then(before, _, op) =>
      match op
      case RegisterOp(cert) => Standing(before, serial) + if cert.serial == serial then {cert} else {}
      case RevokeOp(revoked) => if revoked == serial then {} else Standing(before, serial)
      case _ => Standing(before, serial)
  }

  /** The last of them, and whether the process has restarted since. */
  function Latest(run: Run<Op>, serial: Serial): Option<(Cert, bool)> {
    match run
    case Start(_) => None
    case Then(before, _, op) =>
      match op
      case RegisterOp(cert) => if cert.serial == serial then Some((cert, false)) else Latest(before, serial)
      case RevokeOp(revoked) => if revoked == serial then None else Latest(before, serial)
      case RestartOp =>
        (match Latest(before, serial) case None => None case Some((cert, _)) => Some((cert, true)))
      case _ => Latest(before, serial)
  }

  /** Everything held under `serial` was registered and not revoked since, and no
  durable record outlives its certificate. */
  ghost predicate Sound(s: State, serial: Serial, standing: set<Cert>) {
    && (serial in s.active ==> s.active[serial] in standing)
    && (s.store.Some? && serial in s.store.value ==>
          && s.store.value[serial].value in standing
          && s.store.value[serial].deadline <= s.store.value[serial].value.expiresAt)
  }

  /** Less than a second of the certificate is left. */
  predicate Ending(cert: Cert, now: int) {
    cert.expiresAt < now + SECOND
  }

  /** The latest certificate is still held wherever it has to be. */
  ghost predicate Held(s: State, cert: Cert, restarted: bool, clock: int) {
    var serial := cert.serial;
    && (!restarted ==> (serial in s.active && s.active[serial] == cert) || cert.expiresAt <= clock)
    && (s.store.Some? && !Ending(cert, clock) ==>
          && serial in s.store.value
          && s.store.value[serial].value == cert
          && s.store.value[serial].deadline > cert.expiresAt - SECOND
          && (serial in s.active ==> s.active[serial] == cert))
  }

  lemma RegisterIsSound(s: State, cert: Cert, now: int, standing: set<Cert>)
    requires Sound(s, cert.serial, standing)
    ensures Sound(Register(s, cert, now), cert.serial, standing + {cert})
  {
    if WholeSeconds(cert.expiresAt - now) > 0 {
      WholeSecondsBound(now, cert.expiresAt);
    }
  }

  lemma RegisterIsHeld(s: State, cert: Cert, now: int)
    ensures Held(Register(s, cert, now), cert, false, now)
  {
    if WholeSeconds(cert.expiresAt - now) > 0 {
      WholeSecondsBound(now, cert.expiresAt);
    }
  }

  lemma {:induction false} StaysSound(durable: bool, run: Run<Op>, serial: Serial)
    ensures Sound(After(durable, run), serial, Standing(run, serial))
    ensures After(durable, run).store.Some? == durable
  {
    match run
    case Start(_) =>
    case Then(before, now, op) =>
      StaysSound(durable, before, serial);
      if op.RegisterOp? && op.cert.serial == serial {
        RegisterIsSound(After(durable, before), op.cert, now, Standing(before, serial));
      }
  }

  lemma {:induction false} StaysHeld(durable: bool, run: Run<Op>, serial: Serial)
    requires Monotone(run) && Latest(run, serial).Some?
    ensures Latest(run, serial).value.0.serial == serial
    ensures Held(After(durable, run), Latest(run, serial).value.0, Latest(run, serial).value.1, Clock(run))
  {
    match run
    case Start(_) =>
    case Then(before, now, op) =>
      if op.RegisterOp? && op.cert.serial == serial {
        RegisterIsHeld(After(durable, before), op.cert, now);
      } else {
        StaysHeld(durable, before, serial);
      }
  }

  /** A serial validates only if some certificate registered under it, and not
  revoked since, is unexpired. */
  lemma ValidOnlyIfStanding(durable: bool, run: Run<Op>, serial: Serial, now: int)
    requires Validate(After(durable, run), serial, now).1
    ensures exists cert :: cert in Standing(run, serial) && cert.expiresAt > now
  {
    StaysSound(durable, run, serial);
    var cert := Find(After(durable, run), serial, now).1.value;
    assert cert in Standing(run, serial);
  }

  /** The latest certificate of a serial validates until it expires if the process
  has not restarted since, and over a durable store until one second before it
  expires, whatever happened in between. */
  lemma StandingValidates(durable: bool, run: Run<Op>, serial: Serial, now: int)
    requires Monotone(run) && Clock(run) <= now && Latest(run, serial).Some?
    ensures
      var (cert, restarted) := Latest(run, serial).value;
      && (!restarted && now < cert.expiresAt ==> Validate(After(durable, run), serial, now).1)
      && (durable && now + SECOND <= cert.expiresAt ==> Validate(After(durable, run), serial, now).1)
  {
    StaysHeld(durable, run, serial);
    StaysSound(durable, run, serial);
  }

  /** With serials used once, validity is exactly "registered, not revoked,
  unexpired" as long as the process runs. */
  lemma ValidExactly(durable: bool, run: Run<Op>, cert: Cert, now: int)
    requires Monotone(run) && Clock(run) <= now
    requires Standing(run, cert.serial) <= {cert}
    requires Latest(run, cert.serial).Some? ==> !Latest(run, cert.serial).value.1
    ensures Validate(After(durable, run), cert.serial, now).1 <==>
            cert in Standing(run, cert.serial) && now < cert.expiresAt
  {
    if Validate(After(durable, run), cert.serial, now).1 {
      ValidOnlyIfStanding(durable, run, cert.serial, now);
    }
    LatestStands(run, cert.serial);
    if Latest(run, cert.serial).Some? {
      StandingValidates(durable, run, cert.serial, now);
    }
  }

  lemma {:induction false} LatestStands(run: Run<Op>, serial: Serial)
    ensures match Latest(run, serial)
            case None => Standing(run, serial) == {}
            case Some((cert, _)) => cert in Standing(run, serial)
  {
    if run.Then? {
      LatestStands(run.before, serial);
    }
  }

  // ---- Without a store -------------------------------------------------------

  /** In memory only the latest certificate registered since the start is held. */
  lemma {:induction false} MemoryHoldsLatest(run: Run<Op>, serial: Serial)
    ensures After(false, run).store.None?
    ensures serial in After(false, run).active ==>
              Latest(run, serial) == Some((After(false, run).active[serial], false))
  {
    if run.Then? {
      MemoryHoldsLatest(run.before, serial);
    }
  }

  /** Without a store a serial validates exactly if its latest certificate was
  registered by this very process and is unexpired. */
  lemma MemoryOnlyValidExactly(run: Run<Op>, serial: Serial, now: int)
    requires Monotone(run) && Clock(run) <= now
    ensures Validate(After(false, run), serial, now).1 <==>
            match Latest(run, serial)
            case None => false
            case Some((cert, restarted)) => !restarted && now < cert.expiresAt
  {
    MemoryHoldsLatest(run, serial);
    if Latest(run, serial).Some? {
      StandingValidates(false, run, serial, now);
    }
  }

  // ---- What a restart costs --------------------------------------------------

  /** The moment after which a certificate no longer survives a restart. */
  function DurableUntil(cert: Cert, registered: int): int {
    registered + WholeSeconds(cert.expiresAt - registered) * SECOND
  }

  lemma DurableWithin(cert: Cert, at: int)
    ensures DurableUntil(cert, at) <= at || cert.expiresAt - SECOND < DurableUntil(cert, at) <= cert.expiresAt
  {
    if WholeSeconds(cert.expiresAt - at) >= 1 {
      WholeSecondsBound(at, cert.expiresAt);
    }
  }

  /** What the history of a serial leaves: the certificate the process remembers, and the
  last one that was registered with a whole second to live, which the store keeps for
  its whole seconds. */
  datatype Past = Past(remembered: Option<Cert>, kept: Option<Stored<Cert>>)

  /** Registering is remembered and, over a store, kept if there is a whole second; looking
  up, when nothing is remembered, remembers what is kept; a restart forgets what is
  remembered, a clean-up forgets it once expired, and revoking forgets everything. */
  function NextPast(durable: bool, p: Past, serial: Serial, now: int, op: Op): Past {
    match op
    case RegisterOp(cert) =>
      var until := DurableUntil(cert, now);
      if cert.serial != serial then p
      else Past(Some(cert), if durable && until > now then Some(Stored(cert, until)) else p.kept)
    case RevokeOp(revoked) => if revoked == serial then Past(None, None) else p
    case RestartOp => p.(remembered := None)
    case ValidateOp(asked) =>
      if asked == serial && p.remembered.None? && p.kept.Some? && now < p.kept.value.deadline
      then p.(remembered := Some(p.kept.value.value))
      else p
    case CleanupOp =>
      if p.remembered.Some? && p.remembered.value.expiresAt <= now then p.(remembered := None) else p
  }

  function PastOf(durable: bool, run: Run<Op>, serial: Serial): Past {
    match run
    case Start(_) => Past(None, None)
    case Then(before, now, op) => NextPast(durable, PastOf(durable, before, serial), serial, now, op)
  }

  /** Memory and store hold what the history of the serial leaves. */
  ghost predicate HoldsPast(s: State, serial: Serial, p: Past) {
    && (if serial in s.active then p.remembered == Some(s.active[serial]) else p.remembered == None)
    && (if s.store.Some? && serial in s.store.value then p.kept == Some(s.store.value[serial]) else p.kept == None)
    && (p.kept.Some? ==> p.kept.value.deadline <= p.kept.value.value.expiresAt)
  }

  lemma StepHoldsPast(s: State, serial: Serial, p: Past, now: int, op: Op)
    requires HoldsPast(s, serial, p)
    ensures HoldsPast(Step(s, now, op), serial, NextPast(s.store.Some?, p, serial, now, op))
  {
    if op.RegisterOp? {
      DurableWithin(op.cert, now);
    }
  }

  lemma {:induction false} AfterHoldsPast(durable: bool, run: Run<Op>, serial: Serial)
    ensures After(durable, run).store.Some? == durable
    ensures HoldsPast(After(durable, run), serial, PastOf(durable, run, serial))
  {
    match run
    case Start(_) =>
    case Then(before, now, op) =>
      AfterHoldsPast(durable, before, serial);
      StepHoldsPast(After(durable, before), serial, PastOf(durable, before, serial), now, op);
  }

  /** Both are registered and not revoked since. */
  lemma PastStands(durable: bool, run: Run<Op>, serial: Serial)
    ensures
      var p := PastOf(durable, run, serial);
      && (p.remembered.Some? ==> p.remembered.value in Standing(run, serial))
      && (p.kept.Some? ==> p.kept.value.value in Standing(run, serial))
  {
    AfterHoldsPast(durable, run, serial);
    StaysSound(durable, run, serial);
  }

  /** The certificate a past makes known at `now`: the remembered one or, when there is
  none, the kept one for its whole seconds. */
  function KnownAt(p: Past, now: int): Option<Cert> {
    if p.remembered.Some? then p.remembered
    else if p.kept.Some? && now < p.kept.value.deadline then Some(p.kept.value.value)
    else None
  }

  /** In every run, with or without a store: a look-up finds exactly the certificate that the
  history of the serial makes known. */
  lemma FindsExactly(durable: bool, run: Run<Op>, serial: Serial, now: int)
    ensures Find(After(durable, run), serial, now).1 == KnownAt(PastOf(durable, run, serial), now)
  {
    AfterHoldsPast(durable, run, serial);
  }

  /** A serial validates exactly if the certificate the process remembers is unexpired or,
  when it remembers none, the whole seconds of the last one that had any are not over. */
  lemma DurableValidExactly(durable: bool, run: Run<Op>, serial: Serial, now: int)
    ensures Validate(After(durable, run), serial, now).1 <==>
            match PastOf(durable, run, serial)
            case Past(Some(cert), _) => now < cert.expiresAt
            case Past(None, Some(kept)) => now < kept.deadline
            case Past(None, None) => false
  {
    AfterHoldsPast(durable, run, serial);
  }

  /** Revoking answers that the serial was known exactly if its history makes a certificate
  known, expired or not; so it does for every serial that validates, and never for one of
  which no certificate stands. Afterwards nothing is found any more. */
  lemma RevokeAnswersExactly(durable: bool, run: Run<Op>, serial: Serial, now: int, later: int)
    ensures
      var (s', known) := Revoke(After(durable, run), serial, now);
      && (known <==> KnownAt(PastOf(durable, run, serial), now).Some?)
      && (Validate(After(durable, run), serial, now).1 ==> known)
      && (Standing(run, serial) == {} ==> !known)
      && Find(s', serial, later).1 == None
  {
    AfterHoldsPast(durable, run, serial);
    PastStands(durable, run, serial);
  }

  /** Removing answers that a certificate was removed exactly if the process remembered one. */
  lemma RemoveAnswersExactly(durable: bool, run: Run<Op>, serial: Serial, later: int)
    ensures
      var (s', removed) := Remove(After(durable, run), serial);
      && (removed <==> PastOf(durable, run, serial).remembered.Some?)
      && Find(s', serial, later).1 == None
  {
    AfterHoldsPast(durable, run, serial);
  }

  // ---- Serials used once ---------------------------------------------------------------

  /** When a certificate was registered, and whether the process remembers it: since
  the last restart it was registered, or looked up while the store had it. */
  datatype Registration = Registration(cert: Cert, at: int, remembered: bool)

  function Registered(run: Run<Op>, serial: Serial): Option<Registration> {
    match run
    case Start(_) => None
    case Then(before, now, op) => NextRegistration(Registered(before, serial), serial, now, op)
  }

  function NextRegistration(r: Option<Registration>, serial: Serial, now: int, op: Op): Option<Registration> {
    match op
    case RegisterOp(cert) => if cert.serial == serial then Some(Registration(cert, now, true)) else r
    case RevokeOp(revoked) => if revoked == serial then None else r
    case RestartOp => if r.Some? then Some(r.value.(remembered := false)) else r
    case ValidateOp(asked) =>
      if asked == serial && r.Some? && now < DurableUntil(r.value.cert, r.value.at)
      then Some(r.value.(remembered := true))
      else r
    case CleanupOp => r
  }

  /** `serial` is not registered again before it is revoked. */
  predicate UsedOnce(run: Run<Op>, serial: Serial) {
    run.Then? ==>
      && UsedOnce(run.before, serial)
      && (run.op.RegisterOp? && run.op.cert.serial == serial ==> Registered(run.before, serial).None?)
  }

  /** Memory and store hold what the history of the serial says. */
  ghost predicate Accounted(s: State, serial: Serial, r: Option<Registration>, clock: int) {
    && s.store.Some?
    && match r
       case None => serial !in s.active && serial !in s.store.value
       case Some(Registration(cert, at, remembered)) =>
         && at <= clock
         && (if serial in s.active then remembered && s.active[serial] == cert
             else !remembered || cert.expiresAt <= clock)
         && (if serial in s.store.value then s.store.value[serial] == Stored(cert, DurableUntil(cert, at))
             else DurableUntil(cert, at) <= at)
  }

  lemma StepStaysAccounted(s: State, serial: Serial, r: Option<Registration>, clock: int, now: int, op: Op)
    requires Accounted(s, serial, r, clock) && clock <= now
    requires op.RegisterOp? && op.cert.serial == serial ==> r.None?
    ensures Accounted(Step(s, now, op), serial, NextRegistration(r, serial, now, op), now)
  {
    if r.Some? {
      DurableWithin(r.value.cert, r.value.at);
    }
  }

  lemma {:induction false} StaysAccounted(run: Run<Op>, serial: Serial)
    requires Monotone(run) && UsedOnce(run, serial)
    ensures Accounted(After(true, run), serial, Registered(run, serial), Clock(run))
  {
    match run
    case Start(_) =>
    case Then(before, now, op) =>
      StaysAccounted(before, serial);
      StepStaysAccounted(After(true, before), serial, Registered(before, serial), Clock(before), now, op);
  }

  /** For a serial used once, over a store and through any number of restarts: it validates
  exactly if a certificate stands, is unexpired, and either the process remembers it or its
  lifetime, cut to whole seconds at registration, is not over. */
  lemma OnceValidExactly(run: Run<Op>, serial: Serial, now: int)
    requires Monotone(run) && UsedOnce(run, serial) && Clock(run) <= now
    ensures Validate(After(true, run), serial, now).1 <==>
            match Registered(run, serial)
            case None => false
            case Some(Registration(cert, at, remembered)) =>
              now < cert.expiresAt && (remembered || now < DurableUntil(cert, at))
  {
    StaysAccounted(run, serial);
    if Registered(run, serial).Some? {
      DurableWithin(Registered(run, serial).value.cert, Registered(run, serial).value.at);
    }
  }

  /** The registration is that of the certificate that stands. */
  lemma {:induction false} RegisteredStands(run: Run<Op>, serial: Serial)
    requires UsedOnce(run, serial)
    ensures match Registered(run, serial)
            case None => Standing(run, serial) == {}
            case Some(r) => Standing(run, serial) == {r.cert}
  {
    if run.Then? {
      RegisteredStands(run.before, serial);
    }
  }

  /** A certificate that has been registered, restarted over, and is in the fraction of
  a second that the store cut off, stands and is unexpired but does not validate. */
  lemma RestartGap(cert: Cert, registered: int, now: int) returns (run: Run<Op>)
    requires registered <= now && DurableUntil(cert, registered) <= now < cert.expiresAt
    ensures Monotone(run) && Clock(run) <= now && UsedOnce(run, cert.serial)
    ensures cert in Standing(run, cert.serial) && !Validate(After(true, run), cert.serial, now).1
  {
    var first := Then(Start(registered), registered, RegisterOp(cert));
    run := Then(first, registered, RestartOp);
    assert Registered(first, cert.serial) == Some(Registration(cert, registered, true));
    assert Standing(first, cert.serial) == {cert};
    OnceValidExactly(run, cert.serial, now);
  }
}
