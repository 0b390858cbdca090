/** Signing over whole runs: which key signs, for how long its signatures validate,
and how stale a cached signature can be. */
module DnssecRuns {
  import opened Basics
  import opened DnssecKeys

  datatype Op =
    | GenerateOp(algorithm: Algorithm, made: Option<Material>)
    | RotateOp(batch: Made, began: int)
    | CheckOp(batch: Made, began: int)   // rotate if rotation is due
    | SignOp(request: Request)
    | ValidateOp(request: Request, signature: Bytes)

  /** What a manager is constructed with. */
  datatype Setup = Setup(config: Config, first: Material, secret: Option<Material>)

  function Step(config: Config, m: Manager, now: int, op: Op): Manager {
    match op
    case GenerateOp(algorithm, made) => m.(keys := Generate(config, m.keys, algorithm, made, now))
    case RotateOp(batch, began) => Rotate(config, m, batch, began, now)
    case CheckOp(batch, began) => CheckAndRotate(config, m, batch, began, now)
    case SignOp(request) => Sign(config, m, request, now).0
    case ValidateOp(_, _) => m
  }

  function After(setup: Setup, run: Run<Op>): Manager {
    match run
    case Start(at) => Initial(setup.config, setup.first, setup.secret, at)
    case Then(before, now, op) => Step(setup.config, After(setup, before), now, op)
  }

  /** Did the last operation of the run rotate the keys? */
  predicate Rotates(setup: Setup, run: Run<Op>) {
    run.Then? && (run.op.RotateOp? ||
                  (run.op.CheckOp? && NeedsRotation(setup.config, After(setup, run.before), run.op.began)))
  }

  /** When an operation first reads the clock: a rotation makes and ages keys then, and
  notes the time once more at its end. */
  function Began(op: Op, now: int): int {
    if op.RotateOp? || op.CheckOp? then op.began else now
  }

  /** The clock never goes back, between operations and within them. */
  predicate Timely(run: Run<Op>) {
    match run
    case Start(_) => true
    case Then(before, now, op) => Timely(before) && Clock(before) <= Began(op, now) <= now
  }

  lemma {:induction false} ContinuesTimely(later: Run<Op>, run: Run<Op>)
    requires Timely(later) && Continues(later, run)
    ensures Timely(run) && Clock(run) <= Clock(later)
  {
    if later != run {
      ContinuesTimely(later.before, run);
    }
  }

  /** When the last rotation of the run, if any, made and aged keys. */
  function LastKeyed(setup: Setup, run: Run<Op>): int {
    match run
    case Start(_) => 0
    case Then(before, _, op) => if Rotates(setup, run) then op.began else LastKeyed(setup, before)
  }

  function Added(config: Config, made: Option<Material>, now: int): seq<Key> {
    match made case None => [] case Some(material) => [NewKey(config, material, now)]
  }

  lemma GeneratedKeys(config: Config, keys: KeyStore, target: Algorithm, made: Option<Material>, now: int,
                      algorithm: Algorithm)
    ensures KeysFor(Generate(config, keys, target, made, now), algorithm) ==
            KeysFor(keys, algorithm) + if target == algorithm then Added(config, made, now) else []
  {
  }

  lemma GrownKeys(config: Config, keys: KeyStore, batch: Made, now: int, algorithm: Algorithm)
    ensures KeysFor(Grown(config, keys, batch, now), algorithm) ==
            KeysFor(keys, algorithm) + Added(config, MadeFor(batch, algorithm), now)
  {
    var one := Generate(config, keys, HmacSha256, batch.hmac, now);
    var two := Generate(config, one, RsaSha256, batch.rsa, now);
    GeneratedKeys(config, keys, HmacSha256, batch.hmac, now, algorithm);
    GeneratedKeys(config, one, RsaSha256, batch.rsa, now, algorithm);
    GeneratedKeys(config, two, EcdsaP256Sha256, batch.ecdsa, now, algorithm);
  }

  /** The key list after a rotation. */
  lemma RotatedKeys(config: Config, m: Manager, batch: Made, now: int, end: int, algorithm: Algorithm)
    ensures KeysFor(Rotate(config, m, batch, now, end).keys, algorithm) ==
            Aged(config, KeysFor(m.keys, algorithm) + Added(config, MadeFor(batch, algorithm), now), now)
  {
    GrownKeys(config, m.keys, batch, now, algorithm);
  }

  /** How one operation changes the key list of an algorithm. */
  datatype Change = Kept | Appended(material: Material) | Turned(made: Option<Material>, began: int)

  function KeyChange(setup: Setup, run: Run<Op>, algorithm: Algorithm): Change
    requires run.Then?
  {
    if run.op.GenerateOp? && run.op.algorithm == algorithm && run.op.made.Some? then Appended(run.op.made.value)
    else if Rotates(setup, run) then Turned(MadeFor(run.op.batch, algorithm), run.op.began)
    else Kept
  }

  function Changed(config: Config, keys: seq<Key>, change: Change, now: int): seq<Key> {
    match change
    case Kept => keys
    case Appended(material) => keys + [NewKey(config, material, now)]
    case Turned(made, began) => Aged(config, keys + Added(config, made, began), began)
  }

  lemma KeyListChange(setup: Setup, run: Run<Op>, algorithm: Algorithm)
    requires run.Then?
    ensures KeysFor(After(setup, run).keys, algorithm) ==
            Changed(setup.config, KeysFor(After(setup, run.before).keys, algorithm),
                    KeyChange(setup, run, algorithm), run.now)
    ensures After(setup, run).lastRotation ==
            if Rotates(setup, run) then run.now else After(setup, run.before).lastRotation
  {
    if Rotates(setup, run) {
      RotatedKeys(setup.config, After(setup, run.before), run.op.batch, run.op.began, run.now, algorithm);
    }
  }

  // ---- The selected key is stable ------------------------------------------------

  lemma {:induction false} FirstLiveAppend(a: seq<Key>, b: seq<Key>, now: int)
    ensures FirstLive(a + b, now) == if FirstLive(a, now).Some? then FirstLive(a, now) else FirstLive(b, now)
  {
    if a == [] {
      assert a + b == b;
    } else {
      FirstLiveAppend(a[1..], b, now);
      assert (a + b)[1..] == a[1..] + b;
    }
  }

  /** Ageing removes or deactivates only keys that are not live then or later. */
  lemma {:induction false} AgedFirstLive(config: Config, keys: seq<Key>, now: int, later: int)
    requires now <= later
    ensures FirstLive(Aged(config, keys, now), later) == FirstLive(keys, later)
  {
    if keys != [] {
      var last := |keys| - 1;
      var rest := if Retained(config, keys[last], now) then [Deactivated(keys[last], now)] else [];
      AgedFirstLive(config, keys[..last], now, later);
      FirstLiveAppend(Aged(config, keys[..last], now), rest, later);
      FirstLiveAppend(keys[..last], [keys[last]], later);
      assert keys[..last] + [keys[last]] == keys;
    }
  }

  /** Time alone does not change the selection before the key expires. */
  lemma {:induction false} FirstLiveLater(keys: seq<Key>, early: int, now: int)
    requires early <= now && FirstLive(keys, early).Some? && FirstLive(keys, early).value.expiresAt > now
    ensures FirstLive(keys, now) == FirstLive(keys, early)
  {
    if !IsLive(keys[0], early) {
      FirstLiveLater(keys[1..], early, now);
    }
  }

  /** No operation changes the selection. */
  lemma ChangeKeepsSelection(config: Config, keys: seq<Key>, change: Change, now: int)
    requires FirstLive(keys, now).Some? && (change.Turned? ==> change.began <= now)
    ensures FirstLive(Changed(config, keys, change, now), now) == FirstLive(keys, now)
  {
    match change
    case Kept =>
    case Appended(material) => FirstLiveAppend(keys, [NewKey(config, material, now)], now);
    case Turned(made, began) =>
      FirstLiveAppend(keys, Added(config, made, began), now);
      AgedFirstLive(config, keys + Added(config, made, began), began, now);
  }

  /** A key that is selected once stays selected until it expires, through any key
  generation, rotation and signing. */
  lemma {:induction false} KeyIsStable(setup: Setup, run: Run<Op>, later: Run<Op>, algorithm: Algorithm, now: int)
    requires Timely(later) && Continues(later, run) && Clock(later) <= now
    requires ActiveKey(After(setup, run), algorithm, Clock(run)).Some?
    requires now < ActiveKey(After(setup, run), algorithm, Clock(run)).value.expiresAt
    ensures ActiveKey(After(setup, later), algorithm, now) == ActiveKey(After(setup, run), algorithm, Clock(run))
  {
    if later == run {
      FirstLiveLater(KeysFor(After(setup, run).keys, algorithm), Clock(run), now);
    } else {
      KeyIsStable(setup, run, later.before, algorithm, later.now);
      KeyListChange(setup, later, algorithm);
      ChangeKeepsSelection(setup.config, KeysFor(After(setup, later.before).keys, algorithm),
                           KeyChange(setup, later, algorithm), later.now);
      FirstLiveLater(KeysFor(After(setup, later).keys, algorithm), later.now, now);
    }
  }

  // ---- Where signatures come from ------------------------------------------------

  /** `signature` was made at the end of `origin`, with the key then selected. */
  ghost predicate MadeAt(setup: Setup, origin: Run<Op>, request: Request, signature: Bytes) {
    var key := ActiveKey(After(setup, origin), request.algorithm, Clock(origin));
    key.Some? && signature == setup.config.mac(key.value.material, request.data)
  }

  lemma SignKeepsKeys(config: Config, m: Manager, request: Request, now: int)
    ensures Sign(config, m, request, now).0.keys == m.keys
    ensures Sign(config, m, request, now).0.lastRotation == m.lastRotation
  {
  }

  /** The last operation of the run made a signature, rather than finding one cached. */
  predicate SignsAnew(setup: Setup, run: Run<Op>, request: Request) {
    && run.Then? && run.op == SignOp(request)
    && !(setup.config.cacheEnabled && Cached(After(setup, run.before), request, run.now).Some?)
    && ActiveKey(After(setup, run.before), request.algorithm, run.now).Some?
  }

  /** The part of the run that ends with the latest signature made for the request. */
  function LastSigned(setup: Setup, run: Run<Op>, request: Request): Option<Run<Op>> {
    match run
    case Start(_) => None
    case Then(before, _, _) =>
      if SignsAnew(setup, run, request) then Some(run) else LastSigned(setup, before, request)
  }

  /** Every cached signature was made when it was cached, with the key selected then. */
  lemma {:induction false} CacheOrigin(setup: Setup, run: Run<Op>, request: Request)
    requires Timely(run) && setup.config.cacheEnabled && request in After(setup, run).cache
    ensures
      var entry, origin := After(setup, run).cache[request], LastSigned(setup, run, request);
      && origin.Some? && Continues(run, origin.value)
      && MadeAt(setup, origin.value, request, entry.signature)
      && Clock(origin.value) == entry.createdAt && entry.ttl == CacheTtl(setup.config)
  {
    match run
    case Then(before, now, op) =>
      var m := After(setup, before);
      if SignsAnew(setup, run, request) {
        SignKeepsKeys(setup.config, m, request, now);
      } else {
        CacheOrigin(setup, before, request);
      }
  }

  /** The part of the run at whose end the signature it returns was made. */
  function OriginOf(setup: Setup, run: Run<Op>, request: Request): Run<Op>
    requires Signs(setup, run, request)
  {
    var cached := LastSigned(setup, run, request);
    if cached.Some? then cached.value else run
  }

  /** The last operation of the run returned a signature. */
  predicate Signs(setup: Setup, run: Run<Op>, request: Request) {
    && run.Then? && run.op == SignOp(request)
    && Sign(setup.config, After(setup, run.before), request, run.now).1.Some?
  }

  function Signature(setup: Setup, run: Run<Op>, request: Request): Bytes
    requires Signs(setup, run, request)
  {
    Sign(setup.config, After(setup, run.before), request, run.now).1.value
  }

  /** The key a returned signature was made with. */
  function Signer(setup: Setup, run: Run<Op>, request: Request): Option<Key>
    requires Signs(setup, run, request)
  {
    var origin := OriginOf(setup, run, request);
    ActiveKey(After(setup, origin), request.algorithm, Clock(origin))
  }

  /** Every signature returned was made with a key that was selected at most the cache
  lifetime ago: less than it, if it comes from the cache. */
  lemma SignatureOrigin(setup: Setup, run: Run<Op>, request: Request)
    requires Timely(run) && Signs(setup, run, request)
    ensures
      var origin := OriginOf(setup, run, request);
      && Continues(run, origin) && MadeAt(setup, origin, request, Signature(setup, run, request))
      && (origin != run ==> setup.config.cacheEnabled && run.now - Clock(origin) < CacheTtl(setup.config))
  {
    if SignsAnew(setup, run, request) {
      SignKeepsKeys(setup.config, After(setup, run.before), request, run.now);
    } else {
      CacheOrigin(setup, run.before, request);
    }
  }

  lemma {:induction false} ContinuesTransitive(later: Run<Op>, run: Run<Op>, origin: Run<Op>)
    requires Continues(later, run) && Continues(run, origin)
    ensures Continues(later, origin)
  {
    if later != run {
      ContinuesTransitive(later.before, run, origin);
    }
  }

  /** Validating compares with what signing would answer without a cache: it accepts
  exactly that signature, refuses every other, and has no answer exactly when signing has
  none. */
  lemma ValidatesExactly(config: Config, m: Manager, request: Request, signature: Bytes, now: int)
    ensures Validate(config, m, request, signature, now) ==
            match Sign(config.(cacheEnabled := false), m, request, now).1
            case None => None
            case Some(genuine) => Some(signature == genuine)
  {
  }

  /** As long as the key a signature was made with is unexpired, validation accepts that
  signature for the request and refuses any other bytes. */
  lemma SignatureValidates(setup: Setup, run: Run<Op>, request: Request, later: Run<Op>, now: int, bytes: Bytes)
    requires Timely(later) && Continues(later, run) && Clock(later) <= now
    requires Signs(setup, run, request)
    ensures Signer(setup, run, request).Some?
    ensures now < Signer(setup, run, request).value.expiresAt ==>
              Validate(setup.config, After(setup, later), request, bytes, now) ==
              Some(bytes == Signature(setup, run, request))
  {
    var origin := OriginOf(setup, run, request);
    ContinuesTimely(later, run);
    SignatureOrigin(setup, run, request);
    ContinuesTransitive(later, run, origin);
    if now < Signer(setup, run, request).value.expiresAt {
      KeyIsStable(setup, origin, later, request.algorithm, now);
    }
  }

  // ---- What the cache is for -----------------------------------------------------------

  /** The entry made when `made` ended is still in the cache after `later`. */
  lemma {:induction false} EntryStays(setup: Setup, made: Run<Op>, later: Run<Op>, request: Request)
    requires Timely(later) && Continues(later, made) && setup.config.cacheEnabled
    requires SignsAnew(setup, made, request) && Clock(later) < made.now + CacheTtl(setup.config)
    ensures Signs(setup, made, request) && request in After(setup, later).cache
    ensures After(setup, later).cache[request] ==
            CacheEntry(Signature(setup, made, request), made.now, CacheTtl(setup.config))
  {
    if later != made {
      EntryStays(setup, made, later.before, request);
      ContinuesTimely(later.before, made);
    }
  }

  /** A signature that was made is served again for the whole lifetime of the cache,
  whatever is generated, rotated or signed meanwhile. */
  lemma CacheServesForTtl(setup: Setup, made: Run<Op>, later: Run<Op>, request: Request, now: int)
    requires Timely(later) && Continues(later, made) && setup.config.cacheEnabled
    requires SignsAnew(setup, made, request) && Clock(later) <= now < made.now + CacheTtl(setup.config)
    ensures Signs(setup, made, request)
    ensures Sign(setup.config, After(setup, later), request, now).1 == Some(Signature(setup, made, request))
  {
    EntryStays(setup, made, later, request);
    ContinuesTimely(later, made);
  }

  /** A new signature drives every stale entry from the cache. */
  lemma SigningDropsStale(setup: Setup, run: Run<Op>, request: Request, other: Request)
    requires SignsAnew(setup, run, request) && setup.config.cacheEnabled
    requires other in After(setup, run).cache
    ensures
      var entry := After(setup, run).cache[other];
      entry.createdAt <= run.now < entry.createdAt + entry.ttl
  {
  }

  /** With caching switched off nothing is ever cached. */
  lemma {:induction false} NothingCachedWhenOff(setup: Setup, run: Run<Op>)
    requires !setup.config.cacheEnabled
    ensures After(setup, run).cache == map[]
  {
    if run.Then? {
      NothingCachedWhenOff(setup, run.before);
    }
  }

  // ---- The first keys --------------------------------------------------------------------

  /** The material a new manager signs with. */
  function FirstMaterial(setup: Setup, algorithm: Algorithm): Option<Material> {
    if algorithm == setup.config.defaultAlgorithm then Some(setup.first)
    else if algorithm == HmacSha256 then setup.secret
    else None
  }

  /** From construction until an interval later, the default algorithm signs with the first
  key and HMAC with the configured secret, whatever happens meanwhile; before anything
  happens nothing else signs. */
  lemma FirstKeysSign(setup: Setup, run: Run<Op>, start: Run<Op>, algorithm: Algorithm, now: int)
    requires Timely(run) && Continues(run, start) && start.Start? && Clock(run) <= now
    requires now < start.at + Interval(setup.config)
    ensures
      var key := ActiveKey(After(setup, run), algorithm, now);
      match FirstMaterial(setup, algorithm)
      case Some(material) => key.Some? && key.value.material == material
      case None => run == start ==> key == None
  {
    ContinuesTimely(run, start);
    if FirstMaterial(setup, algorithm).Some? {
      assert ActiveKey(After(setup, start), algorithm, start.at).Some?;
      KeyIsStable(setup, start, run, algorithm, now);
    }
  }

  // ---- The signing key is still there ----------------------------------------------

  /** The store has the key, active or not. */
  predicate Holds(keys: seq<Key>, key: Key) {
    exists i :: 0 <= i < |keys| && SameKey(keys[i], key)
  }

  predicate SameKey(a: Key, b: Key) {
    a.material == b.material && a.createdAt == b.createdAt && a.expiresAt == b.expiresAt
  }

  lemma {:induction false} AgedHolds(config: Config, keys: seq<Key>, key: Key, now: int)
    requires Holds(keys, key) && now < key.expiresAt + Grace(config)
    ensures Holds(Aged(config, keys, now), key)
  {
    var last := |keys| - 1;
    var aged := Aged(config, keys, now);
    if SameKey(keys[last], key) {
      assert SameKey(aged[|aged| - 1], key);
    } else {
      assert Holds(keys[..last], key) by {
        var i :| 0 <= i < |keys| && SameKey(keys[i], key);
        assert keys[..last][i] == keys[i];
      }
      AgedHolds(config, keys[..last], key, now);
      HoldsMore(Aged(config, keys[..last], now), aged, key);
    }
  }

  lemma HoldsMore(keys: seq<Key>, more: seq<Key>, key: Key)
    requires Holds(keys, key) && keys <= more
    ensures Holds(more, key)
  {
    var i :| 0 <= i < |keys| && SameKey(keys[i], key);
    assert more[i] == keys[i];
  }

  lemma {:induction false} FirstLiveHeld(keys: seq<Key>, now: int)
    requires FirstLive(keys, now).Some?
    ensures Holds(keys, FirstLive(keys, now).value)
  {
    if IsLive(keys[0], now) {
      assert SameKey(keys[0], keys[0]);
    } else {
      FirstLiveHeld(keys[1..], now);
      var i :| 0 <= i < |keys[1..]| && SameKey(keys[1..][i], FirstLive(keys, now).value);
      assert keys[i + 1] == keys[1..][i];
    }
  }

  lemma ChangeHolds(config: Config, keys: seq<Key>, change: Change, key: Key, now: int)
    requires Holds(keys, key) && now < key.expiresAt + Grace(config) && (change.Turned? ==> change.began <= now)
    ensures Holds(Changed(config, keys, change, now), key)
  {
    match change
    case Kept =>
    case Appended(material) => HoldsMore(keys, keys + [NewKey(config, material, now)], key);
    case Turned(made, began) =>
      HoldsMore(keys, keys + Added(config, made, began), key);
      AgedHolds(config, keys + Added(config, made, began), key, began);
  }

  /** A selected key stays in the store until its grace period is over. */
  lemma {:induction false} KeyIsRetained(setup: Setup, run: Run<Op>, later: Run<Op>, algorithm: Algorithm)
    requires Timely(later) && Continues(later, run)
    requires ActiveKey(After(setup, run), algorithm, Clock(run)).Some?
    requires Clock(later) < ActiveKey(After(setup, run), algorithm, Clock(run)).value.expiresAt + Grace(setup.config)
    ensures Holds(KeysFor(After(setup, later).keys, algorithm),
                  ActiveKey(After(setup, run), algorithm, Clock(run)).value)
  {
    if later == run {
      FirstLiveHeld(KeysFor(After(setup, run).keys, algorithm), Clock(run));
    } else {
      KeyIsRetained(setup, run, later.before, algorithm);
      KeyListChange(setup, later, algorithm);
      ChangeHolds(setup.config, KeysFor(After(setup, later.before).keys, algorithm), KeyChange(setup, later, algorithm),
                  ActiveKey(After(setup, run), algorithm, Clock(run)).value, later.now);
    }
  }

  lemma {:induction false} SelectedIsLive(keys: seq<Key>, now: int)
    requires FirstLive(keys, now).Some?
    ensures IsLive(FirstLive(keys, now).value, now)
  {
    if !IsLive(keys[0], now) {
      SelectedIsLive(keys[1..], now);
    }
  }

  /** The key a returned signature was made with is in the store. */
  predicate SignerStored(setup: Setup, run: Run<Op>, request: Request)
    requires Signs(setup, run, request)
  {
    && Signer(setup, run, request).Some?
    && Holds(KeysFor(After(setup, run).keys, request.algorithm), Signer(setup, run, request).value)
  }

  /** If signatures are cached no longer than keys are kept, the key of every signature
  returned is still in the store. */
  lemma SigningKeyStillStored(setup: Setup, run: Run<Op>, request: Request)
    requires Timely(run) && Signs(setup, run, request)
    requires !setup.config.cacheEnabled || setup.config.signatureCacheTtl <= setup.config.gracePeriod
    ensures SignerStored(setup, run, request)
  {
    var origin := OriginOf(setup, run, request);
    SignatureOrigin(setup, run, request);
    SelectedIsLive(KeysFor(After(setup, origin).keys, request.algorithm), Clock(origin));
    KeyIsRetained(setup, origin, run, request.algorithm);
  }
}
