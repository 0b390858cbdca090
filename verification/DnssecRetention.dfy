/** How long keys are kept and when one is available: the grace period against the
cache, what a rotation leaves, and signing right after a rotation check. */
module DnssecRetention {
  import opened Basics
  import opened DnssecKeys
  import opened DnssecRuns

  lemma {:induction false} AgedMembers(config: Config, keys: seq<Key>, now: int, j: nat) returns (i: nat)
    requires j < |Aged(config, keys, now)|
    ensures i < |keys| && Aged(config, keys, now)[j] == Deactivated(keys[i], now) && Retained(config, keys[i], now)
  {
    var last := |keys| - 1;
    if j < |Aged(config, keys[..last], now)| {
      i := AgedMembers(config, keys[..last], now, j);
    } else {
      i := last;
    }
  }

  /** No key of the list expires after `bound`. */
  predicate ExpireBy(keys: seq<Key>, bound: int) {
    forall i :: 0 <= i < |keys| ==> keys[i].expiresAt <= bound
  }

  lemma AgedExpireBy(config: Config, keys: seq<Key>, now: int, bound: int)
    requires ExpireBy(keys, bound)
    ensures ExpireBy(Aged(config, keys, now), bound)
  {
    forall j | 0 <= j < |Aged(config, keys, now)| ensures Aged(config, keys, now)[j].expiresAt <= bound {
      var i := AgedMembers(config, keys, now, j);
    }
  }

  lemma ChangeExpireBy(config: Config, keys: seq<Key>, change: Change, early: int, now: int)
    requires ExpireBy(keys, early) && early <= now + Interval(config) && (change.Turned? ==> change.began <= now)
    ensures ExpireBy(Changed(config, keys, change, now), now + Interval(config))
  {
    if change.Turned? {
      AgedExpireBy(config, keys + Added(config, change.made, change.began), change.began, now + Interval(config));
    }
  }

  lemma {:induction false} KeysExpireBy(setup: Setup, run: Run<Op>, algorithm: Algorithm)
    requires Timely(run)
    ensures ExpireBy(KeysFor(After(setup, run).keys, algorithm), Clock(run) + Interval(setup.config))
  {
    if run.Then? {
      KeysExpireBy(setup, run.before, algorithm);
      KeyListChange(setup, run, algorithm);
      ChangeExpireBy(setup.config, KeysFor(After(setup, run.before).keys, algorithm),
                     KeyChange(setup, run, algorithm), Clock(run.before) + Interval(setup.config), run.now);
    }
  }

  // ---- Cache lifetime against grace period -----------------------------------------

  /** In every run, the key of every signature returned is still stored. */
  ghost predicate SignersKept(config: Config) {
    forall first: Material, secret: Option<Material>, run: Run<Op>, request: Request ::
      var setup := Setup(config, first, secret);
      Timely(run) && Signs(setup, run, request) ==> SignerStored(setup, run, request)
  }

  lemma {:induction false} NoneLive(keys: seq<Key>, now: int)
    requires ExpireBy(keys, now)
    ensures FirstLive(keys, now) == None
  {
    if keys != [] {
      NoneLive(keys[1..], now);
    }
  }

  /** Keys that expire as they are made never sign. */
  lemma ZeroIntervalNeverSigns(setup: Setup, run: Run<Op>, request: Request)
    requires setup.config.rotationInterval == 0 && Timely(run)
    ensures !Signs(setup, run, request)
  {
    if Signs(setup, run, request) {
      var origin := OriginOf(setup, run, request);
      SignatureOrigin(setup, run, request);
      ContinuesTimely(run, origin);
      KeysExpireBy(setup, origin, request.algorithm);
      NoneLive(KeysFor(After(setup, origin).keys, request.algorithm), Clock(origin));
    }
  }

  /** The entry that signing just before the first key expires leaves in the cache. */
  function LateEntry(config: Config, one: Material, data: Bytes): CacheEntry {
    CacheEntry(config.mac(one, data), Interval(config) - 1, CacheTtl(config))
  }

  /** Signing with the first key, just before it expires, fills the cache. */
  lemma SignedLate(config: Config, one: Material, data: Bytes)
    requires config.cacheEnabled && config.rotationInterval >= 1 && config.signatureCacheTtl >= 1
    ensures
      var setup, request := Setup(config, one, None), Request(config.defaultAlgorithm, data);
      var m := After(setup, Then(Start(0), Interval(config) - 1, SignOp(request)));
      && KeysFor(m.keys, request.algorithm) == [NewKey(config, one, 0)]
      && request in m.cache && m.cache[request] == LateEntry(config, one, data)
      && SignsAnew(setup, Then(Start(0), Interval(config) - 1, SignOp(request)), request)
  {
    var setup, request := Setup(config, one, None), Request(config.defaultAlgorithm, data);
    var m := After(setup, Start(0));
    assert KeysFor(m.keys, request.algorithm) == [NewKey(config, one, 0)];
    assert ActiveKey(m, request.algorithm, Interval(config) - 1) == Some(NewKey(config, one, 0));
    SignKeepsKeys(config, m, request, Interval(config) - 1);
  }

  function AllMade(material: Material): Made {
    Made(Some(material), Some(material), Some(material))
  }

  /** When the grace period of the first key is over. */
  function Gone(config: Config): int {
    Interval(config) + Grace(config)
  }

  lemma AgedPair(config: Config, old': Key, new': Key, now: int)
    requires old'.expiresAt + Grace(config) <= now < new'.expiresAt
    ensures Aged(config, [old'] + [new'], now) == [new']
  {
    var keys := [old'] + [new'];
    assert keys[..1] == [old'];
    assert Aged(config, [old'][..0], now) == [];
    assert Aged(config, [old'], now) == [];
  }

  /** A rotation at that moment replaces the key but not what is cached. */
  lemma RotationReplaces(setup: Setup, signed: Run<Op>, algorithm: Algorithm, two: Material)
    requires setup.config.rotationInterval >= 1
    requires KeysFor(After(setup, signed).keys, algorithm) == [NewKey(setup.config, setup.first, 0)]
    ensures
      var m := After(setup, Then(signed, Gone(setup.config), RotateOp(AllMade(two), Gone(setup.config))));
      && KeysFor(m.keys, algorithm) == [NewKey(setup.config, two, Gone(setup.config))]
      && m.cache == After(setup, signed).cache
  {
    var gone := Gone(setup.config);
    KeyListChange(setup, Then(signed, gone, RotateOp(AllMade(two), gone)), algorithm);
    AgedPair(setup.config, NewKey(setup.config, setup.first, 0), NewKey(setup.config, two, gone), gone);
  }

  lemma ServedFromCache(config: Config, m: Manager, request: Request, one: Material)
    requires config.cacheEnabled && config.signatureCacheTtl > config.gracePeriod
    requires request in m.cache && m.cache[request] == LateEntry(config, one, request.data)
    ensures Cached(m, request, Gone(config)) == Some(config.mac(one, request.data))
    ensures Sign(config, m, request, Gone(config)) == (m, Some(config.mac(one, request.data)))
  {
  }

  /** A signature that was made for the first key, and is served when the store only has
  a key made since, is not that of a stored key. */
  lemma SignerIsGone(setup: Setup, signed: Run<Op>, run: Run<Op>, request: Request, two: Material)
    requires setup.config.rotationInterval >= 1
    requires SignsAnew(setup, signed, request) && Clock(signed) == Interval(setup.config) - 1
    requires KeysFor(After(setup, signed).keys, request.algorithm) == [NewKey(setup.config, setup.first, 0)]
    requires run.Then? && run.before.Then? && run.before.before == signed && !run.before.op.SignOp?
    requires !SignsAnew(setup, run, request) && Signs(setup, run, request)
    requires KeysFor(After(setup, run).keys, request.algorithm) == [NewKey(setup.config, two, Gone(setup.config))]
    ensures !SignerStored(setup, run, request)
  {
    assert LastSigned(setup, run.before, request) == Some(signed);
    assert OriginOf(setup, run, request) == signed;
    assert Signer(setup, run, request) == Some(NewKey(setup.config, setup.first, 0));
  }

  lemma ServedAtEnd(setup: Setup, rotated: Run<Op>, request: Request, two: Material) returns (run: Run<Op>)
    requires
      var config, m := setup.config, After(setup, rotated);
      && config.cacheEnabled && config.signatureCacheTtl > config.gracePeriod
      && Timely(rotated) && Clock(rotated) == Gone(config)
      && request in m.cache && m.cache[request] == LateEntry(config, setup.first, request.data)
      && KeysFor(m.keys, request.algorithm) == [NewKey(config, two, Gone(config))]
    ensures run == Then(rotated, Gone(setup.config), SignOp(request)) && Timely(run)
    ensures Signs(setup, run, request) && !SignsAnew(setup, run, request)
    ensures Signature(setup, run, request) == setup.config.mac(setup.first, request.data)
    ensures KeysFor(After(setup, run).keys, request.algorithm) == [NewKey(setup.config, two, Gone(setup.config))]
  {
    run := Then(rotated, Gone(setup.config), SignOp(request));
    ServedFromCache(setup.config, After(setup, rotated), request, setup.first);
  }

  /** A signature cached just before its key expires is served after the key is gone. */
  lemma StaleSignature(config: Config, one: Material, two: Material, data: Bytes) returns (run: Run<Op>)
    requires config.cacheEnabled && config.rotationInterval >= 1 && config.signatureCacheTtl > config.gracePeriod
    ensures
      var setup, request := Setup(config, one, None), Request(config.defaultAlgorithm, data);
      && Timely(run) && Signs(setup, run, request) && !SignerStored(setup, run, request)
      && Signature(setup, run, request) == config.mac(one, data)
      && KeysFor(After(setup, run).keys, request.algorithm) == [NewKey(config, two, run.now)]
  {
    var setup, request := Setup(config, one, None), Request(config.defaultAlgorithm, data);
    var signed := Then(Start(0), Interval(config) - 1, SignOp(request));
    var rotated := Then(signed, Gone(config), RotateOp(AllMade(two), Gone(config)));
    SignedLate(config, one, data);
    RotationReplaces(setup, signed, request.algorithm, two);
    run := ServedAtEnd(setup, rotated, request, two);
    SignerIsGone(setup, signed, run, request, two);
  }

  /** The key of every signature returned is still stored, in every run, exactly when
  signatures are cached no longer than keys are kept (or never made or cached). */
  lemma SignersKeptExactly(config: Config)
    ensures SignersKept(config) <==>
            || !config.cacheEnabled || config.rotationInterval == 0
            || config.signatureCacheTtl <= config.gracePeriod
  {
    if config.cacheEnabled && config.rotationInterval >= 1 && config.signatureCacheTtl > config.gracePeriod {
      var run := StaleSignature(config, 0, 0, []);
      assert !SignersKept(config);
    } else {
      forall first: Material, secret: Option<Material>, run: Run<Op>, request: Request |
        Timely(run) && Signs(Setup(config, first, secret), run, request)
        ensures SignerStored(Setup(config, first, secret), run, request)
      {
        if config.rotationInterval == 0 {
          ZeroIntervalNeverSigns(Setup(config, first, secret), run, request);
        } else {
          SigningKeyStillStored(Setup(config, first, secret), run, request);
        }
      }
    }
  }

  // ---- Validating what was just signed -------------------------------------------------

  /** In every run, every signature validates at the moment it is returned. */
  ghost predicate SelfValidates(config: Config) {
    forall first: Material, secret: Option<Material>, run: Run<Op>, request: Request ::
      var setup := Setup(config, first, secret);
      Timely(run) && Signs(setup, run, request) ==> ValidatesNow(setup, run, request)
  }

  predicate ValidatesNow(setup: Setup, run: Run<Op>, request: Request)
    requires Signs(setup, run, request)
  {
    Validate(setup.config, After(setup, run), request, Signature(setup, run, request), run.now) == Some(true)
  }

  /** A signature that was not cached validates. */
  lemma AnewValidates(setup: Setup, run: Run<Op>, request: Request)
    requires Timely(run) && SignsAnew(setup, run, request)
    ensures Signs(setup, run, request) && ValidatesNow(setup, run, request)
  {
    SignatureValidates(setup, run, request, run, run.now, Signature(setup, run, request));
    SignKeepsKeys(setup.config, After(setup, run.before), request, run.now);
    SelectedIsLive(KeysFor(After(setup, run).keys, request.algorithm), run.now);
  }

  /** If entries expire as they are made, every signature is made anew. */
  lemma ZeroTtlSignsAnew(setup: Setup, run: Run<Op>, request: Request)
    requires Timely(run) && Signs(setup, run, request)
    requires !setup.config.cacheEnabled || setup.config.signatureCacheTtl == 0
    ensures SignsAnew(setup, run, request)
  {
    if setup.config.cacheEnabled && request in After(setup, run.before).cache {
      CacheOrigin(setup, run.before, request);
    }
  }

  /** A cached signature is served at the instant its key expires, when no key is left to
  validate it. */
  lemma ServedAtExpiry(config: Config, one: Material, data: Bytes) returns (run: Run<Op>)
    requires config.cacheEnabled && config.rotationInterval >= 1 && config.signatureCacheTtl >= 1
    ensures
      var setup, request := Setup(config, one, None), Request(config.defaultAlgorithm, data);
      && Timely(run) && Signs(setup, run, request)
      && Validate(config, After(setup, run), request, Signature(setup, run, request), run.now) == None
  {
    var setup, request := Setup(config, one, None), Request(config.defaultAlgorithm, data);
    var signed := Then(Start(0), Interval(config) - 1, SignOp(request));
    run := Then(signed, Interval(config), SignOp(request));
    SignedLate(config, one, data);
    assert Cached(After(setup, signed), request, Interval(config)).Some?;
    assert KeysFor(After(setup, run).keys, request.algorithm) == [NewKey(config, one, 0)];
    NoneLive([NewKey(config, one, 0)], Interval(config));
  }

  /** Signing and then validating succeeds in every run exactly when nothing is cached, or
  nothing is ever signed. */
  lemma SelfValidatesExactly(config: Config)
    ensures SelfValidates(config) <==>
            !config.cacheEnabled || config.rotationInterval == 0 || config.signatureCacheTtl == 0
  {
    if config.cacheEnabled && config.rotationInterval >= 1 && config.signatureCacheTtl >= 1 {
      var run := ServedAtExpiry(config, 0, []);
      assert !ValidatesNow(Setup(config, 0, None), run, Request(config.defaultAlgorithm, []));
    } else {
      forall first: Material, secret: Option<Material>, run: Run<Op>, request: Request |
        Timely(run) && Signs(Setup(config, first, secret), run, request)
        ensures ValidatesNow(Setup(config, first, secret), run, request)
      {
        if config.rotationInterval == 0 {
          ZeroIntervalNeverSigns(Setup(config, first, secret), run, request);
        } else {
          ZeroTtlSignsAnew(Setup(config, first, secret), run, request);
          AnewValidates(Setup(config, first, secret), run, request);
        }
      }
    }
  }

  // ---- What a rotation leaves ----------------------------------------------------------

  function StartOf(run: Run<Op>): int {
    match run
    case Start(at) => at
    case Then(before, _, _) => StartOf(before)
  }

  /** Active exactly if unexpired at `rotation`, and not past the grace period then. */
  predicate Exact(config: Config, key: Key, rotation: int) {
    && (key.isActive <==> rotation <= key.expiresAt)
    && rotation < key.expiresAt + Grace(config)
  }

  predicate AllExact(config: Config, keys: seq<Key>, rotation: int) {
    forall i :: 0 <= i < |keys| ==> Exact(config, keys[i], rotation)
  }

  lemma AgedAreExact(config: Config, keys: seq<Key>, rotation: int, now: int)
    requires AllExact(config, keys, rotation) && rotation <= now
    ensures AllExact(config, Aged(config, keys, now), now)
  {
    forall j | 0 <= j < |Aged(config, keys, now)| ensures Exact(config, Aged(config, keys, now)[j], now) {
      var i := AgedMembers(config, keys, now, j);
    }
  }

  lemma ChangeKeepsExact(config: Config, keys: seq<Key>, change: Change, rotation: int, now: int)
    requires AllExact(config, keys, rotation) && rotation <= now && config.rotationInterval >= 1
    requires change.Turned? ==> rotation <= change.began
    ensures AllExact(config, Changed(config, keys, change, now), if change.Turned? then change.began else rotation)
  {
    if change.Turned? {
      AgedAreExact(config, keys + Added(config, change.made, change.began), rotation, change.began);
    }
  }

  /** In every reachable state a stored key is active exactly if it had not expired at
  the last rotation, and every key past its grace period by then is gone. */
  lemma {:induction false} FlagsAreExact(setup: Setup, run: Run<Op>, algorithm: Algorithm)
    requires Timely(run) && StartOf(run) >= 0 && setup.config.rotationInterval >= 1
    ensures LastKeyed(setup, run) <= After(setup, run).lastRotation <= Clock(run)
    ensures AllExact(setup.config, KeysFor(After(setup, run).keys, algorithm), LastKeyed(setup, run))
  {
    if run.Then? {
      FlagsAreExact(setup, run.before, algorithm);
      KeyListChange(setup, run, algorithm);
      ChangeKeepsExact(setup.config, KeysFor(After(setup, run.before).keys, algorithm),
                       KeyChange(setup, run, algorithm), LastKeyed(setup, run.before), run.now);
    }
  }

  // ---- When a key is available -----------------------------------------------------------

  /** Every rotation of the run obtained key material for every algorithm. */
  predicate EveryKeyMade(setup: Setup, run: Run<Op>) {
    run.Then? ==>
      && EveryKeyMade(setup, run.before)
      && (Rotates(setup, run) ==> forall algorithm :: MadeFor(run.op.batch, algorithm).Some?)
  }

  predicate HasRotated(setup: Setup, run: Run<Op>) {
    run.Then? && (Rotates(setup, run) || HasRotated(setup, run.before))
  }

  predicate NoExtraKeys(run: Run<Op>) {
    run.Then? ==> !run.op.GenerateOp? && NoExtraKeys(run.before)
  }

  /** An active key that expires at `expiry`. */
  predicate HasKeyUntil(keys: seq<Key>, expiry: int) {
    exists i :: 0 <= i < |keys| && keys[i].isActive && keys[i].expiresAt == expiry
  }

  lemma {:induction false} SomeLive(keys: seq<Key>, expiry: int, now: int)
    requires HasKeyUntil(keys, expiry) && now < expiry
    ensures FirstLive(keys, now).Some?
  {
    if !IsLive(keys[0], now) {
      var i :| 0 <= i < |keys| && keys[i].isActive && keys[i].expiresAt == expiry;
      assert keys[1..][i - 1] == keys[i];
      SomeLive(keys[1..], expiry, now);
    }
  }

  /** A rotation leaves a key that lives for a full interval. */
  lemma TurnedHasKey(config: Config, keys: seq<Key>, made: Option<Material>, began: int, now: int)
    requires made.Some? && config.rotationInterval >= 1
    ensures HasKeyUntil(Changed(config, keys, Turned(made, began), now), began + Interval(config))
  {
    var key, aged := NewKey(config, made.value, began), Changed(config, keys, Turned(made, began), now);
    assert (keys + [key])[..|keys|] == keys;
    assert aged[|aged| - 1] == key;
  }

  /** No operation takes away a key before it expires. */
  lemma ChangeKeepsKey(config: Config, keys: seq<Key>, change: Change, now: int, expiry: int)
    requires HasKeyUntil(keys, expiry) && (change.Turned? ==> change.began < expiry)
    ensures HasKeyUntil(Changed(config, keys, change, now), expiry)
  {
    match change
    case Kept =>
    case Appended(material) => KeyUntilMore(keys, keys + [NewKey(config, material, now)], expiry);
    case Turned(made, began) =>
      KeyUntilMore(keys, keys + Added(config, made, began), expiry);
      AgedKeyUntil(config, keys + Added(config, made, began), began, expiry);
  }

  lemma KeyUntilMore(keys: seq<Key>, more: seq<Key>, expiry: int)
    requires HasKeyUntil(keys, expiry) && keys <= more
    ensures HasKeyUntil(more, expiry)
  {
    var i :| 0 <= i < |keys| && keys[i].isActive && keys[i].expiresAt == expiry;
    assert more[i] == keys[i];
  }

  lemma {:induction false} AgedKeyUntil(config: Config, keys: seq<Key>, now: int, expiry: int)
    requires HasKeyUntil(keys, expiry) && now < expiry
    ensures HasKeyUntil(Aged(config, keys, now), expiry)
  {
    var last := |keys| - 1;
    var aged := Aged(config, keys, now);
    if keys[last].isActive && keys[last].expiresAt == expiry {
      assert aged[|aged| - 1] == keys[last];
    } else {
      var i :| 0 <= i < |keys| && keys[i].isActive && keys[i].expiresAt == expiry;
      assert keys[..last][i] == keys[i];
      AgedKeyUntil(config, keys[..last], now, expiry);
      KeyUntilMore(Aged(config, keys[..last], now), aged, expiry);
    }
  }

  /** Since the last rotation every algorithm has had a key that lives for a full
  interval from the moment the rotation began. */
  lemma {:induction false} LastRotationKey(setup: Setup, run: Run<Op>, algorithm: Algorithm)
    requires Timely(run) && EveryKeyMade(setup, run) && HasRotated(setup, run) && setup.config.rotationInterval >= 1
    ensures LastKeyed(setup, run) <= After(setup, run).lastRotation <= Clock(run)
    ensures HasKeyUntil(KeysFor(After(setup, run).keys, algorithm), LastKeyed(setup, run) + Interval(setup.config))
  {
    var keys := KeysFor(After(setup, run.before).keys, algorithm);
    KeyListChange(setup, run, algorithm);
    if Rotates(setup, run) {
      TurnedHasKey(setup.config, keys, MadeFor(run.op.batch, algorithm), run.op.began, run.now);
    } else {
      LastRotationKey(setup, run.before, algorithm);
      ChangeKeepsKey(setup.config, keys, KeyChange(setup, run, algorithm), run.now,
                     LastKeyed(setup, run) + Interval(setup.config));
    }
  }

  /** Without extra keys, none lives longer. */
  lemma {:induction false} NoLaterKey(setup: Setup, run: Run<Op>, algorithm: Algorithm)
    requires Timely(run) && HasRotated(setup, run) && NoExtraKeys(run)
    ensures ExpireBy(KeysFor(After(setup, run).keys, algorithm), LastKeyed(setup, run) + Interval(setup.config))
  {
    KeyListChange(setup, run, algorithm);
    if Rotates(setup, run) {
      KeysExpireBy(setup, run.before, algorithm);
      ChangeExpireBy(setup.config, KeysFor(After(setup, run.before).keys, algorithm), KeyChange(setup, run, algorithm),
                     Clock(run.before) + Interval(setup.config), run.op.began);
    } else {
      NoLaterKey(setup, run.before, algorithm);
    }
  }

  /** Right after a rotation check a key is available for every algorithm if less than an
  interval has passed since the last rotation began; unless extra keys were generated,
  only then. If there is none, either rotation was not yet due, because less or no more
  than an interval has passed since the last rotation ended, or it took an interval. */
  lemma AvailableAfterCheck(setup: Setup, run: Run<Op>, algorithm: Algorithm)
    requires Timely(run) && EveryKeyMade(setup, run) && HasRotated(setup, run) && setup.config.rotationInterval >= 1
    requires run.Then? && run.op.CheckOp?
    ensures
      var m, until := After(setup, run), LastKeyed(setup, run) + Interval(setup.config);
      && (run.now < until ==> ActiveKey(m, algorithm, run.now).Some?)
      && (NoExtraKeys(run) ==> (ActiveKey(m, algorithm, run.now).Some? <==> run.now < until))
      && (ActiveKey(m, algorithm, run.now).None? ==>
            || (!Rotates(setup, run) && run.op.began <= m.lastRotation + Interval(setup.config))
            || (Rotates(setup, run) && run.now >= run.op.began + Interval(setup.config)))
  {
    var m, until := After(setup, run), LastKeyed(setup, run) + Interval(setup.config);
    LastRotationKey(setup, run, algorithm);
    KeyListChange(setup, run, algorithm);
    if run.now < until {
      SomeLive(KeysFor(m.keys, algorithm), until, run.now);
    } else if NoExtraKeys(run) {
      NoLaterKey(setup, run, algorithm);
      NoneLive(KeysFor(m.keys, algorithm), run.now);
    }
  }

  /** A rotation that begins at `began` and ends at `ended`, and a check at `now`. */
  function KeylessRun(began: int, ended: int, now: int): Run<Op> {
    Then(Then(Start(began), ended, RotateOp(AllMade(0), began)), now, CheckOp(AllMade(0), now))
  }

  /** For every rotation and every moment from an interval after its beginning to an
  interval after its end: a check at that moment leaves all algorithms without a key. */
  lemma KeylessGap(setup: Setup, began: int, ended: int, now: int, algorithm: Algorithm)
    requires setup.config.rotationInterval >= 1 && began <= ended
    requires began + Interval(setup.config) <= now && ended <= now <= ended + Interval(setup.config)
    ensures
      var run := KeylessRun(began, ended, now);
      && Timely(run) && EveryKeyMade(setup, run) && HasRotated(setup, run)
      && ActiveKey(After(setup, run), algorithm, now) == None
  {
    var run := KeylessRun(began, ended, now);
    var rotated := run.before;
    assert forall a :: MadeFor(AllMade(0), a).Some?;
    assert Timely(rotated.before) && NoExtraKeys(rotated.before) && EveryKeyMade(setup, rotated.before);
    assert Rotates(setup, rotated) && Timely(rotated) && NoExtraKeys(rotated) && EveryKeyMade(setup, rotated);
    assert After(setup, rotated).lastRotation == ended && !Rotates(setup, run);
    assert LastKeyed(setup, run) == LastKeyed(setup, rotated) == began;
    AvailableAfterCheck(setup, run, algorithm);
  }

  /** From a rotation on, every algorithm has a live key until an interval after it began,
  whatever else happens. */
  lemma AvailableForInterval(setup: Setup, run: Run<Op>, later: Run<Op>, algorithm: Algorithm, now: int)
    requires Timely(later) && Continues(later, run) && Rotates(setup, run) && setup.config.rotationInterval >= 1
    requires MadeFor(run.op.batch, algorithm).Some?
    requires Clock(later) <= now < run.op.began + Interval(setup.config)
    ensures ActiveKey(After(setup, later), algorithm, now).Some?
  {
    RotationKeyLasts(setup, run, later, algorithm);
    SomeLive(KeysFor(After(setup, later).keys, algorithm), run.op.began + Interval(setup.config), now);
  }

  lemma {:induction false} RotationKeyLasts(setup: Setup, run: Run<Op>, later: Run<Op>, algorithm: Algorithm)
    requires Timely(later) && Continues(later, run) && Rotates(setup, run) && setup.config.rotationInterval >= 1
    requires MadeFor(run.op.batch, algorithm).Some?
    requires Clock(later) < run.op.began + Interval(setup.config)
    ensures HasKeyUntil(KeysFor(After(setup, later).keys, algorithm), run.op.began + Interval(setup.config))
  {
    KeyListChange(setup, later, algorithm);
    var keys := KeysFor(After(setup, later.before).keys, algorithm);
    if later == run {
      TurnedHasKey(setup.config, keys, MadeFor(run.op.batch, algorithm), run.op.began, run.now);
    } else {
      RotationKeyLasts(setup, run, later.before, algorithm);
      ChangeKeepsKey(setup.config, keys, KeyChange(setup, later, algorithm), later.now,
                     run.op.began + Interval(setup.config));
    }
  }
}
