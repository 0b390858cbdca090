/** How many keys an algorithm keeps when it is rotated only as rotations fall due, and
that it can be as many. */
module DnssecKeyCount {
  import opened Arithmetic
  import opened Basics
  import opened DnssecKeys
  import opened DnssecRetention
  import opened DnssecRuns

  /** Keys change only through rotation checks. */
  predicate OnlyChecks(run: Run<Op>) {
    run.Then? ==> !run.op.GenerateOp? && !run.op.RotateOp? && OnlyChecks(run.before)
  }

  /** Keys made more than an interval apart, the last no later than `bound`. */
  predicate Apart(config: Config, keys: seq<Key>, bound: int) {
    keys != [] ==>
      var last := keys[|keys| - 1].createdAt;
      last <= bound && Apart(config, keys[..|keys| - 1], last - Interval(config) - 1)
  }

  lemma ApartLater(config: Config, keys: seq<Key>, bound: int, later: int)
    requires Apart(config, keys, bound) && bound <= later
    ensures Apart(config, keys, later)
  {
  }

  lemma {:induction false} AgedApart(config: Config, keys: seq<Key>, bound: int, now: int)
    requires Apart(config, keys, bound)
    ensures Apart(config, Aged(config, keys, now), bound)
  {
    if keys != [] {
      var last := |keys| - 1;
      var kept := Aged(config, keys[..last], now);
      AgedApart(config, keys[..last], keys[last].createdAt - Interval(config) - 1, now);
      if Retained(config, keys[last], now) {
        assert (kept + [Deactivated(keys[last], now)])[..|kept|] == kept;
      } else {
        assert Aged(config, keys, now) == kept;
        ApartLater(config, kept, keys[last].createdAt - Interval(config) - 1, bound);
      }
    }
  }

  lemma {:induction false} ApartSpan(config: Config, keys: seq<Key>, bound: int)
    requires keys != [] && Apart(config, keys, bound)
    ensures keys[0].createdAt + (|keys| - 1) * (Interval(config) + 1) <= bound
  {
    if |keys| > 1 {
      var init := keys[..|keys| - 1];
      ApartSpan(config, init, keys[|keys| - 1].createdAt - Interval(config) - 1);
      assert (|keys| - 1) * (Interval(config) + 1) == (|init| - 1) * (Interval(config) + 1) + Interval(config) + 1;
    }
  }

  /** Keys of due rotations, none past its grace period at the last one. */
  predicate Chain(config: Config, keys: seq<Key>, rotation: int) {
    && Apart(config, keys, rotation)
    && forall i :: 0 <= i < |keys| ==>
         keys[i].expiresAt == keys[i].createdAt + Interval(config) && Retained(config, keys[i], rotation)
  }

  lemma {:induction false} AgedAppend(config: Config, a: seq<Key>, b: seq<Key>, now: int)
    ensures Aged(config, a + b, now) == Aged(config, a, now) + Aged(config, b, now)
  {
    if b == [] {
      assert a + b == a;
    } else {
      var last := |b| - 1;
      AgedAppend(config, a, b[..last], now);
      assert (a + b)[..|a| + last] == a + b[..last];
    }
  }

  lemma {:induction false} AgedShrinks(config: Config, keys: seq<Key>, now: int)
    ensures |Aged(config, keys, now)| <= |keys|
  {
    if keys != [] {
      AgedShrinks(config, keys[..|keys| - 1], now);
    }
  }

  /** The most rotation keys that can be within their grace period at once, when they are
  made more than an interval apart. */
  function MostKept(config: Config): nat
    requires config.rotationInterval >= 1
  {
    1 + (Interval(config) + Grace(config) - 1) / (Interval(config) + 1)
  }

  lemma ChainBound(config: Config, keys: seq<Key>, rotation: int)
    requires config.rotationInterval >= 1 && Chain(config, keys, rotation)
    ensures |keys| <= MostKept(config)
  {
    if keys != [] {
      ApartSpan(config, keys, rotation);
      DivAtLeast(Interval(config) + Grace(config) - 1, Interval(config) + 1, |keys| - 1);
    }
  }

  /** a / b, rounded up. */
  function CeilDiv(a: nat, b: nat): nat
    requires b >= 1
  {
    if a == 0 then 0 else 1 + CeilDiv(if a <= b then 0 else a - b, b)
  }

  lemma {:induction false} CeilDivExceeds(a: nat, b: nat, n: nat)
    requires b >= 1 && n * b < a
    ensures CeilDiv(a, b) > n
  {
    if n > 0 {
      assert n * b == (n - 1) * b + b;
      CeilDivExceeds(a - b, b, n - 1);
    }
  }

  /** That is at most 1 + ceil(grace period / rotation interval). */
  lemma MostKeptBound(config: Config)
    requires config.rotationInterval >= 1
    ensures MostKept(config) <= 1 + CeilDiv(config.gracePeriod, config.rotationInterval)
  {
    var k := MostKept(config) - 1;
    if k >= 1 {
      FloorDiv(Interval(config) + Grace(config) - 1, Interval(config) + 1);
      assert (Interval(config) + 1) * k == (k - 1) * Interval(config) + Interval(config) + k;
      assert (k - 1) * Interval(config) == (k - 1) * config.rotationInterval * SECOND;
      CeilDivExceeds(config.gracePeriod, config.rotationInterval, k - 1);
    }
  }

  lemma ExtendedChain(config: Config, chain: seq<Key>, made: Option<Material>, rotation: int, now: int)
    requires Chain(config, chain, rotation) && rotation + Interval(config) < now
    ensures Chain(config, Aged(config, chain + Added(config, made, now), now), now)
  {
    var keys := chain + Added(config, made, now);
    assert made.Some? ==> keys[..|chain|] == chain;
    assert made.None? ==> keys == chain;
    ApartLater(config, chain, rotation, now - Interval(config) - 1);
    ApartLater(config, chain, rotation, now);
    AgedApart(config, keys, now, now);
    forall j | 0 <= j < |Aged(config, keys, now)|
      ensures
        var key := Aged(config, keys, now)[j];
        key.expiresAt == key.createdAt + Interval(config) && Retained(config, key, now)
    {
      var i := AgedMembers(config, keys, now, j);
    }
  }

  lemma AgedParts(config: Config, initial: seq<Key>, chain: seq<Key>, added: seq<Key>, now: int) returns (c: nat)
    ensures c == |Aged(config, initial, now)| <= |Aged(config, initial + chain + added, now)|
    ensures Aged(config, initial + chain + added, now)[c..] == Aged(config, chain + added, now)
  {
    c := |Aged(config, initial, now)|;
    assert initial + chain + added == initial + (chain + added);
    AgedAppend(config, initial, chain + added, now);
  }

  /** A rotation after more than an interval extends the chain and ages everything. */
  lemma RotationKeepsChain(config: Config, keys: seq<Key>, c: nat, made: Option<Material>,
                           rotation: int, began: int, now: int)
    returns (c': nat)
    requires c <= |keys| && Chain(config, keys[c..], rotation)
    requires rotation + Interval(config) < began
    ensures c' <= c && c' <= |Changed(config, keys, Turned(made, began), now)|
    ensures Chain(config, Changed(config, keys, Turned(made, began), now)[c'..], began)
  {
    var initial, chain := keys[..c], keys[c..];
    assert keys == initial + chain;
    ExtendedChain(config, chain, made, rotation, began);
    AgedShrinks(config, initial, began);
    c' := AgedParts(config, initial, chain, Added(config, made, began), began);
  }

  function InitialKeys(setup: Setup, run: Run<Op>, algorithm: Algorithm): seq<Key> {
    KeysFor(Initial(setup.config, setup.first, setup.secret, StartOf(run)).keys, algorithm)
  }

  /** The list is what is left of the initial keys, then a chain of rotation keys. */
  lemma {:induction false} KeysFormChain(setup: Setup, run: Run<Op>, algorithm: Algorithm) returns (c: nat)
    requires Timely(run) && OnlyChecks(run) && setup.config.rotationInterval >= 1
    ensures c <= |InitialKeys(setup, run, algorithm)| && c <= |KeysFor(After(setup, run).keys, algorithm)|
    ensures LastKeyed(setup, run) <= After(setup, run).lastRotation
    ensures Chain(setup.config, KeysFor(After(setup, run).keys, algorithm)[c..], LastKeyed(setup, run))
  {
    match run
    case Start(_) => c := |KeysFor(After(setup, run).keys, algorithm)|;
    case Then(before, now, op) =>
      c := KeysFormChain(setup, before, algorithm);
      KeyListChange(setup, run, algorithm);
      if Rotates(setup, run) {
        c := RotationKeepsChain(setup.config, KeysFor(After(setup, before).keys, algorithm), c,
                                KeyChange(setup, run, algorithm).made, LastKeyed(setup, before), op.began, now);
      }
  }

  /** Rotated only when due, an algorithm never keeps more than MostKept keys, which is
  at most 1 + ceil(grace period / rotation interval), besides those made at construction. */
  lemma RetainedKeysBounded(setup: Setup, run: Run<Op>, algorithm: Algorithm)
    requires Timely(run) && OnlyChecks(run) && setup.config.rotationInterval >= 1
    ensures |KeysFor(After(setup, run).keys, algorithm)| <=
            |InitialKeys(setup, run, algorithm)| + MostKept(setup.config)
    ensures MostKept(setup.config) <= 1 + CeilDiv(setup.config.gracePeriod, setup.config.rotationInterval)
  {
    var c := KeysFormChain(setup, run, algorithm);
    ChainBound(setup.config, KeysFor(After(setup, run).keys, algorithm)[c..], LastKeyed(setup, run));
    MostKeptBound(setup.config);
  }

  // ---- The bound is reached --------------------------------------------------------------

  /** `j` rotations, each at the first instant at which it is due. */
  function Steady(config: Config, j: nat): Run<Op> {
    var step := Interval(config) + 1;
    if j == 0 then Start(step) else Then(Steady(config, j - 1), j * step, CheckOp(AllMade(0), j * step))
  }

  predicate ExpireFrom(keys: seq<Key>, bound: int) {
    forall i :: 0 <= i < |keys| ==> keys[i].expiresAt >= bound
  }

  lemma {:induction false} AgedKeepsAll(config: Config, keys: seq<Key>, bound: int, now: int)
    requires ExpireFrom(keys, bound) && now < bound + Grace(config)
    ensures |Aged(config, keys, now)| == |keys| && ExpireFrom(Aged(config, keys, now), bound)
  {
    if keys != [] {
      AgedKeepsAll(config, keys[..|keys| - 1], bound, now);
    }
  }

  /** Until then even the first key is within its grace period. */
  lemma StillRetained(config: Config, j: nat)
    requires config.rotationInterval >= 1 && 1 <= j <= MostKept(config)
    ensures
      var step := Interval(config) + 1;
      step <= j * step < step + Interval(config) + Grace(config)
  {
    var step, k := Interval(config) + 1, MostKept(config) - 1;
    FloorDiv(Interval(config) + Grace(config) - 1, step);
    MulAtLeast(k, j - 1, step);
    MulAtLeast(j - 1, 0, step);
    assert j * step == (j - 1) * step + step;
  }

  lemma GrowsByOne(config: Config, keys: seq<Key>, material: Material, bound: int, now: int)
    requires ExpireFrom(keys, bound) && bound <= now + Interval(config) && now < bound + Grace(config)
    ensures
      var grown := Changed(config, keys, Turned(Some(material), now), now);
      |grown| == |keys| + 1 && ExpireFrom(grown, bound)
  {
    AgedKeepsAll(config, keys + [NewKey(config, material, now)], bound, now);
  }

  /** A due rotation that drops nothing adds a key. */
  lemma OneMoreRotation(setup: Setup, before: Run<Op>, now: int, algorithm: Algorithm, bound: int)
    requires NeedsRotation(setup.config, After(setup, before), now)
    requires ExpireFrom(KeysFor(After(setup, before).keys, algorithm), bound)
    requires bound <= now + Interval(setup.config) && now < bound + Grace(setup.config)
    ensures
      var run := Then(before, now, CheckOp(AllMade(0), now));
      && After(setup, run).lastRotation == now
      && |KeysFor(After(setup, run).keys, algorithm)| == |KeysFor(After(setup, before).keys, algorithm)| + 1
      && ExpireFrom(KeysFor(After(setup, run).keys, algorithm), bound)
  {
    KeyListChange(setup, Then(before, now, CheckOp(AllMade(0), now)), algorithm);
    GrowsByOne(setup.config, KeysFor(After(setup, before).keys, algorithm), 0, bound, now);
  }

  lemma {:induction false} SteadyState(setup: Setup, algorithm: Algorithm, j: nat)
    requires setup.config.rotationInterval >= 1 && j <= MostKept(setup.config)
    ensures
      var config, run := setup.config, Steady(setup.config, j);
      var step := Interval(config) + 1;
      && Timely(run) && OnlyChecks(run) && StartOf(run) == step && Clock(run) <= (if j == 0 then 1 else j) * step
      && After(setup, run).lastRotation == j * step
      && |KeysFor(After(setup, run).keys, algorithm)| == |InitialKeys(setup, run, algorithm)| + j
      && ExpireFrom(KeysFor(After(setup, run).keys, algorithm), step + Interval(config))
  {
    var step := Interval(setup.config) + 1;
    if j == 0 {
      assert 0 * step == 0 && 1 * step == step;
    } else {
      SteadyState(setup, algorithm, j - 1);
      assert j * step == (j - 1) * step + step;
      StillRetained(setup.config, j);
      OneMoreRotation(setup, Steady(setup.config, j - 1), j * step, algorithm, step + Interval(setup.config));
    }
  }

  /** Some run, rotated only when due, keeps exactly as many. */
  lemma RetainedBoundIsReached(setup: Setup, algorithm: Algorithm) returns (run: Run<Op>)
    requires setup.config.rotationInterval >= 1
    ensures Timely(run) && OnlyChecks(run)
    ensures |KeysFor(After(setup, run).keys, algorithm)| ==
            |InitialKeys(setup, run, algorithm)| + MostKept(setup.config)
  {
    run := Steady(setup.config, MostKept(setup.config));
    SteadyState(setup, algorithm, MostKept(setup.config));
  }
}
