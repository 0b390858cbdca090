/** DNSSEC signing keys: lists per algorithm in order of creation, rotation with a
grace period, and a cache of signatures in front of signing.

The message authentication code is a parameter of the configuration, and so is what
the random generator yields: the proofs hold for all of them.
*/
module DnssecKeys {
  import opened Basics

  datatype Algorithm = HmacSha256 | RsaSha256 | EcdsaP256Sha256

  type Material = nat
  type Bytes = seq<nat>

  datatype Config = Config(
    defaultAlgorithm: Algorithm,
    rotationInterval: nat,  // seconds, like the next two
    gracePeriod: nat,
    signatureCacheTtl: nat,
    cacheEnabled: bool,
    mac: (Material, Bytes) -> Bytes)

  function Interval(config: Config): int { config.rotationInterval * SECOND }
  function Grace(config: Config): int { config.gracePeriod * SECOND }
  function CacheTtl(config: Config): int { config.signatureCacheTtl * SECOND }

  datatype Key = Key(material: Material, createdAt: int, expiresAt: int, isActive: bool)

  type KeyStore = map<Algorithm, seq<Key>>

  datatype CacheEntry = CacheEntry(signature: Bytes, createdAt: int, ttl: int)

  /** What a signature is cached under. */
  datatype Request = Request(algorithm: Algorithm, data: Bytes)

  datatype Manager = Manager(keys: KeyStore, cache: map<Request, CacheEntry>, lastRotation: int)

  function KeysFor(keys: KeyStore, algorithm: Algorithm): seq<Key> {
    if algorithm in keys then keys[algorithm] else []
  }

  function NewKey(config: Config, material: Material, now: int): Key {
    Key(material, now, now + Interval(config), true)
  }

  /** Append a key, unless no key material could be generated. */
  function Generate(config: Config, keys: KeyStore, algorithm: Algorithm, made: Option<Material>, now: int): KeyStore {
    match made
    case None => keys
    case Some(material) => keys[algorithm := KeysFor(keys, algorithm) + [NewKey(config, material, now)]]
  }

  predicate IsLive(key: Key, now: int) {
    key.isActive && key.expiresAt > now
  }

  function FirstLive(keys: seq<Key>, now: int): Option<Key> {
    if keys == [] then None
    else if IsLive(keys[0], now) then Some(keys[0])
    else FirstLive(keys[1..], now)
  }

  /** The key that signs and validates for `algorithm` at `now`. */
  function ActiveKey(m: Manager, algorithm: Algorithm, now: int): Option<Key> {
    FirstLive(KeysFor(m.keys, algorithm), now)
  }

  predicate NeedsRotation(config: Config, m: Manager, now: int) {
    Elapsed(now, m.lastRotation) > Interval(config)
  }

  function Deactivated(key: Key, now: int): Key {
    if key.expiresAt < now then key.(isActive := false) else key
  }

  predicate Retained(config: Config, key: Key, now: int) {
    key.expiresAt + Grace(config) > now
  }

  /** Deactivate expired keys and drop those past the grace period. */
  function Aged(config: Config, keys: seq<Key>, now: int): seq<Key> {
    if keys == [] then []
    else
      var last := |keys| - 1;
      Aged(config, keys[..last], now) +
      if Retained(config, keys[last], now) then [Deactivated(keys[last], now)] else []
  }

  /** What the random generator yields for each algorithm of a rotation. */
  datatype Made = Made(hmac: Option<Material>, rsa: Option<Material>, ecdsa: Option<Material>)

  function MadeFor(made: Made, algorithm: Algorithm): Option<Material> {
    match algorithm
    case HmacSha256 => made.hmac
    case RsaSha256 => made.rsa
    case EcdsaP256Sha256 => made.ecdsa
  }

  function Grown(config: Config, keys: KeyStore, made: Made, now: int): KeyStore {
    Generate(config,
      Generate(config,
        Generate(config, keys, HmacSha256, made.hmac, now),
        RsaSha256, made.rsa, now),
      EcdsaP256Sha256, made.ecdsa, now)
  }

  function AgedStore(config: Config, keys: KeyStore, now: int): KeyStore {
    map algorithm | algorithm in keys :: Aged(config, keys[algorithm], now)
  }

  /** Rotate the keys at `now`; when that is done, at `end`, note the time. */
  function Rotate(config: Config, m: Manager, made: Made, now: int, end: int): Manager {
    Manager(AgedStore(config, Grown(config, m.keys, made, now), now), m.cache, end)
  }

  function CheckAndRotate(config: Config, m: Manager, made: Made, now: int, end: int): Manager {
    if NeedsRotation(config, m, now) then Rotate(config, m, made, now, end) else m
  }

  predicate Fresh(entry: CacheEntry, now: int) {
    entry.createdAt <= now && now - entry.createdAt < entry.ttl
  }

  function Cached(m: Manager, request: Request, now: int): Option<Bytes> {
    if request in m.cache && Fresh(m.cache[request], now) then Some(m.cache[request].signature) else None
  }

  function CacheSignature(config: Config, m: Manager, request: Request, signature: Bytes, now: int): Manager {
    var filled := m.cache[request := CacheEntry(signature, now, CacheTtl(config))];
    m.(cache := map r | r in filled && Fresh(filled[r], now) :: filled[r])
  }

  /** Sign, from the cache if possible; no signature if there is no live key. */
  function Sign(config: Config, m: Manager, request: Request, now: int): (Manager, Option<Bytes>) {
    var cached := Cached(m, request, now);
    if config.cacheEnabled && cached.Some? then (m, cached)
    else
      match ActiveKey(m, request.algorithm, now)
      case None => (m, None)
      case Some(key) =>
        var signature := config.mac(key.material, request.data);
        (if config.cacheEnabled then CacheSignature(config, m, request, signature, now) else m, Some(signature))
  }

  /** Validate against the key live at `now`; no answer if there is none. */
  function Validate(config: Config, m: Manager, request: Request, signature: Bytes, now: int): Option<bool> {
    match ActiveKey(m, request.algorithm, now)
    case None => None
    case Some(key) => Some(signature == config.mac(key.material, request.data))
  }

  /** The keys made at construction: one for the default algorithm and, when a secret
  is configured, an HMAC key from it. */
  function Initial(config: Config, first: Material, secret: Option<Material>, now: int): Manager {
    var keys := Generate(config, map[], config.defaultAlgorithm, Some(first), now);
    Manager(Generate(config, keys, HmacSha256, secret, now), map[], 0)
  }

  class KeyManager {
    const config: Config
    var keys: KeyStore
    var signatureCache: map<Request, CacheEntry>
    var lastRotation: int

    constructor (config: Config, first: Material, secret: Option<Material>, now: int)
      ensures this.config == config && Value() == Initial(config, first, secret, now)
    {
      this.config := config;
      keys, signatureCache, lastRotation := map[], map[], 0;
      new;
      var made := GenerateKey(config.defaultAlgorithm, Some(first), now);
      if secret.Some? {
        keys := keys[HmacSha256 := KeysFor(keys, HmacSha256) + [NewKey(config, secret.value, now)]];
      }
    }

    function Value(): Manager
      reads this
    {
      Manager(keys, signatureCache, lastRotation)
    }

    method GenerateKey(algorithm: Algorithm, made: Option<Material>, now: int) returns (ok: bool)
      modifies this`keys
      ensures ok == made.Some?
      ensures keys == Generate(config, old(keys), algorithm, made, now)
    {
      match made
      case None => return false;
      case Some(material) =>
        var key := Key(material, now, now + config.rotationInterval * SECOND, true);
        keys := keys[algorithm := KeysFor(keys, algorithm) + [key]];
        return true;
    }

    method GetActiveKey(algorithm: Algorithm, now: int) returns (found: Option<Key>)
      ensures found == ActiveKey(Value(), algorithm, now)
    {
      if algorithm !in keys {
        return None;
      }
      var list := keys[algorithm];
      for i := 0 to |list|
        invariant FirstLive(list, now) == FirstLive(list[i..], now)
      {
        if list[i].isActive && list[i].expiresAt > now {
          return Some(list[i]);
        }
      }
      return None;
    }

    method RotateKeys(made: Made, now: int, end: int)
      modifies this
      ensures Value() == Rotate(config, old(Value()), made, now, end)
    {
      var ok := GenerateKey(HmacSha256, made.hmac, now);
      ok := GenerateKey(RsaSha256, made.rsa, now);
      ok := GenerateKey(EcdsaP256Sha256, made.ecdsa, now);
      DeactivateOldKeys(now);
      lastRotation := end;
    }

    method DeactivateOldKeys(now: int)
      modifies this`keys
      ensures keys == AgedStore(config, old(keys), now)
    {
      var left := keys.Keys;
      while left != {}
        invariant left <= keys.Keys && keys.Keys == old(keys).Keys
        invariant forall a :: a in keys ==>
                    keys[a] == if a in left then old(keys)[a] else Aged(config, old(keys)[a], now)
        decreases left
      {
        var algorithm :| algorithm in left;
        var aged := AgeList(keys[algorithm], now);
        keys := keys[algorithm := aged];
        left := left - {algorithm};
      }
    }

    method AgeList(list: seq<Key>, now: int) returns (aged: seq<Key>)
      ensures aged == Aged(config, list, now)
    {
      aged := [];
      for i := 0 to |list|
        invariant aged == Aged(config, list[..i], now)
      {
        assert list[..i + 1][..i] == list[..i];
        var key := list[i];
        if key.expiresAt < now {
          key := key.(isActive := false);
        }
        if key.expiresAt + config.gracePeriod * SECOND > now {
          aged := aged + [key];
        }
      }
      assert list[..|list|] == list;
    }

    method CheckAndRotateKeys(made: Made, now: int, end: int)
      modifies this
      ensures Value() == CheckAndRotate(config, old(Value()), made, now, end)
    {
      if NeedsRotation(config, Value(), now) {
        RotateKeys(made, now, end);
      }
    }

    method SignData(request: Request, now: int) returns (signature: Option<Bytes>)
      modifies this`signatureCache
      ensures (Value(), signature) == Sign(config, old(Value()), request, now)
    {
      if config.cacheEnabled {
        var cached := Cached(Value(), request, now);
        if cached.Some? {
          return cached;
        }
      }
      var key := GetActiveKey(request.algorithm, now);
      match key
      case None => return None;
      case Some(key) =>
        var made := config.mac(key.material, request.data);
        if config.cacheEnabled {
          var filled := signatureCache[request := CacheEntry(made, now, config.signatureCacheTtl * SECOND)];
          signatureCache := map r | r in filled && Fresh(filled[r], now) :: filled[r];
        }
        return Some(made);
    }
  }
}
