/** Tunnel metadata in Redis: a record per tunnel, a list of tunnels per user, the
claim of a subdomain by a tunnel, and the DNS slot of its name.

The key prefixes partition Redis, so each kind of key is a map of its own. Every
method is atomic and reads the clock once.
*/
module TunnelStorage {
  import opened Basics
  import opened Redis

  type TunnelId = string
  type UserId = string
  type Subdomain = string
  type Fqdn = string

  datatype Status = Creating | Active | Destroying | Expired | Error

  datatype Tunnel = Tunnel(
    id: TunnelId,
    githubUserId: UserId,
    subdomain: Subdomain,
    fqdn: Fqdn,
    expiresAt: int,
    status: Status)

  datatype Db = Db(
    records: Keys<TunnelId, Tunnel>,    // tunnel:{id}
    lookups: map<UserId, seq<TunnelId>>,  // tunnel_lookup:{user}, without expiry
    claims: Keys<Subdomain, TunnelId>,  // subdomain:{name}
    slots: Keys<Fqdn, string>)          // slot:{fqdn}

  datatype StoreResult = Done | SubdomainTaken | StorageError

  function Ttl(t: Tunnel, now: int): int {
    WholeSeconds(t.expiresAt - now)
  }

  function Listed(db: Db, user: UserId): seq<TunnelId> {
    if user in db.lookups then db.lookups[user] else []
  }

  function WithId(ids: seq<TunnelId>, id: TunnelId): seq<TunnelId> {
    if id in ids then ids else ids + [id]
  }

  function WithoutId(ids: seq<TunnelId>, id: TunnelId): (kept: seq<TunnelId>)
    ensures forall x :: x in kept <==> x in ids && x != id
  {
    if ids == [] then []
    else (if ids[0] == id then [] else [ids[0]]) + WithoutId(ids[1..], id)
  }

  predicate Distinct(ids: seq<TunnelId>) {
    forall i, j :: 0 <= i < j < |ids| ==> ids[i] != ids[j]
  }

  lemma {:induction false} WithoutIdDistinct(ids: seq<TunnelId>, id: TunnelId)
    requires Distinct(ids)
    ensures Distinct(WithoutId(ids, id))
  {
    if ids != [] {
      WithoutIdDistinct(ids[1..], id);
      assert ids[0] !in ids[1..];
    }
  }

  /** Write the record and list it for its user; then claim the subdomain, or renew
  the claim; then publish the name. A claim held by another tunnel stops it after
  the first two. Redis refuses an expiry below one second. */
  function StoreTunnel(db: Db, t: Tunnel, edge: string, now: int): (Db, StoreResult) {
    var ttl := Ttl(t, now);
    if ttl < 1 then (db, StorageError)
    else
      var records := SetEx(db.records, t.id, t, now, ttl);
      var lookups := db.lookups[t.githubUserId := WithId(Listed(db, t.githubUserId), t.id)];
      if Live(db.claims, t.subdomain, now) && db.claims[t.subdomain].value != t.id then
        (Db(records, lookups, db.claims, db.slots), SubdomainTaken)
      else
        (Db(records, lookups,
            SetEx(db.claims, t.subdomain, t.id, now, ttl),
            SetEx(db.slots, t.fqdn, edge, now, ttl)), Done)
  }

  function GetBySubdomain(db: Db, subdomain: Subdomain, now: int): Option<Tunnel> {
    match Get(db.claims, subdomain, now)
    case None => None
    case Some(id) => Get(db.records, id, now)
  }

  function Tunnels(records: Keys<TunnelId, Tunnel>, ids: seq<TunnelId>, now: int): seq<Tunnel> {
    if ids == [] then []
    else
      var last := |ids| - 1;
      Tunnels(records, ids[..last], now) +
      match Get(records, ids[last], now) case None => [] case Some(t) => [t]
  }

  function UpdateStatus(db: Db, id: TunnelId, status: Status, edge: string, now: int): (Db, StoreResult) {
    match Get(db.records, id, now)
    case None => (db, Done)
    case Some(t) => StoreTunnel(db, t.(status := status), edge, now)
  }

  function DeleteTunnel(db: Db, id: TunnelId, now: int): (Db, bool) {
    match Get(db.records, id, now)
    case None => (db, false)
    case Some(t) =>
      (Db(Del(db.records, id),
          if t.githubUserId in db.lookups
          then db.lookups[t.githubUserId := WithoutId(db.lookups[t.githubUserId], id)]
          else db.lookups,
          Del(db.claims, t.subdomain),
          Del(db.slots, t.fqdn)), true)
  }

  /** The live records whose tunnel has expired. */
  function Overdue(records: Keys<TunnelId, Tunnel>, now: int): set<TunnelId> {
    set id | id in records && IsOverdue(records, id, now)
  }

  predicate IsOverdue(records: Keys<TunnelId, Tunnel>, id: TunnelId, now: int) {
    Live(records, id, now) && now > records[id].value.expiresAt
  }

  function CleanupExpired(db: Db, now: int): (Db, nat) {
    var overdue := Overdue(db.records, now);
    (db.(records := db.records - overdue), |overdue|)
  }

  class Storage {
    const edgeIp: string
    var records: Keys<TunnelId, Tunnel>
    var lookups: map<UserId, seq<TunnelId>>
    var claims: Keys<Subdomain, TunnelId>
    var slots: Keys<Fqdn, string>

    constructor (edgeIp: string)
      ensures this.edgeIp == edgeIp && Value() == Db(map[], map[], map[], map[])
    {
      this.edgeIp := edgeIp;
      records, lookups, claims, slots := map[], map[], map[], map[];
    }

    function Value(): Db
      reads this
    {
      Db(records, lookups, claims, slots)
    }

    method Store(t: Tunnel, now: int) returns (result: StoreResult)
      modifies this
      ensures (Value(), result) == StoreTunnel(old(Value()), t, edgeIp, now)
    {
      var ttl := Ttl(t, now);
      if ttl < 1 {
        return StorageError;
      }
      records := SetEx(records, t.id, t, now, ttl);
      var ids := if t.githubUserId in lookups then lookups[t.githubUserId] else [];
      if t.id !in ids {
        ids := ids + [t.id];
      }
      lookups := lookups[t.githubUserId := ids];
      var claimed := !Live(claims, t.subdomain, now);
      claims := SetNxEx(claims, t.subdomain, t.id, now, ttl);
      if !claimed {
        var holder := Get(claims, t.subdomain, now);
        if holder != Some(t.id) {
          return SubdomainTaken;
        }
        claims := Expire(claims, t.subdomain, now, ttl);
      }
      slots := SetEx(slots, t.fqdn, edgeIp, now, ttl);
      return Done;
    }

    method TunnelBySubdomain(subdomain: Subdomain, now: int) returns (found: Option<Tunnel>)
      ensures found == GetBySubdomain(Value(), subdomain, now)
    {
      var id := Get(claims, subdomain, now);
      match id
      case None => return None;
      case Some(id) => return Get(records, id, now);
    }

    method IsSubdomainAvailable(subdomain: Subdomain, now: int) returns (available: bool)
      ensures available == GetBySubdomain(Value(), subdomain, now).None?
    {
      var found := TunnelBySubdomain(subdomain, now);
      available := found.None?;
    }

    method ListUserTunnels(user: UserId, now: int) returns (tunnels: seq<Tunnel>)
      ensures tunnels == Tunnels(records, Listed(Value(), user), now)
    {
      tunnels := [];
      if user in lookups {
        var ids := lookups[user];
        for i := 0 to |ids|
          invariant tunnels == Tunnels(records, ids[..i], now)
        {
          assert ids[..i + 1][..i] == ids[..i];
          var found := Get(records, ids[i], now);
          if found.Some? {
            tunnels := tunnels + [found.value];
          }
        }
        assert ids[..|ids|] == ids;
      }
    }

    method Update(id: TunnelId, status: Status, now: int) returns (result: StoreResult)
      modifies this
      ensures (Value(), result) == UpdateStatus(old(Value()), id, status, edgeIp, now)
    {
      var found := Get(records, id, now);
      match found
      case None => return Done;
      case Some(t) => result := Store(t.(status := status), now);
    }

    method Delete(id: TunnelId, now: int) returns (deleted: bool)
      modifies this
      ensures (Value(), deleted) == DeleteTunnel(old(Value()), id, now)
    {
      var found := Get(records, id, now);
      match found
      case None => return false;
      case Some(t) =>
        records := Del(records, id);
        claims := Del(claims, t.subdomain);
        slots := Del(slots, t.fqdn);
        if t.githubUserId in lookups {
          lookups := lookups[t.githubUserId := WithoutId(lookups[t.githubUserId], id)];
        }
        return true;
    }

    method Cleanup(now: int) returns (cleaned: nat)
      modifies this
      ensures (Value(), cleaned) == CleanupExpired(old(Value()), now)
    {
      records, cleaned := DropOverdue(records, now);
    }
  }

  /** Visit every key and delete the records of expired tunnels. */
  method DropOverdue(records: Keys<TunnelId, Tunnel>, now: int) returns (kept: Keys<TunnelId, Tunnel>, cleaned: nat)
    ensures kept == records - Overdue(records, now)
    ensures cleaned == |Overdue(records, now)|
  {
    kept, cleaned := records, 0;
    var left := records.Keys;
    ghost var done: set<TunnelId> := {};
    while left != {}
      invariant done !! left && left <= records.Keys
      invariant forall id :: id in done ==> id in records && IsOverdue(records, id, now)
      invariant forall id :: id in records && IsOverdue(records, id, now) ==> id in done || id in left
      invariant kept == records - done && cleaned == |done|
      decreases left
    {
      var id :| id in left;
      left := left - {id};
      assert id in kept && kept[id] == records[id];
      if IsOverdue(kept, id, now) {
        assert Del(kept, id) == records - (done + {id});
        kept := Del(kept, id);
        done := done + {id};
        cleaned := cleaned + 1;
      }
    }
    assert done == Overdue(records, now);
  }

  // ---- The exhaustive scan -------------------------------------------------

  /** Some user lists tunnel `id`, and its live record has the subdomain. */
  ghost predicate IsMatch(db: Db, subdomain: Subdomain, now: int, id: TunnelId) {
    && Live(db.records, id, now)
    && db.records[id].value.subdomain == subdomain
    && exists user :: user in db.lookups && id in db.lookups[user]
  }

  /** What a scan that may visit the users in any order can return. */
  ghost predicate IsScanResult(db: Db, subdomain: Subdomain, now: int, found: Option<Tunnel>) {
    match found
    case None => forall id :: !IsMatch(db, subdomain, now, id)
    case Some(t) => exists id :: IsMatch(db, subdomain, now, id) && db.records[id].value == t
  }

  /** Find a tunnel by visiting every user's list, in the order `users`. */
  method ScanBySubdomain(db: Db, subdomain: Subdomain, now: int, users: seq<UserId>) returns (found: Option<Tunnel>)
    requires forall user :: user in users <==> user in db.lookups
    ensures IsScanResult(db, subdomain, now, found)
  {
    for i := 0 to |users|
      invariant forall j :: 0 <= j < i ==>
                  forall id :: id in db.lookups[users[j]] && Live(db.records, id, now) ==>
                                 db.records[id].value.subdomain != subdomain
    {
      var ids := db.lookups[users[i]];
      for k := 0 to |ids|
        invariant forall j :: 0 <= j < k && Live(db.records, ids[j], now) ==>
                    db.records[ids[j]].value.subdomain != subdomain
      {
        var record := Get(db.records, ids[k], now);
        if record.Some? && record.value.subdomain == subdomain {
          assert IsMatch(db, subdomain, now, ids[k]);
          return record;
        }
      }
    }
    forall id ensures !IsMatch(db, subdomain, now, id) {
    }
    return None;
  }
}
