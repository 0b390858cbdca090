/** The indexes over tunnel records stay in agreement: over every run of stores,
status updates, deletions and clean-ups. */
module TunnelIndexes {
  import opened Basics
  import opened Redis
  import opened TunnelStorage

  /** What a tunnel identifier stands for, fixed when the tunnel is created. */
  datatype Identity = Identity(user: UserId, subdomain: Subdomain)

  function NameOf(subdomain: Subdomain, base: string): Fqdn {
    subdomain + "." + base
  }

  lemma NameIsInjective(a: Subdomain, b: Subdomain, base: string)
    requires NameOf(a, base) == NameOf(b, base)
    ensures a == b
  {
    assert a == NameOf(a, base)[..|a|] && b == NameOf(b, base)[..|b|];
  }

  predicate Genuine(own: TunnelId -> Identity, base: string, t: Tunnel) {
    && own(t.id) == Identity(t.githubUserId, t.subdomain)
    && t.fqdn == NameOf(t.subdomain, base)
  }

  // ---- Invariants ------------------------------------------------------------

  /** Live records are filed under their own identifier, expire in time, and are
  listed for their user. */
  ghost predicate RecordsListed(db: Db, own: TunnelId -> Identity, base: string, now: int) {
    forall id :: Live(db.records, id, now) ==>
      var t := db.records[id].value;
      && t.id == id && Genuine(own, base, t)
      && db.records[id].deadline <= t.expiresAt
      && id in Listed(db, t.githubUserId)
  }

  /** Lists hold tunnels of their user, once each. */
  ghost predicate ListsClean(db: Db, own: TunnelId -> Identity) {
    forall user :: user in db.lookups ==>
      && Distinct(db.lookups[user])
      && forall id :: id in db.lookups[user] ==> own(id).user == user
  }

  /** The claim of a subdomain, the record of its holder and the DNS slot of its
  name live and end together. */
  ghost predicate ClaimTied(db: Db, base: string, now: int, subdomain: Subdomain) {
    && (Live(db.claims, subdomain, now) <==> Live(db.slots, NameOf(subdomain, base), now))
    && (Live(db.claims, subdomain, now) ==>
          var claim := db.claims[subdomain];
          && Live(db.records, claim.value, now)
          && db.records[claim.value].value.subdomain == subdomain
          && db.records[claim.value].deadline == claim.deadline == db.slots[NameOf(subdomain, base)].deadline)
  }

  ghost predicate Tied(db: Db, own: TunnelId -> Identity, base: string, now: int) {
    && RecordsListed(db, own, base, now)
    && ListsClean(db, own)
    && forall subdomain :: ClaimTied(db, base, now, subdomain)
  }

  /** Every live record holds the claim of its subdomain. */
  ghost predicate Indexed(db: Db, now: int) {
    forall id :: Live(db.records, id, now) ==>
      Get(db.claims, db.records[id].value.subdomain, now) == Some(id)
  }

  lemma TiedLater(db: Db, own: TunnelId -> Identity, base: string, early: int, now: int)
    requires Tied(db, own, base, early) && early <= now
    ensures Tied(db, own, base, now)
    ensures Indexed(db, early) ==> Indexed(db, now)
  {
    forall subdomain ensures ClaimTied(db, base, now, subdomain) {
      assert ClaimTied(db, base, early, subdomain);
    }
    if Indexed(db, early) {
      forall id | Live(db.records, id, now)
        ensures Get(db.claims, db.records[id].value.subdomain, now) == Some(id)
      {
        assert Live(db.records, id, early);
        assert ClaimTied(db, base, early, db.records[id].value.subdomain);
      }
    }
  }

  // ---- Storing ---------------------------------------------------------------

  lemma StoreKeepsLists(db: Db, own: TunnelId -> Identity, base: string, t: Tunnel, edge: string, now: int)
    requires Tied(db, own, base, now) && Genuine(own, base, t)
    ensures ListsClean(StoreTunnel(db, t, edge, now).0, own)
    ensures RecordsListed(StoreTunnel(db, t, edge, now).0, own, base, now)
  {
    if Ttl(t, now) >= 1 {
      WholeSecondsBound(now, t.expiresAt);
      var db' := StoreTunnel(db, t, edge, now).0;
      forall id | Live(db'.records, id, now)
        ensures
          var r := db'.records[id].value;
          && r.id == id && Genuine(own, base, r)
          && db'.records[id].deadline <= r.expiresAt
          && id in Listed(db', r.githubUserId)
      {
        if id != t.id {
          assert Live(db.records, id, now);
        }
      }
    }
  }

  lemma StoreKeepsClaims(db: Db, own: TunnelId -> Identity, base: string, t: Tunnel, edge: string, now: int,
                         subdomain: Subdomain)
    requires Tied(db, own, base, now) && Genuine(own, base, t)
    ensures ClaimTied(StoreTunnel(db, t, edge, now).0, base, now, subdomain)
  {
    assert ClaimTied(db, base, now, subdomain);
    if Ttl(t, now) >= 1 {
      WholeSecondsBound(now, t.expiresAt);
      if subdomain != t.subdomain {
        if NameOf(subdomain, base) == NameOf(t.subdomain, base) {
          NameIsInjective(subdomain, t.subdomain, base);
        }
        if Live(db.claims, subdomain, now) {
          var id := db.claims[subdomain].value;
          assert Live(db.records, id, now) && Genuine(own, base, db.records[id].value);
        }
      }
    }
  }

  lemma StoreKeepsTied(db: Db, own: TunnelId -> Identity, base: string, t: Tunnel, edge: string, now: int)
    requires Tied(db, own, base, now) && Genuine(own, base, t)
    ensures Tied(StoreTunnel(db, t, edge, now).0, own, base, now)
  {
    StoreKeepsLists(db, own, base, t, edge, now);
    forall subdomain ensures ClaimTied(StoreTunnel(db, t, edge, now).0, base, now, subdomain) {
      StoreKeepsClaims(db, own, base, t, edge, now, subdomain);
    }
  }

  /** Another tunnel holds the claim that storing `t` would need. */
  predicate Taken(db: Db, t: Tunnel, now: int) {
    Ttl(t, now) >= 1 && Live(db.claims, t.subdomain, now) && db.claims[t.subdomain].value != t.id
  }

  /** Storing keeps the index complete exactly when no other tunnel holds the claim. */
  lemma StoreKeepsIndexedExactly(db: Db, own: TunnelId -> Identity, base: string, t: Tunnel, edge: string, now: int)
    requires Tied(db, own, base, now) && Genuine(own, base, t) && Indexed(db, now)
    ensures Indexed(StoreTunnel(db, t, edge, now).0, now) <==> !Taken(db, t, now)
  {
    var db' := StoreTunnel(db, t, edge, now).0;
    if Ttl(t, now) >= 1 {
      WholeSecondsBound(now, t.expiresAt);
      if Taken(db, t, now) {
        assert Live(db'.records, t.id, now);
      } else {
        forall id | Live(db'.records, id, now)
          ensures Get(db'.claims, db'.records[id].value.subdomain, now) == Some(id)
        {
          if id != t.id {
            assert Live(db.records, id, now);
          }
        }
      }
    }
  }

  /** A stored tunnel is found by its subdomain and its name resolves to the edge
  until less than a second before it expires; no other subdomain is affected. */
  lemma StoredIsFound(own: TunnelId -> Identity, base: string, db: Db, t: Tunnel, edge: string, now: int, later: int)
    requires Tied(db, own, base, now) && Genuine(own, base, t) && now <= later
    requires StoreTunnel(db, t, edge, now).1 == Done
    ensures
      var db', deadline := StoreTunnel(db, t, edge, now).0, now + Ttl(t, now) * SECOND;
      && t.expiresAt - SECOND < deadline <= t.expiresAt
      && GetBySubdomain(db', t.subdomain, later) == (if later < deadline then Some(t) else None)
      && Get(db'.slots, t.fqdn, later) == (if later < deadline then Some(edge) else None)
      && forall other :: other != t.subdomain ==>
           GetBySubdomain(db', other, later) == GetBySubdomain(db, other, later)
  {
    WholeSecondsBound(now, t.expiresAt);
    forall other | other != t.subdomain
      ensures GetBySubdomain(StoreTunnel(db, t, edge, now).0, other, later) == GetBySubdomain(db, other, later)
    {
      assert ClaimTied(db, base, now, other);
    }
  }

  // ---- Deleting ----------------------------------------------------------------

  lemma DeleteKeepsTied(db: Db, own: TunnelId -> Identity, base: string, id: TunnelId, now: int)
    requires Tied(db, own, base, now)
    ensures Tied(DeleteTunnel(db, id, now).0, own, base, now)
    ensures Indexed(db, now) ==> Indexed(DeleteTunnel(db, id, now).0, now)
  {
    if Live(db.records, id, now) {
      var t, db' := db.records[id].value, DeleteTunnel(db, id, now).0;
      WithoutIdDistinct(db.lookups[t.githubUserId], id);
      forall other | Live(db'.records, other, now)
        ensures other in Listed(db', db'.records[other].value.githubUserId)
      {
        assert Live(db.records, other, now);
      }
      forall subdomain ensures ClaimTied(db', base, now, subdomain) {
        assert ClaimTied(db, base, now, subdomain);
        if subdomain != t.subdomain && NameOf(subdomain, base) == NameOf(t.subdomain, base) {
          NameIsInjective(subdomain, t.subdomain, base);
        }
      }
      if Indexed(db, now) {
        forall other | Live(db'.records, other, now)
          ensures Get(db'.claims, db'.records[other].value.subdomain, now) == Some(other)
        {
          assert Live(db.records, other, now) && Live(db.records, id, now);
        }
      }
    }
  }

  // ---- Runs ----------------------------------------------------------------------

  datatype Op =
    | StoreOp(t: Tunnel)
    | UpdateOp(id: TunnelId, status: Status)
    | DeleteOp(id: TunnelId)
    | CleanupOp

  function Step(db: Db, edge: string, now: int, op: Op): Db {
    match op
    case StoreOp(t) => StoreTunnel(db, t, edge, now).0
    case UpdateOp(id, status) => UpdateStatus(db, id, status, edge, now).0
    case DeleteOp(id) => DeleteTunnel(db, id, now).0
    case CleanupOp => CleanupExpired(db, now).0
  }

  function After(edge: string, run: Run<Op>): Db {
    match run
    case Start(_) => Db(map[], map[], map[], map[])
    case Then(before, now, op) => Step(After(edge, before), edge, now, op)
  }

  /** Tunnels keep their user, subdomain and name. */
  predicate GenuineRun(own: TunnelId -> Identity, base: string, run: Run<Op>) {
    run.Then? ==>
      && (run.op.StoreOp? ==> Genuine(own, base, run.op.t))
      && GenuineRun(own, base, run.before)
  }

  /** Whether a store, direct or by a status update, was turned down. */
  predicate Rejected(db: Db, edge: string, now: int, op: Op) {
    match op
    case StoreOp(t) => StoreTunnel(db, t, edge, now).1 == SubdomainTaken
    case UpdateOp(id, status) => UpdateStatus(db, id, status, edge, now).1 == SubdomainTaken
    case _ => false
  }

  predicate NeverRejected(edge: string, run: Run<Op>) {
    run.Then? ==>
      && !Rejected(After(edge, run.before), edge, run.now, run.op)
      && NeverRejected(edge, run.before)
  }

  /** There is never anything to clean up: records end before their tunnels. */
  lemma NothingOverdue(db: Db, own: TunnelId -> Identity, base: string, now: int)
    requires Tied(db, own, base, now)
    ensures CleanupExpired(db, now) == (db, 0)
  {
    assert forall id :: id in Overdue(db.records, now) ==> Live(db.records, id, now);
    assert Overdue(db.records, now) == {};
    assert db.records - {} == db.records;
  }

  lemma StepKeepsTied(db: Db, own: TunnelId -> Identity, base: string, edge: string, now: int, op: Op)
    requires Tied(db, own, base, now)
    requires op.StoreOp? ==> Genuine(own, base, op.t)
    ensures Tied(Step(db, edge, now, op), own, base, now)
    ensures Indexed(db, now) && !Rejected(db, edge, now, op) ==> Indexed(Step(db, edge, now, op), now)
  {
    match op
    case StoreOp(t) =>
      StoreKeepsTied(db, own, base, t, edge, now);
      if Indexed(db, now) {
        StoreKeepsIndexedExactly(db, own, base, t, edge, now);
      }
    case UpdateOp(id, status) =>
      if Live(db.records, id, now) {
        var t := db.records[id].value.(status := status);
        StoreKeepsTied(db, own, base, t, edge, now);
        if Indexed(db, now) {
          StoreKeepsIndexedExactly(db, own, base, t, edge, now);
        }
      }
    case DeleteOp(id) => DeleteKeepsTied(db, own, base, id, now);
    case CleanupOp => NothingOverdue(db, own, base, now);
  }

  lemma {:induction false} RunStaysTied(own: TunnelId -> Identity, base: string, edge: string, run: Run<Op>)
    requires Monotone(run) && GenuineRun(own, base, run)
    ensures Tied(After(edge, run), own, base, Clock(run))
    ensures NeverRejected(edge, run) ==> Indexed(After(edge, run), Clock(run))
  {
    if run.Then? {
      RunStaysTied(own, base, edge, run.before);
      TiedLater(After(edge, run.before), own, base, Clock(run.before), run.now);
      StepKeepsTied(After(edge, run.before), own, base, edge, run.now, run.op);
    }
  }

  /** In every reachable state, at any later time: a live claim belongs to a live
  record with that subdomain, the name resolves exactly while the claim lives, none
  of the three outlives the tunnel, a subdomain is reported available exactly when
  nobody claims it, and clean-up finds nothing to do. */
  lemma ClaimRecordAndNameTied(own: TunnelId -> Identity, base: string, edge: string, run: Run<Op>,
                               now: int, subdomain: Subdomain)
    requires Monotone(run) && GenuineRun(own, base, run) && Clock(run) <= now
    ensures
      var db := After(edge, run);
      && (Live(db.claims, subdomain, now) ==>
            && Get(db.records, db.claims[subdomain].value, now).Some?
            && var t := db.records[db.claims[subdomain].value].value;
               && t.subdomain == subdomain && t.id == db.claims[subdomain].value
               && db.claims[subdomain].deadline <= t.expiresAt
               && NameOf(subdomain, base) in db.slots
               && db.slots[NameOf(subdomain, base)].deadline <= t.expiresAt)
      && (Live(db.slots, NameOf(subdomain, base), now) <==> Live(db.claims, subdomain, now))
      && (GetBySubdomain(db, subdomain, now).None? <==> !Live(db.claims, subdomain, now))
      && CleanupExpired(db, now) == (db, 0)
  {
    RunStaysTied(own, base, edge, run);
    TiedLater(After(edge, run), own, base, Clock(run), now);
    assert ClaimTied(After(edge, run), base, now, subdomain);
    NothingOverdue(After(edge, run), own, base, now);
  }

  /** Every name that resolves, resolves to the edge. */
  lemma {:induction false} NamesPointToEdge(edge: string, run: Run<Op>, fqdn: Fqdn)
    ensures fqdn in After(edge, run).slots ==> After(edge, run).slots[fqdn].value == edge
  {
    if run.Then? {
      NamesPointToEdge(edge, run.before, fqdn);
    }
  }

  /** Updating the status of a tunnel that is found by its claim keeps it found, with the
  new status, and changes nothing for other subdomains. */
  lemma UpdateKeepsClaim(own: TunnelId -> Identity, base: string, edge: string, run: Run<Op>, now: int,
                           t: Tunnel, status: Status)
    requires Monotone(run) && GenuineRun(own, base, run) && Clock(run) <= now
    requires GetBySubdomain(After(edge, run), t.subdomain, now) == Some(t) && Ttl(t, now) >= 1
    ensures
      var db := After(edge, run);
      var (db', result) := UpdateStatus(db, t.id, status, edge, now);
      && result == Done
      && GetBySubdomain(db', t.subdomain, now) == Some(t.(status := status))
      && forall other :: other != t.subdomain ==> GetBySubdomain(db', other, now) == GetBySubdomain(db, other, now)
  {
    var db := After(edge, run);
    RunStaysTied(own, base, edge, run);
    TiedLater(db, own, base, Clock(run), now);
    assert ClaimTied(db, base, now, t.subdomain);
    StoredIsFound(own, base, db, t.(status := status), edge, now, now);
    WholeSecondsBound(now, t.expiresAt);
  }

  // ---- The index against the scan ------------------------------------------------

  /** In every reachable state an index hit is one of the scan's matches. */
  lemma HitIsMatch(own: TunnelId -> Identity, base: string, edge: string, run: Run<Op>, now: int, subdomain: Subdomain)
    requires Monotone(run) && GenuineRun(own, base, run) && Clock(run) <= now
    requires GetBySubdomain(After(edge, run), subdomain, now).Some?
    ensures
      var t := GetBySubdomain(After(edge, run), subdomain, now).value;
      IsMatch(After(edge, run), subdomain, now, t.id) && IsScanResult(After(edge, run), subdomain, now, Some(t))
  {
    RunStaysTied(own, base, edge, run);
    TiedLater(After(edge, run), own, base, Clock(run), now);
    assert ClaimTied(After(edge, run), base, now, subdomain);
    var t := GetBySubdomain(After(edge, run), subdomain, now).value;
    assert Live(After(edge, run).records, t.id, now);
    assert IsMatch(After(edge, run), subdomain, now, t.id);
  }

  /** While no store was rejected, every scan, in whatever order, answers exactly as
  the index does. */
  lemma IndexRefinesScan(own: TunnelId -> Identity, base: string, edge: string, run: Run<Op>, now: int,
                         subdomain: Subdomain, found: Option<Tunnel>)
    requires Monotone(run) && GenuineRun(own, base, run) && NeverRejected(edge, run) && Clock(run) <= now
    ensures IsScanResult(After(edge, run), subdomain, now, found) <==>
            found == GetBySubdomain(After(edge, run), subdomain, now)
  {
    var db := After(edge, run);
    RunStaysTied(own, base, edge, run);
    TiedLater(db, own, base, Clock(run), now);
    var hit := GetBySubdomain(db, subdomain, now);
    assert ClaimTied(db, base, now, subdomain);
    if hit.Some? {
      HitIsMatch(own, base, edge, run, now, subdomain);
    }
    forall id | IsMatch(db, subdomain, now, id)
      ensures hit == Some(db.records[id].value)
    {
      assert Live(db.records, id, now);
    }
  }

  /** Deleting removes every trace of a tunnel, and says so exactly if it was there. */
  lemma DeleteClearsTunnel(own: TunnelId -> Identity, base: string, edge: string, run: Run<Op>, id: TunnelId, now: int)
    requires Monotone(run) && GenuineRun(own, base, run) && Clock(run) <= now
    ensures
      var (db', deleted) := DeleteTunnel(After(edge, run), id, now);
      && Get(db'.records, id, now) == None
      && (forall subdomain :: Get(db'.claims, subdomain, now) != Some(id))
      && (deleted <==> Get(After(edge, run).records, id, now).Some?)
      && (if deleted then forall user :: id !in Listed(db', user) else db' == After(edge, run))
  {
    RunStaysTied(own, base, edge, run);
    TiedLater(After(edge, run), own, base, Clock(run), now);
    DeleteKeepsTied(After(edge, run), own, base, id, now);
    var db' := DeleteTunnel(After(edge, run), id, now).0;
    forall subdomain ensures Get(db'.claims, subdomain, now) != Some(id) {
      assert ClaimTied(db', base, now, subdomain);
    }
    if Live(After(edge, run).records, id, now) {
      forall user ensures id !in Listed(db', user) {
      }
    }
  }

  // ---- Listing a user's tunnels -------------------------------------------------------

  lemma {:induction false} TunnelsListed(records: Keys<TunnelId, Tunnel>, ids: seq<TunnelId>, now: int, t: Tunnel)
    ensures t in Tunnels(records, ids, now) <==> exists id :: id in ids && Get(records, id, now) == Some(t)
  {
    if ids != [] {
      var last := |ids| - 1;
      TunnelsListed(records, ids[..last], now, t);
      assert forall id :: id in ids <==> id in ids[..last] || id == ids[last];
    }
  }

  /** The tunnels appear in the order of their identifiers in the list, each once. */
  ghost predicate InOrder(shown: seq<Tunnel>, ids: seq<TunnelId>) {
    && (forall i :: 0 <= i < |shown| ==> shown[i].id in ids)
    && forall i, j, p, q ::
         (0 <= i < j < |shown| && 0 <= p < |ids| && 0 <= q < |ids| && ids[p] == shown[i].id && ids[q] == shown[j].id)
         ==> p < q
  }

  lemma {:induction false} TunnelsInOrder(records: Keys<TunnelId, Tunnel>, ids: seq<TunnelId>, now: int)
    requires Distinct(ids) && forall id :: Live(records, id, now) ==> records[id].value.id == id
    ensures InOrder(Tunnels(records, ids, now), ids)
  {
    if ids != [] {
      var last := |ids| - 1;
      var before, shown := Tunnels(records, ids[..last], now), Tunnels(records, ids, now);
      TunnelsInOrder(records, ids[..last], now);
      forall i | 0 <= i < |before| ensures exists p :: 0 <= p < last && ids[p] == before[i].id {
        var p :| 0 <= p < last && ids[..last][p] == before[i].id;
        assert ids[p] == before[i].id;
      }
      forall i, j, p, q | 0 <= i < j < |shown| && 0 <= p < |ids| && 0 <= q < |ids|
                          && ids[p] == shown[i].id && ids[q] == shown[j].id
        ensures p < q
      {
        assert shown[i] == before[i];
        if j < |before| {
          assert ids[..last][p] == before[i].id && ids[..last][q] == before[j].id;
        }
      }
    }
  }

  /** A user's listing shows exactly the live tunnels of that user, each once and in the
  order of the user's list. */
  lemma ListingIsExact(own: TunnelId -> Identity, base: string, edge: string, run: Run<Op>, now: int,
                       user: UserId, t: Tunnel)
    requires Monotone(run) && GenuineRun(own, base, run) && Clock(run) <= now
    ensures
      var db := After(edge, run);
      && Distinct(Listed(db, user)) && InOrder(Tunnels(db.records, Listed(db, user), now), Listed(db, user))
      && (t in Tunnels(db.records, Listed(db, user), now) <==>
            Get(db.records, t.id, now) == Some(t) && t.githubUserId == user)
  {
    var db := After(edge, run);
    RunStaysTied(own, base, edge, run);
    TiedLater(db, own, base, Clock(run), now);
    TunnelsListed(db.records, Listed(db, user), now, t);
    TunnelsInOrder(db.records, Listed(db, user), now);
    forall id | id in Listed(db, user) && Get(db.records, id, now) == Some(t)
      ensures t.id == id && t.githubUserId == user
    {
      assert Live(db.records, id, now);
    }
    if Get(db.records, t.id, now) == Some(t) && t.githubUserId == user {
      assert Live(db.records, t.id, now);
    }
  }
}
