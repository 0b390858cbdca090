/** Where the edge router sends the viewers of a subdomain, over whole runs.

The router does not read the claim: it scans the lists of all users and takes the first
live record with the subdomain. The order of the users is not determined, so the router
is safe only where every scan gives the same answer.
*/
module TunnelRouting {
  import opened Basics
  import opened Redis
  import opened TunnelClaims
  import opened TunnelIndexes
  import opened TunnelStorage

  // ---- The router against the claim ---------------------------------------------------

  /** Every scan for the subdomain answers as the claim does. */
  ghost predicate AgreesOn(db: Db, subdomain: Subdomain, now: int) {
    forall found :: IsScanResult(db, subdomain, now, found) <==> found == GetBySubdomain(db, subdomain, now)
  }

  /** Every live record with the subdomain holds its claim. */
  ghost predicate IndexedOn(db: Db, subdomain: Subdomain, now: int) {
    forall id :: Live(db.records, id, now) && db.records[id].value.subdomain == subdomain ==>
      Get(db.claims, subdomain, now) == Some(id)
  }

  /** A live record is among the matches of a scan for its subdomain. */
  lemma LiveIsMatch(db: Db, own: TunnelId -> Identity, base: string, now: int, id: TunnelId)
    requires Tied(db, own, base, now) && Live(db.records, id, now)
    ensures IsMatch(db, db.records[id].value.subdomain, now, id)
    ensures IsScanResult(db, db.records[id].value.subdomain, now, Some(db.records[id].value))
  {
    assert db.records[id].value.githubUserId in db.lookups;
  }

  lemma AgreesIfIndexed(db: Db, own: TunnelId -> Identity, base: string, subdomain: Subdomain, now: int)
    requires Tied(db, own, base, now)
    ensures AgreesOn(db, subdomain, now) <==> IndexedOn(db, subdomain, now)
  {
    assert ClaimTied(db, base, now, subdomain);
    if Live(db.claims, subdomain, now) {
      LiveIsMatch(db, own, base, now, db.claims[subdomain].value);
    }
    if AgreesOn(db, subdomain, now) {
      forall id | Live(db.records, id, now) && db.records[id].value.subdomain == subdomain
        ensures Get(db.claims, subdomain, now) == Some(id)
      {
        LiveIsMatch(db, own, base, now, id);
      }
    }
  }

  /** Agreement lasts as long as nothing happens. */
  lemma AgreesLater(db: Db, own: TunnelId -> Identity, base: string, subdomain: Subdomain, early: int, now: int)
    requires Tied(db, own, base, early) && early <= now && AgreesOn(db, subdomain, early)
    ensures AgreesOn(db, subdomain, now)
  {
    AgreesIfIndexed(db, own, base, subdomain, early);
    TiedLater(db, own, base, early, now);
    assert ClaimTied(db, base, early, subdomain);
    AgreesIfIndexed(db, own, base, subdomain, now);
  }

  // ---- Exactly when the router can be trusted --------------------------------------------

  /** The operation stores a tunnel under a subdomain that another tunnel claims. */
  predicate Collides(db: Db, subdomain: Subdomain, now: int, op: Op) {
    op.StoreOp? && op.t.subdomain == subdomain && Taken(db, op.t, now)
  }

  lemma StoreKeepsIndexedOn(db: Db, own: TunnelId -> Identity, base: string, edge: string, now: int, t: Tunnel,
                            subdomain: Subdomain)
    requires Tied(db, own, base, now) && Genuine(own, base, t) && IndexedOn(db, subdomain, now)
    ensures IndexedOn(StoreTunnel(db, t, edge, now).0, subdomain, now) <==>
            !(t.subdomain == subdomain && Taken(db, t, now))
  {
    var db' := StoreTunnel(db, t, edge, now).0;
    if Ttl(t, now) >= 1 {
      WholeSecondsBound(now, t.expiresAt);
      if t.subdomain == subdomain && Taken(db, t, now) {
        assert Live(db'.records, t.id, now);
      }
    }
  }

  lemma StepKeepsIndexedOn(db: Db, own: TunnelId -> Identity, base: string, edge: string, now: int, op: Op,
                           subdomain: Subdomain)
    requires Tied(db, own, base, now) && IndexedOn(db, subdomain, now)
    requires op.StoreOp? ==> Genuine(own, base, op.t)
    ensures IndexedOn(Step(db, edge, now, op), subdomain, now) <==> !Collides(db, subdomain, now, op)
  {
    match op
    case StoreOp(t) => StoreKeepsIndexedOn(db, own, base, edge, now, t, subdomain);
    case UpdateOp(id, status) =>
      if Live(db.records, id, now) {
        StoreKeepsIndexedOn(db, own, base, edge, now, db.records[id].value.(status := status), subdomain);
      }
    case DeleteOp(id) =>
    case CleanupOp => NothingOverdue(db, own, base, now);
  }

  /** At every step from `run` to `later` all scans answer as the claim does. */
  ghost predicate AgreesSince(edge: string, later: Run<Op>, run: Run<Op>, subdomain: Subdomain) {
    && AgreesOn(After(edge, later), subdomain, Clock(later))
    && (later != run ==> later.Then? && AgreesSince(edge, later.before, run, subdomain))
  }

  /** No operation after `run` stores a tunnel under the subdomain while another claims it. */
  predicate NoCollisionSince(edge: string, later: Run<Op>, run: Run<Op>, subdomain: Subdomain) {
    || later == run
    || (later.Then? && !Collides(After(edge, later.before), subdomain, later.now, later.op)
        && NoCollisionSince(edge, later.before, run, subdomain))
  }

  /** One operation keeps the agreement exactly if it does not collide. */
  lemma StepKeepsAgreement(own: TunnelId -> Identity, base: string, edge: string, run: Run<Op>, subdomain: Subdomain)
    requires Monotone(run) && GenuineRun(own, base, run) && run.Then?
    requires AgreesOn(After(edge, run.before), subdomain, Clock(run.before))
    ensures AgreesOn(After(edge, run), subdomain, run.now) <==>
            !Collides(After(edge, run.before), subdomain, run.now, run.op)
  {
    var db := After(edge, run.before);
    RunStaysTied(own, base, edge, run.before);
    TiedLater(db, own, base, Clock(run.before), run.now);
    AgreesLater(db, own, base, subdomain, Clock(run.before), run.now);
    AgreesIfIndexed(db, own, base, subdomain, run.now);
    StepKeepsIndexedOn(db, own, base, edge, run.now, run.op, subdomain);
    RunStaysTied(own, base, edge, run);
    AgreesIfIndexed(After(edge, run), own, base, subdomain, run.now);
  }

  /** From a state of agreement on, the router and the claim agree at every step exactly
  when no store collides. */
  lemma {:induction false} AgreesSinceExactly(own: TunnelId -> Identity, base: string, edge: string,
                                              later: Run<Op>, run: Run<Op>, subdomain: Subdomain)
    requires Monotone(later) && GenuineRun(own, base, later) && Continues(later, run)
    requires AgreesOn(After(edge, run), subdomain, Clock(run))
    ensures AgreesSince(edge, later, run, subdomain) <==> NoCollisionSince(edge, later, run, subdomain)
  {
    if later != run {
      AgreesSinceExactly(own, base, edge, later.before, run, subdomain);
      if AgreesSince(edge, later.before, run, subdomain) {
        StepKeepsAgreement(own, base, edge, later, subdomain);
      }
    }
  }

  /** In a whole run the router and the claim of a subdomain agree at every step exactly
  when no tunnel is ever stored under it while another claims it. */
  lemma RouterAgreesExactly(own: TunnelId -> Identity, base: string, edge: string, run: Run<Op>, start: Run<Op>,
                            subdomain: Subdomain)
    requires Monotone(run) && GenuineRun(own, base, run) && Continues(run, start) && start.Start?
    ensures AgreesSince(edge, run, start, subdomain) <==> NoCollisionSince(edge, run, start, subdomain)
  {
    assert AgreesOn(After(edge, start), subdomain, Clock(start));
    AgreesSinceExactly(own, base, edge, run, start, subdomain);
  }

  // ---- A stored tunnel is what the router serves -------------------------------------------

  /** Every scan finds the tunnel, unchanged but for its status. */
  ghost predicate ServedAlone(db: Db, t: Tunnel, now: int) {
    forall found :: IsScanResult(db, t.subdomain, now, found) ==>
      found.Some? && found.value == t.(status := found.value.status)
  }

  ghost predicate ServedSince(edge: string, later: Run<Op>, stored: Run<Op>, t: Tunnel) {
    && ServedAlone(After(edge, later), t, Clock(later))
    && (later != stored ==> later.Then? && ServedSince(edge, later.before, stored, t))
  }

  /** While a tunnel holds its claim, the router serves it alone exactly if it agrees with
  the claim. */
  lemma ServedIfAgrees(own: TunnelId -> Identity, base: string, db: Db, t: Tunnel, now: int)
    requires Tied(db, own, base, now) && HoldsClaim(db, t) && now <= t.expiresAt - SECOND
    ensures ServedAlone(db, t, now) <==> AgreesOn(db, t.subdomain, now)
  {
    assert ClaimTied(db, base, now, t.subdomain);
    assert GetBySubdomain(db, t.subdomain, now) == Some(db.records[t.id].value);
    AgreesIfIndexed(db, own, base, t.subdomain, now);
    if ServedAlone(db, t, now) {
      forall id | Live(db.records, id, now) && db.records[id].value.subdomain == t.subdomain
        ensures Get(db.claims, t.subdomain, now) == Some(id)
      {
        LiveIsMatch(db, own, base, now, id);
      }
    }
  }

  /** Once stored, a tunnel that is not stored again, and of whose subdomain no tunnel is
  deleted, is what every scan of the router finds at every step up to its last second
  exactly if that was so at first and no store has collided with it since. */
  lemma {:induction false} StoredIsServedExactly(own: TunnelId -> Identity, base: string, edge: string,
                                                 stored: Run<Op>, later: Run<Op>, t: Tunnel)
    requires Monotone(later) && GenuineRun(own, base, later) && Genuine(own, base, t)
    requires Stores(edge, stored, t) && Sparing(own, t, later, stored) && Clock(later) <= t.expiresAt - SECOND
    ensures ServedSince(edge, later, stored, t) <==>
            && AgreesOn(After(edge, stored), t.subdomain, Clock(stored))
            && NoCollisionSince(edge, later, stored, t.subdomain)
  {
    StaysClaimed(own, base, edge, stored, later, t);
    RunStaysTied(own, base, edge, later);
    ServedIfAgrees(own, base, After(edge, later), t, Clock(later));
    if later != stored {
      StoredIsServedExactly(own, base, edge, stored, later.before, t);
      if ServedSince(edge, later.before, stored, t) {
        StaysClaimed(own, base, edge, stored, later.before, t);
        RunStaysTied(own, base, edge, later.before);
        ServedIfAgrees(own, base, After(edge, later.before), t, Clock(later.before));
        StepKeepsAgreement(own, base, edge, later, t.subdomain);
      }
    }
  }

  /** And it stays so until the next operation. */
  lemma ServedLater(own: TunnelId -> Identity, base: string, edge: string, stored: Run<Op>, later: Run<Op>,
                    t: Tunnel, now: int)
    requires Monotone(later) && GenuineRun(own, base, later) && Genuine(own, base, t)
    requires Stores(edge, stored, t) && Sparing(own, t, later, stored)
    requires Clock(later) <= now <= t.expiresAt - SECOND && ServedAlone(After(edge, later), t, Clock(later))
    ensures ServedAlone(After(edge, later), t, now)
  {
    var db := After(edge, later);
    StaysClaimed(own, base, edge, stored, later, t);
    RunStaysTied(own, base, edge, later);
    ServedIfAgrees(own, base, db, t, Clock(later));
    AgreesLater(db, own, base, t.subdomain, Clock(later), now);
    TiedLater(db, own, base, Clock(later), now);
    ServedIfAgrees(own, base, db, t, now);
  }

  // ---- What goes wrong after a collision ----------------------------------------------------

  /** A store that is rejected because the subdomain is taken leaves the router free to
  send the viewers of the tunnel that holds the subdomain to the rejected one. */
  lemma RejectedIsServed(own: TunnelId -> Identity, base: string, edge: string, a: Tunnel, b: Tunnel, now: int)
    returns (stored: Run<Op>, run: Run<Op>)
    requires Genuine(own, base, a) && Genuine(own, base, b) && a.id != b.id && a.subdomain == b.subdomain
    requires Ttl(a, now) >= 1 && Ttl(b, now) >= 1
    ensures Monotone(run) && GenuineRun(own, base, run) && Clock(run) == now
    ensures Stores(edge, stored, a) && Sparing(own, a, run, stored)
    ensures run == Then(stored, now, StoreOp(b))
    ensures StoreTunnel(After(edge, stored), b, edge, now).1 == SubdomainTaken
    ensures
      var db := After(edge, run);
      && GetBySubdomain(db, a.subdomain, now) == Some(a) && db.records.Keys == {a.id, b.id}
      && IsScanResult(db, a.subdomain, now, Some(a)) && IsScanResult(db, a.subdomain, now, Some(b))
  {
    stored := Then(Start(now), now, StoreOp(a));
    run := Then(stored, now, StoreOp(b));
    WholeSecondsBound(now, a.expiresAt);
    RunStaysTied(own, base, edge, stored);
    assert Live(After(edge, stored).claims, a.subdomain, now);
    RejectedStoreLeavesMatch(own, base, After(edge, stored), b, edge, now);
  }

  /** Deleting a tunnel takes exactly that tunnel from the matches of every scan. */
  lemma DeleteTakesOneMatch(db: Db, id: TunnelId, now: int, subdomain: Subdomain, later: int, other: TunnelId)
    requires Live(db.records, id, now)
    ensures IsMatch(DeleteTunnel(db, id, now).0, subdomain, later, other) <==>
            other != id && IsMatch(db, subdomain, later, other)
  {
    var db' := DeleteTunnel(db, id, now).0;
    if other != id {
      forall user | user in db.lookups
        ensures user in db'.lookups && (other in db.lookups[user] <==> other in db'.lookups[user])
      {
      }
    }
  }

  lemma OnlyMatch(db: Db, t: Tunnel, now: int)
    requires IsMatch(db, t.subdomain, now, t.id) && db.records.Keys <= {t.id} && db.records[t.id].value == t
    ensures forall found :: IsScanResult(db, t.subdomain, now, found) <==> found == Some(t)
  {
    assert forall id :: IsMatch(db, t.subdomain, now, id) ==> id in db.records.Keys;
  }

  lemma LoserDeleted(own: TunnelId -> Identity, base: string, db: Db, a: Tunnel, loser: TunnelId, now: int)
    requires Tied(db, own, base, now) && Genuine(own, base, a) && GetBySubdomain(db, a.subdomain, now) == Some(a)
    requires db.records.Keys == {a.id, loser} && loser != a.id
    requires Live(db.records, loser, now) && db.records[loser].value.subdomain == a.subdomain
    ensures
      var db' := DeleteTunnel(db, loser, now).0;
      && (forall found :: IsScanResult(db', a.subdomain, now, found) <==> found == Some(a))
      && GetBySubdomain(db', a.subdomain, now) == None && !Live(db'.slots, a.fqdn, now)
  {
    assert ClaimTied(db, base, now, a.subdomain);
    assert db.claims[a.subdomain].value == a.id;
    DeletingLoserDropsClaim(own, base, db, loser, a.subdomain, now);
    OnlyMatch(DeleteTunnel(db, loser, now).0, a, now);
  }

  /** Two tunnels are stored under one subdomain, the second is rejected and then deleted:
  every scan finds the first, but its claim and its name are gone, so that the subdomain
  is reported available. */
  lemma DeletedLoserRun(own: TunnelId -> Identity, base: string, edge: string, a: Tunnel, b: Tunnel, now: int)
    returns (run: Run<Op>)
    requires Genuine(own, base, a) && Genuine(own, base, b) && a.id != b.id && a.subdomain == b.subdomain
    requires Ttl(a, now) >= 1 && Ttl(b, now) >= 1
    ensures Monotone(run) && GenuineRun(own, base, run) && Clock(run) == now
    ensures
      var db := After(edge, run);
      && (forall found :: IsScanResult(db, a.subdomain, now, found) <==> found == Some(a))
      && GetBySubdomain(db, a.subdomain, now) == None && !Live(db.slots, a.fqdn, now)
  {
    var stored, two := RejectedIsServed(own, base, edge, a, b, now);
    run := Then(two, now, DeleteOp(b.id));
    RunStaysTied(own, base, edge, two);
    LoserDeleted(own, base, After(edge, two), a, b.id, now);
  }
}
