/** Who holds a subdomain, over whole runs: a stored tunnel keeps the claim of its
subdomain and its name until it ends, unless a tunnel of the same subdomain is deleted.

The claim decides whether a subdomain is available; `TunnelRouting` is about the scan by
which the edge router finds tunnels.
*/
module TunnelClaims {
  import opened Basics
  import opened Redis
  import opened TunnelIndexes
  import opened TunnelStorage

  // ---- A stored tunnel keeps its claim ---------------------------------------------------

  /** The claim of its subdomain names the tunnel, and the record is its own but for the
  status, both until the last second of the tunnel. */
  ghost predicate HoldsClaim(db: Db, t: Tunnel) {
    && t.subdomain in db.claims && t.id in db.records
    && db.claims[t.subdomain].value == t.id
    && db.claims[t.subdomain].deadline == db.records[t.id].deadline > t.expiresAt - SECOND
    && db.records[t.id].value == t.(status := db.records[t.id].value.status)
  }

  /** Operations that leave the tunnel alone: they do not store it again, and do not
  delete a tunnel of its subdomain. */
  predicate Spares(own: TunnelId -> Identity, t: Tunnel, op: Op) {
    match op
    case StoreOp(other) => other.id != t.id
    case DeleteOp(id) => own(id).subdomain != t.subdomain
    case _ => true
  }

  lemma StoreKeepsClaim(own: TunnelId -> Identity, base: string, db: Db, edge: string, now: int,
                         t: Tunnel, other: Tunnel)
    requires Tied(db, own, base, now) && HoldsClaim(db, t) && now <= t.expiresAt - SECOND
    requires Genuine(own, base, t) && Genuine(own, base, other)
    requires other.id == t.id ==> other == t.(status := other.status)
    ensures HoldsClaim(StoreTunnel(db, other, edge, now).0, t)
  {
    if Ttl(other, now) >= 1 {
      WholeSecondsBound(now, other.expiresAt);
    }
  }

  lemma DeleteKeepsClaim(own: TunnelId -> Identity, base: string, db: Db, now: int, t: Tunnel, id: TunnelId)
    requires Tied(db, own, base, now) && HoldsClaim(db, t) && now <= t.expiresAt - SECOND
    requires Genuine(own, base, t) && own(id).subdomain != t.subdomain
    ensures HoldsClaim(DeleteTunnel(db, id, now).0, t)
  {
  }

  lemma StepKeepsClaim(own: TunnelId -> Identity, base: string, db: Db, edge: string, now: int, t: Tunnel, op: Op)
    requires Tied(db, own, base, now) && HoldsClaim(db, t) && now <= t.expiresAt - SECOND
    requires Genuine(own, base, t) && Spares(own, t, op)
    requires op.StoreOp? ==> Genuine(own, base, op.t)
    ensures HoldsClaim(Step(db, edge, now, op), t)
  {
    match op
    case StoreOp(other) => StoreKeepsClaim(own, base, db, edge, now, t, other);
    case UpdateOp(id, status) =>
      if Live(db.records, id, now) {
        StoreKeepsClaim(own, base, db, edge, now, t, db.records[id].value.(status := status));
      }
    case DeleteOp(id) => DeleteKeepsClaim(own, base, db, now, t, id);
    case CleanupOp => NothingOverdue(db, own, base, now);
  }

  /** `later` continues `run` with operations that leave `t` alone. */
  predicate Sparing(own: TunnelId -> Identity, t: Tunnel, later: Run<Op>, run: Run<Op>) {
    later == run || (later.Then? && Spares(own, t, later.op) && Sparing(own, t, later.before, run))
  }

  /** The last operation of the run stored `t`. */
  predicate Stores(edge: string, run: Run<Op>, t: Tunnel) {
    && run.Then? && run.op == StoreOp(t)
    && StoreTunnel(After(edge, run.before), t, edge, run.now).1 == Done
  }

  lemma {:induction false} StaysClaimed(own: TunnelId -> Identity, base: string, edge: string,
                                       stored: Run<Op>, later: Run<Op>, t: Tunnel)
    requires Monotone(later) && GenuineRun(own, base, later) && Genuine(own, base, t)
    requires Stores(edge, stored, t) && Sparing(own, t, later, stored)
    requires Clock(later) <= t.expiresAt - SECOND
    ensures HoldsClaim(After(edge, later), t)
  {
    if later == stored {
      WholeSecondsBound(stored.now, t.expiresAt);
    } else {
      var db := After(edge, later.before);
      StaysClaimed(own, base, edge, stored, later.before, t);
      RunStaysTied(own, base, edge, later.before);
      TiedLater(db, own, base, Clock(later.before), later.now);
      StepKeepsClaim(own, base, db, edge, later.now, t, later.op);
    }
  }

  /** Once stored, a tunnel is found by its claim, unchanged but for its status, and its
  name resolves to the edge, until its last second and whatever others do, unless it is
  stored again or a tunnel of the same subdomain is deleted. */
  lemma StoredKeepsClaim(own: TunnelId -> Identity, base: string, edge: string,
                          stored: Run<Op>, later: Run<Op>, t: Tunnel, now: int)
    requires Monotone(later) && GenuineRun(own, base, later) && Genuine(own, base, t)
    requires Stores(edge, stored, t) && Sparing(own, t, later, stored)
    requires Clock(later) <= now <= t.expiresAt - SECOND
    ensures
      var db := After(edge, later);
      && Get(db.claims, t.subdomain, now) == Some(t.id)
      && (exists status :: GetBySubdomain(db, t.subdomain, now) == Some(t.(status := status)))
      && Get(db.slots, t.fqdn, now) == Some(edge)
  {
    var db := After(edge, later);
    StaysClaimed(own, base, edge, stored, later, t);
    RunStaysTied(own, base, edge, later);
    TiedLater(db, own, base, Clock(later), now);
    assert ClaimTied(db, base, now, t.subdomain);
    NamesPointToEdge(edge, later, t.fqdn);
    assert GetBySubdomain(db, t.subdomain, now) == Some(t.(status := db.records[t.id].value.status));
  }

  // ---- What a rejected store leaves behind --------------------------------------------

  /** A rejected store keeps its record: the scan then has two matches, one of which
  the index does not know. */
  lemma RejectedStoreLeavesMatch(own: TunnelId -> Identity, base: string, db: Db, t: Tunnel, edge: string, now: int)
    requires Tied(db, own, base, now) && Genuine(own, base, t)
    requires StoreTunnel(db, t, edge, now).1 == SubdomainTaken
    ensures
      var db', winner := StoreTunnel(db, t, edge, now).0, db.claims[t.subdomain].value;
      && winner != t.id
      && IsMatch(db', t.subdomain, now, t.id) && IsMatch(db', t.subdomain, now, winner)
      && GetBySubdomain(db', t.subdomain, now) == Some(db.records[winner].value)
  {
    WholeSecondsBound(now, t.expiresAt);
    var db', winner := StoreTunnel(db, t, edge, now).0, db.claims[t.subdomain].value;
    assert ClaimTied(db, base, now, t.subdomain);
    StoreKeepsTied(db, own, base, t, edge, now);
    assert Live(db'.records, t.id, now) && Live(db'.records, winner, now);
  }

  /** Deleting the tunnel that lost the claim takes the claim, and the DNS name, of
  the one that holds it: the holder's record lives on, and a scan finds it, but the
  claim and the name do not lead to it any more. */
  lemma DeletingLoserDropsClaim(own: TunnelId -> Identity, base: string, db: Db, loser: TunnelId,
                                    subdomain: Subdomain, now: int)
    requires Tied(db, own, base, now)
    requires Live(db.records, loser, now) && db.records[loser].value.subdomain == subdomain
    requires Live(db.claims, subdomain, now) && db.claims[subdomain].value != loser
    ensures
      var db', holder := DeleteTunnel(db, loser, now).0, db.claims[subdomain].value;
      && IsMatch(db', subdomain, now, holder)
      && GetBySubdomain(db', subdomain, now) == None
      && !Live(db'.slots, NameOf(subdomain, base), now)
  {
    assert ClaimTied(db, base, now, subdomain);
    DeleteKeepsTied(db, own, base, loser, now);
    var db', holder := DeleteTunnel(db, loser, now).0, db.claims[subdomain].value;
    assert Live(db'.records, holder, now);
    assert db'.records[holder].value.githubUserId in db'.lookups;
  }

  /** A deletion after which all others are found by their claims as before, now and
  later. */
  ghost predicate SparesClaims(db: Db, id: TunnelId, now: int) {
    var db' := DeleteTunnel(db, id, now).0;
    forall subdomain: Subdomain, later: int ::
      var found := GetBySubdomain(db, subdomain, later);
      now <= later && found.Some? && found.value.id != id ==> GetBySubdomain(db', subdomain, later) == found
  }

  /** In every reachable state, deleting a tunnel leaves all others found by their claims
  exactly when the claim of its subdomain leads to it or to nobody; which is always so in
  a run in which no store was rejected. */
  lemma DeleteSparesClaimsExactly(own: TunnelId -> Identity, base: string, edge: string, run: Run<Op>,
                                  id: TunnelId, now: int)
    requires Monotone(run) && GenuineRun(own, base, run) && Clock(run) <= now
    requires Live(After(edge, run).records, id, now)
    ensures
      var db := After(edge, run);
      var found := GetBySubdomain(db, db.records[id].value.subdomain, now);
      && (SparesClaims(db, id, now) <==> found.None? || found.value.id == id)
      && (NeverRejected(edge, run) ==> SparesClaims(db, id, now))
  {
    var db := After(edge, run);
    var subdomain := db.records[id].value.subdomain;
    RunStaysTied(own, base, edge, run);
    TiedLater(db, own, base, Clock(run), now);
    assert ClaimTied(db, base, now, subdomain);
    var found := GetBySubdomain(db, subdomain, now);
    if found.None? || found.value.id == id {
      OwnClaimSpares(own, base, db, id, now);
    } else {
      assert GetBySubdomain(DeleteTunnel(db, id, now).0, subdomain, now) == None;
    }
  }

  lemma OwnClaimSpares(own: TunnelId -> Identity, base: string, db: Db, id: TunnelId, now: int)
    requires Tied(db, own, base, now) && Live(db.records, id, now)
    requires
      var found := GetBySubdomain(db, db.records[id].value.subdomain, now);
      found.None? || found.value.id == id
    ensures SparesClaims(db, id, now)
  {
    var db' := DeleteTunnel(db, id, now).0;
    forall subdomain: Subdomain, later: int |
      now <= later && GetBySubdomain(db, subdomain, later).Some? && GetBySubdomain(db, subdomain, later).value.id != id
      ensures GetBySubdomain(db', subdomain, later) == GetBySubdomain(db, subdomain, later)
    {
      assert ClaimTied(db, base, now, subdomain);
      assert ClaimTied(db, base, now, db.records[id].value.subdomain);
    }
  }
}
