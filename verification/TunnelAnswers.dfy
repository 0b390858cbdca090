/** What the operations on tunnels answer, in every reachable state. */
module TunnelAnswers {
  import opened Basics
  import opened Redis
  import opened TunnelIndexes
  import opened TunnelStorage

  /** The claim of the subdomain leads to another tunnel. */
  predicate LeadsElsewhere(db: Db, t: Tunnel, now: int) {
    var found := GetBySubdomain(db, t.subdomain, now);
    found.Some? && found.value.id != t.id
  }

  lemma TakenLeadsElsewhere(db: Db, own: TunnelId -> Identity, base: string, t: Tunnel, now: int)
    requires Tied(db, own, base, now) && Ttl(t, now) >= 1
    ensures Taken(db, t, now) <==> LeadsElsewhere(db, t, now)
  {
    assert ClaimTied(db, base, now, t.subdomain);
  }

  /** In every reachable state a store with less than a second left is an error and changes
  nothing; any other succeeds exactly if the claim of the subdomain does not lead to another
  tunnel, in particular if the subdomain is available. Then the tunnel is found by its claim
  and shown to its user, whose list has it at the end unless it had it before. */
  lemma StoreAnswersExactly(own: TunnelId -> Identity, base: string, edge: string, run: Run<Op>, t: Tunnel, now: int)
    requires Monotone(run) && GenuineRun(own, base, run) && Clock(run) <= now && Genuine(own, base, t)
    ensures
      var db := After(edge, run);
      var (db', result) := StoreTunnel(db, t, edge, now);
      && (result == StorageError <==> t.expiresAt - now < SECOND)
      && (result == StorageError ==> db' == db)
      && (result == SubdomainTaken <==> t.expiresAt - now >= SECOND && LeadsElsewhere(db, t, now))
      && (result == Done ==>
            && GetBySubdomain(db', t.subdomain, now) == Some(t)
            && t in Tunnels(db'.records, Listed(db', t.githubUserId), now))
      && (result != StorageError ==>
            Listed(db', t.githubUserId) ==
            Listed(db, t.githubUserId) + if t.id in Listed(db, t.githubUserId) then [] else [t.id])
  {
    var db := After(edge, run);
    RunStaysTied(own, base, edge, run);
    TiedLater(db, own, base, Clock(run), now);
    if Ttl(t, now) >= 1 {
      TakenLeadsElsewhere(db, own, base, t, now);
      if StoreTunnel(db, t, edge, now).1 == Done {
        var db' := StoreTunnel(db, t, edge, now).0;
        StoredIsFound(own, base, db, t, edge, now, now);
        assert t.id in Listed(db', t.githubUserId) && Get(db'.records, t.id, now) == Some(t);
        TunnelsListed(db'.records, Listed(db', t.githubUserId), now, t);
      }
    }
  }

  /** In every reachable state updating the status of an unknown tunnel does nothing, and
  updating that of a known one answers as storing it does. */
  lemma UpdateAnswersExactly(own: TunnelId -> Identity, base: string, edge: string, run: Run<Op>,
                             id: TunnelId, status: Status, now: int)
    requires Monotone(run) && GenuineRun(own, base, run) && Clock(run) <= now
    ensures
      var db := After(edge, run);
      var (db', result) := UpdateStatus(db, id, status, edge, now);
      match Get(db.records, id, now)
      case None => result == Done && db' == db
      case Some(t) =>
        && (result == StorageError <==> t.expiresAt - now < SECOND)
        && (result == SubdomainTaken <==> t.expiresAt - now >= SECOND && LeadsElsewhere(db, t, now))
        && (result != StorageError ==> Get(db'.records, id, now) == Some(t.(status := status)))
  {
    var db := After(edge, run);
    RunStaysTied(own, base, edge, run);
    TiedLater(db, own, base, Clock(run), now);
    if Live(db.records, id, now) {
      StoreAnswersExactly(own, base, edge, run, db.records[id].value.(status := status), now);
    }
  }

  /** Clean-up, in any state, leaves exactly the live records whose tunnels have not
  expired, and counts the others. */
  lemma CleanupLeavesUnexpired(db: Db, now: int)
    ensures
      var (db', cleaned) := CleanupExpired(db, now);
      && (forall id :: Live(db'.records, id, now) <==>
            Live(db.records, id, now) && now <= db.records[id].value.expiresAt)
      && |db'.records| == |db.records| - cleaned
  {
    var overdue := Overdue(db.records, now);
    assert db.records.Keys == (db.records - overdue).Keys + overdue;
  }
}
