/** The hourly issuance limiter of the certificate authority. */
module CaLimiter {
  import opened Basics

  type Client = string

  const HOUR: int := 3600 * SECOND

  /** `issued` certificates recorded since `lastReset`. */
  datatype Count = Count(issued: nat, lastReset: int)

  datatype Limiter = Limiter(limit: nat, counts: map<Client, Count>, total: nat)

  predicate IsLimited(l: Limiter, client: Client, now: int) {
    && client in l.counts
    && now - l.counts[client].lastReset < HOUR
    && l.counts[client].issued >= l.limit
  }

  function NextCount(l: Limiter, client: Client, now: int): Count {
    if client !in l.counts || now - l.counts[client].lastReset >= HOUR then Count(1, now)
    else Count(l.counts[client].issued + 1, l.counts[client].lastReset)
  }

  function Record(l: Limiter, client: Client, now: int): Limiter {
    l.(counts := l.counts[client := NextCount(l, client, now)], total := l.total + 1)
  }

  class RateLimiter {
    const limit: nat
    var clientCounts: map<Client, Count>
    var totalIssued: nat

    constructor (limit: nat)
      ensures Value() == Limiter(limit, map[], 0)
    {
      this.limit := limit;
      clientCounts := map[];
      totalIssued := 0;
    }

    function Value(): Limiter
      reads this
    {
      Limiter(limit, clientCounts, totalIssued)
    }

    method IsRateLimited(client: Client, now: int) returns (limited: bool)
      ensures limited == IsLimited(Value(), client, now)
    {
      if client in clientCounts {
        if now - clientCounts[client].lastReset < HOUR {
          return clientCounts[client].issued >= limit;
        }
        return false;
      }
      return false;
    }

    method RecordIssuance(client: Client, now: int)
      modifies this
      ensures Value() == Record(old(Value()), client, now)
    {
      var entry := if client in clientCounts then clientCounts[client] else Count(0, now);
      if now - entry.lastReset >= HOUR {
        entry := Count(0, now);
      }
      entry := entry.(issued := entry.issued + 1);
      clientCounts := clientCounts[client := entry];
      totalIssued := totalIssued + 1;
    }
  }
}
