/** Allocation of tunnel ports: a wrap-around scan that claims the first free port
with an atomic "set if absent", each claim a lease that expires by itself. */
module PortAllocator {
  import opened Basics
  import opened Redis

  const FIRST: int := 10000
  const LAST: int := 65535
  const MAX_ATTEMPTS: nat := 1000

  type Owner = string

  predicate InRange(port: int) {
    FIRST <= port <= LAST
  }

  function NextPort(port: int): int {
    if port == LAST then FIRST else port + 1
  }

  /** The port probed by attempt `k` of a scan that begins at `start`. */
  function Nth(start: int, k: nat): int {
    if k == 0 then start else NextPort(Nth(start, k - 1))
  }

  lemma {:induction false} NthInRange(start: int, k: nat)
    requires InRange(start)
    ensures InRange(Nth(start, k))
  {
    if k > 0 {
      NthInRange(start, k - 1);
    }
  }

  /** Attempt `k` is `k` ports further, around the end of the range if need be. */
  lemma {:induction false} NthWraps(start: int, k: nat)
    requires InRange(start) && k <= LAST - FIRST
    ensures Nth(start, k) == if start + k <= LAST then start + k else start + k - (LAST - FIRST + 1)
  {
    if k > 0 {
      NthWraps(start, k - 1);
    }
  }

  /** The attempts of a scan probe different ports. */
  lemma NthDistinct(start: int, j: nat, k: nat)
    requires InRange(start) && j < k <= LAST - FIRST
    ensures Nth(start, j) != Nth(start, k)
  {
    NthWraps(start, j);
    NthWraps(start, k);
  }

  ghost function Probed(start: int, n: nat): set<int> {
    if n == 0 then {} else Probed(start, n - 1) + {Nth(start, n - 1)}
  }

  lemma {:induction false} ProbedBy(start: int, n: nat, port: int) returns (k: nat)
    requires port in Probed(start, n)
    ensures k < n && port == Nth(start, k)
  {
    if port == Nth(start, n - 1) {
      k := n - 1;
    } else {
      k := ProbedBy(start, n - 1, port);
    }
  }

  /** `n` attempts visit `n` ports, despite the wrap-around. */
  lemma {:induction false} ProbedSize(start: int, n: nat)
    requires InRange(start) && n <= LAST - FIRST + 1
    ensures |Probed(start, n)| == n
  {
    if n > 0 {
      ProbedSize(start, n - 1);
      if Nth(start, n - 1) in Probed(start, n - 1) {
        var k := ProbedBy(start, n - 1, Nth(start, n - 1));
        NthDistinct(start, k, n - 1);
      }
    }
  }

  ghost function LivePorts(ports: Keys<int, Owner>, now: int): set<int> {
    set port | port in ports && Live(ports, port, now)
  }

  datatype Outcome = Allocated(port: int) | NoPort | InvalidTtl

  class Ports {
    var ports: Keys<int, Owner>

    constructor ()
      ensures ports == map[]
    {
      ports := map[];
    }

    /** The scan, when nobody else touches the ports meanwhile: it takes the first
    free port, and fails exactly if all ports it may probe are taken, which are 1000. */
    method AllocatePort(owner: Owner, ttl: nat, start: int, now: int) returns (outcome: Outcome)
      requires FIRST <= start < LAST
      modifies this
      ensures outcome == InvalidTtl <==> ttl == 0
      ensures outcome.Allocated? ==>
                && InRange(outcome.port) && !Live(old(ports), outcome.port, now)
                && ports == SetEx(old(ports), outcome.port, owner, now, ttl)
                && exists k: nat :: k < MAX_ATTEMPTS && outcome.port == Nth(start, k)
                                    && forall j: nat :: j < k ==> Live(old(ports), Nth(start, j), now)
      ensures !outcome.Allocated? ==> ports == old(ports)
      ensures outcome == NoPort <==>
              ttl > 0 && forall j: nat :: j < MAX_ATTEMPTS ==> Live(old(ports), Nth(start, j), now)
      ensures outcome == NoPort ==> |LivePorts(old(ports), now)| >= MAX_ATTEMPTS
    {
      if ttl == 0 {
        return InvalidTtl;
      }
      var port, attempts := start, 0;
      while attempts < MAX_ATTEMPTS
        invariant 0 <= attempts <= MAX_ATTEMPTS
        invariant port == Nth(start, attempts) && ports == old(ports)
        invariant forall j: nat :: j < attempts ==> Live(ports, Nth(start, j), now)
      {
        NthInRange(start, attempts);
        var claimed := !Live(ports, port, now);
        ports := SetNxEx(ports, port, owner, now, ttl);
        if claimed {
          return Allocated(port);
        }
        port := if port == LAST then FIRST else port + 1;
        attempts := attempts + 1;
      }
      AllProbedLive(ports, start, now);
      return NoPort;
    }

    method ReleasePort(port: int)
      modifies this
      ensures ports == Del(old(ports), port)
    {
      ports := Del(ports, port);
    }
  }

  lemma AllProbedLive(ports: Keys<int, Owner>, start: int, now: int)
    requires InRange(start)
    requires forall j: nat :: j < MAX_ATTEMPTS ==> Live(ports, Nth(start, j), now)
    ensures |LivePorts(ports, now)| >= MAX_ATTEMPTS
  {
    Pigeonhole(start, LivePorts(ports, now));
  }

  /** A set that contains every port of a full scan has at least 1000 elements. */
  lemma Pigeonhole(start: int, taken: set<int>)
    requires InRange(start)
    requires forall j: nat :: j < MAX_ATTEMPTS ==> Nth(start, j) in taken
    ensures |taken| >= MAX_ATTEMPTS
  {
    forall port | port in Probed(start, MAX_ATTEMPTS) ensures port in taken {
      var _ := ProbedBy(start, MAX_ATTEMPTS, port);
    }
    ProbedSize(start, MAX_ATTEMPTS);
    SubsetSize(Probed(start, MAX_ATTEMPTS), taken);
  }
}
