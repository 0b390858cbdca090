/** Per-address connection admission: a sliding rate window, a limit on open
connections, blocking, and removal of idle entries.

The table functions say what each call does; the class performs the calls in
place and is proved against them.
*/
module DdosProtection {
  import opened Basics

  datatype Config = Config(
    maxConnectionsPerIp: nat,
    connectionRatePerMinute: nat,
    blockDuration: nat,
    rateWindow: nat)

  datatype IpInfo = IpInfo(active: nat, recent: seq<int>, blockedUntil: Option<int>)

  const UNSEEN := IpInfo(0, [], None)

  type Table = map<IpAddr, IpInfo>

  datatype Verdict = Accepted | Blocked | LimitExceeded

  function Lookup(table: Table, ip: IpAddr): IpInfo {
    if ip in table then table[ip] else UNSEEN
  }

  predicate BlockedAt(info: IpInfo, now: int) {
    info.blockedUntil.Some? && now < info.blockedUntil.value
  }

  /** The times of the list that are less than `age` old, in order. */
  function Recent(times: seq<int>, now: int, age: nat): (kept: seq<int>) {
    if times == [] then []
    else
      var last := |times| - 1;
      Recent(times[..last], now, age) + if Elapsed(now, times[last]) < age then [times[last]] else []
  }

  /** What a check does to the entry of an address that is not blocked. */
  function Admit(config: Config, info: IpInfo, now: int): (IpInfo, Verdict) {
    var recent := Recent(info.recent, now, config.rateWindow);
    if |recent| >= config.connectionRatePerMinute || info.active >= config.maxConnectionsPerIp then
      (IpInfo(info.active, recent, Some(now + config.blockDuration)), LimitExceeded)
    else
      (IpInfo(info.active + 1, recent + [now], info.blockedUntil), Accepted)
  }

  function Check(config: Config, table: Table, ip: IpAddr, now: int): (Table, Verdict) {
    if BlockedAt(Lookup(table, ip), now) then (table, Blocked)
    else
      var (info, verdict) := Admit(config, Lookup(table, ip), now);
      (table[ip := info], verdict)
  }

  function Close(table: Table, ip: IpAddr): Table {
    if ip !in table then table
    else table[ip := table[ip].(active := if table[ip].active == 0 then 0 else table[ip].active - 1)]
  }

  predicate Keep(config: Config, info: IpInfo, now: int) {
    info.active == 0 ==>
      || (exists i :: 0 <= i < |info.recent| && Elapsed(now, info.recent[i]) < 2 * config.rateWindow)
      || BlockedAt(info, now)
  }

  function Cleanup(config: Config, table: Table, now: int): Table {
    map ip | ip in table && Keep(config, table[ip], now) :: table[ip]
  }

  /** The `slot`-th open connection of an address. */
  datatype Connection = Connection(ip: IpAddr, slot: nat)

  ghost function Connections(table: Table): (all: set<Connection>)
    ensures forall c :: c in all <==> c.ip in table && c.slot < table[c.ip].active
  {
    set ip, slot: nat | ip in table && slot < table[ip].active :: Connection(ip, slot)
  }

  ghost function BlockedIps(table: Table, now: int): set<IpAddr> {
    set ip | ip in table && BlockedAt(table[ip], now)
  }

  datatype Stats = Stats(trackedIps: nat, blockedIps: nat, activeConnections: nat)

  /** The first `n` connections of one address. */
  ghost function Slots(ip: IpAddr, n: nat): (slots: set<Connection>)
    ensures |slots| == n
    ensures forall c :: c in slots <==> c.ip == ip && c.slot < n
  {
    if n == 0 then {} else Slots(ip, n - 1) + {Connection(ip, n - 1)}
  }

  lemma CountConnections(table: Table, ip: IpAddr, info: IpInfo)
    requires ip !in table
    ensures |Connections(table[ip := info])| == |Connections(table)| + info.active
  {
    UnionSize(Connections(table), Slots(ip, info.active), Connections(table[ip := info]));
  }

  lemma CountBlocked(table: Table, ip: IpAddr, info: IpInfo, now: int)
    requires ip !in table
    ensures |BlockedIps(table[ip := info], now)| == |BlockedIps(table, now)| + if BlockedAt(info, now) then 1 else 0
  {
    if BlockedAt(info, now) {
      assert BlockedIps(table[ip := info], now) == BlockedIps(table, now) + {ip};
    } else {
      assert BlockedIps(table[ip := info], now) == BlockedIps(table, now);
    }
  }

  class Protection {
    const config: Config
    var ipInfo: Table

    constructor (config: Config)
      ensures this.config == config && ipInfo == map[]
    {
      this.config := config;
      ipInfo := map[];
    }

    method IsBlocked(ip: IpAddr, now: int) returns (blocked: bool)
      ensures blocked == BlockedAt(Lookup(ipInfo, ip), now)
    {
      if ip in ipInfo {
        match ipInfo[ip].blockedUntil
        case Some(until) => return now < until;
        case None =>
      }
      return false;
    }

    method CheckConnectionLimit(ip: IpAddr, now: int) returns (verdict: Verdict)
      modifies this
      ensures (ipInfo, verdict) == Check(config, old(ipInfo), ip, now)
    {
      var blocked := IsBlocked(ip, now);
      if blocked {
        return Blocked;
      }
      var shouldBlock := false;
      var info := if ip in ipInfo then ipInfo[ip] else UNSEEN;
      info := info.(recent := Recent(info.recent, now, config.rateWindow));
      if |info.recent| >= config.connectionRatePerMinute {
        shouldBlock := true;
      }
      if info.active >= config.maxConnectionsPerIp {
        shouldBlock := true;
      }
      if shouldBlock {
        ipInfo := ipInfo[ip := info.(blockedUntil := Some(now + config.blockDuration))];
        return LimitExceeded;
      }
      info := info.(active := info.active + 1, recent := info.recent + [now]);
      ipInfo := ipInfo[ip := info];
      return Accepted;
    }

    method ConnectionClosed(ip: IpAddr)
      modifies this
      ensures ipInfo == Close(old(ipInfo), ip)
    {
      if ip in ipInfo {
        var info := ipInfo[ip];
        if info.active > 0 {
          info := info.(active := info.active - 1);
        }
        ipInfo := ipInfo[ip := info];
      }
    }

    method GetStats(now: int) returns (stats: Stats)
      ensures stats == Stats(|ipInfo|, |BlockedIps(ipInfo, now)|, |Connections(ipInfo)|)
    {
      var blocked, active := 0, 0;
      var left := ipInfo.Keys;
      ghost var seen: Table := map[];
      while left != {}
        invariant left <= ipInfo.Keys
        invariant seen == map ip | ip in ipInfo && ip !in left :: ipInfo[ip]
        invariant blocked == |BlockedIps(seen, now)| && active == |Connections(seen)|
        decreases left
      {
        var ip :| ip in left;
        CountConnections(seen, ip, ipInfo[ip]);
        CountBlocked(seen, ip, ipInfo[ip], now);
        if BlockedAt(ipInfo[ip], now) {
          blocked := blocked + 1;
        }
        active := active + ipInfo[ip].active;
        seen := seen[ip := ipInfo[ip]];
        left := left - {ip};
      }
      assert seen == ipInfo;
      stats := Stats(|ipInfo|, blocked, active);
    }

    method CleanupOldEntries(now: int)
      modifies this
      ensures ipInfo == Cleanup(config, old(ipInfo), now)
    {
      var left := ipInfo.Keys;
      var kept: Table := map[];
      while left != {}
        invariant left <= ipInfo.Keys
        invariant kept == map ip | ip in ipInfo && ip !in left && Keep(config, ipInfo[ip], now) :: ipInfo[ip]
        invariant ipInfo == old(ipInfo)
        decreases left
      {
        var ip :| ip in left;
        if Keep(config, ipInfo[ip], now) {
          kept := kept[ip := ipInfo[ip]];
        }
        left := left - {ip};
      }
      ipInfo := kept;
    }
  }
}
