/**
 * The periodic anomaly scan `detect_suspicious_ips`: over the request log
 * of the last window, flag every address that made more requests than the
 * threshold, then every address that requested a sensitive path. Flags are
 * created with get-or-create keyed on the address alone, so the first reason
 * recorded for an address stays.
 */
module Tasks {
  import opened Wrappers
  import opened Strings
  import opened Models

  /** The scan's policy: look-back window in seconds, request threshold, sensitive paths. */
  datatype ScanConfig = ScanConfig(window: nat, threshold: nat, sensitivePaths: seq<string>)

  const SENSITIVE_PATHS: seq<string> := ["/admin", "/login"]
  const REQUEST_THRESHOLD: nat := 100
  /** `timedelta(hours=1)`, in seconds. */
  const WINDOW_SECONDS: nat := 3600
  const DEFAULT_CONFIG := ScanConfig(WINDOW_SECONDS, REQUEST_THRESHOLD, SENSITIVE_PATHS)

  /** The oldest timestamp still inside the window ending at `now` (the bound is inclusive). */
  function Cutoff(now: int, config: ScanConfig): (c: int)
    ensures c <= now && now - c == config.window
  {
    now - config.window
  }

  /** The addresses that occur in a run of log entries. */
  function IpsOf(s: seq<LogEntry>): (ips: set<Option<string>>)
  {
    if s == [] then {} else IpsOf(s[..|s| - 1]) + {s[|s| - 1].ip}
  }

  /** The address of every entry occurs. */
  lemma {:induction false} IpsOfMember(s: seq<LogEntry>, k: nat)
    requires k < |s|
    ensures s[k].ip in IpsOf(s)
  {
    if k < |s| - 1 {
      assert s[..|s| - 1][k] == s[k];
      IpsOfMember(s[..|s| - 1], k);
    }
  }

  /** Every address that occurs is carried by some entry, the `k`th. */
  lemma {:induction false} IpsOfWitness(s: seq<LogEntry>, ip: Option<string>) returns (k: nat)
    requires ip in IpsOf(s)
    ensures k < |s| && s[k].ip == ip
  {
    if s[|s| - 1].ip == ip {
      k := |s| - 1;
    } else {
      k := IpsOfWitness(s[..|s| - 1], ip);
      assert s[..|s| - 1][k] == s[k];
    }
  }

  /** A run whose entries all occur in another has no other addresses. */
  lemma IpsOfSubset(a: seq<LogEntry>, b: seq<LogEntry>)
    requires forall e :: e in a ==> e in b
    ensures IpsOf(a) <= IpsOf(b)
  {
    forall ip | ip in IpsOf(a)
      ensures ip in IpsOf(b)
    {
      var k := IpsOfWitness(a, ip);
      assert a[k] in b;
      var j :| 0 <= j < |b| && b[j] == a[k];
      IpsOfMember(b, j);
    }
  }

  /** `RequestLog.objects.filter(timestamp__gte=cutoff)`, in table order. */
  function Recent(logs: seq<LogEntry>, cutoff: int): (r: seq<LogEntry>)
    ensures forall e :: e in r <==> e in logs && e.timestamp >= cutoff
  {
    if logs == [] then []
    else
      var last := logs[|logs| - 1];
      assert logs == logs[..|logs| - 1] + [last];
      Recent(logs[..|logs| - 1], cutoff) + (if last.timestamp >= cutoff then [last] else [])
  }

  /**
   * `RequestLog.objects.filter(timestamp__gte=cutoff, path__in=paths)`:
   * the in-window entries whose path is exactly one of the sensitive paths.
   */
  function Hits(logs: seq<LogEntry>, cutoff: int, paths: seq<string>): (r: seq<LogEntry>)
    ensures forall e :: e in r <==> e in logs && e.timestamp >= cutoff && e.path in paths
  {
    if logs == [] then []
    else
      var last := logs[|logs| - 1];
      assert logs == logs[..|logs| - 1] + [last];
      Hits(logs[..|logs| - 1], cutoff, paths) + (if last.timestamp >= cutoff && last.path in paths then [last] else [])
  }

  /** The number of entries for address `ip`: the `Count("id")` of its group. */
  function CountFor(s: seq<LogEntry>, ip: Option<string>): (n: nat)
    ensures n <= |s|
    ensures n > 0 <==> ip in IpsOf(s)
  {
    if s == [] then 0
    else CountFor(s[..|s| - 1], ip) + (if s[|s| - 1].ip == ip then 1 else 0)
  }

  /**
   * `.values("ip_address")`: one row per address, each address once, in
   * order of first appearance.
   */
  function Addresses(s: seq<LogEntry>): (r: seq<Option<string>>)
    ensures forall a :: a in r <==> a in IpsOf(s)
    ensures forall i, j :: 0 <= i < j < |r| ==> r[i] != r[j]
  {
    if s == [] then []
    else
      var rest := Addresses(s[..|s| - 1]);
      var ip := s[|s| - 1].ip;
      if ip in rest then rest else rest + [ip]
  }

  /** The path of the first entry for address `ip`, if there is one. */
  function FirstPathFor(s: seq<LogEntry>, ip: Option<string>): (r: Option<string>)
    ensures r.Some? <==> ip in IpsOf(s)
    ensures r.Some? ==>
      exists k :: 0 <= k < |s| && s[k].ip == ip && s[k].path == r.value && forall j :: 0 <= j < k ==> s[j].ip != ip
  {
    if s == [] then None
    else
      var prefix := s[..|s| - 1];
      match FirstPathFor(prefix, ip)
      case Some(p) =>
        assert forall k :: 0 <= k < |s| - 1 ==> prefix[k] == s[k];
        Some(p)
      case None =>
        if s[|s| - 1].ip == ip then
          assert forall j :: 0 <= j < |s| - 1 ==> s[j].ip != ip by {
            forall j | 0 <= j < |s| - 1
              ensures s[j].ip != ip
            {
              assert prefix[j] == s[j];
              IpsOfMember(prefix, j);
            }
          }
          Some(s[|s| - 1].path)
        else None
  }

  /** Appending an entry to the log extends the window query by that entry when it is recent. */
  lemma RecentSnoc(logs: seq<LogEntry>, e: LogEntry, cutoff: int)
    ensures e.timestamp >= cutoff ==> Recent(logs + [e], cutoff) == Recent(logs, cutoff) + [e]
    ensures e.timestamp < cutoff ==> Recent(logs + [e], cutoff) == Recent(logs, cutoff)
  {
    assert (logs + [e])[..|logs|] == logs;
  }

  /** Appending an entry to the log extends the sensitive-path query by that entry when it is a hit. */
  lemma HitsSnoc(logs: seq<LogEntry>, e: LogEntry, cutoff: int, paths: seq<string>)
    ensures e.timestamp >= cutoff && e.path in paths ==> Hits(logs + [e], cutoff, paths) == Hits(logs, cutoff, paths) + [e]
    ensures !(e.timestamp >= cutoff && e.path in paths) ==> Hits(logs + [e], cutoff, paths) == Hits(logs, cutoff, paths)
  {
    assert (logs + [e])[..|logs|] == logs;
  }

  /** Appending an entry adds one to its own address's count and nothing to the others. */
  lemma CountSnoc(s: seq<LogEntry>, e: LogEntry, ip: Option<string>)
    ensures CountFor(s + [e], ip) == CountFor(s, ip) + (if e.ip == ip then 1 else 0)
  {
    assert (s + [e])[..|s|] == s;
  }

  /** The reason stored by the volume pass. */
  function VolumeReason(threshold: nat): (reason: string)
  {
    "Exceeded " + NatToDecimal(threshold) + " requests/hour"
  }

  /** The reason stored by the sensitive-path pass. */
  function PathReason(path: string): (reason: string)
  {
    "Accessed sensitive path: " + path
  }

  /** The two kinds of reason never coincide. */
  lemma VolumeReasonIsNotPathReason(threshold: nat, path: string)
    ensures VolumeReason(threshold) != PathReason(path)
  {
    assert VolumeReason(threshold)[0] == 'E';
    assert PathReason(path)[0] == 'A';
  }

  /** The volume reason determines the threshold it reports. */
  lemma VolumeReasonInjective(a: nat, b: nat)
    requires VolumeReason(a) == VolumeReason(b)
    ensures a == b
  {
    var ra, rb := VolumeReason(a), VolumeReason(b);
    assert ra[9..|ra| - 14] == NatToDecimal(a);
    assert rb[9..|rb| - 14] == NatToDecimal(b);
    DecimalRoundTrip(a);
    DecimalRoundTrip(b);
  }

  /** The path reason determines the path it reports. */
  lemma PathReasonInjective(p: string, q: string)
    requires PathReason(p) == PathReason(q)
    ensures p == q
  {
    assert PathReason(p)[25..] == p;
    assert PathReason(q)[25..] == q;
  }

  /**
   * The reason a scan would record for an address not flagged before: the
   * volume reason when its in-window count is above the threshold (the
   * volume pass runs first), else the path of its first in-window hit on a
   * sensitive path, else none.
   */
  function NewReason(logs: seq<LogEntry>, cutoff: int, config: ScanConfig, ip: Option<string>): (reason: Option<string>)
  {
    if CountFor(Recent(logs, cutoff), ip) > config.threshold then
      Some(VolumeReason(config.threshold))
    else
      match FirstPathFor(Hits(logs, cutoff, config.sensitivePaths), ip)
      case Some(p) => Some(PathReason(p))
      case None => None
  }

  /** The flag an address has after a scan: its earlier flag if any, else its new reason. */
  function FlagFor(flags: FlagTable, logs: seq<LogEntry>, cutoff: int, config: ScanConfig, ip: Option<string>): (flag: Option<string>)
  {
    if ip in flags then Some(flags[ip]) else NewReason(logs, cutoff, config, ip)
  }

  /**
   * The flag table after one scan: every earlier flag kept as it was, and a
   * flag added for every other address that has a new reason.
   */
  function Scanned(flags: FlagTable, logs: seq<LogEntry>, cutoff: int, config: ScanConfig): (r: FlagTable)
    ensures forall ip :: ip in flags ==> ip in r && r[ip] == flags[ip]
  {
    map ip | ip in flags.Keys + IpsOf(logs) && FlagFor(flags, logs, cutoff, config, ip).Some?
      :: FlagFor(flags, logs, cutoff, config, ip).value
  }

  /** Every address with a new reason occurs in the log. */
  lemma NewReasonOccurs(logs: seq<LogEntry>, cutoff: int, config: ScanConfig, ip: Option<string>)
    requires NewReason(logs, cutoff, config, ip).Some?
    ensures ip in IpsOf(logs)
  {
    var recent := Recent(logs, cutoff);
    var hits := Hits(logs, cutoff, config.sensitivePaths);
    if CountFor(recent, ip) > config.threshold {
      IpsOfSubset(recent, logs);
    } else {
      IpsOfSubset(hits, logs);
    }
  }

  /** Scanned, read at one address. */
  lemma ScannedAt(flags: FlagTable, logs: seq<LogEntry>, cutoff: int, config: ScanConfig, ip: Option<string>)
    ensures var r := Scanned(flags, logs, cutoff, config);
      && (ip in r <==> FlagFor(flags, logs, cutoff, config, ip).Some?)
      && (ip in r ==> r[ip] == FlagFor(flags, logs, cutoff, config, ip).value)
  {
    if ip !in flags && NewReason(logs, cutoff, config, ip).Some? {
      NewReasonOccurs(logs, cutoff, config, ip);
    }
  }

  /** Two flag tables that agree at every address are equal. */
  lemma FlagTablesEqual(a: FlagTable, b: FlagTable)
    requires forall ip :: (ip in a <==> ip in b) && (ip in a ==> a[ip] == b[ip])
    ensures a == b
  {
  }

  /** `get_or_create(ip_address=ip, defaults={"reason": reason})` on the flag table. */
  function GetOrCreate(table: FlagTable, ip: Option<string>, reason: string): (r: FlagTable)
    ensures r.Keys == table.Keys + {ip}
    ensures forall a :: a in table ==> r[a] == table[a]
    ensures ip !in table ==> r[ip] == reason
  {
    if ip in table then table else table[ip := reason]
  }

  /** The table after the volume pass has visited the address groups `groups`, in order. */
  function VolumePass(flags: FlagTable, recent: seq<LogEntry>, threshold: nat, groups: seq<Option<string>>): (r: FlagTable)
  {
    if groups == [] then flags
    else
      var ip := groups[|groups| - 1];
      var table := VolumePass(flags, recent, threshold, groups[..|groups| - 1]);
      if CountFor(recent, ip) > threshold then GetOrCreate(table, ip, VolumeReason(threshold)) else table
  }

  /** The table after the sensitive-path pass has visited the entries `hits`, in order. */
  function PathPass(table: FlagTable, hits: seq<LogEntry>): (r: FlagTable)
  {
    if hits == [] then table
    else
      var log := hits[|hits| - 1];
      GetOrCreate(PathPass(table, hits[..|hits| - 1]), log.ip, PathReason(log.path))
  }

  /**
   * After the volume pass an address is flagged iff it was flagged before or
   * its group is over the threshold; earlier flags keep their reason.
   */
  lemma {:induction false} VolumePassAt(flags: FlagTable, recent: seq<LogEntry>, threshold: nat, groups: seq<Option<string>>, ip: Option<string>)
    ensures var table := VolumePass(flags, recent, threshold, groups);
      && (ip in table <==> ip in flags || (ip in groups && CountFor(recent, ip) > threshold))
      && (ip in table ==> table[ip] == if ip in flags then flags[ip] else VolumeReason(threshold))
  {
    if groups != [] {
      var prefix := groups[..|groups| - 1];
      assert groups == prefix + [groups[|groups| - 1]];
      VolumePassAt(flags, recent, threshold, prefix, ip);
    }
  }

  /**
   * After the sensitive-path pass an address is flagged iff it was flagged
   * before or it has a hit; a new flag names the path of its first hit.
   */
  lemma {:induction false} PathPassAt(table: FlagTable, hits: seq<LogEntry>, ip: Option<string>)
    ensures var after := PathPass(table, hits);
      && (ip in after <==> ip in table || FirstPathFor(hits, ip).Some?)
      && (ip in after ==> after[ip] == if ip in table then table[ip] else PathReason(FirstPathFor(hits, ip).value))
  {
    if hits != [] {
      PathPassAt(table, hits[..|hits| - 1], ip);
    }
  }

  /** The two passes in order compute Scanned. */
  lemma PassesCompose(flags: FlagTable, logs: seq<LogEntry>, cutoff: int, config: ScanConfig)
    ensures var recent := Recent(logs, cutoff);
      PathPass(VolumePass(flags, recent, config.threshold, Addresses(recent)), Hits(logs, cutoff, config.sensitivePaths))
      == Scanned(flags, logs, cutoff, config)
  {
    var recent := Recent(logs, cutoff);
    var volume := VolumePass(flags, recent, config.threshold, Addresses(recent));
    var hits := Hits(logs, cutoff, config.sensitivePaths);
    var table := PathPass(volume, hits);
    var scanned := Scanned(flags, logs, cutoff, config);
    forall ip
      ensures (ip in table <==> ip in scanned) && (ip in table ==> table[ip] == scanned[ip])
    {
      VolumePassAt(flags, recent, config.threshold, Addresses(recent), ip);
      PathPassAt(volume, hits, ip);
      ScannedAt(flags, logs, cutoff, config, ip);
    }
    FlagTablesEqual(table, scanned);
  }

  /** One more group visited by the volume pass. */
  lemma VolumePassStep(flags: FlagTable, recent: seq<LogEntry>, threshold: nat, groups: seq<Option<string>>, i: nat)
    requires i < |groups|
    ensures var before := VolumePass(flags, recent, threshold, groups[..i]);
      VolumePass(flags, recent, threshold, groups[..i + 1])
      == if CountFor(recent, groups[i]) > threshold then GetOrCreate(before, groups[i], VolumeReason(threshold)) else before
  {
    assert groups[..i + 1][..i] == groups[..i];
  }

  /** One more hit visited by the sensitive-path pass. */
  lemma PathPassStep(table: FlagTable, hits: seq<LogEntry>, j: nat)
    requires j < |hits|
    ensures PathPass(table, hits[..j + 1]) == GetOrCreate(PathPass(table, hits[..j]), hits[j].ip, PathReason(hits[j].path))
  {
    assert hits[..j + 1][..j] == hits[..j];
  }

  /**
   * `detect_suspicious_ips`: the volume pass over the per-address counts,
   * then the sensitive-path pass over the matching entries, both on the
   * window that ends at `now`.
   */
  method DetectSuspiciousIps(flags: FlagTable, logs: seq<LogEntry>, now: int, config: ScanConfig)
    returns (table: FlagTable)
    ensures table == Scanned(flags, logs, Cutoff(now, config), config)
  {
    var cutoff := Cutoff(now, config);
    var recent := Recent(logs, cutoff);
    var groups := Addresses(recent);
    table := flags;
    for i := 0 to |groups|
      invariant table == VolumePass(flags, recent, config.threshold, groups[..i])
    {
      VolumePassStep(flags, recent, config.threshold, groups, i);
      var ip := groups[i];
      var count := CountFor(recent, ip);
      if count > config.threshold {
        table := GetOrCreate(table, ip, VolumeReason(config.threshold));
      }
    }
    assert groups[..|groups|] == groups;

    ghost var volume := table;
    var hits := Hits(logs, cutoff, config.sensitivePaths);
    for j := 0 to |hits|
      invariant table == PathPass(volume, hits[..j])
    {
      PathPassStep(volume, hits, j);
      var log := hits[j];
      table := GetOrCreate(table, log.ip, PathReason(log.path));
    }
    assert hits[..|hits|] == hits;
    PassesCompose(flags, logs, cutoff, config);
  }

  /** An in-window request for `ip` to one of the sensitive paths. */
  predicate HasHit(logs: seq<LogEntry>, cutoff: int, config: ScanConfig, ip: Option<string>)
  {
    exists e :: e in logs && e.ip == ip && e.timestamp >= cutoff && e.path in config.sensitivePaths
  }

  /** An address has an in-window sensitive hit exactly when it occurs among the hits. */
  lemma HasHitIffInHits(logs: seq<LogEntry>, cutoff: int, config: ScanConfig, ip: Option<string>)
    ensures HasHit(logs, cutoff, config, ip) <==> ip in IpsOf(Hits(logs, cutoff, config.sensitivePaths))
  {
    var hits := Hits(logs, cutoff, config.sensitivePaths);
    if HasHit(logs, cutoff, config, ip) {
      var e :| e in logs && e.ip == ip && e.timestamp >= cutoff && e.path in config.sensitivePaths;
      assert e in hits;
      var k :| 0 <= k < |hits| && hits[k] == e;
      IpsOfMember(hits, k);
    }
    if ip in IpsOf(hits) {
      var k := IpsOfWitness(hits, ip);
      assert hits[k] in hits;
    }
  }

  /**
   * After a scan an address is flagged exactly when it was flagged before,
   * or it made more than `threshold` requests in the window, or it made an
   * in-window request to a sensitive path.
   */
  lemma FlaggedIffSuspicious(flags: FlagTable, logs: seq<LogEntry>, cutoff: int, config: ScanConfig, ip: Option<string>)
    ensures ip in Scanned(flags, logs, cutoff, config) <==>
      ip in flags || CountFor(Recent(logs, cutoff), ip) > config.threshold || HasHit(logs, cutoff, config, ip)
  {
    ScannedAt(flags, logs, cutoff, config, ip);
    HasHitIffInHits(logs, cutoff, config, ip);
  }

  /** Moving the cutoff later never raises an address's in-window count. */
  lemma {:induction false} LaterCutoffCountsLess(logs: seq<LogEntry>, earlier: int, later: int, ip: Option<string>)
    requires earlier <= later
    ensures CountFor(Recent(logs, later), ip) <= CountFor(Recent(logs, earlier), ip)
  {
    if logs != [] {
      var prefix := logs[..|logs| - 1];
      var e := logs[|logs| - 1];
      assert logs == prefix + [e];
      LaterCutoffCountsLess(prefix, earlier, later, ip);
      RecentSnoc(prefix, e, earlier);
      RecentSnoc(prefix, e, later);
      CountSnoc(Recent(prefix, earlier), e, ip);
      CountSnoc(Recent(prefix, later), e, ip);
    }
  }

  /**
   * Running the scan again on the same log, at the same time or later,
   * changes nothing: a later run sees a subset of the window, so it finds no
   * address that the first run did not already flag.
   */
  lemma ScanIsIdempotent(flags: FlagTable, logs: seq<LogEntry>, earlier: int, later: int, config: ScanConfig)
    requires earlier <= later
    ensures var once := Scanned(flags, logs, earlier, config);
      Scanned(once, logs, later, config) == once
  {
    var once := Scanned(flags, logs, earlier, config);
    var twice := Scanned(once, logs, later, config);
    forall ip
      ensures (ip in twice <==> ip in once) && (ip in twice ==> twice[ip] == once[ip])
    {
      FlaggedIffSuspicious(flags, logs, earlier, config, ip);
      FlaggedIffSuspicious(once, logs, later, config, ip);
      LaterCutoffCountsLess(logs, earlier, later, ip);
      ScannedAt(once, logs, later, config, ip);
    }
    FlagTablesEqual(twice, once);
  }

  /**
   * The volume pass runs first: an address not flagged before and over the
   * threshold gets the volume reason, even when it also has a sensitive hit.
   */
  lemma VolumeReasonComesFirst(flags: FlagTable, logs: seq<LogEntry>, cutoff: int, config: ScanConfig, ip: Option<string>)
    requires ip !in flags
    requires CountFor(Recent(logs, cutoff), ip) > config.threshold
    ensures var r := Scanned(flags, logs, cutoff, config);
      ip in r && r[ip] == VolumeReason(config.threshold)
  {
    ScannedAt(flags, logs, cutoff, config, ip);
  }

  /**
   * An address flagged only for a sensitive path records the path of its
   * first in-window request to a sensitive path: `hit` is that request, at
   * index `k` of the sensitive-path query, and no earlier entry there is
   * from the same address.
   */
  lemma PathReasonNamesFirstHit(flags: FlagTable, logs: seq<LogEntry>, cutoff: int, config: ScanConfig, ip: Option<string>)
    returns (hit: LogEntry, k: nat)
    requires ip !in flags
    requires CountFor(Recent(logs, cutoff), ip) <= config.threshold
    requires HasHit(logs, cutoff, config, ip)
    ensures hit in logs && hit.ip == ip && hit.timestamp >= cutoff && hit.path in config.sensitivePaths
    ensures var hits := Hits(logs, cutoff, config.sensitivePaths);
      && k < |hits| && hits[k] == hit
      && forall j :: 0 <= j < k ==> hits[j].ip != ip
    ensures var r := Scanned(flags, logs, cutoff, config);
      ip in r && r[ip] == PathReason(hit.path)
  {
    FlaggedIffSuspicious(flags, logs, cutoff, config, ip);
    ScannedAt(flags, logs, cutoff, config, ip);
    var hits := Hits(logs, cutoff, config.sensitivePaths);
    var p := FirstPathFor(hits, ip).value;
    k :| 0 <= k < |hits| && hits[k].ip == ip && hits[k].path == p && forall j :: 0 <= j < k ==> hits[j].ip != ip;
    hit := hits[k];
  }

  /** Dropping an entry older than the cutoff, wherever it sits, leaves the window query as it was. */
  lemma {:induction false} RecentDropsStale(a: seq<LogEntry>, e: LogEntry, b: seq<LogEntry>, cutoff: int)
    requires e.timestamp < cutoff
    ensures Recent(a + [e] + b, cutoff) == Recent(a + b, cutoff)
  {
    if b == [] {
      assert a + [e] + b == a + [e] && a + b == a;
      RecentSnoc(a, e, cutoff);
    } else {
      var front := b[..|b| - 1];
      var x := b[|b| - 1];
      assert a + [e] + b == (a + [e] + front) + [x];
      assert a + b == (a + front) + [x];
      RecentDropsStale(a, e, front, cutoff);
      RecentSnoc(a + [e] + front, x, cutoff);
      RecentSnoc(a + front, x, cutoff);
    }
  }

  /** Dropping an entry older than the cutoff, wherever it sits, leaves the sensitive-path query as it was. */
  lemma {:induction false} HitsDropsStale(a: seq<LogEntry>, e: LogEntry, b: seq<LogEntry>, cutoff: int, paths: seq<string>)
    requires e.timestamp < cutoff
    ensures Hits(a + [e] + b, cutoff, paths) == Hits(a + b, cutoff, paths)
  {
    if b == [] {
      assert a + [e] + b == a + [e] && a + b == a;
      HitsSnoc(a, e, cutoff, paths);
    } else {
      var front := b[..|b| - 1];
      var x := b[|b| - 1];
      assert a + [e] + b == (a + [e] + front) + [x];
      assert a + b == (a + front) + [x];
      HitsDropsStale(a, e, front, cutoff, paths);
      HitsSnoc(a + [e] + front, x, cutoff, paths);
      HitsSnoc(a + front, x, cutoff, paths);
    }
  }

  /** An entry older than the cutoff gives no address a new reason and takes none away. */
  lemma StaleEntryKeepsReasons(a: seq<LogEntry>, e: LogEntry, b: seq<LogEntry>, cutoff: int, config: ScanConfig, ip: Option<string>)
    requires e.timestamp < cutoff
    ensures NewReason(a + [e] + b, cutoff, config, ip) == NewReason(a + b, cutoff, config, ip)
  {
    RecentDropsStale(a, e, b, cutoff);
    HitsDropsStale(a, e, b, cutoff, config.sensitivePaths);
  }

  /**
   * An entry older than the cutoff changes nothing in the scan, wherever it
   * sits in the log: at the front, where old entries accumulate, or anywhere
   * else.
   */
  lemma StaleEntryIsIgnored(flags: FlagTable, a: seq<LogEntry>, e: LogEntry, b: seq<LogEntry>, cutoff: int, config: ScanConfig)
    requires e.timestamp < cutoff
    ensures Scanned(flags, a + [e] + b, cutoff, config) == Scanned(flags, a + b, cutoff, config)
  {
    var with := Scanned(flags, a + [e] + b, cutoff, config);
    var without := Scanned(flags, a + b, cutoff, config);
    forall ip
      ensures (ip in with <==> ip in without) && (ip in with ==> with[ip] == without[ip])
    {
      StaleEntryKeepsReasons(a, e, b, cutoff, config, ip);
      ScannedAt(flags, a + [e] + b, cutoff, config, ip);
      ScannedAt(flags, a + b, cutoff, config, ip);
    }
    FlagTablesEqual(with, without);
  }

  /** The window bound is inclusive: an entry stamped exactly at the cutoff is counted. */
  lemma EntryAtCutoffIsCounted(logs: seq<LogEntry>, e: LogEntry, cutoff: int)
    requires e.timestamp == cutoff
    ensures CountFor(Recent(logs + [e], cutoff), e.ip) == CountFor(Recent(logs, cutoff), e.ip) + 1
  {
    RecentSnoc(logs, e, cutoff);
    CountSnoc(Recent(logs, cutoff), e, e.ip);
  }

  /** `n` copies of one request. */
  function Repeat(e: LogEntry, n: nat): (r: seq<LogEntry>)
    ensures |r| == n
  {
    if n == 0 then [] else Repeat(e, n - 1) + [e]
  }

  /** Copies of an in-window request are all in the window. */
  lemma {:induction false} RepeatIsRecent(e: LogEntry, n: nat, cutoff: int)
    requires e.timestamp >= cutoff
    ensures Recent(Repeat(e, n), cutoff) == Repeat(e, n)
  {
    if n > 0 {
      var r := Repeat(e, n);
      var shorter := Repeat(e, n - 1);
      assert r[..n - 1] == shorter && r[n - 1] == e;
      RepeatIsRecent(e, n - 1, cutoff);
      assert Recent(r, cutoff) == Recent(shorter, cutoff) + [e];
    }
  }

  /** `n` copies of one request count `n` for its address. */
  lemma {:induction false} RepeatCount(e: LogEntry, n: nat)
    ensures CountFor(Repeat(e, n), e.ip) == n
  {
    if n > 0 {
      var r := Repeat(e, n);
      assert r[..n - 1] == Repeat(e, n - 1) && r[n - 1] == e;
      RepeatCount(e, n - 1);
    }
  }

  /** Copies of a request to an ordinary path hit no sensitive path. */
  lemma {:induction false} RepeatHitsNothing(e: LogEntry, n: nat, cutoff: int, paths: seq<string>)
    requires e.path !in paths
    ensures Hits(Repeat(e, n), cutoff, paths) == []
  {
    if n > 0 {
      var r := Repeat(e, n);
      assert r[..n - 1] == Repeat(e, n - 1) && r[n - 1] == e;
      RepeatHitsNothing(e, n - 1, cutoff, paths);
    }
  }

  /** Copies of a request all carry its address. */
  lemma {:induction false} RepeatAddresses(e: LogEntry, n: nat)
    ensures IpsOf(Repeat(e, n)) == if n == 0 then {} else {e.ip}
  {
    if n > 0 {
      assert Repeat(e, n)[..n - 1] == Repeat(e, n - 1);
      RepeatAddresses(e, n - 1);
    }
  }

  /** The volume reason under the default policy. */
  lemma DefaultVolumeReason()
    ensures VolumeReason(REQUEST_THRESHOLD) == "Exceeded 100 requests/hour"
  {
    assert NatToDecimal(10) == NatToDecimal(1) + [DigitChar(0)];
    assert NatToDecimal(100) == "100";
  }

  /** The scan of `n` ordinary requests, read at one address. */
  lemma RepeatScannedAt(e: LogEntry, n: nat, cutoff: int, config: ScanConfig, ip: Option<string>)
    requires e.timestamp >= cutoff && e.path !in config.sensitivePaths
    ensures var r := Scanned(map[], Repeat(e, n), cutoff, config);
      && (ip in r <==> ip == e.ip && n > config.threshold)
      && (ip in r ==> r[ip] == VolumeReason(config.threshold))
  {
    RepeatIsRecent(e, n, cutoff);
    RepeatCount(e, n);
    RepeatHitsNothing(e, n, cutoff, config.sensitivePaths);
    RepeatAddresses(e, n);
    ScannedAt(map[], Repeat(e, n), cutoff, config, ip);
    if ip != e.ip {
      IpsOfSubset(Recent(Repeat(e, n), cutoff), Repeat(e, n));
    }
  }

  /**
   * The threshold is strict: under the default policy, on an empty flag
   * table, an address whose only in-window requests are `n` requests to an
   * ordinary path is flagged for volume when `n` is 101 or more, and not at
   * all when `n` is 100 or fewer.
   */
  lemma ThresholdIsStrict(e: LogEntry, n: nat, now: int)
    requires e.timestamp >= Cutoff(now, DEFAULT_CONFIG) && e.path !in SENSITIVE_PATHS
    ensures Scanned(map[], Repeat(e, n), Cutoff(now, DEFAULT_CONFIG), DEFAULT_CONFIG)
      == if n > 100 then map[e.ip := "Exceeded 100 requests/hour"] else map[]
  {
    var cutoff := Cutoff(now, DEFAULT_CONFIG);
    DefaultVolumeReason();
    var a := Scanned(map[], Repeat(e, n), cutoff, DEFAULT_CONFIG);
    var b: FlagTable := if n > 100 then map[e.ip := "Exceeded 100 requests/hour"] else map[];
    forall ip
      ensures (ip in a <==> ip in b) && (ip in a ==> a[ip] == b[ip])
    {
      RepeatScannedAt(e, n, cutoff, DEFAULT_CONFIG, ip);
    }
    FlagTablesEqual(a, b);
  }

  /** The scan of a single in-window request, read at one address. */
  lemma SingleScannedAt(e: LogEntry, cutoff: int, config: ScanConfig, ip: Option<string>)
    requires e.timestamp >= cutoff && config.threshold >= 1
    ensures var r := Scanned(map[], [e], cutoff, config);
      && (ip in r <==> ip == e.ip && e.path in config.sensitivePaths)
      && (ip in r ==> r[ip] == PathReason(e.path))
  {
    var logs := [e];
    assert logs == [] + [e];
    RecentSnoc([], e, cutoff);
    HitsSnoc([], e, cutoff, config.sensitivePaths);
    assert logs[..0] == [];
    assert IpsOf(logs) == {e.ip};
    ScannedAt(map[], logs, cutoff, config, ip);
  }

  /**
   * Sensitive paths match exactly: under the default policy, on an empty
   * flag table, a single in-window request flags its address with the path
   * when the path is `/admin` or `/login`, and flags nothing otherwise.
   */
  lemma SinglePathRequest(e: LogEntry, now: int)
    requires e.timestamp >= Cutoff(now, DEFAULT_CONFIG)
    ensures Scanned(map[], [e], Cutoff(now, DEFAULT_CONFIG), DEFAULT_CONFIG)
      == if e.path in SENSITIVE_PATHS then map[e.ip := "Accessed sensitive path: " + e.path] else map[]
  {
    var cutoff := Cutoff(now, DEFAULT_CONFIG);
    var a := Scanned(map[], [e], cutoff, DEFAULT_CONFIG);
    var b: FlagTable := if e.path in SENSITIVE_PATHS then map[e.ip := "Accessed sensitive path: " + e.path] else map[];
    forall ip
      ensures (ip in a <==> ip in b) && (ip in a ==> a[ip] == b[ip])
    {
      SingleScannedAt(e, cutoff, DEFAULT_CONFIG, ip);
    }
    FlagTablesEqual(a, b);
  }

  /** A request to `/login` is flagged with that path. */
  lemma LoginIsSensitive(e: LogEntry, now: int)
    requires e == LogEntry(Some("B"), "/login", now)
    ensures Scanned(map[], [e], Cutoff(now, DEFAULT_CONFIG), DEFAULT_CONFIG) == map[Some("B") := "Accessed sensitive path: /login"]
  {
    assert e.path in SENSITIVE_PATHS;
    SinglePathRequest(e, now);
    assert "Accessed sensitive path: " + e.path == "Accessed sensitive path: /login";
    assert map[e.ip := "Accessed sensitive path: " + e.path] == map[Some("B") := "Accessed sensitive path: /login"];
  }

  /** Near misses such as `/admin/` and `/login?x` are not sensitive paths. */
  lemma NearMissesAreNotSensitive(e: LogEntry, now: int)
    requires e.timestamp == now && (e.path == "/admin/" || e.path == "/login?x")
    ensures Scanned(map[], [e], Cutoff(now, DEFAULT_CONFIG), DEFAULT_CONFIG) == map[]
  {
    assert e.path != "/admin" && e.path != "/login";
    assert e.path !in SENSITIVE_PATHS;
    SinglePathRequest(e, now);
  }
}
