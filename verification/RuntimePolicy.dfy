/** Which configuration changes a running gateway accepts. */
module RuntimePolicy {
  import opened Wrappers
  import opened Text
  import Config

  datatype Server = Server(
    listenAddr: string,
    readTimeout: int,
    writeTimeout: int,
    idleTimeout: int,
    tlsCertPath: string,
    tlsKeyPath: string)

  datatype HealthCheck = HealthCheck(intervalSeconds: int, timeoutSeconds: int, unhealthyThreshold: int)

  /** The parts of the configuration that a reload compares or applies. */
  datatype Configuration = Configuration(
    server: Server,
    databasePath: string,
    healthCheck: HealthCheck,
    tokenHash: string,
    backends: seq<Config.Backend>)

  datatype Policy = Policy(allowAdminTokenHash: bool, allowBackends: bool, allowTLSPaths: bool)

  /** The policy that stands in for one that allows nothing. */
  const DEFAULT_POLICY := Policy(true, true, true)

  predicate TlsPathsEnabled(cert: string, key: string) {
    TrimSpace(cert) != "" && TrimSpace(key) != ""
  }

  /** The fields that cannot change without a restart, and whether TLS is on. */
  datatype Fixed = Fixed(
    listenAddr: string,
    readTimeout: int,
    writeTimeout: int,
    idleTimeout: int,
    databasePath: string,
    healthCheck: HealthCheck,
    tlsEnabled: bool)

  function FixedPart(c: Configuration): Fixed {
    Fixed(c.server.listenAddr, c.server.readTimeout, c.server.writeTimeout, c.server.idleTimeout, c.databasePath,
          c.healthCheck, TlsPathsEnabled(c.server.tlsCertPath, c.server.tlsKeyPath))
  }

  /** A missing header counts as the empty one. */
  predicate HeadersEqual(a: map<string, string>, b: map<string, string>) {
    |a| == |b| && forall k :: k in a ==> (if k in b then b[k] else "") == a[k]
  }

  predicate SameBackend(a: Config.Backend, b: Config.Backend) {
    && a.name == b.name && a.url == b.url && a.weight == b.weight && a.tag == b.tag && a.timeout == b.timeout
    && a.healthCheckPath == b.healthCheckPath && HeadersEqual(a.headers, b.headers)
  }

  predicate BackendsEqual(a: seq<Config.Backend>, b: seq<Config.Backend>) {
    |a| == |b| && forall i :: 0 <= i < |a| ==> SameBackend(a[i], b[i])
  }

  function ValidateRuntimeChange(p: Policy, current: Option<Configuration>, next: Option<Configuration>): Outcome {
    if current.None? || next.None? then Fail("runtime policy requires current and next config")
    else
      var c, n := current.value, next.value;
      if c.server.listenAddr != n.server.listenAddr then Fail("server.listen_addr requires restart")
      else if c.server.readTimeout != n.server.readTimeout then Fail("server.read_timeout requires restart")
      else if c.server.writeTimeout != n.server.writeTimeout then Fail("server.write_timeout requires restart")
      else if c.server.idleTimeout != n.server.idleTimeout then Fail("server.idle_timeout requires restart")
      else if c.databasePath != n.databasePath then Fail("database.path requires restart")
      else if c.healthCheck.intervalSeconds != n.healthCheck.intervalSeconds then
        Fail("health_check.interval_seconds requires restart")
      else if c.healthCheck.timeoutSeconds != n.healthCheck.timeoutSeconds then
        Fail("health_check.timeout_seconds requires restart")
      else if c.healthCheck.unhealthyThreshold != n.healthCheck.unhealthyThreshold then
        Fail("health_check.unhealthy_threshold requires restart")
      else if TlsPathsEnabled(c.server.tlsCertPath, c.server.tlsKeyPath)
              != TlsPathsEnabled(n.server.tlsCertPath, n.server.tlsKeyPath) then
        Fail("enabling or disabling TLS requires restart")
      else if !p.allowTLSPaths
              && (c.server.tlsCertPath != n.server.tlsCertPath || c.server.tlsKeyPath != n.server.tlsKeyPath) then
        Fail("TLS cert/key path changes are disabled")
      else if !p.allowAdminTokenHash && c.tokenHash != n.tokenHash then
        Fail("admin.token_hash changes are disabled")
      else if !p.allowBackends && !BackendsEqual(c.backends, n.backends) then
        Fail("backend changes are disabled")
      else Pass
  }

  /** A change is accepted exactly if it leaves the fixed part alone and what the policy forbids. */
  lemma AcceptsIff(p: Policy, c: Configuration, n: Configuration)
    ensures ValidateRuntimeChange(p, Some(c), Some(n)).Pass? <==>
      && c.server.listenAddr == n.server.listenAddr && c.server.readTimeout == n.server.readTimeout
      && c.server.writeTimeout == n.server.writeTimeout && c.server.idleTimeout == n.server.idleTimeout
      && c.databasePath == n.databasePath && c.healthCheck == n.healthCheck
      && (TrimSpace(c.server.tlsCertPath) != "" && TrimSpace(c.server.tlsKeyPath) != "" <==>
          TrimSpace(n.server.tlsCertPath) != "" && TrimSpace(n.server.tlsKeyPath) != "")
      && (p.allowTLSPaths ||
          (c.server.tlsCertPath == n.server.tlsCertPath && c.server.tlsKeyPath == n.server.tlsKeyPath))
      && (p.allowAdminTokenHash || c.tokenHash == n.tokenHash)
      && (p.allowBackends || BackendsEqual(c.backends, n.backends))
    ensures ValidateRuntimeChange(p, Some(c), Some(n)).Pass? ==> FixedPart(c) == FixedPart(n)
  {
    hide TrimSpace, BackendsEqual;
  }

  /** Without two configurations to compare, every change is refused. */
  lemma NeedsBoth(p: Policy, c: Option<Configuration>, n: Option<Configuration>)
    ensures c.None? || n.None? ==> ValidateRuntimeChange(p, c, n).Fail?
  {
  }

  // ---------------------------------------------------------------------
  // Comparing headers
  // ---------------------------------------------------------------------

  /** No header has an empty value. */
  predicate NoEmptyHeader(headers: map<string, string>) {
    forall k :: k in headers ==> headers[k] != ""
  }

  /** Other headers, with another name in place of the header k without a value. */
  lemma RenamedHeader(a: map<string, string>, k: string) returns (b: map<string, string>)
    requires k in a && a[k] == ""
    ensures HeadersEqual(a, b) && a != b
  {
    var other := FreshName(a.Keys);
    b := (a - {k})[other := "x"];
    assert b.Keys == (a.Keys - {k}) + {other};
    assert |b.Keys| == |a.Keys|;
    assert k !in b;
  }

  /** The comparison of headers is equality exactly for headers without empty values. */
  lemma HeadersEqualIff(a: map<string, string>)
    ensures (forall b :: HeadersEqual(a, b) <==> a == b) <==> NoEmptyHeader(a)
  {
    if NoEmptyHeader(a) {
      forall b ensures HeadersEqual(a, b) <==> a == b {
        if HeadersEqual(a, b) { SameSizeSame(a, b); }
      }
    } else {
      var k :| k in a && a[k] == "";
      var b := RenamedHeader(a, k);
      assert HeadersEqual(a, b) && a != b;
    }
  }

  /** For backends without empty headers, the comparison is equality. */
  lemma BackendsEqualIsEquality(a: seq<Config.Backend>, b: seq<Config.Backend>)
    requires forall i :: 0 <= i < |a| ==> NoEmptyHeader(a[i].headers)
    ensures BackendsEqual(a, b) <==> a == b
  {
    hide HeadersEqual;
    forall i | 0 <= i < |a| && i < |b|
      ensures HeadersEqual(a[i].headers, b[i].headers) <==> a[i].headers == b[i].headers
    {
      HeadersEqualIff(a[i].headers);
    }
  }
}
