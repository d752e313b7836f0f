/** The host configuration shared by the monitor's network clients: a name, a
    remote host and a remote port, the ways a configured client is looked up,
    and the "host:port" text that names a remote end. */
module Client {
  import opened CText

  /** A client's configuration. The name and the host are C strings that may be
      NULL. */
  datatype HostCfg = HostCfg(name: Option<string>, remoteHost: Option<string>, remotePort: uint16)

  /** The values of enum match_kind. */
  const MATCH_NAME: int := 0
  const MATCH_HOST: int := 1
  const MATCH_BOTH: int := 2
  const MATCH_EITHER: int := 3

  /** match_config: compare `key` with the configured name, with the configured
      host, with both or with either, as the kind k says; any other kind matches
      nothing. Both strings are compared with strcmp, so both must be present. */
  function MatchConfig(cfg: HostCfg, key: string, k: int): (r: bool)
    requires cfg.name.Some? && cfg.remoteHost.Some?
    ensures r ==> MATCH_NAME <= k <= MATCH_EITHER
    ensures r ==> key == cfg.name.value || key == cfg.remoteHost.value
    ensures k == MATCH_NAME ==> (r <==> key == cfg.name.value)
    ensures k == MATCH_HOST ==> (r <==> key == cfg.remoteHost.value)
  {
    var mName := key == cfg.name.value;
    var mHost := key == cfg.remoteHost.value;
    if k == MATCH_NAME then mName
    else if k == MATCH_HOST then mHost
    else if k == MATCH_EITHER then mName || mHost
    else if k == MATCH_BOTH then mName && mHost
    else false
  }

  /** Matching either field is matching the name or matching the host. */
  lemma MatchEither(cfg: HostCfg, key: string)
    requires cfg.name.Some? && cfg.remoteHost.Some?
    ensures MatchConfig(cfg, key, MATCH_EITHER) <==>
      MatchConfig(cfg, key, MATCH_NAME) || MatchConfig(cfg, key, MATCH_HOST)
  {
  }

  /** Matching both fields is matching the name and matching the host. */
  lemma MatchBoth(cfg: HostCfg, key: string)
    requires cfg.name.Some? && cfg.remoteHost.Some?
    ensures MatchConfig(cfg, key, MATCH_BOTH) <==>
      MatchConfig(cfg, key, MATCH_NAME) && MatchConfig(cfg, key, MATCH_HOST)
  {
  }

  /** host_cfg_alloc: a configuration holding copies of the given name and host and
      the given port. */
  function HostCfgAlloc(name: Option<string>, host: Option<string>, port: uint16): (cfg: HostCfg)
    ensures cfg.name == name && cfg.remoteHost == host && cfg.remotePort == port
  {
    HostCfg(name, host, port)
  }

  /** A configuration made by HostCfgAlloc is found by its own name and by its own
      host, and by both at once only when the two are the same text. */
  lemma AllocMatchesItself(name: string, host: string, port: uint16)
    ensures var cfg := HostCfgAlloc(Some(name), Some(host), port);
      MatchConfig(cfg, name, MATCH_NAME) && MatchConfig(cfg, host, MATCH_HOST) &&
      (MatchConfig(cfg, name, MATCH_BOTH) <==> name == host)
  {
  }

  /** make_authority: "host:port" with the port in decimal, or NULL when there is
      no remote host. */
  function MakeAuthority(cfg: HostCfg): (r: Option<string>)
    ensures r.None? <==> cfg.remoteHost.None?
  {
    match cfg.remoteHost
    case None => None
    case Some(host) => Some(host + ":" + Decimal(cfg.remotePort as nat))
  }

  /** The position of the last ':' in s, if any. */
  function LastColon(s: string): (r: Option<nat>)
    ensures r.Some? ==> r.value < |s| && s[r.value] == ':'
    ensures r.Some? ==> forall j :: r.value < j < |s| ==> s[j] != ':'
    ensures r.None? <==> forall j :: 0 <= j < |s| ==> s[j] != ':'
  {
    if |s| == 0 then None
    else if s[|s| - 1] == ':' then Some(|s| - 1)
    else LastColon(s[..|s| - 1])
  }

  /** An authority splits back into its host and port at its last ':', even when
      the host itself holds colons (an IPv6 address): the digits of the port hold
      none. */
  lemma AuthoritySplits(cfg: HostCfg)
    requires cfg.remoteHost.Some?
    ensures var a := MakeAuthority(cfg).value;
      var i := LastColon(a);
      i.Some? && a[..i.value] == cfg.remoteHost.value &&
      AllDigits(a[i.value + 1..]) && DigitsValue(a[i.value + 1..]) == cfg.remotePort as nat
  {
    var host := cfg.remoteHost.value;
    var d := Decimal(cfg.remotePort as nat);
    var a := host + ":" + d;
    assert a == MakeAuthority(cfg).value;
    assert a[|host|] == ':';
    forall j | |host| < j < |a| ensures a[j] != ':' {
      assert a[j] == d[j - |host| - 1] && IsDigit(d[j - |host| - 1]);
    }
    assert LastColon(a) == Some(|host|);
    assert a[..|host|] == host;
    assert a[|host| + 1..] == d;
    DecimalRoundTrip(cfg.remotePort as nat);
  }
}
