/**
 The bs configuration record and what is computed from it: the overrides
 applied to maps, the serialisation of maps back into lists, the final
 environment list of the container, the image to run, and the token the
 agent uses to call back into the platform.
 */
module BsConfig {
  import opened Common
  import opened Strings
  import opened EnvMerge
  import opened Image

  /** The configuration keys the core reads, with the value a missing key
      yields: `host`, `docker:bs:image`, `docker:bs:socket` ("" when
      missing) and `docker:bs:syslog-port` (0 when missing). */
  datatype Settings = Settings(host: string, image: string, socket: string, syslogPort: int)

  /** The stored configuration record; a record without a token has "". */
  datatype Record = Record(image: string, token: string, envs: seq<Env>, pools: seq<PoolEnvs>)

  /** The docker endpoint used in place of the node's when a local socket
      is configured. */
  const SocketEndpoint: string := "unix://" + SocketPath

  /** Where the docker socket is seen inside the bs container. */
  const SocketPath: string := "/var/run/docker.sock"

  /** The syslog port used when none is configured. */
  const DefaultSyslogPort: int := 1514

  /** The in-memory configuration (`*Config`). */
  class Config {
    var image: string
    var token: string
    var envs: seq<Env>
    var pools: seq<PoolEnvs>

    constructor (r: Record)
      ensures image == r.image && token == r.token && envs == r.envs && pools == r.pools
    {
      image, token, envs, pools := r.image, r.token, r.envs, r.pools;
    }

    /** `UpdateEnvMaps`: applies the global overrides, then each pool's, to
        the caller's maps in place, failing on the first forbidden name. The
        new contents of both maps and the error are those of `Merge`. */
    method UpdateEnvMaps(envMap: EnvMap, poolEnvMap: PoolEnvMap) returns (err: Option<Error>)
      modifies envMap, poolEnvMap
      ensures Merged(envMap.entries, poolEnvMap.pools, err) ==
                Merge(envs, pools, old(envMap.entries), old(poolEnvMap.pools))
    {
      ghost var m0, pm0 := envMap.entries, poolEnvMap.pools;
      var entries, k := ApplyChecked(envMap.entries, envs);
      envMap.entries := entries;
      if k < |envs| {
        MergeFailsOnGlobal(envs, pools, m0, pm0, k);
        return Some(CannotSet(envs[k].name));
      }
      assert envs[..k] == envs;
      var q := 0;
      while q < |pools|
        invariant q <= |pools|
        invariant forall j, i :: 0 <= j < q && 0 <= i < |pools[j].envs| ==> pools[j].envs[i].name !in ForbiddenNames
        invariant poolEnvMap.pools == ApplyPools(pm0, pools[..q])
        invariant envMap.entries == ApplyAll(m0, envs)
      {
        var p := pools[q];
        // a pool without a map gets a new, empty one
        var current := PoolVars(poolEnvMap.pools, p.name);
        var vars, bad := ApplyChecked(current, p.envs);
        poolEnvMap.pools := poolEnvMap.pools[p.name := vars];
        if bad < |p.envs| {
          MergeFailsOnPool(envs, pools, m0, pm0, q, bad);
          return Some(CannotSet(p.envs[bad].name));
        }
        assert p.envs[..bad] == p.envs;
        ApplyPoolsStep(pm0, pools, q);
        q := q + 1;
      }
      assert pools[..q] == pools;
      MergeClean(envs, pools, m0, pm0);
      return None;
    }

    /** `EnvListForEndpoint`: the environment of the bs container on a node
        of pool `poolName`. `token` is what `getToken` returned; its failure
        comes first, then a failure of the merge; otherwise the list is the
        four computed entries followed by the merged global overrides and
        then the pool's, each map listed once in some order; `gs` and `ps`
        are those two orders. */
    method EnvListForEndpoint(settings: Settings, token: Result<string>, dockerEndpoint: string, poolName: string)
      returns (r: Result<seq<string>>, ghost gs: seq<Env>, ghost ps: seq<Env>)
      ensures EnvListOf(r, settings, dockerEndpoint, poolName, token, AsRecord(), gs, ps)
      ensures r.Ok? ==> token.Ok? && |r.value| >= 4 && r.value[..4] == Reserved(settings, dockerEndpoint, token.value)
    {
      var tsuruEndpoint := TsuruEndpoint(settings.host);
      var endpoint := dockerEndpoint;
      if settings.socket != "" {
        endpoint := SocketEndpoint;
      }
      if token.Err? {
        return Err(token.error), [], [];
      }
      var envList := [
        "DOCKER_ENDPOINT=" + endpoint,
        "TSURU_ENDPOINT=" + tsuruEndpoint,
        "TSURU_TOKEN=" + token.value,
        "SYSLOG_LISTEN_ADDRESS=" + SyslogAddress(settings.syslogPort)
      ];
      var envMap := new EnvMap();
      var poolEnvMap := new PoolEnvMap();
      var err := UpdateEnvMaps(envMap, poolEnvMap);
      if err.Some? {
        return Err(err.value), [], [];
      }
      var globals := ListEntries(envMap.entries);
      envList := envList + Render(globals);
      var poolEntries := ListEntries(PoolVars(poolEnvMap.pools, poolName));
      envList := envList + Render(poolEntries);
      return Ok(envList), globals, poolEntries;
    }

    /** `getToken`. A cached token is returned without any I/O. Otherwise a
        token is issued (`login`) and stored only if the stored record has
        none; the one that stores it adopts it. One that finds a token
        already stored revokes its own and adopts the stored record; any
        other store failure revokes it and is returned. `conn`, `upsertFault`
        and `findFault` are failures of the store connection, the
        conditional upsert and the reload. */
    method GetToken(store: ConfigStore, auth: AuthService, conn: Option<Error>, login: Result<string>,
                    upsertFault: Option<Error>, findFault: Option<Error>)
      returns (r: Result<string>)
      modifies this, store, auth
      ensures old(token) != "" ==> r == Ok(old(token)) && unchanged(this, store, auth)
      ensures old(token) == "" && (conn.Some? || login.Err?) ==>
                r == Err(if conn.Some? then conn.value else login.error) && unchanged(this, store, auth)
      // the first token stored is never replaced
      ensures HasToken(old(store.record)) ==> store.record == old(store.record)
      // the caller whose conditional upsert succeeds adopts its token
      ensures old(token) == "" && conn.None? && login.Ok? && upsertFault.None? && !HasToken(old(store.record)) ==>
                r == Ok(login.value) && token == login.value &&
                image == old(image) && envs == old(envs) && pools == old(pools) &&
                store.record == Some(WithToken(old(store.record), login.value)) &&
                auth.revoked == old(auth.revoked)
      // every other caller revokes the token it was issued
      ensures old(token) == "" && conn.None? && login.Ok? && (upsertFault.Some? || HasToken(old(store.record))) ==>
                auth.revoked == old(auth.revoked) + [login.value] && store.record == old(store.record)
      // a store failure other than a lost race is returned
      ensures old(token) == "" && conn.None? && login.Ok? && upsertFault.Some? && upsertFault.value != DuplicateKey ==>
                r == Err(upsertFault.value) && unchanged(this)
      // a lost race reloads the stored record and returns its token
      ensures old(token) == "" && conn.None? && login.Ok? && LostRace(old(store.record), upsertFault) ==>
                (findFault.Some? ==> r == Err(findFault.value) && unchanged(this)) &&
                (findFault.None? && old(store.record).None? ==> r == Err(NotFound) && unchanged(this)) &&
                (findFault.None? && old(store.record).Some? ==>
                   r == Ok(old(store.record).value.token) && AsRecord() == old(store.record).value)
      // in short: the result and the configuration left are those of `TokenOutcome`
      ensures (r, AsRecord()) ==
                TokenOutcome(old(AsRecord()), old(store.record), conn, login, upsertFault, findFault)
      // and the store and the revoked tokens are those of `TokenStore` and `TokenRevoked`
      ensures store.record == TokenStore(old(AsRecord()), old(store.record), conn, login, upsertFault)
      ensures auth.revoked == old(auth.revoked) + TokenRevoked(old(AsRecord()), old(store.record), conn, login, upsertFault)
    {
      if token != "" {
        return Ok(token);
      }
      if conn.Some? {
        return Err(conn.value);
      }
      if login.Err? {
        return Err(login.error);
      }
      var issued := login.value;
      var err := store.SetTokenIfUnset(issued, upsertFault);
      if err.None? {
        token := issued;
        return Ok(issued);
      }
      auth.Logout(issued);
      if err.value != DuplicateKey {
        return Err(err.value);
      }
      var found := store.FindRecord(findFault);
      if found.Err? {
        return Err(found.error);
      }
      image, token, envs, pools := found.value.image, found.value.token, found.value.envs, found.value.pools;
      return Ok(token);
    }

    function AsRecord(): Record
      reads this
    {
      Record(image, token, envs, pools)
    }
  }

  /** What `getToken` returns and the configuration it leaves, given the
      configuration `conf` it starts from, the stored record and the
      outcomes of its calls to the store and the authentication service. */
  function TokenOutcome(conf: Record, stored: Option<Record>, conn: Option<Error>, login: Result<string>,
                        upsertFault: Option<Error>, findFault: Option<Error>): (Result<string>, Record)
  {
    if conf.token != "" then (Ok(conf.token), conf)
    else if conn.Some? then (Err(conn.value), conf)
    else if login.Err? then (Err(login.error), conf)
    else if upsertFault.None? && !HasToken(stored) then (Ok(login.value), conf.(token := login.value))
    else if !LostRace(stored, upsertFault) then (Err(upsertFault.value), conf)
    else if findFault.Some? then (Err(findFault.value), conf)
    else if stored.None? then (Err(NotFound), conf)
    else (Ok(stored.value.token), stored.value)
  }

  /** The issued token is stored: `getToken` got as far as the conditional
      upsert, and the upsert found no token and succeeded. */
  predicate StoresIssued(conf: Record, stored: Option<Record>, conn: Option<Error>, login: Result<string>,
                         upsertFault: Option<Error>)
  {
    conf.token == "" && conn.None? && login.Ok? && upsertFault.None? && !HasToken(stored)
  }

  /** The stored record after `getToken`: the issued token is stored only by
      the caller whose conditional upsert succeeds. */
  function TokenStore(conf: Record, stored: Option<Record>, conn: Option<Error>, login: Result<string>,
                      upsertFault: Option<Error>): Option<Record>
  {
    if StoresIssued(conf, stored, conn, login, upsertFault) then Some(WithToken(stored, login.value)) else stored
  }

  /** The tokens `getToken` revokes: the issued one, whenever its
      conditional upsert fails. */
  function TokenRevoked(conf: Record, stored: Option<Record>, conn: Option<Error>, login: Result<string>,
                        upsertFault: Option<Error>): seq<string>
  {
    if conf.token == "" && conn.None? && login.Ok? && !StoresIssued(conf, stored, conn, login, upsertFault)
    then [login.value]
    else []
  }

  /** A token `getToken` issues is either stored, and then not revoked, or
      revoked, and then the store is left as it was; a token already stored
      is never replaced. */
  lemma IssuedTokenStoredOrRevoked(conf: Record, stored: Option<Record>, conn: Option<Error>, login: Result<string>,
                                   upsertFault: Option<Error>)
    requires conf.token == "" && conn.None? && login.Ok?
    ensures var st, rv := TokenStore(conf, stored, conn, login, upsertFault),
                          TokenRevoked(conf, stored, conn, login, upsertFault);
            (st == Some(WithToken(stored, login.value)) && rv == []) ||
            (st == stored && rv == [login.value])
    ensures HasToken(stored) ==> TokenStore(conf, stored, conn, login, upsertFault) == stored &&
                                 TokenRevoked(conf, stored, conn, login, upsertFault) == [login.value]
    ensures TokenRevoked(conf, stored, conn, login, upsertFault) == [] <==> upsertFault.None? && !HasToken(stored)
  {
  }

  /** `getToken` never touches the stored image: an image saved before it
      stays saved. */
  lemma TokenStoreKeepsImage(conf: Record, stored: Option<Record>, conn: Option<Error>, login: Result<string>,
                             upsertFault: Option<Error>)
    requires stored.Some?
    ensures var st := TokenStore(conf, stored, conn, login, upsertFault);
            st.Some? && st.value.image == stored.value.image && st.value.envs == stored.value.envs &&
            st.value.pools == stored.value.pools
  {
  }

  /** `env` is the list `EnvListForEndpoint` builds from the configuration
      `conf` with `token`: the token's failure, else the merge's failure,
      else the four computed entries followed by the merged global
      overrides, listed in the order `gs`, and the pool's, in the order `ps`. */
  ghost predicate EnvListOf(env: Result<seq<string>>, settings: Settings, dockerEndpoint: string, poolName: string,
                            token: Result<string>, conf: Record, gs: seq<Env>, ps: seq<Env>)
  {
    if token.Err? then env == Err(token.error)
    else
      var merged := Merge(conf.envs, conf.pools, map[], map[]);
      if merged.err.Some? then env == Err(merged.err.value)
      else
        env.Ok? && Listing(gs, merged.env) && Listing(ps, PoolVars(merged.pools, poolName)) &&
        env.value == Reserved(settings, dockerEndpoint, token.value) + Render(gs) + Render(ps)
  }

  /** One pass over a list of overrides, as both loops of `UpdateEnvMaps`
      make it: entries are applied in order until the first forbidden name,
      whose position is returned (`|es|` when there is none). */
  method ApplyChecked(vars: Vars, es: seq<Env>) returns (r: Vars, k: nat)
    ensures k == AllowedPrefix(es)
    ensures r == ApplyAll(vars, es[..k])
  {
    r := vars;
    k := 0;
    while k < |es|
      invariant k <= |es|
      invariant forall j :: 0 <= j < k ==> es[j].name !in ForbiddenNames
      invariant r == ApplyAll(vars, es[..k])
    {
      var env := es[k];
      if env.name in ForbiddenNames {
        return;
      }
      if env.value == "" {
        r := r - {env.name};
      } else {
        r := r[env.name := env.value];
      }
      assert es[..k + 1][..k] == es[..k];
      k := k + 1;
    }
  }

  /** The record holds a token. */
  predicate HasToken(r: Option<Record>)
  {
    r.Some? && r.value.token != ""
  }

  /** The record after the conditional upsert of `token` succeeded: a
      missing record is created holding only the token. */
  function WithToken(r: Option<Record>, token: string): Record
  {
    match r
    case Some(rec) => rec.(token := token)
    case None => Record("", token, [], [])
  }

  /** The record after the image was set: a missing record is created
      holding only the image. */
  function WithImage(r: Option<Record>, image: string): Record
  {
    match r
    case Some(rec) => rec.(image := image)
    case None => Record(image, "", [], [])
  }

  /** The conditional upsert failed as a duplicate key: another caller
      stored a token first (or the store reported a duplicate itself). */
  predicate LostRace(r: Option<Record>, upsertFault: Option<Error>)
  {
    if upsertFault.Some? then upsertFault.value == DuplicateKey else HasToken(r)
  }

  /** The bs configuration collection: one record, kept under a fixed id. */
  class ConfigStore {
    var record: Option<Record>

    constructor (r: Option<Record>)
      ensures record == r
    {
      record := r;
    }

    /** The upsert with filter "token is empty or missing": it updates or
        creates the record when it has no token, and fails with a duplicate
        key when a token is already stored (the upsert then tries to insert
        a second record under the same id). `fault` is any other failure. */
    method SetTokenIfUnset(token: string, fault: Option<Error>) returns (err: Option<Error>)
      modifies this
      ensures fault.Some? ==> err == fault && record == old(record)
      ensures fault.None? && HasToken(old(record)) ==> err == Some(DuplicateKey) && record == old(record)
      ensures fault.None? && !HasToken(old(record)) ==> err == None && record == Some(WithToken(old(record), token))
    {
      if fault.Some? {
        return fault;
      }
      if HasToken(record) {
        return Some(DuplicateKey);
      }
      record := Some(WithToken(record, token));
      return None;
    }

    /** `SaveImage`: the upsert that sets the image, creating the record
        when there is none. `fault` is a failure of the store. */
    method SaveImage(image: string, fault: Option<Error>) returns (err: Option<Error>)
      modifies this
      ensures fault.Some? ==> err == fault && record == old(record)
      ensures fault.None? ==> err == None && record == Some(WithImage(old(record), image))
    {
      if fault.Some? {
        return fault;
      }
      record := Some(WithImage(record, image));
      return None;
    }

    /** The lookup of the record by its id, as `LoadConfig` and the reload
        in `getToken` make it: the record, or `NotFound` when there is none.
        `fault` is any other failure of the store. */
    method FindRecord(fault: Option<Error>) returns (r: Result<Record>)
      ensures fault.Some? ==> r == Err(fault.value)
      ensures fault.None? && record.None? ==> r == Err(NotFound)
      ensures fault.None? && record.Some? ==> r == Ok(record.value)
    {
      if fault.Some? {
        return Err(fault.value);
      }
      if record.None? {
        return Err(NotFound);
      }
      return Ok(record.value);
    }
  }

  /** The platform's authentication service, as far as the revocation of
      issued tokens goes. */
  class AuthService {
    var revoked: seq<string>

    constructor ()
      ensures revoked == []
    {
      revoked := [];
    }

    /** `AuthScheme.Logout(token)`; its error is ignored by the caller. */
    method Logout(token: string)
      modifies this
      ensures revoked == old(revoked) + [token]
    {
      revoked := revoked + [token];
    }
  }

  /** Two first-time callers sharing the store, one after the other, as in
      a race where both see no token: both end with the first caller's
      token, the store keeps it, and the second caller's token is revoked. */
  method TwoFirstTimeCallers(store: ConfigStore, auth: AuthService, a: Config, b: Config, t1: string, t2: string)
    returns (r1: Result<string>, r2: Result<string>)
    requires a != b && a.token == "" && b.token == ""
    requires !HasToken(store.record) && t1 != ""
    modifies a, b, store, auth
    ensures r1 == Ok(t1) && r2 == Ok(t1)
    ensures store.record.Some? && store.record.value.token == t1
    ensures a.token == t1 && b.token == t1
    ensures auth.revoked == old(auth.revoked) + [t2]
  {
    r1 := a.GetToken(store, auth, None, Ok(t1), None, None);
    r2 := b.GetToken(store, auth, None, Ok(t2), None, None);
  }

  // ---------------------------------------------------------------------------
  // Image and endpoints.
  // ---------------------------------------------------------------------------

  /** `getImage`. `stored` is the image of the configuration record the
      method is called on, `None` when it is called on a nil configuration:
      the stored image, else the configured one, else the default; never
      empty. */
  function GetImage(stored: Option<string>, configured: string): (r: string)
    ensures r != ""
    ensures stored.Some? && stored.value != "" ==> r == stored.value
    ensures (stored.None? || stored.value == "") && configured != "" ==> r == configured
    ensures (stored.None? || stored.value == "") && configured == "" ==> r == DefaultImage
  {
    if stored.Some? && stored.value != "" then stored.value
    else if configured != "" then configured
    else DefaultImage
  }

  /** `SysLogPort`: the configured port, 1514 when it is missing (0). */
  function SysLogPort(configured: int): int
  {
    if configured == 0 then DefaultSyslogPort else configured
  }

  /** The value of `SYSLOG_LISTEN_ADDRESS`. */
  function SyslogAddress(configured: int): string
  {
    "udp://0.0.0.0:" + IntToString(SysLogPort(configured))
  }

  /** Without a configured port the agent listens on UDP port 1514. */
  lemma SyslogAddressDefault()
    ensures SyslogAddress(0) == "udp://0.0.0.0:1514"
  {
    assert NatToString(1514) == "1514" by {
      assert NatToString(1) == "1";
      assert NatToString(15) == NatToString(1) + "5";
      assert NatToString(151) == NatToString(15) + "1";
    }
  }

  /** A configured positive port can be read back from the address. */
  lemma SyslogAddressPort(configured: int)
    requires configured > 0
    ensures var a := SyslogAddress(configured);
            |a| > 14 && a[..14] == "udp://0.0.0.0:" && ParseDigits(a[14..]) == configured
  {
    NatToStringRoundTrip(configured);
    var a := SyslogAddress(configured);
    assert a[14..] == NatToString(configured);
  }

  /** The platform endpoint from the `host` setting: "http://" is put in
      front unless it starts with "http://" or "https://", trailing slashes
      are cut and a single one is added. */
  function TsuruEndpoint(host: string): string
  {
    var withScheme := if HasScheme(host) then host else "http://" + host;
    TrimRight(withScheme, '/') + "/"
  }

  /** `s` starts with "http://" or "https://". */
  predicate HasScheme(s: string)
  {
    HasPrefix(s, "http://") || HasPrefix(s, "https://")
  }

  /** The endpoint ends in exactly one slash. */
  lemma TsuruEndpointOneSlash(host: string)
    ensures var r := TsuruEndpoint(host);
            |r| >= 2 && r[|r| - 1] == '/' && r[|r| - 2] != '/'
  {
    var withScheme := if HasScheme(host) then host else "http://" + host;
    assert withScheme[0] == 'h';
  }

  /** A bare host name gets the "http://" scheme and one slash. */
  lemma TsuruEndpointBareHost(host: string)
    requires host != [] && '/' !in host && !HasScheme(host)
    ensures TsuruEndpoint(host) == "http://" + host + "/"
  {
    var withScheme := "http://" + host;
    assert withScheme[|withScheme| - 1] == host[|host| - 1];
  }

  /** A host given with a scheme keeps it, and gets one slash. */
  lemma TsuruEndpointKeepsScheme(host: string)
    requires HasScheme(host) && host[|host| - 1] != '/'
    ensures TsuruEndpoint(host) == host + "/"
  {
  }

  /** A missing host yields "http:/": the slashes of the scheme are trimmed
      with the trailing ones. */
  lemma TsuruEndpointEmptyHost()
    ensures TsuruEndpoint("") == "http:/"
  {
    var s := "http://";
    assert !HasScheme("") && "http://" + "" == s;
    assert s[..5] == "http:" && s[4] == ':';
    assert TrimRight(s[..5], '/') == "http:";
    assert TrimRight(s[..6], '/') == "http:";
    assert TrimRight(s, '/') == "http:";
    assert "http:" + "/" == "http:/";
  }

  /** An endpoint with a scheme is left as it is. */
  lemma TsuruEndpointIdempotent(host: string)
    requires HasScheme(TsuruEndpoint(host))
    ensures TsuruEndpoint(TsuruEndpoint(host)) == TsuruEndpoint(host)
  {
    TsuruEndpointOneSlash(host);
    var r := TsuruEndpoint(host);
    assert TrimRight(r, '/') == r[..|r| - 1];
  }

  // ---------------------------------------------------------------------------
  // The environment list.
  // ---------------------------------------------------------------------------

  /** The four entries the system computes, in the order of `ReservedOrder`. */
  function Reserved(settings: Settings, dockerEndpoint: string, token: string): seq<string>
  {
    [ "DOCKER_ENDPOINT=" + (if settings.socket != "" then SocketEndpoint else dockerEndpoint),
      "TSURU_ENDPOINT=" + TsuruEndpoint(settings.host),
      "TSURU_TOKEN=" + token,
      "SYSLOG_LISTEN_ADDRESS=" + SyslogAddress(settings.syslogPort) ]
  }

  /** The entries as "NAME=VALUE" strings. */
  function Render(es: seq<Env>): seq<string>
  {
    seq(|es|, i requires 0 <= i < |es| => es[i].name + "=" + es[i].value)
  }

  /** The bindings of `m`, each once, in an unspecified order (Go's map
      iteration order). */
  method ListEntries(m: Vars) returns (es: seq<Env>)
    ensures Listing(es, m)
  {
    es := [];
    var rest := m.Keys;
    while rest != {}
      invariant rest <= m.Keys
      invariant forall i :: 0 <= i < |es| ==> es[i].name in m && m[es[i].name] == es[i].value && es[i].name !in rest
      invariant forall n :: n in m && n !in rest ==> n in NamesOf(es)
      invariant Distinct(es)
      invariant |es| + |rest| == |m|
      decreases rest
    {
      var name :| name in rest;
      NamesOfSnoc(es + [Env(name, m[name])]);
      assert (es + [Env(name, m[name])])[..|es|] == es;
      es := es + [Env(name, m[name])];
      rest := rest - {name};
    }
  }

  /** `es` lists every binding of `m` exactly once. */
  predicate Listing(es: seq<Env>, m: Vars)
  {
    Lists(es, m) && Distinct(es) && |es| == |m|
  }

  /** The name of a "NAME=VALUE" entry: everything before the first '='. */
  function VarName(entry: string): string
  {
    entry[..Find(entry, '=')]
  }

  lemma VarNameOf(name: string, value: string)
    requires '=' !in name
    ensures VarName(name + "=" + value) == name
  {
    FindAt(name + "=" + value, '=', |name|);
  }

  /** The reserved entries carry the reserved names, in their fixed order. */
  lemma ReservedNames(settings: Settings, dockerEndpoint: string, token: string)
    ensures var rs := Reserved(settings, dockerEndpoint, token);
            |rs| == 4 && forall i :: 0 <= i < 4 ==> VarName(rs[i]) == ReservedOrder[i]
  {
    EntryNames(if settings.socket != "" then SocketEndpoint else dockerEndpoint, TsuruEndpoint(settings.host),
               token, SyslogAddress(settings.syslogPort));
  }

  /** The four computed entries carry the reserved names, whatever their
      values. */
  lemma EntryNames(endpoint: string, tsuruEndpoint: string, token: string, syslog: string)
    ensures var rs := ["DOCKER_ENDPOINT=" + endpoint, "TSURU_ENDPOINT=" + tsuruEndpoint,
                       "TSURU_TOKEN=" + token, "SYSLOG_LISTEN_ADDRESS=" + syslog];
            forall i :: 0 <= i < 4 ==> VarName(rs[i]) == ReservedOrder[i]
  {
    ReservedEntryName("DOCKER_ENDPOINT=", "DOCKER_ENDPOINT", endpoint);
    ReservedEntryName("TSURU_ENDPOINT=", "TSURU_ENDPOINT", tsuruEndpoint);
    ReservedEntryName("TSURU_TOKEN=", "TSURU_TOKEN", token);
    ReservedEntryName("SYSLOG_LISTEN_ADDRESS=", "SYSLOG_LISTEN_ADDRESS", syslog);
  }

  /** An entry made of "NAME=" and a value, for a name without '=', has
      that name. */
  lemma ReservedEntryName(prefix: string, name: string, value: string)
    requires '=' !in name && prefix == name + "="
    ensures VarName(prefix + value) == name
  {
    assert prefix + value == name + "=" + value;
    VarNameOf(name, value);
  }

  /** Rendered entries of a map without reserved or '='-holding names
      read back as their own, unreserved, names. */
  lemma RenderedNames(es: seq<Env>, m: Vars)
    requires Lists(es, m) && m.Keys !! ForbiddenNames
    requires forall n :: n in m ==> '=' !in n
    ensures |Render(es)| == |es|
    ensures forall i :: 0 <= i < |es| ==> VarName(Render(es)[i]) == es[i].name && es[i].name !in ForbiddenNames
  {
    forall i | 0 <= i < |es| ensures VarName(Render(es)[i]) == es[i].name {
      VarNameOf(es[i].name, es[i].value);
    }
  }

  /** The shape of the environment list: the computed entries first, as
      they are, then one entry per override, none of which names a reserved
      variable, provided no override name holds '=' (the variable name of
      "A=B=C" is "A"). With `ReservedNames`, the list starts with exactly the
      four reserved variables, in their fixed order. */
  lemma EnvListShape(reserved: seq<string>, gs: seq<Env>, g: Vars, ps: seq<Env>, p: Vars)
    requires Listing(gs, g) && Listing(ps, p)
    requires g.Keys !! ForbiddenNames && p.Keys !! ForbiddenNames
    requires forall n :: n in g ==> '=' !in n
    requires forall n :: n in p ==> '=' !in n
    ensures var r := reserved + Render(gs) + Render(ps);
            |r| == |reserved| + |g| + |p| &&
            r[..|reserved|] == reserved &&
            forall i :: |reserved| <= i < |r| ==> VarName(r[i]) !in ForbiddenNames
  {
    var r, rg, rp := reserved + Render(gs) + Render(ps), Render(gs), Render(ps);
    RenderedNames(gs, g);
    RenderedNames(ps, p);
    assert r[..|reserved|] == reserved;
    forall i | |reserved| <= i < |r| ensures VarName(r[i]) !in ForbiddenNames {
      if i < |reserved| + |rg| {
        assert r[i] == rg[i - |reserved|];
      } else {
        assert r[i] == rp[i - |reserved| - |rg|];
      }
    }
  }

  /** No name in the overrides of `conf` holds '='. */
  predicate PlainNames(conf: Record)
  {
    (forall i :: 0 <= i < |conf.envs| ==> '=' !in conf.envs[i].name) &&
    (forall q, i :: 0 <= q < |conf.pools| && 0 <= i < |conf.pools[q].envs| ==> '=' !in conf.pools[q].envs[i].name)
  }

  /** The environment list of a container, when it is built: its first four
      entries set the reserved variables in their fixed order, and, when no
      override name holds '=', no later entry sets a reserved variable, so
      the computed values are the ones the agent sees. */
  lemma EnvListNoLaterReserved(env: Result<seq<string>>, settings: Settings, dockerEndpoint: string,
                               poolName: string, token: string, conf: Record, gs: seq<Env>, ps: seq<Env>)
    requires EnvListOf(env, settings, dockerEndpoint, poolName, Ok(token), conf, gs, ps) && env.Ok?
    requires PlainNames(conf)
    ensures |env.value| >= 4
    ensures forall i :: 0 <= i < 4 ==> VarName(env.value[i]) == ReservedOrder[i]
    ensures forall i :: 0 <= i < |env.value| ==> (VarName(env.value[i]) in ForbiddenNames <==> i < 4)
  {
    var merged := Merge(conf.envs, conf.pools, map[], map[]);
    MergeSucceedsIff(conf.envs, conf.pools, map[], map[]);
    MergeNeverBindsReserved(conf.envs, conf.pools, map[], map[]);
    ApplyAllNoEq(map[], conf.envs);
    ApplyPoolsNoEq(map[], conf.pools);
    var pool := PoolVars(merged.pools, poolName);
    var reserved := Reserved(settings, dockerEndpoint, token);
    EnvListShape(reserved, gs, merged.env, ps, pool);
    ReservedNames(settings, dockerEndpoint, token);
    ReservedOrderIsForbidden();
    assert env.value[..4] == reserved;
    forall i | 0 <= i < 4 ensures VarName(env.value[i]) == ReservedOrder[i] {
      assert env.value[i] == reserved[i];
    }
  }

  /** An override name made of a reserved name, '=' and anything else
      passes the forbidden-name check, and yet its entry reads as the
      reserved variable. */
  lemma EqualsInNameShadowsReserved(reserved: string, rest: string, value: string)
    requires reserved in ForbiddenNames
    ensures reserved + "=" + rest !in ForbiddenNames
    ensures VarName(reserved + "=" + rest + "=" + value) == reserved
  {
    var name := reserved + "=" + rest;
    assert name[|reserved|] == '=';
    assert forall k :: 0 <= k < |reserved| ==> reserved[k] != '=';
    FindAt(name + "=" + value, '=', |reserved|);
    assert (name + "=" + value)[..|reserved|] == reserved;
  }

  /** `bsConfigFromEnvMaps`: the maps as stored lists, each binding once in
      an unspecified order, and one pool entry per pool map, empty or not. */
  method BsConfigFromEnvMaps(envMap: EnvMap, poolEnvMap: PoolEnvMap) returns (conf: Config)
    ensures conf.image == "" && conf.token == ""
    ensures Lists(conf.envs, envMap.entries) && Distinct(conf.envs)
    ensures ListsPools(conf.pools, poolEnvMap.pools) && DistinctPools(conf.pools)
    ensures forall q :: 0 <= q < |conf.pools| ==> Distinct(conf.pools[q].envs)
  {
    var envs := ListEntries(envMap.entries);
    var pm := poolEnvMap.pools;
    var pools: seq<PoolEnvs> := [];
    var rest := pm.Keys;
    while rest != {}
      invariant PoolsListedExcept(pools, pm, rest)
      decreases rest
    {
      var name :| name in rest;
      var es := ListEntries(pm[name]);
      PoolsListedStep(pools, pm, rest, name, es);
      pools := pools + [PoolEnvs(name, es)];
      rest := rest - {name};
    }
    conf := new Config(Record("", "", envs, pools));
  }

  /** `ps` lists, each once, the pool maps of `pm` other than those in `rest`. */
  predicate PoolsListedExcept(ps: seq<PoolEnvs>, pm: map<string, Vars>, rest: set<string>)
  {
    rest <= pm.Keys &&
    (forall q :: 0 <= q < |ps| ==>
       ps[q].name in pm && Lists(ps[q].envs, pm[ps[q].name]) && Distinct(ps[q].envs) && ps[q].name !in rest) &&
    (forall n :: n in pm && n !in rest ==> n in PoolNames(ps)) &&
    DistinctPools(ps)
  }

  /** Listing one more pool map keeps `PoolsListedExcept`. */
  lemma PoolsListedStep(ps: seq<PoolEnvs>, pm: map<string, Vars>, rest: set<string>, name: string, es: seq<Env>)
    requires PoolsListedExcept(ps, pm, rest) && name in rest
    requires Lists(es, pm[name]) && Distinct(es)
    ensures PoolsListedExcept(ps + [PoolEnvs(name, es)], pm, rest - {name})
  {
    var ps' := ps + [PoolEnvs(name, es)];
    PoolNamesSnoc(ps');
    assert ps'[..|ps|] == ps;
  }

  /** Saving the maps (`SaveEnvs` stores what `bsConfigFromEnvMaps`
      returns) and applying the saved configuration to new, empty maps gives
      the maps back, pools with empty maps included, when no name is
      reserved and no value is empty. */
  method SavedEnvsRoundTrip(envMap: EnvMap, poolEnvMap: PoolEnvMap)
    returns (err: Option<Error>, envMap': EnvMap, poolEnvMap': PoolEnvMap)
    requires Storable(envMap.entries)
    requires forall p :: p in poolEnvMap.pools ==> Storable(poolEnvMap.pools[p])
    ensures err == None
    ensures envMap'.entries == envMap.entries && poolEnvMap'.pools == poolEnvMap.pools
  {
    var conf := BsConfigFromEnvMaps(envMap, poolEnvMap);
    envMap' := new EnvMap();
    poolEnvMap' := new PoolEnvMap();
    err := conf.UpdateEnvMaps(envMap', poolEnvMap');
    RoundTrip(conf.envs, conf.pools, envMap.entries, poolEnvMap.pools);
  }
}
