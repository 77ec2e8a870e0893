/**
 Deployment of the bs container on a node: pulling and pinning its image,
 creating it (with the relaunch rule), and recreating it on every node of
 the cluster. The docker client is replaced by the results its calls
 return, and every call the core makes is recorded in order.
 */
module Deploy {
  import opened Common
  import opened EnvMerge
  import opened Image
  import opened BsConfig

  /** The name of the bs container on every node. */
  const ContainerName: string := "big-sibling"

  /** The options of the container to create. The restart policy
      ("always"), the privileged flag and the host network mode are the same
      for every container and are not recorded. */
  datatype ContainerSpec = ContainerSpec(name: string, image: string, env: seq<string>, binds: seq<string>)

  /** A call to the docker client of a node. */
  datatype Call =
    | Pull(image: string)
    | Create(spec: ContainerSpec)
    | Remove(id: string, force: bool)
    | Start(id: string)

  /** What the foreign calls of `CreateContainer` return, in the order the
      code makes them. */
  datatype Runtime = Runtime(
    client: Option<Error>,     // docker.NewClient
    load: Option<Error>,       // a failure of the store while loading the record
    pull: Result<seq<string>>, // PullImage: the lines it wrote to its output
    save: Option<Error>,       // a failure of the store while saving the image
    conn: Option<Error>,       // the store connection of getToken
    login: Result<string>,     // AuthScheme.AppLogin
    upsert: Option<Error>,     // a failure of getToken's conditional upsert
    find: Option<Error>,       // a failure of getToken's reload
    create: Result<string>,    // the first CreateContainer: the new container's id
    remove: Option<Error>,     // RemoveContainer
    recreate: Result<string>,  // the second CreateContainer
    start: Option<Error>)      // StartContainer

  /** `pullBsImage`: pull `image`, pin it to the first digest of the pull
      output when it is pinnable, and save the result as the stored image. */
  method PullBsImage(store: ConfigStore, image: string, pull: Result<seq<string>>, save: Option<Error>)
    returns (err: Option<Error>, calls: seq<Call>)
    modifies store
    ensures calls == [Pull(image)]
    ensures pull.Err? ==> err == Some(pull.error) && store.record == old(store.record)
    ensures pull.Ok? && save.Some? ==> err == save && store.record == old(store.record)
    ensures pull.Ok? && save.None? ==>
              err == None && store.record == Some(WithImage(old(store.record), PinnedImage(image, pull.value)))
  {
    calls := [Pull(image)];
    if pull.Err? {
      return Some(pull.error), calls;
    }
    var pinned := image;
    if ShouldPin(image) {
      var digest := FirstDigest(pull.value);
      if digest.Some? {
        pinned := image + "@" + digest.value;
      }
    }
    err := store.SaveImage(pinned, save);
  }

  /** The bind of the host's docker socket into the container, at the
      path the computed `DOCKER_ENDPOINT` names, when a socket is configured. */
  function Binds(socket: string): (binds: seq<string>)
    ensures socket == "" <==> binds == []
    ensures forall i :: 0 <= i < |binds| ==> binds[i] == socket + ":" + SocketPath + ":rw"
  {
    if socket != "" then [socket + ":/var/run/docker.sock:rw"] else []
  }

  /** With a socket configured, the container's docker endpoint is the unix
      socket at the path the host's socket is bound to; without one, the
      node's own endpoint is used and nothing is bound. */
  lemma SocketBindsEndpoint(settings: Settings, dockerEndpoint: string, token: string)
    ensures var reserved := Reserved(settings, dockerEndpoint, token);
            if settings.socket != "" then
              Binds(settings.socket) == [settings.socket + ":" + SocketPath + ":rw"] &&
              reserved[0] == "DOCKER_ENDPOINT=unix://" + SocketPath
            else
              Binds(settings.socket) == [] && reserved[0] == "DOCKER_ENDPOINT=" + dockerEndpoint
  {
    var binds := Binds(settings.socket);
    var reserved := Reserved(settings, dockerEndpoint, token);
    assert reserved[0] == "DOCKER_ENDPOINT=" + (if settings.socket != "" then SocketEndpoint else dockerEndpoint);
    if settings.socket != "" {
      assert |binds| == 1 && binds[0] == settings.socket + ":" + SocketPath + ":rw";
    }
  }

  /** What the create-and-start step of `CreateContainer` does with the
      outcomes of its docker calls. With `relaunch`, a container that
      already exists is removed by force and the creation is tried once
      more; the container is started only when a creation succeeded, with
      the id that creation returned; every failure is returned as it is. */
  predicate LaunchOutcome(spec: ContainerSpec, relaunch: bool, create: Result<string>, remove: Option<Error>,
                          recreate: Result<string>, start: Option<Error>, err: Option<Error>, calls: seq<Call>)
  {
    var replace := relaunch && create == Err(AlreadyExists);
    1 <= |calls| <= 4 && calls[0] == Create(spec) &&
    // a remove happens exactly when relaunching over an existing container, right after the creation
    ((|calls| >= 2 && calls[1].Remove?) <==> replace) &&
    (forall i :: 0 <= i < |calls| && calls[i].Remove? ==> i == 1 && calls[i] == Remove(spec.name, true)) &&
    // a failed creation that is not replaced is returned, and nothing else happens
    (create.Err? && !replace ==> err == Some(create.error) && calls == [Create(spec)]) &&
    // a failed remove is returned
    (replace && remove.Some? ==> err == remove && |calls| == 2) &&
    // otherwise the creation is tried exactly once more, and its failure is returned
    (replace && remove.None? ==> |calls| >= 3 && calls[2] == Create(spec)) &&
    (replace && remove.None? && recreate.Err? ==> err == Some(recreate.error) && |calls| == 3) &&
    (forall i :: 1 <= i < |calls| && calls[i].Create? ==> i == 2 && calls[1].Remove?) &&
    // a successful creation is started, and the start's failure is returned
    (create.Ok? ==> calls == [Create(spec), Start(create.value)] && err == start) &&
    (replace && remove.None? && recreate.Ok? ==>
       calls == [Create(spec), Remove(spec.name, true), Create(spec), Start(recreate.value)] && err == start) &&
    // a start only follows a successful creation, with its id, as the last call
    (forall i :: 0 <= i < |calls| && calls[i].Start? ==>
       i == |calls| - 1 && calls[i - 1].Create? &&
       (if i == 1 then create == Ok(calls[i].id) else recreate == Ok(calls[i].id))) &&
    // success means the container was started
    (err.None? <==> calls[|calls| - 1].Start? && start.None?) &&
    (err.Some? && calls[|calls| - 1].Start? ==> err == start)
  }

  /** The create-and-start step of `CreateContainer`. */
  method Launch(spec: ContainerSpec, relaunch: bool, create: Result<string>, remove: Option<Error>,
                recreate: Result<string>, start: Option<Error>)
    returns (err: Option<Error>, calls: seq<Call>)
    ensures LaunchOutcome(spec, relaunch, create, remove, recreate, start, err, calls)
  {
    calls := [Create(spec)];
    var created := create;
    if relaunch && created == Err(AlreadyExists) {
      calls := calls + [Remove(spec.name, true)];
      if remove.Some? {
        return remove, calls;
      }
      calls := calls + [Create(spec)];
      created := recreate;
    }
    if created.Err? {
      return Some(created.error), calls;
    }
    calls := calls + [Start(created.value)];
    return start, calls;
  }

  /** Without relaunch, an existing container is an error and nothing is
      removed; with it, it is replaced. */
  lemma LaunchRelaunchRule(spec: ContainerSpec, relaunch: bool, create: Result<string>, remove: Option<Error>,
                           recreate: Result<string>, start: Option<Error>, err: Option<Error>, calls: seq<Call>)
    requires LaunchOutcome(spec, relaunch, create, remove, recreate, start, err, calls)
    requires create == Err(AlreadyExists)
    ensures !relaunch ==> err == Some(AlreadyExists) && calls == [Create(spec)]
    ensures relaunch ==> calls[..2] == [Create(spec), Remove(spec.name, true)]
    ensures relaunch && remove.None? && recreate.Ok? && start.None? ==>
              err.None? && calls == [Create(spec), Remove(spec.name, true), Create(spec), Start(recreate.value)]
  {
    if relaunch {
      assert calls[1] == Remove(spec.name, true);
    }
  }

  /** The record a deployment works from: the stored one, or the defaults
      when the store has none. */
  function LoadedRecord(record: Option<Record>): Record
  {
    if record.Some? then record.value else Record("", "", [], [])
  }

  /** Loading the record fails for a reason other than a missing record. */
  predicate LoadFails(load: Option<Error>)
  {
    load.Some? && load.value != NotFound
  }

  /** `CreateContainer`: creates and starts the bs container on the node at
      `dockerEndpoint`, of pool `poolName`, in the order load, pull, token
      and environment, create, start. `token`, `conf`, `env`, `gs` and `ps`
      are the token obtained, the configuration it left, the environment
      list built from that configuration, and the orders its two maps were
      listed in. */
  method CreateContainer(store: ConfigStore, auth: AuthService, rt: Runtime, settings: Settings,
                         dockerEndpoint: string, poolName: string, relaunch: bool)
    returns (err: Option<Error>, calls: seq<Call>, ghost token: Result<string>, ghost conf: Record,
             ghost env: Result<seq<string>>, ghost gs: seq<Env>, ghost ps: seq<Env>)
    modifies store, auth
    // a client or load failure aborts before any call
    ensures rt.client.Some? ==> err == rt.client && calls == [] && unchanged(store, auth)
    ensures rt.client.None? && LoadFails(rt.load) ==>
              err == rt.load && calls == [] && unchanged(store, auth)
    // otherwise the image chosen from the loaded record is pulled first
    ensures rt.client.None? && !LoadFails(rt.load) ==>
              |calls| >= 1 &&
              calls[0] == Pull(GetImage(Some(LoadedRecord(if rt.load.Some? then None else old(store.record)).image),
                                        settings.image))
    // a failed pull or save stops there
    ensures rt.client.None? && !LoadFails(rt.load) && (rt.pull.Err? || rt.save.Some?) ==>
              |calls| == 1 && err == (if rt.pull.Err? then Some(rt.pull.error) else rt.save) &&
              store.record == old(store.record) && auth.revoked == old(auth.revoked)
    // after the pinned image is saved: the token, from the loaded record and the store as saved
    ensures rt.client.None? && !LoadFails(rt.load) && rt.pull.Ok? && rt.save.None? ==>
              |calls| >= 1 &&
              (token, conf) ==
                TokenOutcome(LoadedRecord(if rt.load.Some? then None else old(store.record)),
                             Some(WithImage(old(store.record), PinnedImage(calls[0].image, rt.pull.value))),
                             rt.conn, rt.login, rt.upsert, rt.find) &&
              store.record ==
                TokenStore(LoadedRecord(if rt.load.Some? then None else old(store.record)),
                           Some(WithImage(old(store.record), PinnedImage(calls[0].image, rt.pull.value))),
                           rt.conn, rt.login, rt.upsert) &&
              auth.revoked == old(auth.revoked) +
                TokenRevoked(LoadedRecord(if rt.load.Some? then None else old(store.record)),
                             Some(WithImage(old(store.record), PinnedImage(calls[0].image, rt.pull.value))),
                             rt.conn, rt.login, rt.upsert)
    // then the environment list built with it; its failure is returned
    ensures rt.client.None? && !LoadFails(rt.load) && rt.pull.Ok? && rt.save.None? ==>
              EnvListOf(env, settings, dockerEndpoint, poolName, token, conf, gs, ps) &&
              (env.Err? ==> err == Some(env.error) && |calls| == 1)
    // then the container, from the pulled image and that list, under the relaunch rule
    ensures rt.client.None? && !LoadFails(rt.load) && rt.pull.Ok? && rt.save.None? && env.Ok? ==>
              |calls| >= 2 &&
              LaunchOutcome(ContainerSpec(ContainerName, calls[0].image, env.value, Binds(settings.socket)),
                            relaunch, rt.create, rt.remove, rt.recreate, rt.start, err, calls[1..])
    // success means the container was started
    ensures err.None? ==> |calls| >= 3 && calls[|calls| - 1].Start? && calls[|calls| - 2].Create? && rt.start.None?
  {
    token, conf, env, gs, ps := Err(NotFound), Record("", "", [], []), Err(NotFound), [], [];
    if rt.client.Some? {
      return rt.client, [], token, conf, env, gs, ps;
    }
    var loaded := store.FindRecord(rt.load);
    if loaded.Err? && loaded.error != NotFound {
      return Some(loaded.error), [], token, conf, env, gs, ps;
    }
    var bsConf := new Config(if loaded.Ok? then loaded.value else Record("", "", [], []));
    assert bsConf.AsRecord() == LoadedRecord(if rt.load.Some? then None else old(store.record));
    err, calls, token, conf, env, gs, ps := PullAndCreate(bsConf, store, auth, rt, settings, dockerEndpoint,
                                                          poolName, relaunch);
  }

  /** The part of `CreateContainer` from the pull on, for the configuration
      `bsConf` that was loaded: the image chosen from it is pulled, pinned
      and saved, then the container is created and started from it. */
  method PullAndCreate(bsConf: Config, store: ConfigStore, auth: AuthService, rt: Runtime, settings: Settings,
                       dockerEndpoint: string, poolName: string, relaunch: bool)
    returns (err: Option<Error>, calls: seq<Call>, ghost token: Result<string>, ghost conf: Record,
             ghost env: Result<seq<string>>, ghost gs: seq<Env>, ghost ps: seq<Env>)
    modifies bsConf, store, auth
    // the image chosen from the configuration is pulled first
    ensures |calls| >= 1 && calls[0] == Pull(GetImage(Some(old(bsConf.image)), settings.image))
    // a failed pull or save stops there
    ensures rt.pull.Err? || rt.save.Some? ==>
              |calls| == 1 && err == (if rt.pull.Err? then Some(rt.pull.error) else rt.save) &&
              store.record == old(store.record) && auth.revoked == old(auth.revoked)
    // after the pinned image is saved: the token, from the configuration and the store as saved
    ensures rt.pull.Ok? && rt.save.None? ==>
              (token, conf) ==
                TokenOutcome(old(bsConf.AsRecord()), Some(WithImage(old(store.record), PinnedImage(calls[0].image, rt.pull.value))),
                             rt.conn, rt.login, rt.upsert, rt.find) &&
              store.record ==
                TokenStore(old(bsConf.AsRecord()), Some(WithImage(old(store.record), PinnedImage(calls[0].image, rt.pull.value))),
                           rt.conn, rt.login, rt.upsert) &&
              auth.revoked == old(auth.revoked) +
                TokenRevoked(old(bsConf.AsRecord()), Some(WithImage(old(store.record), PinnedImage(calls[0].image, rt.pull.value))),
                             rt.conn, rt.login, rt.upsert)
    // then the environment list built with it; its failure is returned
    ensures rt.pull.Ok? && rt.save.None? ==>
              EnvListOf(env, settings, dockerEndpoint, poolName, token, conf, gs, ps) &&
              (env.Err? ==> err == Some(env.error) && |calls| == 1)
    // then the container, from the pulled image and that list, under the relaunch rule
    ensures rt.pull.Ok? && rt.save.None? && env.Ok? ==>
              |calls| >= 2 &&
              LaunchOutcome(ContainerSpec(ContainerName, calls[0].image, env.value, Binds(settings.socket)),
                            relaunch, rt.create, rt.remove, rt.recreate, rt.start, err, calls[1..])
    // success means the container was started
    ensures err.None? ==> |calls| >= 3 && calls[|calls| - 1].Start? && calls[|calls| - 2].Create? && rt.start.None?
  {
    token, conf, env, gs, ps := Err(NotFound), Record("", "", [], []), Err(NotFound), [], [];
    var bsImage := GetImage(Some(bsConf.image), settings.image);
    err, calls := PullBsImage(store, bsImage, rt.pull, rt.save);
    if err.Some? {
      return;
    }
    var rest;
    err, rest, token, env, gs, ps := CreateAndStart(bsConf, store, auth, rt, settings, dockerEndpoint, poolName,
                                                    bsImage, relaunch);
    conf := bsConf.AsRecord();
    calls := calls + rest;
    assert calls[1..] == rest;
  }

  /** The part of `CreateContainer` after the pull: the token and the
      environment list, then the creation of the container from `image`
      with that list, under the relaunch rule, then its start. */
  method CreateAndStart(conf: Config, store: ConfigStore, auth: AuthService, rt: Runtime, settings: Settings,
                        dockerEndpoint: string, poolName: string, image: string, relaunch: bool)
    returns (err: Option<Error>, calls: seq<Call>, token: Result<string>, env: Result<seq<string>>,
             ghost gs: seq<Env>, ghost ps: seq<Env>)
    modifies conf, store, auth
    ensures (token, conf.AsRecord()) ==
              TokenOutcome(old(conf.AsRecord()), old(store.record), rt.conn, rt.login, rt.upsert, rt.find)
    ensures store.record == TokenStore(old(conf.AsRecord()), old(store.record), rt.conn, rt.login, rt.upsert)
    ensures auth.revoked ==
              old(auth.revoked) + TokenRevoked(old(conf.AsRecord()), old(store.record), rt.conn, rt.login, rt.upsert)
    ensures EnvListOf(env, settings, dockerEndpoint, poolName, token, conf.AsRecord(), gs, ps)
    ensures env.Err? ==> err == Some(env.error) && calls == []
    ensures env.Ok? ==>
              LaunchOutcome(ContainerSpec(ContainerName, image, env.value, Binds(settings.socket)),
                            relaunch, rt.create, rt.remove, rt.recreate, rt.start, err, calls)
  {
    token, env, gs, ps := ContainerEnv(conf, store, auth, rt, settings, dockerEndpoint, poolName);
    if env.Err? {
      return Some(env.error), [], token, env, gs, ps;
    }
    var spec := ContainerSpec(ContainerName, image, env.value, Binds(settings.socket));
    err, calls := Launch(spec, relaunch, rt.create, rt.remove, rt.recreate, rt.start);
  }

  /** The token (`getToken`, which `EnvListForEndpoint` calls) and the
      environment list built with it and with the configuration it left. */
  method ContainerEnv(conf: Config, store: ConfigStore, auth: AuthService, rt: Runtime, settings: Settings,
                      dockerEndpoint: string, poolName: string)
    returns (token: Result<string>, env: Result<seq<string>>, ghost gs: seq<Env>, ghost ps: seq<Env>)
    modifies conf, store, auth
    ensures (token, conf.AsRecord()) ==
              TokenOutcome(old(conf.AsRecord()), old(store.record), rt.conn, rt.login, rt.upsert, rt.find)
    ensures store.record == TokenStore(old(conf.AsRecord()), old(store.record), rt.conn, rt.login, rt.upsert)
    ensures auth.revoked ==
              old(auth.revoked) + TokenRevoked(old(conf.AsRecord()), old(store.record), rt.conn, rt.login, rt.upsert)
    ensures EnvListOf(env, settings, dockerEndpoint, poolName, token, conf.AsRecord(), gs, ps)
    ensures env.Ok? ==> token.Ok? && |env.value| >= 4 && env.value[..4] == Reserved(settings, dockerEndpoint, token.value)
  {
    token := conf.GetToken(store, auth, rt.conn, rt.login, rt.upsert, rt.find);
    env, gs, ps := conf.EnvListForEndpoint(settings, token, dockerEndpoint, poolName);
  }

  // ---------------------------------------------------------------------------
  // Recreating the containers of the cluster.
  // ---------------------------------------------------------------------------

  /** A node of the cluster: its address and its metadata. */
  datatype Node = Node(address: string, metadata: map<string, string>)

  /** The pool of a node, "" when its metadata has none. */
  function PoolOf(node: Node): string
  {
    if "pool" in node.metadata then node.metadata["pool"] else ""
  }

  /** The message a node's failure is reported with. */
  function FailureMessage(node: Node, e: Error): string
  {
    "[bs containers] failed to create container in " + node.address + " [" + PoolOf(node) + "]: " + Message(e)
  }

  /** `order` lists every index below `n` exactly once. */
  predicate IsOrder(order: seq<nat>, n: nat)
  {
    |order| == n &&
    (forall k :: 0 <= k < n ==> order[k] < n) &&
    (forall i :: 0 <= i < n ==> i in order)
  }

  /** `RecreateContainers`, its goroutines run one after the other.
      `outcomes[i]` is the result of `CreateContainer` with relaunch on the
      node `nodes[i]` and `order` the order in which the nodes finished;
      failures are buffered in that order and the first one is returned.
      A failure to list the nodes is returned as it is. */
  method RecreateContainers(nodes: Result<seq<Node>>, outcomes: seq<Option<Error>>, order: seq<nat>)
    returns (err: Option<Error>)
    requires nodes.Ok? ==> |outcomes| == |nodes.value| && IsOrder(order, |nodes.value|)
    ensures nodes.Err? ==> err == Some(nodes.error)
    ensures nodes.Ok? ==> (err.None? <==> forall i :: 0 <= i < |outcomes| ==> outcomes[i].None?)
    ensures nodes.Ok? && err.Some? ==>
              exists k :: 0 <= k < |order| && outcomes[order[k]].Some? &&
                          err == Some(Other(FailureMessage(nodes.value[order[k]], outcomes[order[k]].value))) &&
                          forall l :: 0 <= l < k ==> outcomes[order[l]].None?
  {
    if nodes.Err? {
      return Some(nodes.error);
    }
    var failures: seq<nat> := [];
    var k := 0;
    while k < |order|
      invariant k <= |order|
      invariant forall f :: 0 <= f < |failures| ==> failures[f] < k && outcomes[order[failures[f]]].Some?
      invariant forall l :: 0 <= l < k && outcomes[order[l]].Some? ==> l in failures
      invariant failures != [] ==> forall l :: 0 <= l < failures[0] ==> outcomes[order[l]].None?
    {
      if outcomes[order[k]].Some? {
        failures := failures + [k];
      }
      k := k + 1;
    }
    if failures == [] {
      forall i | 0 <= i < |outcomes| ensures outcomes[i].None? {
        assert i in order;
      }
      return None;
    }
    var first := failures[0];
    var i := order[first];
    return Some(Other(FailureMessage(nodes.value[i], outcomes[i].value)));
  }
}
