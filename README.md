# bs: the sidecar agent's configuration and deployment

This project models the core of the `bs` ("big sibling") package of the
tsuru docker provisioner. `bs` is the agent container that runs on every
docker node of a tsuru cluster. Its single configuration record, stored in
the `bsconfig` collection, holds an image, an API token, and
`NAME=VALUE` environment overrides, both global and per pool.

The model covers:

- how the overrides are merged into environment maps (`UpdateEnvMaps`);
- how maps are written back as lists (`bsConfigFromEnvMaps`);
- the environment list of the container (`EnvListForEndpoint`, `SysLogPort`);
- the choice of the image (`getImage`) and its pinning to a content digest
  (`shouldPinBsImage`, `pullBsImage`);
- the token protocol (`getToken`);
- the creation of the container on a node under the relaunch rule
  (`CreateContainer`);
- a sequential rendering of `RecreateContainers`.

Files:

- `common.dfy`: `Option`, `Result` and the errors the core tells apart.
- `strings.dfy`: the parts of Go's `strings` and `strconv` that the code
  relies on (`SplitN`, `TrimRight`, `HasPrefix`, `Itoa`).
- `env_merge.dfy`: the environment maps (classes, since Go maps are
  updated in place) and `Merge`, the reference semantics of
  `UpdateEnvMaps`, with its properties. These are fail-fast on a reserved
  name, last entry wins, pools are created when first reached, and the
  round trip holds.
- `image.dfy`: the pin predicate, characterised by the position of the
  colons, and the digest taken from the pull output.
- `config.dfy`:
  - the `Config` class, with `UpdateEnvMaps` proved against `Merge`,
    `EnvListForEndpoint` and `GetToken`;
  - the store and the authentication service, as far as the token
    protocol uses them;
  - the image choice, the endpoint and syslog entries, and the
    serialisation of maps back into lists.
- `deploy.dfy`: `pullBsImage`, the relaunch rule, `CreateContainer` and
  `RecreateContainers`. The docker client is replaced by the results of
  its calls, and the calls are recorded in order.

Go maps iterate in an unspecified order. Listing a map is modelled by an
arbitrary choice of the next key (`ListEntries`), so every property about
a listing holds for every order.

Where the code and its description differ, the model follows the code:

- `shouldPinBsImage` splits on "/" into at most three parts. The part it
  checks for a ':' is therefore everything after the second slash, which
  may itself contain slashes. It is not the last path segment.
- The digest is the one on the first `Digest: ` line of the pull output
  (`FindAllStringSubmatch(..., 1)`).
- The container is created from the image as chosen, not from the pinned
  one. The pinned image is only saved, and is used from the next load of
  the record on.
- `RecreateContainers` returns the first failure that entered the buffered
  channel. That is the first failure in completion order, not the last one.
- With an empty `host` setting the platform endpoint is "http:/", because
  the slashes of the added scheme are trimmed with the trailing ones
  (`TsuruEndpointEmptyHost`).
- The forbidden-name check compares whole names. An override named
  `TSURU_TOKEN=x` therefore passes it, and its entry `TSURU_TOKEN=x=...`
  sets the reserved variable again (`EqualsInNameShadowsReserved`).
  `EnvListNoLaterReserved` shows that no later entry uses a reserved name
  whenever no override name contains '='.

## Model

| member | source | states |
|---|---|---|
| EnvMerge.EnvMap.constructor | provision/docker/bs/bs.go:60 | a new global environment map is empty |
| EnvMerge.PoolEnvMap.constructor | provision/docker/bs/bs.go:62 | a new pool environment map is empty |
| EnvMerge.Apply | provision/docker/bs/bs.go:75-79 | an entry with an empty value deletes its name, any other value sets it; every other name keeps its binding |
| EnvMerge.AllowedPrefix | provision/docker/bs/bs.go:71-74 | the entries before the returned position use no reserved name, and the entry at it (if any) does: where the fail-fast loop stops |
| EnvMerge.CleanPools | provision/docker/bs/bs.go:81-88 | the pools before the returned position have no reserved name, and the pool at it (if any) has one |
| EnvMerge.Merge | provision/docker/bs/bs.go:64-97 | the reference semantics of the merge: global entries until the first reserved name, then each pool's, a pool's map created when reached; its properties are the lemmas below |
| EnvMerge.ApplyAllUntouched | provision/docker/bs/bs.go:71-80 | a name no entry mentions keeps its binding, or stays unbound |
| EnvMerge.ApplyAllLastWins | provision/docker/bs/bs.go:75-79 | for a repeated name, the last entry decides: unbound if its value is empty, bound to its value otherwise |
| EnvMerge.ApplyAllKeys | provision/docker/bs/bs.go:71-80 | applying entries binds no name other than those already bound and those the entries mention |
| EnvMerge.ApplyPoolsKeys | provision/docker/bs/bs.go:81-95 | after the pools are applied, the pool map has exactly the old pools plus every pool listed, even a pool whose entries are all deletions |
| EnvMerge.MergeFailsOnGlobal | provision/docker/bs/bs.go:71-74 | a reserved global name fails with that name; the global entries before it stay applied, and no pool is touched |
| EnvMerge.MergeFailsOnPool | provision/docker/bs/bs.go:81-88 | a reserved name in pool j fails with that name after all global entries, the pools before j and the entries of pool j before it were applied; pool j's map exists |
| EnvMerge.MergeSucceedsIff | provision/docker/bs/bs.go:64-97 | the merge succeeds if and only if no global or pool entry uses a reserved name; it then applies every entry |
| EnvMerge.MergeErrorIsForbidden | provision/docker/bs/bs.go:72-73 | every merge error names a reserved variable |
| EnvMerge.MergePools | provision/docker/bs/bs.go:81-95 | with clean global entries, the pool maps after the merge are the clean pools applied, plus the partial map of the first bad pool |
| EnvMerge.MergePoolsKeys | provision/docker/bs/bs.go:82-84 | every pool the merge reaches, including a failing one, ends with a map |
| EnvMerge.MergePoolKeys | provision/docker/bs/bs.go:82-84 | a pool has a map after the merge exactly when it had one before or the merge reached it |
| EnvMerge.MergeNeverBindsReserved | provision/docker/bs/bs.go:64-97 | starting from maps without reserved names, the merge never binds one, whether it succeeds or fails |
| EnvMerge.ReservedOrderIsForbidden | provision/docker/bs/bs.go:65-70 | the names the check refuses are exactly the four variables the list computes (bs.go:125-130) |
| EnvMerge.AllowedNames | provision/docker/bs/bs.go:72-74 | entries that pass the check mention no reserved name |
| EnvMerge.ApplyPoolsReservedFree | provision/docker/bs/bs.go:81-95 | pools that pass the check leave every pool map free of reserved names |
| EnvMerge.ApplyAgreeing | provision/docker/bs/bs.go:71-80 | entries that agree with a map set exactly the names they mention to that map's values |
| EnvMerge.ApplyListing | provision/docker/bs/bs.go:181-183 | the listing of a storable map, applied to an empty map, gives the map back |
| EnvMerge.ApplyPoolsListing | provision/docker/bs/bs.go:184-190 | the listings of storable pool maps, applied to no pools, give back the pools with exactly those names and maps |
| EnvMerge.RoundTrip | provision/docker/bs/bs.go:179-192 | lists that describe storable maps, merged into empty maps, reproduce both maps exactly, including pools with empty maps |
| Strings.TrimRight | provision/docker/bs/bs.go:115 | every trailing '/' is dropped and nothing else: the result is a prefix not ending in '/', and the rest is all '/' |
| Strings.SplitN | provision/docker/bs/bs.go:324 | a split into at most n parts; only the last part can hold the separator, and only when all n parts were used |
| Strings.SplitNJoin | provision/docker/bs/bs.go:324-325 | joining the parts with the separator gives the string back |
| Strings.HasPrefix | provision/docker/bs/bs.go:112 | `strings.HasPrefix`: the string begins with the prefix; `HasPrefixIff` states what that means |
| Strings.HasPrefixIff | provision/docker/bs/bs.go:112 | a string has a prefix exactly when it is that prefix followed by something |
| Strings.IntToString | provision/docker/bs/bs.go:129 | `strconv.Itoa`: a leading '-' exactly for a negative number, so a negative configured port is rendered with a '-'; the digits read back as the magnitude |
| Strings.NatToStringRoundTrip | provision/docker/bs/bs.go:129 | the decimal text of a port reads back as the port |
| Image.ShouldPin | provision/docker/bs/bs.go:323-327 | the pin predicate as written; `ShouldPinIff` characterises it by the positions of the colons |
| Image.LastPartIsSuffix | provision/docker/bs/bs.go:324-325 | the last part of the split is the suffix of the reference from a computed position |
| Image.LastStartAt | provision/docker/bs/bs.go:324-325 | a position is in the last part exactly when at least min(2, number of slashes) slashes come before it |
| Image.SplitColon | provision/docker/bs/bs.go:326 | splitting on ':' into at most two parts gives fewer than two exactly when there is no ':' |
| Image.ShouldPinLastPart | provision/docker/bs/bs.go:323-327 | a reference is pinned exactly when its last part has no ':' |
| Image.ShouldPinIff | provision/docker/bs/bs.go:323-327 | a reference is pinned exactly when every ':' comes before its second slash and before its last slash |
| Image.PinUntagged | provision/docker/bs/bs.go:323-327 | "tsuru/bs" is pinned |
| Image.PinRegistryPort | provision/docker/bs/bs.go:323-327 | "registry/repo/name" with an untagged name is pinned, whatever the registry part holds (a port, say) |
| Image.NoPinTagged | provision/docker/bs/bs.go:323-327 | "repo/name:tag" is not pinned |
| Image.NoPinColonAfterSecondSlash | provision/docker/bs/bs.go:323-327 | "a/b/c:d/e" is not pinned: everything after the second slash counts |
| Image.FirstDigest | provision/docker/bs/bs.go:315-316 | there is no digest exactly when no line starts with "Digest: "; otherwise it is the rest of the first such line |
| Image.PinnedImage | provision/docker/bs/bs.go:314-319 | the reference as saved after a pull; `PinnedAtFirstDigestLine` and `PinnedUnchanged` state its two cases |
| Image.PinnedAtFirstDigestLine | provision/docker/bs/bs.go:314-319 | a pinnable reference gets "@" and the rest of the first "Digest: " line appended |
| Image.PinnedUnchanged | provision/docker/bs/bs.go:314-319 | a reference that is not pinnable, or an output with no digest line, is left as it is |
| BsConfig.Config.constructor | provision/docker/bs/bs.go:52-58 | the configuration holds the record's image, token, global overrides and pools |
| BsConfig.Config.UpdateEnvMaps | provision/docker/bs/bs.go:64-97 | the two maps, updated in place, and the error are exactly those of the merge of the old maps |
| BsConfig.ApplyChecked | provision/docker/bs/bs.go:71-80 | one fail-fast pass over a list: it stops at the first reserved name, with every entry before it applied |
| BsConfig.Config.EnvListForEndpoint | provision/docker/bs/bs.go:110-144 | a token failure comes first, then a merge failure; otherwise the four computed entries, then every merged global binding once, then every binding of the node's pool once; a list always starts with the computed entries (`EnvListOf`); `EnvListNoLaterReserved` shows no later entry sets a reserved variable when no override name holds '=' |
| BsConfig.Config.GetToken | provision/docker/bs/bs.go:146-177 | a cached token is returned without I/O; otherwise the caller whose conditional write succeeds adopts its token and changes nothing else of the configuration; every other caller revokes its token; a lost race reloads the stored record; other failures are returned; a stored token is never replaced; result and configuration are those of `TokenOutcome`, the stored record that of `TokenStore` and the tokens revoked those of `TokenRevoked` |
| BsConfig.TokenOutcome | provision/docker/bs/bs.go:146-177 | the result of `getToken` and the configuration it leaves, case by case, from the starting configuration, the stored record and the outcomes of its calls |
| BsConfig.TokenStore | provision/docker/bs/bs.go:160-167 | the stored record after `getToken`: the issued token is stored only by the caller whose conditional upsert succeeds |
| BsConfig.TokenRevoked | provision/docker/bs/bs.go:164-168 | the tokens `getToken` revokes: the issued one whenever its conditional upsert fails |
| BsConfig.IssuedTokenStoredOrRevoked | provision/docker/bs/bs.go:160-176 | an issued token is either stored and not revoked, or revoked with the store left as it was; a stored token is never replaced, and the token is revoked exactly when the upsert failed or found one |
| BsConfig.TokenStoreKeepsImage | provision/docker/bs/bs.go:160-163 | the token step changes only the stored token: an image saved before it (bs.go:320) stays saved, and so do the overrides |
| BsConfig.ConfigStore.SetTokenIfUnset | provision/docker/bs/bs.go:160-163 | the token is written only when none is stored, creating the record if needed; otherwise a duplicate key error |
| BsConfig.ConfigStore.SaveImage | provision/docker/bs/bs.go:202-210 | the image is set and every other field kept, creating the record if needed |
| BsConfig.ConfigStore.FindRecord | provision/docker/bs/bs.go:223-235 | the stored record, or not found when there is none |
| BsConfig.AuthService.Logout | provision/docker/bs/bs.go:168 | the token is revoked |
| BsConfig.TwoFirstTimeCallers | provision/docker/bs/bs.go:160-176 | of two callers that both find no token, both end with the first one's token, which stays stored, and the second one's token is revoked |
| BsConfig.GetImage | provision/docker/bs/bs.go:99-108 | the stored image if there is one, else the configured image, else "tsuru/bs"; a nil configuration has none; never empty |
| BsConfig.SysLogPort | provision/docker/bs/bs.go:194-200 | the configured syslog port, 1514 when none (0) is configured; see `SyslogAddressDefault` and `SyslogAddressPort` |
| BsConfig.SyslogAddress | provision/docker/bs/bs.go:129 | the value of SYSLOG_LISTEN_ADDRESS, "udp://0.0.0.0:" and the port in decimal |
| BsConfig.SyslogAddressDefault | provision/docker/bs/bs.go:194-200 | without a configured port the agent listens on "udp://0.0.0.0:1514" |
| BsConfig.SyslogAddressPort | provision/docker/bs/bs.go:129 | a positive configured port reads back from the syslog address (a negative one is rendered with a '-', see `IntToString`) |
| BsConfig.TsuruEndpoint | provision/docker/bs/bs.go:111-115 | the platform endpoint: "http://" added when the host has no scheme, trailing slashes replaced by one; its properties are the lemmas below |
| BsConfig.TsuruEndpointOneSlash | provision/docker/bs/bs.go:115 | the platform endpoint ends in exactly one slash |
| BsConfig.TsuruEndpointBareHost | provision/docker/bs/bs.go:112-115 | a bare host name gets "http://" in front and one slash behind |
| BsConfig.TsuruEndpointKeepsScheme | provision/docker/bs/bs.go:112-115 | a host with a scheme and no trailing '/' is kept, with one '/' added |
| BsConfig.TsuruEndpointEmptyHost | provision/docker/bs/bs.go:111-115 | an empty host yields "http:/" |
| BsConfig.TsuruEndpointIdempotent | provision/docker/bs/bs.go:112-115 | normalising an endpoint that has a scheme changes nothing |
| BsConfig.Reserved | provision/docker/bs/bs.go:116-130 | the four computed entries; `ReservedNames` states their names and order, `SocketBindsEndpoint` the docker endpoint |
| BsConfig.EnvListOf | provision/docker/bs/bs.go:110-144 | what `EnvListForEndpoint` returns for a configuration and a token: the token's failure, the merge's failure, or the computed entries followed by listings of the merged global and pool maps |
| BsConfig.ListEntries | provision/docker/bs/bs.go:137-142 | a map is listed with every binding exactly once, in some order |
| BsConfig.ReservedNames | provision/docker/bs/bs.go:125-130 | the computed entries are DOCKER_ENDPOINT, TSURU_ENDPOINT, TSURU_TOKEN and SYSLOG_LISTEN_ADDRESS, in that order |
| BsConfig.RenderedNames | provision/docker/bs/bs.go:137-142 | `Render` gives one "NAME=VALUE" string per entry, in order, and each reads back as its own name when that name has no '=' |
| BsConfig.EnvListShape | provision/docker/bs/bs.go:125-143 | for merged maps free of reserved names, the list is the computed entries, then one entry per global and pool binding, and, when no override name holds '=', no later entry names a reserved variable (without that, `EqualsInNameShadowsReserved` shows one can) |
| BsConfig.EnvListNoLaterReserved | provision/docker/bs/bs.go:121-143 | in a built list, when no override name holds '=', an entry sets a reserved variable exactly when it is one of the first four, which set them in their fixed order |
| BsConfig.EqualsInNameShadowsReserved | provision/docker/bs/bs.go:72 | a name made of a reserved name and '=' passes the check, yet its entry reads as the reserved variable |
| BsConfig.BsConfigFromEnvMaps | provision/docker/bs/bs.go:179-192 | the lists describe the maps: each binding once, one pool entry per pool map, empty ones included, no pool twice |
| BsConfig.SavedEnvsRoundTrip | provision/docker/bs/bs.go:212-221 | saving storable maps and applying what was saved to new, empty maps succeeds and gives the maps back |
| Deploy.PullBsImage | provision/docker/bs/bs.go:303-321 | a failed pull is returned; otherwise the image, pinned to the first digest when pinnable, is saved whether or not it was pinned |
| Deploy.SocketBindsEndpoint | provision/docker/bs/bs.go:116-120 | with a socket configured, the host socket is bound at /var/run/docker.sock and DOCKER_ENDPOINT names that same path as a unix socket; without one nothing is bound and the node's endpoint is used |
| Deploy.LaunchOutcome | provision/docker/bs/bs.go:289-300 | the calls and the error of the create-and-start step for every outcome of the docker calls: a failed creation not replaced is returned with no other call; with relaunch an existing container is force-removed (a failed removal returned) and the creation tried exactly once more, its failure returned; a successful creation is started with its id and the start's error returned |
| Deploy.Launch | provision/docker/bs/bs.go:289-300 | the create-and-start step does exactly what `LaunchOutcome` describes |
| Deploy.LaunchRelaunchRule | provision/docker/bs/bs.go:289-295 | over an existing container: without relaunch the error is returned and nothing removed; with relaunch it is removed by force first, and a successful second creation and start succeed |
| Deploy.CreateContainer | provision/docker/bs/bs.go:251-301 | client and load failures other than not-found abort before any call, changing nothing; a missing record means defaults; the chosen image is pulled first, and a failed pull or save stops there with the store and the revoked tokens as they were; then the token is obtained from the loaded record and the store as saved (the pinned image stays saved: `TokenStoreKeepsImage`), the store and revoked tokens being those of `TokenStore` and `TokenRevoked`, and the environment list is built from the configuration it left; its failure is returned; otherwise the container is created from the unpinned image, named "big-sibling", with that list and the socket bind, under the relaunch rule (`LaunchOutcome`) |
| Deploy.PullAndCreate | provision/docker/bs/bs.go:262-300 | the same as `CreateContainer`, from the pull on, for a loaded configuration |
| Deploy.CreateAndStart | provision/docker/bs/bs.go:273-300 | the token and configuration are those of `TokenOutcome`, the store and revoked tokens those of `TokenStore` and `TokenRevoked`, the list is `EnvListOf` them; a failed list is returned with no docker call; otherwise the calls and error are `LaunchOutcome` of a container named "big-sibling" with the given image, that list and the socket bind |
| Deploy.ContainerEnv | provision/docker/bs/bs.go:110-177 | the token and the configuration left are those of `TokenOutcome`, the store and revoked tokens those of `TokenStore` and `TokenRevoked`; the list is `EnvListOf` that token and configuration, and always starts with the four computed entries |
| Deploy.PoolOf | provision/docker/bs/bs.go:345 | the pool of a node, "" when its metadata has none (a missing key of a Go map) |
| Deploy.FailureMessage | provision/docker/bs/bs.go:347-349 | the message a node's failure is reported with |
| Common.Message | provision/docker/bs/bs.go:73 | the text of an error; a reserved name gives "cannot set NAME variable" |
| Deploy.RecreateContainers | provision/docker/bs/bs.go:331-359 | a node listing failure is returned; otherwise no error exactly when no node failed, else the message of the first failure in completion order |

## Left out

- The MongoDB layer (`collection`, the upserts, `LoadConfig`, `SaveEnvs`): the record is a field of `ConfigStore`, and the failures of each store call are parameters.
- The docker client (`NewClient`, `PullImage`, `CreateContainer`, `RemoveContainer`, `StartContainer`): each call's result is a parameter, and the calls are recorded in order. The restart policy, the privileged flag and the host network mode are constant and not recorded.
- Deploy.PullBsImage: the second `NewClient` of `pullBsImage` is not modelled. It uses the same endpoint as the one `CreateContainer` already opened, so it gives the same result.
- The configuration lookups (`host`, `docker:bs:image`, `docker:bs:socket`, `docker:bs:syslog-port`) are the fields of `Settings`. A missing key is "" or 0, as `config.Get*` returns it with its error ignored.
- `AuthScheme.AppLogin` is a parameter. `Logout` is recorded in `AuthService.revoked`, and its error is ignored, as in the code.
- The regexp engine: the pull output is a sequence of lines, and a match of `(?m)^Digest: (.*)$` is a line that starts with "Digest: ".
- Go map iteration order: listings are arbitrary, and their properties hold for every order.
- The inner maps of a `PoolEnvMap` are held by value, so aliasing between the caller's inner maps is not modelled.
- BsConfig.Config.UpdateEnvMaps: a pool's map is updated as a value and stored back after its entries. The code updates it through the map it just looked up. Both end in the same state, since nothing else runs in between.
- BsConfig.Config.EnvListForEndpoint: in the code it calls `getToken` itself, after the endpoint lookups and before `UpdateEnvMaps`. In the model the token is a parameter and the call to `GetToken` is made just before, by `Deploy.ContainerEnv`. The outcome is the same: the lookups do not touch the configuration, and the configuration `GetToken` leaves (reloaded after a lost race) is the one the merge reads.
- BsConfig.Config.GetToken: on a lost race the reloaded record replaces all four fields of the configuration. A stored document that lacks some field is not modelled.
- Deploy.RecreateContainers: the goroutines, the wait group and the channel are replaced by a sequential pass over the nodes in completion order. That order is a parameter, and each node's outcome (a `CreateContainer` run with relaunch on) is a parameter too. Logging is left out.
- `QueueTaskName` and the task queue that uses it are not part of this model.
