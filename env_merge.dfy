/**
 Environment overrides of the bs container: the stored `(Name, Value)` lists,
 the maps they are applied to, and the reference semantics of applying them
 (what `Config.UpdateEnvMaps` does to its two maps).
 */
module EnvMerge {
  import opened Common

  /** One stored override. An empty `value` means "remove this name". */
  datatype Env = Env(name: string, value: string)

  /** The overrides of one pool. */
  datatype PoolEnvs = PoolEnvs(name: string, envs: seq<Env>)

  /** Contents of a Go `EnvMap`. */
  type Vars = map<string, string>

  /** The variables the system computes itself, in the order the final
      environment list puts them. */
  const ReservedOrder: seq<string> :=
    ["DOCKER_ENDPOINT", "TSURU_ENDPOINT", "TSURU_TOKEN", "SYSLOG_LISTEN_ADDRESS"]

  /** Names no override may use. */
  const ForbiddenNames: set<string> :=
    {"DOCKER_ENDPOINT", "TSURU_ENDPOINT", "SYSLOG_LISTEN_ADDRESS", "TSURU_TOKEN"}

  /** A Go `EnvMap` owned by the caller and updated in place. */
  class EnvMap {
    var entries: Vars

    constructor ()
      ensures entries == map[]
    {
      entries := map[];
    }
  }

  /** A Go `PoolEnvMap`: one `EnvMap` per pool name. The inner maps are held
      by value: no two pools share a map. */
  class PoolEnvMap {
    var pools: map<string, Vars>

    constructor ()
      ensures pools == map[]
    {
      pools := map[];
    }
  }

  /** The map of pool `name`, empty when the pool has none. */
  function PoolVars(pm: map<string, Vars>, name: string): Vars
  {
    if name in pm then pm[name] else map[]
  }

  /** The set of names an override list mentions. */
  function NamesOf(es: seq<Env>): set<string>
  {
    set i | 0 <= i < |es| :: es[i].name
  }

  /** One override applied to a map: delete on an empty value, upsert
      otherwise; every other name keeps its binding. */
  function Apply(m: Vars, e: Env): (r: Vars)
    ensures e.value == "" ==> e.name !in r
    ensures e.value != "" ==> e.name in r && r[e.name] == e.value
    ensures forall n :: n != e.name ==> (n in r <==> n in m)
    ensures forall n :: n != e.name && n in r ==> r[n] == m[n]
  {
    if e.value == "" then m - {e.name} else m[e.name := e.value]
  }

  /** A list of overrides applied in order, none of them checked. */
  function ApplyAll(m: Vars, es: seq<Env>): Vars
    decreases |es|
  {
    if es == [] then m else Apply(ApplyAll(m, es[..|es| - 1]), es[|es| - 1])
  }

  /** Length of the longest prefix of `es` that uses no forbidden name: the
      entries a fail-fast pass applies before it stops. */
  function AllowedPrefix(es: seq<Env>): (k: nat)
    ensures k <= |es|
    ensures forall i :: 0 <= i < k ==> es[i].name !in ForbiddenNames
    ensures k < |es| ==> es[k].name in ForbiddenNames
  {
    if es == [] || es[0].name in ForbiddenNames then 0 else 1 + AllowedPrefix(es[1..])
  }

  /** The overrides of one pool applied to its map, which is created empty
      when the pool had none. */
  function ApplyPool(pm: map<string, Vars>, p: PoolEnvs): map<string, Vars>
  {
    pm[p.name := ApplyAll(PoolVars(pm, p.name), p.envs)]
  }

  /** A list of pools applied in order, none of them checked. */
  function ApplyPools(pm: map<string, Vars>, ps: seq<PoolEnvs>): map<string, Vars>
    decreases |ps|
  {
    if ps == [] then pm else ApplyPool(ApplyPools(pm, ps[..|ps| - 1]), ps[|ps| - 1])
  }

  /** Applying one more pool of a list. */
  lemma ApplyPoolsStep(pm: map<string, Vars>, ps: seq<PoolEnvs>, q: nat)
    requires q < |ps|
    ensures ApplyPools(pm, ps[..q + 1]) == ApplyPool(ApplyPools(pm, ps[..q]), ps[q])
  {
    assert ps[..q + 1][..q] == ps[..q];
  }

  /** Number of leading pools whose overrides use no forbidden name. */
  function CleanPools(ps: seq<PoolEnvs>): (j: nat)
    ensures j <= |ps|
    ensures forall q :: 0 <= q < j ==> AllowedPrefix(ps[q].envs) == |ps[q].envs|
    ensures j < |ps| ==> AllowedPrefix(ps[j].envs) < |ps[j].envs|
  {
    if ps == [] || AllowedPrefix(ps[0].envs) < |ps[0].envs| then 0 else 1 + CleanPools(ps[1..])
  }

  /** The two maps and the error after a merge. */
  datatype Merged = Merged(env: Vars, pools: map<string, Vars>, err: Option<Error>)

  /** Reference semantics of `UpdateEnvMaps`: the global overrides in order,
      then the pools in order, each entry checked against the forbidden names
      before it is applied; the first forbidden entry stops everything and is
      named in the error, and what was applied before it stays applied. A
      pool that is reached gets a map even if it applies nothing. */
  function Merge(envs: seq<Env>, pools: seq<PoolEnvs>, m: Vars, pm: map<string, Vars>): Merged
  {
    var k := AllowedPrefix(envs);
    if k < |envs| then
      Merged(ApplyAll(m, envs[..k]), pm, Some(CannotSet(envs[k].name)))
    else
      var env := ApplyAll(m, envs);
      var j := CleanPools(pools);
      var done := ApplyPools(pm, pools[..j]);
      if j < |pools| then
        var p := pools[j];
        var k' := AllowedPrefix(p.envs);
        Merged(env, done[p.name := ApplyAll(PoolVars(done, p.name), p.envs[..k'])],
               Some(CannotSet(p.envs[k'].name)))
      else
        Merged(env, done, None)
  }

  // ---------------------------------------------------------------------------
  // Per-entry rule: the last entry for a name decides it.
  // ---------------------------------------------------------------------------

  /** A name no entry mentions keeps the binding it had. */
  lemma {:induction false} ApplyAllUntouched(m: Vars, es: seq<Env>, n: string)
    requires forall i :: 0 <= i < |es| ==> es[i].name != n
    ensures n in ApplyAll(m, es) <==> n in m
    ensures n in m ==> ApplyAll(m, es)[n] == m[n]
    decreases |es|
  {
    if es != [] {
      ApplyAllUntouched(m, es[..|es| - 1], n);
    }
  }

  /** The last entry naming `n` decides `n`: an empty value leaves it unset,
      any other value is its binding, whatever came before. */
  lemma {:induction false} ApplyAllLastWins(m: Vars, es: seq<Env>, i: nat)
    requires i < |es|
    requires forall j :: i < j < |es| ==> es[j].name != es[i].name
    ensures es[i].value == "" ==> es[i].name !in ApplyAll(m, es)
    ensures es[i].value != "" ==> es[i].name in ApplyAll(m, es) && ApplyAll(m, es)[es[i].name] == es[i].value
    decreases |es|
  {
    if i < |es| - 1 {
      ApplyAllLastWins(m, es[..|es| - 1], i);
    }
  }

  /** The names of a list are those of all but its last entry, plus the last one's. */
  lemma NamesOfSnoc(es: seq<Env>)
    requires es != []
    ensures NamesOf(es) == NamesOf(es[..|es| - 1]) + {es[|es| - 1].name}
  {
    var init := es[..|es| - 1];
    forall n | n in NamesOf(es) ensures n in NamesOf(init) + {es[|es| - 1].name} {
      var j :| 0 <= j < |es| && es[j].name == n;
      if j < |init| { assert init[j].name == n; }
    }
    forall n | n in NamesOf(init) ensures n in NamesOf(es) {
      var j :| 0 <= j < |init| && init[j].name == n;
      assert es[j].name == n;
    }
  }

  /** The set of pool names a list mentions. */
  function PoolNames(ps: seq<PoolEnvs>): set<string>
  {
    set q | 0 <= q < |ps| :: ps[q].name
  }

  lemma PoolNamesSnoc(ps: seq<PoolEnvs>)
    requires ps != []
    ensures PoolNames(ps) == PoolNames(ps[..|ps| - 1]) + {ps[|ps| - 1].name}
  {
    var init := ps[..|ps| - 1];
    forall n | n in PoolNames(ps) ensures n in PoolNames(init) + {ps[|ps| - 1].name} {
      var q :| 0 <= q < |ps| && ps[q].name == n;
      if q < |init| { assert init[q].name == n; }
    }
    forall n | n in PoolNames(init) ensures n in PoolNames(ps) {
      var q :| 0 <= q < |init| && init[q].name == n;
      assert ps[q].name == n;
    }
  }

  /** Applying overrides only ever binds names the overrides mention. */
  lemma {:induction false} ApplyAllKeys(m: Vars, es: seq<Env>)
    ensures ApplyAll(m, es).Keys <= m.Keys + NamesOf(es)
    decreases |es|
  {
    if es != [] {
      ApplyAllKeys(m, es[..|es| - 1]);
      NamesOfSnoc(es);
    }
  }

  /** Applying pools creates a map for exactly the pools applied. */
  lemma {:induction false} ApplyPoolsKeys(pm: map<string, Vars>, ps: seq<PoolEnvs>)
    ensures ApplyPools(pm, ps).Keys == pm.Keys + PoolNames(ps)
    decreases |ps|
  {
    if ps != [] {
      ApplyPoolsKeys(pm, ps[..|ps| - 1]);
      PoolNamesSnoc(ps);
    }
  }

  // ---------------------------------------------------------------------------
  // Forbidden names and fail-fast.
  // ---------------------------------------------------------------------------

  /** A forbidden global entry stops the merge: the error names it, the
      global entries before it are applied and the pool maps are untouched. */
  lemma MergeFailsOnGlobal(envs: seq<Env>, pools: seq<PoolEnvs>, m: Vars, pm: map<string, Vars>, k: nat)
    requires k < |envs| && envs[k].name in ForbiddenNames
    requires forall i :: 0 <= i < k ==> envs[i].name !in ForbiddenNames
    ensures Merge(envs, pools, m, pm) == Merged(ApplyAll(m, envs[..k]), pm, Some(CannotSet(envs[k].name)))
  {
    assert AllowedPrefix(envs) == k;
  }

  /** A forbidden entry in pool `j` stops the merge after all global entries,
      the pools before `j`, and the entries of pool `j` before it. */
  lemma MergeFailsOnPool(envs: seq<Env>, pools: seq<PoolEnvs>, m: Vars, pm: map<string, Vars>, j: nat, k: nat)
    requires forall i :: 0 <= i < |envs| ==> envs[i].name !in ForbiddenNames
    requires j < |pools|
    requires forall q, i :: 0 <= q < j && 0 <= i < |pools[q].envs| ==> pools[q].envs[i].name !in ForbiddenNames
    requires k < |pools[j].envs| && pools[j].envs[k].name in ForbiddenNames
    requires forall i :: 0 <= i < k ==> pools[j].envs[i].name !in ForbiddenNames
    ensures var done := ApplyPools(pm, pools[..j]);
            Merge(envs, pools, m, pm) ==
              Merged(ApplyAll(m, envs),
                     done[pools[j].name := ApplyAll(PoolVars(done, pools[j].name), pools[j].envs[..k])],
                     Some(CannotSet(pools[j].envs[k].name)))
  {
    assert AllowedPrefix(envs) == |envs|;
    assert AllowedPrefix(pools[j].envs) == k;
    forall q | 0 <= q < j ensures AllowedPrefix(pools[q].envs) == |pools[q].envs| {
    }
    assert CleanPools(pools) == j;
  }

  /** The merge succeeds exactly when no entry, global or pool, uses a
      forbidden name; it then applies everything. */
  lemma MergeSucceedsIff(envs: seq<Env>, pools: seq<PoolEnvs>, m: Vars, pm: map<string, Vars>)
    ensures Merge(envs, pools, m, pm).err == None <==>
              (forall i :: 0 <= i < |envs| ==> envs[i].name !in ForbiddenNames) &&
              (forall q, i :: 0 <= q < |pools| && 0 <= i < |pools[q].envs| ==> pools[q].envs[i].name !in ForbiddenNames)
    ensures Merge(envs, pools, m, pm).err == None ==>
              Merge(envs, pools, m, pm) == Merged(ApplyAll(m, envs), ApplyPools(pm, pools), None)
  {
    var clean := (forall i :: 0 <= i < |envs| ==> envs[i].name !in ForbiddenNames) &&
                 (forall q, i :: 0 <= q < |pools| && 0 <= i < |pools[q].envs| ==> pools[q].envs[i].name !in ForbiddenNames);
    if clean {
      MergeClean(envs, pools, m, pm);
    }
  }

  /** A merge whose every entry is allowed applies everything. */
  lemma MergeClean(envs: seq<Env>, pools: seq<PoolEnvs>, m: Vars, pm: map<string, Vars>)
    requires forall i :: 0 <= i < |envs| ==> envs[i].name !in ForbiddenNames
    requires forall q, i :: 0 <= q < |pools| && 0 <= i < |pools[q].envs| ==> pools[q].envs[i].name !in ForbiddenNames
    ensures Merge(envs, pools, m, pm) == Merged(ApplyAll(m, envs), ApplyPools(pm, pools), None)
  {
    assert AllowedPrefix(envs) == |envs|;
    assert CleanPools(pools) == |pools|;
    assert pools[..|pools|] == pools;
  }

  /** Whenever the merge fails, the error names a forbidden name. */
  lemma MergeErrorIsForbidden(envs: seq<Env>, pools: seq<PoolEnvs>, m: Vars, pm: map<string, Vars>)
    ensures var r := Merge(envs, pools, m, pm);
            r.err.Some? ==> r.err.value.CannotSet? && r.err.value.name in ForbiddenNames
  {
  }

  /** With clean global entries, the pool maps after a merge: the clean
      pools applied, then the first bad pool's map created and its entries
      before the bad one applied. */
  lemma MergePools(envs: seq<Env>, pools: seq<PoolEnvs>, m: Vars, pm: map<string, Vars>)
    requires forall i :: 0 <= i < |envs| ==> envs[i].name !in ForbiddenNames
    ensures var j := CleanPools(pools);
            var done := ApplyPools(pm, pools[..j]);
            Merge(envs, pools, m, pm).pools ==
              if j < |pools|
              then done[pools[j].name := ApplyAll(PoolVars(done, pools[j].name), pools[j].envs[..AllowedPrefix(pools[j].envs)])]
              else done
  {
    assert AllowedPrefix(envs) == |envs|;
  }

  /** Every pool the merge reaches has a map afterwards, and no other pool
      gets one: with clean global entries, the pools with a map are those
      that had one plus every pool up to and including the first bad one. */
  lemma MergePoolKeys(envs: seq<Env>, pools: seq<PoolEnvs>, m: Vars, pm: map<string, Vars>)
    requires forall i :: 0 <= i < |envs| ==> envs[i].name !in ForbiddenNames
    ensures var r := Merge(envs, pools, m, pm);
            forall p :: p in r.pools <==> p in pm || p in PoolNames(pools[..Reached(pools)])
  {
    var j := CleanPools(pools);
    var done := ApplyPools(pm, pools[..j]);
    MergePoolsKeys(envs, pools, m, pm);
    ApplyPoolsKeys(pm, pools[..j]);
    if j < |pools| {
      var reached := pools[..j + 1];
      PoolNamesSnoc(reached);
      assert reached[..j] == pools[..j] && reached[j] == pools[j];
    } else {
      assert pools[..j] == pools;
    }
  }

  /** The pool maps after a merge with clean global entries: the first bad
      pool, if any, adds its own map to those of the clean pools. */
  lemma MergePoolsKeys(envs: seq<Env>, pools: seq<PoolEnvs>, m: Vars, pm: map<string, Vars>)
    requires forall i :: 0 <= i < |envs| ==> envs[i].name !in ForbiddenNames
    ensures var j := CleanPools(pools);
            var done := ApplyPools(pm, pools[..j]);
            Merge(envs, pools, m, pm).pools.Keys == if j < |pools| then done.Keys + {pools[j].name} else done.Keys
  {
    MergePools(envs, pools, m, pm);
  }

  /** Number of pools a merge with clean global entries reaches. */
  function Reached(pools: seq<PoolEnvs>): (n: nat)
    ensures n <= |pools|
  {
    if CleanPools(pools) < |pools| then CleanPools(pools) + 1 else |pools|
  }

  /** Merging into maps free of reserved names never binds a reserved name,
      neither globally nor in any pool. */
  lemma MergeNeverBindsReserved(envs: seq<Env>, pools: seq<PoolEnvs>, m: Vars, pm: map<string, Vars>)
    requires m.Keys !! ForbiddenNames
    requires forall p :: p in pm ==> pm[p].Keys !! ForbiddenNames
    ensures var r := Merge(envs, pools, m, pm);
            r.env.Keys !! ForbiddenNames && forall p :: p in r.pools ==> r.pools[p].Keys !! ForbiddenNames
  {
    var k := AllowedPrefix(envs);
    AllowedNames(envs[..k]);
    ApplyAllKeys(m, envs[..k]);
    if k == |envs| {
      assert envs[..k] == envs;
      var j := CleanPools(pools);
      ApplyPoolsReservedFree(pm, pools[..j]);
      var done := ApplyPools(pm, pools[..j]);
      if j < |pools| {
        var p := pools[j];
        var k' := AllowedPrefix(p.envs);
        AllowedNames(p.envs[..k']);
        ApplyAllKeys(PoolVars(done, p.name), p.envs[..k']);
      }
    }
  }

  /** The forbidden names are exactly the reserved variables. */
  lemma ReservedOrderIsForbidden()
    ensures |ReservedOrder| == 4
    ensures forall n :: n in ForbiddenNames <==> n in ReservedOrder
  {
  }

  /** Applying entries whose names hold no '=' to a map whose names hold
      none keeps it so. */
  lemma ApplyAllNoEq(m: Vars, es: seq<Env>)
    requires forall n :: n in m ==> '=' !in n
    requires forall i :: 0 <= i < |es| ==> '=' !in es[i].name
    ensures forall n :: n in ApplyAll(m, es) ==> '=' !in n
  {
    ApplyAllKeys(m, es);
  }

  /** Applying pools whose entry names hold no '=' to pool maps whose names
      hold none keeps every pool map so. */
  lemma {:induction false} ApplyPoolsNoEq(pm: map<string, Vars>, ps: seq<PoolEnvs>)
    requires forall p, n :: p in pm && n in pm[p] ==> '=' !in n
    requires forall q, i :: 0 <= q < |ps| && 0 <= i < |ps[q].envs| ==> '=' !in ps[q].envs[i].name
    ensures forall p, n :: p in ApplyPools(pm, ps) && n in ApplyPools(pm, ps)[p] ==> '=' !in n
    decreases |ps|
  {
    if ps != [] {
      var init := ps[..|ps| - 1];
      var last := ps[|ps| - 1];
      ApplyPoolsNoEq(pm, init);
      ApplyAllNoEq(PoolVars(ApplyPools(pm, init), last.name), last.envs);
    }
  }

  /** The names of an allowed prefix are not forbidden. */
  lemma AllowedNames(es: seq<Env>)
    requires forall i :: 0 <= i < |es| ==> es[i].name !in ForbiddenNames
    ensures NamesOf(es) !! ForbiddenNames
  {
  }

  lemma {:induction false} ApplyPoolsReservedFree(pm: map<string, Vars>, ps: seq<PoolEnvs>)
    requires forall p :: p in pm ==> pm[p].Keys !! ForbiddenNames
    requires forall q, i :: 0 <= q < |ps| && 0 <= i < |ps[q].envs| ==> ps[q].envs[i].name !in ForbiddenNames
    ensures forall p :: p in ApplyPools(pm, ps) ==> ApplyPools(pm, ps)[p].Keys !! ForbiddenNames
    decreases |ps|
  {
    if ps != [] {
      var init := ps[..|ps| - 1];
      var last := ps[|ps| - 1];
      ApplyPoolsReservedFree(pm, init);
      var before := ApplyPools(pm, init);
      AllowedNames(last.envs);
      ApplyAllKeys(PoolVars(before, last.name), last.envs);
    }
  }

  // ---------------------------------------------------------------------------
  // Round trip through the stored lists.
  // ---------------------------------------------------------------------------

  /** `es` lists the bindings of `m`: each entry is a binding of `m` and each
      name of `m` has an entry. */
  predicate Lists(es: seq<Env>, m: Vars)
  {
    (forall i :: 0 <= i < |es| ==> es[i].name in m && m[es[i].name] == es[i].value) &&
    m.Keys <= NamesOf(es)
  }

  /** No two entries of `es` share a name, as when they come from a map. */
  predicate Distinct(es: seq<Env>)
  {
    forall i, j :: 0 <= i < j < |es| ==> es[i].name != es[j].name
  }

  /** No two pools of `ps` share a name. */
  predicate DistinctPools(ps: seq<PoolEnvs>)
  {
    forall i, j :: 0 <= i < j < |ps| ==> ps[i].name != ps[j].name
  }

  /** `ps` lists the pool maps of `pm` the same way. */
  predicate ListsPools(ps: seq<PoolEnvs>, pm: map<string, Vars>)
  {
    (forall q :: 0 <= q < |ps| ==> ps[q].name in pm && Lists(ps[q].envs, pm[ps[q].name])) &&
    pm.Keys <= PoolNames(ps)
  }

  /** No name is reserved and no value is empty (an empty value would read
      back as a deletion). */
  predicate Storable(m: Vars)
  {
    m.Keys !! ForbiddenNames && forall n :: n in m ==> m[n] != ""
  }

  /** Applying entries that all agree with `t` binds each name they
      mention as `t` does and leaves every other name alone. */
  lemma {:induction false} ApplyAgreeing(m: Vars, es: seq<Env>, t: Vars)
    requires forall i :: 0 <= i < |es| ==> es[i].name in t && t[es[i].name] == es[i].value && es[i].value != ""
    ensures forall n :: n in NamesOf(es) ==> n in ApplyAll(m, es) && ApplyAll(m, es)[n] == t[n]
    ensures forall n :: n !in NamesOf(es) ==> (n in ApplyAll(m, es) <==> n in m)
    ensures forall n :: n !in NamesOf(es) && n in m ==> ApplyAll(m, es)[n] == m[n]
    decreases |es|
  {
    if es != [] {
      ApplyAgreeing(m, es[..|es| - 1], t);
      NamesOfSnoc(es);
    }
  }

  /** A listing of `t` applied to an empty map gives back `t`. */
  lemma ApplyListing(es: seq<Env>, t: Vars)
    requires Lists(es, t) && Storable(t)
    ensures ApplyAll(map[], es) == t
  {
    ApplyListingOver(map[], es, t);
  }

  /** A listing of `t` applied to a map that agrees with `t` gives `t`. */
  lemma ApplyListingOver(m: Vars, es: seq<Env>, t: Vars)
    requires Lists(es, t) && Storable(t)
    requires forall n :: n in m ==> n in t && m[n] == t[n]
    ensures ApplyAll(m, es) == t
  {
    ApplyAgreeing(m, es, t);
    assert ApplyAll(m, es).Keys == t.Keys;
  }

  /** Pools listed from `tp` and applied to an empty pool map bind each
      listed pool as `tp` does and no other pool. */
  lemma {:induction false} ApplyPoolsListing(ps: seq<PoolEnvs>, tp: map<string, Vars>)
    requires forall q :: 0 <= q < |ps| ==> ps[q].name in tp && Lists(ps[q].envs, tp[ps[q].name]) && Storable(tp[ps[q].name])
    ensures ApplyPools(map[], ps).Keys == PoolNames(ps)
    ensures forall p :: p in PoolNames(ps) ==> ApplyPools(map[], ps)[p] == tp[p]
    decreases |ps|
  {
    if ps != [] {
      var init := ps[..|ps| - 1];
      var last := ps[|ps| - 1];
      ApplyPoolsListing(init, tp);
      PoolNamesSnoc(ps);
      var before := ApplyPools(map[], init);
      var t := tp[last.name];
      var current := PoolVars(before, last.name);
      assert current == map[] || current == t;
      ApplyListingOver(current, last.envs, t);
    }
  }

  /** Round trip: lists that describe maps free of reserved names and empty
      values, merged into empty maps, reproduce those maps exactly, including
      pools whose map is empty. */
  lemma RoundTrip(envs: seq<Env>, pools: seq<PoolEnvs>, m: Vars, pm: map<string, Vars>)
    requires Storable(m) && forall p :: p in pm ==> Storable(pm[p])
    requires Lists(envs, m) && ListsPools(pools, pm)
    ensures Merge(envs, pools, map[], map[]) == Merged(m, pm, None)
  {
    ListedNamesAllowed(envs, pools, m, pm);
    MergeSucceedsIff(envs, pools, map[], map[]);
    ApplyListing(envs, m);
    PoolsRoundTrip(pools, pm);
  }

  /** Entries listed from maps without reserved names pass the check. */
  lemma ListedNamesAllowed(envs: seq<Env>, pools: seq<PoolEnvs>, m: Vars, pm: map<string, Vars>)
    requires Storable(m) && forall p :: p in pm ==> Storable(pm[p])
    requires Lists(envs, m) && ListsPools(pools, pm)
    ensures forall i :: 0 <= i < |envs| ==> envs[i].name !in ForbiddenNames
    ensures forall q, i :: 0 <= q < |pools| && 0 <= i < |pools[q].envs| ==> pools[q].envs[i].name !in ForbiddenNames
  {
    forall i | 0 <= i < |envs| ensures envs[i].name !in ForbiddenNames {
      assert envs[i].name in m;
    }
    forall q, i | 0 <= q < |pools| && 0 <= i < |pools[q].envs|
      ensures pools[q].envs[i].name !in ForbiddenNames
    {
      assert pools[q].envs[i].name in pm[pools[q].name];
    }
  }

  /** The pool lists of storable pool maps, applied to no pools, give the
      pool maps back. */
  lemma PoolsRoundTrip(pools: seq<PoolEnvs>, pm: map<string, Vars>)
    requires forall p :: p in pm ==> Storable(pm[p])
    requires ListsPools(pools, pm)
    ensures ApplyPools(map[], pools) == pm
  {
    ApplyPoolsListing(pools, pm);
    var done := ApplyPools(map[], pools);
    assert done.Keys == pm.Keys;
  }
}
