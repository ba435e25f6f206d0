/** The backend manager: a list of backends and an index by name, kept in step. */
module Manager {
  import opened Wrappers
  import opened Swrr
  import opened Backends
  import Config
  import World

  /** The list without the backends of one name. */
  ghost function Without(bs: seq<Backend>, name: string): seq<Backend> {
    if bs == [] then []
    else Without(bs[..|bs|-1], name) + if bs[|bs|-1].name == name then [] else [bs[|bs|-1]]
  }

  lemma {:induction false} WithoutKeeps(bs: seq<Backend>, name: string)
    ensures |Without(bs, name)| <= |bs|
    ensures forall i :: 0 <= i < |Without(bs, name)| ==> Without(bs, name)[i] in bs && Without(bs, name)[i].name != name
    ensures forall i :: 0 <= i < |bs| && bs[i].name != name ==> bs[i] in Without(bs, name)
  {
    if bs == [] {
    } else {
      var front, last := bs[..|bs|-1], bs[|bs|-1];
      WithoutKeeps(front, name);
      assert bs == front + [last];
      forall i | 0 <= i < |bs| && bs[i].name != name ensures bs[i] in Without(bs, name) {
        assert i < |front| ==> bs[i] == front[i];
      }
    }
  }

  ghost predicate Unrepeated(bs: seq<Backend>) {
    forall i, j :: 0 <= i < j < |bs| ==> bs[i] != bs[j]
  }

  lemma {:induction false} WithoutUnrepeated(bs: seq<Backend>, name: string)
    requires Unrepeated(bs)
    ensures Unrepeated(Without(bs, name))
  {
    if bs == [] {
    } else {
      var front, last := bs[..|bs|-1], bs[|bs|-1];
      WithoutUnrepeated(front, name);
      WithoutKeeps(front, name);
      assert forall i :: 0 <= i < |front| ==> front[i] != last;
    }
  }

  /** The loop of RemoveBackend. */
  method Filter(bs: seq<Backend>, name: string) returns (filtered: seq<Backend>)
    ensures filtered == Without(bs, name)
  {
    filtered := [];
    for i := 0 to |bs|
      invariant filtered == Without(bs[..i], name)
    {
      assert bs[..i+1][..i] == bs[..i];
      if bs[i].name == name {
        continue;
      }
      filtered := filtered + [bs[i]];
    }
    assert bs[..|bs|] == bs;
  }

  /** The configuration with the defaults that an upsert fills in. */
  function WithDefaults(cfg: Config.Backend): (r: Config.Backend)
    ensures r.name == cfg.name && r.url == cfg.url
    ensures r.weight > 0 && r.timeout > 0 && r.healthCheckPath != ""
  {
    cfg.(
      weight := if cfg.weight <= 0 then Config.DEFAULT_MODEL_WEIGHT else cfg.weight,
      healthCheckPath := if cfg.healthCheckPath == "" then Config.DEFAULT_HEALTH_CHECK_PATH else cfg.healthCheckPath,
      timeout := if cfg.timeout <= 0 then Config.DEFAULT_TIMEOUT else cfg.timeout)
  }

  /** The backend runs with what cfg asks for, with defaults for what is not usable, and is switched on. */
  ghost predicate RunsAs(b: Backend, cfg: Config.Backend)
    reads b
  {
    && b.enabled && b.name == cfg.name && b.url == cfg.url && b.tag == cfg.tag && b.headers == cfg.headers
    && (cfg.weight >= 1 ==> b.weight == cfg.weight) && (cfg.weight < 1 ==> b.weight == Config.DEFAULT_MODEL_WEIGHT)
    && (cfg.timeout >= 1 ==> b.timeout == cfg.timeout) && (cfg.timeout < 1 ==> b.timeout == Config.DEFAULT_TIMEOUT)
    && (cfg.healthCheckPath != "" ==> b.healthCheckPath == cfg.healthCheckPath)
    && (cfg.healthCheckPath == "" ==> b.healthCheckPath == Config.DEFAULT_HEALTH_CHECK_PATH)
  }

  lemma DefaultsRun(b: Backend, cfg: Config.Backend)
    requires b.name == cfg.name && b.Configured(WithDefaults(cfg)) && b.enabled
    ensures RunsAs(b, cfg)
  {
  }

  /** What an upsert does to the world of backends: a Create step, or UpdateWeight and SetEnabled. */
  ghost function UpsertSteps(w: World.World<Backend>, b: Backend, weight: int, known: bool): World.World<Backend> {
    if known then World.Step(World.Step(w, World.UpdateWeight(b, weight)), World.SetEnabled(b, true))
    else World.Step(w, World.Create(b, weight))
  }

  /** Every listed name is indexed, and the index leads to a listed backend of that name. */
  ghost predicate Indexed(bs: seq<Backend>, index: map<string, Backend>) {
    && (forall n :: n in index ==> index[n].name == n && index[n] in bs)
    && (forall b :: b in bs ==> b.name in index)
    && Unrepeated(bs)
  }

  /** List and index hold the same backends. */
  ghost predicate Agree(bs: seq<Backend>, index: map<string, Backend>) {
    Indexed(bs, index) && forall b :: b in bs ==> index[b.name] == b
  }

  ghost predicate Last(cfgs: seq<Config.Backend>, i: nat, n: nat)
    requires i < n <= |cfgs|
  {
    forall j :: i < j < n ==> cfgs[j].name != cfgs[i].name
  }

  /**
   The list has one backend for each of the first n configurations, in order; the index knows the
   last of each name.
   */
  ghost predicate Lists(bs: seq<Backend>, index: map<string, Backend>, cfgs: seq<Config.Backend>, n: nat)
    requires n <= |cfgs|
  {
    && |bs| == n
    && (forall i :: 0 <= i < n ==> bs[i].name == cfgs[i].name && cfgs[i].name in index)
    && (forall i :: 0 <= i < n && Last(cfgs, i, n) ==> index[cfgs[i].name] == bs[i])
  }

  /** A manager built from configurations is coherent exactly when their names are distinct. */
  lemma CoherentIffDistinctNames(bs: seq<Backend>, index: map<string, Backend>, cfgs: seq<Config.Backend>)
    requires Indexed(bs, index) && Lists(bs, index, cfgs, |cfgs|)
    ensures Agree(bs, index) <==> Config.DistinctNames(cfgs)
  {
    if Agree(bs, index) {
      forall i, j | 0 <= i < j < |cfgs| ensures cfgs[i].name != cfgs[j].name {
        assert bs[i] in bs && bs[j] in bs && bs[i] != bs[j];
      }
    }
    if Config.DistinctNames(cfgs) {
      forall b | b in bs ensures index[b.name] == b {
        var i :| 0 <= i < |bs| && bs[i] == b;
        assert Last(cfgs, i, |cfgs|);
      }
    }
  }

  lemma NothingListed(cfgs: seq<Config.Backend>)
    ensures Indexed([], map[]) && Lists([], map[], cfgs, 0)
  {
  }

  lemma IndexedOneMore(bs: seq<Backend>, index: map<string, Backend>, b: Backend)
    requires Indexed(bs, index) && b !in bs
    ensures Indexed(bs + [b], index[b.name := b])
  {
  }

  lemma ListsOneMore(bs: seq<Backend>, index: map<string, Backend>, b: Backend, cfgs: seq<Config.Backend>, n: nat)
    requires n < |cfgs| && Lists(bs, index, cfgs, n)
    requires b.name == cfgs[n].name
    ensures Lists(bs + [b], index[b.name := b], cfgs, n + 1)
  {
    forall i | 0 <= i <= n && Last(cfgs, i, n + 1) ensures index[b.name := b][cfgs[i].name] == (bs + [b])[i] {
      if i < n {
        assert cfgs[n].name != cfgs[i].name && Last(cfgs, i, n);
      }
    }
  }

  lemma AgreeReads(bs: seq<Backend>, index: map<string, Backend>)
    requires Agree(bs, index)
    ensures forall n :: n in index ==> index[n].name == n && index[n] in bs
    ensures forall i :: 0 <= i < |bs| ==> bs[i].name in index && index[bs[i].name] == bs[i]
  {
    assert forall i :: 0 <= i < |bs| ==> bs[i] in bs;
  }

  lemma RemovalAgrees(bs: seq<Backend>, index: map<string, Backend>, name: string)
    requires Agree(bs, index)
    ensures Agree(Without(bs, name), index - {name})
  {
    hide Without;
    WithoutKeeps(bs, name);
    WithoutUnrepeated(bs, name);
    forall n | n in index && n != name ensures index[n] in Without(bs, name) {
      assert index[n] in bs && index[n].name == n;
    }
  }

  /** The backend is configured as asked, healthy, enabled and at rest. */
  ghost predicate AtRest(b: Backend, cfg: Config.Backend)
    reads b
  {
    b.name == cfg.name && b.Configured(cfg) && b.currentWeight == 0 && b.IsHealthy() && b.FollowsHealth()
  }

  lemma {:induction false} WithoutOthers(bs: seq<Backend>, name: string)
    requires forall i :: 0 <= i < |bs| ==> bs[i].name != name
    ensures Without(bs, name) == bs
  {
    if bs == [] {
    } else {
      WithoutOthers(bs[..|bs|-1], name);
    }
  }

  lemma {:induction false} WithoutConcat(xs: seq<Backend>, ys: seq<Backend>, name: string)
    ensures Without(xs + ys, name) == Without(xs, name) + Without(ys, name)
  {
    if ys == [] {
      assert xs + ys == xs;
    } else {
      assert (xs + ys)[..|xs + ys|-1] == xs + ys[..|ys|-1];
      WithoutConcat(xs, ys[..|ys|-1], name);
    }
  }

  lemma WithoutOne(b: Backend, name: string)
    requires b.name == name
    ensures Without([b], name) == []
  {
    assert [b][..0] == [] && Without([], name) == [];
  }

  lemma {:induction false} WithoutSplit(xs: seq<Backend>, b: Backend, ys: seq<Backend>, name: string)
    requires b.name == name
    requires forall i :: 0 <= i < |xs| ==> xs[i].name != name
    requires forall i :: 0 <= i < |ys| ==> ys[i].name != name
    ensures Without(xs + ([b] + ys), name) == xs + ys
  {
    hide Without;
    WithoutConcat(xs, [b] + ys, name);
    WithoutConcat([b], ys, name);
    WithoutOne(b, name);
    WithoutOthers(xs, name);
    WithoutOthers(ys, name);
    assert [] + ys == ys;
  }

  /** Of agreeing backends, taking out a name takes out one of them and keeps the order of the others. */
  lemma RemovedOne(bs: seq<Backend>, index: map<string, Backend>, name: string) returns (i: nat)
    requires Agree(bs, index) && name in index
    ensures i < |bs| && bs[i] == index[name] && Without(bs, name) == bs[..i] + bs[i+1..]
  {
    hide Without;
    assert index[name] in bs;
    i :| 0 <= i < |bs| && bs[i] == index[name];
    forall j | 0 <= j < |bs| && j != i ensures bs[j].name != name {
      assert bs[j] in bs;
      assert index[bs[j].name] == bs[j] != bs[i];
    }
    hide Agree, Indexed;
    WithoutSplit(bs[..i], bs[i], bs[i+1..], name);
    assert bs == bs[..i] + ([bs[i]] + bs[i+1..]);
  }

  class Manager {
    var backends: seq<Backend>
    var byName: map<string, Backend>

    ghost predicate Coherent()
      reads this
    {
      Agree(backends, byName)
    }

    /** One new backend at rest for each configuration; the caller has checked that the URLs parse. */
    constructor (cfgs: seq<Config.Backend>)
      ensures Indexed(backends, byName) && Lists(backends, byName, cfgs, |cfgs|)
      ensures forall i :: 0 <= i < |cfgs| ==> fresh(backends[i]) && AtRest(backends[i], cfgs[i])
    {
      hide Indexed, Lists, Backend.Configured;
      NothingListed(cfgs);
      var bs: seq<Backend>, index: map<string, Backend> := [], map[];
      for i := 0 to |cfgs|
        invariant |bs| == i && Indexed(bs, index) && Lists(bs, index, cfgs, i)
        invariant forall j :: 0 <= j < i ==> fresh(bs[j]) && AtRest(bs[j], cfgs[j])
      {
        var b := new Backend(cfgs[i]);
        ListsOneMore(bs, index, b, cfgs, i);
        IndexedOneMore(bs, index, b);
        assert b.name == cfgs[i].name;
        bs, index := bs + [b], index[cfgs[i].name := b];
      }
      backends, byName := bs, index;
    }

    /**
     Builds the pool for a model's references; fails on the first reference to an unknown backend.
     The pool shares the managed backends.
     */
    method PoolForModel(refs: seq<Config.BackendRef>) returns (r: Result<BackendPool>)
      ensures r.Ok? <==> forall i :: 0 <= i < |refs| ==> refs[i].backend in byName
      ensures r.Ok? ==> fresh(r.value) && |r.value.entries| == |refs| && forall i :: 0 <= i < |refs| ==>
        var b := byName[refs[i].backend];
        r.value.entries[i] == Entry(b, if refs[i].weight > 0 then refs[i].weight else b.weight)
    {
      var entries: seq<Entry<Backend>> := [];
      for i := 0 to |refs|
        invariant |entries| == i
        invariant forall j :: 0 <= j < i ==> refs[j].backend in byName
        invariant forall j :: 0 <= j < i ==>
          var b := byName[refs[j].backend];
          entries[j] == Entry(b, if refs[j].weight > 0 then refs[j].weight else b.weight)
      {
        if refs[i].backend !in byName {
          return Err("model references unknown backend");
        }
        var b := byName[refs[i].backend];
        var w := refs[i].weight;
        if w <= 0 {
          w := b.weight;
        }
        entries := entries + [Entry(b, w)];
      }
      var pool := new BackendPool(entries);
      return Ok(pool);
    }

    /** The pool of all managed backends with their configured weights. */
    method DefaultPool() returns (pool: BackendPool)
      ensures fresh(pool) && |pool.entries| == |backends| && forall i :: 0 <= i < |backends| ==>
        pool.entries[i] == Entry(backends[i],
          if backends[i].weight > 0 then backends[i].weight else Config.DEFAULT_MODEL_WEIGHT)
      ensures World.AllPositive(pool.entries)
    {
      var entries: seq<Entry<Backend>> := [];
      for i := 0 to |backends|
        invariant |entries| == i
        invariant forall j :: 0 <= j < i ==> entries[j] == Entry(backends[j],
          if backends[j].weight > 0 then backends[j].weight else Config.DEFAULT_MODEL_WEIGHT)
      {
        var w := backends[i].weight;
        if w <= 0 {
          w := Config.DEFAULT_MODEL_WEIGHT;
        }
        entries := entries + [Entry(backends[i], w)];
      }
      pool := new BackendPool(entries);
    }

    /**
     Adds a new backend or updates the named one in place, keeping its identity, health and
     current weight.  Nothing changes when the URL does not parse.  Among all backends `all`, a new
     backend is one Create step, an update an UpdateWeight step and a SetEnabled step.
     */
    method UpsertBackend(given: Config.Backend, parses: Config.UrlParser, ghost all: set<Backend>) returns (r: Outcome)
      requires Coherent() && forall i :: 0 <= i < |backends| ==> backends[i] in all
      modifies this, backends
      ensures r.Pass? <==> Config.Parses(parses, given.url)
      ensures Coherent() && |backends| <= |old(backends)| + 1
      ensures r.Fail? ==> unchanged(this) && unchanged(old(backends))
      ensures r.Pass? ==> byName.Keys == old(byName.Keys) + {given.name}
      ensures r.Pass? ==>
        Snapshot(all + {byName[given.name]}) ==
          UpsertSteps(old(Snapshot(all)), byName[given.name], WithDefaults(given).weight, given.name in old(byName))
      ensures forall n :: n in old(byName) ==> n in byName && byName[n] == old(byName[n])
      ensures forall n :: n in old(byName) && n != given.name ==> unchanged(byName[n])
      ensures r.Pass? ==> byName[given.name].Configured(WithDefaults(given)) && RunsAs(byName[given.name], given)
      ensures forall b :: b in old(backends) ==>
        && b in backends && b.currentWeight == old(b.currentWeight) && b.healthy == old(b.healthy)
        && (old(b.FollowsHealth()) ==> b.FollowsHealth()) && (b.name != given.name ==> unchanged(b))
      ensures forall b :: b in backends && b !in old(backends) ==>
        fresh(b) && b.name == given.name && b.currentWeight == 0 && b.FollowsHealth()
    {
      hide Snapshot, UpsertSteps, WithDefaults, Agree, Backend.Configured, Backend.FollowsHealth, RunsAs;
      AgreeReads(backends, byName);
      var cfg := WithDefaults(given);
      if cfg.name in byName {
        var existing := byName[cfg.name];
        r := Reconfigure(existing, cfg, parses, all);
        if r.Pass? { DefaultsRun(existing, given); }
        assert all + {existing} == all;
        return;
      }
      if !Config.Parses(parses, cfg.url) {
        return Fail("invalid URL");
      }
      AddBackend(cfg, all);
      DefaultsRun(byName[cfg.name], given);
      return Pass;
    }

    /** The branch of UpsertBackend for a new backend. */
    method AddBackend(cfg: Config.Backend, ghost all: set<Backend>)
      requires Coherent() && cfg.name !in byName && forall i :: 0 <= i < |backends| ==> backends[i] in all
      modifies this
      ensures Coherent() && cfg.name in byName
      ensures var b := byName[cfg.name];
        && fresh(b) && b.name == cfg.name && b.Configured(cfg) && b.enabled && b.currentWeight == 0 && b.FollowsHealth()
        && backends == old(backends) + [b] && byName == old(byName)[cfg.name := b]
        && Snapshot(all + {b}) == UpsertSteps(old(Snapshot(all)), b, cfg.weight, false)
    {
      hide Snapshot, World.Step;
      var b := new Backend(cfg);
      CreationIsStep(all, b);
      backends := backends + [b];
      byName := byName[cfg.name := b];
    }

    /** The branch of UpsertBackend for a backend that is already managed. */
    static method Reconfigure(existing: Backend, cfg: Config.Backend, parses: Config.UrlParser, ghost all: set<Backend>)
      returns (r: Outcome)
      requires existing in all
      modifies existing
      ensures r.Pass? <==> Config.Parses(parses, cfg.url)
      ensures r.Pass? ==> Snapshot(all) == UpsertSteps(old(Snapshot(all)), existing, cfg.weight, true)
      ensures r.Pass? ==> existing.Configured(cfg) && existing.enabled
      ensures r.Fail? ==> unchanged(existing)
      ensures existing.currentWeight == old(existing.currentWeight) && existing.healthy == old(existing.healthy)
      ensures old(existing.FollowsHealth()) ==> existing.FollowsHealth()
    {
      hide Snapshot, World.Step;
      r := existing.UpdateConfig(cfg, parses, all);
      if r.Pass? {
        SetHeaders(existing, cfg.headers, all);
        existing.SetEnabled(true, all);
      }
    }

    /** Headers have no part in scheduling. */
    static method SetHeaders(existing: Backend, headers: map<string, string>, ghost all: set<Backend>)
      modifies existing`headers
      ensures existing.headers == headers && Snapshot(all) == old(Snapshot(all))
    {
      ghost var was := Snapshot(all);
      hide Snapshot;
      SnapshotReads(all);
      existing.headers := headers;
      CurrentWeightsMoved(all, was, was.cur);
    }

    /** Takes the named backend out of the list and the index; backends themselves do not change. */
    method RemoveBackend(name: string) returns (r: Outcome)
      requires Coherent()
      modifies this
      ensures r.Pass? <==> name in old(byName)
      ensures Coherent()
      ensures r.Fail? ==> unchanged(this)
      ensures r.Pass? ==> byName == old(byName) - {name} && backends == Without(old(backends), name)
      ensures r.Pass? ==> exists i :: 0 <= i < |old(backends)| && old(backends)[i] == old(byName)[name]
                            && backends == old(backends)[..i] + old(backends)[i+1..]
      ensures |backends| <= |old(backends)| && forall i :: 0 <= i < |backends| ==> backends[i] in old(backends)
    {
      hide Without, Agree;
      if name !in byName {
        return Fail("backend not found");
      }
      var filtered := Filter(backends, name);
      RemovalAgrees(backends, byName, name);
      ghost var i := RemovedOne(backends, byName, name);
      WithoutKeeps(backends, name);
      byName := byName - {name};
      backends := filtered;
      return Pass;
    }
  }

  /** Builds the manager of a configuration; fails when it has no backends or one of the URLs does not parse. */
  method NewManager(cfgs: seq<Config.Backend>, parses: Config.UrlParser) returns (r: Result<Manager>)
    ensures r.Ok? <==> cfgs != [] && forall i :: 0 <= i < |cfgs| ==> Config.Parses(parses, cfgs[i].url)
    ensures r.Ok? ==> fresh(r.value) && (r.value.Coherent() <==> Config.DistinctNames(cfgs))
    ensures r.Ok? ==> r.value.byName.Keys == Config.Names(cfgs) && |r.value.backends| == |cfgs|
    ensures r.Ok? ==> forall i :: 0 <= i < |cfgs| ==> fresh(r.value.backends[i]) && AtRest(r.value.backends[i], cfgs[i])
  {
    if |cfgs| == 0 {
      return Err("no backends configured");
    }
    for i := 0 to |cfgs|
      invariant forall j :: 0 <= j < i ==> Config.Parses(parses, cfgs[j].url)
    {
      if !Config.Parses(parses, cfgs[i].url) {
        return Err("invalid URL");
      }
    }
    var m := new Manager(cfgs);
    CoherentIffDistinctNames(m.backends, m.byName, cfgs);
    return Ok(m);
  }

  /** Distinct references to a coherent manager give a pool of distinct backends. */
  lemma DistinctRefsGiveDistinctPool(bs: seq<Backend>, index: map<string, Backend>, refs: seq<Config.BackendRef>,
                                     es: seq<Entry<Backend>>)
    requires Indexed(bs, index) && Config.DistinctRefs(refs) && |es| == |refs|
    requires forall i :: 0 <= i < |refs| ==> refs[i].backend in index && es[i].backend == index[refs[i].backend]
    ensures Distinct(es)
  {
    forall i, j | 0 <= i < j < |es| ensures es[i].backend != es[j].backend {
      assert es[i].backend.name == refs[i].backend != refs[j].backend == es[j].backend.name;
    }
  }
}
