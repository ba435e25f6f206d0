/** The resolver: from a request to a pool over the managed backends. */
module Resolver {
  import opened Swrr
  import opened Config
  import opened Backends
  import Registry
  import Manager
  import World

  datatype Routing = Routed(pool: BackendPool) | Refused(error: Registry.ResolutionError)

  type WeightIndex = map<string, seq<BackendRef>>

  function WeightsOf(catalog: Catalog): WeightIndex {
    map n | n in catalog :: catalog[n].backends
  }

  /** The first positive weight of the backend in the list, or the default weight. */
  function WeightIn(refs: seq<BackendRef>, backend: string): int {
    if refs == [] then DEFAULT_MODEL_WEIGHT
    else if refs[0].backend == backend && refs[0].weight > 0 then refs[0].weight
    else WeightIn(refs[1..], backend)
  }

  function WeightFor(index: WeightIndex, model: string, backend: string): int {
    if model in index then WeightIn(index[model], backend) else DEFAULT_MODEL_WEIGHT
  }

  lemma {:induction false} WeightInPositive(refs: seq<BackendRef>, backend: string)
    ensures WeightIn(refs, backend) > 0
  {
    if refs == [] {
    } else {
      WeightInPositive(refs[1..], backend);
    }
  }

  /** The first positive weight that the list has for the backend. */
  lemma {:induction false} WeightInFirst(refs: seq<BackendRef>, i: nat)
    requires i < |refs| && refs[i].weight > 0
    requires forall j :: 0 <= j < i ==> refs[j].backend != refs[i].backend || refs[j].weight <= 0
    ensures WeightIn(refs, refs[i].backend) == refs[i].weight
  {
    if i > 0 { WeightInFirst(refs[1..], i - 1); }
  }

  lemma {:induction false} WeightInAbsent(refs: seq<BackendRef>, backend: string)
    requires forall i :: 0 <= i < |refs| ==> refs[i].backend != backend
    ensures WeightIn(refs, backend) == DEFAULT_MODEL_WEIGHT
  {
    if refs == [] {
    } else {
      WeightInAbsent(refs[1..], backend);
    }
  }

  /** Of distinct references, each backend has the clamped weight of its own reference. */
  lemma {:induction false} WeightInDistinct(refs: seq<BackendRef>, i: nat)
    requires DistinctRefs(refs) && i < |refs|
    ensures WeightIn(refs, refs[i].backend) == Clamp(refs[i].weight)
  {
    if i > 0 {
      WeightInDistinct(refs[1..], i - 1);
    } else if refs[0].weight <= 0 {
      WeightInAbsent(refs[1..], refs[0].backend);
    }
  }

  class Resolver {
    const manager: Manager.Manager
    var registry: Registry.ModelRegistry
    var modelWeights: WeightIndex

    constructor (catalog: Catalog, manager: Manager.Manager)
      ensures this.manager == manager && Serves(catalog)
    {
      this.manager := manager;
      new;
      RefreshCatalog(catalog);
    }

    /** The resolver routes against this catalog. */
    ghost predicate Serves(catalog: Catalog)
      reads this
    {
      registry == Registry.RegistryOf(catalog) && modelWeights == WeightsOf(catalog)
    }

    method RefreshCatalog(catalog: Catalog)
      modifies this
      ensures Serves(catalog)
    {
      var reg := Registry.BuildRegistryFromCatalog(catalog);
      var weights: WeightIndex := map[];
      var rest := catalog.Keys;
      while rest != {}
        invariant rest <= catalog.Keys
        invariant weights == map n | n in catalog && n !in rest :: catalog[n].backends
        decreases |rest|
      {
        var name :| name in rest;
        rest := rest - {name};
        weights := weights[name := catalog[name].backends];
      }
      registry, modelWeights := reg, weights;
    }

    /** The loop that finds the weight of one backend of a model. */
    method FindWeight(model: string, backend: string) returns (w: int)
      ensures w == WeightFor(modelWeights, model, backend)
    {
      w := DEFAULT_MODEL_WEIGHT;
      if model in modelWeights {
        var weightRefs := modelWeights[model];
        for i := 0 to |weightRefs|
          invariant w == DEFAULT_MODEL_WEIGHT && WeightIn(weightRefs, backend) == WeightIn(weightRefs[i..], backend)
        {
          assert weightRefs[i..][1..] == weightRefs[i+1..];
          if weightRefs[i].backend == backend && weightRefs[i].weight > 0 {
            return weightRefs[i].weight;
          }
        }
      }
    }

    /**
     Resolves a request to a pool of the managed backends of the model.  The internal error arises
     exactly if the model resolves and one of its backends is not managed.
     */
    method Resolve(requested: string, o: Registry.UserOverrides) returns (r: Routing)
      ensures var m := Registry.Resolve(requested, registry, o);
        match m
        case Refused(e) => r == Refused(e)
        case Resolved(model, backends) =>
          && (r.Routed? <==> forall i :: 0 <= i < |backends| ==> backends[i] in manager.byName)
          && (r.Refused? ==> r.error == Registry.NoPool)
          && (r.Routed? ==> fresh(r.pool) && World.AllPositive(r.pool.entries))
          && (r.Routed? ==> |r.pool.entries| == |backends| && forall i :: 0 <= i < |backends| ==>
                r.pool.entries[i] == Entry(manager.byName[backends[i]], WeightFor(modelWeights, model, backends[i])))
      ensures var key := Registry.Target(requested, o);
        && (r.Refused? && r.error.StatusCode() == 404 <==> key !in registry)
        && (r.Refused? && r.error.StatusCode() == 403 <==>
              (key in registry && (Registry.Lists(o.deny, key) || (o.allow != [] && !Registry.Lists(o.allow, key)))))
        && (r.Refused? && r.error.StatusCode() == 500 <==>
              (key in registry && !Registry.Lists(o.deny, key) && (o.allow == [] || Registry.Lists(o.allow, key))
               && exists i :: 0 <= i < |registry[key].backends| && registry[key].backends[i] !in manager.byName))
        && (r.Refused? && r.error != Registry.NoPool ==> Registry.RefusedFor(r.error, key, requested, registry, o))
    {
      hide Registry.Resolve, WeightIn, Registry.Lists, Registry.Target;
      Registry.RefusalsAre(requested, registry, o);
      var m := Registry.ResolveModel(requested, registry, o);
      if m.Refused? {
        return Refused(m.error);
      }
      var refs: seq<BackendRef> := [];
      for i := 0 to |m.backends|
        invariant |refs| == i
        invariant forall j :: 0 <= j < i ==>
          refs[j] == BackendRef(m.backends[j], WeightFor(modelWeights, m.name, m.backends[j])) && refs[j].weight > 0
      {
        var w := FindWeight(m.name, m.backends[i]);
        if m.name in modelWeights { WeightInPositive(modelWeights[m.name], m.backends[i]); }
        refs := refs + [BackendRef(m.backends[i], w)];
      }
      assert forall j :: 0 <= j < |refs| ==> refs[j].backend == m.backends[j];
      var pool := manager.PoolForModel(refs);
      if pool.Err? {
        return Refused(Registry.NoPool);
      }
      return Routed(pool.value);
    }
  }

  /** Every reference of the catalog is to a managed backend. */
  ghost predicate Known(catalog: Catalog, names: set<string>) {
    forall n :: n in catalog ==> forall i :: 0 <= i < |catalog[n].backends| ==> catalog[n].backends[i].backend in names
  }

  /** What routing does with a catalog: the weights of a resolved model are those of its entry. */
  lemma RoutesCatalogEntry(catalog: Catalog, requested: string, o: Registry.UserOverrides, names: set<string>)
    requires var m := Registry.Resolve(requested, Registry.RegistryOf(catalog), o); m.Resolved?
    ensures var m := Registry.Resolve(requested, Registry.RegistryOf(catalog), o);
      && m.name in catalog && |m.backends| == |catalog[m.name].backends|
      && (Known(catalog, names) ==> forall i :: 0 <= i < |m.backends| ==> m.backends[i] in names)
      && (DistinctRefs(catalog[m.name].backends) ==> forall i :: 0 <= i < |m.backends| ==>
            var ref := catalog[m.name].backends[i];
            m.backends[i] == ref.backend && WeightFor(WeightsOf(catalog), m.name, m.backends[i]) == Clamp(ref.weight))
  {
    hide Registry.Accessible, Registry.Target, WeightIn, DistinctRefs, Registry.Lists;
    var m := Registry.Resolve(requested, Registry.RegistryOf(catalog), o);
    var refs := catalog[m.name].backends;
    if DistinctRefs(refs) {
      forall i | 0 <= i < |refs| ensures WeightIn(refs, refs[i].backend) == Clamp(refs[i].weight) {
        WeightInDistinct(refs, i);
      }
    }
  }
}
