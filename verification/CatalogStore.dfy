/**
 The catalog tables: rows of models, rows of model backends, and what a synchronisation, an upsert
 and a deactivation do to them.  A transaction either commits or leaves the tables as they were.
 */
module CatalogStore {
  import opened Wrappers
  import opened Text
  import opened Config
  import opened Normalize

  datatype ModelRow = ModelRow(displayName: string, active: bool)

  /**
   Both tables; refs has the backends and weights of each model that has rows in model_backends.
   The foreign key of model_backends keeps it from having rows of unknown models.
   */
  datatype Tables = Tables(models: map<string, ModelRow>, refs: map<string, map<string, int>>)

  datatype SyncStats = SyncStats(added: nat, updated: nat, deactivated: nat)

  function RefsOf(t: Tables, model: string): map<string, int> {
    if model in t.refs then t.refs[model] else map[]
  }

  // ---------------------------------------------------------------------
  // Loading
  // ---------------------------------------------------------------------

  function DisplayName(t: Tables, model: string): string
    requires model in t.models
  {
    if t.models[model].displayName == "" then model else t.models[model].displayName
  }

  /** References to the given backends with their weights. */
  function RefList(refs: map<string, int>, backends: seq<string>): seq<BackendRef>
    requires forall b :: b in backends ==> b in refs
  {
    seq(|backends|, i requires 0 <= i < |backends| => BackendRef(backends[i], Clamp(refs[backends[i]])))
  }

  /** The active models that have backends, each with its backends in ascending order. */
  ghost function Loaded(t: Tables): Catalog {
    map n | n in t.models && t.models[n].active && RefsOf(t, n) != map[] ::
      ModelEntry(DisplayName(t, n), RefList(RefsOf(t, n), SortedOf(RefsOf(t, n).Keys)))
  }

  /** The entry of a loaded model lists its backends, once each, with the clamped weights. */
  lemma RefListHas(refs: map<string, int>, backends: seq<string>)
    requires Enumerates(backends, refs.Keys)
    ensures DistinctRefs(RefList(refs, backends))
    ensures forall b :: Refers(RefList(refs, backends), b) <==> b in refs
    ensures forall b, w :: Has(RefList(refs, backends), b, w) <==> b in refs && Clamp(refs[b]) == w
  {
    var list := RefList(refs, backends);
    forall b | b in refs ensures Refers(list, b) && Has(list, b, Clamp(refs[b])) {
      assert b in backends;
      var i :| 0 <= i < |backends| && backends[i] == b;
      assert list[i].backend == b;
    }
    forall b, w | Has(list, b, w) ensures b in refs && Clamp(refs[b]) == w {
      var i :| 0 <= i < |list| && list[i].backend == b && Clamp(list[i].weight) == w;
      assert backends[i] in backends;
    }
    forall b | Refers(list, b) ensures b in refs {
      var i :| 0 <= i < |list| && list[i].backend == b;
      assert backends[i] in backends;
    }
  }

  // ---------------------------------------------------------------------
  // Synchronising
  // ---------------------------------------------------------------------

  /** The row of a synchronised model; a row that exists keeps its display name. */
  function SyncedRow(t: Tables, c: Catalog, n: string): ModelRow
    requires n in c
  {
    ModelRow(if n in t.models then t.models[n].displayName else if c[n].name == "" then n else c[n].name, true)
  }

  /** The tables when the models in `done` have been synchronised. */
  ghost function Upserted(t: Tables, c: Catalog, done: set<string>): Tables
    requires done <= c.Keys
  {
    Tables(map n | n in t.models.Keys + done :: if n in done then SyncedRow(t, c, n) else t.models[n],
           map n | n in t.refs.Keys + done :: if n in done then Weights(c[n].backends) else t.refs[n])
  }

  function Deactivated(row: ModelRow): ModelRow {
    row.(active := false)
  }

  /** The tables after a synchronisation with the normalized catalog c. */
  ghost function Synced(t: Tables, c: Catalog): Tables {
    var u := Upserted(t, c, c.Keys);
    u.(models := map n | n in u.models :: if n in c then u.models[n] else Deactivated(u.models[n]))
  }

  ghost predicate Changed(t: Tables, c: Catalog, n: string)
    requires n in c && n in t.models
  {
    !t.models[n].active || RefsOf(t, n) != Weights(c[n].backends)
  }

  ghost function AddedNames(t: Tables, done: set<string>): set<string> {
    done - t.models.Keys
  }

  ghost function UpdatedNames(t: Tables, c: Catalog, done: set<string>): set<string>
    requires done <= c.Keys
  {
    set n | n in done && n in t.models && Changed(t, c, n)
  }

  ghost function StaleNames(t: Tables, c: Catalog): set<string> {
    set n | n in t.models && t.models[n].active && n !in c
  }

  ghost function Stats(t: Tables, c: Catalog): SyncStats {
    SyncStats(|AddedNames(t, c.Keys)|, |UpdatedNames(t, c, c.Keys)|, |StaleNames(t, c)|)
  }

  /** The prices of models that are in the table. */
  function PricesOf(models: map<string, ModelRow>, pricing: Pricing): Pricing {
    map n | n in pricing && n in models :: pricing[n]
  }

  lemma LoadedReads(t: Tables)
    ensures forall n :: n in Loaded(t) <==> n in t.models && t.models[n].active && RefsOf(t, n) != map[]
    ensures forall n :: n in Loaded(t) ==>
      Loaded(t)[n] == ModelEntry(DisplayName(t, n), RefList(RefsOf(t, n), SortedOf(RefsOf(t, n).Keys)))
  {
  }

  lemma MapsEqual<T>(a: map<string, T>, b: map<string, T>)
    requires forall k :: k in a <==> k in b
    requires forall k :: k in a ==> a[k] == b[k]
    ensures a == b
  {
  }

  lemma UpsertedReads(t: Tables, c: Catalog, done: set<string>)
    requires done <= c.Keys
    ensures var u := Upserted(t, c, done);
      && (forall k :: k in u.models <==> k in t.models || k in done)
      && (forall k :: k in u.models ==> u.models[k] == if k in done then SyncedRow(t, c, k) else t.models[k])
      && (forall k :: k in u.refs <==> k in t.refs || k in done)
      && (forall k :: k in u.refs ==> u.refs[k] == if k in done then Weights(c[k].backends) else t.refs[k])
  {
    hide SyncedRow, Weights;
  }

  lemma UpsertOne(t: Tables, c: Catalog, done: set<string>, n: string)
    requires done <= c.Keys && n in c && n !in done
    ensures var u := Upserted(t, c, done);
      && Upserted(t, c, done + {n})
           == Tables(u.models[n := SyncedRow(t, c, n)], u.refs[n := Weights(c[n].backends)])
      && (n in u.models <==> n in t.models) && (n in u.models ==> u.models[n] == t.models[n])
  {
    hide Upserted, SyncedRow, Weights;
    UpsertedReads(t, c, done);
    UpsertedReads(t, c, done + {n});
    var u, v := Upserted(t, c, done), Upserted(t, c, done + {n});
    MapsEqual(v.models, u.models[n := SyncedRow(t, c, n)]);
    MapsEqual(v.refs, u.refs[n := Weights(c[n].backends)]);
  }

  lemma AddedOne(t: Tables, done: set<string>, n: string)
    requires n !in done
    ensures n !in AddedNames(t, done)
    ensures AddedNames(t, done + {n}) == AddedNames(t, done) + if n in t.models then {} else {n}
  {
  }

  lemma UpdatedOne(t: Tables, c: Catalog, done: set<string>, n: string)
    requires done <= c.Keys && n in c && n !in done
    ensures n !in UpdatedNames(t, c, done)
    ensures UpdatedNames(t, c, done + {n})
      == UpdatedNames(t, c, done) + if n in t.models && Changed(t, c, n) then {n} else {}
  {
    hide Changed;
  }

  lemma CountOne(t: Tables, c: Catalog, done: set<string>, n: string)
    requires done <= c.Keys && n in c && n !in done
    ensures |AddedNames(t, done + {n})| == |AddedNames(t, done)| + (if n in t.models then 0 else 1)
    ensures |UpdatedNames(t, c, done + {n})|
         == |UpdatedNames(t, c, done)| + (if n in t.models && Changed(t, c, n) then 1 else 0)
  {
    hide Changed, AddedNames, UpdatedNames;
    AddedOne(t, done, n);
    UpdatedOne(t, c, done, n);
  }

  lemma StaleStay(t: Tables, c: Catalog)
    ensures var m := Upserted(t, c, c.Keys).models;
      (set n | n in m && m[n].active && n !in c) == StaleNames(t, c)
  {
  }

  lemma SyncedFromUpserted(t: Tables, c: Catalog)
    ensures var u := Upserted(t, c, c.Keys);
      Synced(t, c) == u.(models := map n | n in u.models ::
                           if n in StaleNames(t, c) then Deactivated(u.models[n]) else u.models[n])
  {
    hide SyncedRow, Weights, Upserted;
    UpsertedReads(t, c, c.Keys);
    var u := Upserted(t, c, c.Keys);
    MapsEqual(Synced(t, c).models,
      map n | n in u.models :: if n in StaleNames(t, c) then Deactivated(u.models[n]) else u.models[n]);
  }

  /** The references with trimmed names and clamped weights; the first reference to a backend wins. */
  function UpsertRefs(refs: seq<BackendRef>): seq<BackendRef> {
    if refs == [] then []
    else
      var m, last := UpsertRefs(refs[..|refs|-1]), refs[|refs|-1];
      var name := TrimSpace(last.backend);
      if name == "" || Refers(m, name) then m else m + [BackendRef(name, Clamp(last.weight))]
  }

  /** The references with trimmed names and clamped weights; the first reference to a backend wins. */
  method CollectRefs(refs: seq<BackendRef>) returns (normalized: seq<BackendRef>)
    ensures normalized == UpsertRefs(refs)
  {
    hide TrimSpace, Refers;
    normalized := [];
    var seen: set<string> := {};
    NoRefers();
    for i := 0 to |refs|
      invariant normalized == UpsertRefs(refs[..i])
      invariant forall x :: x in seen <==> Refers(normalized, x)
    {
      assert refs[..i+1][..i] == refs[..i];
      var ref := refs[i];
      var backendName := TrimSpace(ref.backend);
      if backendName == "" {
        continue;
      }
      if backendName in seen {
        continue;
      }
      RefersOneMore(normalized);
      seen := seen + {backendName};
      var weight := ref.weight;
      if weight <= 0 {
        weight := DEFAULT_MODEL_WEIGHT;
      }
      normalized := normalized + [BackendRef(backendName, weight)];
    }
    assert refs[..|refs|] == refs;
  }

  /** The weight of each backend; a later reference overrides an earlier one. */
  method NormalizedRefs(refs: seq<BackendRef>) returns (normalized: map<string, int>)
    ensures normalized == Weights(refs)
  {
    normalized := map[];
    for i := 0 to |refs|
      invariant normalized == Weights(refs[..i])
    {
      assert refs[..i+1][..i] == refs[..i];
      var ref := refs[i];
      if ref.backend == "" {
        continue;
      }
      var weight := ref.weight;
      if weight <= 0 {
        weight := DEFAULT_MODEL_WEIGHT;
      }
      normalized := normalized[ref.backend := weight];
    }
    assert refs[..|refs|] == refs;
  }

  /** Compares the sizes, then the new references one by one with the existing ones. */
  method RefsDiffer(existing: map<string, int>, refs: map<string, int>) returns (changed: bool)
    ensures changed <==> existing != refs
  {
    changed := |existing| != |refs|;
    if !changed {
      var rest := refs.Keys;
      while rest != {}
        invariant rest <= refs.Keys
        invariant forall b :: b in refs && b !in rest ==> b in existing && existing[b] == refs[b]
        decreases |rest|
      {
        var backend :| backend in rest;
        if backend !in existing || existing[backend] != refs[backend] {
          return true;
        }
        rest := rest - {backend};
      }
      SameSizeSame(refs, existing);
    }
  }

  lemma EnumeratesMembers(xs: seq<string>, all: set<string>)
    requires Enumerates(xs, all)
    ensures forall i :: 0 <= i < |xs| ==> xs[i] in all
    ensures forall x :: x in all <==> x in xs
    ensures forall i, j :: 0 <= i < j < |xs| ==> xs[i] != xs[j]
  {
    assert forall i :: 0 <= i < |xs| ==> xs[i] in xs;
  }

  lemma NothingUpserted(t: Tables, c: Catalog)
    ensures Upserted(t, c, {}) == t
    ensures AddedNames(t, {}) == {} && UpdatedNames(t, c, {}) == {}
  {
    assert Upserted(t, c, {}).models == t.models && Upserted(t, c, {}).refs == t.refs;
  }

  /** The rows of one model, in ascending order of the backends. */
  method LoadRefs(refs: map<string, int>) returns (list: seq<BackendRef>)
    ensures list == RefList(refs, SortedOf(refs.Keys))
  {
    hide SortedOf, Ascending;
    var names := SortedStrings(refs.Keys);
    EnumeratesMembers(names, refs.Keys);
    list := [];
    for i := 0 to |names|
      invariant |list| == i && forall j :: 0 <= j < i ==> list[j] == BackendRef(names[j], Clamp(refs[names[j]]))
    {
      var weight := refs[names[i]];
      if weight <= 0 {
        weight := DEFAULT_MODEL_WEIGHT;
      }
      list := list + [BackendRef(names[i], weight)];
    }
    assert list == RefList(refs, names);
  }

  ghost function WithModel(t: Tables, n: string, entry: ModelEntry): Tables {
    var display := TrimSpace(entry.name);
    Tables(t.models[n := ModelRow(if display == "" then n else display, true)],
           t.refs[n := Weights(UpsertRefs(entry.backends))])
  }

  ghost function WithoutModel(t: Tables, n: string): Tables
    requires n in t.models
  {
    t.(models := t.models[n := Deactivated(t.models[n])])
  }

  class Store {
    var models: map<string, ModelRow>
    var modelBackends: map<string, map<string, int>>
    var modelPricing: Pricing

    function State(): Tables
      reads this`models, this`modelBackends
    {
      Tables(models, modelBackends)
    }

    constructor ()
      ensures State() == Tables(map[], map[]) && modelPricing == map[]
    {
      models, modelBackends, modelPricing := map[], map[], map[];
    }

    method LoadActiveCatalog() returns (catalog: Catalog)
      ensures catalog == Loaded(State())
    {
      hide SortedOf, Enumerates, Ascending, Loaded;
      LoadedReads(State());
      ghost var want := Loaded(State());
      catalog := map[];
      var names := SortedStrings(models.Keys);
      EnumeratesMembers(names, models.Keys);
      ghost var done: set<string> := {};
      for i := 0 to |names|
        invariant forall j :: 0 <= j < i ==> names[j] in done
        invariant forall n :: n in catalog <==> n in want && n in done
        invariant forall n :: n in catalog ==> catalog[n] == want[n]
      {
        var name := names[i];
        done := done + {name};
        var refs := if name in modelBackends then modelBackends[name] else map[];
        if !models[name].active || refs == map[] {
          continue;
        }
        var display := if models[name].displayName == "" then name else models[name].displayName;
        var list := LoadRefs(refs);
        catalog := catalog[name := ModelEntry(display, list)];
      }
      assert forall n :: n in want ==> n in names;
    }

    /** Brings the tables in line with a discovered catalog; committed is false if a statement fails. */
    method SyncDiscoveredCatalog(catalog: Catalog, committed: bool)
      returns (r: Result<SyncStats>, ghost order: seq<string>)
      modifies this`models, this`modelBackends
      ensures Enumerates(order, catalog.Keys)
      ensures !committed ==> r.Err? && State() == old(State())
      ensures committed ==> r == Ok(Stats(old(State()), Build(catalog, order)))
      ensures committed ==> State() == Synced(old(State()), Build(catalog, order))
    {
      hide Enumerates, Ascending, SortedOf, Upserted, Build, Canonical, Weights, UpdatedNames, AddedNames;
      var c;
      c, order := NormalizeCatalog(catalog);
      if !committed {
        return Err("model sync failed"), order;
      }
      var existing := State();
      var names := SortedStrings(c.Keys);
      EnumeratesMembers(names, c.Keys);
      NothingUpserted(existing, c);
      var added, updated := 0, 0;
      ghost var done: set<string> := {};
      for i := 0 to |names|
        invariant done <= c.Keys && State() == Upserted(existing, c, done)
        invariant forall j :: 0 <= j < i ==> names[j] in done
        invariant forall j :: i <= j < |names| ==> names[j] !in done
        invariant added == |AddedNames(existing, done)| && updated == |UpdatedNames(existing, c, done)|
      {
        var modelName := names[i];
        UpsertOne(existing, c, done, modelName);
        CountOne(existing, c, done, modelName);
        var entry := c[modelName];
        var displayName := entry.name;
        if displayName == "" {
          displayName := modelName;
        }
        models := models[modelName :=
          ModelRow(if modelName in models then models[modelName].displayName else displayName, true)];
        var normalizedRefs := NormalizedRefs(entry.backends);
        if modelName !in existing.models {
          added := added + 1;
        } else {
          var changed := !existing.models[modelName].active;
          if !changed {
            changed := RefsDiffer(RefsOf(existing, modelName), normalizedRefs);
          }
          if changed {
            updated := updated + 1;
          }
        }
        modelBackends := modelBackends[modelName := normalizedRefs];
        done := done + {modelName};
      }
      assert done == c.Keys by { assert forall n :: n in c ==> n in names; }
      StaleStay(existing, c);
      var stale := set n | n in models && models[n].active && n !in c;
      models := map n | n in models :: if n in stale then Deactivated(models[n]) else models[n];
      SyncedFromUpserted(existing, c);
      r := Ok(SyncStats(added, updated, |stale|));
    }

    /** Replaces all prices; prices of models that are not in the table are left out. */
    method ReplaceModelPricing(pricing: Pricing, committed: bool) returns (r: Outcome)
      modifies this`modelPricing
      ensures r.Pass? <==> committed
      ensures modelPricing == if committed then PricesOf(models, pricing) else old(modelPricing)
      ensures committed ==> modelPricing.Keys == pricing.Keys * models.Keys
      ensures committed ==> forall n :: n in modelPricing ==> modelPricing[n] == pricing[n]
    {
      hide SortedOf, Enumerates, Ascending;
      if !committed {
        return Fail("commit pricing sync");
      }
      modelPricing := map[];
      var names := SortedStrings(pricing.Keys);
      EnumeratesMembers(names, pricing.Keys);
      ghost var done: set<string> := {};
      for i := 0 to |names|
        invariant forall j :: 0 <= j < i ==> names[j] in done
        invariant forall n :: n in modelPricing <==> n in pricing && n in models && n in done
        invariant forall n :: n in modelPricing ==> modelPricing[n] == pricing[n]
      {
        done := done + {names[i]};
        if names[i] !in models {
          continue;
        }
        modelPricing := modelPricing[names[i] := pricing[names[i]]];
      }
      assert forall n :: n in pricing ==> n in names;
      MapsEqual(modelPricing, PricesOf(models, pricing));
      return Pass;
    }

    /** Creates or updates one model; refused without a name or without backends. */
    method UpsertModel(name: string, entry: ModelEntry, committed: bool) returns (r: Outcome)
      modifies this`models, this`modelBackends
      ensures r.Pass? <==> TrimSpace(name) != "" && UpsertRefs(entry.backends) != [] && committed
      ensures r.Fail? ==> State() == old(State())
      ensures r.Pass? ==> State() == WithModel(old(State()), TrimSpace(name), entry)
      ensures r.Pass? ==> TrimSpace(name) in models && TrimSpace(name) in modelBackends
      ensures r.Pass? ==> models - {TrimSpace(name)} == old(models) - {TrimSpace(name)}
      ensures r.Pass? ==> modelBackends - {TrimSpace(name)} == old(modelBackends) - {TrimSpace(name)}
      ensures r.Pass? && TrimSpace(entry.name) == "" ==>
        models[TrimSpace(name)] == ModelRow(TrimSpace(name), true)
      ensures r.Pass? && TrimSpace(entry.name) != "" ==>
        models[TrimSpace(name)] == ModelRow(TrimSpace(entry.name), true)
    {
      hide TrimSpace;
      var modelName := TrimSpace(name);
      if modelName == "" {
        return Fail("model name is required");
      }
      var normalizedRefs := CollectRefs(entry.backends);
      if |normalizedRefs| == 0 {
        return Fail("at least one backend ref is required");
      }
      var displayName := TrimSpace(entry.name);
      if displayName == "" {
        displayName := modelName;
      }
      if !committed {
        return Fail("upsert model row");
      }
      models := models[modelName := ModelRow(displayName, true)];
      var rows := NormalizedRefs(normalizedRefs);
      modelBackends := modelBackends[modelName := rows];
      return Pass;
    }

    /** Marks a model inactive; an inactive model stays as it is, an unknown one is reported. */
    method DeactivateModel(name: string, committed: bool) returns (r: Outcome)
      modifies this`models, this`modelBackends
      ensures r.Pass? <==> TrimSpace(name) != "" && committed && TrimSpace(name) in old(models)
      ensures r.Fail? ==> State() == old(State())
      ensures r.Pass? ==> State() == WithoutModel(old(State()), TrimSpace(name))
      ensures r.Pass? ==> modelBackends == old(modelBackends)
      ensures r.Pass? ==> models == old(models)[TrimSpace(name) := old(models)[TrimSpace(name)].(active := false)]
    {
      hide TrimSpace;
      var modelName := TrimSpace(name);
      if modelName == "" {
        return Fail("model name is required");
      }
      if !committed {
        return Fail("deactivate model");
      }
      var affected := modelName in models && models[modelName].active;
      if affected {
        models := models[modelName := Deactivated(models[modelName])];
      } else {
        if modelName !in models {
          return Fail("model not found");
        }
        assert Deactivated(models[modelName]) == models[modelName];
      }
      return Pass;
    }
  }

  // ---------------------------------------------------------------------
  // What a synchronisation achieves
  // ---------------------------------------------------------------------

  lemma SyncedReads(t: Tables, c: Catalog)
    ensures var s := Synced(t, c);
      && (forall k :: k in s.models <==> k in t.models || k in c)
      && (forall k :: k in s.models ==> s.models[k] == if k in c then SyncedRow(t, c, k) else Deactivated(t.models[k]))
      && (forall k :: k in c ==> RefsOf(s, k) == Weights(c[k].backends))
  {
    hide SyncedRow, Weights, Upserted;
    UpsertedReads(t, c, c.Keys);
  }

  /**
   A synchronised model is active under the display name that its row has, or that it is found with.  Every
   other model becomes inactive and keeps its display name and its references.
   */
  lemma SyncedIs(t: Tables, c: Catalog, k: string)
    ensures var s := Synced(t, c);
      && (k in s.models <==> k in t.models || k in c)
      && (k in c && k in t.models ==> s.models[k] == ModelRow(t.models[k].displayName, true))
      && (k in c && k !in t.models && c[k].name != "" ==> s.models[k] == ModelRow(c[k].name, true))
      && (k in c && k !in t.models && c[k].name == "" ==> s.models[k] == ModelRow(k, true))
      && (k in c ==> k in s.refs && s.refs[k] == Weights(c[k].backends))
      && (k !in c && k in t.models ==> s.models[k] == ModelRow(t.models[k].displayName, false))
      && (k !in c ==> (k in s.refs <==> k in t.refs) && (k in t.refs ==> s.refs[k] == t.refs[k]))
  {
    hide Weights, Upserted;
    SyncedReads(t, c);
    UpsertedReads(t, c, c.Keys);
  }

  /**
   What is loaded: the active models with references, by their display names or else their keys, each with
   its backends in ascending order and their weights, or the default for a weight that is not positive.
   */
  lemma LoadedIs(t: Tables, n: string)
    ensures n in Loaded(t) <==> n in t.models && t.models[n].active && n in t.refs && t.refs[n] != map[]
    ensures n in Loaded(t) ==>
      var e, refs := Loaded(t)[n], t.refs[n];
      && (t.models[n].displayName != "" ==> e.name == t.models[n].displayName)
      && (t.models[n].displayName == "" ==> e.name == n)
      && (forall b :: Refers(e.backends, b) <==> b in refs)
      && (forall i, j :: 0 <= i < j < |e.backends| ==>
            e.backends[i].backend != e.backends[j].backend && AtMost(e.backends[i].backend, e.backends[j].backend))
      && (forall i :: 0 <= i < |e.backends| ==>
            var b := e.backends[i].backend;
            && b in refs
            && (refs[b] >= 1 ==> e.backends[i].weight == refs[b])
            && (refs[b] < 1 ==> e.backends[i].weight == DEFAULT_MODEL_WEIGHT))
  {
    hide Loaded, Refers, AtMost, Has;
    LoadedReads(t);
    if n in Loaded(t) {
      var names := SortedOf(t.refs[n].Keys);
      assert forall i :: 0 <= i < |names| ==> names[i] in names;
      RefListHas(t.refs[n], names);
    }
  }

  lemma WeightsEmpty(refs: seq<BackendRef>)
    requires forall i :: 0 <= i < |refs| ==> refs[i].backend != ""
    ensures Weights(refs) != map[] <==> refs != []
  {
    if refs != [] { assert refs[|refs|-1].backend in Weights(refs); }
  }

  lemma {:induction false} WeightsPositive(refs: seq<BackendRef>)
    ensures forall b :: b in Weights(refs) ==> Weights(refs)[b] >= 1
  {
    if refs == [] {
    } else {
      WeightsPositive(refs[..|refs|-1]);
    }
  }

  lemma RefListPositive(refs: map<string, int>, backends: seq<string>)
    requires forall b :: b in backends ==> b in refs
    ensures forall i :: 0 <= i < |RefList(refs, backends)| ==> RefList(refs, backends)[i].weight >= 1
  {
  }

  lemma LoadedList(weights: map<string, int>, refs: seq<BackendRef>)
    requires weights == Weights(refs)
    requires forall b, w :: b in weights && weights[b] == w <==> Has(refs, b, w)
    ensures var e := RefList(weights, SortedOf(weights.Keys));
      && DistinctRefs(e) && (forall i :: 0 <= i < |e| ==> e[i].weight >= 1)
      && (forall b, w :: Has(e, b, w) <==> Has(refs, b, w))
  {
    hide Has, RefList, Weights, Ascending;
    WeightsPositive(refs);
    RefListHas(weights, SortedOf(weights.Keys));
    RefListPositive(weights, SortedOf(weights.Keys));
  }

  /**
   After a synchronisation the active catalog is exactly the normalized catalog, without the models
   that have no backend.  Weights are at least 1; an existing non-empty display name is kept.
   */
  lemma SyncThenLoad(t: Tables, source: Catalog, order: seq<string>)
    requires Enumerates(order, source.Keys)
    ensures var c := Build(source, order);
      var out := Loaded(Synced(t, c));
      && (forall n :: n in out <==> n in c && c[n].backends != [])
      && (forall n :: n in out ==>
            && out[n].name == (if n in t.models && t.models[n].displayName != "" then t.models[n].displayName else n)
            && DistinctRefs(out[n].backends)
            && (forall i :: 0 <= i < |out[n].backends| ==> out[n].backends[i].weight >= 1)
            && (forall b, w :: Has(out[n].backends, b, w) <==> Has(c[n].backends, b, w)))
  {
    hide Build, Loaded, Synced, NormalizeModelName, MergedFrom;
    var c := Build(source, order);
    var s := Synced(t, c);
    BuildNormalizes(source, order);
    SyncedReads(t, c);
    LoadedReads(s);
    forall n | n in c ensures Weights(c[n].backends) != map[] <==> c[n].backends != [] {
      MergedWeights(source, order, n, c[n].backends);
      WeightsEmpty(c[n].backends);
    }
    forall n | n in Loaded(s)
      ensures var e := Loaded(s)[n].backends;
        && DistinctRefs(e) && (forall i :: 0 <= i < |e| ==> e[i].weight >= 1)
        && (forall b, w :: Has(e, b, w) <==> Has(c[n].backends, b, w))
    {
      MergedWeights(source, order, n, c[n].backends);
      LoadedList(Weights(c[n].backends), c[n].backends);
    }
  }

  lemma AddedIsGrowth(t: Tables, c: Catalog)
    ensures |AddedNames(t, c.Keys)| == |Synced(t, c).models| - |t.models|
  {
    hide Synced, Weights;
    SyncedReads(t, c);
    var added := AddedNames(t, c.Keys);
    assert Synced(t, c).models.Keys == t.models.Keys + added && t.models.Keys !! added;
    assert |Synced(t, c).models.Keys| == |t.models.Keys| + |added|;
  }

  lemma UpdatedIsChange(t: Tables, c: Catalog)
    ensures var s := Synced(t, c);
      && t.models.Keys <= s.models.Keys
      && UpdatedNames(t, c, c.Keys) == set n | n in t.models && n in c
                             && (t.models[n].active != s.models[n].active || RefsOf(t, n) != RefsOf(s, n))
  {
    hide Synced, Weights, RefsOf;
    SyncedReads(t, c);
  }

  lemma StaleIsDeactivated(t: Tables, c: Catalog)
    ensures var s := Synced(t, c);
      && t.models.Keys <= s.models.Keys
      && StaleNames(t, c) == set n | n in t.models && t.models[n].active && !s.models[n].active
  {
    hide Synced, Weights, RefsOf;
    SyncedReads(t, c);
  }

  /**
   The statistics say what happened: the growth of the models table, the models that were there and
   whose activity or backends changed, and the models that ceased to be active.
   */
  lemma StatsAreExact(t: Tables, c: Catalog)
    ensures t.models.Keys <= Synced(t, c).models.Keys
    ensures var s, stats := Synced(t, c), Stats(t, c);
      && stats.added == |s.models| - |t.models|
      && stats.updated == |set n | n in t.models && n in c
                             && (t.models[n].active != s.models[n].active || RefsOf(t, n) != RefsOf(s, n))|
      && stats.deactivated == |set n | n in t.models && t.models[n].active && !s.models[n].active|
  {
    hide Synced, Weights, RefsOf, AddedNames, UpdatedNames, StaleNames;
    AddedIsGrowth(t, c);
    UpdatedIsChange(t, c);
    StaleIsDeactivated(t, c);
  }

  const SILENT := SyncStats(0, 0, 0)

  lemma RepeatStats(t: Tables, c: Catalog, again: Catalog)
    requires c.Keys == again.Keys
    ensures Stats(Synced(t, c), again) == SILENT <==> SameWeights(c, again)
  {
    hide Synced, Weights;
    var s := Synced(t, c);
    SyncedReads(t, c);
    assert AddedNames(s, again.Keys) == {};
    assert StaleNames(s, again) == {};
    var updated := UpdatedNames(s, again, again.Keys);
    assert updated == set n | n in again && Weights(c[n].backends) != Weights(again[n].backends);
    assert updated == {} <==> SameWeights(c, again);
  }

  /** Repeating a synchronisation never changes anything, whatever the orders of iteration. */
  ghost predicate RepeatIsSilent(t: Tables, source: Catalog) {
    forall o1, o2 :: Enumerates(o1, source.Keys) && Enumerates(o2, source.Keys) ==>
      Stats(Synced(t, Build(source, o1)), Build(source, o2)) == SILENT
  }

  lemma SameKeys(source: Catalog, o1: seq<string>, o2: seq<string>)
    requires Enumerates(o1, source.Keys) && Enumerates(o2, source.Keys)
    ensures Build(source, o1).Keys == Build(source, o2).Keys
  {
    hide Build, NormalizeModelName, MergedFrom;
    BuildNormalizes(source, o1);
    BuildNormalizes(source, o2);
    assert forall n :: n in Build(source, o1) <==> n in Build(source, o2);
  }

  /** It is so exactly if merged names carry no conflicting weights. */
  lemma RepeatIsSilentIff(t: Tables, source: Catalog)
    ensures RepeatIsSilent(t, source) <==> NoConflict(source)
  {
    hide NoConflict, Build, Stats, Synced, SameWeights, Enumerates;
    OrderNeverMattersIff(source);
    forall o1, o2 | Enumerates(o1, source.Keys) && Enumerates(o2, source.Keys)
      ensures Stats(Synced(t, Build(source, o1)), Build(source, o2)) == SILENT
         <==> SameWeights(Build(source, o1), Build(source, o2))
    {
      SameKeys(source, o1, o2);
      RepeatStats(t, Build(source, o1), Build(source, o2));
    }
  }

  // ---------------------------------------------------------------------
  // Single models
  // ---------------------------------------------------------------------

  ghost predicate Mentions(refs: seq<BackendRef>, b: string) {
    exists i :: 0 <= i < |refs| && TrimSpace(refs[i].backend) == b
  }

  lemma MentionsOneMore(refs: seq<BackendRef>, last: BackendRef, b: string)
    ensures Mentions(refs + [last], b) <==> Mentions(refs, b) || TrimSpace(last.backend) == b
  {
    hide TrimSpace;
    var more := refs + [last];
    if i :| 0 <= i < |refs| && TrimSpace(refs[i].backend) == b { assert more[i] == refs[i]; }
    if TrimSpace(last.backend) == b { assert more[|refs|] == last; }
  }

  lemma {:induction false} UpsertRefsDistinct(refs: seq<BackendRef>)
    ensures var u := UpsertRefs(refs);
      DistinctRefs(u) && forall i :: 0 <= i < |u| ==> u[i].backend != "" && u[i].weight >= 1
  {
    hide TrimSpace;
    if refs == [] {
    } else {
      UpsertRefsDistinct(refs[..|refs|-1]);
    }
  }

  lemma NoMentions(b: string)
    ensures !Mentions([], b)
  {
  }

  lemma {:induction false} UpsertRefsMention(refs: seq<BackendRef>, b: string)
    requires b != ""
    ensures Refers(UpsertRefs(refs), b) <==> Mentions(refs, b)
  {
    hide TrimSpace, Mentions, Refers;
    NoRefers();
    NoMentions(b);
    if refs == [] {
    } else {
      var front, last := refs[..|refs|-1], refs[|refs|-1];
      UpsertRefsMention(front, b);
      RefersOneMore(UpsertRefs(front));
      MentionsOneMore(front, last, b);
      assert front + [last] == refs;
    }
  }

  lemma NotMentioned(refs: seq<BackendRef>, b: string)
    requires forall j :: 0 <= j < |refs| ==> TrimSpace(refs[j].backend) != b
    ensures !Mentions(refs, b)
  {
  }

  /** The first reference to a backend decides its weight; one that is not positive gives the default. */
  lemma {:induction false} UpsertRefsFirst(refs: seq<BackendRef>, i: nat)
    requires i < |refs| && TrimSpace(refs[i].backend) != ""
    requires forall j :: 0 <= j < i ==> TrimSpace(refs[j].backend) != TrimSpace(refs[i].backend)
    ensures refs[i].weight >= 1 ==> BackendRef(TrimSpace(refs[i].backend), refs[i].weight) in UpsertRefs(refs)
    ensures refs[i].weight < 1 ==>
      BackendRef(TrimSpace(refs[i].backend), DEFAULT_MODEL_WEIGHT) in UpsertRefs(refs)
  {
    hide TrimSpace, Refers, Mentions;
    var front, last := refs[..|refs|-1], refs[|refs|-1];
    if i < |front| {
      UpsertRefsFirst(front, i);
    } else {
      NotMentioned(front, TrimSpace(last.backend));
      UpsertRefsMention(front, TrimSpace(last.backend));
    }
  }

  /** One reference to each backend that is named, up to white space. */
  lemma UpsertRefsAre(refs: seq<BackendRef>)
    ensures var u := UpsertRefs(refs);
      && DistinctRefs(u)
      && (forall i :: 0 <= i < |u| ==> u[i].backend != "" && u[i].weight >= 1)
      && (forall b :: b != "" ==> (Refers(u, b) <==> Mentions(refs, b)))
  {
    hide UpsertRefs, DistinctRefs, Mentions, Refers;
    UpsertRefsDistinct(refs);
    forall b | b != "" ensures Refers(UpsertRefs(refs), b) <==> Mentions(refs, b) {
      UpsertRefsMention(refs, b);
    }
  }

  /** After an upsert the active catalog has the new entry and is otherwise as it was. */
  lemma UpsertThenLoad(t: Tables, n: string, entry: ModelEntry)
    requires n != "" && UpsertRefs(entry.backends) != []
    ensures var e := Loaded(WithModel(t, n, entry));
      && n in e && e == Loaded(t)[n := e[n]]
      && e[n].name == (if TrimSpace(entry.name) == "" then n else TrimSpace(entry.name))
      && DistinctRefs(e[n].backends)
      && (forall b, w :: Has(e[n].backends, b, w) <==> Has(UpsertRefs(entry.backends), b, w))
  {
    hide TrimSpace, Weights, Loaded, UpsertRefs, RefList, Has, Ascending, Enumerates;
    var s := WithModel(t, n, entry);
    var refs := UpsertRefs(entry.backends);
    LoadedReads(t);
    LoadedReads(s);
    UpsertRefsAre(entry.backends);
    WeightsAreClamped(refs);
    WeightsEmpty(refs);
    LoadedList(Weights(refs), refs);
    MapsEqual(Loaded(s), Loaded(t)[n := Loaded(s)[n]]);
  }

  /** After a deactivation the active catalog has lost the model and is otherwise as it was. */
  lemma DeactivateThenLoad(t: Tables, n: string)
    requires n in t.models
    ensures Loaded(WithoutModel(t, n)) == Loaded(t) - {n}
  {
    hide Loaded, RefList, Ascending, Enumerates;
    LoadedReads(t);
    LoadedReads(WithoutModel(t, n));
    MapsEqual(Loaded(WithoutModel(t, n)), Loaded(t) - {n});
  }
}
