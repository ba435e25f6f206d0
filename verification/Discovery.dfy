/**
 Discovery: the catalog that the backends report, and what becomes of a reported name once the
 catalog has been synchronised and a user requests the model by it.
 */
module Discovery {
  import opened Wrappers
  import opened Text
  import opened Config
  import opened Normalize
  import CatalogStore
  import Registry

  /** What one backend answered: the names of its models, or nothing if the call failed. */
  datatype Report = Report(backend: string, weight: int, models: Option<seq<string>>)

  function AddModel(catalog: Catalog, backend: string, weight: int, model: string): Catalog {
    var n := NormalizeModelName(model);
    if n == "" then catalog
    else
      var entry := if n in catalog then catalog[n] else ModelEntry(n, []);
      catalog[n := if Refers(entry.backends, backend) then entry
                   else entry.(backends := entry.backends + [BackendRef(backend, Clamp(weight))])]
  }

  function AddModels(catalog: Catalog, backend: string, weight: int, models: seq<string>): Catalog {
    if models == [] then catalog
    else AddModel(AddModels(catalog, backend, weight, models[..|models|-1]), backend, weight, models[|models|-1])
  }

  function Discovered(reports: seq<Report>): Catalog {
    if reports == [] then map[]
    else
      var front, last := Discovered(reports[..|reports|-1]), reports[|reports|-1];
      if last.models.None? then front else AddModels(front, last.backend, last.weight, last.models.value)
  }

  /** The loop over the models of one backend. */
  method DiscoverBackend(given: Catalog, backend: string, weight: int, models: seq<string>) returns (catalog: Catalog)
    ensures catalog == AddModels(given, backend, weight, models)
  {
    hide NormalizeModelName;
    catalog := given;
    var w := weight;
    if w <= 0 {
      w := DEFAULT_MODEL_WEIGHT;
    }
    for i := 0 to |models|
      invariant catalog == AddModels(given, backend, weight, models[..i])
    {
      assert models[..i+1][..i] == models[..i];
      var normalized := NormalizeModelName(models[i]);
      if normalized == "" {
        continue;
      }
      var entry := ModelEntry(normalized, []);
      if normalized in catalog {
        entry := catalog[normalized];
      }
      var alreadyPresent := false;
      for j := 0 to |entry.backends|
        invariant !alreadyPresent && forall k :: 0 <= k < j ==> entry.backends[k].backend != backend
      {
        if entry.backends[j].backend == backend {
          alreadyPresent := true;
          break;
        }
      }
      if !alreadyPresent {
        entry := entry.(backends := entry.backends + [BackendRef(backend, w)]);
      }
      catalog := catalog[normalized := entry];
    }
    assert models[..|models|] == models;
  }

  /** How many backends answered. */
  function Answered(reports: seq<Report>): nat {
    if reports == [] then 0
    else Answered(reports[..|reports|-1]) + if reports[|reports|-1].models.Some? then 1 else 0
  }

  lemma {:induction false} AnsweredIs(reports: seq<Report>)
    ensures Answered(reports) == |set i | 0 <= i < |reports| && reports[i].models.Some?| <= |reports|
  {
    var all := set i | 0 <= i < |reports| && reports[i].models.Some?;
    if reports == [] {
      assert all == {};
    } else {
      var n := |reports| - 1;
      AnsweredIs(reports[..n]);
      var before := set i | 0 <= i < n && reports[..n][i].models.Some?;
      assert all == before + if reports[n].models.Some? then {n} else {};
    }
  }

  /**
   The catalog of all backends that answered, how many did and did not, and an error unless all of them
   did and there were any.
   */
  method DiscoverCatalog(reports: seq<Report>) returns (catalog: Catalog, successful: nat, failed: nat, r: Outcome)
    ensures catalog == Discovered(reports)
    ensures successful == Answered(reports) && failed == |reports| - successful
    ensures r.Pass? <==> reports != [] && forall i :: 0 <= i < |reports| ==> reports[i].models.Some?
    ensures r.Fail? ==>
      r.message == if reports == [] then "no backends configured"
                   else if successful == 0 then "model discovery failed for all backends"
                   else "model discovery partially failed"
  {
    hide AddModels;
    catalog, successful, failed := map[], 0, 0;
    for i := 0 to |reports|
      invariant catalog == Discovered(reports[..i])
      invariant successful == Answered(reports[..i]) && failed == i - successful
      invariant failed == 0 <==> forall j :: 0 <= j < i ==> reports[j].models.Some?
    {
      assert reports[..i+1][..i] == reports[..i];
      if reports[i].models.None? {
        failed := failed + 1;
        continue;
      }
      successful := successful + 1;
      catalog := DiscoverBackend(catalog, reports[i].backend, reports[i].weight, reports[i].models.value);
    }
    assert reports[..|reports|] == reports;
    if successful == 0 {
      if failed == 0 {
        r := Fail("no backends configured");
        return;
      }
      r := Fail("model discovery failed for all backends");
      return;
    }
    if failed > 0 {
      r := Fail("model discovery partially failed");
      return;
    }
    r := Pass;
  }

  // ---------------------------------------------------------------------
  // What is discovered
  // ---------------------------------------------------------------------

  ghost predicate HasName(models: seq<string>, n: string) {
    exists i :: 0 <= i < |models| && NormalizeModelName(models[i]) == n
  }

  lemma HasNameOneMore(models: seq<string>, last: string, n: string)
    ensures HasName(models + [last], n) <==> HasName(models, n) || NormalizeModelName(last) == n
  {
    hide NormalizeModelName;
    var more := models + [last];
    if i :| 0 <= i < |models| && NormalizeModelName(models[i]) == n { assert more[i] == models[i]; }
    if NormalizeModelName(last) == n { assert more[|models|] == last; }
  }

  /** The catalog has the model with a reference to the backend. */
  predicate Serves(catalog: Catalog, n: string, backend: string) {
    n in catalog && Refers(catalog[n].backends, backend)
  }

  lemma RefersAppended(refs: seq<BackendRef>, ref: BackendRef, backend: string)
    ensures Refers(refs + [ref], backend) <==> Refers(refs, backend) || ref.backend == backend
  {
    hide Refers;
    RefersOneMore(refs);
  }

  lemma AddModelServes(catalog: Catalog, b: string, w: int, model: string, n: string, backend: string)
    ensures Serves(AddModel(catalog, b, w, model), n, backend)
       <==> Serves(catalog, n, backend) || (n != "" && NormalizeModelName(model) == n && backend == b)
  {
    hide NormalizeModelName, Refers;
    if NormalizeModelName(model) == n && n != "" {
      var refs := if n in catalog then catalog[n].backends else [];
      assert Refers(refs, backend) <==> Serves(catalog, n, backend) by { NoRefers(); }
      RefersAppended(refs, BackendRef(b, Clamp(w)), backend);
    }
  }

  lemma NothingNamed(n: string)
    ensures !HasName([], n)
  {
  }

  lemma {:induction false} AddModelsServes(catalog: Catalog, b: string, w: int, models: seq<string>,
                                           n: string, backend: string)
    ensures Serves(AddModels(catalog, b, w, models), n, backend)
       <==> Serves(catalog, n, backend) || (n != "" && HasName(models, n) && backend == b)
  {
    hide AddModel, HasName, Serves, NormalizeModelName;
    if models == [] {
      NothingNamed(n);
    } else {
      var front, last := models[..|models|-1], models[|models|-1];
      AddModelsServes(catalog, b, w, front, n, backend);
      AddModelServes(AddModels(catalog, b, w, front), b, w, last, n, backend);
      HasNameOneMore(front, last, n);
      assert front + [last] == models;
    }
  }

  ghost predicate ReportedBy(r: Report, n: string, backend: string) {
    r.backend == backend && r.models.Some? && HasName(r.models.value, n)
  }

  /** A backend that answered has reported a name of the model. */
  ghost predicate Reported(reports: seq<Report>, n: string, backend: string) {
    exists i :: 0 <= i < |reports| && ReportedBy(reports[i], n, backend)
  }

  lemma ReportedOneMore(reports: seq<Report>, last: Report, n: string, backend: string)
    ensures Reported(reports + [last], n, backend) <==> Reported(reports, n, backend) || ReportedBy(last, n, backend)
  {
    hide ReportedBy;
    var more := reports + [last];
    if i :| 0 <= i < |reports| && ReportedBy(reports[i], n, backend) { assert more[i] == reports[i]; }
    if ReportedBy(last, n, backend) { assert more[|reports|] == last; }
  }

  lemma NothingReported(n: string, backend: string)
    ensures !Reported([], n, backend) && !Serves(map[], n, backend)
  {
  }

  /** The catalog refers to a backend for a model exactly if the backend has reported some name of it. */
  lemma {:induction false} DiscoveredServes(reports: seq<Report>, n: string, backend: string)
    requires n != ""
    ensures Serves(Discovered(reports), n, backend) <==> Reported(reports, n, backend)
  {
    hide AddModels, Reported, Serves, NormalizeModelName, HasName;
    if reports == [] {
      NothingReported(n, backend);
    } else {
      var front, last := reports[..|reports|-1], reports[|reports|-1];
      DiscoveredServes(front, n, backend);
      ReportedOneMore(front, last, n, backend);
      assert front + [last] == reports;
      if last.models.Some? {
        AddModelsServes(Discovered(front), last.backend, last.weight, last.models.value, n, backend);
      }
    }
  }

  // ---------------------------------------------------------------------
  // The weights of what is discovered
  // ---------------------------------------------------------------------

  /** Every entry has its key as the name, and refers to a backend at most once. */
  ghost predicate WellFormed(catalog: Catalog) {
    forall n :: n in catalog ==> catalog[n].name == n && DistinctRefs(catalog[n].backends)
  }

  /** The catalog has the model with a reference to the backend with this weight. */
  ghost predicate Weighs(catalog: Catalog, n: string, backend: string, weight: int) {
    n in catalog && BackendRef(backend, weight) in catalog[n].backends
  }

  lemma AddModelKeeps(catalog: Catalog, b: string, w: int, model: string)
    ensures WellFormed(catalog) ==> WellFormed(AddModel(catalog, b, w, model))
    ensures forall n, backend, weight :: Weighs(catalog, n, backend, weight) ==>
      Weighs(AddModel(catalog, b, w, model), n, backend, weight)
  {
    hide NormalizeModelName;
  }

  lemma {:induction false} AddModelsKeep(catalog: Catalog, b: string, w: int, models: seq<string>)
    ensures WellFormed(catalog) ==> WellFormed(AddModels(catalog, b, w, models))
    ensures forall n, backend, weight :: Weighs(catalog, n, backend, weight) ==>
      Weighs(AddModels(catalog, b, w, models), n, backend, weight)
  {
    hide AddModel, WellFormed, Weighs;
    if models == [] {
    } else {
      var front := models[..|models|-1];
      AddModelsKeep(catalog, b, w, front);
      AddModelKeeps(AddModels(catalog, b, w, front), b, w, models[|models|-1]);
    }
  }

  /** The weight that a backend's references get: its own, or 1 for one that is not positive. */
  ghost predicate WeightFor(own: int, weight: int) {
    (own >= 1 ==> weight == own) && (own < 1 ==> weight == 1)
  }

  lemma AddModelWeighs(catalog: Catalog, b: string, w: int, model: string, n: string)
    requires n != "" && NormalizeModelName(model) == n && !Serves(catalog, n, b)
    ensures exists weight :: WeightFor(w, weight) && Weighs(AddModel(catalog, b, w, model), n, b, weight)
  {
    hide NormalizeModelName;
    NoRefers();
    var weight := if w >= 1 then w else 1;
    assert WeightFor(w, weight) && Weighs(AddModel(catalog, b, w, model), n, b, weight);
  }

  /** A backend that had no reference gets one with its weight. */
  lemma {:induction false} AddModelsWeigh(catalog: Catalog, b: string, w: int, models: seq<string>, n: string)
    requires n != "" && HasName(models, n) && !Serves(catalog, n, b)
    ensures exists weight :: WeightFor(w, weight) && Weighs(AddModels(catalog, b, w, models), n, b, weight)
  {
    hide NormalizeModelName, HasName, Serves;
    if models == [] {
      NothingNamed(n);
    } else {
      var front, last := models[..|models|-1], models[|models|-1];
      var before := AddModels(catalog, b, w, front);
      HasNameOneMore(front, last, n);
      assert front + [last] == models;
      AddModelKeeps(before, b, w, last);
      if HasName(front, n) {
        hide AddModel, Weighs;
        AddModelsWeigh(catalog, b, w, front, n);
      } else {
        AddModelsServes(catalog, b, w, front, n, b);
        AddModelWeighs(before, b, w, last, n);
      }
    }
  }

  lemma {:induction false} DiscoveredWellFormed(reports: seq<Report>)
    ensures WellFormed(Discovered(reports))
  {
    if reports == [] {
    } else {
      hide AddModels, WellFormed;
      var front, last := reports[..|reports|-1], reports[|reports|-1];
      DiscoveredWellFormed(front);
      if last.models.Some? { AddModelsKeep(Discovered(front), last.backend, last.weight, last.models.value); }
    }
  }

  /**
   The catalog is well formed, and the first report of a model by a backend decides the weight of the
   reference: it is the backend's own, or 1 if that is not positive.
   */
  lemma {:induction false} DiscoveredWeighs(reports: seq<Report>, n: string, backend: string, i: nat)
    requires n != "" && i < |reports| && ReportedBy(reports[i], n, backend)
    requires forall j :: 0 <= j < i ==> !ReportedBy(reports[j], n, backend)
    ensures WellFormed(Discovered(reports))
    ensures exists weight :: WeightFor(reports[i].weight, weight) && Weighs(Discovered(reports), n, backend, weight)
  {
    hide NormalizeModelName, HasName, AddModels, Serves, WellFormed, Weighs, WeightFor;
    DiscoveredWellFormed(reports);
    var front, last := reports[..|reports|-1], reports[|reports|-1];
    if i < |front| {
      assert forall j :: 0 <= j <= i ==> front[j] == reports[j];
      DiscoveredWeighs(front, n, backend, i);
      if last.models.Some? { AddModelsKeep(Discovered(front), last.backend, last.weight, last.models.value); }
    } else {
      DiscoveredServes(front, n, backend);
      assert !Reported(front, n, backend) by { assert forall j :: 0 <= j < |front| ==> front[j] == reports[j]; }
      AddModelsWeigh(Discovered(front), last.backend, last.weight, last.models.value, n);
    }
  }

  // ---------------------------------------------------------------------
  // Requesting a reported name
  // ---------------------------------------------------------------------

  /** The key under which a synchronisation files a reported name: discovery and the store both normalize. */
  function FiledUnder(name: string): string {
    NormalizeModelName(NormalizeModelName(name))
  }

  /** The active catalog after discovery and synchronisation. */
  ghost function Active(t: CatalogStore.Tables, reports: seq<Report>, order: seq<string>): Catalog {
    CatalogStore.Loaded(CatalogStore.Synced(t, Build(Discovered(reports), order)))
  }

  lemma CoveredRefers(refs: seq<BackendRef>, more: seq<BackendRef>, backend: string)
    requires Covers(refs, more) && Refers(more, backend) && backend != ""
    ensures Refers(refs, backend)
  {
  }

  /** Normalizing the discovered catalog keeps what a reported name stands for, under its second normal form. */
  lemma ReportedIsMerged(reports: seq<Report>, order: seq<string>, name: string, backend: string)
    requires Enumerates(order, Discovered(reports).Keys)
    requires NormalizeModelName(name) != "" && FiledUnder(name) != ""
    requires Reported(reports, NormalizeModelName(name), backend) && backend != ""
    ensures Serves(Build(Discovered(reports), order), FiledUnder(name), backend)
  {
    var d, n, k := Discovered(reports), NormalizeModelName(name), FiledUnder(name);
    DiscoveredServes(reports, n, backend);
    BuildNormalizes(d, order);
    hide Build, Discovered, NormalizeModelName, Reported, DistinctRefs, Covers;
    assert n in order && NormalizeModelName(n) == k;
    var c := Build(d, order);
    assert k in c && Covers(c[k].backends, d[n].backends);
    CoveredRefers(c[k].backends, d[n].backends, backend);
  }

  lemma ServedHas(refs: seq<BackendRef>, loaded: seq<BackendRef>, backend: string)
    requires Refers(refs, backend) && forall b, w :: Has(loaded, b, w) <==> Has(refs, b, w)
    ensures Refers(loaded, backend)
  {
    var i :| 0 <= i < |refs| && refs[i].backend == backend;
    assert Has(refs, backend, Clamp(refs[i].weight));
    assert Has(loaded, backend, Clamp(refs[i].weight));
  }

  /** A reported name is filed, with the backend that reported it, if anything is left of it. */
  lemma ReportedIsFiled(t: CatalogStore.Tables, reports: seq<Report>, order: seq<string>, name: string, backend: string)
    requires Enumerates(order, Discovered(reports).Keys)
    requires NormalizeModelName(name) != "" && FiledUnder(name) != ""
    requires Reported(reports, NormalizeModelName(name), backend) && backend != ""
    ensures Serves(Active(t, reports, order), FiledUnder(name), backend)
  {
    ReportedIsMerged(reports, order, name, backend);
    CatalogStore.SyncThenLoad(t, Discovered(reports), order);
    var k, c := FiledUnder(name), Build(Discovered(reports), order);
    hide Build, Discovered, NormalizeModelName, CatalogStore.Loaded, CatalogStore.Synced, Reported, DistinctRefs;
    ServedHas(c[k].backends, Active(t, reports, order)[k].backends, backend);
  }

  lemma NamedBackends(refs: seq<BackendRef>, backend: string)
    ensures backend in Registry.BackendNames(refs) <==> Refers(refs, backend)
  {
    var names := Registry.BackendNames(refs);
    if i :| 0 <= i < |refs| && refs[i].backend == backend { assert names[i] == backend; }
    if i :| 0 <= i < |names| && names[i] == backend { assert refs[i].backend == backend; }
  }

  /**
   After discovery and synchronisation, requesting a model by a name that a backend reports gives the
   entry under which this name is filed, with this backend among those that serve it, exactly if the
   normal form of the name does not end in white space and not in ":latest".
   */
  lemma ReportedNameResolvesIff(t: CatalogStore.Tables, reports: seq<Report>, order: seq<string>,
                                o: Registry.UserOverrides, name: string, backend: string)
    requires Enumerates(order, Discovered(reports).Keys)
    requires NormalizeModelName(name) != "" && backend != "" && Reported(reports, NormalizeModelName(name), backend)
    requires Registry.NotAliased(name, o) && Registry.Accessible(o, FiledUnder(name))
    ensures var r := Registry.Resolve(name, Registry.RegistryOf(Active(t, reports, order)), o);
      r.Resolved? && r.name == FiledUnder(name) && backend in r.backends <==> Stable(NormalizeModelName(name))
  {
    NormalizedTwiceIff(name);
    if Stable(NormalizeModelName(name)) { ReportedIsFiled(t, reports, order, name, backend); }
    hide NormalizeModelName, Active, Reported, Stable, Registry.Accessible;
    var catalog := Active(t, reports, order);
    if FiledUnder(name) in catalog { NamedBackends(catalog[FiledUnder(name)].backends, backend); }
  }
}
