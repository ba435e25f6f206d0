/**
 The dashboard's administration of backends and models, and what keeps routing sound through it:
 configured backends, managed backends and stored backends have the same names, and the catalog
 refers to no others.
 */
module Dashboard {
  import opened Wrappers
  import opened Text
  import opened Config
  import Access
  import Normalize
  import Formats
  import CatalogStore
  import BackendStore
  import Backends
  import Registry
  import Manager
  import Resolver
  import ReloadBackends

  /** The list with b in the place of the first backend of its name, or at the end. */
  function Put(bs: seq<Backend>, b: Backend): seq<Backend> {
    if bs == [] then [b]
    else if bs[0].name == b.name then [b] + bs[1..]
    else [bs[0]] + Put(bs[1..], b)
  }

  /** Put replaces the first backend of the name, and appends if there is none. */
  lemma {:induction false} PutIs(bs: seq<Backend>, b: Backend, i: nat)
    requires i <= |bs| && forall j :: 0 <= j < i ==> bs[j].name != b.name
    ensures i < |bs| && bs[i].name == b.name ==> Put(bs, b) == bs[i := b]
    ensures i == |bs| ==> Put(bs, b) == bs + [b]
  {
    if i > 0 {
      PutIs(bs[1..], b, i - 1);
      assert bs == [bs[0]] + bs[1..];
      assert i < |bs| ==> bs[i := b] == [bs[0]] + bs[1..][i - 1 := b];
    } else if bs != [] {
      assert bs[0 := b] == [b] + bs[1..];
    }
  }

  lemma NamesSplit(b: Backend, bs: seq<Backend>)
    ensures Names([b] + bs) == {b.name} + Names(bs)
  {
    forall n ensures n in Names([b] + bs) <==> n == b.name || n in Names(bs) {
      if i :| 0 <= i < |bs| && bs[i].name == n { assert ([b] + bs)[i + 1].name == n; }
      if i :| 0 <= i < |[b] + bs| && ([b] + bs)[i].name == n { assert i > 0 ==> bs[i - 1].name == n; }
      if n == b.name { assert ([b] + bs)[0].name == n; }
    }
  }

  lemma {:induction false} PutNames(bs: seq<Backend>, b: Backend)
    ensures Names(Put(bs, b)) == Names(bs) + {b.name}
  {
    hide Names;
    if bs == [] {
      NamesSplit(b, []);
      assert [b] + [] == [b];
    } else {
      assert bs == [bs[0]] + bs[1..];
      NamesSplit(bs[0], bs[1..]);
      NamesSplit(b, bs[1..]);
      PutNames(bs[1..], b);
      NamesSplit(bs[0], Put(bs[1..], b));
    }
  }

  /** Put changes no entry of another name, and the new one is there. */
  lemma {:induction false} PutMembers(bs: seq<Backend>, b: Backend)
    ensures b in Put(bs, b)
    ensures forall x: Backend :: x.name != b.name ==> (x in Put(bs, b) <==> x in bs)
  {
    if bs == [] {
    } else {
      assert bs == [bs[0]] + bs[1..];
      PutMembers(bs[1..], b);
    }
  }

  /** The list without the backends of one name. */
  function Without(bs: seq<Backend>, name: string): seq<Backend> {
    if bs == [] then []
    else Without(bs[..|bs|-1], name) + if bs[|bs|-1].name == name then [] else [bs[|bs|-1]]
  }

  lemma {:induction false} WithoutNames(bs: seq<Backend>, name: string)
    ensures Names(Without(bs, name)) == Names(bs) - {name}
  {
    hide Names;
    if bs != [] {
      var front, last := bs[..|bs|-1], bs[|bs|-1];
      assert bs == front + [last];
      WithoutNames(front, name);
      NamesLast(front, last);
      NamesLast(Without(front, name), last);
      assert Without(front, name) + [] == Without(front, name);
    } else {
      assert Names(bs) == {} by { NoNames(); }
    }
  }

  /** Taking out a name takes out its backends and keeps the others in their order. */
  lemma {:induction false} WithoutItemwise(xs: seq<Backend>, ys: seq<Backend>, name: string)
    ensures Without(xs + ys, name) == Without(xs, name) + Without(ys, name)
  {
    if ys == [] {
      assert xs + ys == xs;
    } else {
      assert (xs + ys)[..|xs + ys|-1] == xs + ys[..|ys|-1];
      WithoutItemwise(xs, ys[..|ys|-1], name);
    }
  }

  lemma WithoutItem(b: Backend, name: string)
    ensures b.name == name ==> Without([b], name) == []
    ensures b.name != name ==> Without([b], name) == [b]
  {
    assert [b][..0] == [] && Without([], name) == [];
  }

  /** The models whose entries refer to the backend. */
  ghost function Referring(catalog: Catalog, backend: string): set<string> {
    set n | n in catalog && Refers(catalog[n].backends, backend)
  }

  lemma NotActive(rows: BackendStore.Rows, name: string)
    ensures name !in rows ==> name !in BackendStore.ActiveNames(rows)
    ensures name !in BackendStore.ActiveNames(rows) ==>
      BackendStore.ActiveNames(rows) - {name} == BackendStore.ActiveNames(rows)
  {
  }

  /** A backend that no model refers to can go. */
  lemma KnownWithout(catalog: Catalog, names: set<string>, backend: string)
    requires Resolver.Known(catalog, names)
    ensures Resolver.Known(catalog, names - {backend}) <==> Referring(catalog, backend) == {}
  {
    if Resolver.Known(catalog, names - {backend}) {
      forall n | n in catalog ensures !Refers(catalog[n].backends, backend) { }
    }
    if Referring(catalog, backend) == {} {
      forall n, i | n in catalog && 0 <= i < |catalog[n].backends|
        ensures catalog[n].backends[i].backend in names - {backend}
      {
        assert n !in Referring(catalog, backend);
      }
    }
  }

  /** The inner loop of modelsReferencingBackend. */
  method FindRef(refs: seq<BackendRef>, backendName: string) returns (found: bool)
    ensures found <==> Refers(refs, backendName)
  {
    for i := 0 to |refs|
      invariant forall j :: 0 <= j < i ==> refs[j].backend != backendName
    {
      if refs[i].backend == backendName {
        return true;
      }
    }
    return false;
  }

  /** The prices with that of one model set; a price of nothing is no entry. */
  function Priced(pricing: Pricing, model: string, price: ModelPricing): Pricing {
    if price == ModelPricing(0.0, 0.0) then pricing - {model} else pricing[model := price]
  }

  /** No user whose lists name the model has a record that cannot be written. */
  ghost predicate Cleanable(users: Access.Users, model: string, failing: set<string>) {
    forall u :: u in users && Access.Cleaned(users[u], model) != users[u] ==> u !in failing
  }

  /** Only the entry of one model has changed, and it has the name and the weighted backends of the given one. */
  ghost predicate SavedAs(was: Catalog, now: Catalog, model: string, entry: ModelEntry) {
    && model in now && now == was[model := now[model]] && now[model].name == entry.name
    && forall b, w :: Normalize.Has(now[model].backends, b, w) <==> Normalize.Has(entry.backends, b, w)
  }

  ghost predicate ShownAs(catalog: Catalog, model: string, display: string) {
    model in catalog && catalog[model].name == display
  }

  /** The model has this price; one without a price has no entry. */
  predicate HasPrice(pricing: Pricing, model: string, price: ModelPricing) {
    && (price == ModelPricing(0.0, 0.0) ==> model !in pricing)
    && (price != ModelPricing(0.0, 0.0) ==> model in pricing && pricing[model] == price)
  }

  /** A table that knows the model keeps its price. */
  lemma PriceStays(models: map<string, CatalogStore.ModelRow>, pricing: Pricing, model: string)
    requires model in models
    ensures var kept := CatalogStore.PricesOf(models, pricing);
      forall price :: HasPrice(kept, model, price) <==> HasPrice(pricing, model, price)
  {
  }

  lemma KnownMore(catalog: Catalog, names: set<string>, name: string)
    requires Resolver.Known(catalog, names)
    ensures Resolver.Known(catalog, names + {name})
  {
  }

  lemma KnownWith(catalog: Catalog, names: set<string>, model: string, entry: ModelEntry)
    requires Resolver.Known(catalog, names)
    requires forall i :: 0 <= i < |entry.backends| ==> entry.backends[i].backend in names
    ensures Resolver.Known(catalog[model := entry], names)
  {
  }

  lemma KnownLess(catalog: Catalog, names: set<string>, model: string)
    requires Resolver.Known(catalog, names)
    ensures Resolver.Known(catalog - {model}, names)
  {
  }

  lemma LoadedIsKnown(t: CatalogStore.Tables, model: string)
    requires model in CatalogStore.Loaded(t)
    ensures model in t.models
  {
  }

  lemma ParsedRefsAreKnown(weights: string, names: set<string>)
    requires Formats.ParsedRefs(weights, names).Ok?
    ensures var refs := Formats.ParsedRefs(weights, names).value;
      refs != [] && Formats.CleanRefs(refs, names)
  {
    hide Items, Formats.RefsOf, Formats.CleanRefs;
    ItemsAreClean(weights);
    Formats.ParsedRefsAreClean(Items(weights), names);
  }

  lemma NotAmong(refs: seq<BackendRef>, last: BackendRef)
    requires DistinctRefs(refs + [last])
    ensures !Refers(refs, last.backend)
  {
    assert (refs + [last])[|refs|] == last;
    forall i | 0 <= i < |refs| ensures refs[i].backend != last.backend {
      assert (refs + [last])[i] == refs[i];
    }
  }

  /** References as they are parsed are stored as they are. */
  lemma {:induction false} CleanRefsStay(refs: seq<BackendRef>, names: set<string>)
    requires Formats.CleanRefs(refs, names)
    ensures CatalogStore.UpsertRefs(refs) == refs
  {
    hide TrimSpace, Refers;
    if refs == [] {
    } else {
      var front, last := refs[..|refs|-1], refs[|refs|-1];
      assert Formats.CleanRefs(front, names) by { assert forall i :: 0 <= i < |front| ==> front[i] == refs[i]; }
      CleanRefsStay(front, names);
      TrimmedStays(last.backend);
      NotAmong(front, last);
      assert front + [last] == refs;
    }
  }

  /** What the catalog table makes of a saved entry. */
  lemma SavedEntry(t: CatalogStore.Tables, name: string, entry: ModelEntry, weights: string, names: set<string>)
    requires name != "" && TrimSpace(name) == name
    requires Formats.ParsedRefs(weights, names) == Ok(entry.backends)
    ensures CatalogStore.UpsertRefs(entry.backends) != []
    ensures var e := CatalogStore.Loaded(CatalogStore.WithModel(t, name, entry));
      && name in e && e == CatalogStore.Loaded(t)[name := e[name]]
      && e[name].name == (if TrimSpace(entry.name) == "" then name else TrimSpace(entry.name))
      && (forall b, w :: Normalize.Has(e[name].backends, b, w) <==> Normalize.Has(entry.backends, b, w))
      && (forall i :: 0 <= i < |e[name].backends| ==> e[name].backends[i].backend in names)
  {
    hide CatalogStore.Loaded, CatalogStore.WithModel, TrimSpace;
    ParsedRefsAreKnown(weights, names);
    CleanRefsStay(entry.backends, names);
    CatalogStore.UpsertThenLoad(t, name, entry);
    var e := CatalogStore.Loaded(CatalogStore.WithModel(t, name, entry))[name].backends;
    forall i | 0 <= i < |e| ensures e[i].backend in names {
      assert Normalize.Has(e, e[i].backend, Clamp(e[i].weight));
      assert Normalize.Has(entry.backends, e[i].backend, Clamp(e[i].weight));
    }
  }

  /** The health and the place in the round-robin are as before. */
  twostate predicate KeepsTurn(b: Backends.Backend)
    reads b
  {
    b.healthy == old(b.healthy) && b.currentWeight == old(b.currentWeight)
  }

  class Handler {
    const manager: Manager.Manager
    const resolver: Resolver.Resolver
    const backendStore: BackendStore.Store?
    const modelStore: CatalogStore.Store?
    const authStore: Access.AuthStore
    var backends: seq<Backend>
    var catalog: Catalog
    var pricing: Pricing

    constructor (manager: Manager.Manager, resolver: Resolver.Resolver, backendStore: BackendStore.Store?,
                 modelStore: CatalogStore.Store?, authStore: Access.AuthStore,
                 backends: seq<Backend>, catalog: Catalog, pricing: Pricing)
      ensures this.manager == manager && this.resolver == resolver && this.authStore == authStore
      ensures this.backendStore == backendStore && this.modelStore == modelStore
      ensures this.backends == backends && this.catalog == catalog && this.pricing == pricing
    {
      this.manager, this.resolver, this.authStore := manager, resolver, authStore;
      this.backendStore, this.modelStore := backendStore, modelStore;
      this.backends, this.catalog, this.pricing := backends, catalog, pricing;
    }

    /** Configured, managed and stored backends have the same names. */
    ghost predicate NamesAgree()
      reads this, manager, backendStore
    {
      && manager.byName.Keys == Names(backends)
      && (backendStore != null ==> BackendStore.ActiveNames(backendStore.rows) == Names(backends))
    }

    ghost predicate Valid()
      reads this, manager, resolver
    {
      resolver.manager == manager && manager.Coherent()
    }

    ghost function Overview(): View
      reads this
    {
      View(Names(backends), catalog)
    }

    /** Routing and the catalog table have the dashboard's catalog. */
    ghost predicate InStep()
      reads this, resolver, modelStore
    {
      && resolver.Serves(catalog)
      && (modelStore != null ==> CatalogStore.Loaded(modelStore.State()) == catalog)
    }

    /** What every completed step keeps. */
    ghost predicate Sound()
      reads this, manager, manager.backends, resolver, backendStore, modelStore
    {
      Valid() && NamesAgree() && InStep() && Resolver.Known(catalog, manager.byName.Keys)
    }

    /** With a table, every configured backend is what its active row reads as. */
    ghost predicate ReadBack()
      reads this, backendStore
    {
      backendStore != null ==> forall i :: 0 <= i < |backends| ==>
        var n := backends[i].name;
        n in backendStore.rows && backendStore.rows[n].active
        && BackendStore.ReadFrom(backends[i], n, backendStore.rows[n])
    }

    /** The backend is managed, stored and configured as cfg. */
    ghost predicate InForce(cfg: Backend)
      reads this, manager, manager.byName.Values, backendStore
    {
      && cfg.name in manager.byName && Manager.RunsAs(manager.byName[cfg.name], cfg)
      && cfg.name in Names(backends)
      && (backendStore == null ==> cfg in backends)
      && (backendStore != null ==>
            cfg.name in backendStore.rows && BackendStore.Stores(backendStore.rows[cfg.name], cfg) && ReadBack())
    }

    /**
     Of the managed backends, only that of this name has changed; if it was managed before, it is the same
     object with the same health and current weight.
     */
    twostate predicate ManagerTouches(name: string)
      reads this, manager, manager.byName.Values
    {
      && manager.byName.Keys == old(manager.byName.Keys) + {name}
      && (forall n :: n in old(manager.byName) ==> manager.byName[n] == old(manager.byName)[n])
      && (forall n :: n in old(manager.byName) && n != name ==> unchanged(manager.byName[n]))
      && (name in old(manager.byName) ==> KeepsTurn(manager.byName[name]))
    }

    /** Only the backend of this name has changed, as a managed backend, a row or a configured backend. */
    twostate predicate OnlyTouches(name: string)
      reads this, manager, manager.byName.Values, backendStore
    {
      && ManagerTouches(name)
      && (backendStore != null ==> backendStore.rows - {name} == old(backendStore.rows) - {name})
      && (backendStore == null ==> forall b: Backend :: b.name != name ==> (b in backends <==> b in old(backends)))
    }

    // -------------------------------------------------------------------
    // Backends
    // -------------------------------------------------------------------

    method BackendByName(name: string) returns (r: Option<Backend>)
      ensures r.Some? <==> name in Names(backends)
      ensures r.Some? ==> r.value.name == name && r.value in backends
    {
      for i := 0 to |backends|
        invariant forall j :: 0 <= j < i ==> backends[j].name != name
      {
        if backends[i].name == name {
          return Some(backends[i]);
        }
      }
      return None;
    }

    method UpsertBackendInConfig(updated: Backend)
      modifies this`backends
      ensures backends == Put(old(backends), updated)
    {
      hide Put;
      for i := 0 to |backends|
        invariant backends == old(backends)
        invariant forall j :: 0 <= j < i ==> backends[j].name != updated.name
      {
        PutIs(backends, updated, i);
        if backends[i].name == updated.name {
          backends := backends[i := updated];
          return;
        }
      }
      PutIs(backends, updated, |backends|);
      backends := backends + [updated];
    }

    method RemoveBackendFromConfig(name: string)
      modifies this`backends
      ensures backends == Without(old(backends), name)
    {
      var filtered: seq<Backend> := [];
      for i := 0 to |backends|
        invariant backends == old(backends) && filtered == Without(backends[..i], name)
      {
        assert backends[..i+1][..i] == backends[..i];
        if backends[i].name == name {
          continue;
        }
        filtered := filtered + [backends[i]];
      }
      assert backends[..|backends|] == backends;
      backends := filtered;
    }

    /** With a backend table, the configured backends are read back from it. */
    method ReloadBackendsFromStoreIfAvailable()
      modifies this`backends
      ensures backendStore == null ==> backends == old(backends)
      ensures backendStore != null ==>
        Names(backends) == BackendStore.ActiveNames(backendStore.rows) && DistinctNames(backends)
      ensures ReadBack()
    {
      if backendStore == null {
        return;
      }
      backends := backendStore.LoadActiveBackends();
    }

    /** The configured backends after a backend has been stored and is managed. */
    method SaveInConfig(cfg: Backend)
      modifies this`backends
      ensures backendStore != null ==> Names(backends) == BackendStore.ActiveNames(backendStore.rows)
      ensures backendStore == null ==> Names(backends) == old(Names(backends)) + {cfg.name}
      ensures backendStore == null ==> cfg in backends
      ensures backendStore == null ==>
        forall b: Backend :: b.name != cfg.name ==> (b in backends <==> b in old(backends))
      ensures ReadBack()
    {
      hide Names, Put, BackendStore.ActiveNames, BackendStore.ReadFrom;
      PutNames(backends, cfg);
      PutMembers(backends, cfg);
      UpsertBackendInConfig(cfg);
      ReloadBackendsFromStoreIfAvailable();
    }

    method ManageBackend(cfg: Backend, parses: UrlParser) returns (r: Outcome)
      requires Valid()
      modifies manager, manager.backends
      ensures forall i :: 0 <= i < |manager.backends| ==>
        manager.backends[i] in old(manager.backends) || fresh(manager.backends[i])
      ensures Valid()
      ensures r.Pass? <==> Parses(parses, cfg.url)
      ensures r.Fail? ==> manager.byName == old(manager.byName)
      ensures r.Fail? ==> forall n :: n in old(manager.byName) ==> unchanged(manager.byName[n])
      ensures r.Pass? ==> cfg.name in manager.byName && Manager.RunsAs(manager.byName[cfg.name], cfg)
      ensures r.Pass? ==> ManagerTouches(cfg.name) && manager.byName.Keys == old(manager.byName.Keys) + {cfg.name}
    {
      hide Manager.Agree, Manager.RunsAs, Manager.UpsertSteps, Manager.WithDefaults;
      hide Backends.Snapshot, Backends.Backend.Configured, Backends.Backend.FollowsHealth;
      Manager.AgreeReads(manager.backends, manager.byName);
      r := manager.UpsertBackend(cfg, parses, set b | b in manager.backends);
    }

    /** The common part of createBackend and updateBackend, after the check of the name. */
    method SaveBackend(cfg: Backend, parses: UrlParser, committed: bool) returns (r: Outcome)
      requires Valid()
      modifies this`backends, manager, manager.backends, backendStore
      ensures forall i :: 0 <= i < |manager.backends| ==>
        manager.backends[i] in old(manager.backends) || fresh(manager.backends[i])
      ensures Valid()
      ensures r.Pass? <==> Parses(parses, cfg.url) && (backendStore != null ==> committed)
      ensures backendStore != null ==>
        backendStore.rows ==
          if committed then old(backendStore.rows)[cfg.name := BackendStore.RowOf(cfg)] else old(backendStore.rows)
      ensures r.Fail? ==> backends == old(backends) && manager.byName == old(manager.byName)
      ensures r.Fail? ==> forall n :: n in old(manager.byName) ==> unchanged(manager.byName[n])
      ensures r.Pass? ==> InForce(cfg) && OnlyTouches(cfg.name)
      ensures r.Pass? ==> manager.byName.Keys == old(manager.byName.Keys) + {cfg.name}
      ensures r.Pass? && backendStore != null ==> Names(backends) == BackendStore.ActiveNames(backendStore.rows)
      ensures r.Pass? && backendStore == null ==> Names(backends) == old(Names(backends)) + {cfg.name}
    {
      hide Names, Put, Manager.Agree, BackendStore.ActiveNames, Manager.RunsAs, BackendStore.Stores;
      hide BackendStore.RowOf, BackendStore.ReadFrom, Manager.Manager.Coherent;
      if backendStore != null {
        BackendStore.UpsertActive(backendStore.rows, cfg);
        r := backendStore.UpsertBackend(cfg, committed);
        if r.Fail? {
          return;
        }
      }
      r := ManageBackend(cfg, parses);
      if r.Fail? {
        return;
      }
      SaveInConfig(cfg);
    }

    /**
     Adds a backend.  The one way to lose agreement is an unparsable URL with a backend table: the
     row is written before the manager refuses.
     */
    method CreateBackend(cfg: Backend, parses: UrlParser, committed: bool) returns (r: Outcome)
      requires Sound()
      modifies this`backends, manager, manager.backends, backendStore
      ensures forall i :: 0 <= i < |manager.backends| ==>
        manager.backends[i] in old(manager.backends) || fresh(manager.backends[i])
      ensures r.Pass? <==>
        cfg.name !in old(Names(backends)) && Parses(parses, cfg.url) && (backendStore != null ==> committed)
      ensures r.Pass? ==> Sound() && Names(backends) == old(Names(backends)) + {cfg.name}
      ensures r.Pass? ==> InForce(cfg) && OnlyTouches(cfg.name)
      ensures r.Fail? ==> backends == old(backends) && manager.byName == old(manager.byName)
      ensures r.Fail? ==> forall n :: n in old(manager.byName) ==> unchanged(manager.byName[n])
      ensures r.Fail? && backendStore != null && (cfg.name in old(Names(backends)) || !committed) ==>
        backendStore.rows == old(backendStore.rows)
      ensures Sound() <==>
        (cfg.name in old(Names(backends)) || Parses(parses, cfg.url) || backendStore == null || !committed)
    {
      hide Names, Manager.Agree, BackendStore.ActiveNames, InForce, BackendStore.RowOf;
      var existing := BackendByName(cfg.name);
      if existing.Some? {
        return Fail("backend already exists");
      }
      KnownMore(catalog, manager.byName.Keys, cfg.name);
      if backendStore != null { BackendStore.UpsertActive(backendStore.rows, cfg); }
      r := SaveBackend(cfg, parses, committed);
    }

    /** Changes a backend in place; agreement is kept whatever happens. */
    method UpdateBackend(cfg: Backend, parses: UrlParser, committed: bool) returns (r: Outcome)
      requires Sound()
      modifies this`backends, manager, manager.backends, backendStore
      ensures forall i :: 0 <= i < |manager.backends| ==>
        manager.backends[i] in old(manager.backends) || fresh(manager.backends[i])
      ensures Sound() && Names(backends) == old(Names(backends))
      ensures r.Pass? ==> InForce(cfg) && OnlyTouches(cfg.name)
      ensures r.Fail? ==> backends == old(backends) && manager.byName == old(manager.byName)
      ensures r.Fail? ==> forall n :: n in old(manager.byName) ==> unchanged(manager.byName[n])
      ensures r.Fail? && backendStore != null && (cfg.name !in old(Names(backends)) || !committed) ==>
        backendStore.rows == old(backendStore.rows)
      ensures r.Pass? <==>
        cfg.name in old(Names(backends)) && Parses(parses, cfg.url) && (backendStore != null ==> committed)
    {
      hide Names, Manager.Agree, BackendStore.ActiveNames, InForce, BackendStore.RowOf;
      var existing := BackendByName(cfg.name);
      if existing.None? {
        return Fail("backend not found");
      }
      KnownMore(catalog, manager.byName.Keys, cfg.name);
      ghost var names := Names(backends);
      assert names + {cfg.name} == names;
      if backendStore != null { BackendStore.UpsertActive(backendStore.rows, cfg); }
      r := SaveBackend(cfg, parses, committed);
    }

    method ModelsReferencingBackend(backendName: string) returns (out: seq<string>)
      ensures out == SortedOf(Referring(catalog, backendName))
    {
      hide Refers, SortedOf, Ascending;
      var names: set<string> := {};
      var rest := catalog.Keys;
      while rest != {}
        invariant rest <= catalog.Keys
        invariant names == set n | n in catalog && n !in rest && Refers(catalog[n].backends, backendName)
        decreases |rest|
      {
        var modelName :| modelName in rest;
        rest := rest - {modelName};
        var found := FindRef(catalog[modelName].backends, backendName);
        if found {
          names := names + {modelName};
        }
      }
      assert names == Referring(catalog, backendName);
      out := SortedStrings(names);
    }

    /**
     The confirmed removal: refused while a model of the dashboard's catalog refers to the backend.  For
     the catalog that requests are routed by, `routed`, that is enough exactly if no model of it refers to
     the backend either.
     */
    method RemoveBackend(name: string, committed: bool, ghost routed: Catalog) returns (r: Outcome)
      requires Valid() && NamesAgree() && Resolver.Known(catalog, manager.byName.Keys) && resolver.Serves(routed)
      modifies this`backends, manager, backendStore
      ensures forall i :: 0 <= i < |manager.backends| ==>
        manager.backends[i] in old(manager.backends) || fresh(manager.backends[i])
      ensures Valid() && NamesAgree() && Resolver.Known(catalog, manager.byName.Keys) && resolver.Serves(routed)
      ensures old(Sound()) ==> Sound()
      ensures r.Pass? <==>
        old(Referring(catalog, name)) == {} && name in old(Names(backends)) && (backendStore != null ==> committed)
      ensures r.Fail? ==> Names(backends) == old(Names(backends))
      ensures r.Pass? ==> Names(backends) == old(Names(backends)) - {name}
      ensures r.Pass? ==> manager.byName == old(manager.byName) - {name}
      ensures r.Pass? && backendStore != null ==> backendStore.rows == old(backendStore.rows) - {name} && ReadBack()
      ensures r.Pass? && backendStore == null ==> backends == Without(old(backends), name)
      ensures r.Pass? && Resolver.Known(routed, old(manager.byName.Keys)) ==>
        (Resolver.Known(routed, manager.byName.Keys) <==> Referring(routed, name) == {})
    {
      hide Names, Without, Referring, SortedOf, Ascending, Manager.Agree, BackendStore.ActiveNames, Resolver.Known;
      hide Manager.Without, BackendStore.ReadFrom;
      var blockingModels := ModelsReferencingBackend(name);
      NothingListed(blockingModels, Referring(catalog, name));
      KnownWithout(catalog, manager.byName.Keys, name);
      if Resolver.Known(routed, manager.byName.Keys) { KnownWithout(routed, manager.byName.Keys, name); }
      if |blockingModels| > 0 {
        return Fail("reassign these models first");
      }
      if backendStore != null {
        BackendStore.RemoveActive(backendStore.rows, name);
        r := backendStore.RemoveBackend(name, committed);
        if r.Fail? {
          NotActive(old(backendStore.rows), name);
          return;
        }
      }
      r := manager.RemoveBackend(name);
      if r.Fail? {
        return;
      }
      WithoutNames(backends, name);
      RemoveBackendFromConfig(name);
      ReloadBackendsFromStoreIfAvailable();
    }

    // -------------------------------------------------------------------
    // Models
    // -------------------------------------------------------------------

    method CreateModel(modelName: string, entry: ModelEntry) returns (r: Outcome)
      modifies this`catalog
      ensures r.Pass? <==> modelName !in old(catalog)
      ensures catalog == if r.Pass? then old(catalog)[modelName := entry] else old(catalog)
    {
      if modelName in catalog {
        return Fail("model already exists");
      }
      catalog := catalog[modelName := entry];
      return Pass;
    }

    method UpdateModel(modelName: string, entry: ModelEntry) returns (r: Outcome)
      modifies this`catalog
      ensures r.Pass? <==> modelName in old(catalog)
      ensures catalog == if r.Pass? then old(catalog)[modelName := entry] else old(catalog)
    {
      if modelName !in catalog {
        return Fail("model not found");
      }
      catalog := catalog[modelName := entry];
      return Pass;
    }

    /** A price of nothing is no entry. */
    method SetModelPricing(modelName: string, price: ModelPricing)
      modifies this`pricing
      ensures pricing == Priced(old(pricing), modelName, price)
      ensures HasPrice(pricing, modelName, price)
      ensures pricing - {modelName} == old(pricing) - {modelName}
    {
      if price.inputCostPer1M == 0.0 && price.outputCostPer1M == 0.0 {
        pricing := pricing - {modelName};
        return;
      }
      pricing := pricing[modelName := price];
    }

    /** Removes a model with its price, and takes it out of all users' lists. */
    method DeleteModel(modelName: string, failing: set<string>) returns (r: Outcome)
      modifies this`catalog, this`pricing, authStore
      ensures r.Pass? <==> modelName in old(catalog) && Cleanable(old(authStore.users), modelName, failing)
      ensures catalog == old(catalog) - {modelName}
      ensures pricing == if modelName in old(catalog) then old(pricing) - {modelName} else old(pricing)
      ensures authStore.users.Keys == old(authStore.users).Keys
      ensures modelName !in old(catalog) ==> authStore.users == old(authStore.users)
      ensures r.Pass? ==> forall u :: u in authStore.users ==>
        authStore.users[u] == Access.Cleaned(old(authStore.users)[u], modelName)
    {
      hide Access.Cleaned;
      if modelName !in catalog {
        assert catalog - {modelName} == catalog;
        return Fail("model not found");
      }
      catalog := catalog - {modelName};
      pricing := pricing - {modelName};
      ghost var done;
      r, done := Access.CleanUsers(authStore, modelName, failing);
    }

    method ReloadModelRuntimeFromStore()
      modifies this`catalog, this`pricing, resolver
      ensures catalog == if modelStore == null then old(catalog) else CatalogStore.Loaded(modelStore.State())
      ensures pricing == if modelStore == null then old(pricing) else modelStore.modelPricing
      ensures resolver.Serves(catalog)
    {
      if modelStore != null {
        catalog := modelStore.LoadActiveCatalog();
        pricing := modelStore.modelPricing;
      }
      resolver.RefreshCatalog(catalog);
    }

    /** The prices after a step that has gone through: a table keeps only those of models it knows. */
    ghost function PricesKept(prices: Pricing): Pricing
      reads modelStore
    {
      if modelStore == null then prices else CatalogStore.PricesOf(modelStore.models, prices)
    }

    /**
     What follows a save of a model in memory: model and prices are persisted, and routing, catalog and
     prices are read back.
     */
    method PersistSave(modelName: string, weights: string, committed: bool, priced: bool, ghost was: Catalog)
      returns (r: Outcome)
      requires Valid() && NamesAgree() && modelName in catalog && modelName != "" && TrimSpace(modelName) == modelName
      requires Formats.ParsedRefs(weights, Names(backends)) == Ok(catalog[modelName].backends)
      requires catalog == was[modelName := catalog[modelName]] && Resolver.Known(was, manager.byName.Keys)
      requires catalog[modelName].name != "" && TrimSpace(catalog[modelName].name) == catalog[modelName].name
      requires modelStore != null ==> CatalogStore.Loaded(modelStore.State()) == was
      modifies this`catalog, this`pricing, resolver, modelStore
      ensures r.Pass? <==> modelStore == null || (committed && priced)
      ensures r.Fail? ==> catalog == old(catalog) && pricing == old(pricing) && unchanged(resolver)
      ensures r.Fail? && !committed ==> modelStore.State() == old(modelStore.State())
      ensures r.Pass? ==> Sound() && pricing == PricesKept(old(pricing))
      ensures r.Pass? ==> SavedAs(was, catalog, modelName, old(catalog)[modelName])
      ensures r.Pass? ==>
        forall price :: HasPrice(pricing, modelName, price) <==> HasPrice(old(pricing), modelName, price)
    {
      hide TrimSpace, Names, Manager.Agree, Formats.ParsedRefs, Resolver.Known, Normalize.Has;
      hide CatalogStore.Loaded, CatalogStore.WithModel, CatalogStore.PricesOf, HasPrice;
      ParsedRefsAreKnown(weights, Names(backends));
      KnownWith(was, manager.byName.Keys, modelName, catalog[modelName]);
      if modelStore != null {
        var entry := catalog[modelName];
        SavedEntry(modelStore.State(), modelName, entry, weights, Names(backends));
        KnownWith(was, manager.byName.Keys, modelName, CatalogStore.Loaded(
          CatalogStore.WithModel(modelStore.State(), modelName, entry))[modelName]);
        r := modelStore.UpsertModel(modelName, entry, committed);
        if r.Fail? {
          return;
        }
        r := modelStore.ReplaceModelPricing(pricing, priced);
        if r.Fail? {
          return;
        }
        LoadedIsKnown(modelStore.State(), modelName);
        PriceStays(modelStore.models, pricing, modelName);
      }
      ReloadModelRuntimeFromStore();
      r := Pass;
    }

    /** The form is accepted: a name, references to configured backends, prices, and the right action for the name. */
    ghost predicate Accepts(create: bool, name: string, weights: string, prices: Result<ModelPricing>)
      reads this
    {
      && TrimSpace(name) != "" && Formats.ParsedRefs(weights, Names(backends)).Ok? && prices.Ok?
      && (create <==> TrimSpace(name) !in catalog)
    }

    /** The entry that the form asks for. */
    ghost function FormEntry(name: string, display: string, weights: string): ModelEntry
      reads this
      requires Formats.ParsedRefs(weights, Names(backends)).Ok?
    {
      ModelEntry(if TrimSpace(display) == "" then TrimSpace(name) else TrimSpace(display),
                 Formats.ParsedRefs(weights, Names(backends)).value)
    }

    /**
     Creates or updates a model from the form: the references are parsed against the configured
     backends; the model and its price are saved, the users' lists changed, everything persisted and
     routed.  A refused form changes nothing.  When a later step fails, catalog and prices have changed
     in memory, and requests are routed as before.
     */
    method SaveModel(create: bool, name: string, display: string, weights: string, prices: Result<ModelPricing>,
                     limit: bool, selected: set<string>, failing: set<string>, committed: bool, priced: bool)
      returns (r: Outcome)
      requires Sound()
      modifies this`catalog, this`pricing, resolver, modelStore, authStore
      ensures Valid() && NamesAgree() && Resolver.Known(catalog, manager.byName.Keys)
      ensures r.Pass? <==> old(Accepts(create, name, weights, prices)) && failing !! old(authStore.users.Keys)
                           && (modelStore != null ==> committed && priced)
      ensures !old(Accepts(create, name, weights, prices)) ==>
        Sound() && catalog == old(catalog) && pricing == old(pricing) && authStore.users == old(authStore.users)
      ensures r.Fail? && old(Accepts(create, name, weights, prices)) ==>
        && catalog == old(catalog[TrimSpace(name) := FormEntry(name, display, weights)])
        && pricing == Priced(old(pricing), TrimSpace(name), prices.value)
      ensures r.Pass? ==> TrimSpace(name) != "" && (create <==> TrimSpace(name) !in old(catalog))
      ensures r.Pass? && TrimSpace(display) != "" ==> ShownAs(catalog, TrimSpace(name), TrimSpace(display))
      ensures r.Pass? && TrimSpace(display) == "" ==> ShownAs(catalog, TrimSpace(name), TrimSpace(name))
      ensures r.Pass? ==> prices.Ok? && HasPrice(pricing, TrimSpace(name), prices.value)
      ensures r.Fail? ==> unchanged(resolver)
      ensures r.Fail? && !committed && modelStore != null ==> modelStore.State() == old(modelStore.State())
      ensures r.Pass? ==>
        Sound() && SavedAs(old(catalog), catalog, TrimSpace(name), old(FormEntry(name, display, weights)))
      ensures r.Pass? ==> pricing == PricesKept(Priced(old(pricing), TrimSpace(name), prices.value))
      ensures authStore.users.Keys == old(authStore.users).Keys
      ensures r.Pass? ==> forall u :: u in authStore.users ==>
        Access.Applied(old(authStore.users)[u], authStore.users[u], TrimSpace(name), !limit || u in selected)
    {
      hide TrimSpace, Names, Manager.Agree, Formats.ParsedRefs, Resolver.Known, Normalize.Has;
      hide CatalogStore.Loaded, CatalogStore.PricesOf, Access.Applied;
      TrimTwice(name);
      TrimTwice(display);
      var modelName := TrimSpace(name);
      if modelName == "" {
        return Fail("Model name is required.");
      }
      var refs := Formats.ParseModelBackendRefs(weights, backends);
      if refs.Err? {
        return Fail(refs.message);
      }
      var entry := ModelEntry(TrimSpace(display), refs.value);
      if entry.name == "" {
        entry := entry.(name := modelName);
      }
      if prices.Err? {
        return Fail(prices.message);
      }
      ParsedRefsAreKnown(weights, Names(backends));
      KnownWith(catalog, manager.byName.Keys, modelName, entry);
      if create {
        r := CreateModel(modelName, entry);
      } else {
        r := UpdateModel(modelName, entry);
      }
      if r.Fail? {
        return;
      }
      SetModelPricing(modelName, prices.value);
      ghost var done;
      r, done := Access.ApplyModelAccess(authStore, modelName, limit, selected, failing);
      if r.Fail? {
        return;
      }
      r := PersistSave(modelName, weights, committed, priced, old(catalog));
    }

    /**
     Deletes a model with its price and its place in the users' lists; the deletion is persisted and
     routed.  When a step fails on the way, the model is gone in memory and requests are routed as before.
     */
    method RemoveModel(name: string, failing: set<string>, committed: bool, priced: bool) returns (r: Outcome)
      requires Sound()
      modifies this`catalog, this`pricing, resolver, modelStore, authStore
      ensures Valid() && NamesAgree() && Resolver.Known(catalog, manager.byName.Keys)
      ensures r.Pass? <==> TrimSpace(name) != "" && TrimSpace(name) in old(catalog)
                           && Cleanable(old(authStore.users), TrimSpace(name), failing)
                           && (modelStore != null ==> committed && priced)
      ensures catalog == if TrimSpace(name) == "" then old(catalog) else old(catalog) - {TrimSpace(name)}
      ensures catalog == old(catalog) ==> Sound() && pricing == old(pricing) && authStore.users == old(authStore.users)
      ensures r.Fail? ==> unchanged(resolver)
      ensures r.Fail? && !committed && modelStore != null ==> modelStore.State() == old(modelStore.State())
      ensures r.Pass? ==> Sound() && pricing == PricesKept(old(pricing) - {TrimSpace(name)})
      ensures authStore.users.Keys == old(authStore.users).Keys
      ensures r.Pass? ==> forall u :: u in authStore.users ==>
        authStore.users[u] == Access.Cleaned(old(authStore.users)[u], TrimSpace(name))
    {
      hide TrimSpace, Names, Manager.Agree, Resolver.Known, Access.Cleaned;
      hide CatalogStore.Loaded, CatalogStore.WithoutModel, CatalogStore.PricesOf;
      KnownLess(catalog, manager.byName.Keys, TrimSpace(name));
      TrimTwice(name);
      var modelName := TrimSpace(name);
      if modelName == "" {
        return Fail("Model name is required.");
      }
      r := DeleteModel(modelName, failing);
      if r.Fail? {
        return;
      }
      if modelStore != null {
        LoadedIsKnown(modelStore.State(), modelName);
        CatalogStore.DeactivateThenLoad(modelStore.State(), modelName);
        r := modelStore.DeactivateModel(modelName, committed);
        if r.Fail? {
          return;
        }
        r := modelStore.ReplaceModelPricing(pricing, priced);
        if r.Fail? {
          return;
        }
      }
      ReloadModelRuntimeFromStore();
      r := Pass;
    }

    /** In a sound state no request ends in the internal error. */
    method Route(requested: string, o: Registry.UserOverrides) returns (r: Resolver.Routing)
      requires Sound()
      ensures r.Refused? <==> Registry.Resolve(requested, Registry.RegistryOf(catalog), o).Refused?
      ensures r.Refused? ==>
        r.error == Registry.Resolve(requested, Registry.RegistryOf(catalog), o).error != Registry.NoPool
    {
      hide Registry.Accessible, Registry.Target, Registry.Lists;
      if Registry.Resolve(requested, Registry.RegistryOf(catalog), o).Resolved? {
        Resolver.RoutesCatalogEntry(catalog, requested, o, manager.byName.Keys);
      }
      r := resolver.Resolve(requested, o);
    }
  }

  /** A request to the dashboard's administration pages. */
  datatype Request =
    | CreateBackend(cfg: Backend)
    | UpdateBackend(cfg: Backend)
    | RemoveBackend(name: string)
    | SaveModel(create: bool, model: string, display: string, weights: string, prices: Result<ModelPricing>,
                limit: bool, selected: set<string>)
    | RemoveModel(model: string)

  /** What requests are judged by: the names of the backends and the catalog. */
  datatype View = View(names: set<string>, catalog: Catalog)

  /** Whether the request succeeds, and what it leaves behind. */
  ghost predicate Answers(request: Request, was: View, now: View, ok: bool) {
    if request.CreateBackend? then
      && (ok <==> request.cfg.name !in was.names)
      && now == was.(names := if ok then was.names + {request.cfg.name} else was.names)
    else if request.UpdateBackend? then
      (ok <==> request.cfg.name in was.names) && now == was
    else if request.RemoveBackend? then
      && (ok <==> request.name in was.names && Referring(was.catalog, request.name) == {})
      && now == was.(names := if ok then was.names - {request.name} else was.names)
    else
      var model := TrimSpace(request.model);
      && now.names == was.names && (!ok ==> now == was)
      && if request.RemoveModel? then
           (ok <==> model != "" && model in was.catalog) && (ok ==> now.catalog == was.catalog - {model})
         else
           && (ok <==> model != "" && request.prices.Ok? && (request.create <==> model !in was.catalog)
                       && Formats.ParsedRefs(request.weights, was.names).Ok?)
           && (ok ==> SavedAs(was.catalog, now.catalog, model, ModelEntry(
                 if TrimSpace(request.display) == "" then model else TrimSpace(request.display),
                 Formats.ParsedRefs(request.weights, was.names).value)))
  }

  /** One request; a backend that it creates or changes is in force afterwards, and no other has changed. */
  method Serve(h: Handler, request: Request, parses: UrlParser) returns (r: Outcome)
    requires h.Sound()
    requires request.CreateBackend? || request.UpdateBackend? ==> Parses(parses, request.cfg.url)
    modifies h`backends, h`catalog, h`pricing, h.manager, h.manager.backends, h.resolver
    modifies h.backendStore, h.modelStore, h.authStore
    ensures h.Sound()
    ensures forall j :: 0 <= j < |h.manager.backends| ==>
      h.manager.backends[j] in old(h.manager.backends) || fresh(h.manager.backends[j])
    ensures Answers(request, old(h.Overview()), h.Overview(), r.Pass?)
    ensures (request.CreateBackend? || request.UpdateBackend?) && r.Pass? ==>
      h.InForce(request.cfg) && h.OnlyTouches(request.cfg.name)
  {
    hide Names, Referring, SavedAs, Resolver.Known, Manager.Agree, TrimSpace, Formats.ParsedRefs;
    match request
    case CreateBackend(cfg) => r := h.CreateBackend(cfg, parses, true);
    case UpdateBackend(cfg) => r := h.UpdateBackend(cfg, parses, true);
    case RemoveBackend(name) => r := h.RemoveBackend(name, true, h.catalog);
    case SaveModel(create, model, display, weights, prices, limit, selected) =>
      r := h.SaveModel(create, model, display, weights, prices, limit, selected, {}, true, true);
    case RemoveModel(model) => r := h.RemoveModel(model, {}, true, true);
  }

  /**
   Every run of requests whose URLs parse and whose database writes succeed keeps the state sound, and
   answers each request by the view that the requests before it have left.
   */
  method Administer(h: Handler, requests: seq<Request>, parses: UrlParser)
    returns (outcomes: seq<Outcome>, ghost views: seq<View>)
    requires h.Sound()
    requires forall r :: r in requests && (r.CreateBackend? || r.UpdateBackend?) ==> Parses(parses, r.cfg.url)
    modifies h`backends, h`catalog, h`pricing, h.manager, h.manager.backends, h.resolver
    modifies h.backendStore, h.modelStore, h.authStore
    ensures h.Sound()
    ensures |outcomes| == |requests| && |views| == |requests| + 1
    ensures views[0] == old(h.Overview()) && views[|requests|] == h.Overview()
    ensures forall i :: 0 <= i < |requests| ==> Answers(requests[i], views[i], views[i + 1], outcomes[i].Pass?)
  {
    hide Handler.Sound, Handler.Overview, Answers;
    outcomes, views := [], [h.Overview()];
    for i := 0 to |requests|
      invariant h.Sound()
      invariant forall j :: 0 <= j < |h.manager.backends| ==>
        h.manager.backends[j] in old(h.manager.backends) || fresh(h.manager.backends[j])
      invariant |outcomes| == i && |views| == i + 1 && views[0] == old(h.Overview()) && views[i] == h.Overview()
      invariant forall j :: 0 <= j < i ==> Answers(requests[j], views[j], views[j + 1], outcomes[j].Pass?)
    {
      var r := Serve(h, requests[i], parses);
      outcomes, views := outcomes + [r], views + [h.Overview()];
    }
  }

  lemma NoRows(rows: BackendStore.Rows)
    ensures rows == map[] ==> BackendStore.ActiveNames(rows) == {}
  {
  }

  lemma KnownAmong(catalog: Catalog, names: set<string>, more: set<string>)
    requires Resolver.Known(catalog, names) && names <= more
    ensures Resolver.Known(catalog, more)
  {
  }

  /**
   A reload changes the managed backends behind the dashboard's back.  With a backend table every reference
   of the catalog stays known.  Without one, a reload that fails keeps that too, and one that succeeds keeps
   it exactly if the new configuration names every backend that the catalog refers to.  The dashboard still
   agrees with the manager exactly if the table has rows or the names have not changed.
   */
  method Reload(h: Handler, next: seq<Backend>, parses: UrlParser) returns (r: Outcome)
    requires h.Sound()
    modifies h.manager, h.manager.backends
    ensures h.Valid() && h.InStep()
    ensures forall j :: 0 <= j < |h.manager.backends| ==>
      h.manager.backends[j] in old(h.manager.backends) || fresh(h.manager.backends[j])
    ensures Resolver.Known(h.catalog, h.manager.byName.Keys)
       <==> h.backendStore != null || r.Fail? || Resolver.Known(h.catalog, Names(next))
    ensures r.Pass? ==>
      (h.Sound() <==> (h.backendStore != null && h.backendStore.rows != map[]) || Names(next) == Names(h.backends))
  {
    hide Names, Manager.Agree, Resolver.Known, BackendStore.ActiveNames, CatalogStore.Loaded;
    hide ReloadBackends.OnTarget, ReloadBackends.Targets;
    ghost var names := h.manager.byName.Keys;
    ReloadBackends.TargetKeys(next);
    if h.backendStore != null { NoRows(h.backendStore.rows); }
    r := ReloadBackends.ApplyReloadBackends(h.manager, h.backendStore, next, parses);
    if names <= h.manager.byName.Keys {
      KnownAmong(h.catalog, names, h.manager.byName.Keys);
    }
  }

  /** An accepted edit whose database write fails. */
  method EditUnpersisted(h: Handler, model: string, display: string, weights: string) returns (saved: Outcome)
    requires h.Sound() && h.modelStore != null && model in h.catalog
    requires model != "" && TrimSpace(model) == model && Formats.ParsedRefs(weights, Names(h.backends)).Ok?
    modifies h`catalog, h`pricing, h.resolver, h.modelStore, h.authStore
    ensures saved.Fail? && h.catalog == old(h.catalog[model := h.FormEntry(model, display, weights)])
    ensures h.Valid() && h.NamesAgree() && Resolver.Known(h.catalog, h.manager.byName.Keys)
    ensures h.resolver.Serves(old(h.catalog))
  {
    hide TrimSpace, Names, Formats.ParsedRefs, Resolver.Known, Manager.Agree, CatalogStore.Loaded;
    saved := h.SaveModel(false, model, display, weights, Ok(ModelPricing(0.0, 0.0)), false, {}, {}, false, true);
  }

  /** A model that refers to a backend is in the catalog, and the backend among the known names. */
  lemma ReferringReads(catalog: Catalog, names: set<string>, model: string, backend: string)
    requires Resolver.Known(catalog, names) && Referring(catalog, backend) == {model}
    ensures model in catalog && backend in names
  {
    assert model in Referring(catalog, backend);
    var i :| 0 <= i < |catalog[model].backends| && catalog[model].backends[i].backend == backend;
  }

  lemma MovedAway(catalog: Catalog, model: string, backend: string, entry: ModelEntry)
    requires Referring(catalog, backend) == {model} && !Refers(entry.backends, backend)
    ensures Referring(catalog[model := entry], backend) == {}
  {
    forall n | n in catalog && n != model ensures !Refers(catalog[n].backends, backend) {
      assert n !in Referring(catalog, backend);
    }
  }

  /** The edit that is not persisted, and the removal. */
  method EditAndRemove(h: Handler, model: string, display: string, weights: string, backend: string)
    returns (saved: Outcome, removed: Outcome)
    requires h.Sound() && h.modelStore != null
    requires model != "" && TrimSpace(model) == model && Referring(h.catalog, backend) == {model}
    requires var refs := Formats.ParsedRefs(weights, Names(h.backends)); refs.Ok? && !Refers(refs.value, backend)
    modifies h`backends, h`catalog, h`pricing, h.manager, h.resolver, h.backendStore, h.modelStore, h.authStore
    ensures saved.Fail? && removed.Pass?
    ensures h.resolver.Serves(old(h.catalog)) && h.resolver.manager == h.manager && backend !in h.manager.byName
  {
    ghost var routed := h.catalog;
    hide TrimSpace, Names, Formats.ParsedRefs, Resolver.Known, Referring, Manager.Agree;
    hide CatalogStore.Loaded, BackendStore.ActiveNames, Resolver.Resolver.Serves;
    ReferringReads(h.catalog, h.manager.byName.Keys, model, backend);
    MovedAway(h.catalog, model, backend, h.FormEntry(model, display, weights));
    saved := EditUnpersisted(h, model, display, weights);
    removed := h.RemoveBackend(backend, true, routed);
  }

  /** A request that is resolved to a backend which is not managed ends in the internal error. */
  method RouteToMissing(r: Resolver.Resolver, ghost routed: Catalog, requested: string, o: Registry.UserOverrides,
                        ghost backend: string)
    returns (routing: Resolver.Routing)
    requires r.Serves(routed) && backend !in r.manager.byName
    requires var m := Registry.Resolve(requested, Registry.RegistryOf(routed), o);
      m.Resolved? && backend in m.backends
    ensures routing == Resolver.Refused(Registry.NoPool)
  {
    hide Registry.Resolve, Registry.RegistryOf;
    routing := r.Resolve(requested, o);
  }

  /** A request for a model that refers to the backend is resolved to backends among which it is. */
  lemma StillRouted(catalog: Catalog, requested: string, o: Registry.UserOverrides, backend: string)
    requires var m := Registry.Resolve(requested, Registry.RegistryOf(catalog), o);
      m.Resolved? && m.name in Referring(catalog, backend)
    ensures backend in Registry.Resolve(requested, Registry.RegistryOf(catalog), o).backends
  {
    hide Registry.Accessible, Registry.Target, Registry.Lists;
    var m := Registry.Resolve(requested, Registry.RegistryOf(catalog), o);
    var refs := catalog[m.name].backends;
    var i :| 0 <= i < |refs| && refs[i].backend == backend;
    assert m.backends[i] == backend;
  }

  /**
   Why a model must be persisted and routed before a backend is removed.  From any sound state with a catalog
   table in which exactly one model refers to the backend: an accepted edit takes that reference out of the
   model, but is not persisted; the backend then passes the check for references and is removed; and a request
   that resolves to the model, which is still routed as before, ends in the internal error.
   */
  method UnfinishedEditBreaksRouting(h: Handler, model: string, display: string, weights: string, backend: string,
                                     requested: string, o: Registry.UserOverrides)
    returns (saved: Outcome, removed: Outcome, routing: Resolver.Routing)
    requires h.Sound() && h.modelStore != null
    requires model != "" && TrimSpace(model) == model && Referring(h.catalog, backend) == {model}
    requires var refs := Formats.ParsedRefs(weights, Names(h.backends)); refs.Ok? && !Refers(refs.value, backend)
    requires var m := Registry.Resolve(requested, Registry.RegistryOf(h.catalog), o); m.Resolved? && m.name == model
    modifies h`backends, h`catalog, h`pricing, h.manager, h.resolver, h.backendStore, h.modelStore, h.authStore
    ensures saved.Fail? && removed.Pass? && routing == Resolver.Refused(Registry.NoPool)
  {
    ghost var routed := h.catalog;
    hide TrimSpace, Names, Formats.ParsedRefs, Resolver.Known, Registry.Resolve, Referring, Manager.Agree;
    hide CatalogStore.Loaded, BackendStore.ActiveNames, Resolver.Resolver.Serves;
    StillRouted(routed, requested, o, backend);
    saved, removed := EditAndRemove(h, model, display, weights, backend);
    routing := RouteToMissing(h.resolver, routed, requested, o, backend);
  }

  /** Whenever another backend is configured under a clean name, there is a form text for such an edit. */
  lemma SomeEditAvoids(names: set<string>, backend: string, other: string) returns (weights: string)
    requires other in names && other != backend && Clean(other) && ':' !in other
    ensures var refs := Formats.ParsedRefs(weights, names); refs.Ok? && !Refers(refs.value, backend)
  {
    var refs := [BackendRef(other, 1)];
    weights := Join(Formats.RefItems(refs));
    hide Items, Join, Formats.RefItems, Formats.RefsOf, Clean;
    Formats.PrintedRefsParse(refs, names);
    ItemsOfJoin(Formats.RefItems(refs));
  }
}
