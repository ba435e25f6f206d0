/**
 Resolving a requested model to a catalog entry under a user's rules, and listing the models that a
 user sees.
 */
module Registry {
  import opened Text
  import opened Normalize
  import opened Config

  /** An entry of the registry: the display name and the backends that serve the model. */
  datatype RegistryEntry = RegistryEntry(name: string, backends: seq<string>)

  type ModelRegistry = map<string, RegistryEntry>

  /** A user's rules; an empty allow list allows every model. */
  datatype UserOverrides = UserOverrides(allow: seq<string>, deny: seq<string>, aliases: map<string, string>)

  datatype ResolutionError =
    | NotFound(requested: string)
    | Denied(requested: string)
    | NotAllowed(requested: string, allowed: seq<string>)
    | NoPool
  {
    function StatusCode(): int {
      match this
      case NotFound(_) => 404
      case NoPool => 500
      case _ => 403
    }
  }

  datatype Resolution = Resolved(name: string, backends: seq<string>) | Refused(error: ResolutionError)

  // ---------------------------------------------------------------------
  // Resolution
  // ---------------------------------------------------------------------

  /** Some item of the list is a name of the model. */
  predicate Lists(items: seq<string>, model: string) {
    exists i :: 0 <= i < |items| && NormalizeModelName(items[i]) == model
  }

  /** The catalog key that a request leads to; an alias of the name as written comes first. */
  function Target(requested: string, o: UserOverrides): string {
    var normalized := NormalizeModelName(requested);
    if requested in o.aliases && o.aliases[requested] != "" then NormalizeModelName(o.aliases[requested])
    else if normalized in o.aliases && o.aliases[normalized] != "" then NormalizeModelName(o.aliases[normalized])
    else normalized
  }

  /** What the rules say about a model; a denied model is denied even if it is allowed as well. */
  predicate Accessible(o: UserOverrides, model: string) {
    !Lists(o.deny, model) && (o.allow == [] || Lists(o.allow, model))
  }

  function Resolve(requested: string, registry: ModelRegistry, o: UserOverrides): Resolution {
    var model := Target(requested, o);
    if model !in registry then Refused(NotFound(requested))
    else if Lists(o.deny, model) then Refused(Denied(requested))
    else if !Accessible(o, model) then Refused(NotAllowed(requested, o.allow))
    else Resolved(model, registry[model].backends)
  }

  /** A non-empty alias of the name as it is written comes first, then one of its normal form, then the normal form. */
  lemma TargetMeans(requested: string, o: UserOverrides)
    ensures var exact, n := requested in o.aliases && o.aliases[requested] != "", NormalizeModelName(requested);
      && (exact ==> Target(requested, o) == NormalizeModelName(o.aliases[requested]))
      && (!exact && n in o.aliases && o.aliases[n] != "" ==> Target(requested, o) == NormalizeModelName(o.aliases[n]))
      && (!exact && (n in o.aliases ==> o.aliases[n] == "") ==> Target(requested, o) == n)
  {
    hide NormalizeModelName;
  }

  /** The error is the one that the rules give for the catalog key. */
  predicate RefusedFor(e: ResolutionError, key: string, requested: string, registry: ModelRegistry, o: UserOverrides) {
    && (key !in registry ==> e == NotFound(requested) && e.StatusCode() == 404)
    && (key in registry && Lists(o.deny, key) ==> e == Denied(requested) && e.StatusCode() == 403)
    && (key in registry && !Lists(o.deny, key) ==>
          && o.allow != [] && !Lists(o.allow, key)
          && e == NotAllowed(requested, o.allow) && e.StatusCode() == 403)
  }

  /**
   An unknown model is not found, with status 404; a known one that is denied is denied, with 403; one that
   is neither is refused, with 403, exactly if there is an allow list that does not name it.
   */
  lemma RefusalsAre(requested: string, registry: ModelRegistry, o: UserOverrides)
    ensures var r, key := Resolve(requested, registry, o), Target(requested, o);
      && (r.Refused? <==> key !in registry || Lists(o.deny, key) || (o.allow != [] && !Lists(o.allow, key)))
      && (r.Refused? ==> RefusedFor(r.error, key, requested, registry, o))
      && (r.Resolved? ==> r.name == key && r.backends == registry[key].backends)
  {
    hide NormalizeModelName, Lists;
  }

  method ResolveModel(requested: string, registry: ModelRegistry, o: UserOverrides) returns (r: Resolution)
    ensures r == Resolve(requested, registry, o)
    ensures r.Refused? && r.error.NotFound? <==> Target(requested, o) !in registry
    ensures r.Refused? && r.error.Denied? <==> Target(requested, o) in registry && Lists(o.deny, Target(requested, o))
    ensures r.Refused? && r.error.NotAllowed? <==>
      Target(requested, o) in registry && !Lists(o.deny, Target(requested, o))
      && o.allow != [] && !Lists(o.allow, Target(requested, o))
    ensures r.Refused? ==> RefusedFor(r.error, Target(requested, o), requested, registry, o)
  {
    hide NormalizeModelName;
    var normalizedRequested := NormalizeModelName(requested);
    var resolvedName := normalizedRequested;
    if requested in o.aliases && o.aliases[requested] != "" {
      resolvedName := NormalizeModelName(o.aliases[requested]);
    } else if normalizedRequested in o.aliases && o.aliases[normalizedRequested] != "" {
      resolvedName := NormalizeModelName(o.aliases[normalizedRequested]);
    }
    if resolvedName !in registry {
      return Refused(NotFound(requested));
    }
    var entry := registry[resolvedName];
    for i := 0 to |o.deny|
      invariant forall j :: 0 <= j < i ==> NormalizeModelName(o.deny[j]) != resolvedName
    {
      if NormalizeModelName(o.deny[i]) == resolvedName {
        return Refused(Denied(requested));
      }
    }
    if |o.allow| > 0 {
      for i := 0 to |o.allow|
        invariant forall j :: 0 <= j < i ==> NormalizeModelName(o.allow[j]) != resolvedName
      {
        if NormalizeModelName(o.allow[i]) == resolvedName {
          return Resolved(resolvedName, entry.backends);
        }
      }
      return Refused(NotAllowed(requested, o.allow));
    }
    return Resolved(resolvedName, entry.backends);
  }

  /** The request is taken as it is. */
  predicate NotAliased(requested: string, o: UserOverrides) {
    && (requested in o.aliases ==> o.aliases[requested] == "")
    && (NormalizeModelName(requested) in o.aliases ==> o.aliases[NormalizeModelName(requested)] == "")
  }

  /**
   An aliased request does what a request for the alias target does under the same rules without
   aliases: the same model with the same backends, or a refusal with the same status.
   */
  lemma AliasMeansTarget(requested: string, registry: ModelRegistry, o: UserOverrides, alias: string)
    requires alias in o.aliases && o.aliases[alias] != ""
    requires requested == alias ||
      (NormalizeModelName(requested) == alias && (requested in o.aliases ==> o.aliases[requested] == ""))
    ensures var aliased := Resolve(requested, registry, o);
      var direct := Resolve(o.aliases[alias], registry, o.(aliases := map[]));
      && (aliased.Resolved? <==> direct.Resolved?)
      && (aliased.Resolved? ==> aliased == direct)
      && (aliased.Refused? ==> aliased.error.StatusCode() == direct.error.StatusCode())
  {
    hide NormalizeModelName, Lists;
    var direct := o.(aliases := map[]);
    assert Target(o.aliases[alias], direct) == NormalizeModelName(o.aliases[alias]) == Target(requested, o);
    assert forall model :: Accessible(direct, model) == Accessible(o, model);
  }

  // ---------------------------------------------------------------------
  // Listing
  // ---------------------------------------------------------------------

  /** The normal forms of the items, without the empty one. */
  function NamedSet(items: seq<string>): set<string> {
    set i | 0 <= i < |items| && NormalizeModelName(items[i]) != "" :: NormalizeModelName(items[i])
  }

  lemma NamedSetLists(items: seq<string>)
    ensures forall m :: m in NamedSet(items) <==> m != "" && Lists(items, m)
  {
    hide NormalizeModelName;
  }

  /** The listing shows the model with this key. */
  predicate Visible(registry: ModelRegistry, o: UserOverrides, model: string) {
    && model in registry && model !in NamedSet(o.deny)
    && (NamedSet(o.allow) == {} || model in NamedSet(o.allow))
  }

  ghost function VisibleKeys(registry: ModelRegistry, o: UserOverrides): (r: set<string>)
    ensures r <= registry.Keys
  {
    set k | k in registry && Visible(registry, o, k)
  }

  function DisplayNames(registry: ModelRegistry, keys: seq<string>): seq<string>
    requires forall k :: k in keys ==> k in registry
  {
    seq(|keys|, i requires 0 <= i < |keys| => registry[keys[i]].name)
  }

  lemma NamesOfKeys(registry: ModelRegistry, keys: seq<string>, all: set<string>)
    requires Enumerates(keys, all) && all <= registry.Keys
    ensures |keys| == |all|
    ensures forall k :: k in keys ==> k in registry
    ensures forall d :: d in DisplayNames(registry, keys) <==> exists k :: k in all && registry[k].name == d
  {
    ListedOnce(keys, all);
    assert forall k :: k in keys ==> k in all;
    var names := DisplayNames(registry, keys);
    forall d ensures d in names <==> exists k :: k in all && registry[k].name == d {
      if i :| 0 <= i < |names| && names[i] == d { assert keys[i] in keys && registry[keys[i]].name == d; }
      if k :| k in all && registry[k].name == d {
        assert k in keys;
        var i :| 0 <= i < |keys| && keys[i] == k;
        assert names[i] == d;
      }
    }
  }

  /** The loops that fill the sets of denied and of allowed models. */
  method CollectNames(items: seq<string>) returns (names: set<string>)
    ensures names == NamedSet(items)
  {
    hide NormalizeModelName;
    names := {};
    for i := 0 to |items|
      invariant names == set j | 0 <= j < i && NormalizeModelName(items[j]) != "" :: NormalizeModelName(items[j])
    {
      var n := NormalizeModelName(items[i]);
      if n != "" {
        names := names + {n};
      }
    }
  }

  /** Lists the display name of every visible model once, in some order. */
  method VisibleModelsFor(registry: ModelRegistry, o: UserOverrides)
    returns (visible: seq<string>, ghost keys: seq<string>)
    ensures NoRepeats(keys) && forall k :: k in keys <==> Visible(registry, o, k)
    ensures forall k :: k in keys ==> k in registry
    ensures visible == DisplayNames(registry, keys)
    ensures |visible| == |VisibleKeys(registry, o)|
    ensures forall d :: d in visible <==> exists k :: k in VisibleKeys(registry, o) && registry[k].name == d
  {
    hide NormalizeModelName;
    visible, keys := [], [];
    var denySet := CollectNames(o.deny);
    var allowSet := CollectNames(o.allow);
    var rest := registry.Keys;
    while rest != {}
      invariant rest <= registry.Keys
      invariant NoRepeats(keys) && forall k :: k in keys <==> k !in rest && Visible(registry, o, k)
      invariant |visible| == |keys|
      invariant forall i :: 0 <= i < |keys| ==> keys[i] in registry && visible[i] == registry[keys[i]].name
      decreases |rest|
    {
      var name :| name in rest;
      rest := rest - {name};
      if name in denySet {
        continue;
      }
      if |allowSet| > 0 {
        if name !in allowSet {
          continue;
        }
      }
      visible := visible + [registry[name].name];
      keys := keys + [name];
    }
    assert visible == DisplayNames(registry, keys);
    NamesOfKeys(registry, keys, VisibleKeys(registry, o));
  }

  // ---------------------------------------------------------------------
  // The listing agrees with resolution
  // ---------------------------------------------------------------------

  /** The allow list is empty or names some model. */
  predicate AllowsSomething(o: UserOverrides) {
    o.allow == [] || exists i :: 0 <= i < |o.allow| && NormalizeModelName(o.allow[i]) != ""
  }

  /** A request for the model that no alias redirects is accepted. */
  lemma ResolvedIffAccessible(requested: string, registry: ModelRegistry, o: UserOverrides)
    requires NotAliased(requested, o)
    ensures var model := NormalizeModelName(requested);
      Resolve(requested, registry, o).Resolved? <==> model in registry && Accessible(o, model)
  {
  }

  /** The requests that succeed are those whose normal form is the key of a listed model. */
  ghost predicate ListingAgrees(registry: ModelRegistry, o: UserOverrides) {
    forall requested :: NotAliased(requested, o) ==>
      (Resolve(requested, registry, o).Resolved? <==> Visible(registry, o, NormalizeModelName(requested)))
  }

  lemma VisibleIffAccessible(registry: ModelRegistry, o: UserOverrides, model: string)
    requires "" !in registry
    ensures AllowsSomething(o) ==> (Visible(registry, o, model) <==> model in registry && Accessible(o, model))
    ensures !AllowsSomething(o) ==> (Visible(registry, o, model) <==> model in registry && !Lists(o.deny, model))
    ensures !AllowsSomething(o) && model in registry ==> !Accessible(o, model)
  {
    hide NormalizeModelName;
    NamedSetLists(o.deny);
    NamedSetLists(o.allow);
    if AllowsSomething(o) && o.allow != [] {
      var i :| 0 <= i < |o.allow| && NormalizeModelName(o.allow[i]) != "";
      assert NormalizeModelName(o.allow[i]) in NamedSet(o.allow);
    }
  }

  /**
   Under an allow list that is empty or names a model, a request succeeds exactly if its normal form
   is the key of a listed model.
   */
  lemma ListingAgreesWithResolution(registry: ModelRegistry, o: UserOverrides)
    requires "" !in registry && AllowsSomething(o)
    ensures ListingAgrees(registry, o)
  {
    hide NormalizeModelName, Resolve, Target, NotAliased;
    forall requested | NotAliased(requested, o)
      ensures Resolve(requested, registry, o).Resolved? <==> Visible(registry, o, NormalizeModelName(requested))
    {
      ResolvedIffAccessible(requested, registry, o);
      VisibleIffAccessible(registry, o, NormalizeModelName(requested));
    }
  }

  // ---------------------------------------------------------------------
  // What is listed is not always what can be requested
  // ---------------------------------------------------------------------

  /** Rules and registry under which a listed model is an accessible one. */
  predicate Ordinary(registry: ModelRegistry, o: UserOverrides) {
    "" !in registry && AllowsSomething(o)
  }

  /**
   Requesting a listed model by the name that the listing shows gives that model exactly if the name, as
   the user's aliases have it, normalizes to its key.
   */
  lemma ListedNameResolvesIff(registry: ModelRegistry, o: UserOverrides, key: string)
    requires Ordinary(registry, o) && Visible(registry, o, key)
    ensures Resolve(registry[key].name, registry, o) == Resolved(key, registry[key].backends)
       <==> Target(registry[key].name, o) == key
    ensures NotAliased(registry[key].name, o) ==>
      Target(registry[key].name, o) == NormalizeModelName(registry[key].name)
  {
    hide NormalizeModelName, Visible, Lists;
    VisibleIffAccessible(registry, o, key);
  }

  /** For a model shown by its key, unaliased: the key resolves to itself exactly if normalizing leaves it alone. */
  lemma ListedKeyResolvesIff(registry: ModelRegistry, o: UserOverrides, key: string)
    requires Ordinary(registry, o) && Visible(registry, o, key) && NotAliased(key, o) && registry[key].name == key
    ensures Resolve(key, registry, o) == Resolved(key, registry[key].backends)
       <==> Lower(key) && Trimmed(key) && !HasLatest(key)
  {
    hide NormalizeModelName, Visible, Resolve;
    ListedNameResolvesIff(registry, o, key);
    NormalFormIff(key);
  }

  /** Some user-facing name is an alias for the model. */
  ghost predicate AliasedTo(o: UserOverrides, key: string) {
    exists a :: a in o.aliases && o.aliases[a] != "" && NormalizeModelName(o.aliases[a]) == key
  }

  /** The key has the form of a normalized name, and no alias takes its requests elsewhere. */
  predicate Reachable(o: UserOverrides, key: string) {
    Lower(key) && (key == "" || !IsSpace(key[0])) && (key in o.aliases ==> o.aliases[key] == "")
  }

  /** A request leads to a key by an alias, or as its unaliased normal form. */
  lemma TargetIs(requested: string, o: UserOverrides, key: string)
    requires Target(requested, o) == key
    ensures Reachable(o, key) || AliasedTo(o, key)
  {
    hide NormalizeModelName;
    NormalizedForm(requested);
  }

  /** There is a name that no alias redirects: `key:latest` after enough spaces. */
  lemma UnaliasedName(o: UserOverrides, key: string) returns (requested: string)
    requires Reachable(o, key)
    ensures NotAliased(requested, o) && NormalizeModelName(requested) == key
  {
    var longest := FreshName(o.aliases.Keys);
    requested := Spaces(|longest|) + (key + LATEST);
    LatestReaches(key);
    SpacesNormalize(|longest|, key + LATEST);
    hide NormalizeModelName;
    assert |requested| > |longest|;
  }

  /**
   A listed model can be requested under some name exactly if its key has the form of a normalized
   name that is not aliased away, or some alias leads to it.
   */
  lemma ListedCanBeRequestedIff(registry: ModelRegistry, o: UserOverrides, key: string)
    requires Ordinary(registry, o) && Visible(registry, o, key)
    ensures (exists requested :: Resolve(requested, registry, o) == Resolved(key, registry[key].backends))
       <==> Reachable(o, key) || AliasedTo(o, key)
  {
    hide NormalizeModelName, Visible, Lists;
    VisibleIffAccessible(registry, o, key);
    if requested :| Resolve(requested, registry, o) == Resolved(key, registry[key].backends) {
      TargetIs(requested, o, key);
    }
    if Reachable(o, key) {
      var requested := UnaliasedName(o, key);
      assert Resolve(requested, registry, o) == Resolved(key, registry[key].backends);
    } else if a :| a in o.aliases && o.aliases[a] != "" && NormalizeModelName(o.aliases[a]) == key {
      assert Resolve(a, registry, o) == Resolved(key, registry[key].backends);
    }
  }

  /** The catalog has a model that can be requested and is not denied. */
  predicate SomeOffered(registry: ModelRegistry, o: UserOverrides) {
    exists key :: key in registry && Reachable(o, key) && !Lists(o.deny, key)
  }

  /** The name stands for a model of the catalog that is not denied, and no alias redirects it. */
  predicate OffersTo(registry: ModelRegistry, o: UserOverrides, requested: string) {
    var m := NormalizeModelName(requested);
    NotAliased(requested, o) && m in registry && !Lists(o.deny, m)
  }

  /** Something is on offer exactly if some name stands for it. */
  lemma SomeOfferedIff(registry: ModelRegistry, o: UserOverrides)
    ensures SomeOffered(registry, o) <==> exists requested :: OffersTo(registry, o, requested)
  {
    hide NormalizeModelName, Lists;
    if requested :| OffersTo(registry, o, requested) {
      NormalizedForm(requested);
      assert Reachable(o, NormalizeModelName(requested));
    }
    if key :| key in registry && Reachable(o, key) && !Lists(o.deny, key) {
      var requested := UnaliasedName(o, key);
      assert OffersTo(registry, o, requested);
    }
  }

  /**
   An allow list of blanks only: resolution refuses every model, the listing shows every model that
   is not denied.  So the two agree exactly if the allow list is empty or names a model, or if
   there is nothing to show.
   */
  lemma ListingAgreesIff(registry: ModelRegistry, o: UserOverrides)
    requires "" !in registry
    ensures ListingAgrees(registry, o) <==> AllowsSomething(o) || !SomeOffered(registry, o)
  {
    hide NormalizeModelName, Resolve, Target, NotAliased, AllowsSomething, Visible, Accessible, Lists;
    hide SomeOffered;
    SomeOfferedIff(registry, o);
    if AllowsSomething(o) {
      ListingAgreesWithResolution(registry, o);
    } else {
      forall requested | NotAliased(requested, o)
        ensures var m := NormalizeModelName(requested);
          && !Resolve(requested, registry, o).Resolved?
          && (Visible(registry, o, m) <==> OffersTo(registry, o, requested))
      {
        ResolvedIffAccessible(requested, registry, o);
        VisibleIffAccessible(registry, o, NormalizeModelName(requested));
      }
    }
  }

  /** A listed key of another form is never what a request resolves to, with or without aliases. */
  lemma UnreachableKey(registry: ModelRegistry, o: UserOverrides, key: string, requested: string)
    requires Visible(registry, o, key)
    requires !Lower(key) || (key != "" && IsSpace(key[0]))
    ensures Resolve(requested, registry, o).Resolved? ==> Resolve(requested, registry, o).name != key
  {
    hide NormalizeModelName, Accessible, Lists;
    ReachableIff(key);
  }

  // ---------------------------------------------------------------------
  // From the catalog to the registry
  // ---------------------------------------------------------------------

  function BackendNames(refs: seq<BackendRef>): seq<string> {
    seq(|refs|, i requires 0 <= i < |refs| => refs[i].backend)
  }

  function EntryOf(name: string, mc: ModelEntry): RegistryEntry {
    RegistryEntry(if mc.name == "" then name else mc.name, BackendNames(mc.backends))
  }

  function RegistryOf(catalog: Catalog): ModelRegistry {
    map n | n in catalog :: EntryOf(n, catalog[n])
  }

  /** Every model keeps its key, its display name or else its key as the name, and its backends in their order. */
  lemma RegistryReads(catalog: Catalog)
    ensures RegistryOf(catalog).Keys == catalog.Keys
    ensures forall n :: n in catalog ==>
      var e := RegistryOf(catalog)[n];
      && (catalog[n].name != "" ==> e.name == catalog[n].name) && (catalog[n].name == "" ==> e.name == n)
      && |e.backends| == |catalog[n].backends|
      && forall i :: 0 <= i < |e.backends| ==> e.backends[i] == catalog[n].backends[i].backend
  {
  }

  method BuildRegistryFromCatalog(catalog: Catalog) returns (registry: ModelRegistry)
    ensures registry == RegistryOf(catalog)
  {
    registry := map[];
    var rest := catalog.Keys;
    while rest != {}
      invariant rest <= catalog.Keys
      invariant registry == map n | n in catalog && n !in rest :: EntryOf(n, catalog[n])
      decreases |rest|
    {
      var name :| name in rest;
      rest := rest - {name};
      var mc := catalog[name];
      var backends: seq<string> := [];
      for i := 0 to |mc.backends|
        invariant |backends| == i && forall j :: 0 <= j < i ==> backends[j] == mc.backends[j].backend
      {
        backends := backends + [mc.backends[i].backend];
      }
      assert backends == BackendNames(mc.backends);
      var display := mc.name;
      if display == "" {
        display := name;
      }
      registry := registry[name := RegistryEntry(display, backends)];
    }
  }
}
