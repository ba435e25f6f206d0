/**
 The dashboard's text formats: comma-separated lists, alias tables and weighted backend references.
 The parsers' loops are proved to compute functions of the items of the text; what the parsers
 accept comes back unchanged when it is printed and parsed again.
 */
module Formats {
  import opened Wrappers
  import opened Text
  import Config

  // ---------------------------------------------------------------------
  // Lists
  // ---------------------------------------------------------------------

  /** The items without repetitions, in order of first occurrence. */
  function Unique(items: seq<string>): (r: seq<string>)
    ensures forall x :: x in r <==> x in items
    ensures forall i, j :: 0 <= i < j < |r| ==> r[i] != r[j]
  {
    if items == [] then []
    else
      var front, last := Unique(items[..|items|-1]), items[|items|-1];
      assert forall x :: x in items <==> x in items[..|items|-1] || x == last;
      if last in front then front else front + [last]
  }

  lemma {:induction false} UniqueStays(items: seq<string>)
    requires NoRepeats(items)
    ensures Unique(items) == items
  {
    if items == [] {
    } else {
      var front := items[..|items|-1];
      assert NoRepeats(front) by {
        assert forall i :: 0 <= i < |front| ==> front[i] == items[i];
      }
      UniqueStays(front);
      assert items[|items|-1] !in front;
    }
  }

  /** Items come in the order of their first occurrence: more items add to the end of the list. */
  lemma {:induction false} UniqueGrows(items: seq<string>, more: seq<string>)
    ensures Unique(items) <= Unique(items + more)
  {
    if more == [] {
      assert items + more == items;
    } else {
      UniqueGrows(items, more[..|more|-1]);
      assert (items + more)[..|items + more|-1] == items + more[..|more|-1];
    }
  }

  lemma NothingTidy(parts: seq<string>)
    ensures Tidy(parts[..0]) == [] && Tidy([""]) == []
  {
    TidySingle("");
  }

  lemma NothingUnique()
    ensures Unique([]) == []
  {
  }

  lemma UniqueStep(parts: seq<string>, i: nat)
    requires i < |parts|
    ensures var u, item := Unique(Tidy(parts[..i])), TrimSpace(parts[i]);
      Unique(Tidy(parts[..i+1])) == if item == "" || item in u then u else u + [item]
  {
    hide Tidy;
    var items, item := Tidy(parts[..i]), TrimSpace(parts[i]);
    TidyNext(parts, i);
    assert items + [] == items;
    assert (items + [item])[..|items|] == items;
  }

  method SplitCSV(input: string) returns (result: seq<string>)
    ensures result == Unique(Items(input))
  {
    hide Tidy, Unique, TrimSpace, Split;
    var trimmed := TrimSpace(input);
    var parts := Split(trimmed, ',');
    NothingTidy(parts);
    NothingUnique();
    if trimmed == "" {
      SplitEmpty(',');
      return [];
    }
    result := [];
    var seen: set<string> := {};
    for i := 0 to |parts|
      invariant result == Unique(Tidy(parts[..i]))
      invariant forall x :: x in seen <==> x in result
    {
      UniqueStep(parts, i);
      var item := TrimSpace(parts[i]);
      if item == "" {
        continue;
      }
      if item !in seen {
        seen := seen + {item};
        result := result + [item];
      }
    }
    assert parts[..|parts|] == parts;
  }

  /** For every text, printing the parsed list and parsing it again gives the same list. */
  lemma ListRoundTrip(input: string)
    ensures var list := Unique(Items(input)); Unique(Items(Join(list))) == list
  {
    var list := Unique(Items(input));
    ItemsAreClean(input);
    forall i | 0 <= i < |list| ensures Clean(list[i]) { assert list[i] in Items(input); }
    ItemsOfJoin(list);
    UniqueStays(list);
  }

  // ---------------------------------------------------------------------
  // Aliases
  // ---------------------------------------------------------------------

  type Aliases = map<string, string>

  /** One entry alias:model; the model may contain further colons. */
  function AddAlias(aliases: Aliases, item: string): Result<Aliases> {
    match Cut(item, ':')
    case None => Err("alias entry " + item + " must use alias:model format")
    case Some(parts) =>
      var alias, model := TrimSpace(parts.0), TrimSpace(parts.1);
      if alias == "" || model == "" then Err("alias entry " + item + " must include both alias and model")
      else Ok(aliases[alias := model])
  }

  /** All entries, up to the first bad one; a later entry of the same alias wins. */
  function AliasesOf(items: seq<string>): Result<Aliases> {
    if items == [] then Ok(map[])
    else
      match AliasesOf(items[..|items|-1])
      case Err(e) => Err(e)
      case Ok(aliases) => AddAlias(aliases, items[|items|-1])
  }

  lemma AliasesNext(items: seq<string>, item: string)
    ensures var r := AliasesOf(items);
      AliasesOf(items + [item]) == if r.Err? then r else AddAlias(r.value, item)
  {
    assert (items + [item])[..|items|] == items;
  }

  lemma {:induction false} AliasErrorStays(items: seq<string>, more: seq<string>)
    requires AliasesOf(items).Err?
    ensures AliasesOf(items + more) == AliasesOf(items)
  {
    if more == [] {
      assert items + more == items;
    } else {
      var last := |more| - 1;
      AliasErrorStays(items, more[..last]);
      AliasesNext(items + more[..last], more[last]);
      assert items + more == items + more[..last] + [more[last]];
    }
  }

  /** What entry i adds; a bad entry decides the result of the whole list. */
  lemma AliasStep(entries: seq<string>, i: nat, aliases: Aliases)
    requires i < |entries| && AliasesOf(Tidy(entries[..i])) == Ok(aliases)
    ensures var item := TrimSpace(entries[i]);
      var r := if item == "" then Ok(aliases) else AddAlias(aliases, item);
      && AliasesOf(Tidy(entries[..i+1])) == r
      && (r.Err? ==> AliasesOf(Tidy(entries)) == r)
  {
    hide AliasesOf, Tidy, AddAlias;
    TidyNext(entries, i);
    AliasesNext(Tidy(entries[..i]), TrimSpace(entries[i]));
    assert Tidy(entries[..i]) + [] == Tidy(entries[..i]);
    if AliasesOf(Tidy(entries[..i+1])).Err? {
      AliasErrorStays(Tidy(entries[..i+1]), Tidy(entries[i+1..]));
      TidyAppend(entries[..i+1], entries[i+1..]);
      assert entries[..i+1] + entries[i+1..] == entries;
    }
  }

  lemma NoAliases()
    ensures AliasesOf([]) == Ok(map[])
  {
  }

  method ParseAliases(input: string) returns (r: Result<Aliases>)
    ensures r == AliasesOf(Items(input))
  {
    hide AliasesOf, Tidy, Split, Cut, TrimSpace;
    var aliases: Aliases := map[];
    var trimmed := TrimSpace(input);
    var entries := Split(trimmed, ',');
    NothingTidy(entries);
    NoAliases();
    if trimmed == "" {
      SplitEmpty(',');
      return Ok(aliases);
    }
    for i := 0 to |entries|
      invariant AliasesOf(Tidy(entries[..i])) == Ok(aliases)
    {
      AliasStep(entries, i, aliases);
      var item := TrimSpace(entries[i]);
      if item == "" {
        continue;
      }
      var parts := Cut(item, ':');
      if parts.None? {
        return Err("alias entry " + item + " must use alias:model format");
      }
      var alias, model := TrimSpace(parts.value.0), TrimSpace(parts.value.1);
      if alias == "" || model == "" {
        return Err("alias entry " + item + " must include both alias and model");
      }
      aliases := aliases[alias := model];
    }
    assert entries[..|entries|] == entries;
    return Ok(aliases);
  }

  /** An entry without a colon, or without an alias before it or a model after it. */
  predicate BadAlias(item: string) {
    var parts := Cut(item, ':');
    parts.None? || TrimSpace(parts.value.0) == "" || TrimSpace(parts.value.1) == ""
  }

  /** What the parser makes of an entry. */
  predicate StandsFor(item: string, alias: string, model: string) {
    !BadAlias(item) && alias == TrimSpace(Cut(item, ':').value.0) && model == TrimSpace(Cut(item, ':').value.1)
  }

  lemma AliasAdds(aliases: Aliases, item: string)
    ensures AddAlias(aliases, item).Err? <==> BadAlias(item)
    ensures forall alias, model ::
      StandsFor(item, alias, model) ==> AddAlias(aliases, item) == Ok(aliases[alias := model])
  {
    hide TrimSpace;
  }

  /** A text is accepted exactly if it has no bad entry. */
  lemma {:induction false} AliasesFailIff(items: seq<string>)
    ensures AliasesOf(items).Err? <==> exists i :: 0 <= i < |items| && BadAlias(items[i])
  {
    hide AddAlias, BadAlias;
    if items == [] {
    } else {
      var front, last := items[..|items|-1], items[|items|-1];
      AliasesFailIff(front);
      if AliasesOf(front).Ok? { AliasAdds(AliasesOf(front).value, last); }
      assert forall i :: 0 <= i < |front| ==> items[i] == front[i];
    }
  }

  /** The last entry of an alias decides its model. */
  lemma {:induction false} AliasLastWins(items: seq<string>, i: nat, alias: string, model: string)
    requires AliasesOf(items).Ok? && i < |items| && StandsFor(items[i], alias, model)
    requires forall j, m :: i < j < |items| ==> !StandsFor(items[j], alias, m)
    ensures alias in AliasesOf(items).value && AliasesOf(items).value[alias] == model
  {
    hide TrimSpace, Cut;
    var front, last := items[..|items|-1], items[|items|-1];
    AliasAdds(AliasesOf(front).value, last);
    if i < |front| {
      assert forall j :: 0 <= j < |front| ==> items[j] == front[j];
      AliasLastWins(front, i, alias, model);
      var parts := Cut(last, ':').value;
      assert StandsFor(last, TrimSpace(parts.0), TrimSpace(parts.1));
    }
  }

  /** Every alias of the result has an entry. */
  lemma {:induction false} AliasHasEntry(items: seq<string>, alias: string)
    requires AliasesOf(items).Ok? && alias in AliasesOf(items).value
    ensures exists i :: 0 <= i < |items| && StandsFor(items[i], alias, AliasesOf(items).value[alias])
  {
    hide TrimSpace, Cut;
    if items == [] {
    } else {
      var front, last := items[..|items|-1], items[|items|-1];
      AliasAdds(AliasesOf(front).value, last);
      assert forall j :: 0 <= j < |front| ==> items[j] == front[j];
      if StandsFor(last, alias, AliasesOf(items).value[alias]) {
      } else {
        AliasHasEntry(front, alias);
      }
    }
  }

  /** The printed entries of the given aliases, in the given order. */
  function AliasItems(aliases: Aliases, keys: seq<string>): seq<string>
    requires forall i :: 0 <= i < |keys| ==> keys[i] in aliases
  {
    seq(|keys|, i requires 0 <= i < |keys| => keys[i] + ":" + aliases[keys[i]])
  }

  method FormatAliases(aliases: Aliases) returns (text: string)
    ensures text == Join(AliasItems(aliases, SortedOf(aliases.Keys)))
  {
    hide Ascending;
    if |aliases| == 0 {
      NothingListed(SortedOf(aliases.Keys), aliases.Keys);
      return "";
    }
    var sorted := SortedStrings(aliases.Keys);
    assert forall i :: 0 <= i < |sorted| ==> sorted[i] in sorted;
    var items: seq<string> := [];
    for i := 0 to |sorted|
      invariant |items| == i
      invariant forall j :: 0 <= j < i ==> items[j] == sorted[j] + ":" + aliases[sorted[j]]
    {
      items := items + [sorted[i] + ":" + aliases[sorted[i]]];
    }
    assert items == AliasItems(aliases, sorted);
    text := Join(items);
  }

  // ---------------------------------------------------------------------
  // The alias round trip
  // ---------------------------------------------------------------------

  /** What parsed aliases look like. */
  ghost predicate CleanAliases(aliases: Aliases) {
    forall k :: k in aliases ==> Clean(k) && ':' !in k && Clean(aliases[k])
  }

  lemma {:induction false} ParsedAliasesAreClean(items: seq<string>)
    requires AllClean(items) && AliasesOf(items).Ok?
    ensures CleanAliases(AliasesOf(items).value)
  {
    if items == [] {
    } else {
      var item := items[|items|-1];
      var front := items[..|items|-1];
      assert AllClean(front) by { assert forall i :: 0 <= i < |front| ==> front[i] == items[i]; }
      ParsedAliasesAreClean(items[..|items|-1]);
      var parts := Cut(item, ':').value;
      TrimSpaceKeeps(parts.0);
      TrimSpaceKeeps(parts.1);
      assert Clean(item);
    }
  }

  /** A printed alias parses back to itself, whatever colons its model has. */
  lemma AliasItem(aliases: Aliases, alias: string, model: string)
    requires Clean(alias) && ':' !in alias && Clean(model)
    ensures Clean(alias + ":" + model)
    ensures AddAlias(aliases, alias + ":" + model) == Ok(aliases[alias := model])
  {
    var item := alias + ":" + model;
    assert item == alias + [':'] + model;
    CutUnique(alias, model, ':');
    TrimmedStays(alias);
    TrimmedStays(model);
    assert item[0] == alias[0] && item[|item|-1] == model[|model|-1];
  }

  ghost function Among(aliases: Aliases, keys: seq<string>): Aliases {
    map k | k in keys && k in aliases :: aliases[k]
  }

  lemma PrintOneMore(aliases: Aliases, keys: seq<string>, last: string)
    requires last in aliases && forall k :: k in keys ==> k in aliases
    ensures AliasItems(aliases, keys + [last]) == AliasItems(aliases, keys) + [last + ":" + aliases[last]]
    ensures Among(aliases, keys + [last]) == Among(aliases, keys)[last := aliases[last]]
  {
    assert forall k :: k in keys + [last] <==> k in keys || k == last;
  }

  lemma NothingAmong(aliases: Aliases)
    ensures AliasItems(aliases, []) == [] && Among(aliases, []) == map[]
  {
  }

  lemma {:induction false} PrintedAliasesParse(aliases: Aliases, keys: seq<string>)
    requires CleanAliases(aliases) && NoRepeats(keys)
    requires forall k :: k in keys ==> k in aliases
    ensures AllClean(AliasItems(aliases, keys))
    ensures AliasesOf(AliasItems(aliases, keys)) == Ok(Among(aliases, keys))
  {
    hide Clean, AddAlias, AliasesOf, Among, AliasItems;
    if keys == [] {
      NoAliases();
      NothingAmong(aliases);
    } else {
      var front, last := keys[..|keys|-1], keys[|keys|-1];
      assert front + [last] == keys;
      assert NoRepeats(front) by { assert forall i :: 0 <= i < |front| ==> front[i] == keys[i]; }
      PrintedAliasesParse(aliases, front);
      AliasItem(Among(aliases, front), last, aliases[last]);
      PrintOneMore(aliases, front, last);
      AliasesNext(AliasItems(aliases, front), last + ":" + aliases[last]);
    }
  }

  lemma PrintedAliasesParseBack(input: string, keys: seq<string>)
    requires var r := AliasesOf(Items(input)); r.Ok? && Enumerates(keys, r.value.Keys)
    ensures var r := AliasesOf(Items(input)); AliasesOf(Items(Join(AliasItems(r.value, keys)))) == r
  {
    hide Items, AliasesOf, Join;
    var aliases := AliasesOf(Items(input)).value;
    ItemsAreClean(input);
    ParsedAliasesAreClean(Items(input));
    PrintedAliasesParse(aliases, keys);
    ItemsOfJoin(AliasItems(aliases, keys));
    assert Among(aliases, keys) == aliases;
  }

  /** For every accepted text, the printed aliases parse to the same aliases. */
  lemma AliasRoundTrip(input: string, keys: seq<string>)
    ensures var r := AliasesOf(Items(input));
      r.Ok? && Enumerates(keys, r.value.Keys) ==> AliasesOf(Items(Join(AliasItems(r.value, keys)))) == r
  {
    hide Items, AliasesOf, Join;
    if AliasesOf(Items(input)).Ok? && Enumerates(keys, AliasesOf(Items(input)).value.Keys) {
      PrintedAliasesParseBack(input, keys);
    }
  }

  // ---------------------------------------------------------------------
  // Weighted backend references
  // ---------------------------------------------------------------------

  /** One reference backend:weight to a backend of the list, not referred to before. */
  function AddRef(refs: seq<Config.BackendRef>, valid: set<string>, item: string): Result<seq<Config.BackendRef>> {
    match Cut(item, ':')
    case None => Err(item + " must use backend:weight format")
    case Some(pair) =>
      var name, weight := TrimSpace(pair.0), Atoi(TrimSpace(pair.1));
      if name == "" then Err("backend name cannot be empty")
      else if name !in valid then Err("backend " + name + " does not exist")
      else if weight.None? || weight.value <= 0 then Err("weight for backend " + name + " must be a positive integer")
      else if Config.Refers(refs, name) then Err("backend " + name + " is duplicated")
      else Ok(refs + [Config.BackendRef(name, weight.value)])
  }

  function RefsOf(items: seq<string>, valid: set<string>): Result<seq<Config.BackendRef>> {
    if items == [] then Ok([])
    else
      match RefsOf(items[..|items|-1], valid)
      case Err(e) => Err(e)
      case Ok(refs) => AddRef(refs, valid, items[|items|-1])
  }

  /** The references of a text; a text without references is refused. */
  function ParsedRefs(input: string, valid: set<string>): Result<seq<Config.BackendRef>> {
    var r := RefsOf(Items(input), valid);
    if r.Ok? && r.value == [] then Err(NO_REFS) else r
  }

  const NO_REFS := "at least one backend:weight pair is required"

  lemma RefsNext(items: seq<string>, valid: set<string>, item: string)
    ensures var r := RefsOf(items, valid);
      RefsOf(items + [item], valid) == if r.Err? then r else AddRef(r.value, valid, item)
  {
    assert (items + [item])[..|items|] == items;
  }

  lemma {:induction false} RefErrorStays(items: seq<string>, valid: set<string>, more: seq<string>)
    requires RefsOf(items, valid).Err?
    ensures RefsOf(items + more, valid) == RefsOf(items, valid)
  {
    if more == [] {
      assert items + more == items;
    } else {
      var last := |more| - 1;
      RefErrorStays(items, valid, more[..last]);
      RefsNext(items + more[..last], valid, more[last]);
      assert items + more == items + more[..last] + [more[last]];
    }
  }

  /** What part i adds; a bad part decides the result of the whole list. */
  lemma RefStep(parts: seq<string>, valid: set<string>, i: nat, refs: seq<Config.BackendRef>)
    requires i < |parts| && RefsOf(Tidy(parts[..i]), valid) == Ok(refs)
    ensures var item := TrimSpace(parts[i]);
      var r := if item == "" then Ok(refs) else AddRef(refs, valid, item);
      && RefsOf(Tidy(parts[..i+1]), valid) == r
      && (r.Err? ==> RefsOf(Tidy(parts), valid) == r)
  {
    hide RefsOf, Tidy, AddRef;
    TidyNext(parts, i);
    RefsNext(Tidy(parts[..i]), valid, TrimSpace(parts[i]));
    assert Tidy(parts[..i]) + [] == Tidy(parts[..i]);
    if RefsOf(Tidy(parts[..i+1]), valid).Err? {
      RefErrorStays(Tidy(parts[..i+1]), valid, Tidy(parts[i+1..]));
      TidyAppend(parts[..i+1], parts[i+1..]);
      assert parts[..i+1] + parts[i+1..] == parts;
    }
  }

  lemma NoRefs(valid: set<string>)
    ensures RefsOf([], valid) == Ok([])
  {
  }

  method ParseModelBackendRefs(input: string, backends: seq<Config.Backend>)
    returns (r: Result<seq<Config.BackendRef>>)
    ensures r == ParsedRefs(input, Config.Names(backends))
  {
    hide RefsOf, Tidy, Split, Cut, TrimSpace, Atoi;
    var trimmed := TrimSpace(input);
    var parts := Split(trimmed, ',');
    NothingTidy(parts);
    NoRefs(Config.Names(backends));
    if trimmed == "" {
      SplitEmpty(',');
      return Err(NO_REFS);
    }
    var validBackends: set<string> := {};
    for i := 0 to |backends|
      invariant validBackends == set j | 0 <= j < i :: backends[j].name
    {
      validBackends := validBackends + {backends[i].name};
    }
    var refs: seq<Config.BackendRef> := [];
    var seen: set<string> := {};
    for i := 0 to |parts|
      invariant RefsOf(Tidy(parts[..i]), validBackends) == Ok(refs)
      invariant forall x :: x in seen <==> Config.Refers(refs, x)
    {
      RefStep(parts, validBackends, i, refs);
      Config.RefersOneMore(refs);
      var item := TrimSpace(parts[i]);
      if item == "" {
        continue;
      }
      var pair := Cut(item, ':');
      if pair.None? {
        return Err(item + " must use backend:weight format");
      }
      var backendName := TrimSpace(pair.value.0);
      if backendName == "" {
        return Err("backend name cannot be empty");
      }
      if backendName !in validBackends {
        return Err("backend " + backendName + " does not exist");
      }
      var weight := Atoi(TrimSpace(pair.value.1));
      if weight.None? || weight.value <= 0 {
        return Err("weight for backend " + backendName + " must be a positive integer");
      }
      if backendName in seen {
        return Err("backend " + backendName + " is duplicated");
      }
      seen := seen + {backendName};
      refs := refs + [Config.BackendRef(backendName, weight.value)];
    }
    assert parts[..|parts|] == parts;
    if |refs| == 0 {
      return Err(NO_REFS);
    }
    return Ok(refs);
  }

  /** What one item asks for. */
  predicate Asks(item: string, backend: string, weight: int) {
    var pair := Cut(item, ':');
    pair.Some? && backend == TrimSpace(pair.value.0) && Atoi(TrimSpace(pair.value.1)) == Some(weight)
  }

  /** What one more reference does to those before it, and which of the errors a bad one gives. */
  lemma RefAdds(refs: seq<Config.BackendRef>, valid: set<string>, item: string)
    ensures var r, pair := AddRef(refs, valid, item), Cut(item, ':');
      && (pair.None? ==> r == Err(item + " must use backend:weight format"))
      && (pair.Some? ==>
            var name, weight := TrimSpace(pair.value.0), Atoi(TrimSpace(pair.value.1));
            && (name == "" ==> r == Err("backend name cannot be empty"))
            && (name != "" && name !in valid ==> r == Err("backend " + name + " does not exist"))
            && (name != "" && name in valid && (weight.None? || weight.value <= 0) ==>
                  r == Err("weight for backend " + name + " must be a positive integer"))
            && (name != "" && name in valid && weight.Some? && weight.value > 0 && Config.Refers(refs, name) ==>
                  r == Err("backend " + name + " is duplicated"))
            && (name != "" && name in valid && weight.Some? && weight.value > 0 && !Config.Refers(refs, name) ==>
                  r == Ok(refs + [Config.BackendRef(name, weight.value)])))
  {
    hide TrimSpace, Atoi;
  }

  /** References that the items ask for: to different backends of the list, with positive weights. */
  ghost predicate AskedFor(items: seq<string>, valid: set<string>, refs: seq<Config.BackendRef>) {
    && |refs| == |items| && Config.DistinctRefs(refs)
    && forall i :: 0 <= i < |items| ==>
         && Asks(items[i], refs[i].backend, refs[i].weight)
         && refs[i].backend != "" && refs[i].backend in valid && refs[i].weight > 0
  }

  lemma AskedOneMore(items: seq<string>, valid: set<string>, refs: seq<Config.BackendRef>, item: string,
                     ref: Config.BackendRef)
    ensures AskedFor(items + [item], valid, refs + [ref])
       <==> AskedFor(items, valid, refs) && Asks(item, ref.backend, ref.weight) && !Config.Refers(refs, ref.backend)
            && ref.backend != "" && ref.backend in valid && ref.weight > 0
  {
    hide Asks;
    var all, more := items + [item], refs + [ref];
    if |items| == |refs| {
      assert all[|items|] == item && more[|refs|] == ref;
      assert forall i :: 0 <= i < |items| ==> all[i] == items[i] && more[i] == refs[i];
    }
  }

  lemma NothingAsked(valid: set<string>, refs: seq<Config.BackendRef>)
    ensures AskedFor([], valid, refs) <==> refs == []
  {
  }

  lemma NothingFor(items: seq<string>, valid: set<string>)
    requires items != []
    ensures !AskedFor(items, valid, [])
  {
  }

  lemma AddedIsAsked(refs: seq<Config.BackendRef>, valid: set<string>, item: string, more: seq<Config.BackendRef>)
    ensures AddRef(refs, valid, item) == Ok(more) <==>
      more != [] && more[..|more|-1] == refs && var ref := more[|more|-1];
        Asks(item, ref.backend, ref.weight) && !Config.Refers(refs, ref.backend)
        && ref.backend != "" && ref.backend in valid && ref.weight > 0
  {
    hide TrimSpace, Atoi, Config.Refers;
    RefAdds(refs, valid, item);
    if more != [] && more[..|more|-1] == refs { assert more == refs + [more[|more|-1]]; }
  }

  /** The items are accepted as these references exactly if they ask for them, one by one and in order. */
  lemma {:induction false} RefsAcceptedIff(items: seq<string>, valid: set<string>, refs: seq<Config.BackendRef>)
    ensures RefsOf(items, valid) == Ok(refs) <==> AskedFor(items, valid, refs)
  {
    hide AskedFor, AddRef, Asks, RefsOf;
    if items == [] {
      NoRefs(valid);
      NothingAsked(valid, refs);
    } else {
      var front, last := items[..|items|-1], items[|items|-1];
      assert front + [last] == items;
      RefsNext(front, valid, last);
      if refs == [] {
        NothingFor(items, valid);
        if RefsOf(front, valid).Ok? { AddedIsAsked(RefsOf(front, valid).value, valid, last, refs); }
      } else {
        var most, ref := refs[..|refs|-1], refs[|refs|-1];
        assert most + [ref] == refs;
        RefsAcceptedIff(front, valid, most);
        AskedOneMore(front, valid, most, last, ref);
        if RefsOf(front, valid).Ok? { AddedIsAsked(RefsOf(front, valid).value, valid, last, refs); }
      }
    }
  }

  /** How one reference is printed; a weight that is not positive is printed as 1. */
  function RefText(ref: Config.BackendRef): string {
    ref.backend + ":" + Digits(if ref.weight <= 0 then 1 else ref.weight)
  }

  /** The printed references, without those that name no backend. */
  function RefItems(refs: seq<Config.BackendRef>): seq<string> {
    if refs == [] then []
    else
      var last := refs[|refs|-1];
      RefItems(refs[..|refs|-1]) + if last.backend == "" then [] else [RefText(last)]
  }

  method FormatModelBackendRefs(refs: seq<Config.BackendRef>) returns (text: string)
    ensures text == Join(RefItems(refs))
  {
    var parts: seq<string> := [];
    for i := 0 to |refs|
      invariant parts == RefItems(refs[..i])
    {
      assert refs[..i+1][..i] == refs[..i];
      var ref := refs[i];
      if ref.backend == "" {
        continue;
      }
      var weight := ref.weight;
      if weight <= 0 {
        weight := 1;
      }
      parts := parts + [ref.backend + ":" + Digits(weight)];
    }
    assert refs[..|refs|] == refs;
    text := Join(parts);
  }

  /** A text is accepted as these references exactly if there are any and its items ask for them. */
  lemma ParsedRefsIff(input: string, valid: set<string>, refs: seq<Config.BackendRef>)
    ensures ParsedRefs(input, valid) == Ok(refs) <==> refs != [] && AskedFor(Items(input), valid, refs)
  {
    hide Items, RefsOf, AskedFor;
    RefsAcceptedIff(Items(input), valid, refs);
  }

  /** References are printed one by one; one without a backend is left out, and a weight of at least 1 is printed. */
  lemma {:induction false} RefItemsItemwise(refs: seq<Config.BackendRef>, more: seq<Config.BackendRef>)
    ensures RefItems(refs + more) == RefItems(refs) + RefItems(more)
  {
    hide RefText;
    if more == [] {
      assert refs + more == refs;
    } else {
      assert (refs + more)[..|refs + more|-1] == refs + more[..|more|-1];
      RefItemsItemwise(refs, more[..|more|-1]);
    }
  }

  lemma RefItemsOne(ref: Config.BackendRef)
    ensures ref.backend == "" ==> RefItems([ref]) == []
    ensures ref.backend != "" && ref.weight >= 1 ==> RefItems([ref]) == [ref.backend + ":" + Digits(ref.weight)]
    ensures ref.backend != "" && ref.weight < 1 ==> RefItems([ref]) == [ref.backend + ":1"]
  {
    assert [ref][..0] == [];
    assert Digits(1) == "1" && ref.backend + ":" + "1" == ref.backend + ":1";
  }

  // ---------------------------------------------------------------------
  // The round trip of references
  // ---------------------------------------------------------------------

  /** What parsed references look like. */
  ghost predicate CleanRefs(refs: seq<Config.BackendRef>, valid: set<string>) {
    && Config.DistinctRefs(refs)
    && forall i :: 0 <= i < |refs| ==>
         && Clean(refs[i].backend) && ':' !in refs[i].backend && refs[i].backend in valid
         && 1 <= refs[i].weight <= MAX_INT
  }

  lemma NoRefsAreClean(valid: set<string>)
    ensures CleanRefs([], valid)
  {
  }

  lemma CleanIsNotEmpty(item: string)
    requires Clean(item)
    ensures item != ""
  {
  }

  lemma AtoiInRange(s: string)
    ensures Atoi(s).Some? ==> -MAX_INT - 1 <= Atoi(s).value <= MAX_INT
  {
  }

  lemma AddRefIsClean(refs: seq<Config.BackendRef>, valid: set<string>, item: string)
    requires CleanRefs(refs, valid) && Clean(item) && AddRef(refs, valid, item).Ok?
    ensures CleanRefs(AddRef(refs, valid, item).value, valid)
  {
    hide Atoi, TrimSpace, Trimmed;
    var pair := Cut(item, ':').value;
    AtoiInRange(TrimSpace(pair.1));
    TrimSpaceKeeps(pair.0);
    assert Clean(TrimSpace(pair.0));
  }

  lemma {:induction false} ParsedRefsAreClean(items: seq<string>, valid: set<string>)
    requires AllClean(items) && RefsOf(items, valid).Ok?
    ensures CleanRefs(RefsOf(items, valid).value, valid)
  {
    hide AddRef, CleanRefs, Clean;
    if items == [] {
      NoRefsAreClean(valid);
    } else {
      var front, last := items[..|items|-1], items[|items|-1];
      assert AllClean(front) by { assert forall i :: 0 <= i < |front| ==> front[i] == items[i]; }
      ParsedRefsAreClean(front, valid);
      AddRefIsClean(RefsOf(front, valid).value, valid, last);
    }
  }

  /** A printed reference parses back to itself. */
  lemma RefItem(refs: seq<Config.BackendRef>, valid: set<string>, ref: Config.BackendRef)
    requires Clean(ref.backend) && ':' !in ref.backend && ref.backend in valid && 1 <= ref.weight <= MAX_INT
    requires forall i :: 0 <= i < |refs| ==> refs[i].backend != ref.backend
    ensures Clean(RefText(ref)) && AddRef(refs, valid, RefText(ref)) == Ok(refs + [ref])
  {
    hide Atoi, Digits, TrimSpace, Cut;
    var digits := Digits(ref.weight);
    assert RefText(ref) == ref.backend + [':'] + digits;
    CutUnique(ref.backend, digits, ':');
    assert IsDigit(digits[0]) && IsDigit(digits[|digits|-1]);
    TrimmedStays(ref.backend);
    TrimmedStays(digits);
    AtoiOfDigits(ref.weight);
  }

  lemma {:induction false} PrintedRefsParse(refs: seq<Config.BackendRef>, valid: set<string>)
    requires CleanRefs(refs, valid)
    ensures AllClean(RefItems(refs)) && RefsOf(RefItems(refs), valid) == Ok(refs)
  {
    hide Clean, AddRef, RefsOf, RefText;
    if refs == [] {
      NoRefs(valid);
    } else {
      var front, last := refs[..|refs|-1], refs[|refs|-1];
      assert CleanRefs(front, valid) by { assert forall i :: 0 <= i < |front| ==> front[i] == refs[i]; }
      PrintedRefsParse(front, valid);
      RefItem(front, valid, last);
      RefsNext(RefItems(front), valid, RefText(last));
      assert front + [last] == refs;
      CleanIsNotEmpty(last.backend);
    }
  }

  /** For every accepted text, the printed references parse, for the same backends, to the same references. */
  lemma RefsRoundTrip(input: string, valid: set<string>)
    ensures var r := ParsedRefs(input, valid);
      r.Ok? ==> ParsedRefs(Join(RefItems(r.value)), valid) == r
  {
    hide Items, RefsOf, Join;
    if ParsedRefs(input, valid).Ok? {
      var refs := ParsedRefs(input, valid).value;
      ItemsAreClean(input);
      ParsedRefsAreClean(Items(input), valid);
      PrintedRefsParse(refs, valid);
      ItemsOfJoin(RefItems(refs));
    }
  }
}
