/** Who may use a model: the users' allow and deny lists, and the form that limits access to one model. */
module Access {
  import opened Wrappers
  import opened Text
  import opened Normalize
  import Registry

  /** A user's lists; an empty allow list allows every model. */
  datatype UserConfig = UserConfig(modelAllow: seq<string>, modelDeny: seq<string>)

  type Users = map<string, UserConfig>

  /** Some item of the list is the value, up to white space around the item. */
  predicate Contains(items: seq<string>, target: string) {
    exists i :: 0 <= i < |items| && TrimSpace(items[i]) == target
  }

  method ContainsCSVValue(items: seq<string>, target: string) returns (found: bool)
    ensures found <==> Contains(items, target)
  {
    hide TrimSpace;
    for i := 0 to |items|
      invariant forall j :: 0 <= j < i ==> TrimSpace(items[j]) != target
    {
      if TrimSpace(items[i]) == target {
        return true;
      }
    }
    return false;
  }

  /** The items that are not the value. */
  function Removed(items: seq<string>, target: string): seq<string> {
    if items == [] then []
    else Removed(items[..|items|-1], target) + if TrimSpace(items[|items|-1]) == target then [] else [items[|items|-1]]
  }

  /** Removing works item by item, so it keeps the order of what stays. */
  lemma {:induction false} RemovedItemwise(xs: seq<string>, ys: seq<string>, target: string)
    ensures Removed(xs + ys, target) == Removed(xs, target) + Removed(ys, target)
  {
    hide TrimSpace;
    if ys == [] {
      assert xs + ys == xs;
    } else {
      assert (xs + ys)[..|xs + ys|-1] == xs + ys[..|ys|-1];
      RemovedItemwise(xs, ys[..|ys|-1], target);
    }
  }

  lemma RemovedItem(x: string, target: string)
    ensures TrimSpace(x) == target ==> Removed([x], target) == []
    ensures TrimSpace(x) != target ==> Removed([x], target) == [x]
  {
    hide TrimSpace;
    assert [x][..0] == [] && Removed([], target) == [];
  }

  method RemoveCSVValue(items: seq<string>, target: string) returns (filtered: seq<string>)
    ensures filtered == Removed(items, target)
  {
    hide TrimSpace;
    filtered := [];
    for i := 0 to |items|
      invariant filtered == Removed(items[..i], target)
    {
      assert items[..i+1][..i] == items[..i];
      if TrimSpace(items[i]) == target {
        continue;
      }
      filtered := filtered + [items[i]];
    }
    assert items[..|items|] == items;
  }

  lemma ContainsOneMore(items: seq<string>, item: string, target: string)
    ensures Contains(items + [item], target) <==> Contains(items, target) || TrimSpace(item) == target
  {
    hide TrimSpace;
    var more := items + [item];
    if i :| 0 <= i < |items| && TrimSpace(items[i]) == target { assert more[i] == items[i]; }
    if TrimSpace(item) == target { assert more[|items|] == item; }
  }

  lemma NothingContained(other: string)
    ensures !Contains([], other)
  {
  }

  /** Removing a value removes it and nothing else. */
  lemma {:induction false} RemovedContains(items: seq<string>, target: string, other: string)
    ensures Contains(Removed(items, target), other) <==> Contains(items, other) && other != target
  {
    hide TrimSpace, Contains;
    if items == [] {
      NothingContained(other);
    } else {
      var front, last := items[..|items|-1], items[|items|-1];
      RemovedContains(front, target, other);
      ContainsOneMore(front, last, other);
      ContainsOneMore(Removed(front, target), last, other);
      assert front + [last] == items;
      assert Removed(front, target) + [] == Removed(front, target);
    }
  }

  lemma NothingRemoved(target: string)
    ensures Removed([], target) == []
  {
  }

  /** A reordering of a list contains the same values. */
  lemma SortedContains(items: seq<string>, sorted: seq<string>, target: string)
    requires multiset(sorted) == multiset(items)
    ensures Contains(sorted, target) <==> Contains(items, target)
  {
    hide TrimSpace;
    if i :| 0 <= i < |items| && TrimSpace(items[i]) == target {
      assert items[i] in multiset(sorted);
      var j :| 0 <= j < |sorted| && sorted[j] == items[i];
    }
    if i :| 0 <= i < |sorted| && TrimSpace(sorted[i]) == target {
      assert sorted[i] in multiset(items);
      var j :| 0 <= j < |items| && items[j] == sorted[i];
    }
  }

  // ---------------------------------------------------------------------
  // The rule and its update
  // ---------------------------------------------------------------------

  predicate Accessible(uc: UserConfig, model: string) {
    !Contains(uc.modelDeny, model) && (uc.modelAllow == [] || Contains(uc.modelAllow, model))
  }

  method ModelAccessibleForUser(uc: UserConfig, model: string) returns (r: bool)
    ensures r <==> Accessible(uc, model)
    ensures Contains(uc.modelDeny, model) ==> !r
    ensures !Contains(uc.modelDeny, model) && uc.modelAllow == [] ==> r
    ensures !Contains(uc.modelDeny, model) && uc.modelAllow != [] ==> (r <==> Contains(uc.modelAllow, model))
  {
    var denied := ContainsCSVValue(uc.modelDeny, model);
    if denied {
      return false;
    }
    if |uc.modelAllow| == 0 {
      return true;
    }
    r := ContainsCSVValue(uc.modelAllow, model);
  }

  /** A user's lists after the form. */
  function Granted(uc: UserConfig, model: string): UserConfig {
    UserConfig(
      if uc.modelAllow != [] && !Contains(uc.modelAllow, model) then uc.modelAllow + [model] else uc.modelAllow,
      Removed(uc.modelDeny, model))
  }

  function Revoked(uc: UserConfig, model: string): UserConfig {
    UserConfig(
      Removed(uc.modelAllow, model),
      if Contains(uc.modelDeny, model) then uc.modelDeny else uc.modelDeny + [model])
  }

  function Changed(uc: UserConfig, model: string, wanted: bool): UserConfig {
    if wanted then Granted(uc, model) else Revoked(uc, model)
  }

  /** The same lists, perhaps in another order. */
  ghost predicate SameLists(a: UserConfig, b: UserConfig) {
    multiset(a.modelAllow) == multiset(b.modelAllow) && multiset(a.modelDeny) == multiset(b.modelDeny)
  }

  lemma SameListsSameAccess(a: UserConfig, b: UserConfig, model: string)
    requires SameLists(a, b)
    ensures Accessible(a, model) <==> Accessible(b, model)
  {
    hide Contains;
    SortedContains(a.modelAllow, b.modelAllow, model);
    SortedContains(a.modelDeny, b.modelDeny, model);
    assert |multiset(a.modelAllow)| == |a.modelAllow| && |multiset(b.modelAllow)| == |b.modelAllow|;
  }

  /** The whole allow list is this model. */
  ghost predicate OnlyAllows(uc: UserConfig, model: string) {
    uc.modelAllow != [] && Removed(uc.modelAllow, model) == []
  }

  /** The form gives exactly the access it asks for to a model whose name has no white space around it. */
  lemma ChangedMeetsForm(uc: UserConfig, model: string, wanted: bool)
    requires TrimSpace(model) == model
    ensures Accessible(Changed(uc, model, wanted), model) <==> wanted
  {
    hide TrimSpace, Contains, Removed;
    RemovedContains(uc.modelDeny, model, model);
    ContainsOneMore(uc.modelAllow, model, model);
    ContainsOneMore(uc.modelDeny, model, model);
  }

  /** The form works for every user and either choice exactly if the name has no white space around it. */
  lemma ChangedMeetsFormIff(model: string)
    ensures (forall uc, wanted :: Accessible(Changed(uc, model, wanted), model) <==> wanted)
       <==> TrimSpace(model) == model
  {
    if TrimSpace(model) == model {
      forall uc, wanted ensures Accessible(Changed(uc, model, wanted), model) <==> wanted {
        ChangedMeetsForm(uc, model, wanted);
      }
    } else {
      hide TrimSpace;
      var uc := UserConfig([], []);
      assert Removed([], model) == [];
      assert !Accessible(Changed(uc, model, false), model) <==> Contains([] + [model], model);
      NothingContained(model);
      ContainsOneMore([], model, model);
      assert Accessible(Changed(uc, model, false), model);
    }
  }

  /**
   Access to every other model is as before, except when the model was all that the user was
   allowed: then the allow list is empty afterwards, which allows every model that is not denied.
   */
  lemma OtherModelsUnchanged(uc: UserConfig, model: string, wanted: bool, other: string)
    requires other != model && TrimSpace(model) == model
    ensures Accessible(Changed(uc, model, wanted), other) <==>
      Accessible(uc, other) || (!wanted && OnlyAllows(uc, model) && !Contains(uc.modelDeny, other))
  {
    hide TrimSpace, Contains, Removed;
    RemovedContains(uc.modelDeny, model, other);
    RemovedContains(uc.modelAllow, model, other);
    ContainsOneMore(uc.modelAllow, model, other);
    ContainsOneMore(uc.modelDeny, model, other);
    NothingContained(other);
    NothingRemoved(model);
  }

  /** What the form achieves for one user, in whatever order it leaves the lists. */
  lemma FormIsMet(uc: UserConfig, after: UserConfig, model: string, wanted: bool)
    requires SameLists(after, Changed(uc, model, wanted)) && TrimSpace(model) == model
    ensures Accessible(after, model) <==> wanted
    ensures forall other :: other != model ==>
      (Accessible(after, other) <==>
        Accessible(uc, other) || (!wanted && OnlyAllows(uc, model) && !Contains(uc.modelDeny, other)))
  {
    hide Changed, SameLists, Accessible, OnlyAllows, Contains, TrimSpace;
    SameListsSameAccess(after, Changed(uc, model, wanted), model);
    ChangedMeetsForm(uc, model, wanted);
    forall other | other != model
      ensures Accessible(after, other) <==>
        Accessible(uc, other) || (!wanted && OnlyAllows(uc, model) && !Contains(uc.modelDeny, other))
    {
      SameListsSameAccess(after, Changed(uc, model, wanted), other);
      OtherModelsUnchanged(uc, model, wanted, other);
    }
  }

  // ---------------------------------------------------------------------
  // The form and the requests
  // ---------------------------------------------------------------------

  /** The rules that a user's requests are judged by. */
  function RulesOf(uc: UserConfig, aliases: map<string, string>): Registry.UserOverrides {
    Registry.UserOverrides(uc.modelAllow, uc.modelDeny, aliases)
  }

  /** Some item names the model otherwise than by its key: in upper case, say, or with ":latest". */
  predicate OtherSpelling(items: seq<string>, model: string) {
    exists i :: 0 <= i < |items| && NormalizeModelName(items[i]) == model && TrimSpace(items[i]) != model
  }

  /** Requests know a model by every spelling, and by its key exactly if that is a normal form of itself. */
  lemma ListsSplit(items: seq<string>, model: string)
    ensures Registry.Lists(items, model)
       <==> (NormalizeModelName(model) == model && Contains(items, model)) || OtherSpelling(items, model)
  {
    hide NormalizeModelName, TrimSpace;
    forall i | 0 <= i < |items| && TrimSpace(items[i]) == model
      ensures NormalizeModelName(items[i]) == NormalizeModelName(model)
    {
      TrimNormalizes(items[i]);
    }
  }

  lemma OtherSpellingOneMore(items: seq<string>, item: string, model: string)
    ensures OtherSpelling(items + [item], model)
       <==> OtherSpelling(items, model) || (NormalizeModelName(item) == model && TrimSpace(item) != model)
  {
    hide NormalizeModelName, TrimSpace;
    var more := items + [item];
    if i :| 0 <= i < |items| && NormalizeModelName(items[i]) == model && TrimSpace(items[i]) != model {
      assert more[i] == items[i];
    }
    if NormalizeModelName(item) == model && TrimSpace(item) != model { assert more[|items|] == item; }
  }

  /** Removing the key leaves the other spellings. */
  lemma {:induction false} RemovedKeepsSpellings(items: seq<string>, model: string)
    ensures OtherSpelling(Removed(items, model), model) <==> OtherSpelling(items, model)
  {
    hide NormalizeModelName, TrimSpace, OtherSpelling;
    if items == [] {
      NothingRemoved(model);
    } else {
      var front, last := items[..|items|-1], items[|items|-1];
      RemovedKeepsSpellings(front, model);
      OtherSpellingOneMore(front, last, model);
      OtherSpellingOneMore(Removed(front, model), last, model);
      assert front + [last] == items;
      assert Removed(front, model) + [] == Removed(front, model);
    }
  }

  lemma SameItemsList(items: seq<string>, sorted: seq<string>, model: string)
    requires multiset(sorted) == multiset(items)
    ensures Registry.Lists(sorted, model) <==> Registry.Lists(items, model)
  {
    hide NormalizeModelName;
    if i :| 0 <= i < |items| && NormalizeModelName(items[i]) == model {
      assert items[i] in multiset(sorted);
      var j :| 0 <= j < |sorted| && sorted[j] == items[i];
    }
    if i :| 0 <= i < |sorted| && NormalizeModelName(sorted[i]) == model {
      assert sorted[i] in multiset(items);
      var j :| 0 <= j < |items| && items[j] == sorted[i];
    }
  }

  lemma SameListsSameRules(a: UserConfig, b: UserConfig, aliases: map<string, string>, model: string)
    requires SameLists(a, b)
    ensures Registry.Accessible(RulesOf(a, aliases), model) <==> Registry.Accessible(RulesOf(b, aliases), model)
  {
    hide Registry.Lists;
    SameItemsList(a.modelAllow, b.modelAllow, model);
    SameItemsList(a.modelDeny, b.modelDeny, model);
    assert |multiset(a.modelAllow)| == |a.modelAllow| && |multiset(b.modelAllow)| == |b.modelAllow|;
  }

  /**
   Whether the rules for requests allow a model after the form.  A grant shows if no other spelling of the
   model is denied, and the form's entry names it for requests too, or none is needed.  A revocation fails
   if the form's entry does not name the model for requests and nothing else keeps it from the user.
   */
  predicate ShowsInRequests(uc: UserConfig, model: string, wanted: bool) {
    var stable := NormalizeModelName(model) == model;
    && !OtherSpelling(uc.modelDeny, model)
    && if wanted then stable || uc.modelAllow == [] || OtherSpelling(uc.modelAllow, model)
       else !stable && (Removed(uc.modelAllow, model) == [] || OtherSpelling(uc.modelAllow, model))
  }

  /** After the form, for every key and every user. */
  lemma ChangedRules(uc: UserConfig, model: string, wanted: bool, aliases: map<string, string>)
    ensures Registry.Accessible(RulesOf(Changed(uc, model, wanted), aliases), model)
       <==> ShowsInRequests(uc, model, wanted)
  {
    if NormalizeModelName(model) == model {
      NormalFormIff(model);
      TrimmedStays(model);
    }
    hide NormalizeModelName, TrimSpace, Contains, OtherSpelling, Registry.Lists, Removed;
    var after := Changed(uc, model, wanted);
    ListsSplit(after.modelAllow, model);
    ListsSplit(after.modelDeny, model);
    RemovedKeepsSpellings(uc.modelAllow, model);
    RemovedKeepsSpellings(uc.modelDeny, model);
    OtherSpellingOneMore(uc.modelAllow, model, model);
    OtherSpellingOneMore(uc.modelDeny, model, model);
    RemovedContains(uc.modelAllow, model, model);
    RemovedContains(uc.modelDeny, model, model);
    ContainsOneMore(uc.modelAllow, model, model);
    ContainsOneMore(uc.modelDeny, model, model);
  }

  /** The same for the lists as they are stored, and for requests that no alias redirects. */
  lemma FormDecidesRequests(uc: UserConfig, after: UserConfig, model: string, wanted: bool,
                            aliases: map<string, string>, registry: Registry.ModelRegistry, requested: string)
    requires SameLists(after, Changed(uc, model, wanted)) && model in registry
    requires NormalizeModelName(requested) == model && Registry.NotAliased(requested, RulesOf(after, aliases))
    ensures Registry.Resolve(requested, registry, RulesOf(after, aliases)).Resolved?
       <==> ShowsInRequests(uc, model, wanted)
  {
    hide NormalizeModelName, Registry.Resolve, Registry.Accessible, Registry.NotAliased, Changed, SameLists;
    hide ShowsInRequests, RulesOf;
    Registry.ResolvedIffAccessible(requested, registry, RulesOf(after, aliases));
    SameListsSameRules(after, Changed(uc, model, wanted), aliases, model);
    ChangedRules(uc, model, wanted, aliases);
  }

  /** A key that is no normal form of itself: a user whose allow list names nothing else does not get the model. */
  lemma OnlyOther(model: string)
    requires NormalizeModelName(model) != model
    ensures exists uc: UserConfig :: !OtherSpelling(uc.modelDeny, model)
                      && !Registry.Accessible(RulesOf(Changed(uc, model, true), map[]), model)
  {
    hide NormalizeModelName, TrimSpace;
    var uc := UserConfig([model], []);
    ChangedRules(uc, model, true, map[]);
    assert !OtherSpelling(uc.modelDeny, model) && !OtherSpelling(uc.modelAllow, model);
  }

  /**
   Granting works on requests exactly for the users with no other spelling of the model on their deny list -
   for all of those exactly if the key is a normal form of itself.
   */
  lemma GrantingWorksIff(model: string)
    ensures (forall uc: UserConfig :: Registry.Accessible(RulesOf(Changed(uc, model, true), map[]), model)
                     <==> !OtherSpelling(uc.modelDeny, model))
       <==> NormalizeModelName(model) == model
  {
    hide NormalizeModelName, TrimSpace;
    if NormalizeModelName(model) == model {
      forall uc ensures Registry.Accessible(RulesOf(Changed(uc, model, true), map[]), model)
                   <==> !OtherSpelling(uc.modelDeny, model)
      {
        ChangedRules(uc, model, true, map[]);
      }
    } else {
      OnlyOther(model);
    }
  }

  /** Revoking works on requests for every user exactly if the key is a normal form of itself. */
  lemma RevokingWorksIff(model: string)
    ensures (forall uc: UserConfig :: !Registry.Accessible(RulesOf(Changed(uc, model, false), map[]), model))
       <==> NormalizeModelName(model) == model
  {
    hide NormalizeModelName, TrimSpace;
    if NormalizeModelName(model) == model {
      forall uc ensures !Registry.Accessible(RulesOf(Changed(uc, model, false), map[]), model) {
        ChangedRules(uc, model, false, map[]);
      }
    } else {
      var uc := Changed(UserConfig([], []), model, false);
      NothingRemoved(model);
      NothingContained(model);
      assert uc.modelAllow == [] && uc.modelDeny == [] + [model] == [model];
      assert !Registry.Lists(uc.modelDeny, model);
    }
  }

  // ---------------------------------------------------------------------
  // The users' records
  // ---------------------------------------------------------------------

  /** The users' records; `failing` are the users whose record cannot be written. */
  class AuthStore {
    var users: Users

    constructor (users: Users)
      ensures this.users == users
    {
      this.users := users;
    }

    method UpdateUser(user: string, uc: UserConfig, failing: set<string>) returns (r: Outcome)
      modifies this
      ensures r.Pass? <==> user in old(users) && user !in failing
      ensures users == if r.Pass? then old(users)[user := uc] else old(users)
    {
      if user !in users {
        return Fail("user not found");
      }
      if user in failing {
        return Fail("update user");
      }
      users := users[user := uc];
      return Pass;
    }
  }

  /** sort.Strings on a list, by insertion. */
  method SortStrings(items: seq<string>) returns (sorted: seq<string>)
    ensures multiset(sorted) == multiset(items) && Ascending(sorted)
  {
    hide AtMost;
    sorted := [];
    for i := 0 to |items|
      invariant multiset(sorted) == multiset(items[..i]) && Ascending(sorted)
    {
      InsertKeeps(sorted, items[i]);
      InsertAdds(sorted, items[i]);
      assert items[..i+1] == items[..i] + [items[i]];
      sorted := Insert(sorted, items[i]);
    }
    assert items[..|items|] == items;
  }

  /** The form has been applied to a user: the lists are the changed ones, sorted, and give the access asked for. */
  ghost predicate Applied(was: UserConfig, now: UserConfig, model: string, wanted: bool) {
    && SameLists(now, Changed(was, model, wanted)) && Ascending(now.modelAllow) && Ascending(now.modelDeny)
    && (TrimSpace(model) == model ==> (Accessible(now, model) <==> wanted))
  }

  /** The body of the loop of applyModelAccess for one user. */
  method ChangeLists(given: UserConfig, model: string, allowModel: bool) returns (uc: UserConfig)
    ensures Applied(given, uc, model, allowModel)
  {
    hide TrimSpace, Contains, Removed, Ascending;
    uc := given;
    if allowModel {
      var deny := RemoveCSVValue(uc.modelDeny, model);
      uc := uc.(modelDeny := deny);
      var allowed := ContainsCSVValue(uc.modelAllow, model);
      if |uc.modelAllow| > 0 && !allowed {
        uc := uc.(modelAllow := uc.modelAllow + [model]);
      }
    } else {
      var allow := RemoveCSVValue(uc.modelAllow, model);
      uc := uc.(modelAllow := allow);
      var denied := ContainsCSVValue(uc.modelDeny, model);
      if !denied {
        uc := uc.(modelDeny := uc.modelDeny + [model]);
      }
    }
    var sortedAllow := SortStrings(uc.modelAllow);
    var sortedDeny := SortStrings(uc.modelDeny);
    uc := UserConfig(sortedAllow, sortedDeny);
    if TrimSpace(model) == model { FormIsMet(given, uc, model, allowModel); }
  }

  /**
   Applies the form to all users, in an arbitrary order.  A failing record stops it: the users
   in `done` have been changed and no other.
   */
  method ApplyModelAccess(auth: AuthStore, model: string, limit: bool, selected: set<string>, failing: set<string>)
    returns (r: Outcome, ghost done: set<string>)
    modifies auth
    ensures auth.users.Keys == old(auth.users).Keys && done <= auth.users.Keys
    ensures r.Pass? <==> failing !! auth.users.Keys
    ensures r.Pass? ==> done == auth.users.Keys
    ensures forall u :: u in auth.users ==>
      if u in done then Applied(old(auth.users)[u], auth.users[u], model, !limit || u in selected)
      else auth.users[u] == old(auth.users)[u]
  {
    hide Applied;
    done := {};
    var snapshot := auth.users;
    var rest := auth.users.Keys;
    while rest != {}
      invariant auth.users.Keys == snapshot.Keys && rest <= auth.users.Keys && done == auth.users.Keys - rest
      invariant forall u :: u in done ==> u !in failing
      invariant forall u :: u in auth.users ==>
        if u in done then Applied(snapshot[u], auth.users[u], model, !limit || u in selected)
        else auth.users[u] == snapshot[u]
      decreases |rest|
    {
      var user :| user in rest;
      var allowModel := true;
      if limit {
        allowModel := user in selected;
      }
      var uc := ChangeLists(snapshot[user], model, allowModel);
      r := auth.UpdateUser(user, uc, failing);
      if r.Fail? {
        return;
      }
      rest := rest - {user};
      done := done + {user};
    }
    assert done == auth.users.Keys;
    r := Pass;
  }

  /** A user's lists without a model. */
  function Cleaned(uc: UserConfig, model: string): UserConfig {
    UserConfig(Removed(uc.modelAllow, model), Removed(uc.modelDeny, model))
  }

  /** Of either list, everything but the model stays. */
  lemma CleanedIs(uc: UserConfig, model: string, other: string)
    ensures var c := Cleaned(uc, model);
      && (Contains(c.modelAllow, other) <==> Contains(uc.modelAllow, other) && other != model)
      && (Contains(c.modelDeny, other) <==> Contains(uc.modelDeny, other) && other != model)
  {
    hide Contains, Removed;
    RemovedContains(uc.modelAllow, model, other);
    RemovedContains(uc.modelDeny, model, other);
  }

  lemma {:induction false} RemovedSame(items: seq<string>, target: string)
    ensures |Removed(items, target)| <= |items|
    ensures |Removed(items, target)| == |items| ==> Removed(items, target) == items
  {
    if items == [] {
    } else {
      RemovedSame(items[..|items|-1], target);
    }
  }

  /** The body of the loop that takes a deleted model out of one user's lists. */
  method CleanLists(given: UserConfig, model: string) returns (uc: UserConfig, updated: bool)
    ensures uc == Cleaned(given, model) && (updated <==> uc != given)
  {
    hide Removed;
    uc, updated := given, false;
    RemovedSame(uc.modelAllow, model);
    RemovedSame(uc.modelDeny, model);
    var allow := RemoveCSVValue(uc.modelAllow, model);
    if |allow| != |uc.modelAllow| {
      uc := uc.(modelAllow := allow);
      updated := true;
    }
    var deny := RemoveCSVValue(uc.modelDeny, model);
    if |deny| != |uc.modelDeny| {
      uc := uc.(modelDeny := deny);
      updated := true;
    }
  }

  /**
   Takes a deleted model out of all users' lists, in an arbitrary order; records that do not change are
   not written.  A failing record stops it: the users in `done` have been cleaned and no other.
   */
  method CleanUsers(auth: AuthStore, model: string, failing: set<string>) returns (r: Outcome, ghost done: set<string>)
    modifies auth
    ensures auth.users.Keys == old(auth.users).Keys && done <= auth.users.Keys
    ensures r.Pass? <==>
      forall u :: u in old(auth.users) && Cleaned(old(auth.users)[u], model) != old(auth.users)[u] ==> u !in failing
    ensures r.Pass? ==> done == auth.users.Keys
    ensures forall u :: u in auth.users ==>
      auth.users[u] == if u in done then Cleaned(old(auth.users)[u], model) else old(auth.users)[u]
  {
    hide Cleaned;
    done := {};
    var snapshot := auth.users;
    var rest := auth.users.Keys;
    while rest != {}
      invariant auth.users.Keys == snapshot.Keys && rest <= auth.users.Keys && done == auth.users.Keys - rest
      invariant forall u :: u in done && Cleaned(snapshot[u], model) != snapshot[u] ==> u !in failing
      invariant forall u :: u in auth.users ==>
        auth.users[u] == if u in done then Cleaned(snapshot[u], model) else snapshot[u]
      decreases |rest|
    {
      var user :| user in rest;
      var uc, updated := CleanLists(snapshot[user], model);
      if updated {
        r := auth.UpdateUser(user, uc, failing);
        if r.Fail? {
          return;
        }
      }
      rest := rest - {user};
      done := done + {user};
    }
    assert done == auth.users.Keys;
    r := Pass;
  }
}
