/** What a reload of the configuration does to the managed backends. */
module ReloadBackends {
  import opened Wrappers
  import opened Backends
  import opened Manager
  import Config
  import BackendStore

  /** For each name the last configuration that has it. */
  function Targets(next: seq<Config.Backend>): map<string, Config.Backend> {
    if next == [] then map[]
    else
      var last := next[|next|-1];
      Targets(next[..|next|-1])[last.name := last]
  }

  /** No later configuration has the name of this one. */
  ghost predicate IsLast(next: seq<Config.Backend>, i: int) {
    0 <= i < |next| && forall j :: i < j < |next| ==> next[j].name != next[i].name
  }

  lemma {:induction false} TargetKeys(next: seq<Config.Backend>)
    ensures Targets(next).Keys == Config.Names(next)
    ensures forall n :: n in Targets(next) ==> Targets(next)[n] in next && Targets(next)[n].name == n
  {
    hide Config.Names;
    if next == [] {
      Config.NoNames();
    } else {
      var front, last := next[..|next|-1], next[|next|-1];
      TargetKeys(front);
      Config.NamesLast(front, last);
      assert front + [last] == next;
    }
  }

  lemma {:induction false} LastIsTarget(next: seq<Config.Backend>, i: int)
    requires IsLast(next, i)
    ensures next[i].name in Targets(next) && Targets(next)[next[i].name] == next[i]
  {
    var front := next[..|next|-1];
    if i < |front| {
      assert front[i] == next[i] && next[|front|].name != next[i].name;
      LastIsTarget(front, i);
    }
  }

  lemma TargetNames(next: seq<Config.Backend>)
    ensures Targets(next).Keys == Config.Names(next)
    ensures forall n :: n in Targets(next) ==> Targets(next)[n] in next && Targets(next)[n].name == n
    ensures forall i :: IsLast(next, i) ==> Targets(next)[next[i].name] == next[i]
  {
    hide Targets, Config.Names;
    TargetKeys(next);
    forall i | IsLast(next, i) ensures next[i].name in Targets(next) && Targets(next)[next[i].name] == next[i] {
      LastIsTarget(next, i);
    }
  }

  /** Each target has its configuration, with defaults, and is enabled. */
  ghost predicate OnTarget(index: map<string, Backend>, target: map<string, Config.Backend>)
    reads index.Values
  {
    forall n :: n in target ==> n in index && RunsAs(index[n], target[n])
  }

  lemma NoTarget(index: map<string, Backend>)
    ensures OnTarget(index, map[]) && Targets([]) == map[]
  {
  }

  /** One upsert puts one more target in place and leaves the others. */
  method UpsertTarget(manager: Manager, cfg: Config.Backend, parses: Config.UrlParser,
                      ghost target: map<string, Config.Backend>)
    returns (r: Outcome)
    requires manager.Coherent() && OnTarget(manager.byName, target)
    modifies manager, manager.backends
    ensures manager.Coherent()
    ensures r.Pass? <==> Config.Parses(parses, cfg.url)
    ensures r.Pass? ==> OnTarget(manager.byName, target[cfg.name := cfg])
    ensures manager.byName.Keys == old(manager.byName.Keys) + if r.Pass? then {cfg.name} else {}
    ensures forall b :: b in old(manager.backends) ==>
      b in manager.backends && b.currentWeight == old(b.currentWeight) && b.healthy == old(b.healthy)
    ensures forall b :: b in manager.backends && b !in old(manager.backends) ==> fresh(b) && b.currentWeight == 0
  {
    hide Agree, Backend.Configured, Backend.FollowsHealth, WithDefaults;
    r := manager.UpsertBackend(cfg, parses, set b | b in manager.backends);
  }

  lemma TargetsNext(next: seq<Config.Backend>, i: nat)
    requires i < |next|
    ensures Targets(next[..i+1]) == Targets(next[..i])[next[i].name := next[i]]
  {
    assert next[..i+1][..i] == next[..i];
  }

  /** The first loop: the target names, and an upsert of each configuration. */
  method UpsertAll(manager: Manager, next: seq<Config.Backend>, parses: Config.UrlParser)
    returns (r: Outcome, target: map<string, Config.Backend>)
    requires manager.Coherent()
    modifies manager, manager.backends
    ensures manager.Coherent()
    ensures r.Pass? <==> forall i :: 0 <= i < |next| ==> Config.Parses(parses, next[i].url)
    ensures r.Pass? ==> target == Targets(next) && OnTarget(manager.byName, target)
    ensures r.Pass? ==> manager.byName.Keys == old(manager.byName.Keys) + target.Keys
    ensures old(manager.byName.Keys) <= manager.byName.Keys
    ensures forall b :: b in old(manager.backends) ==>
      b in manager.backends && b.currentWeight == old(b.currentWeight) && b.healthy == old(b.healthy)
    ensures forall b :: b in manager.backends && b !in old(manager.backends) ==> fresh(b) && b.currentWeight == 0
  {
    hide Agree, Backend.Configured, Backend.FollowsHealth, WithDefaults, OnTarget, RunsAs, Targets;
    NoTarget(manager.byName);
    r, target := Pass, map[];
    for i := 0 to |next|
      invariant manager.Coherent() && r == Pass
      invariant target == Targets(next[..i]) && OnTarget(manager.byName, target)
      invariant forall j :: 0 <= j < i ==> Config.Parses(parses, next[j].url)
      invariant manager.byName.Keys == old(manager.byName.Keys) + target.Keys
      invariant forall b :: b in old(manager.backends) ==>
        b in manager.backends && b.currentWeight == old(b.currentWeight) && b.healthy == old(b.healthy)
      invariant forall b :: b in manager.backends && b !in old(manager.backends) ==> fresh(b) && b.currentWeight == 0
    {
      TargetsNext(next, i);
      assert forall j :: 0 <= j < |manager.backends| ==>
        manager.backends[j] in old(manager.backends) || fresh(manager.backends[j]);
      r := UpsertTarget(manager, next[i], parses, target);
      target := target[next[i].name := next[i]];
      if r.Fail? {
        return;
      }
    }
    assert next[..|next|] == next;
  }

  /** The list of a coherent manager has each name of the index once. */
  lemma AgreeNames(bs: seq<Backend>, index: map<string, Backend>)
    requires Agree(bs, index)
    ensures forall i, j :: 0 <= i < j < |bs| ==> bs[i].name != bs[j].name
    ensures forall i :: 0 <= i < |bs| ==> bs[i].name in index
    ensures forall n :: n in index ==> exists i :: 0 <= i < |bs| && bs[i].name == n
  {
    assert forall i :: 0 <= i < |bs| ==> bs[i] in bs;
    forall n | n in index ensures exists i :: 0 <= i < |bs| && bs[i].name == n {
      assert index[n] in bs;
    }
  }

  method RemoveOthers(manager: Manager, target: map<string, Config.Backend>) returns (r: Outcome)
    requires manager.Coherent()
    modifies manager
    ensures manager.Coherent() && r.Pass?
    ensures manager.byName.Keys == old(manager.byName.Keys) * target.Keys
    ensures forall n :: n in manager.byName ==> manager.byName[n] == old(manager.byName)[n]
  {
    hide Agree, Without;
    r := Pass;
    var snapshot := manager.backends;
    ghost var was := manager.byName;
    ghost var removed: set<string> := {};
    AgreeNames(snapshot, was);
    for i := 0 to |snapshot|
      invariant manager.Coherent() && r == Pass && manager.byName == was - removed
      invariant removed <= was.Keys - target.Keys
      invariant forall j :: 0 <= j < i ==> snapshot[j].name in removed || snapshot[j].name in target
      invariant forall j :: i <= j < |snapshot| ==> snapshot[j].name !in removed
    {
      if snapshot[i].name in target {
        continue;
      }
      r := manager.RemoveBackend(snapshot[i].name);
      if r.Fail? {
        return;
      }
      removed := removed + {snapshot[i].name};
    }
  }

  /**
   Brings the managed backends in line with the configuration, unless there is a table of backends with
   rows.  Survivors are the same objects with the same health and scheduling state.  If a URL does not
   parse, the configurations before it have been applied and nothing has been removed.
   */
  method ApplyReloadBackends(manager: Manager, store: BackendStore.Store?, next: seq<Config.Backend>,
                             parses: Config.UrlParser)
    returns (r: Outcome)
    requires manager.Coherent()
    modifies manager, manager.backends
    ensures manager.Coherent()
    ensures store != null && store.rows != map[] ==> r.Pass? && unchanged(manager) && unchanged(old(manager.backends))
    ensures store == null || store.rows == map[] ==>
      && (r.Pass? <==> forall i :: 0 <= i < |next| ==> Config.Parses(parses, next[i].url))
      && (r.Pass? ==> manager.byName.Keys == Targets(next).Keys && OnTarget(manager.byName, Targets(next)))
      && (r.Fail? ==> old(manager.byName.Keys) <= manager.byName.Keys)
    ensures forall b :: b in old(manager.backends) ==>
      && b.currentWeight == old(b.currentWeight) && b.healthy == old(b.healthy)
      && (b.name in manager.byName ==> manager.byName[b.name] == b && b in manager.backends)
    ensures forall b :: b in manager.backends && b !in old(manager.backends) ==>
      fresh(b) && b.currentWeight == 0
  {
    if store != null {
      if store.rows != map[] {
        return Pass;
      }
    }
    var target;
    r, target := UpsertAll(manager, next, parses);
    if r.Fail? {
      return;
    }
    r := RemoveOthers(manager, target);
  }
}
