/**
 Everything that happens to the backends of a gateway, call by call on the objects: requests build pools and
 select on them later, health checks report, operators act, and backends are added, changed and removed.
 Every sequence of such calls is a run of the world of backends (module World).
 */
module Scheduling {
  import opened Wrappers
  import opened Swrr
  import opened Backends
  import opened Manager
  import Config
  import World

  /**
   A call.  Requests, health checks and handlers hold on to pools and backends: the numbers are those of the
   pools and of the backends ever made, in the order in which they were made.  Configure and Enable are also
   what an upsert does to a managed backend, with other calls in between.
   */
  datatype Call =
    | BuildPool(refs: seq<Config.BackendRef>)
    | BuildDefault
    | SelectOn(pool: nat)
    | ReportHealth(backend: nat, healthy: bool)
    | Enable(backend: nat, enabled: bool)
    | Configure(backend: nat, cfg: Config.Backend)
    | Upsert(cfg: Config.Backend)
    | Remove(name: string)

  /** All backends ever managed and all pools ever built. */
  datatype Held = Held(backends: seq<Backend>, pools: seq<BackendPool>)

  type Events = seq<World.Event<Backend>>

  ghost function All(bs: seq<Backend>): set<Backend> {
    set b | b in bs
  }

  /** The sum of the weights that the references ask for. */
  function WeightSum(refs: seq<Config.BackendRef>): int {
    if refs == [] then 0 else WeightSum(refs[..|refs|-1]) + refs[|refs|-1].weight
  }

  /**
   What is asked of a call: the references of a model have positive weights of sum at most limit, as the
   resolver gives them, and configured weights are at most top.
   */
  predicate Legal(c: Call, limit: nat, top: nat) {
    match c
    case BuildPool(refs) => (forall i :: 0 <= i < |refs| ==> refs[i].weight > 0) && WeightSum(refs) <= limit
    case Configure(_, cfg) => cfg.weight <= top
    case Upsert(cfg) => cfg.weight <= top
    case _ => true
  }

  // ---------------------------------------------------------------------
  // What every call does
  // ---------------------------------------------------------------------

  /** What there is after some calls: what has been made, the backends managed now, and the events so far. */
  datatype Moment = Moment(held: Held, managed: map<string, Backend>, events: Events)

  /** The event of a call on a pool or a backend; one that does not exist has none, nor has a bad URL. */
  ghost predicate Acts(c: Call, h: Held, parses: Config.UrlParser, more: Events) {
    match c
    case SelectOn(j) => more == if j < |h.pools| then [World.Pick(h.pools[j].entries)] else []
    case ReportHealth(k, healthy) => more == if k < |h.backends| then [World.SetHealth(h.backends[k], healthy)] else []
    case Enable(k, enabled) => more == if k < |h.backends| then [World.SetEnabled(h.backends[k], enabled)] else []
    case Configure(k, cfg) =>
      more == if k < |h.backends| && Config.Parses(parses, cfg.url) then [World.UpdateWeight(h.backends[k], cfg.weight)]
             else []
    case _ => false
  }

  /** A pool for a model has its managed backends with the weights of the references. */
  ghost predicate BuiltFrom(es: seq<Entry<Backend>>, refs: seq<Config.BackendRef>, managed: map<string, Backend>) {
    |es| == |refs| && forall i :: 0 <= i < |refs| ==>
      refs[i].backend in managed && es[i] == Entry(managed[refs[i].backend], refs[i].weight)
  }

  /** The default pool has every managed backend once, with its configured weight if that is positive. */
  ghost predicate BuiltFromAll(es: seq<Entry<Backend>>, managed: map<string, Backend>, w: World.World<Backend>) {
    && Distinct(es)
    && (forall n :: n in managed ==> exists i :: 0 <= i < |es| && es[i].backend == managed[n])
    && forall i :: 0 <= i < |es| ==>
         var b := es[i].backend;
         && b in managed.Values && b in w.info
         && (w.info[b].weight > 0 ==> es[i].weight == w.info[b].weight)
         && (w.info[b].weight <= 0 ==> es[i].weight == Config.DEFAULT_MODEL_WEIGHT)
  }

  /** One pool more, unless a reference is to a backend that is not managed. */
  ghost predicate Builds(c: Call, was: Held, now: Held, managed: map<string, Backend>, w: World.World<Backend>) {
    && now.backends == was.backends
    && if c.BuildPool? && exists i :: 0 <= i < |c.refs| && c.refs[i].backend !in managed then now == was
       else
         && |now.pools| == |was.pools| + 1 && now.pools[..|was.pools|] == was.pools
         && var es := now.pools[|was.pools|].entries;
            if c.BuildPool? then BuiltFrom(es, c.refs, managed) else BuiltFromAll(es, managed, w)
  }

  /** A managed backend is updated and switched on, another one is created; a bad URL changes nothing. */
  ghost predicate Upserts(cfg: Config.Backend, was: Moment, now: Moment, parses: Config.UrlParser) {
    var weight := if cfg.weight >= 1 then cfg.weight else Config.DEFAULT_MODEL_WEIGHT;
    if !Config.Parses(parses, cfg.url) then now == was
    else if cfg.name in was.managed then
      var b := was.managed[cfg.name];
      now == was.(events := was.events + [World.UpdateWeight(b, weight), World.SetEnabled(b, true)])
    else
      && cfg.name in now.managed && now.managed[cfg.name].name == cfg.name
      && var b := now.managed[cfg.name];
         now == Moment(was.held.(backends := was.held.backends + [b]), was.managed[cfg.name := b],
                       was.events + [World.Create(b, weight)])
  }

  /** What a call does to all of this. */
  ghost predicate Does(c: Call, was: Moment, now: Moment, parses: Config.UrlParser) {
    if c.Upsert? then Upserts(c.cfg, was, now, parses)
    else if c.Remove? then now == was.(managed := was.managed - {c.name})
    else if c.BuildPool? || c.BuildDefault? then
      && Builds(c, was.held, now.held, was.managed, World.Reached(was.events))
      && now.managed == was.managed && now.events == was.events
    else
      && now.held == was.held && now.managed == was.managed && was.events <= now.events
      && Acts(c, was.held, parses, now.events[|was.events|..])
  }

  // ---------------------------------------------------------------------
  // What every call keeps
  // ---------------------------------------------------------------------

  ghost predicate Capped(w: World.World<Backend>, top: nat) {
    forall b :: b in w.info ==> w.info[b].weight <= top
  }

  /** The pool has positive weights of total at most limit, and its backends are among the given ones. */
  ghost predicate Fits(es: seq<Entry<Backend>>, bs: seq<Backend>, limit: nat) {
    && World.AllPositive(es)
    && (forall i :: 0 <= i < |es| ==> es[i].backend in bs)
    && Total(es, All(bs)) <= limit
  }

  ghost predicate PoolsFit(h: Held, limit: nat) {
    forall j :: 0 <= j < |h.pools| ==> Fits(h.pools[j].entries, h.backends, limit)
  }

  /** The state of the backends is the one that the run leads to. */
  ghost predicate Recorded(bs: seq<Backend>, evs: Events, limit: nat, top: nat)
    reads bs
  {
    Snapshot(All(bs)) == World.Reached(evs) && World.Run(evs, limit) && Capped(World.Reached(evs), top)
  }

  ghost predicate Owned(m: Manager, bs: seq<Backend>)
    reads m
  {
    m.Coherent() && forall i :: 0 <= i < |m.backends| ==> m.backends[i] in bs
  }

  ghost predicate Consistent(m: Manager, h: Held, evs: Events, limit: nat, top: nat)
    reads m, h.backends
  {
    Owned(m, h.backends) && PoolsFit(h, limit) && Recorded(h.backends, evs, limit, top)
  }

  /** One more fair event, with a weight of at most top if it sets one. */
  lemma RunGoesOnCapped(evs: Events, e: World.Event<Backend>, limit: nat, top: nat)
    requires World.Run(evs, limit) && World.Fair(World.Reached(evs), e, limit) && Capped(World.Reached(evs), top)
    requires e.Create? || e.UpdateWeight? ==> e.weight <= top
    ensures World.Run(evs + [e], limit) && World.Reached(evs + [e]) == World.Step(World.Reached(evs), e)
    ensures Capped(World.Reached(evs + [e]), top)
  {
    hide World.Run, World.Reached, Swrr.Select;
    World.RunGoesOn(evs, e, limit);
  }

  // ---------------------------------------------------------------------
  // Pools
  // ---------------------------------------------------------------------

  /** The total of a pool built from references. */
  lemma {:induction false} RefsTotal(es: seq<Entry<Backend>>, refs: seq<Config.BackendRef>, on: set<Backend>)
    requires |es| == |refs|
    requires forall i :: 0 <= i < |es| ==> es[i].weight == refs[i].weight > 0 && es[i].backend in on
    ensures Total(es, on) == WeightSum(refs)
  {
    if es == [] {
    } else {
      RefsTotal(es[..|es|-1], refs[..|refs|-1], on);
    }
  }

  /** The total of a pool of entries with bounded weights. */
  lemma {:induction false} TotalBounded(es: seq<Entry<Backend>>, on: set<Backend>, top: nat)
    requires forall i :: 0 <= i < |es| ==> 0 < es[i].weight <= top
    ensures Total(es, on) <= |es| * top
  {
    if es == [] {
    } else {
      TotalBounded(es[..|es|-1], on, top);
      assert |es| * top == (|es| - 1) * top + top;
    }
  }

  lemma {:induction false} TotalSame(es: seq<Entry<Backend>>, on: set<Backend>, more: set<Backend>)
    requires on <= more && forall i :: 0 <= i < |es| ==> es[i].backend in on
    ensures Total(es, on) == Total(es, more)
  {
    if es == [] {
    } else {
      TotalSame(es[..|es|-1], on, more);
    }
  }

  /** A pool that fits still does when there are more backends. */
  lemma FitsMore(es: seq<Entry<Backend>>, bs: seq<Backend>, more: seq<Backend>, limit: nat)
    requires Fits(es, bs, limit) && bs <= more
    ensures Fits(es, more, limit)
  {
    TotalSame(es, All(bs), All(more));
  }

  /** A selection on a pool that fits is a fair event, whatever is routable. */
  lemma SelectionIsFair(es: seq<Entry<Backend>>, bs: seq<Backend>, w: World.World<Backend>, limit: nat)
    requires Fits(es, bs, limit) && w.cur.Keys == All(bs)
    ensures World.Fair(w, World.Pick(es), limit)
  {
    World.TotalAtMost(es, World.Routable(w), All(bs));
  }

  lemma RefsPoolFits(es: seq<Entry<Backend>>, refs: seq<Config.BackendRef>, bs: seq<Backend>, limit: nat)
    requires |es| == |refs| && WeightSum(refs) <= limit
    requires forall i :: 0 <= i < |es| ==> es[i].weight == refs[i].weight > 0 && es[i].backend in bs
    ensures Fits(es, bs, limit)
  {
    RefsTotal(es, refs, All(bs));
  }

  lemma DefaultPoolFits(es: seq<Entry<Backend>>, bs: seq<Backend>, limit: nat, top: nat)
    requires forall i :: 0 <= i < |es| ==> 0 < es[i].weight <= top && es[i].backend in bs
    requires |es| * top <= limit
    ensures Fits(es, bs, limit)
  {
    TotalBounded(es, All(bs), top);
  }

  /** What a record says of the configured weights. */
  lemma WeightsCapped(bs: seq<Backend>, evs: Events, limit: nat, top: nat)
    requires Recorded(bs, evs, limit, top)
    ensures forall i :: 0 <= i < |bs| ==>
      bs[i].weight <= top && bs[i] in World.Reached(evs).info && World.Reached(evs).info[bs[i]].weight == bs[i].weight
  {
    hide World.Run, World.Reached;
    forall i | 0 <= i < |bs|
      ensures bs[i].weight <= top && bs[i] in World.Reached(evs).info
           && World.Reached(evs).info[bs[i]].weight == bs[i].weight
    {
      assert Snapshot(All(bs)).info[bs[i]] == InfoOf(bs[i]);
    }
  }

  /** The pool of all managed backends. */
  method BuildAll(m: Manager, h: Held, ghost evs: Events, ghost limit: nat, ghost top: nat) returns (pool: BackendPool)
    requires Owned(m, h.backends) && Recorded(h.backends, evs, limit, top) && 0 < top && |m.backends| * top <= limit
    ensures Fits(pool.entries, h.backends, limit) && BuiltFromAll(pool.entries, m.byName, World.Reached(evs))
  {
    hide Recorded, Fits;
    AgreeReads(m.backends, m.byName);
    WeightsCapped(h.backends, evs, limit, top);
    pool := m.DefaultPool();
    DefaultPoolFits(pool.entries, h.backends, limit, top);
    forall n | n in m.byName ensures exists i :: 0 <= i < |pool.entries| && pool.entries[i].backend == m.byName[n] {
      assert m.byName[n] in m.backends;
      var i :| 0 <= i < |m.backends| && m.backends[i] == m.byName[n];
      assert pool.entries[i].backend == m.byName[n];
    }
    assert Unrepeated(m.backends);
  }

  /** A request's pool, or the pool of all managed backends, joins the pools. */
  method Build(m: Manager, c: Call, h: Held, ghost evs: Events, ghost limit: nat, ghost top: nat) returns (after: Held)
    requires Consistent(m, h, evs, limit, top) && Legal(c, limit, top) && 0 < top
    requires c.BuildPool? || (c.BuildDefault? && |m.backends| * top <= limit)
    ensures after.backends == h.backends && PoolsFit(after, limit)
    ensures Builds(c, h, after, m.byName, World.Reached(evs))
  {
    hide Recorded, Fits, WeightSum;
    AgreeReads(m.backends, m.byName);
    if c.BuildPool? {
      var r := m.PoolForModel(c.refs);
      if r.Err? {
        return h;
      }
      RefsPoolFits(r.value.entries, c.refs, h.backends, limit);
      after := h.(pools := h.pools + [r.value]);
    } else {
      var pool := BuildAll(m, h, evs, limit, top);
      after := h.(pools := h.pools + [pool]);
    }
  }

  // ---------------------------------------------------------------------
  // Runs of calls
  // ---------------------------------------------------------------------

  /** The calls on a backend or a pool. */
  method Act(c: Call, parses: Config.UrlParser, h: Held, ghost evs: Events, ghost limit: nat, ghost top: nat)
    returns (ghost run: Events)
    requires PoolsFit(h, limit) && Recorded(h.backends, evs, limit, top) && Legal(c, limit, top)
    requires c.SelectOn? || c.ReportHealth? || c.Enable? || c.Configure?
    modifies h.backends
    ensures evs <= run && Recorded(h.backends, run, limit, top) && Acts(c, h, parses, run[|evs|..])
  {
    hide Snapshot, World.Step, World.Run, World.Reached, World.Routable, Total, Capped;
    ghost var all := All(h.backends);
    run := evs;
    if c.SelectOn? {
      if c.pool < |h.pools| {
        var pool := h.pools[c.pool];
        SelectionIsFair(pool.entries, h.backends, Snapshot(all), limit);
        RunGoesOnCapped(evs, World.Pick(pool.entries), limit, top);
        run := evs + [World.Pick(pool.entries)];
        var _ := pool.Select(all);
      }
      return;
    }
    if c.backend >= |h.backends| {
      return;
    }
    var b := h.backends[c.backend];
    match c
    case ReportHealth(_, healthy) =>
      RunGoesOnCapped(evs, World.SetHealth(b, healthy), limit, top);
      run := evs + [World.SetHealth(b, healthy)];
      b.SetHealth(healthy, all);
    case Enable(_, enabled) =>
      RunGoesOnCapped(evs, World.SetEnabled(b, enabled), limit, top);
      run := evs + [World.SetEnabled(b, enabled)];
      b.SetEnabled(enabled, all);
    case Configure(_, cfg) =>
      RunGoesOnCapped(evs, World.UpdateWeight(b, cfg.weight), limit, top);
      var r := b.UpdateConfig(cfg, parses, all);
      if r.Pass? {
        run := evs + [World.UpdateWeight(b, cfg.weight)];
      }
    case _ =>
  }

  lemma PoolsFitMore(h: Held, b: Backend, limit: nat)
    requires PoolsFit(h, limit)
    ensures PoolsFit(h.(backends := h.backends + [b]), limit)
  {
    hide Fits;
    forall j | 0 <= j < |h.pools| ensures Fits(h.pools[j].entries, h.backends + [b], limit) {
      FitsMore(h.pools[j].entries, h.backends, h.backends + [b], limit);
    }
  }

  /** An upsert is one Create event, or an UpdateWeight and a SetEnabled event. */
  ghost function UpsertEvents(b: Backend, weight: int, known: bool): Events {
    if known then [World.UpdateWeight(b, weight), World.SetEnabled(b, true)] else [World.Create(b, weight)]
  }

  lemma UpsertIsRun(evs: Events, b: Backend, weight: int, known: bool, limit: nat, top: nat)
    requires World.Run(evs, limit) && Capped(World.Reached(evs), top) && weight <= top
    requires World.Reached(evs).info.Keys == World.Reached(evs).cur.Keys
    requires known <==> b in World.Reached(evs).info
    ensures var run := evs + UpsertEvents(b, weight, known);
      && World.Run(run, limit) && Capped(World.Reached(run), top)
      && World.Reached(run) == UpsertSteps(World.Reached(evs), b, weight, known)
  {
    hide World.Run, World.Reached, Swrr.Select, Capped;
    if known {
      RunGoesOnCapped(evs, World.UpdateWeight(b, weight), limit, top);
      var between := evs + [World.UpdateWeight(b, weight)];
      RunGoesOnCapped(between, World.SetEnabled(b, true), limit, top);
      assert evs + UpsertEvents(b, weight, known) == between + [World.SetEnabled(b, true)];
    } else {
      RunGoesOnCapped(evs, World.Create(b, weight), limit, top);
    }
  }

  /** What the manager's upsert means for the backends managed and for all backends. */
  method UpsertManaged(m: Manager, cfg: Config.Backend, parses: Config.UrlParser, ghost all: set<Backend>)
    returns (r: Outcome)
    requires m.Coherent() && forall i :: 0 <= i < |m.backends| ==> m.backends[i] in all
    modifies m, m.backends
    ensures m.Coherent() && |m.backends| <= |old(m.backends)| + 1 && (r.Pass? <==> Config.Parses(parses, cfg.url))
    ensures r.Fail? || cfg.name in old(m.byName) ==>
      m.byName == old(m.byName) && forall i :: 0 <= i < |m.backends| ==> m.backends[i] in all
    ensures r.Fail? ==> Snapshot(all) == old(Snapshot(all))
    ensures r.Pass? && cfg.name in old(m.byName) ==>
      Snapshot(all) == UpsertSteps(old(Snapshot(all)), m.byName[cfg.name], WithDefaults(cfg).weight, true)
    ensures r.Pass? && cfg.name !in old(m.byName) ==>
      && cfg.name in m.byName && m.byName == old(m.byName)[cfg.name := m.byName[cfg.name]]
      && var b := m.byName[cfg.name];
         && fresh(b) && b.name == cfg.name && (forall i :: 0 <= i < |m.backends| ==> m.backends[i] in all + {b})
         && Snapshot(all + {b}) == UpsertSteps(old(Snapshot(all)), b, WithDefaults(cfg).weight, false)
  {
    hide Snapshot, UpsertSteps, Agree, Backend.Configured, Backend.FollowsHealth, RunsAs, WithDefaults;
    AgreeReads(m.backends, m.byName);
    SnapshotReads(all);
    r := m.UpsertBackend(cfg, parses, all);
    AgreeReads(m.backends, m.byName);
    if r.Pass? {
      if cfg.name in old(m.byName) {
        assert m.byName == old(m.byName) && all + {m.byName[cfg.name]} == all;
      } else {
        assert m.byName == old(m.byName)[cfg.name := m.byName[cfg.name]];
      }
    }
  }

  /** The upsert of a backend, by the manager. */
  method Manage(m: Manager, cfg: Config.Backend, parses: Config.UrlParser, h: Held,
                ghost evs: Events, ghost limit: nat, ghost top: nat)
    returns (after: Held, ghost run: Events)
    requires Consistent(m, h, evs, limit, top) && cfg.weight <= top && 0 < top
    modifies m, h.backends
    ensures Consistent(m, after, run, limit, top) && evs <= run && h.pools == after.pools
    ensures Upserts(cfg, Moment(h, old(m.byName), evs), Moment(after, m.byName, run), parses)
    ensures h.backends <= after.backends && |m.backends| <= |old(m.backends)| + 1
    ensures forall j :: |h.backends| <= j < |after.backends| ==> fresh(after.backends[j])
  {
    hide Snapshot, World.Step, World.Run, World.Reached, Total, Capped, UpsertSteps, Agree, Fits, PoolsFit;
    AgreeReads(m.backends, m.byName);
    var known := cfg.name in m.byName;
    ghost var all := All(h.backends);
    var r := UpsertManaged(m, cfg, parses, all);
    after, run := h, evs;
    if r.Pass? {
      var b := m.byName[cfg.name];
      UpsertIsRun(evs, b, WithDefaults(cfg).weight, known, limit, top);
      run := evs + UpsertEvents(b, WithDefaults(cfg).weight, known);
      if !known {
        PoolsFitMore(h, b, limit);
        after := h.(backends := h.backends + [b]);
        assert All(after.backends) == all + {b};
      }
    }
  }

  method PlayOne(m: Manager, c: Call, parses: Config.UrlParser, h: Held,
                 ghost evs: Events, ghost limit: nat, ghost top: nat)
    returns (after: Held, ghost run: Events)
    requires Consistent(m, h, evs, limit, top) && Legal(c, limit, top) && 0 < top
    requires c.BuildDefault? ==> |m.backends| * top <= limit
    modifies m, h.backends
    ensures Consistent(m, after, run, limit, top) && evs <= run
    ensures Does(c, Moment(h, old(m.byName), evs), Moment(after, m.byName, run), parses)
    ensures h.backends <= after.backends && |m.backends| <= |old(m.backends)| + 1
    ensures forall j :: |h.backends| <= j < |after.backends| ==> fresh(after.backends[j])
  {
    hide Recorded, PoolsFit, Agree, Without, Acts, Builds, Upserts;
    after, run := h, evs;
    if c.BuildPool? || c.BuildDefault? {
      after := Build(m, c, h, evs, limit, top);
    } else if c.Upsert? {
      after, run := Manage(m, c.cfg, parses, h, evs, limit, top);
    } else if c.Remove? {
      var r := m.RemoveBackend(c.name);
      if r.Fail? { assert m.byName - {c.name} == m.byName; }
    } else {
      run := Act(c, parses, h, evs, limit, top);
    }
  }

  /** Moment by moment, each call does what it is to do. */
  ghost predicate Follows(calls: seq<Call>, trace: seq<Moment>, parses: Config.UrlParser) {
    |trace| == |calls| + 1 && forall i :: 0 <= i < |calls| ==> Does(calls[i], trace[i], trace[i + 1], parses)
  }

  lemma FollowsOneMore(calls: seq<Call>, trace: seq<Moment>, c: Call, m: Moment, parses: Config.UrlParser)
    requires Follows(calls, trace, parses) && Does(c, trace[|calls|], m, parses)
    ensures Follows(calls + [c], trace + [m], parses)
  {
    hide Does;
  }

  /** Every sequence of calls is a run of the world, with the events of the calls one after the other. */
  method Play(m: Manager, calls: seq<Call>, parses: Config.UrlParser, given: Held,
              ghost evs: Events, ghost limit: nat, ghost top: nat)
    returns (h: Held, ghost run: Events, ghost trace: seq<Moment>)
    requires Consistent(m, given, evs, limit, top) && 0 < top
    requires forall i :: 0 <= i < |calls| ==> Legal(calls[i], limit, top)
    requires (|m.backends| + |calls|) * top <= limit
    modifies m, given.backends
    ensures Consistent(m, h, run, limit, top) && evs <= run && given.backends <= h.backends
    ensures forall j :: |given.backends| <= j < |h.backends| ==> fresh(h.backends[j])
    ensures Follows(calls, trace, parses)
    ensures trace[0] == Moment(given, old(m.byName), evs) && trace[|calls|] == Moment(h, m.byName, run)
  {
    hide Consistent, Legal, Does;
    h, run := given, evs;
    trace := [Moment(h, m.byName, run)];
    ghost var most := |m.backends| + |calls|;
    for i := 0 to |calls|
      invariant Consistent(m, h, run, limit, top) && evs <= run && given.backends <= h.backends
      invariant |m.backends| <= |old(m.backends)| + i
      invariant Follows(calls[..i], trace, parses)
      invariant trace[0] == Moment(given, old(m.byName), evs) && trace[i] == Moment(h, m.byName, run)
      invariant forall j :: |given.backends| <= j < |h.backends| ==> fresh(h.backends[j])
    {
      MulMono(|m.backends|, most, top);
      h, run := PlayOne(m, calls[i], parses, h, run, limit, top);
      FollowsOneMore(calls[..i], trace, calls[i], Moment(h, m.byName, run), parses);
      assert calls[..i+1] == calls[..i] + [calls[i]];
      trace := trace + [Moment(h, m.byName, run)];
    }
    assert calls[..|calls|] == calls;
  }

  /** New backends at rest are the outcome of a run of Create events. */
  lemma {:induction false} StartIsRun(bs: seq<Backend>, limit: nat, top: nat) returns (evs: Events)
    requires Unrepeated(bs)
    requires forall i :: 0 <= i < |bs| ==>
      bs[i].currentWeight == 0 && bs[i].IsHealthy() && bs[i].FollowsHealth() && bs[i].weight <= top
    ensures Recorded(bs, evs, limit, top) && World.Picks(evs) == 0
    ensures |evs| == |bs| && forall i :: 0 <= i < |bs| ==> evs[i] == World.Create(bs[i], bs[i].weight)
  {
    if bs == [] {
      evs := [];
      assert Snapshot(All(bs)) == World.Empty();
    } else {
      var front, b := bs[..|bs|-1], bs[|bs|-1];
      var before := StartIsRun(front, limit, top);
      hide Snapshot, World.Run, World.Reached, Capped;
      CreationIsStep(All(front), b);
      RunGoesOnCapped(before, World.Create(b, b.weight), limit, top);
      evs := before + [World.Create(b, b.weight)];
      assert All(bs) == All(front) + {b} by { assert bs == front + [b]; }
      assert evs[..|evs|-1] == before;
    }
  }

  /** One backend has been created for each configuration, with its name and weight, and nothing else has happened. */
  ghost predicate Begins(cfgs: seq<Config.Backend>, start: Moment) {
    var bs := start.held.backends;
    && |bs| == |start.events| == |cfgs| && start.held.pools == []
    && forall i :: 0 <= i < |cfgs| ==>
         && start.events[i] == World.Create(bs[i], cfgs[i].weight)
         && bs[i].name == cfgs[i].name && bs[i].name in start.managed && start.managed[bs[i].name] == bs[i]
  }

  lemma StartIsConsistent(m: Manager, cfgs: seq<Config.Backend>, limit: nat, top: nat) returns (evs: Events)
    requires m.Coherent() && |m.backends| == |cfgs|
    requires forall i :: 0 <= i < |cfgs| ==> AtRest(m.backends[i], cfgs[i]) && cfgs[i].weight <= top
    ensures Consistent(m, Held(m.backends, []), evs, limit, top)
    ensures Begins(cfgs, Moment(Held(m.backends, []), m.byName, evs))
  {
    hide Recorded;
    evs := StartIsRun(m.backends, limit, top);
    AgreeReads(m.backends, m.byName);
  }

  /** The start of the gateway: the backends of its configuration. */
  method Start(cfgs: seq<Config.Backend>, parses: Config.UrlParser, ghost limit: nat, ghost top: nat)
    returns (r: Result<Manager>, h: Held, ghost run: Events)
    requires Config.DistinctNames(cfgs) && forall i :: 0 <= i < |cfgs| ==> cfgs[i].weight <= top
    ensures r.Ok? <==> cfgs != [] && forall i :: 0 <= i < |cfgs| ==> Config.Parses(parses, cfgs[i].url)
    ensures r.Ok? ==> fresh(r.value) && |r.value.backends| == |cfgs| && Consistent(r.value, h, run, limit, top)
    ensures r.Ok? ==> Begins(cfgs, Moment(h, r.value.byName, run))
    ensures forall j :: 0 <= j < |h.backends| ==> fresh(h.backends[j])
  {
    hide Begins, Consistent, AtRest, Config.DistinctNames, Agree;
    h, run := Held([], []), [];
    r := NewManager(cfgs, parses);
    if r.Ok? {
      run := StartIsConsistent(r.value, cfgs, limit, top);
      h := Held(r.value.backends, []);
    }
  }

  /** From the start of the gateway: every sequence of calls is a run of the world from no backends. */
  method Operate(cfgs: seq<Config.Backend>, calls: seq<Call>, parses: Config.UrlParser,
                 ghost limit: nat, ghost top: nat)
    returns (r: Result<Manager>, h: Held, ghost run: Events, ghost trace: seq<Moment>)
    requires Config.DistinctNames(cfgs) && forall i :: 0 <= i < |cfgs| ==> cfgs[i].weight <= top
    requires 0 < top && (|cfgs| + |calls|) * top <= limit
    requires forall i :: 0 <= i < |calls| ==> Legal(calls[i], limit, top)
    ensures r.Ok? <==> cfgs != [] && forall i :: 0 <= i < |cfgs| ==> Config.Parses(parses, cfgs[i].url)
    ensures r.Ok? ==> Consistent(r.value, h, run, limit, top) && Follows(calls, trace, parses)
    ensures r.Ok? ==> Begins(cfgs, trace[0]) && trace[|calls|] == Moment(h, r.value.byName, run)
  {
    hide Begins, Consistent, Legal, Does, Config.DistinctNames;
    trace := [];
    r, h, run := Start(cfgs, parses, limit, top);
    if r.Ok? {
      h, run, trace := Play(r.value, calls, parses, h, run, limit, top);
    }
  }

  /** Whether a backend takes requests, as it was last reported, switched and configured. */
  ghost predicate Takes(evs: Events, b: Backend) {
    World.LastHealth(evs, b) && World.LastSwitch(evs, b) && World.LastWeight(evs, b) > 0
  }

  lemma ReportsDecide(bs: seq<Backend>, evs: Events, limit: nat, top: nat)
    requires Recorded(bs, evs, limit, top)
    ensures forall i :: 0 <= i < |bs| ==> (Takes(evs, bs[i]) <==> bs[i].IsHealthy() && bs[i].weight > 0)
  {
    hide World.Run, World.Reached, World.LastHealth, World.LastSwitch, World.LastWeight;
    forall i | 0 <= i < |bs| ensures Takes(evs, bs[i]) <==> bs[i].IsHealthy() && bs[i].weight > 0 {
      World.InfoIsLatest(evs, limit, bs[i]);
      assert Snapshot(All(bs)).info[bs[i]] == InfoOf(bs[i]);
    }
  }

  lemma PoolsFitMembers(h: Held, pool: nat, limit: nat)
    requires PoolsFit(h, limit) && pool < |h.pools|
    ensures h.pools[pool].Members() <= All(h.backends)
  {
  }

  /** What the record says of a selection on one of the pools. */
  lemma SelectionDecided(h: Held, pool: nat, evs: Events, limit: nat, top: nat)
    requires PoolsFit(h, limit) && Recorded(h.backends, evs, limit, top) && pool < |h.pools|
    requires World.Picks(evs) * (limit * limit) <= MAX_INT * MAX_INT
    ensures var w, es := Snapshot(All(h.backends)), h.pools[pool].entries;
      && Known(es, w.cur)
      && var s := Swrr.Select(es, World.Routable(w), w.cur);
         && (s.pick.None? <==> forall i :: 0 <= i < |es| ==> !Takes(evs, es[i].backend))
         && (s.pick.None? <==> forall i :: 0 <= i < |es| ==> !(es[i].backend.IsHealthy() && es[i].backend.weight > 0))
         && (s.pick.None? ==> World.Step(w, World.Pick(es)) == w)
  {
    ReportsDecide(h.backends, evs, limit, top);
    hide Takes, World.Run, World.Reached, World.Step, World.Routable, Swrr.Select, Total;
    var es := h.pools[pool].entries;
    assert forall i :: 0 <= i < |es| ==> es[i].backend in h.backends;
    World.BuiltPoolsRouteSoundly(evs, limit, es);
    SnapshotReads(All(h.backends));
  }

  /**
   What that is worth: after any such sequence a selection on any pool built so far, however long ago, fails
   exactly if none of its backends was last reported healthy, last switched on and last given a positive weight.
   */
  method SelectAfterwards(h: Held, pool: nat, ghost evs: Events, ghost limit: nat, ghost top: nat)
    returns (r: Option<Backend>)
    requires PoolsFit(h, limit) && Recorded(h.backends, evs, limit, top) && pool < |h.pools|
    requires World.Picks(evs) * (limit * limit) <= MAX_INT * MAX_INT
    modifies h.backends
    ensures var es := h.pools[pool].entries;
      && (r.None? <==> forall i :: 0 <= i < |es| ==> !Takes(evs, es[i].backend))
      && (r.None? <==> forall i :: 0 <= i < |es| ==> !(old(es[i].backend.IsHealthy()) && es[i].backend.weight > 0))
      && (r.None? ==> forall j :: 0 <= j < |h.backends| ==> unchanged(h.backends[j]))
      && (r.Some? ==> exists i :: 0 <= i < |es| && es[i].backend == r.value && r.value.IsHealthy())
  {
    hide Recorded, PoolsFit, Takes, Snapshot, World.Step, World.Routable, Swrr.Select;
    SelectionDecided(h, pool, evs, limit, top);
    PoolsFitMembers(h, pool, limit);
    SnapshotReads(All(h.backends));
    r := h.pools[pool].Select(All(h.backends));
    SnapshotReads(All(h.backends));
  }
}
