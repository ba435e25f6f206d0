/**
 Backends and the pools built over them, in the form the gateway has them: objects updated in place
 and shared by all pools.  Every method that changes a backend is proved to be one step of the world
 of backends (module World).
 */
module Backends {
  import opened Wrappers
  import opened Swrr
  import Config
  import World

  /** What decides whether a backend can be picked. */
  ghost function InfoOf(b: Backend): World.Info
    reads b
  {
    World.Info(b.weight, b.effectiveWeight, b.healthy, b.enabled)
  }

  /** The scheduling state of a set of backends, as a value. */
  ghost function Snapshot(all: set<Backend>): (w: World.World<Backend>)
    reads all
    ensures w.info.Keys == w.cur.Keys == all
  {
    World.World(map b | b in all :: InfoOf(b), map b | b in all :: b.currentWeight)
  }

  /** What a snapshot says of each backend. */
  lemma SnapshotReads(all: set<Backend>)
    ensures forall b :: b in all ==>
      && Snapshot(all).cur[b] == b.currentWeight
      && Snapshot(all).info[b] == InfoOf(b)
      && (b in World.Routable(Snapshot(all)) <==> b.IsHealthy() && b.effectiveWeight > 0)
  {
  }

  /** Since the snapshot w, only current weights have changed, to those in cur. */
  lemma CurrentWeightsMoved(all: set<Backend>, w: World.World<Backend>, cur: map<Backend, int>)
    requires w.info.Keys == cur.Keys == all
    requires forall b :: b in all ==> b.currentWeight == cur[b] && InfoOf(b) == w.info[b]
    ensures Snapshot(all) == w.(cur := cur)
  {
    assert Snapshot(all).info == w.info;
  }

  /** Since the snapshot w, only the scheduling information of one backend has changed. */
  lemma InfoMoved(all: set<Backend>, w: World.World<Backend>, b: Backend)
    requires w.info.Keys == w.cur.Keys == all && b in all
    requires forall x :: x in all ==> x.currentWeight == w.cur[x] && (x != b ==> InfoOf(x) == w.info[x])
    ensures Snapshot(all) == w.(info := w.info[b := InfoOf(b)])
  {
    assert Snapshot(all).cur == w.cur;
  }

  /** The same for a backend whose configuration has been replaced. */
  lemma WeightMoved(all: set<Backend>, w: World.World<Backend>, b: Backend)
    requires w.info.Keys == w.cur.Keys == all && b in all
    requires forall x :: x in all && x != b ==> x.currentWeight == w.cur[x] && InfoOf(x) == w.info[x]
    requires b.currentWeight == w.cur[b]
    requires b.healthy == w.info[b].healthy && b.enabled == w.info[b].enabled
    requires b.effectiveWeight == if b.healthy then b.weight else w.info[b].effective
    ensures Snapshot(all) == World.Step(w, World.UpdateWeight(b, b.weight))
  {
    InfoMoved(all, w, b);
  }

  class Backend {
    const name: string
    var url: string
    var weight: int
    var tag: string
    var healthCheckPath: string
    var timeout: int
    var headers: map<string, string>

    var effectiveWeight: int
    var currentWeight: int

    var healthy: bool
    var enabled: bool

    /** A new backend is healthy, enabled and at rest. */
    constructor (cfg: Config.Backend)
      ensures Configured(cfg) && name == cfg.name
      ensures effectiveWeight == cfg.weight && currentWeight == 0
      ensures healthy && enabled
    {
      name, url, weight, tag, headers := cfg.name, cfg.url, cfg.weight, cfg.tag, cfg.headers;
      healthCheckPath, timeout := cfg.healthCheckPath, cfg.timeout;
      effectiveWeight, currentWeight := cfg.weight, 0;
      healthy, enabled := true, true;
    }

    /** The configurable fields have the values of cfg. */
    ghost predicate Configured(cfg: Config.Backend)
      reads this
    {
      && url == cfg.url && weight == cfg.weight && tag == cfg.tag && headers == cfg.headers
      && timeout == cfg.timeout && healthCheckPath == cfg.healthCheckPath
    }

    /** effectiveWeight is the configured weight of a healthy backend and 0 for an unhealthy one. */
    ghost predicate FollowsHealth()
      reads this
    {
      effectiveWeight == if healthy then weight else 0
    }

    predicate IsHealthy()
      reads this
    {
      healthy && enabled
    }

    method SetEnabled(enabled: bool, ghost all: set<Backend>)
      requires this in all
      modifies this`enabled
      ensures this.enabled == enabled
      ensures Snapshot(all) == World.Step(old(Snapshot(all)), World.SetEnabled(this, enabled))
    {
      SnapshotReads(all);
      this.enabled := enabled;
      InfoMoved(all, old(Snapshot(all)), this);
    }

    method SetHealth(healthy: bool, ghost all: set<Backend>)
      requires this in all
      modifies this`healthy, this`effectiveWeight
      ensures this.healthy == healthy && effectiveWeight == if healthy then weight else 0
      ensures currentWeight == old(currentWeight) && enabled == old(enabled)
      ensures Snapshot(all) == World.Step(old(Snapshot(all)), World.SetHealth(this, healthy))
    {
      SnapshotReads(all);
      this.healthy := healthy;
      if healthy {
        effectiveWeight := weight;
      } else {
        effectiveWeight := 0;
      }
      InfoMoved(all, old(Snapshot(all)), this);
    }

    /** Replaces the configuration, or changes nothing when the URL does not parse. */
    method UpdateConfig(cfg: Config.Backend, parses: Config.UrlParser, ghost all: set<Backend>) returns (r: Outcome)
      requires this in all
      modifies this`url, this`weight, this`tag, this`timeout, this`healthCheckPath, this`effectiveWeight
      ensures r.Pass? <==> Config.Parses(parses, cfg.url)
      ensures r.Pass? ==> url == cfg.url && tag == cfg.tag && timeout == cfg.timeout
      ensures r.Pass? ==> healthCheckPath == cfg.healthCheckPath && weight == cfg.weight
      ensures r.Pass? ==> effectiveWeight == if healthy then weight else old(effectiveWeight)
      ensures r.Pass? ==> Snapshot(all) == World.Step(old(Snapshot(all)), World.UpdateWeight(this, cfg.weight))
      ensures r.Fail? ==> unchanged(this)
    {
      hide Snapshot, World.Step;
      SnapshotReads(all);
      if !Config.Parses(parses, cfg.url) {
        return Fail("invalid URL");
      }
      url, weight, tag := cfg.url, cfg.weight, cfg.tag;
      timeout, healthCheckPath := cfg.timeout, cfg.healthCheckPath;
      if healthy {
        effectiveWeight := cfg.weight;
      }
      WeightMoved(all, old(Snapshot(all)), this);
      return Pass;
    }
  }

  lemma EmptySweep(es: seq<Entry<Backend>>, w: World.World<Backend>)
    requires es == []
    ensures Swrr.Sweep(es, World.Routable(w), w.cur) == Swept(w.cur, 0, -1, -MAX_INT)
  {
  }

  lemma SweepNext(es: seq<Entry<Backend>>, i: nat, w: World.World<Backend>)
    requires i < |es| && Known(es, w.cur)
    ensures var on := World.Routable(w);
      var s, b := Swrr.Sweep(es[..i], on, w.cur), es[i].backend;
      var c := s.cur[b] + es[i].weight;
      Swrr.Sweep(es[..i+1], on, w.cur) ==
        if b !in on then s
        else if c > s.bestWeight then Swept(s.cur[b := c], s.total + es[i].weight, i, c)
        else Swept(s.cur[b := c], s.total + es[i].weight, s.best, s.bestWeight)
  {
    assert es[..i+1][..i] == es[..i];
  }

  lemma PickAfterSweep(w: World.World<Backend>, es: seq<Entry<Backend>>)
    requires Known(es, w.cur)
    ensures var s := Swrr.Sweep(es, World.Routable(w), w.cur);
      if s.best == -1 || s.total == 0 then
        && Swrr.Select(es, World.Routable(w), w.cur).pick == None
        && World.Step(w, World.Pick(es)) == w.(cur := s.cur)
      else
        var b := es[s.best].backend;
        && Swrr.Select(es, World.Routable(w), w.cur).pick == Some(s.best)
        && World.Step(w, World.Pick(es)) == w.(cur := s.cur[b := s.cur[b] - s.total])
  {
  }

  class BackendPool {
    const entries: seq<Entry<Backend>>

    /** A weight that is not positive is replaced by the configured weight of the backend. */
    constructor (es: seq<Entry<Backend>>)
      ensures |entries| == |es|
      ensures forall i :: 0 <= i < |es| ==>
        && entries[i].backend == es[i].backend
        && entries[i].weight == if es[i].weight > 0 then es[i].weight else es[i].backend.weight
    {
      var pool: seq<Entry<Backend>> := [];
      for i := 0 to |es|
        invariant |pool| == i
        invariant forall j :: 0 <= j < i ==>
          && pool[j].backend == es[j].backend
          && pool[j].weight == if es[j].weight > 0 then es[j].weight else es[j].backend.weight
      {
        var w := es[i].weight;
        if w <= 0 {
          w := es[i].backend.weight;
        }
        pool := pool + [Entry(es[i].backend, w)];
      }
      entries := pool;
    }

    ghost function Members(): set<Backend> {
      set i | 0 <= i < |entries| :: entries[i].backend
    }

    /**
     The loop of Select: raises the weight of every routable entry and finds the best one.  `cur`
     is the current weight of each backend afterwards.
     */
    method Sweep(ghost all: set<Backend>)
      returns (total: int, bestIdx: int, bestWeight: int, ghost cur: map<Backend, int>)
      requires Members() <= all
      modifies Members()`currentWeight
      ensures Known(entries, old(Snapshot(all)).cur)
      ensures cur.Keys == all && forall b :: b in all ==> b.currentWeight == cur[b]
      ensures Swrr.Sweep(entries, World.Routable(old(Snapshot(all))), old(Snapshot(all)).cur)
           == Swept(cur, total, bestIdx, bestWeight)
    {
      hide Snapshot, Swrr.Sweep, World.Routable, InfoOf;
      ghost var was := Snapshot(all);
      cur := was.cur;
      SnapshotReads(all);
      assert forall i :: 0 <= i < |entries| ==> entries[i].backend in Members();
      EmptySweep(entries[..0], was);
      total, bestIdx, bestWeight := 0, -1, -MAX_INT;
      for i := 0 to |entries|
        invariant cur.Keys == all && forall b :: b in all ==> b.currentWeight == cur[b]
        invariant Swrr.Sweep(entries[..i], World.Routable(was), was.cur) == Swept(cur, total, bestIdx, bestWeight)
      {
        var e := entries[i];
        SweepNext(entries, i, was);
        if !e.backend.IsHealthy() || e.backend.effectiveWeight <= 0 {
          continue;
        }
        e.backend.currentWeight := e.backend.currentWeight + e.weight;
        cur := cur[e.backend := cur[e.backend] + e.weight];
        total := total + e.weight;
        if e.backend.currentWeight > bestWeight {
          bestWeight := e.backend.currentWeight;
          bestIdx := i;
        }
      }
      assert entries[..|entries|] == entries;
    }

    /**
     Smooth weighted round-robin.  Among all backends `all`, the call changes the current weights
     exactly as the function Select says, and returns the backend that it picks.
     */
    method Select(ghost all: set<Backend>) returns (r: Option<Backend>)
      requires Members() <= all
      modifies Members()`currentWeight
      ensures Snapshot(all) == World.Step(old(Snapshot(all)), World.Pick(entries))
      ensures Known(entries, old(Snapshot(all)).cur)
      ensures var pick := Swrr.Select(entries, World.Routable(old(Snapshot(all))), old(Snapshot(all)).cur).pick;
        r == if pick.None? then None else Some(entries[pick.value].backend)
    {
      hide Snapshot, Swrr.Sweep, Swrr.Select, World.Step, World.Routable;
      ghost var was := Snapshot(all);
      SnapshotReads(all);
      assert forall i :: 0 <= i < |entries| ==> entries[i].backend in Members();
      PickAfterSweep(was, entries);
      if |entries| == 0 {
        EmptySweep(entries, was);
        CurrentWeightsMoved(all, was, was.cur);
        return None;
      }
      ghost var cur;
      var total, bestIdx, bestWeight;
      total, bestIdx, bestWeight, cur := Sweep(all);
      if bestIdx == -1 || total == 0 {
        CurrentWeightsMoved(all, was, cur);
        return None;
      }
      var best := entries[bestIdx].backend;
      best.currentWeight := best.currentWeight - total;
      CurrentWeightsMoved(all, was, cur[best := cur[best] - total]);
      return Some(best);
    }
  }

  /** Adding a new backend to the others is one Create step. */
  lemma CreationIsStep(all: set<Backend>, b: Backend)
    requires b !in all && b.healthy && b.enabled && b.effectiveWeight == b.weight && b.currentWeight == 0
    ensures Snapshot(all + {b}) == World.Step(Snapshot(all), World.Create(b, b.weight))
  {
    var was, now := Snapshot(all), Snapshot(all + {b});
    assert now.info == was.info[b := InfoOf(b)] && now.cur == was.cur[b := 0];
  }
}
