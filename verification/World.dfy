/**
 All backends ever created, and every interleaving of what happens to them: selections on any
 pools that share them, health results, enable switches and configuration updates.  Each event
 is one atomic step.
 */
module World {
  import opened Wrappers
  import opened Swrr

  /** The fields of a backend that decide whether it can be picked. */
  datatype Info = Info(weight: int, effective: int, healthy: bool, enabled: bool)

  /** The state of all backends; both maps have the same keys. */
  datatype World<B> = World(info: map<B, Info>, cur: map<B, int>)

  datatype Event<B> =
    | Create(b: B, weight: int)
    | SetHealth(b: B, healthy: bool)
    | SetEnabled(b: B, enabled: bool)
    | UpdateWeight(b: B, weight: int)
    | Pick(es: seq<Entry<B>>)

  ghost function Empty<B>(): World<B> { World(map[], map[]) }

  /** The backends that a selection does not skip. */
  ghost function Routable<B>(w: World<B>): set<B> {
    set b | b in w.info && w.info[b].healthy && w.info[b].enabled && w.info[b].effective > 0
  }

  ghost predicate Serving<B>(w: World<B>, b: B) {
    b in w.info && w.info[b].healthy && w.info[b].enabled && w.info[b].weight > 0
  }

  ghost predicate Possible<B>(w: World<B>, e: Event<B>) {
    match e
    case Create(b, _) => b !in w.info && b !in w.cur
    case SetHealth(b, _) => b in w.info
    case SetEnabled(b, _) => b in w.info
    case UpdateWeight(b, _) => b in w.info
    case Pick(es) => Known(es, w.cur)
  }

  /** The world after the event; an impossible event changes nothing. */
  ghost function Step<B>(w: World<B>, e: Event<B>): World<B> {
    if !Possible(w, e) then w else
    match e
    case Create(b, weight) => World(w.info[b := Info(weight, weight, true, true)], w.cur[b := 0])
    case SetHealth(b, healthy) =>
      var i := w.info[b];
      w.(info := w.info[b := i.(healthy := healthy, effective := if healthy then i.weight else 0)])
    case SetEnabled(b, enabled) => w.(info := w.info[b := w.info[b].(enabled := enabled)])
    case UpdateWeight(b, weight) =>
      var i := w.info[b];
      w.(info := w.info[b := i.(weight := weight, effective := if i.healthy then weight else i.effective)])
    case Pick(es) => w.(cur := Select(es, Routable(w), w.cur).cur)
  }

  /** A health report decides whether a backend is routed to; nothing else changes. */
  lemma HealthDecides<B>(w: World<B>, b: B, healthy: bool)
    requires b in w.info
    ensures var n := Step(w, SetHealth(b, healthy));
      && (b in Routable(n) <==> healthy && w.info[b].enabled && w.info[b].weight > 0)
      && n.cur == w.cur && n.info.Keys == w.info.Keys
      && n.info[b].weight == w.info[b].weight && n.info[b].enabled == w.info[b].enabled
      && forall x :: x in w.info && x != b ==> n.info[x] == w.info[x] && (x in Routable(n) <==> x in Routable(w))
  {
  }

  /** So does a switch: off, it keeps a backend out whatever its health; on, its health and weight decide. */
  lemma SwitchDecides<B>(w: World<B>, b: B, enabled: bool)
    requires b in w.info
    ensures var n := Step(w, SetEnabled(b, enabled));
      && (b in Routable(n) <==> enabled && w.info[b].healthy && w.info[b].effective > 0)
      && n.cur == w.cur && n.info.Keys == w.info.Keys
      && forall x :: x in w.info && x != b ==> n.info[x] == w.info[x] && (x in Routable(n) <==> x in Routable(w))
  {
  }

  /** The event can happen, and a pool that is picked from has positive weights of total at most limit. */
  ghost predicate Fair<B>(w: World<B>, e: Event<B>, limit: nat) {
    Possible(w, e) && (e.Pick? ==> Positive(e.es, Routable(w)) && Total(e.es, Routable(w)) <= limit)
  }

  /** The world after the events, starting from no backends. */
  ghost function Reached<B>(evs: seq<Event<B>>): World<B> {
    if evs == [] then Empty() else Step(Reached(evs[..|evs|-1]), evs[|evs|-1])
  }

  /** Every event of the run is fair where it happens. */
  ghost predicate Run<B>(evs: seq<Event<B>>, limit: nat) {
    evs == [] || (Run(evs[..|evs|-1], limit) && Fair(Reached(evs[..|evs|-1]), evs[|evs|-1], limit))
  }

  /** The number of selections in a run. */
  ghost function Picks<B>(evs: seq<Event<B>>): nat {
    if evs == [] then 0 else Picks(evs[..|evs|-1]) + if evs[|evs|-1].Pick? then 1 else 0
  }

  ghost function Cost<B>(w: World<B>, es: seq<Entry<B>>): int {
    Total(es, Routable(w)) * Total(es, Routable(w)) - Squares(es, Routable(w))
  }

  /** The energy that the selections of a run may have added: W^2 - sum(w_i^2) for each of them. */
  ghost function Spent<B>(evs: seq<Event<B>>): int {
    if evs == [] then 0
    else
      var e := evs[|evs|-1];
      Spent(evs[..|evs|-1]) + if e.Pick? then Cost(Reached(evs[..|evs|-1]), e.es) else 0
  }

  /** effectiveWeight is the configured weight of a healthy backend and 0 for an unhealthy one. */
  ghost predicate WeightsFollowHealth<B>(w: World<B>) {
    forall b :: b in w.info ==> w.info[b].effective == if w.info[b].healthy then w.info[b].weight else 0
  }

  ghost predicate Accounted<B>(evs: seq<Event<B>>, limit: nat) {
    var w := Reached(evs);
    && w.info.Keys == w.cur.Keys
    && WeightsFollowHealth(w)
    && Sum(w.cur) == 0
    && Energy(w.cur) <= Spent(evs) <= Picks(evs) * (limit * limit)
  }

  // ---------------------------------------------------------------------
  // Who is routed to after a run
  // ---------------------------------------------------------------------

  ghost predicate Created<B>(evs: seq<Event<B>>, b: B) {
    exists i :: 0 <= i < |evs| && evs[i].Create? && evs[i].b == b
  }

  /** The last report of the backend's health; before the first one it counts as healthy. */
  ghost predicate LastHealth<B>(evs: seq<Event<B>>, b: B) {
    if evs == [] then true
    else
      var e := evs[|evs|-1];
      if e.SetHealth? && e.b == b then e.healthy else LastHealth(evs[..|evs|-1], b)
  }

  /** The last position of the backend's switch, which is on at first. */
  ghost predicate LastSwitch<B>(evs: seq<Event<B>>, b: B) {
    if evs == [] then true
    else
      var e := evs[|evs|-1];
      if e.SetEnabled? && e.b == b then e.enabled else LastSwitch(evs[..|evs|-1], b)
  }

  /** The weight that the backend was last configured with. */
  ghost function LastWeight<B>(evs: seq<Event<B>>, b: B): int {
    if evs == [] then 0
    else
      var e := evs[|evs|-1];
      if (e.Create? || e.UpdateWeight?) && e.b == b then e.weight else LastWeight(evs[..|evs|-1], b)
  }

  lemma CreatedOneMore<B>(evs: seq<Event<B>>, e: Event<B>, b: B)
    ensures Created(evs + [e], b) <==> Created(evs, b) || (e.Create? && e.b == b)
  {
    var more := evs + [e];
    if i :| 0 <= i < |evs| && evs[i].Create? && evs[i].b == b { assert more[i] == evs[i]; }
    if e.Create? && e.b == b { assert more[|evs|] == e; }
  }

  lemma NothingCreated<B>(b: B)
    ensures !Created([], b)
  {
  }

  /** The information about a backend is what it was last told. */
  lemma {:induction false} InfoIsLatest<B>(evs: seq<Event<B>>, limit: nat, b: B)
    requires Run(evs, limit)
    ensures var w := Reached(evs);
      && (b in w.info <==> Created(evs, b))
      && (b !in w.info ==> LastHealth(evs, b) && LastSwitch(evs, b))
      && (b in w.info ==> w.info[b] == Info(LastWeight(evs, b), if LastHealth(evs, b) then LastWeight(evs, b) else 0,
                                            LastHealth(evs, b), LastSwitch(evs, b)))
  {
    hide Swrr.Select, Created, Swrr.Total;
    if evs == [] {
      NothingCreated(b);
    } else {
      var front, e := evs[..|evs|-1], evs[|evs|-1];
      InfoIsLatest(front, limit, b);
      CreatedOneMore(front, e, b);
      assert front + [e] == evs;
    }
  }

  /**
   After every run, exactly those backends are routed to that have been created, were last reported healthy,
   last switched on, and last configured with a positive weight.
   */
  lemma RoutableIff<B>(evs: seq<Event<B>>, limit: nat, b: B)
    requires Run(evs, limit)
    ensures b in Routable(Reached(evs))
       <==> Created(evs, b) && LastHealth(evs, b) && LastSwitch(evs, b) && LastWeight(evs, b) > 0
  {
    hide Reached, Created, LastHealth, LastSwitch, LastWeight, Run;
    InfoIsLatest(evs, limit, b);
  }

  lemma SquareRange(c: int, k: int, s: int)
    requires 0 <= k && c * c <= s <= k * k
    ensures -k <= c <= k
  {
    if c > k { MulMono(k + 1, c, c); MulMono(k + 1, c, k + 1); }
    if c < -k { MulMono(k + 1, -c, -c); MulMono(k + 1, -c, k + 1); }
  }

  /** While selections * limit^2 is at most MAX_INT^2, no current weight leaves the range of a Go int. */
  lemma InRange<B>(evs: seq<Event<B>>, limit: nat, b: B)
    requires Accounted(evs, limit) && b in Reached(evs).cur
    requires Picks(evs) * (limit * limit) <= MAX_INT * MAX_INT
    ensures -MAX_INT <= Reached(evs).cur[b] <= MAX_INT
  {
    EnergyBounds(Reached(evs).cur);
    SquareRange(Reached(evs).cur[b], MAX_INT, Energy(Reached(evs).cur));
  }

  /** A sweep raises each current weight, by at most the total. */
  lemma {:induction false} RaisedAtMost<B>(es: seq<Entry<B>>, on: set<B>, cur: map<B, int>, b: B)
    requires Known(es, cur) && Positive(es, on) && b in cur
    ensures cur[b] <= Sweep(es, on, cur).cur[b] <= cur[b] + Total(es, on)
  {
    if es == [] {
    } else {
      RaisedAtMost(es[..|es|-1], on, cur, b);
    }
  }

  /** The total after some of the entries is at most that after all of them. */
  lemma {:induction false} TotalSoFar<B>(es: seq<Entry<B>>, on: set<B>, i: nat)
    requires Positive(es, on) && i <= |es|
    ensures 0 <= Total(es[..i], on) <= Total(es, on)
  {
    TotalPositive(es[..i], on);
    if i == |es| {
      assert es[..i] == es;
    } else {
      TotalSoFar(es[..|es|-1], on, i);
      assert es[..|es|-1][..i] == es[..i];
    }
  }

  /**
   While selections * limit^2 is at most (MAX_INT - limit)^2, neither the raised weights that a further
   selection stores on its way nor its running total leave the range of a Go int.
   */
  lemma RaisedInRange<B>(evs: seq<Event<B>>, limit: nat, es: seq<Entry<B>>, i: nat, b: B)
    requires Accounted(evs, limit) && Fair(Reached(evs), Pick(es), limit) && i <= |es| && b in Reached(evs).cur
    requires limit <= MAX_INT && Picks(evs) * (limit * limit) <= (MAX_INT - limit) * (MAX_INT - limit)
    ensures var w := Reached(evs);
      var s := Sweep(es[..i], Routable(w), w.cur);
      -MAX_INT <= s.cur[b] <= MAX_INT && 0 <= Total(es[..i], Routable(w)) <= MAX_INT
  {
    var w := Reached(evs);
    hide Energy, Sum, Routable, Sweep, Total;
    EnergyBounds(w.cur);
    SquareRange(w.cur[b], MAX_INT - limit, Energy(w.cur));
    TotalSoFar(es, Routable(w), i);
    assert forall j :: 0 <= j < i ==> es[..i][j] == es[j];
    RaisedAtMost(es[..i], Routable(w), w.cur, b);
  }

  lemma EmptySums<B>()
    ensures Sum(Empty<B>().cur) == Energy(Empty<B>().cur) == 0
  {
  }

  lemma CreateStep<B>(w: World<B>, b: B)
    requires b !in w.cur
    ensures Sum(w.cur[b := 0]) == Sum(w.cur) && Energy(w.cur[b := 0]) == Energy(w.cur)
  {
    var c := w.cur[b := 0];
    assert c.Keys - {b} == w.cur.Keys;
    SumOverSplit(Identity, c.Keys, c, b);
    SumOverSame(Identity, w.cur.Keys, w.cur, c);
    SumOverSplit(Square, c.Keys, c, b);
    SumOverSame(Square, w.cur.Keys, w.cur, c);
  }

  lemma PickStep<B>(w: World<B>, es: seq<Entry<B>>, limit: nat)
    requires Fair(w, Pick(es), limit) && Sum(w.cur) == 0
    requires forall b :: b in w.cur ==> w.cur[b] >= -MAX_INT
    ensures Sum(Step(w, Pick(es)).cur) == 0
    ensures Energy(Step(w, Pick(es)).cur) <= Energy(w.cur) + Cost(w, es)
    ensures 0 <= Cost(w, es) <= limit * limit
  {
    var on := Routable(w);
    SelectConserves(es, on, w.cur);
    SelectEnergy(es, on, w.cur);
    SelectFailsIffNoneRoutable(es, on, w.cur);
    TotalPositive(es, on);
    MulMono(Total(es, on), limit, Total(es, on));
    MulMono(Total(es, on), limit, limit);
  }

  /**
   Over every run: the sum of all current weights is zero, effectiveWeight follows health, and the
   sum of squares of all current weights is at most the sum of W^2 - sum(w_i^2) over the selections,
   hence at most selections * limit^2.
   */
  lemma {:induction false} RunsStayAccounted<B>(evs: seq<Event<B>>, limit: nat)
    requires Run(evs, limit) && Picks(evs) * (limit * limit) <= MAX_INT * MAX_INT
    ensures Accounted(evs, limit)
  {
    hide Swrr.Select, Total, Squares, Cost, Energy, Sum;
    if evs == [] {
      EmptySums<B>();
    } else {
      var front, e := evs[..|evs|-1], evs[|evs|-1];
      var w := Reached(front);
      MulMono(Picks(front), Picks(evs), limit * limit);
      RunsStayAccounted(front, limit);
      match e
      case Create(b, _) => CreateStep(w, b);
      case Pick(es) =>
        forall b | b in w.cur ensures w.cur[b] >= -MAX_INT { InRange(front, limit, b); }
        PickStep(w, es, limit);
        assert (Picks(front) + 1) * (limit * limit) == Picks(front) * (limit * limit) + limit * limit;
      case _ =>
    }
  }

  /**
   The main consequence for routing: after any run, every current weight is within
   limit * sqrt(selections), and a selection on any positive pool fails exactly when none of its
   backends is healthy, enabled and positively weighted - the -MAX_INT sentinel never decides.
   */
  lemma RunsRouteSoundly<B>(evs: seq<Event<B>>, limit: nat, es: seq<Entry<B>>)
    requires Run(evs, limit) && Picks(evs) * (limit * limit) <= MAX_INT * MAX_INT
    requires var w := Reached(evs); Known(es, w.cur) && Positive(es, Routable(w))
    ensures var w := Reached(evs);
      && (forall b :: b in w.cur ==> w.cur[b] * w.cur[b] <= Picks(evs) * (limit * limit))
      && (Select(es, Routable(w), w.cur).pick.None? <==>
            forall i :: 0 <= i < |es| ==> !Serving(w, es[i].backend))
      && (Select(es, Routable(w), w.cur).pick.None? ==> Step(w, Pick(es)) == w)
  {
    var w := Reached(evs);
    RunsStayAccounted(evs, limit);
    EnergyBounds(w.cur);
    forall b | b in w.cur ensures w.cur[b] >= -MAX_INT { InRange(evs, limit, b); }
    SelectFailsIffNoneRoutable(es, Routable(w), w.cur);
  }

  /** Every entry has a positive weight, as in the pools that the gateway builds. */
  predicate AllPositive<B>(es: seq<Entry<B>>) {
    forall i :: 0 <= i < |es| ==> es[i].weight > 0
  }

  /** The total of the routable weights is at most that of all weights. */
  lemma {:induction false} TotalAtMost<B>(es: seq<Entry<B>>, on: set<B>, members: set<B>)
    requires AllPositive(es) && forall i :: 0 <= i < |es| ==> es[i].backend in members
    ensures Total(es, on) <= Total(es, members)
  {
    if es == [] {
    } else {
      TotalAtMost(es[..|es|-1], on, members);
    }
  }

  /** A selection on a pool that the gateway has built is sound after any run, whatever is routable. */
  lemma BuiltPoolsRouteSoundly<B>(evs: seq<Event<B>>, limit: nat, es: seq<Entry<B>>)
    requires Run(evs, limit) && Picks(evs) * (limit * limit) <= MAX_INT * MAX_INT
    requires AllPositive(es) && Known(es, Reached(evs).cur)
    ensures var w := Reached(evs);
      && (Select(es, Routable(w), w.cur).pick.None? <==>
            forall i :: 0 <= i < |es| ==> !Serving(w, es[i].backend))
      && (Select(es, Routable(w), w.cur).pick.None? ==> Step(w, Pick(es)) == w)
  {
    hide Swrr.Select, Routable, Serving;
    RunsRouteSoundly(evs, limit, es);
  }

  /** One more fair event makes a longer run. */
  lemma RunGoesOn<B>(evs: seq<Event<B>>, e: Event<B>, limit: nat)
    requires Run(evs, limit) && Fair(Reached(evs), e, limit)
    ensures Run(evs + [e], limit) && Reached(evs + [e]) == Step(Reached(evs), e)
  {
    hide Step, Fair;
    assert (evs + [e])[..|evs|] == evs;
  }
}
