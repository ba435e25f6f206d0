/**
 Smooth weighted round-robin over values.

 `Select` is the function that one call of `BackendPool.Select` computes on the
 current weights of the backends.  It is stated over a map from backends to
 current weights, because the same backend takes part in many pools: every pool
 built for a request updates the same map.  Go's `int` is modelled by unbounded
 integers; `InRange` and `RaisedInRange` (in World.dfy) bound how far they can go.
 */
module Swrr {
  import opened Wrappers

  /** A backend together with its weight in one pool. */
  datatype Entry<B> = Entry(backend: B, weight: int)

  /** What the loop has computed after some entries; `best` is -1 before a first candidate. */
  datatype Swept<B> = Swept(cur: map<B, int>, total: int, best: int, bestWeight: int)

  /** The current weights after a call and the index of the picked entry. */
  datatype Selection<B> = Selection(cur: map<B, int>, pick: Option<nat>)

  ghost predicate Known<B>(es: seq<Entry<B>>, cur: map<B, int>) {
    forall i :: 0 <= i < |es| ==> es[i].backend in cur
  }

  ghost predicate Distinct<B>(es: seq<Entry<B>>) {
    forall i, j :: 0 <= i < j < |es| ==> es[i].backend != es[j].backend
  }

  ghost predicate Positive<B>(es: seq<Entry<B>>, on: set<B>) {
    forall i :: 0 <= i < |es| && es[i].backend in on ==> es[i].weight > 0
  }

  ghost predicate SomeRoutable<B>(es: seq<Entry<B>>, on: set<B>) {
    exists i :: 0 <= i < |es| && es[i].backend in on
  }

  /** One turn of the loop of a selection, on entry number i. */
  ghost function Advance<B>(s: Swept<B>, e: Entry<B>, i: nat, on: set<B>): Swept<B>
    requires e.backend in s.cur
  {
    if e.backend !in on then s
    else
      var c := s.cur[e.backend] + e.weight;
      var next := s.(cur := s.cur[e.backend := c], total := s.total + e.weight);
      if c > s.bestWeight then next.(best := i, bestWeight := c) else next
  }

  /** The loop of a selection, last entry outermost. */
  ghost function Sweep<B>(es: seq<Entry<B>>, on: set<B>, cur: map<B, int>): (s: Swept<B>)
    requires Known(es, cur)
    ensures s.cur.Keys == cur.Keys
    ensures -1 <= s.best < |es|
    ensures s.best == -1 ==> s.bestWeight == -MAX_INT
    ensures s.best >= 0 ==> es[s.best].backend in on
  {
    if es == [] then Swept(cur, 0, -1, -MAX_INT)
    else Advance(Sweep(es[..|es|-1], on, cur), es[|es|-1], |es| - 1, on)
  }

  /** One selection: sweep, then take the total off the best entry. */
  ghost function Select<B>(es: seq<Entry<B>>, on: set<B>, cur: map<B, int>): (r: Selection<B>)
    requires Known(es, cur)
    ensures r.cur.Keys == cur.Keys
    ensures r.pick.Some? ==> r.pick.value < |es| && es[r.pick.value].backend in on
  {
    var s := Sweep(es, on, cur);
    if s.best == -1 || s.total == 0 then Selection(s.cur, None)
    else
      var b := es[s.best].backend;
      Selection(s.cur[b := s.cur[b] - s.total], Some(s.best))
  }

  /** The sum of the weights of the routable entries. */
  ghost function Total<B>(es: seq<Entry<B>>, on: set<B>): int {
    if es == [] then 0
    else Total(es[..|es|-1], on) + if es[|es|-1].backend in on then es[|es|-1].weight else 0
  }

  /** The sum of the squared weights of the routable entries. */
  ghost function Squares<B>(es: seq<Entry<B>>, on: set<B>): int {
    if es == [] then 0
    else
      var w := es[|es|-1].weight;
      Squares(es[..|es|-1], on) + if es[|es|-1].backend in on then w * w else 0
  }

  lemma {:induction false} SweepTotal<B>(es: seq<Entry<B>>, on: set<B>, cur: map<B, int>)
    requires Known(es, cur)
    ensures Sweep(es, on, cur).total == Total(es, on)
  {
    if es == [] {
    } else {
      SweepTotal(es[..|es|-1], on, cur);
    }
  }

  lemma {:induction false} TotalPositive<B>(es: seq<Entry<B>>, on: set<B>)
    requires Positive(es, on)
    ensures 0 <= Squares(es, on) && 0 <= Total(es, on)
    ensures Squares(es, on) <= Total(es, on) * Total(es, on)
    ensures Total(es, on) > 0 <==> SomeRoutable(es, on)
    ensures forall i :: 0 <= i < |es| && es[i].backend in on ==> es[i].weight <= Total(es, on)
  {
    if es == [] {
    } else {
      var front := es[..|es|-1];
      TotalPositive(front, on);
      var e := es[|es|-1];
      if e.backend in on {
        var t, w := Total(front, on), e.weight;
        assert (t + w) * (t + w) == t * t + 2 * (t * w) + w * w;
        assert t * w >= 0;
      } else if SomeRoutable(es, on) {
        var i :| 0 <= i < |es| && es[i].backend in on;
        assert front[i] == es[i];
      }
    }
  }

  // ---------------------------------------------------------------------
  // When a selection fails, and which entry it picks
  // ---------------------------------------------------------------------

  /** No routable current weight is below the sentinel -MAX_INT that a sweep starts from. */
  ghost predicate AboveSentinel<B>(es: seq<Entry<B>>, on: set<B>, cur: map<B, int>)
    requires Known(es, cur)
  {
    forall i :: 0 <= i < |es| && es[i].backend in on ==> cur[es[i].backend] >= -MAX_INT
  }

  /** A sweep only raises weights, and `bestWeight` is the current weight of its best backend. */
  lemma {:induction false} SweepBest<B>(es: seq<Entry<B>>, on: set<B>, cur: map<B, int>)
    requires Known(es, cur) && Positive(es, on) && AboveSentinel(es, on, cur)
    ensures var s := Sweep(es, on, cur);
      && (forall b :: b in cur ==> s.cur[b] >= cur[b])
      && (forall b :: b in cur && b !in on ==> s.cur[b] == cur[b])
      && (s.best == -1 <==> !SomeRoutable(es, on))
      && (s.best == -1 ==> s.cur == cur)
      && (s.best >= 0 ==> s.cur[es[s.best].backend] == s.bestWeight)
      && (forall i :: 0 <= i < |es| && es[i].backend in on ==> s.cur[es[i].backend] <= s.bestWeight)
  {
    if es == [] {
    } else {
      var front := es[..|es|-1];
      SweepBest(front, on, cur);
      if es[|es|-1].backend !in on && SomeRoutable(es, on) {
        var i :| 0 <= i < |es| && es[i].backend in on;
        assert front[i] == es[i];
      }
    }
  }

  /**
   With positive weights, a selection fails exactly when no entry is routable,
   and then it changes nothing.
   */
  lemma SelectFailsIffNoneRoutable<B>(es: seq<Entry<B>>, on: set<B>, cur: map<B, int>)
    requires Known(es, cur) && Positive(es, on) && AboveSentinel(es, on, cur)
    ensures Select(es, on, cur).pick.None? <==> !SomeRoutable(es, on)
    ensures Select(es, on, cur).pick.None? ==> Select(es, on, cur).cur == cur
  {
    SweepBest(es, on, cur);
    SweepTotal(es, on, cur);
    TotalPositive(es, on);
  }

  /** Entry i is the first routable one whose raised weight no other routable entry exceeds. */
  ghost predicate FirstHighest<B>(es: seq<Entry<B>>, on: set<B>, cur: map<B, int>, i: nat)
    requires Known(es, cur)
  {
    && i < |es| && es[i].backend in on
    && forall j {:trigger es[j].backend} :: 0 <= j < |es| && es[j].backend in on ==>
         && cur[es[j].backend] + es[j].weight <= cur[es[i].backend] + es[i].weight
         && (j < i ==> cur[es[j].backend] + es[j].weight < cur[es[i].backend] + es[i].weight)
  }

  /** A sweep does not touch a backend that is not routable or not in the pool. */
  lemma {:induction false} SweepKeeps<B>(es: seq<Entry<B>>, on: set<B>, cur: map<B, int>, b: B)
    requires Known(es, cur) && b in cur
    requires b !in on || forall i :: 0 <= i < |es| ==> es[i].backend != b
    ensures Sweep(es, on, cur).cur[b] == cur[b]
  {
    if es == [] {
    } else {
      SweepKeeps(es[..|es|-1], on, cur, b);
    }
  }

  /** A sweep raises a routable backend that occurs once by its weight. */
  lemma {:induction false} SweepRaises<B>(es: seq<Entry<B>>, on: set<B>, cur: map<B, int>, i: nat)
    requires Known(es, cur) && Distinct(es) && i < |es| && es[i].backend in on
    ensures Sweep(es, on, cur).cur[es[i].backend] == cur[es[i].backend] + es[i].weight
  {
    var n := |es| - 1;
    if i == n {
      SweepKeeps(es[..n], on, cur, es[n].backend);
    } else {
      assert es[..n][i] == es[i];
      SweepRaises(es[..n], on, cur, i);
    }
  }

  /** If the best entry is the first highest one, its weight bounds those of all routable entries. */
  lemma BestBounds<B>(es: seq<Entry<B>>, on: set<B>, cur: map<B, int>)
    requires Known(es, cur) && Positive(es, on) && AboveSentinel(es, on, cur) && Distinct(es)
    requires var s := Sweep(es, on, cur); s.best >= 0 ==>
      FirstHighest(es, on, cur, s.best) && s.bestWeight == cur[es[s.best].backend] + es[s.best].weight
    ensures var s := Sweep(es, on, cur);
      forall j {:trigger es[j].backend} :: 0 <= j < |es| && es[j].backend in on ==>
        && s.best >= 0 && cur[es[j].backend] + es[j].weight <= s.bestWeight
        && (j < s.best ==> cur[es[j].backend] + es[j].weight < s.bestWeight)
  {
    SweepBest(es, on, cur);
  }

  /** The last entry is the best one exactly if it exceeds the best one before it. */
  lemma LastMayBeBest<B>(es: seq<Entry<B>>, on: set<B>, cur: map<B, int>, s: Swept<B>)
    requires Known(es, cur) && es != [] && -1 <= s.best < |es| - 1 && s.cur.Keys == cur.Keys
    requires var last := es[|es|-1]; s.cur[last.backend] == cur[last.backend]
    requires s.best >= 0 ==> es[s.best].backend in on && s.bestWeight == cur[es[s.best].backend] + es[s.best].weight
    requires forall j {:trigger es[j]} :: 0 <= j < |es| - 1 && es[j].backend in on ==>
        && s.best >= 0 && cur[es[j].backend] + es[j].weight <= s.bestWeight
        && (j < s.best ==> cur[es[j].backend] + es[j].weight < s.bestWeight)
    ensures var n := Advance(s, es[|es|-1], |es| - 1, on);
      n.best >= 0 ==> FirstHighest(es, on, cur, n.best) && n.bestWeight == cur[es[n.best].backend] + es[n.best].weight
  {
  }

  /** The best entry of a sweep is the first one with the highest raised weight. */
  lemma {:induction false} SweepFindsFirst<B>(es: seq<Entry<B>>, on: set<B>, cur: map<B, int>)
    requires Known(es, cur) && Positive(es, on) && AboveSentinel(es, on, cur) && Distinct(es)
    ensures var s := Sweep(es, on, cur);
      s.best >= 0 ==>
        && FirstHighest(es, on, cur, s.best)
        && s.bestWeight == cur[es[s.best].backend] + es[s.best].weight
  {
    if es == [] {
    } else {
      var n := |es| - 1;
      var front := es[..n];
      SweepFindsFirst(front, on, cur);
      BestBounds(front, on, cur);
      SweepKeeps(front, on, cur, es[n].backend);
      LastMayBeBest(es, on, cur, Sweep(front, on, cur));
    }
  }

  /**
   What one successful selection does to a pool of distinct backends: it picks the first entry
   with the highest raised weight, raises every routable entry by its weight, takes the total off
   the picked one and touches nothing else.
   */
  lemma SelectPicksFirstHighest<B>(es: seq<Entry<B>>, on: set<B>, cur: map<B, int>)
    requires Known(es, cur) && Positive(es, on) && AboveSentinel(es, on, cur) && Distinct(es)
    requires SomeRoutable(es, on)
    ensures var r := Select(es, on, cur);
      && r.pick.Some?
      && FirstHighest(es, on, cur, r.pick.value)
      && (forall i :: 0 <= i < |es| && es[i].backend in on ==>
            r.cur[es[i].backend] == cur[es[i].backend] + es[i].weight
              - if i == r.pick.value then Total(es, on) else 0)
      && (forall b :: b in cur && (b !in on || forall i :: 0 <= i < |es| ==> es[i].backend != b) ==>
            r.cur[b] == cur[b])
  {
    hide Sweep, Total;
    SelectFailsIffNoneRoutable(es, on, cur);
    SweepFindsFirst(es, on, cur);
    SweepTotal(es, on, cur);
    forall i | 0 <= i < |es| && es[i].backend in on
      ensures Sweep(es, on, cur).cur[es[i].backend] == cur[es[i].backend] + es[i].weight
    {
      SweepRaises(es, on, cur, i);
    }
    forall b | b in cur && (b !in on || forall i :: 0 <= i < |es| ==> es[i].backend != b)
      ensures Sweep(es, on, cur).cur[b] == cur[b]
    {
      SweepKeeps(es, on, cur, b);
    }
  }

  lemma FirstHighestUnique<B>(es: seq<Entry<B>>, on: set<B>, cur: map<B, int>, i: nat, j: nat)
    requires Known(es, cur) && FirstHighest(es, on, cur, i) && FirstHighest(es, on, cur, j)
    ensures i == j
  {
  }

  // ---------------------------------------------------------------------
  // Sums over all backends: conservation and energy
  // ---------------------------------------------------------------------

  ghost function Identity(x: int): int { x }

  ghost function Square(x: int): int { x * x }

  /** The sum of f over the current weights of the backends in s. */
  ghost function SumOver<B>(f: int -> int, s: set<B>, cur: map<B, int>): int
    requires s <= cur.Keys
  {
    if s == {} then 0
    else
      var b :| b in s;
      f(cur[b]) + SumOver(f, s - {b}, cur)
  }

  lemma {:induction false} SumOverSplit<B>(f: int -> int, s: set<B>, cur: map<B, int>, b: B)
    requires b in s && s <= cur.Keys
    ensures SumOver(f, s, cur) == f(cur[b]) + SumOver(f, s - {b}, cur)
  {
    var x :| x in s && SumOver(f, s, cur) == f(cur[x]) + SumOver(f, s - {x}, cur);
    if x != b {
      SumOverSplit(f, s - {x}, cur, b);
      SumOverSplit(f, s - {b}, cur, x);
      assert s - {x} - {b} == s - {b} - {x};
    }
  }

  lemma {:induction false} SumOverSame<B>(f: int -> int, s: set<B>, cur: map<B, int>, cur': map<B, int>)
    requires s <= cur.Keys && s <= cur'.Keys
    requires forall b :: b in s ==> cur[b] == cur'[b]
    ensures SumOver(f, s, cur) == SumOver(f, s, cur')
  {
    if s != {} {
      var x :| x in s && SumOver(f, s, cur) == f(cur[x]) + SumOver(f, s - {x}, cur);
      SumOverSame(f, s - {x}, cur, cur');
      SumOverSplit(f, s, cur', x);
    }
  }

  lemma SumOverUpdate<B>(f: int -> int, cur: map<B, int>, b: B, v: int)
    requires b in cur
    ensures SumOver(f, cur[b := v].Keys, cur[b := v]) == SumOver(f, cur.Keys, cur) - f(cur[b]) + f(v)
  {
    assert cur[b := v].Keys == cur.Keys;
    SumOverSplit(f, cur.Keys, cur, b);
    SumOverSplit(f, cur.Keys, cur[b := v], b);
    SumOverSame(f, cur.Keys - {b}, cur, cur[b := v]);
  }

  ghost function Sum<B>(cur: map<B, int>): int { SumOver(Identity, cur.Keys, cur) }

  /** The potential that bounds the current weights when pools and routable sets keep changing. */
  ghost function Energy<B>(cur: map<B, int>): int { SumOver(Square, cur.Keys, cur) }

  lemma {:induction false} SumOverSquareBounds<B>(s: set<B>, cur: map<B, int>)
    requires s <= cur.Keys
    ensures SumOver(Square, s, cur) >= 0
    ensures forall b :: b in s ==> cur[b] * cur[b] <= SumOver(Square, s, cur)
  {
    if s != {} {
      var x :| x in s && SumOver(Square, s, cur) == Square(cur[x]) + SumOver(Square, s - {x}, cur);
      SumOverSquareBounds(s - {x}, cur);
      assert cur[x] * cur[x] >= 0;
    }
  }

  /** No single current weight is larger, squared, than the energy. */
  lemma EnergyBounds<B>(cur: map<B, int>)
    ensures Energy(cur) >= 0
    ensures forall b :: b in cur ==> cur[b] * cur[b] <= Energy(cur)
  {
    SumOverSquareBounds(cur.Keys, cur);
  }

  lemma {:induction false} SweepSum<B>(es: seq<Entry<B>>, on: set<B>, cur: map<B, int>)
    requires Known(es, cur)
    ensures Sum(Sweep(es, on, cur).cur) == Sum(cur) + Total(es, on)
  {
    if es == [] {
    } else {
      var front := es[..|es|-1];
      SweepSum(front, on, cur);
      var s, e := Sweep(front, on, cur), es[|es|-1];
      if e.backend in on { SumOverUpdate(Identity, s.cur, e.backend, s.cur[e.backend] + e.weight); }
    }
  }

  /** Whatever the weights, a selection that picks a backend leaves the sum of all current weights as it was. */
  lemma SelectConserves<B>(es: seq<Entry<B>>, on: set<B>, cur: map<B, int>)
    requires Known(es, cur)
    ensures Select(es, on, cur).pick.Some? ==> Sum(Select(es, on, cur).cur) == Sum(cur)
  {
    SweepSum(es, on, cur);
    SweepTotal(es, on, cur);
    var s := Sweep(es, on, cur);
    if Select(es, on, cur).pick.Some? {
      var b := es[s.best].backend;
      SumOverUpdate(Identity, s.cur, b, s.cur[b] - s.total);
    }
  }

  lemma MulMono(x: int, y: int, k: int)
    requires x <= y && 0 <= k
    ensures x * k <= y * k
  {
    assert (y - x) * k >= 0;
  }

  /** Twice the product of the best weight and the total of a sweep. */
  ghost function Potential(best: int, total: int): int {
    2 * (best * total)
  }

  lemma EnergyStep(was: int, w: int, best: int, best': int, t: int)
    requires best <= best' && was + w <= best' && 0 <= t && 0 < w
    ensures Square(was + w) - Square(was) + Potential(best, t) <= Potential(best', t + w) - Square(w)
  {
    calc {
      Square(was + w) - Square(was);
      (was + w) * (was + w) - was * was;
      2 * ((was + w) * w) - w * w;
    }
    MulMono(was + w, best', w);
    MulMono(best, best', t);
    assert best' * (t + w) == best' * t + best' * w;
  }

  lemma NoPotential()
    ensures Potential(-MAX_INT, 0) == 0
  {
  }

  lemma SquaresLast<B>(es: seq<Entry<B>>, on: set<B>)
    requires es != []
    ensures var e := es[|es|-1];
      Squares(es, on) == Squares(es[..|es|-1], on) + if e.backend in on then Square(e.weight) else 0
  {
  }

  /** A sweep raises the energy by at most twice (best * total) minus the squares of the weights. */
  lemma {:induction false} SweepEnergy<B>(es: seq<Entry<B>>, on: set<B>, cur: map<B, int>)
    requires Known(es, cur) && Positive(es, on) && AboveSentinel(es, on, cur)
    ensures var s := Sweep(es, on, cur);
      Energy(s.cur) <= Energy(cur) + Potential(s.bestWeight, Total(es, on)) - Squares(es, on)
  {
    hide Potential, Square, SumOver, SomeRoutable;
    if es == [] {
      assert Potential(-MAX_INT, 0) == 0 by { NoPotential(); }
    } else {
      var front := es[..|es|-1];
      assert AboveSentinel(front, on, cur) && Positive(front, on) && Known(front, cur);
      SweepEnergy(front, on, cur);
      SquaresLast(es, on);
      SweepBest(front, on, cur);
      TotalPositive(front, on);
      var s, e := Sweep(front, on, cur), es[|es|-1];
      if e.backend in on {
        var was, w := s.cur[e.backend], e.weight;
        SumOverUpdate(Square, s.cur, e.backend, was + w);
        EnergyStep(was, w, s.bestWeight, Sweep(es, on, cur).bestWeight, Total(front, on));
      }
    }
  }

  lemma SquareOfDifference(m: int, t: int)
    ensures Square(m - t) == Square(m) - 2 * (m * t) + t * t
  {
    assert (m - t) * (m - t) == m * m - 2 * (m * t) + t * t;
  }

  /**
   The energy bound: one selection, on any pool with positive weights and whatever is routable,
   raises the sum of squares of all current weights by at most W^2 - sum(w_i^2).
   */
  lemma SelectEnergy<B>(es: seq<Entry<B>>, on: set<B>, cur: map<B, int>)
    requires Known(es, cur) && Positive(es, on) && AboveSentinel(es, on, cur)
    ensures Energy(Select(es, on, cur).cur)
         <= Energy(cur) + Total(es, on) * Total(es, on) - Squares(es, on)
  {
    SelectFailsIffNoneRoutable(es, on, cur);
    TotalPositive(es, on);
    if SomeRoutable(es, on) {
      SweepEnergy(es, on, cur);
      SweepBest(es, on, cur);
      SweepTotal(es, on, cur);
      var s, t := Sweep(es, on, cur), Total(es, on);
      var b, m := es[s.best].backend, s.bestWeight;
      SumOverUpdate(Square, s.cur, b, m - t);
      SquareOfDifference(m, t);
    }
  }
}
