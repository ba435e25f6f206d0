/**
 Runs of one pool whose routable set does not change: the exact weighted cycle, the deviation
 from the ideal share after every prefix, and the invariance of the picks under scaling.
 */
module SwrrCycle {
  import opened Wrappers
  import opened Swrr

  /** A pool of distinct backends with positive weights, some of them routable, whose total fits Go's int. */
  ghost predicate Pool<B>(es: seq<Entry<B>>, on: set<B>) {
    Distinct(es) && Positive(es, on) && SomeRoutable(es, on) && Total(es, on) <= MAX_INT
  }

  /** Every routable backend of the pool has current weight zero. */
  ghost predicate AtRest<B>(es: seq<Entry<B>>, on: set<B>, cur: map<B, int>)
    requires Known(es, cur)
  {
    forall i :: 0 <= i < |es| && es[i].backend in on ==> cur[es[i].backend] == 0
  }

  /** The current weights after k selections. */
  ghost function After<B>(es: seq<Entry<B>>, on: set<B>, cur: map<B, int>, k: nat): (r: map<B, int>)
    requires Known(es, cur)
    ensures r.Keys == cur.Keys
  {
    if k == 0 then cur else Select(es, on, After(es, on, cur, k - 1)).cur
  }

  /** The entry picked by selection number k, counted from zero. */
  ghost function PickAt<B>(es: seq<Entry<B>>, on: set<B>, cur: map<B, int>, k: nat): Option<nat>
    requires Known(es, cur)
  {
    Select(es, on, After(es, on, cur, k)).pick
  }

  /** How many of the first k selections picked entry i. */
  ghost function Count<B>(es: seq<Entry<B>>, on: set<B>, cur: map<B, int>, i: nat, k: nat): nat
    requires Known(es, cur)
  {
    if k == 0 then 0
    else Count(es, on, cur, i, k - 1) + if PickAt(es, on, cur, k - 1) == Some(i) then 1 else 0
  }

  /** The number of routable entries. */
  ghost function Routable<B>(es: seq<Entry<B>>, on: set<B>): nat {
    if es == [] then 0
    else Routable(es[..|es|-1], on) + if es[|es|-1].backend in on then 1 else 0
  }

  /** The sum of the current weights of the routable entries. */
  ghost function SumOn<B>(es: seq<Entry<B>>, on: set<B>, cur: map<B, int>): int
    requires Known(es, cur)
  {
    if es == [] then 0
    else SumOn(es[..|es|-1], on, cur) + if es[|es|-1].backend in on then cur[es[|es|-1].backend] else 0
  }

  /** Raising every routable weight and taking t off entry p moves the sum by total - t. */
  lemma {:induction false} SumOnMoves<B>(es: seq<Entry<B>>, on: set<B>, cur: map<B, int>, cur': map<B, int>, p: nat, t: int)
    requires Known(es, cur) && Known(es, cur')
    requires forall i :: 0 <= i < |es| && es[i].backend in on ==>
      cur'[es[i].backend] == cur[es[i].backend] + es[i].weight - if i == p then t else 0
    requires p < |es| ==> es[p].backend in on
    ensures SumOn(es, on, cur') == SumOn(es, on, cur) + Total(es, on) - if p < |es| then t else 0
  {
    if es == [] {
    } else {
      var front := es[..|es|-1];
      forall i | 0 <= i < |front| && front[i].backend in on
        ensures cur'[front[i].backend] == cur[front[i].backend] + front[i].weight - if i == p then t else 0
      {
        assert front[i] == es[i];
      }
      SumOnMoves(front, on, cur, cur', p, t);
    }
  }

  /** If no raised weight is positive, neither is their sum. */
  lemma {:induction false} SomeRaisedPositive<B>(es: seq<Entry<B>>, on: set<B>, cur: map<B, int>)
    requires Known(es, cur)
    requires SumOn(es, on, cur) + Total(es, on) > 0
    ensures exists i :: 0 <= i < |es| && es[i].backend in on && cur[es[i].backend] + es[i].weight > 0
  {
    if es == [] {
    } else {
      var e := es[|es|-1];
      if e.backend !in on || cur[e.backend] + e.weight <= 0 {
        var front := es[..|es|-1];
        SomeRaisedPositive(front, on, cur);
        var i :| 0 <= i < |front| && front[i].backend in on && cur[front[i].backend] + front[i].weight > 0;
        assert es[i] == front[i];
      }
    }
  }

  /** If no routable weight is below -d, the sum is at least any one weight minus d for each other entry. */
  lemma {:induction false} SumOnFloor<B>(es: seq<Entry<B>>, on: set<B>, cur: map<B, int>, d: int)
    requires Known(es, cur) && 0 <= d
    requires forall i :: 0 <= i < |es| && es[i].backend in on ==> cur[es[i].backend] >= -d
    ensures SumOn(es, on, cur) >= -(Routable(es, on) * d)
    ensures forall i :: 0 <= i < |es| && es[i].backend in on ==>
      SumOn(es, on, cur) >= cur[es[i].backend] - (Routable(es, on) - 1) * d
  {
    if es == [] {
    } else {
      var front := es[..|es|-1];
      forall i | 0 <= i < |front| && front[i].backend in on ensures cur[front[i].backend] >= -d {
        assert front[i] == es[i];
      }
      SumOnFloor(front, on, cur, d);
      var n := Routable(front, on);
      assert (n + 1) * d == n * d + d && (n - 1) * d == n * d - d;
      forall i | 0 <= i < |es| && es[i].backend in on
        ensures SumOn(es, on, cur) >= cur[es[i].backend] - (Routable(es, on) - 1) * d
      {
        if i < |front| { assert es[i] == front[i]; }
      }
    }
  }

  // ---------------------------------------------------------------------
  // The invariant of a run from rest
  // ---------------------------------------------------------------------

  /** What holds after k selections of a run from rest. */
  ghost predicate Balanced<B>(es: seq<Entry<B>>, on: set<B>, cur: map<B, int>, k: nat)
    requires Known(es, cur)
  {
    var now := After(es, on, cur, k);
    && (forall i :: 0 <= i < |es| && es[i].backend in on ==> now[es[i].backend] >= 1 - Total(es, on))
    && SumOn(es, on, now) == 0
    && (forall b :: b in cur && (b !in on || forall i :: 0 <= i < |es| ==> es[i].backend != b) ==>
          now[b] == cur[b])
  }

  lemma {:induction false} SumOnRest<B>(es: seq<Entry<B>>, on: set<B>, cur: map<B, int>)
    requires Known(es, cur) && AtRest(es, on, cur)
    ensures SumOn(es, on, cur) == 0
  {
    if es == [] {
    } else {
      var front := es[..|es|-1];
      assert AtRest(front, on, cur) by { assert forall i :: 0 <= i < |front| ==> front[i] == es[i]; }
      SumOnRest(front, on, cur);
    }
  }

  lemma BalancedStep<B>(es: seq<Entry<B>>, on: set<B>, cur: map<B, int>, k: nat)
    requires Known(es, cur) && Pool(es, on) && Balanced(es, on, cur, k)
    requires AboveSentinel(es, on, After(es, on, cur, k))
    ensures Balanced(es, on, cur, k + 1)
  {
    var was, now := After(es, on, cur, k), After(es, on, cur, k + 1);
    SelectPicksFirstHighest(es, on, was);
    SumOnMoves(es, on, was, now, PickAt(es, on, cur, k).value, Total(es, on));
    assert Total(es, on) > 0 by { TotalPositive(es, on); }
    SomeRaisedPositive(es, on, was);
  }

  /** Every run from rest stays balanced. */
  lemma {:induction false} StaysBalanced<B>(es: seq<Entry<B>>, on: set<B>, cur: map<B, int>, k: nat)
    requires Known(es, cur) && Pool(es, on) && AtRest(es, on, cur)
    ensures Balanced(es, on, cur, k)
    ensures AboveSentinel(es, on, After(es, on, cur, k))
  {
    hide Swrr.Select, SumOn;
    if k == 0 {
      SumOnRest(es, on, cur);
      TotalPositive(es, on);
    } else {
      StaysBalanced(es, on, cur, k - 1);
      BalancedStep(es, on, cur, k - 1);
    }
  }

  /** One more selection of a run from rest, as entry i sees it. */
  lemma EntryStep<B>(es: seq<Entry<B>>, on: set<B>, cur: map<B, int>, k: nat, i: nat)
    requires Known(es, cur) && Pool(es, on) && AtRest(es, on, cur)
    requires i < |es| && es[i].backend in on
    ensures var b := es[i].backend;
      After(es, on, cur, k + 1)[b] == After(es, on, cur, k)[b] + es[i].weight
        - if PickAt(es, on, cur, k) == Some(i) then Total(es, on) else 0
  {
    StaysBalanced(es, on, cur, k);
    SelectPicksFirstHighest(es, on, After(es, on, cur, k));
  }

  lemma LedgerStep(w: int, t: int, k: int, c: int)
    ensures k * w + w == (k + 1) * w && t * c + t == t * (c + 1)
  {
  }

  /** The books of one entry: k turns of w_i earned, W paid for each pick. */
  lemma {:induction false} Ledger<B>(es: seq<Entry<B>>, on: set<B>, cur: map<B, int>, k: nat, i: nat)
    requires Known(es, cur) && Pool(es, on) && AtRest(es, on, cur)
    requires i < |es| && es[i].backend in on
    ensures After(es, on, cur, k)[es[i].backend]
         == k * es[i].weight - Total(es, on) * Count(es, on, cur, i, k)
  {
    hide Swrr.Select, Total;
    if k == 0 {
    } else {
      Ledger(es, on, cur, k - 1, i);
      EntryStep(es, on, cur, k - 1, i);
      LedgerStep(es[i].weight, Total(es, on), k - 1, Count(es, on, cur, i, k - 1));
    }
  }

  // ---------------------------------------------------------------------
  // Main results
  // ---------------------------------------------------------------------

  /**
   Deviation at every prefix: after any k selections from rest, k * w_i - W * count_i is above -W
   and at most (n - 1) * (W - 1), where n is the number of routable entries.
   */
  lemma Deviation<B>(es: seq<Entry<B>>, on: set<B>, cur: map<B, int>, k: nat, i: nat)
    requires Known(es, cur) && Pool(es, on) && AtRest(es, on, cur)
    requires i < |es| && es[i].backend in on
    ensures var d := k * es[i].weight - Total(es, on) * Count(es, on, cur, i, k);
      -Total(es, on) < d <= (Routable(es, on) - 1) * (Total(es, on) - 1)
  {
    Ledger(es, on, cur, k, i);
    StaysBalanced(es, on, cur, k);
    assert Total(es, on) > 0 by { TotalPositive(es, on); }
    SumOnFloor(es, on, After(es, on, cur, k), Total(es, on) - 1);
  }

  lemma MultipleAbove(t: int, w: int, c: int)
    requires t > 0
    ensures t * w - t * c > -t ==> 0 <= t * w - t * c
    ensures t * w - t * c == 0 ==> w == c
  {
    assert t * w - t * c == t * (w - c);
    if w - c < 0 { MulMono(w - c, -1, t); }
    if w - c > 0 { MulMono(1, w - c, t); }
  }

  /** After W selections from rest entry i has been picked w_i times or fewer. */
  lemma NotOverServed<B>(es: seq<Entry<B>>, on: set<B>, cur: map<B, int>, i: nat)
    requires Known(es, cur) && Pool(es, on) && AtRest(es, on, cur)
    requires i < |es| && es[i].backend in on && Total(es, on) > 0
    ensures var left := After(es, on, cur, Total(es, on))[es[i].backend];
      0 <= left && (left == 0 ==> Count(es, on, cur, i, Total(es, on)) == es[i].weight)
  {
    var t := Total(es, on);
    Ledger(es, on, cur, t, i);
    StaysBalanced(es, on, cur, t);
    MultipleAbove(t, es[i].weight, Count(es, on, cur, i, t));
  }

  /** W selections from rest pick every routable entry exactly w_i times and restore every current weight. */
  lemma ExactCycle<B>(es: seq<Entry<B>>, on: set<B>, cur: map<B, int>)
    requires Known(es, cur) && Pool(es, on) && AtRest(es, on, cur)
    ensures Total(es, on) > 0
    ensures forall i :: 0 <= i < |es| && es[i].backend in on ==>
      Count(es, on, cur, i, Total(es, on)) == es[i].weight
    ensures After(es, on, cur, Total(es, on)) == cur
  {
    hide Swrr.Select, Count, SumOn;
    assert Total(es, on) > 0 by { TotalPositive(es, on); }
    var now := After(es, on, cur, Total(es, on));
    StaysBalanced(es, on, cur, Total(es, on));
    forall i | 0 <= i < |es| && es[i].backend in on
      ensures 0 <= now[es[i].backend]
      ensures now[es[i].backend] == 0 ==> Count(es, on, cur, i, Total(es, on)) == es[i].weight
    {
      NotOverServed(es, on, cur, i);
    }
    SumOnFloor(es, on, now, 0);
  }

  /** Going on for k selections after m is a run of m + k selections. */
  lemma {:induction false} AfterShift<B>(es: seq<Entry<B>>, on: set<B>, cur: map<B, int>, k: nat, m: nat)
    requires Known(es, cur)
    ensures After(es, on, cur, k + m) == After(es, on, After(es, on, cur, m), k)
  {
    hide Swrr.Select;
    if k == 0 {
    } else {
      AfterShift(es, on, cur, k - 1, m);
      assert k + m - 1 == k - 1 + m;
    }
  }

  /** The picks and the current weights repeat with period W. */
  lemma Periodic<B>(es: seq<Entry<B>>, on: set<B>, cur: map<B, int>, k: nat)
    requires Known(es, cur) && Pool(es, on) && AtRest(es, on, cur)
    ensures Total(es, on) > 0
    ensures After(es, on, cur, k + Total(es, on)) == After(es, on, cur, k)
    ensures PickAt(es, on, cur, k + Total(es, on)) == PickAt(es, on, cur, k)
  {
    hide Swrr.Select, Total;
    ExactCycle(es, on, cur);
    AfterShift(es, on, cur, k, Total(es, on));
  }

  lemma WindowArithmetic(k: int, t: int, w: int, c: int, c': int)
    requires t > 0 && (k + t) * w - t * c' == k * w - t * c
    ensures c' - c == w
  {
    assert (k + t) * w == k * w + t * w;
    MultipleAbove(t, w, c' - c) by { assert t * (c' - c) == t * c' - t * c; }
    assert t * (c' - c) == t * c' - t * c;
  }

  /** Every window of W consecutive picks contains entry i exactly w_i times. */
  lemma EveryWindowIsExact<B>(es: seq<Entry<B>>, on: set<B>, cur: map<B, int>, k: nat, i: nat)
    requires Known(es, cur) && Pool(es, on) && AtRest(es, on, cur)
    requires i < |es| && es[i].backend in on
    ensures Total(es, on) > 0
    ensures Count(es, on, cur, i, k + Total(es, on)) - Count(es, on, cur, i, k) == es[i].weight
  {
    hide Swrr.Select, Total;
    Periodic(es, on, cur, k);
    var t := Total(es, on);
    Ledger(es, on, cur, k, i);
    Ledger(es, on, cur, k + t, i);
    WindowArithmetic(k, t, es[i].weight, Count(es, on, cur, i, k), Count(es, on, cur, i, k + t));
  }

  // ---------------------------------------------------------------------
  // Scaling
  // ---------------------------------------------------------------------

  ghost function Times(g: int, x: int): int { g * x }

  lemma TimesLaws(g: int, x: int, y: int)
    requires g > 0
    ensures Times(g, x + y) == Times(g, x) + Times(g, y)
    ensures Times(g, x - y) == Times(g, x) - Times(g, y)
    ensures x < y <==> Times(g, x) < Times(g, y)
    ensures x <= y <==> Times(g, x) <= Times(g, y)
  {
    if x <= y { MulMono(x, y, g); } else { MulMono(y, x - 1, g); }
    if x < y { MulMono(x, y - 1, g); }
  }

  /** The same pool with every weight multiplied by g. */
  ghost function Scaled<B>(es: seq<Entry<B>>, g: int): (r: seq<Entry<B>>)
    ensures |r| == |es|
    ensures forall i :: 0 <= i < |es| ==>
      r[i].backend == es[i].backend && r[i].weight == Times(g, es[i].weight)
  {
    seq(|es|, i requires 0 <= i < |es| => Entry(es[i].backend, Times(g, es[i].weight)))
  }

  lemma {:induction false} ScaledTotal<B>(es: seq<Entry<B>>, on: set<B>, g: int)
    requires g > 0
    ensures Total(Scaled(es, g), on) == Times(g, Total(es, on))
  {
    if es == [] {
    } else {
      var front := es[..|es|-1];
      ScaledTotal(front, on, g);
      assert Scaled(es, g)[..|es|-1] == Scaled(front, g);
      TimesLaws(g, Total(front, on), es[|es|-1].weight);
    }
  }

  lemma ScaledPool<B>(es: seq<Entry<B>>, on: set<B>, g: int)
    requires g > 0 && Pool(Scaled(es, g), on)
    ensures Pool(es, on)
  {
    ScaledTotal(es, on, g);
    var gs := Scaled(es, g);
    assert 0 < Times(g, Total(es, on)) <= MAX_INT by { TotalPositive(gs, on); }
    TimesLaws(g, 0, Total(es, on));
    MulMono(1, g, Total(es, on));
    hide Total;
    forall i | 0 <= i < |es| && es[i].backend in on ensures es[i].weight > 0 {
      assert gs[i].backend in on;
      TimesLaws(g, 0, es[i].weight);
    }
    var i :| 0 <= i < |gs| && gs[i].backend in on;
    assert es[i].backend in on;
    assert forall i :: 0 <= i < |es| ==> gs[i].backend == es[i].backend;
  }

  /** The routable current weights in `gcur` are g times those in `cur`. */
  ghost predicate IsScaled<B>(es: seq<Entry<B>>, on: set<B>, cur: map<B, int>, gcur: map<B, int>, g: int)
    requires Known(es, cur) && Known(es, gcur)
  {
    forall i :: 0 <= i < |es| && es[i].backend in on ==> gcur[es[i].backend] == Times(g, cur[es[i].backend])
  }

  lemma ScaledPick<B>(es: seq<Entry<B>>, on: set<B>, cur: map<B, int>, gcur: map<B, int>, g: int)
    requires g > 0 && Pool(es, on) && Pool(Scaled(es, g), on)
    requires Known(es, cur) && Known(es, gcur) && IsScaled(es, on, cur, gcur, g)
    requires AboveSentinel(es, on, cur) && AboveSentinel(Scaled(es, g), on, gcur)
    ensures Select(Scaled(es, g), on, gcur).pick == Select(es, on, cur).pick
  {
    hide Swrr.Select, Times, Scaled, Total;
    var gs := Scaled(es, g);
    SelectPicksFirstHighest(es, on, cur);
    SelectPicksFirstHighest(gs, on, gcur);
    var p := Select(es, on, cur).pick.value;
    forall j | 0 <= j < |gs| && gs[j].backend in on
      ensures gcur[gs[j].backend] + gs[j].weight == Times(g, cur[es[j].backend] + es[j].weight)
    {
      assert es[j].backend == gs[j].backend;
      TimesLaws(g, cur[es[j].backend], es[j].weight);
    }
    forall j | 0 <= j < |gs| && gs[j].backend in on
      ensures gcur[gs[j].backend] + gs[j].weight <= gcur[gs[p].backend] + gs[p].weight
      ensures j < p ==> gcur[gs[j].backend] + gs[j].weight < gcur[gs[p].backend] + gs[p].weight
    {
      TimesLaws(g, cur[es[j].backend] + es[j].weight, cur[es[p].backend] + es[p].weight);
    }
    FirstHighestUnique(gs, on, gcur, p, Select(gs, on, gcur).pick.value);
  }

  lemma ScaledSelect<B>(es: seq<Entry<B>>, on: set<B>, cur: map<B, int>, gcur: map<B, int>, g: int)
    requires g > 0 && Pool(es, on) && Pool(Scaled(es, g), on)
    requires Known(es, cur) && Known(es, gcur) && IsScaled(es, on, cur, gcur, g)
    requires AboveSentinel(es, on, cur) && AboveSentinel(Scaled(es, g), on, gcur)
    ensures Select(Scaled(es, g), on, gcur).pick == Select(es, on, cur).pick
    ensures IsScaled(es, on, Select(es, on, cur).cur, Select(Scaled(es, g), on, gcur).cur, g)
  {
    hide Swrr.Select, Times, Scaled, Total;
    var gs := Scaled(es, g);
    ScaledPick(es, on, cur, gcur, g);
    SelectPicksFirstHighest(es, on, cur);
    SelectPicksFirstHighest(gs, on, gcur);
    ScaledTotal(es, on, g);
    forall i | 0 <= i < |es| && es[i].backend in on
      ensures Select(gs, on, gcur).cur[es[i].backend] == Times(g, Select(es, on, cur).cur[es[i].backend])
    {
      assert gs[i].backend == es[i].backend;
      TimesLaws(g, cur[es[i].backend], es[i].weight);
      TimesLaws(g, cur[es[i].backend] + es[i].weight, Total(es, on));
    }
  }

  lemma ScaledSelectAt<B>(es: seq<Entry<B>>, on: set<B>, cur: map<B, int>, g: int, k: nat)
    requires g > 0 && Pool(es, on) && Pool(Scaled(es, g), on)
    requires Known(es, cur) && AtRest(es, on, cur)
    requires IsScaled(es, on, After(es, on, cur, k), After(Scaled(es, g), on, cur, k), g)
    ensures PickAt(Scaled(es, g), on, cur, k) == PickAt(es, on, cur, k)
    ensures IsScaled(es, on, After(es, on, cur, k + 1), After(Scaled(es, g), on, cur, k + 1), g)
  {
    hide Swrr.Select, Times, Scaled, Total;
    StaysBalanced(es, on, cur, k);
    StaysBalanced(Scaled(es, g), on, cur, k);
    ScaledSelect(es, on, After(es, on, cur, k), After(Scaled(es, g), on, cur, k), g);
  }

  /** Multiplying all weights by g multiplies the current weights by g and leaves every pick as it is. */
  lemma {:induction false} ScalingKeepsPicks<B>(es: seq<Entry<B>>, on: set<B>, cur: map<B, int>, g: int, k: nat)
    requires g > 0 && Pool(Scaled(es, g), on)
    requires Known(es, cur) && AtRest(es, on, cur)
    ensures IsScaled(es, on, After(es, on, cur, k), After(Scaled(es, g), on, cur, k), g)
    ensures PickAt(Scaled(es, g), on, cur, k) == PickAt(es, on, cur, k)
  {
    hide Swrr.Select, Times, Scaled, Total, PickAt, Pool;
    ScaledPool(es, on, g);
    if k == 0 {
      TimesLaws(g, 0, 0);
    } else {
      ScalingKeepsPicks(es, on, cur, g, k - 1);
      ScaledSelectAt(es, on, cur, g, k - 1);
    }
    ScaledSelectAt(es, on, cur, g, k);
  }

  lemma {:induction false} ScalingKeepsCounts<B>(es: seq<Entry<B>>, on: set<B>, cur: map<B, int>, g: int, i: nat, k: nat)
    requires g > 0 && Pool(Scaled(es, g), on)
    requires Known(es, cur) && AtRest(es, on, cur)
    ensures Count(Scaled(es, g), on, cur, i, k) == Count(es, on, cur, i, k)
  {
    hide Swrr.Select, Scaled, Total, PickAt, After;
    if k == 0 {
    } else {
      ScalingKeepsCounts(es, on, cur, g, i, k - 1);
      ScalingKeepsPicks(es, on, cur, g, k - 1);
    }
  }

  /**
   With a common factor g in all weights the cycle is g times shorter: sum(v_i) selections of the
   pool with weights g * v_i pick entry i exactly v_i times and restore the current weights.
   */
  lemma ShortCycle<B>(es: seq<Entry<B>>, on: set<B>, cur: map<B, int>, g: int)
    requires g > 0 && Pool(Scaled(es, g), on)
    requires Known(es, cur) && AtRest(es, on, cur)
    ensures Total(es, on) > 0
    ensures forall i :: 0 <= i < |es| && es[i].backend in on ==>
      Count(Scaled(es, g), on, cur, i, Total(es, on)) == es[i].weight
    ensures After(Scaled(es, g), on, cur, Total(es, on)) == cur
  {
    hide Swrr.Select, Times, Scaled, Total, After, Count, Pool;
    ScaledPool(es, on, g);
    TimesLaws(g, 0, 0);
    ExactCycle(es, on, cur);
    var t, gs := Total(es, on), Scaled(es, g);
    ScalingKeepsPicks(es, on, cur, g, t);
    StaysBalanced(gs, on, cur, t);
    forall i | 0 <= i < |es| && es[i].backend in on
      ensures Count(gs, on, cur, i, t) == es[i].weight
    {
      ScalingKeepsCounts(es, on, cur, g, i, t);
    }
    var now := After(gs, on, cur, t);
    forall b | b in cur ensures now[b] == cur[b] {
      if b !in on || forall i :: 0 <= i < |es| ==> es[i].backend != b {
        assert forall i :: 0 <= i < |gs| ==> gs[i].backend == es[i].backend;
      }
    }
  }

  /** So the states and the picks of the scaled pool repeat after sum(v_i) selections. */
  lemma ShortPeriod<B>(es: seq<Entry<B>>, on: set<B>, cur: map<B, int>, g: int, k: nat)
    requires g > 0 && Pool(Scaled(es, g), on)
    requires Known(es, cur) && AtRest(es, on, cur)
    ensures Total(es, on) > 0
    ensures After(Scaled(es, g), on, cur, k + Total(es, on)) == After(Scaled(es, g), on, cur, k)
    ensures PickAt(Scaled(es, g), on, cur, k + Total(es, on)) == PickAt(Scaled(es, g), on, cur, k)
  {
    hide Swrr.Select, Total, Scaled, Pool;
    ShortCycle(es, on, cur, g);
    AfterShift(Scaled(es, g), on, cur, k, Total(es, on));
  }
}
