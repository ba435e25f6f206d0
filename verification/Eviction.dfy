/**
 When dropping idle buckets can be seen from outside.  A run of requests and clean-ups is answered
 twice: by a store that drops idle buckets and by one that never does.
 */
module Eviction {
  import opened T = TokenBucket
  import opened Limiter
  import opened Text

  /** A request creates a missing bucket at `created` and takes its token at `now`; a clean-up looks at one key. */
  datatype Event =
    | Request(key: string, created: real, now: real)
    | Cleanup(key: string, now: real)

  /** How every key is served, and the idle time after which the clean-up drops its bucket. */
  datatype Policy = Policy(serve: string -> Settings, ttl: string -> real)

  ghost function Next(p: Policy, m: Buckets, e: Event, evict: bool): Buckets {
    match e
    case Request(key, created, now) => Served(m, key, p.serve(key), created, now)
    case Cleanup(key, now) => if evict && Idle(m, key, p.ttl(key), now) then m - {key} else m
  }

  ghost function Reply(p: Policy, m: Buckets, e: Event): seq<Answer> {
    match e
    case Request(key, created, now) => [AnswerOf(BucketFor(m, key, p.serve(key), created), now)]
    case Cleanup(_, _) => []
  }

  /** All answers of a run. */
  ghost function Answers(p: Policy, m: Buckets, evs: seq<Event>, evict: bool): seq<Answer>
    decreases evs
  {
    if evs == [] then []
    else Reply(p, m, evs[0]) + Answers(p, Next(p, m, evs[0], evict), evs[1..], evict)
  }

  ghost function Final(p: Policy, m: Buckets, evs: seq<Event>, evict: bool): Buckets
    decreases evs
  {
    if evs == [] then m else Final(p, Next(p, m, evs[0], evict), evs[1..], evict)
  }

  /** Clock readings do not go back, starting from time t. */
  ghost predicate Timed(evs: seq<Event>, t: real) {
    evs == [] || (
      && t <= evs[0].now && (evs[0].Request? ==> t <= evs[0].created <= evs[0].now)
      && Timed(evs[1..], evs[0].now))
  }

  /** No run from an empty store shows whether idle buckets are dropped. */
  ghost predicate Invisible(p: Policy) {
    forall evs, t :: Timed(evs, t) ==> Answers(p, map[], evs, true) == Answers(p, map[], evs, false)
  }

  /** Settings as the configuration loader leaves them: a burst of at least one, no negative rate. */
  ghost predicate Usable(p: Policy) {
    forall key :: p.serve(key).burst >= 1 && p.serve(key).rate >= 0.0
  }

  /** An empty bucket is full again by the time it counts as idle. */
  ghost predicate RefillsInTime(p: Policy, key: string) {
    p.ttl(key) * p.serve(key).rate >= p.serve(key).burst as real
  }

  // ---------------------------------------------------------------------
  // The store's clean-up
  // ---------------------------------------------------------------------

  /** A clean-up of the given keys, one after the other; `clock` gives the reading made for each key. */
  ghost function CleanupOf(keys: seq<string>, clock: string -> real): seq<Event> {
    seq(|keys|, i requires 0 <= i < |keys| => Cleanup(keys[i], clock(keys[i])))
  }

  /** The store without the idle buckets among the given keys. */
  ghost function Swept(p: Policy, m: Buckets, keys: set<string>, clock: string -> real): Buckets {
    map k | k in m && !(k in keys && Idle(m, k, p.ttl(k), clock(k))) :: m[k]
  }

  lemma SweptStep(p: Policy, m: Buckets, first: string, rest: set<string>, clock: string -> real)
    requires first !in rest
    ensures Swept(p, Next(p, m, Cleanup(first, clock(first)), true), rest, clock) == Swept(p, m, {first} + rest, clock)
  {
  }

  /** Cleaning up keys in any order drops exactly the idle ones among them. */
  lemma {:induction false} CleanupDrops(p: Policy, m: Buckets, keys: seq<string>, clock: string -> real)
    requires NoRepeats(keys)
    ensures Final(p, m, CleanupOf(keys, clock), true) == Swept(p, m, (set k | k in keys), clock)
    decreases keys
  {
    if keys == [] {
      assert CleanupOf(keys, clock) == [];
      assert Swept(p, m, {}, clock) == m;
    } else {
      var first, rest := keys[0], keys[1..];
      var m' := Next(p, m, Cleanup(first, clock(first)), true);
      assert CleanupOf(keys, clock)[1..] == CleanupOf(rest, clock);
      assert forall k :: k in keys <==> k == first || k in rest;
      assert first !in rest;
      CleanupDrops(p, m', rest, clock);
      SweptStep(p, m, first, (set k | k in rest), clock);
      assert (set k | k in keys) == {first} + set k | k in rest;
    }
  }

  // ---------------------------------------------------------------------
  // Refilling in time is enough
  // ---------------------------------------------------------------------

  ghost predicate WellKept(p: Policy, key: string, b: Bucket, t: real) {
    b.capacity == p.serve(key).burst as real && b.rate == p.serve(key).rate
    && 0.0 <= b.tokens <= b.capacity && b.last <= t
  }

  /**
   The evicting store (me) and the keeping store (mn) at time t: common buckets are equal, and a
   bucket that only the keeping store has is full.
   */
  ghost predicate Matching(p: Policy, me: Buckets, mn: Buckets, t: real) {
    && (forall k :: k in mn ==> WellKept(p, k, mn[k], t))
    && (forall k :: k in me ==> k in mn && me[k] == mn[k])
    && (forall k :: k in mn && k !in me ==> Level(mn[k], t) == mn[k].capacity)
  }

  lemma StaysFull(b: Bucket, t: real, t': real)
    requires b.rate >= 0.0 && b.last <= t <= t' && Level(b, t) == b.capacity
    ensures Level(b, t') == b.capacity
  {
    InflowLaws(b.rate, b.last, t, t');
  }

  lemma LongerFlowsMore(short: real, long: real, rate: real)
    requires short <= long && rate >= 0.0
    ensures short * rate <= long * rate
  {
    assert (long - short) * rate >= 0.0;
    assert (long - short) * rate == long * rate - short * rate;
  }

  lemma IdleMeansFull(p: Policy, key: string, b: Bucket, t: real)
    requires Usable(p) && RefillsInTime(p, key) && WellKept(p, key, b, t) && t - b.last > p.ttl(key)
    ensures Level(b, t) == b.capacity
  {
    hide Inflow;
    InflowIs(b.rate, b.last, t, t - b.last);
    LongerFlowsMore(p.ttl(key), t - b.last, b.rate);
  }

  /** A full bucket and one created now take a token alike. */
  lemma FullIsNew(p: Policy, key: string, b: Bucket, created: real, now: real)
    requires Usable(p) && WellKept(p, key, b, now) && created <= now && Level(b, now) == b.capacity
    ensures var n := New(p.serve(key).burst as real, p.serve(key).rate, created);
      && AnswerOf(b, now) == AnswerOf(n, now)
      && TakeFrom(b, Call(1, now)) == TakeFrom(n, Call(1, now))
  {
    InflowLaws(p.serve(key).rate, created, created, now);
  }

  lemma TakingKeepsWell(p: Policy, key: string, b: Bucket, now: real)
    requires Usable(p) && WellKept(p, key, b, now)
    ensures WellKept(p, key, TakeFrom(b, Call(1, now)), now)
  {
    InflowLaws(b.rate, b.last, b.last, now);
  }

  lemma NewIsWell(p: Policy, key: string, created: real, now: real)
    requires Usable(p) && created <= now
    ensures WellKept(p, key, New(p.serve(key).burst as real, p.serve(key).rate, created), now)
  {
  }

  lemma MatchingStep(p: Policy, me: Buckets, mn: Buckets, e: Event, t: real)
    requires Usable(p) && (forall key :: RefillsInTime(p, key))
    requires Matching(p, me, mn, t) && Timed([e], t)
    ensures Reply(p, me, e) == Reply(p, mn, e)
    ensures Matching(p, Next(p, me, e, true), Next(p, mn, e, false), e.now)
  {
    hide TakeFrom, Level, AnswerOf, New, RefillsInTime;
    forall k | k in mn && k !in me ensures Level(mn[k], e.now) == mn[k].capacity {
      StaysFull(mn[k], t, e.now);
    }
    match e
    case Request(key, created, now) =>
      var be, bn := BucketFor(me, key, p.serve(key), created), BucketFor(mn, key, p.serve(key), created);
      if key in mn {
        if key !in me { FullIsNew(p, key, bn, created, now); }
      } else {
        NewIsWell(p, key, created, now);
      }
      TakingKeepsWell(p, key, bn, now);
    case Cleanup(key, now) =>
      if Idle(me, key, p.ttl(key), now) { IdleMeansFull(p, key, me[key], now); }
  }

  lemma {:induction false} SameAnswers(p: Policy, me: Buckets, mn: Buckets, evs: seq<Event>, t: real)
    requires Usable(p) && (forall key :: RefillsInTime(p, key))
    requires Matching(p, me, mn, t) && Timed(evs, t)
    ensures Answers(p, me, evs, true) == Answers(p, mn, evs, false)
    decreases evs
  {
    if evs == [] {
    } else {
      MatchingStep(p, me, mn, evs[0], t);
      SameAnswers(p, Next(p, me, evs[0], true), Next(p, mn, evs[0], false), evs[1..], evs[0].now);
    }
  }

  // ---------------------------------------------------------------------
  // ... and it is necessary
  // ---------------------------------------------------------------------

  /** n requests for one key, all at time t. */
  ghost function Burst(key: string, n: nat, t: real): (evs: seq<Event>)
    ensures |evs| == n
  {
    if n == 0 then [] else [Request(key, t, t)] + Burst(key, n - 1, t)
  }

  lemma {:induction false} BurstTimed(key: string, n: nat, t: real, rest: seq<Event>)
    requires Timed(rest, t)
    ensures Timed(Burst(key, n, t) + rest, t)
  {
    if n == 0 {
      assert [] + rest == rest;
    } else {
      BurstTimed(key, n - 1, t, rest);
      var more := Burst(key, n - 1, t);
      assert [Request(key, t, t)] + more + rest == [Request(key, t, t)] + (more + rest);
      assert ([Request(key, t, t)] + (more + rest))[1..] == more + rest;
    }
  }

  lemma {:induction false} AnswersConcat(p: Policy, m: Buckets, xs: seq<Event>, ys: seq<Event>, evict: bool)
    ensures Answers(p, m, xs + ys, evict)
         == Answers(p, m, xs, evict) + Answers(p, Final(p, m, xs, evict), ys, evict)
    decreases xs
  {
    if xs == [] {
      assert xs + ys == ys;
    } else {
      assert (xs + ys)[1..] == xs[1..] + ys && (xs + ys)[0] == xs[0];
      AnswersConcat(p, Next(p, m, xs[0], evict), xs[1..], ys, evict);
    }
  }

  /** What a request for `key` at time t finds. */
  ghost function LevelAt(p: Policy, m: Buckets, key: string, t: real): real {
    Level(BucketFor(m, key, p.serve(key), t), t)
  }

  /** The last of n requests at one time is allowed exactly when there were n tokens, and then they are gone. */
  lemma {:induction false} BurstDrains(p: Policy, m: Buckets, key: string, n: nat, t: real, evict: bool)
    requires n >= 1 && Usable(p)
    ensures var out, f := Answers(p, m, Burst(key, n, t), evict), Final(p, m, Burst(key, n, t), evict);
      && |out| == n && (out[n - 1].allowed <==> LevelAt(p, m, key, t) >= n as real)
      && key in f && f[key].last == t
      && (LevelAt(p, m, key, t) >= n as real ==> f[key].tokens == LevelAt(p, m, key, t) - n as real)
      && f[key].capacity == BucketFor(m, key, p.serve(key), t).capacity
      && f[key].rate == BucketFor(m, key, p.serve(key), t).rate
    decreases n
  {
    var evs := Burst(key, n, t);
    var next := Next(p, m, evs[0], evict);
    var b := BucketFor(m, key, p.serve(key), t);
    assert evs[1..] == Burst(key, n - 1, t);
    assert next[key] == TakeFrom(b, Call(1, t));
    if n > 1 {
      InflowLaws(b.rate, t, t, t);
      BurstDrains(p, next, key, n - 1, t, evict);
      assert Answers(p, m, evs, evict)[n - 1] == Answers(p, next, evs[1..], evict)[n - 2];
    }
  }

  lemma ProductOrder(x: real, y: real, k: real)
    requires k > 0.0
    ensures x < y <==> x * k < y * k
  {
    assert (y - x) * k == y * k - x * k;
  }

  /** A time at which the bucket counts as idle but has not refilled. */
  lemma TooEarly(rate: real, ttl: real, burst: real) returns (e: real)
    requires rate >= 0.0 && burst > 0.0 && ttl * rate < burst
    ensures e >= 0.0 && e > ttl && e * rate < burst
  {
    if ttl < 0.0 {
      e := 0.0;
    } else if rate == 0.0 {
      e := ttl + 1.0;
    } else {
      var q := burst / rate;
      assert q * rate == burst;
      ProductOrder(ttl, q, rate);
      e := (ttl + q) / 2.0;
      ProductOrder(e, q, rate);
    }
  }

  /** A burst that empties the bucket, a clean-up at time e, a second burst. */
  ghost function Probe(key: string, n: nat, e: real): seq<Event> {
    Burst(key, n, 0.0) + ([Cleanup(key, e)] + Burst(key, n, e))
  }

  lemma ProbeTimed(key: string, n: nat, e: real)
    requires e >= 0.0
    ensures Timed(Probe(key, n, e), 0.0)
  {
    var mid, post := [Cleanup(key, e)], Burst(key, n, e);
    BurstTimed(key, n, e, []);
    assert post + [] == post && (mid + post)[1..] == post;
    BurstTimed(key, n, 0.0, mid + post);
  }

  lemma FirstBurst(p: Policy, key: string, evict: bool)
    requires Usable(p)
    ensures var f := Final(p, map[], Burst(key, p.serve(key).burst, 0.0), evict);
      key in f && f[key] == Bucket(p.serve(key).burst as real, p.serve(key).rate, 0.0, 0.0)
  {
    InflowLaws(p.serve(key).rate, 0.0, 0.0, 0.0);
    BurstDrains(p, map[], key, p.serve(key).burst, 0.0, evict);
  }

  lemma LevelAfterCleanup(p: Policy, f: Buckets, key: string, e: real, evict: bool)
    requires Usable(p) && e >= 0.0 && e > p.ttl(key) && e * p.serve(key).rate < p.serve(key).burst as real
    requires key in f && f[key] == Bucket(p.serve(key).burst as real, p.serve(key).rate, 0.0, 0.0)
    ensures LevelAt(p, Next(p, f, Cleanup(key, e), evict), key, e) >= p.serve(key).burst as real <==> evict
  {
    InflowLaws(p.serve(key).rate, e, e, e);
  }

  /** The last answer of the probe tells whether the idle bucket was dropped. */
  lemma ProbeTells(p: Policy, key: string, e: real, evict: bool)
    requires Usable(p) && e >= 0.0 && e > p.ttl(key) && e * p.serve(key).rate < p.serve(key).burst as real
    ensures var out := Answers(p, map[], Probe(key, p.serve(key).burst, e), evict);
      |out| > 0 && (out[|out| - 1].allowed <==> evict)
  {
    var n: nat := p.serve(key).burst;
    var pre, mid, post := Burst(key, n, 0.0), [Cleanup(key, e)], Burst(key, n, e);
    var f := Final(p, map[], pre, evict);
    var g := Next(p, f, Cleanup(key, e), evict);
    assert mid[1..] == [] && Final(p, f, mid, evict) == g;
    hide Burst, LevelAt, Next, BucketFor;
    FirstBurst(p, key, evict);
    LevelAfterCleanup(p, f, key, e, evict);
    BurstDrains(p, g, key, n, e, evict);
    AnswersConcat(p, map[], pre, mid + post, evict);
    AnswersConcat(p, f, mid, post, evict);
  }

  /** If one key does not refill in time, the probe shows the eviction. */
  lemma EvictionShows(p: Policy, key: string)
    requires Usable(p) && !RefillsInTime(p, key)
    ensures !Invisible(p)
  {
    var s := p.serve(key);
    var e := TooEarly(s.rate, p.ttl(key), s.burst as real);
    ProbeTimed(key, s.burst, e);
    ProbeTells(p, key, e, true);
    ProbeTells(p, key, e, false);
    assert Answers(p, map[], Probe(key, s.burst, e), true) != Answers(p, map[], Probe(key, s.burst, e), false);
  }

  /** Eviction is invisible if and only if every key refills in time. */
  lemma EvictionInvisibleIffRefillsInTime(p: Policy)
    requires Usable(p)
    ensures Invisible(p) <==> forall key :: RefillsInTime(p, key)
  {
    if forall key :: RefillsInTime(p, key) {
      forall evs, t | Timed(evs, t) ensures Answers(p, map[], evs, true) == Answers(p, map[], evs, false) {
        SameAnswers(p, map[], map[], evs, t);
      }
    } else {
      var key :| !RefillsInTime(p, key);
      EvictionShows(p, key);
    }
  }

  // ---------------------------------------------------------------------
  // The gateway's own policy
  // ---------------------------------------------------------------------

  /** Requests see limits from the user database; the clean-up sees only the configuration file. */
  ghost function GatewayPolicy(l: Limits, db: map<string, Settings>): Policy {
    Policy(key => ServingSettings(l, db, key), key => CleanupSettings(l, key).ttl)
  }

  /**
   The clean-up of the store is a run of clean-up events, one for each key, in whatever order it visits
   them: it leaves the buckets that `LocalLimiter.Cleanup` promises.
   */
  lemma CleanupIsRun(l: Limits, db: map<string, Settings>, m: Buckets, keys: seq<string>, clock: string -> real)
    requires Enumerates(keys, m.Keys)
    ensures Final(GatewayPolicy(l, db), m, CleanupOf(keys, clock), true)
         == map k | k in m && clock(k) - m[k].last <= CleanupSettings(l, k).ttl :: m[k]
  {
    var p := GatewayPolicy(l, db);
    CleanupDrops(p, m, keys, clock);
    hide CleanupSettings, ServingSettings, CleanupOf, Final;
    assert (set k | k in keys) == m.Keys;
    assert Swept(p, m, m.Keys, clock) == map k | k in m && clock(k) - m[k].last <= CleanupSettings(l, k).ttl :: m[k];
  }

  /**
   A time to live set in the user database is not what the clean-up uses: with the built-in
   defaults, a user whose own limits refill in time is still evicted too early.
   */
  lemma DatabaseTtlIsNotUsed()
    ensures exists l: Limits, db: map<string, Settings>, key: string ::
      && key in db && db[key].ttl * db[key].rate >= db[key].burst as real
      && Usable(GatewayPolicy(l, db)) && !Invisible(GatewayPolicy(l, db))
  {
    var l := Limits(Settings(10.0, 50, 3600.0), map[]);
    var db := map["user" := Settings(0.01, 100, 20000.0)];
    EvictionShows(GatewayPolicy(l, db), "user");
    assert "user" in db && db["user"].ttl * db["user"].rate >= db["user"].burst as real;
  }
}
