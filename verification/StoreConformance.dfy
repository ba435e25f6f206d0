/**
 What the whole store of buckets does: over any run of requests for any keys, every key is served as if it
 had one token bucket to itself.
 */
module StoreConformance {
  import opened T = TokenBucket
  import opened Limiter
  import opened Eviction

  /** What the requests for one key ask of a bucket. */
  ghost function CallsOf(evs: seq<Event>, key: string): seq<Call> {
    if evs == [] then []
    else
      var e := evs[|evs|-1];
      CallsOf(evs[..|evs|-1], key) + if e.Request? && e.key == key then [Call(1, e.now)] else []
  }

  /** When the key's bucket was created: for its first request, or at the given time if there has been none. */
  ghost function Born(evs: seq<Event>, key: string, otherwise: real): real {
    if evs == [] then otherwise
    else
      var front, e := evs[..|evs|-1], evs[|evs|-1];
      Born(front, key, if e.Request? && e.key == key then e.created else otherwise)
  }

  /** A full bucket with the key's settings, created when the store creates the key's own. */
  ghost function Alone(p: Policy, evs: seq<Event>, key: string, otherwise: real): Bucket {
    New(p.serve(key).burst as real, p.serve(key).rate, Born(evs, key, otherwise))
  }

  /** The answer to the last of the requests, by a store that starts empty and never evicts. */
  ghost predicate Answered(p: Policy, evs: seq<Event>, a: Answer) {
    var out := Answers(p, map[], evs, false);
    out != [] && out[|out|-1] == a
  }

  // ---------------------------------------------------------------------
  // One key's bucket in the store
  // ---------------------------------------------------------------------

  lemma {:induction false} FinalSnoc(p: Policy, m: Buckets, evs: seq<Event>, e: Event)
    ensures Final(p, m, evs + [e], false) == Next(p, Final(p, m, evs, false), e, false)
    decreases evs
  {
    hide Next;
    if evs == [] {
      assert ([] + [e])[1..] == [] && ([] + [e])[0] == e;
    } else {
      assert (evs + [e])[1..] == evs[1..] + [e] && (evs + [e])[0] == evs[0];
      FinalSnoc(p, Next(p, m, evs[0], false), evs[1..], e);
    }
  }

  lemma {:induction false} AfterPrefix(b: Bucket, cs: seq<Call>, c: Call, k: nat)
    requires k <= |cs|
    ensures After(b, cs + [c], k) == After(b, cs, k)
  {
    hide TakeFrom;
    if k > 0 {
      AfterPrefix(b, cs, c, k - 1);
      assert (cs + [c])[k - 1] == cs[k - 1];
    }
  }

  lemma AtFirst(b: Bucket, cs: seq<Call>)
    ensures After(b, cs, 0) == b
  {
  }

  lemma AfterSnoc(b: Bucket, cs: seq<Call>, c: Call)
    ensures After(b, cs + [c], |cs| + 1) == TakeFrom(After(b, cs, |cs|), c)
  {
    hide TakeFrom;
    AfterPrefix(b, cs, c, |cs|);
  }

  /** The time of the first request does not depend on what comes instead of none. */
  lemma {:induction false} BornStays(evs: seq<Event>, key: string, x: real, y: real)
    requires CallsOf(evs, key) != []
    ensures Born(evs, key, x) == Born(evs, key, y)
  {
    var front, e := evs[..|evs|-1], evs[|evs|-1];
    if !(e.Request? && e.key == key) {
      BornStays(front, key, x, y);
    }
  }

  /** As long as there has been no request, the bucket is yet to be created. */
  lemma {:induction false} NotBorn(evs: seq<Event>, key: string, otherwise: real)
    requires CallsOf(evs, key) == []
    ensures Born(evs, key, otherwise) == otherwise
  {
    if evs != [] { NotBorn(evs[..|evs|-1], key, otherwise); }
  }

  lemma OneMoreEvent(evs: seq<Event>, e: Event, key: string, otherwise: real)
    ensures var mine := e.Request? && e.key == key;
      && CallsOf(evs + [e], key) == CallsOf(evs, key) + (if mine then [Call(1, e.now)] else [])
      && Born(evs + [e], key, otherwise) == Born(evs, key, if mine then e.created else otherwise)
  {
    assert (evs + [e])[..|evs|] == evs;
  }

  /** In the store each key has the bucket that it would have alone. */
  lemma {:induction false} StoreIsBuckets(p: Policy, evs: seq<Event>, key: string, otherwise: real)
    ensures var f, cs := Final(p, map[], evs, false), CallsOf(evs, key);
      && (key in f <==> cs != [])
      && (key in f ==> f[key] == After(Alone(p, evs, key, otherwise), cs, |cs|))
  {
    hide TakeFrom, New, After;
    if evs == [] {
    } else {
      var front, e := evs[..|evs|-1], evs[|evs|-1];
      assert front + [e] == evs;
      var before := if e.Request? && e.key == key then e.created else otherwise;
      StoreIsBuckets(p, front, key, before);
      FinalSnoc(p, map[], front, e);
      OneMoreEvent(front, e, key, otherwise);
      var b, cs := Alone(p, front, key, before), CallsOf(front, key);
      if e.Request? && e.key == key {
        AfterSnoc(b, cs, Call(1, e.now));
        if cs == [] {
          NotBorn(front, key, before);
          AtFirst(b, cs);
        }
      } else {
        assert cs + [] == cs;
      }
    }
  }

  // ---------------------------------------------------------------------
  // Times
  // ---------------------------------------------------------------------

  lemma {:induction false} TimedIs(evs: seq<Event>, t: real)
    requires Timed(evs, t)
    ensures forall i :: 0 <= i < |evs| ==> t <= evs[i].now && (evs[i].Request? ==> t <= evs[i].created <= evs[i].now)
    ensures forall i, j :: 0 <= i < j < |evs| ==>
      evs[i].now <= evs[j].now && (evs[j].Request? ==> evs[i].now <= evs[j].created)
    decreases evs
  {
    if evs != [] {
      TimedIs(evs[1..], evs[0].now);
      forall i | 0 < i < |evs| ensures evs[i] == evs[1..][i - 1] { }
    }
  }

  lemma {:induction false} TimedFront(evs: seq<Event>, e: Event, t: real)
    requires Timed(evs + [e], t)
    ensures Timed(evs, t)
    decreases evs
  {
    if evs != [] {
      assert (evs + [e])[1..] == evs[1..] + [e] && (evs + [e])[0] == evs[0];
      TimedFront(evs[1..], e, evs[0].now);
    }
  }

  lemma NewIs(p: Policy, evs: seq<Event>, key: string, otherwise: real)
    ensures Alone(p, evs, key, otherwise).last == Born(evs, key, otherwise)
    ensures Sound(Alone(p, evs, key, otherwise))
  {
  }

  /** Single tokens are asked for, and at the latest at the given time. */
  ghost predicate Earlier(cs: seq<Call>, until: real) {
    forall i :: 0 <= i < |cs| ==> cs[i].n == 1 && cs[i].now <= until
  }

  lemma OneMoreCall(b: Bucket, cs: seq<Call>, c: Call)
    requires InOrder(b, cs) && Earlier(cs, c.now) && b.last <= c.now && c.n == 1
    ensures InOrder(b, cs + [c]) && Earlier(cs + [c], c.now)
  {
  }

  /** The calls that a key's bucket gets come in the order of their times. */
  lemma {:induction false} CallsInOrder(p: Policy, evs: seq<Event>, key: string, otherwise: real, t: real, until: real)
    requires Timed(evs, t) && (evs != [] ==> evs[|evs|-1].now <= otherwise && evs[|evs|-1].now <= until)
    ensures InOrder(Alone(p, evs, key, otherwise), CallsOf(evs, key))
    ensures Earlier(CallsOf(evs, key), until)
    ensures Born(evs, key, otherwise) <= otherwise
  {
    if evs == [] {
    } else {
      var front, e := evs[..|evs|-1], evs[|evs|-1];
      assert front + [e] == evs;
      var mine := e.Request? && e.key == key;
      var before := if mine then e.created else otherwise;
      TimedFront(front, e, t);
      TimedIs(evs, t);
      assert front != [] ==> front[|front|-1] == evs[|front|-1];
      assert |front| < |evs|;
      hide Timed, InOrder, CallsOf, Born, New;
      CallsInOrder(p, front, key, before, t, if mine then e.now else until);
      OneMoreEvent(front, e, key, otherwise);
      NewIs(p, front, key, before);
      assert Alone(p, evs, key, otherwise) == Alone(p, front, key, before);
      if mine {
        OneMoreCall(Alone(p, front, key, before), CallsOf(front, key), Call(1, e.now));
      } else {
        assert CallsOf(front, key) + [] == CallsOf(front, key);
      }
    }
  }

  // ---------------------------------------------------------------------
  // Main results
  // ---------------------------------------------------------------------

  /** The last answer is that of the key's bucket, alone with the key's earlier requests. */
  lemma LastAnswer(p: Policy, evs: seq<Event>, key: string, created: real, now: real) returns (a: Answer)
    ensures Answered(p, evs + [Request(key, created, now)], a)
    ensures forall other :: Answered(p, evs + [Request(key, created, now)], other) ==> other == a
    ensures var b, cs := Alone(p, evs, key, created), CallsOf(evs, key);
      a == AnswerOf(After(b, cs, |cs|), now)
  {
    var e := Request(key, created, now);
    var m := Final(p, map[], evs, false);
    hide New, After, AnswerOf;
    StoreIsBuckets(p, evs, key, created);
    if CallsOf(evs, key) == [] {
      NotBorn(evs, key, created);
      AtFirst(Alone(p, evs, key, created), []);
    }
    a := AnswerOf(BucketFor(m, key, p.serve(key), created), now);
    AnswersConcat(p, map[], evs, [e], false);
    assert Answers(p, m, [e], false) == [a] by {
      assert [e][1..] == [];
      assert Reply(p, m, e) == [a];
    }
  }

  /**
   Conformance of the store: over any run of requests for any keys, a request for a key is allowed if and
   only if one bucket with the key's settings conforms to the earlier requests for this key alone.
   */
  lemma StoreConforms(p: Policy, evs: seq<Event>, key: string, created: real, now: real, t: real, a: Answer)
    requires Timed(evs + [Request(key, created, now)], t) && Answered(p, evs + [Request(key, created, now)], a)
    ensures a.allowed <==> Conforms(Alone(p, evs, key, created), CallsOf(evs, key), 1, now)
    ensures a.allowed ==> a.retryAfter == 0
  {
    var e, all := Request(key, created, now), evs + [Request(key, created, now)];
    var b, cs := Alone(p, evs, key, created), CallsOf(evs, key);
    var last := LastAnswer(p, evs, key, created, now);
    TimedFront(evs, e, t);
    TimedIs(all, t);
    assert all[|evs|] == e && (evs != [] ==> evs[|evs|-1] == all[|evs|-1]);
    CallsInOrder(p, evs, key, created, t, now);
    NewIs(p, evs, key, created);
    hide New, After, Alone, Answered, Conforms;
    assert InOrder(b, cs + [Call(1, now)]);
    Conformance(b, cs, 1, now);
  }

  /** The requests of a run followed by another. */
  lemma {:induction false} CallsConcat(xs: seq<Event>, ys: seq<Event>, key: string, otherwise: real)
    ensures CallsOf(xs + ys, key) == CallsOf(xs, key) + CallsOf(ys, key)
    ensures Born(xs + ys, key, otherwise) == Born(xs, key, Born(ys, key, otherwise))
    decreases |ys|
  {
    if ys == [] {
      assert xs + ys == xs;
    } else {
      var front, e := ys[..|ys|-1], ys[|ys|-1];
      assert front + [e] == ys && xs + front + [e] == xs + ys;
      var before := if e.Request? && e.key == key then e.created else otherwise;
      CallsConcat(xs, front, key, before);
      OneMoreEvent(front, e, key, otherwise);
      OneMoreEvent(xs + front, e, key, otherwise);
      hide CallsOf, Born;
    }
  }

  /** Requests for other keys do not matter to a key's bucket. */
  lemma OthersDoNotMatter(p: Policy, evs: seq<Event>, key: string, created: real, now: real,
                          others: seq<Event>, at: real)
    requires CallsOf(others, key) == []
    ensures var past := evs + [Request(key, created, now)] + others;
      && CallsOf(past, key) == CallsOf(evs, key) + [Call(1, now)]
      && Alone(p, past, key, at) == Alone(p, evs, key, created)
  {
    var e := Request(key, created, now);
    CallsConcat(evs + [e], others, key, at);
    NotBorn(others, key, at);
    OneMoreEvent(evs, e, key, at);
    hide New, CallsOf, Born;
  }

  /** The bucket after a refused request. */
  lemma AfterRefusal(p: Policy, evs: seq<Event>, key: string, created: real, now: real, t: real)
    requires Usable(p) && p.serve(key).rate > 0.0 && Timed(evs + [Request(key, created, now)], t)
    requires var b, cs := Alone(p, evs, key, created), CallsOf(evs, key);
      !Succeeds(After(b, cs, |cs|), Call(1, now))
    ensures var b, cs := Alone(p, evs, key, created), CallsOf(evs, key);
      var after := After(b, cs + [Call(1, now)], |cs| + 1);
      && Sound(after) && after.rate > 0.0 && after.capacity >= 1.0 && after.tokens < 1.0 && after.last == now
      && AnswerOf(After(b, cs, |cs|), now) == Answer(false, RetryAfter(after))
  {
    var e, all := Request(key, created, now), evs + [Request(key, created, now)];
    var b, cs := Alone(p, evs, key, created), CallsOf(evs, key);
    TimedFront(evs, e, t);
    TimedIs(all, t);
    assert all[|evs|] == e && (evs != [] ==> evs[|evs|-1] == all[|evs|-1]);
    CallsInOrder(p, evs, key, created, t, now);
    NewIs(p, evs, key, created);
    AfterSnoc(b, cs, Call(1, now));
    assert InOrder(b, cs + [Call(1, now)]);
    hide After, RetryAfter;
    AfterSound(b, cs + [Call(1, now)], |cs| + 1);
  }

  /**
   A refusal names the first whole number of seconds after which the key's next request is allowed; requests
   for other keys in between do not matter.
   */
  lemma StoreRetryAfter(p: Policy, evs: seq<Event>, key: string, created: real, now: real, t: real, a: Answer,
                        others: seq<Event>, seconds: nat, later: Answer)
    requires Usable(p) && p.serve(key).rate > 0.0 && CallsOf(others, key) == []
    requires Timed(evs + [Request(key, created, now)], t) && Answered(p, evs + [Request(key, created, now)], a)
    requires !a.allowed
    requires Answered(p, evs + [Request(key, created, now)] + others
                        + [Request(key, now + seconds as real, now + seconds as real)], later)
    ensures a.retryAfter >= 1
    ensures seconds == a.retryAfter ==> later.allowed
    ensures seconds == a.retryAfter - 1 ==> !later.allowed
  {
    var past, at := evs + [Request(key, created, now)] + others, now + seconds as real;
    var last := LastAnswer(p, evs, key, created, now);
    var next := LastAnswer(p, past, key, at, at);
    OthersDoNotMatter(p, evs, key, created, now, others, at);
    var b, cs := Alone(p, evs, key, created), CallsOf(evs, key);
    var after := After(b, cs + [Call(1, now)], |cs| + 1);
    hide New, After, Alone, Answered, RetryAfter, Level;
    AfterRefusal(p, evs, key, created, now, t);
    RetryAfterIsFirst(after);
    assert later == AnswerOf(after, at);
  }
}
