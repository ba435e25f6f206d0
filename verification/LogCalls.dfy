/** What a call of Log achieves: run without interruption, and when other steps of the logger interleave with it. */
module LogCalls {
  import opened UsageLogger

  // ---------------------------------------------------------------------
  // What one call of Log does
  // ---------------------------------------------------------------------

  /** The channel operations of one Log that no other step interrupts. */
  ghost function CallOfLog<R>(p: Params, s: State<R>, r: R): seq<Step<R>> {
    if |s.ch| < p.buffer then [Log(r), Offer(r)] else [Log(r), Offer(r), Evict(r), Retry(r)]
  }

  /** From s to s', the record r was queued, at most the oldest record was dropped, and nothing else changed. */
  ghost predicate OnlyQueues<R>(p: Params, s: State<R>, r: R, s': State<R>)
    requires p.buffer >= 1
  {
    s' == s.(ch := Queued(s.ch, p.buffer, r),
             discarded := s.discarded + (if |s.ch| < p.buffer then multiset{} else multiset{s.ch[0]}),
             logged := s.logged + multiset{r}, enqueued := s.enqueued + [r])
  }

  lemma ReachesOne<R>(p: Params, s: State<R>, t: Step<R>, ts: seq<Step<R>>, s': State<R>)
    requires Enabled(s, t) && Reaches(p, Next(p, s, t), ts, s')
    ensures Reaches(p, s, [t] + ts, s')
  {
    assert ([t] + ts)[1..] == ts;
  }

  lemma LogWithRoom<R>(p: Params, s: State<R>, r: R) returns (s': State<R>)
    requires p.buffer >= 1 && |s.ch| < p.buffer
    ensures Reaches(p, s, [Log(r), Offer(r)], s') && OnlyQueues(p, s, r, s')
  {
    var s1 := Next(p, s, Log(r));
    s' := Next(p, s1, Offer(r));
    assert s1.offering - multiset{r} == s.offering;
    assert OnlyQueues(p, s, r, s');
    hide Next, OnlyQueues;
    ReachesOne(p, s1, Offer(r), [], s');
    ReachesOne(p, s, Log(r), [Offer(r)], s');
  }

  lemma OfferWhenFull<R>(p: Params, s: State<R>, r: R) returns (s': State<R>)
    requires |s.ch| == p.buffer
    ensures Reaches(p, s, [Log(r), Offer(r)], s')
    ensures s' == s.(logged := s.logged + multiset{r}, evicting := s.evicting + multiset{r})
  {
    var s1 := Next(p, s, Log(r));
    s' := Next(p, s1, Offer(r));
    assert s1.offering - multiset{r} == s.offering;
    hide Next;
    ReachesOne(p, s1, Offer(r), [], s');
    ReachesOne(p, s, Log(r), [Offer(r)], s');
  }

  lemma EvictAndRetry<R>(p: Params, s: State<R>, r: R) returns (s': State<R>)
    requires p.buffer >= 1 && |s.ch| == p.buffer && r in s.evicting
    ensures Reaches(p, s, [Evict(r), Retry(r)], s')
    ensures s' == s.(ch := s.ch[1..] + [r], enqueued := s.enqueued + [r], evicting := s.evicting - multiset{r},
                     discarded := s.discarded + multiset{s.ch[0]})
  {
    var s1 := Next(p, s, Evict(r));
    s' := Next(p, s1, Retry(r));
    assert s1.retrying - multiset{r} == s.retrying;
    hide Next;
    ReachesOne(p, s1, Retry(r), [], s');
    ReachesOne(p, s, Evict(r), [Retry(r)], s');
  }

  lemma {:induction false} ReachesTogether<R>(p: Params, s: State<R>, ts: seq<Step<R>>, s': State<R>,
                                             more: seq<Step<R>>, s'': State<R>)
    requires Reaches(p, s, ts, s') && Reaches(p, s', more, s'')
    ensures Reaches(p, s, ts + more, s'')
    decreases ts
  {
    hide Next, Enabled;
    if ts == [] {
      assert ts + more == more;
    } else {
      ReachesTogether(p, Next(p, s, ts[0]), ts[1..], s', more, s'');
      assert (ts + more)[1..] == ts[1..] + more;
    }
  }

  lemma LogWhenFull<R>(p: Params, s: State<R>, r: R) returns (s': State<R>)
    requires p.buffer >= 1 && |s.ch| == p.buffer
    ensures Reaches(p, s, [Log(r), Offer(r), Evict(r), Retry(r)], s') && OnlyQueues(p, s, r, s')
  {
    var s2 := OfferWhenFull(p, s, r);
    s' := EvictAndRetry(p, s2, r);
    assert s2.evicting - multiset{r} == s.evicting;
    hide Reaches;
    ReachesTogether(p, s, [Log(r), Offer(r)], s2, [Evict(r), Retry(r)], s');
    assert [Log(r), Offer(r)] + [Evict(r), Retry(r)] == [Log(r), Offer(r), Evict(r), Retry(r)];
  }

  /** Run without interruption, Log always queues its record and drops at most the oldest one. */
  lemma UninterruptedLog<R>(p: Params, s: State<R>, r: R) returns (s': State<R>)
    requires p.buffer >= 1 && |s.ch| <= p.buffer
    ensures Reaches(p, s, CallOfLog(p, s, r), s') && OnlyQueues(p, s, r, s')
  {
    hide Next, OnlyQueues, Reaches;
    if |s.ch| < p.buffer {
      s' := LogWithRoom(p, s, r);
    } else {
      s' := LogWhenFull(p, s, r);
    }
  }

  // ---------------------------------------------------------------------
  // When a call of Log can lose its record
  // ---------------------------------------------------------------------

  /** One call of Log for r is before its first send, and no other call for r is in progress. */
  ghost predicate AboutToSend<R>(s: State<R>, r: R) {
    s.offering[r] == 1 && s.evicting[r] == 0 && s.retrying[r] == 0
  }

  /** From here, with no further call for r, the record r can be given up. */
  ghost predicate CanBeGivenUp<R(!new)>(p: Params, s: State<R>, r: R) {
    exists ts, s' :: Reaches(p, s, ts, s') && s'.gaveUp[r] > s.gaveUp[r] && s'.logged[r] == s.logged[r]
  }

  /** No call of Log for r is in progress. */
  ghost predicate Settled<R>(s: State<R>, r: R) {
    s.offering[r] == 0 && s.evicting[r] == 0 && s.retrying[r] == 0
  }

  lemma ConsumerSettles<R>(p: Params, s: State<R>, t: Step<R>)
    requires Enabled(s, t) && OfConsumer(t)
    ensures var n := Next(p, s, t);
      n.offering == s.offering && n.evicting == s.evicting && n.retrying == s.retrying
      && n.gaveUp == s.gaveUp && n.logged == s.logged
  {
    hide Flushed;
    if !t.Receive? && !t.Finish? { FlushHands(s, t.ok); }
  }

  lemma SendSettles<R>(p: Params, s: State<R>, t: Step<R>, r: R)
    requires Enabled(s, t) && (t.Offer? || t.Retry?) && Settled(s, r)
    ensures var n := Next(p, s, t); Settled(n, r) && n.gaveUp[r] == s.gaveUp[r]
  {
    hide Enqueue;
    if t.Offer? {
      EnqueueCounts(s.(offering := s.offering - multiset{t.r}), t.r, r);
    } else {
      EnqueueCounts(s.(retrying := s.retrying - multiset{t.r}), t.r, r);
    }
  }

  lemma ProducerSettles<R>(p: Params, s: State<R>, t: Step<R>, r: R)
    requires Enabled(s, t) && !OfConsumer(t) && Settled(s, r) && t != Log(r)
    ensures var n := Next(p, s, t); Settled(n, r) && n.gaveUp[r] == s.gaveUp[r]
  {
    if t.Offer? || t.Retry? {
      hide Next, Enabled;
      SendSettles(p, s, t, r);
    }
  }

  lemma SettledStep<R>(p: Params, s: State<R>, t: Step<R>, r: R)
    requires Enabled(s, t) && Settled(s, r) && t != Log(r)
    ensures var n := Next(p, s, t); Settled(n, r) && n.gaveUp[r] == s.gaveUp[r]
  {
    hide Next, Enabled, OfConsumer;
    if OfConsumer(t) {
      ConsumerSettles(p, s, t);
    } else {
      ProducerSettles(p, s, t, r);
    }
  }

  lemma LoggedGrows<R>(p: Params, s: State<R>, t: Step<R>, r: R)
    requires Enabled(s, t)
    ensures Next(p, s, t).logged[r] == s.logged[r] + if t == Log(r) then 1 else 0
  {
    if OfConsumer(t) {
      hide Next, Enabled;
      ConsumerSettles(p, s, t);
    }
  }

  lemma {:induction false} LoggedOnlyGrows<R>(p: Params, s: State<R>, ts: seq<Step<R>>, s': State<R>, r: R)
    requires Reaches(p, s, ts, s')
    ensures s'.logged[r] >= s.logged[r]
    decreases ts
  {
    hide Next, Enabled;
    if ts == [] {
    } else {
      LoggedGrows(p, s, ts[0], r);
      LoggedOnlyGrows(p, Next(p, s, ts[0]), ts[1..], s', r);
    }
  }

  /** A record of which no call is in progress is not given up until it is logged again. */
  lemma {:induction false} SettledStays<R>(p: Params, s: State<R>, ts: seq<Step<R>>, s': State<R>, r: R)
    requires Reaches(p, s, ts, s') && Settled(s, r) && s'.logged[r] == s.logged[r]
    ensures s'.gaveUp[r] == s.gaveUp[r]
    decreases ts
  {
    hide Next, Settled, Enabled;
    if ts == [] {
    } else {
      LoggedGrows(p, s, ts[0], r);
      LoggedOnlyGrows(p, Next(p, s, ts[0]), ts[1..], s', r);
      SettledStep(p, s, ts[0], r);
      SettledStays(p, Next(p, s, ts[0]), ts[1..], s', r);
    }
  }

  /** One way: between Log's receive and its second send, another producer takes the free place. */
  lemma SlotIsTaken<R>(p: Params, s: State<R>, r: R, q: R) returns (s': State<R>)
    requires 1 <= p.buffer && |s.ch| == p.buffer && r in s.evicting && q != r
    ensures Reaches(p, s, [Evict(r), Log(q), Offer(q), Retry(r)], s')
    ensures s'.gaveUp == s.gaveUp + multiset{r} && s'.logged == s.logged + multiset{q}
  {
    var s1 := Next(p, s, Evict(r));
    var s2 := LogWithRoom(p, s1, q);
    s' := Next(p, s2, Retry(r));
    assert s'.gaveUp == s.gaveUp + multiset{r} && s'.logged == s.logged + multiset{q};
    hide Next;
    ReachesOne(p, s2, Retry(r), [], s');
    ReachesTogether(p, s1, [Log(q), Offer(q)], s2, [Retry(r)], s');
    assert [Log(q), Offer(q)] + [Retry(r)] == [Log(q), Offer(q), Retry(r)];
    ReachesOne(p, s, Evict(r), [Log(q), Offer(q), Retry(r)], s');
    assert [Evict(r)] + [Log(q), Offer(q), Retry(r)] == [Evict(r), Log(q), Offer(q), Retry(r)];
  }

  /**
   The first send decides: the record of a call can still be given up after it exactly if the channel
   was full.
   */
  lemma CanBeGivenUpIffFull<R(!new)>(p: Params, s: State<R>, r: R, q: R)
    requires 1 <= p.buffer && |s.ch| <= p.buffer && AboutToSend(s, r) && q != r
    ensures CanBeGivenUp(p, Next(p, s, Offer(r)), r) <==> |s.ch| == p.buffer
  {
    var s1 := Next(p, s, Offer(r));
    if |s.ch| < p.buffer {
      assert Settled(s1, r);
      if ts, s' :| Reaches(p, s1, ts, s') && s'.gaveUp[r] > s1.gaveUp[r] && s'.logged[r] == s1.logged[r] {
        SettledStays(p, s1, ts, s', r);
      }
    } else {
      assert s1 == s.(offering := s.offering - multiset{r}, evicting := s.evicting + multiset{r});
      var s' := SlotIsTaken(p, s1, r, q);
    }
  }

  /** Uninterrupted calls fill the channel of a new logger. */
  lemma {:induction false} Filling<R>(p: Params, rs: seq<R>) returns (ts: seq<Step<R>>, s: State<R>)
    requires |rs| <= p.buffer && p.buffer >= 1
    ensures Reaches(p, Initial(), ts, s)
    ensures s == Initial<R>().(ch := rs, enqueued := rs, logged := multiset(rs))
  {
    if rs == [] {
      ts, s := [], Initial();
    } else {
      var front, last := rs[..|rs|-1], rs[|rs|-1];
      var before, s0 := Filling(p, front);
      s := LogWithRoom(p, s0, last);
      ts := before + [Log(last), Offer(last)];
      assert front + [last] == rs;
      hide Reaches, Next;
      ReachesTogether(p, Initial(), before, s0, [Log(last), Offer(last)], s);
    }
  }

  lemma TakeOne<R>(p: Params, s: State<R>) returns (s': State<R>)
    requires s.ch != [] && s.at == Selecting
    ensures Reaches(p, s, [Receive, AfterReceive(true)], s')
    ensures s'.ch == s.ch[1..] && s'.received == s.received + [s.ch[0]] && s'.at == Selecting
    ensures s'.evicting == s.evicting && s'.gaveUp == s.gaveUp && s'.discarded == s.discarded
  {
    var s1 := Next(p, s, Receive);
    s' := Next(p, s1, AfterReceive(true));
    hide Next;
    ReachesOne(p, s1, AfterReceive(true), [], s');
    ReachesOne(p, s, Receive, [AfterReceive(true)], s');
    var steps: seq<Step<R>> := [Receive] + [AfterReceive(true)];
    assert steps == [Receive, AfterReceive(true)];
  }

  /** A consumer at its select can take the whole channel. */
  lemma {:induction false} Emptying<R>(p: Params, s: State<R>, rs: seq<R>) returns (ts: seq<Step<R>>, s': State<R>)
    requires s.ch == rs && s.at == Selecting
    ensures Reaches(p, s, ts, s')
    ensures s'.ch == [] && s'.received == s.received + rs && s'.at == Selecting
    ensures s'.evicting == s.evicting && s'.gaveUp == s.gaveUp && s'.discarded == s.discarded
    decreases |rs|
  {
    if rs == [] {
      ts, s' := [], s;
    } else {
      var s2 := TakeOne(p, s);
      hide Next, Enabled;
      var rest;
      rest, s' := Emptying(p, s2, rs[1..]);
      ts := [Receive, AfterReceive(true)] + rest;
      assert s.received + rs == s.received + [rs[0]] + rs[1..];
      hide Reaches;
      ReachesTogether(p, s, [Receive, AfterReceive(true)], s2, rest, s');
    }
  }

  /**
   The other way: the consumer empties the channel before Log's receive.  From a new logger, for every
   size of the buffer: the channel is filled with other records, Log(r) finds it full, the consumer takes
   everything, and the call gives r up although the channel is empty and nothing has been discarded.
   */
  lemma LogCanGiveUpOnEmptyChannel<R>(p: Params, others: seq<R>, r: R) returns (ts: seq<Step<R>>, s: State<R>)
    requires |others| == p.buffer >= 1
    ensures Reaches(p, Initial(), ts, s) && s.ch == [] && s.received == others && s.discarded == multiset{}
    ensures Enabled(s, Evict(r)) && Next(p, s, Evict(r)) == s.(evicting := multiset{}, gaveUp := multiset{r})
  {
    var fill, full := Filling(p, others);
    var blocked := OfferWhenFull(p, full, r);
    var drain;
    drain, s := Emptying(p, blocked, others);
    ts := fill + [Log(r), Offer(r)] + drain;
    assert s.evicting - multiset{r} == multiset{};
    hide Reaches, Next, Enabled;
    ReachesTogether(p, Initial(), fill, full, [Log(r), Offer(r)], blocked);
    ReachesTogether(p, Initial(), fill + [Log(r), Offer(r)], blocked, drain, s);
  }
}
