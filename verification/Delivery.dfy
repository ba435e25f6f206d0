/** When the usage logger hands its records to the store: at its ticks, for full batches and on shutdown. */
module Delivery {
  import opened UsageLogger

  // ---------------------------------------------------------------------
  // When the store is called
  // ---------------------------------------------------------------------

  /**
   A tick, the stop signal and the end of the drain hand over the whole batch, if there is one; a received
   record does so when it has filled the batch; and no other step calls the store or touches the batch.
   */
  lemma StoreCalls<R>(p: Params, s: State<R>, t: Step<R>)
    requires Enabled(s, t)
    ensures var n := Next(p, s, t);
      && (t.Tick? || t.SeeStop? || t.LastFlush? || (t.AfterReceive? && |s.batch| >= p.batchSize) ==>
            && n.batch == []
            && n.inserts == if s.batch == [] then s.inserts else s.inserts + [Insert(s.batch, t.ok)])
      && (t.AfterReceive? && |s.batch| < p.batchSize ==> n.batch == s.batch && n.inserts == s.inserts)
      && (t.Receive? ==> n.batch == s.batch + [s.ch[0]] && n.inserts == s.inserts)
      && (!OfConsumer(t) || t.Finish? ==> n.batch == s.batch && n.inserts == s.inserts)
  {
  }

  /** The stop signal is given by Close alone, and for good. */
  lemma StopIsClosed<R>(p: Params, s: State<R>, t: Step<R>)
    requires Enabled(s, t)
    ensures Next(p, s, t).stop <==> s.stop || t.Close?
  {
  }

  /** What has been received is what has been handed over, followed by the batch. */
  ghost predicate Collected<R>(s: State<R>) {
    s.received == Handed(s.inserts) + s.batch
  }

  lemma StepCollects<R>(p: Params, s: State<R>, t: Step<R>)
    requires Enabled(s, t) && Collected(s)
    ensures Collected(Next(p, s, t))
  {
    hide Handed, Flushed;
    if t.Receive? {
      Regroup(Handed(s.inserts), s.batch, s.ch);
    } else if OfConsumer(t) && !t.Finish? {
      FlushHands(s, t.ok);
    }
  }

  lemma {:induction false} RunCollects<R>(p: Params, s: State<R>, ts: seq<Step<R>>, s': State<R>)
    requires Reaches(p, s, ts, s') && Collected(s)
    ensures Collected(s')
    decreases ts
  {
    hide Next, Enabled, Collected;
    if ts == [] {
    } else {
      StepCollects(p, s, ts[0]);
      RunCollects(p, Next(p, s, ts[0]), ts[1..], s');
    }
  }

  /** No record waits longer than until the next tick: then everything received so far has been handed over. */
  lemma TickHandsOver<R>(p: Params, ts: seq<Step<R>>, s: State<R>, ok: bool)
    requires Reaches(p, Initial(), ts, s) && s.at == Selecting
    ensures Enabled(s, Tick(ok)) && Handed(Next(p, s, Tick(ok)).inserts) == s.received
  {
    assert Collected<R>(Initial());
    RunCollects(p, Initial(), ts, s);
    hide Handed, Reaches;
    FlushHands(s, ok);
  }

  // ---------------------------------------------------------------------
  // Shutdown
  // ---------------------------------------------------------------------

  /** How many steps other than ticks the consumer can still take when no producer runs. */
  ghost function Distance<R>(s: State<R>): nat {
    4 * |s.ch| + match s.at
      case Received => 5 case Selecting => 4 case DrainReceived => 3
      case Draining => 2 case Finishing => 1 case Stopped => 0
  }

  ghost function Work<R>(ts: seq<Step<R>>): nat {
    if ts == [] then 0 else (if ts[0].Tick? then 0 else 1) + Work(ts[1..])
  }

  /** Once stop is closed, the consumer can move on until it has stopped. */
  lemma DrainProgresses<R>(s: State<R>)
    requires s.stop && s.at != Stopped
    ensures exists t: Step<R> :: OfConsumer(t) && !t.Tick? && Enabled(s, t)
  {
    var t: Step<R> := match s.at
      case Received => AfterReceive(true) case DrainReceived => AfterReceive(true)
      case Selecting => SeeStop(true) case Finishing => LastFlush(true)
      case Draining => if s.ch == [] then Finish else Receive;
    assert OfConsumer(t) && !t.Tick? && Enabled(s, t);
  }

  /** What the consumer has yet to hand over or has handed over, in order. */
  ghost function Stream<R>(s: State<R>): seq<R> {
    Handed(s.inserts) + s.batch + s.ch
  }

  lemma FlushStreams<R>(s: State<R>, ok: bool, at: Point)
    ensures Stream(Flushed(s, ok).(at := at)) == Stream(s) == Stream(s.(at := at))
    ensures Flushed(s, ok).ch == s.ch
  {
    hide Handed, Flushed;
    FlushHands(s, ok);
    assert Handed(s.inserts) + s.batch + [] == Handed(s.inserts) + s.batch;
  }

  lemma ReceiveStreams<R>(p: Params, s: State<R>)
    requires Enabled<R>(s, Receive)
    ensures Stream(Next<R>(p, s, Receive)) == Stream(s)
  {
    hide Handed;
    Regroup(Handed(s.inserts), s.batch, s.ch);
    Regroup(Handed(s.inserts) + s.batch, [], s.ch);
  }

  lemma ConsumerStreams<R>(p: Params, s: State<R>, t: Step<R>)
    requires Enabled(s, t) && OfConsumer(t)
    ensures Stream(Next(p, s, t)) == Stream(s)
  {
    hide Stream, Flushed;
    var s' := Next(p, s, t);
    if t.Receive? {
      ReceiveStreams(p, s);
    } else if t.Finish? {
      FlushStreams(s, true, s'.at);
    } else {
      FlushStreams(s, t.ok, s'.at);
    }
  }

  /** What a consumer step does to the channel and to the consumer's position. */
  lemma ConsumerMoves<R>(p: Params, s: State<R>, t: Step<R>)
    requires Enabled(s, t) && OfConsumer(t)
    ensures Next(p, s, t).ch == if t.Receive? then s.ch[1..] else s.ch
    ensures Next(p, s, t).at == match t
      case Receive => (if s.at == Selecting then Received else DrainReceived)
      case AfterReceive(_) => (if s.at == Received then Selecting else Draining)
      case SeeStop(_) => Draining
      case Finish => Finishing
      case LastFlush(_) => Stopped
      case _ => s.at
  {
    hide Flushed;
    if !t.Receive? && !t.Finish? { FlushHands(s, t.ok); }
  }

  lemma ConsumerNears<R>(p: Params, s: State<R>, t: Step<R>)
    requires Enabled(s, t) && OfConsumer(t)
    ensures Distance(Next(p, s, t)) + (if t.Tick? then 0 else 1) <= Distance(s)
  {
    ConsumerMoves(p, s, t);
    hide Next;
  }

  /** A consumer that is about to stop has emptied the channel. */
  ghost predicate EmptyAtEnd<R>(s: State<R>) {
    s.at.Finishing? || s.at.Stopped? ==> s.ch == []
  }

  lemma ConsumerStopsEmpty<R>(p: Params, s: State<R>, t: Step<R>)
    requires Enabled(s, t) && OfConsumer(t) && EmptyAtEnd(s)
    ensures EmptyAtEnd(Next(p, s, t))
  {
    ConsumerMoves(p, s, t);
    hide Next;
  }

  /** The consumer alone loses and reorders nothing, and its steps other than ticks run out. */
  lemma {:induction false} ConsumerRuns<R>(p: Params, s: State<R>, ts: seq<Step<R>>, s': State<R>)
    requires Reaches(p, s, ts, s') && forall i :: 0 <= i < |ts| ==> OfConsumer(ts[i])
    ensures Stream(s') == Stream(s)
    ensures Work(ts) + Distance(s') <= Distance(s)
    ensures EmptyAtEnd(s) ==> EmptyAtEnd(s')
    decreases ts
  {
    hide Next, Stream, Distance, EmptyAtEnd;
    if ts == [] {
    } else {
      ConsumerStreams(p, s, ts[0]);
      ConsumerNears(p, s, ts[0]);
      if EmptyAtEnd(s) { ConsumerStopsEmpty(p, s, ts[0]); }
      ConsumerRuns(p, Next(p, s, ts[0]), ts[1..], s');
    }
  }

  /**
   Shutdown drains: if no Log step runs after stop is closed and the consumer has not yet found the
   channel empty, then when it has stopped, the channel and the batch are empty and every record
   that was queued or batched has been handed to BatchInsert exactly once, in order.
   */
  lemma ShutdownDrains<R>(p: Params, s: State<R>, ts: seq<Step<R>>, s': State<R>)
    requires p.batchSize >= 1 && Bounded(p, s)
    requires s.stop && !s.at.Finishing? && !s.at.Stopped?
    requires Reaches(p, s, ts, s') && forall i :: 0 <= i < |ts| ==> OfConsumer(ts[i])
    ensures Work(ts) <= Distance(s)
    ensures s'.at.Stopped? ==>
      s'.ch == [] && s'.batch == [] && Handed(s'.inserts) == Handed(s.inserts) + s.batch + s.ch
  {
    ConsumerRuns(p, s, ts, s');
    StaysBounded(p, s, ts, s');
    assert Handed(s'.inserts) + [] + [] == Handed(s'.inserts);
  }
}
