/**
 The asynchronous usage logger: any number of producers, a bounded channel that drops its oldest
 record when full, and one consumer that inserts records in batches and drains on shutdown.

 `State` and `Step` are the concurrent system.  A call of Log is up to three separate channel
 operations, and the consumer's receive and flush are separate as well; steps of all of them
 interleave freely.  The class below is the same code run by one goroutine at a time.
 */
module UsageLogger {

  /** One call of BatchInsert and whether it succeeded. */
  datatype Insert<R> = Insert(records: seq<R>, ok: bool)

  /** Where the consumer is: at its select, after a receive, at the drain's select, and so on. */
  datatype Point = Selecting | Received | Draining | DrainReceived | Finishing | Stopped

  datatype Params = Params(buffer: nat, batchSize: nat)

  datatype State<R> = State(
    ch: seq<R>,
    stop: bool,
    // calls of Log in progress: before the first send, before the receive, before the second send
    offering: multiset<R>,
    evicting: multiset<R>,
    retrying: multiset<R>,
    // the consumer and the store behind it
    at: Point,
    batch: seq<R>,
    inserts: seq<Insert<R>>,
    // what has happened so far
    logged: multiset<R>,
    enqueued: seq<R>,
    received: seq<R>,
    discarded: multiset<R>,
    gaveUp: multiset<R>)

  datatype Step<R> =
    | Log(r: R)
    | Offer(r: R)
    | Evict(r: R)
    | Retry(r: R)
    | Close
    | Receive
    | AfterReceive(ok: bool)
    | Tick(ok: bool)
    | SeeStop(ok: bool)
    | Finish
    | LastFlush(ok: bool)

  ghost function Initial<R>(): State<R> {
    State([], false, multiset{}, multiset{}, multiset{}, Selecting, [], [],
          multiset{}, [], [], multiset{}, multiset{})
  }

  ghost predicate Enabled<R>(s: State<R>, t: Step<R>) {
    match t
    case Log(_) => true
    case Offer(r) => r in s.offering
    case Evict(r) => r in s.evicting
    case Retry(r) => r in s.retrying
    case Close => true
    case Receive => (s.at == Selecting || s.at == Draining) && s.ch != []
    case AfterReceive(_) => s.at == Received || s.at == DrainReceived
    case Tick(_) => s.at == Selecting
    case SeeStop(_) => s.at == Selecting && s.stop
    case Finish => s.at == Draining && s.ch == []
    case LastFlush(_) => s.at == Finishing
  }

  /** The steps of the consumer; the others belong to calls of Log and of Shutdown. */
  predicate OfConsumer<R>(t: Step<R>) {
    t.Receive? || t.AfterReceive? || t.Tick? || t.SeeStop? || t.Finish? || t.LastFlush?
  }

  ghost function Enqueue<R>(s: State<R>, r: R): State<R> {
    s.(ch := s.ch + [r], enqueued := s.enqueued + [r])
  }

  /** The consumer's flush: an empty batch is not inserted; a failed batch is gone as well. */
  ghost function Flushed<R>(s: State<R>, ok: bool): State<R> {
    if s.batch == [] then s else s.(inserts := s.inserts + [Insert(s.batch, ok)], batch := [])
  }

  ghost function Next<R>(p: Params, s: State<R>, t: Step<R>): State<R>
    requires Enabled(s, t)
  {
    match t
    case Log(r) => s.(logged := s.logged + multiset{r}, offering := s.offering + multiset{r})
    case Offer(r) =>
      var s' := s.(offering := s.offering - multiset{r});
      if |s.ch| < p.buffer then Enqueue(s', r) else s'.(evicting := s.evicting + multiset{r})
    case Evict(r) =>
      var s' := s.(evicting := s.evicting - multiset{r});
      if s.ch == [] then s'.(gaveUp := s.gaveUp + multiset{r})
      else s'.(ch := s.ch[1..], discarded := s.discarded + multiset{s.ch[0]}, retrying := s.retrying + multiset{r})
    case Retry(r) =>
      var s' := s.(retrying := s.retrying - multiset{r});
      if |s.ch| < p.buffer then Enqueue(s', r) else s'.(gaveUp := s.gaveUp + multiset{r})
    case Close => s.(stop := true)
    case Receive =>
      s.(ch := s.ch[1..], received := s.received + [s.ch[0]], batch := s.batch + [s.ch[0]],
         at := if s.at == Selecting then Received else DrainReceived)
    case AfterReceive(ok) =>
      (if |s.batch| >= p.batchSize then Flushed(s, ok) else s).(at := if s.at == Received then Selecting else Draining)
    case Tick(ok) => Flushed(s, ok)
    case SeeStop(ok) => Flushed(s, ok).(at := Draining)
    case Finish => s.(at := Finishing)
    case LastFlush(ok) => Flushed(s, ok).(at := Stopped)
  }

  // ---------------------------------------------------------------------
  // What the store has been handed
  // ---------------------------------------------------------------------

  /** All records handed to BatchInsert, in order. */
  ghost function Handed<R>(ins: seq<Insert<R>>): seq<R> {
    if ins == [] then [] else Handed(ins[..|ins|-1]) + ins[|ins|-1].records
  }

  /** The records of the batches that were inserted (ok) or lost (not ok). */
  ghost function RecordsOf<R>(ins: seq<Insert<R>>, ok: bool): multiset<R> {
    if ins == [] then multiset{}
    else RecordsOf(ins[..|ins|-1], ok) + if ins[|ins|-1].ok == ok then multiset(ins[|ins|-1].records) else multiset{}
  }

  lemma {:induction false} HandedSplit<R>(ins: seq<Insert<R>>)
    ensures multiset(Handed(ins)) == RecordsOf(ins, true) + RecordsOf(ins, false)
  {
    if ins == [] {
    } else {
      HandedSplit(ins[..|ins|-1]);
    }
  }

  lemma HandedSnoc<R>(ins: seq<Insert<R>>, i: Insert<R>)
    ensures Handed(ins + [i]) == Handed(ins) + i.records
  {
    assert (ins + [i])[..|ins|] == ins;
  }

  /** xs is ys with some elements left out. */
  ghost predicate Subsequence<R>(xs: seq<R>, ys: seq<R>) {
    xs == [] || (ys != [] && (
      || (xs[|xs|-1] == ys[|ys|-1] && Subsequence(xs[..|xs|-1], ys[..|ys|-1]))
      || Subsequence(xs, ys[..|ys|-1])))
  }

  lemma SubsequenceSnoc<R>(xs: seq<R>, ys: seq<R>, r: R)
    requires Subsequence(xs, ys)
    ensures Subsequence(xs + [r], ys + [r])
  {
    assert (xs + [r])[..|xs|] == xs && (ys + [r])[..|ys|] == ys;
  }

  lemma SubsequenceWeaken<R>(xs: seq<R>, ys: seq<R>, r: R)
    requires Subsequence(xs, ys)
    ensures Subsequence(xs, ys + [r])
  {
    assert (ys + [r])[..|ys|] == ys;
  }

  lemma {:induction false} SubsequenceDrop<R>(xs: seq<R>, i: nat, ys: seq<R>)
    requires i < |xs| && Subsequence(xs, ys)
    ensures Subsequence(xs[..i] + xs[i+1..], ys)
  {
    var rest := xs[..i] + xs[i+1..];
    var xs', ys' := xs[..|xs|-1], ys[..|ys|-1];
    if xs[|xs|-1] == ys[|ys|-1] && Subsequence(xs', ys') {
      if i == |xs| - 1 {
        assert rest == xs';
        SubsequenceWeaken(xs', ys', ys[|ys|-1]);
        assert ys' + [ys[|ys|-1]] == ys;
      } else {
        SubsequenceDrop(xs', i, ys');
        assert rest[..|rest|-1] == xs'[..i] + xs'[i+1..];
      }
    } else {
      SubsequenceDrop(xs, i, ys');
    }
  }

  // ---------------------------------------------------------------------
  // The invariant of every run
  // ---------------------------------------------------------------------

  /** How often the record r is in one of the places where a logged record can be. */
  ghost function Places<R>(s: State<R>, r: R): nat {
    RecordsOf(s.inserts, true)[r] + RecordsOf(s.inserts, false)[r] + s.discarded[r] + s.gaveUp[r]
    + multiset(s.ch)[r] + multiset(s.batch)[r] + s.offering[r] + s.evicting[r] + s.retrying[r]
  }

  /** Every logged record is in exactly one place, and every enqueued one was received, discarded or is queued. */
  ghost predicate Accounted<R>(s: State<R>, r: R) {
    && s.logged[r] == Places(s, r)
    && multiset(s.enqueued)[r] == multiset(s.received)[r] + multiset(s.ch)[r] + s.discarded[r]
  }

  /** The consumer handles records in the order in which they were enqueued. */
  ghost predicate Ordered<R>(s: State<R>) {
    && s.received == Handed(s.inserts) + s.batch
    && Subsequence(s.received + s.ch, s.enqueued)
  }

  /** Every BatchInsert gets between 1 and batchSize records. */
  ghost predicate Fits<R>(p: Params, inserts: seq<Insert<R>>) {
    forall i :: 0 <= i < |inserts| ==> 1 <= |inserts[i].records| <= p.batchSize
  }

  ghost predicate Bounded<R>(p: Params, s: State<R>) {
    && |s.ch| <= p.buffer
    && Fits(p, s.inserts)
    && (s.at.Received? || s.at.DrainReceived? ==> 1 <= |s.batch| <= p.batchSize)
    && (s.at.Selecting? || s.at.Draining? || s.at.Finishing? ==> |s.batch| < p.batchSize)
    && (s.at.Stopped? ==> s.batch == [])
  }

  lemma HeadAndTail<R>(ch: seq<R>)
    requires ch != []
    ensures ch == [ch[0]] + ch[1..] && multiset(ch) == multiset{ch[0]} + multiset(ch[1..])
  {
    assert ch == [ch[0]] + ch[1..];
  }

  lemma Regroup<R>(xs: seq<R>, ys: seq<R>, ch: seq<R>)
    requires ch != []
    ensures xs + (ys + [ch[0]]) == xs + ys + [ch[0]]
    ensures xs + [ch[0]] + ch[1..] == xs + ch
  {
  }

  /** A flush hands the batch to the store. */
  lemma FlushHands<R>(s: State<R>, ok: bool)
    ensures var f := Flushed(s, ok);
      f == s.(inserts := f.inserts, batch := []) && Handed(f.inserts) == Handed(s.inserts) + s.batch
  {
    HandedSnoc(s.inserts, Insert(s.batch, ok));
  }

  lemma FlushCounts<R>(s: State<R>, ok: bool, r: R)
    ensures var f := Flushed(s, ok);
      RecordsOf(f.inserts, true)[r] + RecordsOf(f.inserts, false)[r]
      == RecordsOf(s.inserts, true)[r] + RecordsOf(s.inserts, false)[r] + multiset(s.batch)[r]
  {
    assert (s.inserts + [Insert(s.batch, ok)])[..|s.inserts|] == s.inserts;
  }

  lemma FlushAccounts<R>(s: State<R>, ok: bool, at: Point, r: R)
    requires Accounted(s, r)
    ensures Accounted(s.(at := at), r) && Accounted(Flushed(s, ok).(at := at), r)
  {
    hide RecordsOf, Flushed, Handed;
    FlushHands(s, ok);
    FlushCounts(s, ok, r);
  }

  lemma SnocCounts<R>(xs: seq<R>, x: R, r: R)
    ensures multiset(xs + [x])[r] == multiset(xs)[r] + if x == r then 1 else 0
  {
  }

  lemma HeadCounts<R>(ch: seq<R>, r: R)
    requires ch != []
    ensures multiset(ch)[r] == multiset(ch[1..])[r] + if ch[0] == r then 1 else 0
  {
    HeadAndTail(ch);
  }

  lemma TransferAccounts<R>(s: State<R>, at: Point, r: R)
    requires Accounted(s, r) && s.ch != []
    ensures Accounted(s.(ch := s.ch[1..], received := s.received + [s.ch[0]], batch := s.batch + [s.ch[0]], at := at), r)
  {
    hide RecordsOf;
    HeadCounts(s.ch, r);
    SnocCounts(s.received, s.ch[0], r);
    SnocCounts(s.batch, s.ch[0], r);
  }

  lemma ReceiveAccounts<R>(p: Params, s: State<R>, r: R)
    requires Accounted(s, r) && Enabled<R>(s, Receive)
    ensures Accounted(Next<R>(p, s, Receive), r)
  {
    hide Accounted;
    TransferAccounts(s, Next<R>(p, s, Receive).at, r);
  }

  lemma ConsumerAccounts<R>(p: Params, s: State<R>, t: Step<R>, r: R)
    requires Accounted(s, r) && Enabled(s, t) && OfConsumer(t)
    ensures Accounted(Next(p, s, t), r)
  {
    hide Accounted, Flushed;
    var s' := Next(p, s, t);
    if t.Receive? {
      ReceiveAccounts(p, s, r);
    } else if t.Finish? {
      FlushAccounts(s, true, s'.at, r);
    } else {
      FlushAccounts(s, t.ok, s'.at, r);
      FlushHands(s, t.ok);
    }
  }

  lemma MoveCounts<R>(m: multiset<R>, q: R, r: R)
    ensures (m + multiset{q})[r] == m[r] + (if q == r then 1 else 0)
    ensures q in m ==> (m - multiset{q})[r] == m[r] - (if q == r then 1 else 0)
  {
  }

  lemma EvictAccounts<R>(p: Params, s: State<R>, q: R, r: R)
    requires Accounted(s, r) && Enabled(s, Evict(q))
    ensures Accounted(Next(p, s, Evict(q)), r)
  {
    hide RecordsOf;
    MoveCounts(s.evicting, q, r);
    if s.ch == [] {
      MoveCounts(s.gaveUp, q, r);
    } else {
      HeadCounts(s.ch, r);
      MoveCounts(s.retrying, q, r);
      MoveCounts(s.discarded, s.ch[0], r);
    }
  }

  lemma EnqueueCounts<R>(s: State<R>, q: R, r: R)
    ensures var e, one := Enqueue(s, q), if q == r then 1 else 0;
      && e == s.(ch := e.ch, enqueued := e.enqueued)
      && multiset(e.ch)[r] == multiset(s.ch)[r] + one
      && multiset(e.enqueued)[r] == multiset(s.enqueued)[r] + one
  {
  }

  /** A record leaves one place of s0, which gives s, and is queued. */
  lemma EnqueueAccounts<R>(s0: State<R>, s: State<R>, q: R, r: R)
    requires Accounted(s0, r) && s.ch == s0.ch && s.enqueued == s0.enqueued && s.received == s0.received
    requires s.discarded == s0.discarded && s.logged == s0.logged
    requires Places(s, r) == Places(s0, r) - if q == r then 1 else 0
    ensures Accounted(Enqueue(s, q), r)
  {
    hide RecordsOf, Enqueue;
    EnqueueCounts(s, q, r);
  }

  lemma OfferAccounts<R>(p: Params, s: State<R>, q: R, r: R)
    requires Accounted(s, r) && Enabled(s, Offer(q))
    ensures Accounted(Next(p, s, Offer(q)), r)
  {
    hide RecordsOf, Enqueue;
    MoveCounts(s.offering, q, r);
    MoveCounts(s.evicting, q, r);
    if |s.ch| < p.buffer {
      EnqueueAccounts(s, s.(offering := s.offering - multiset{q}), q, r);
    }
  }

  lemma RetryAccounts<R>(p: Params, s: State<R>, q: R, r: R)
    requires Accounted(s, r) && Enabled(s, Retry(q))
    ensures Accounted(Next(p, s, Retry(q)), r)
  {
    hide RecordsOf, Enqueue;
    MoveCounts(s.retrying, q, r);
    MoveCounts(s.gaveUp, q, r);
    if |s.ch| < p.buffer {
      EnqueueAccounts(s, s.(retrying := s.retrying - multiset{q}), q, r);
    }
  }

  lemma ProducersAccount<R>(p: Params, s: State<R>, t: Step<R>, r: R)
    requires Accounted(s, r) && Enabled(s, t) && !OfConsumer(t)
    ensures Accounted(Next(p, s, t), r)
  {
    if t.Evict? {
      hide Accounted, Next, Enabled;
      EvictAccounts(p, s, t.r, r);
    } else if t.Offer? {
      hide Accounted, Next, Enabled;
      OfferAccounts(p, s, t.r, r);
    } else if t.Retry? {
      hide Accounted, Next, Enabled;
      RetryAccounts(p, s, t.r, r);
    }
  }

  lemma EvictKeepsOrder<R>(received: seq<R>, ch: seq<R>, enqueued: seq<R>)
    requires ch != [] && Subsequence(received + ch, enqueued)
    ensures Subsequence(received + ch[1..], enqueued)
  {
    hide Subsequence;
    var seen := received + ch;
    SubsequenceDrop(seen, |received|, enqueued);
    assert seen[..|received|] + seen[|received|+1..] == received + ch[1..];
  }

  lemma EnqueueKeepsOrder<R>(received: seq<R>, ch: seq<R>, enqueued: seq<R>, r: R)
    requires Subsequence(received + ch, enqueued)
    ensures Subsequence(received + (ch + [r]), enqueued + [r])
  {
    hide Subsequence;
    SubsequenceSnoc(received + ch, enqueued, r);
    assert received + (ch + [r]) == received + ch + [r];
  }

  lemma ProducersKeepOrder<R>(p: Params, s: State<R>, t: Step<R>)
    requires Ordered(s) && Enabled(s, t) && !OfConsumer(t)
    ensures Ordered(Next(p, s, t))
  {
    hide Handed, Subsequence;
    if t.Evict? {
      if s.ch != [] { EvictKeepsOrder(s.received, s.ch, s.enqueued); }
    } else if t.Offer? || t.Retry? {
      EnqueueKeepsOrder(s.received, s.ch, s.enqueued, t.r);
    }
  }

  lemma FlushKeepsOrder<R>(s: State<R>, ok: bool, at: Point)
    requires Ordered(s)
    ensures Ordered(s.(at := at)) && Ordered(Flushed(s, ok).(at := at))
  {
    hide Handed, Subsequence, Flushed;
    FlushHands(s, ok);
    assert Handed(s.inserts) + s.batch + [] == Handed(s.inserts) + s.batch;
  }

  lemma ReceiveKeepsOrder<R>(p: Params, s: State<R>)
    requires Ordered(s) && Enabled<R>(s, Receive)
    ensures Ordered(Next<R>(p, s, Receive))
  {
    hide Handed, Subsequence;
    Regroup(Handed(s.inserts), s.batch, s.ch);
    Regroup(s.received, [], s.ch);
  }

  lemma ConsumerKeepsOrder<R>(p: Params, s: State<R>, t: Step<R>)
    requires Ordered(s) && Enabled(s, t) && OfConsumer(t)
    ensures Ordered(Next(p, s, t))
  {
    hide Ordered, Flushed;
    var s' := Next(p, s, t);
    if t.Receive? {
      ReceiveKeepsOrder(p, s);
    } else if t.Finish? {
      FlushKeepsOrder(s, true, s'.at);
    } else {
      FlushKeepsOrder(s, t.ok, s'.at);
      FlushHands(s, t.ok);
    }
  }

  lemma FlushBounds<R>(p: Params, s: State<R>, ok: bool)
    requires Fits(p, s.inserts) && |s.batch| <= p.batchSize
    ensures var f := Flushed(s, ok); f == s.(inserts := f.inserts, batch := []) && Fits(p, f.inserts)
  {
  }

  lemma ProducersBound<R>(p: Params, s: State<R>, t: Step<R>)
    requires Bounded(p, s) && Enabled(s, t) && !OfConsumer(t)
    ensures Bounded(p, Next(p, s, t))
  {
    hide Fits;
  }

  lemma ConsumerBounds<R>(p: Params, s: State<R>, t: Step<R>)
    requires p.batchSize >= 1 && Bounded(p, s) && Enabled(s, t) && OfConsumer(t)
    ensures Bounded(p, Next(p, s, t))
  {
    hide Flushed, Fits;
    if !t.Receive? && !t.Finish? { FlushBounds(p, s, t.ok); }
  }

  lemma BoundedStep<R>(p: Params, s: State<R>, t: Step<R>)
    requires p.batchSize >= 1 && Bounded(p, s) && Enabled(s, t)
    ensures Bounded(p, Next(p, s, t))
  {
    hide Bounded, Next, Enabled, OfConsumer;
    if OfConsumer(t) {
      ConsumerBounds(p, s, t);
    } else {
      ProducersBound(p, s, t);
    }
  }

  /** The state after a sequence of steps, each of them enabled. */
  ghost predicate Reaches<R>(p: Params, s: State<R>, ts: seq<Step<R>>, s': State<R>)
    decreases ts
  {
    if ts == [] then s == s' else Enabled(s, ts[0]) && Reaches(p, Next(p, s, ts[0]), ts[1..], s')
  }

  /** The channel never exceeds its buffer, and no BatchInsert gets too few or too many records. */
  lemma {:induction false} StaysBounded<R>(p: Params, s: State<R>, ts: seq<Step<R>>, s': State<R>)
    requires p.batchSize >= 1 && Reaches(p, s, ts, s') && Bounded(p, s)
    ensures Bounded(p, s')
    decreases ts
  {
    if ts == [] {
    } else {
      BoundedStep(p, s, ts[0]);
      hide Next, Bounded, Enabled;
      StaysBounded(p, Next(p, s, ts[0]), ts[1..], s');
    }
  }

  /**
   Over every interleaving of producers, consumer and shutdown: every logged record is in exactly
   one place, and the consumer sees a subsequence of the enqueue order.
   */
  lemma {:induction false} EveryRunAccounts<R>(p: Params, s: State<R>, ts: seq<Step<R>>, s': State<R>, r: R)
    requires Reaches(p, s, ts, s') && Accounted(s, r) && Ordered(s)
    ensures Accounted(s', r) && Ordered(s')
    decreases ts
  {
    if ts == [] {
    } else {
      if OfConsumer(ts[0]) {
        ConsumerAccounts(p, s, ts[0], r);
        ConsumerKeepsOrder(p, s, ts[0]);
      } else {
        ProducersAccount(p, s, ts[0], r);
        ProducersKeepOrder(p, s, ts[0]);
      }
      hide Next, Accounted, Ordered, Enabled, OfConsumer;
      EveryRunAccounts(p, Next(p, s, ts[0]), ts[1..], s', r);
    }
  }

  lemma EveryRunIsBounded<R>(p: Params, ts: seq<Step<R>>, s: State<R>)
    requires p.batchSize >= 1 && Reaches(p, Initial(), ts, s)
    ensures Bounded(p, s)
  {
    StaysBounded(p, Initial(), ts, s);
  }

  /** A record logged once is in one place, and the consumer sees it at most once and in enqueue order. */
  lemma EachRecordHasOnePlace<R>(p: Params, ts: seq<Step<R>>, s: State<R>, r: R)
    requires Reaches(p, Initial(), ts, s) && s.logged[r] == 1
    ensures Places(s, r) == 1
    ensures multiset(s.received + s.ch)[r] <= multiset(s.enqueued)[r] <= 1
    ensures s.received == Handed(s.inserts) + s.batch
    ensures Subsequence(s.received + s.ch, s.enqueued)
  {
    EveryRunAccounts(p, Initial(), ts, s, r);
    HandedSplit(s.inserts);
    assert multiset(s.received + s.ch) == multiset(s.received) + multiset(s.ch);
    assert multiset(s.received) == multiset(Handed(s.inserts)) + multiset(s.batch);
  }

  // ---------------------------------------------------------------------
  // The code itself, one goroutine at a time
  // ---------------------------------------------------------------------

  const DEFAULT_BUFFER_SIZE := 1024
  const DEFAULT_BATCH_SIZE := 50
  const DEFAULT_FLUSH_INTERVAL := 1_000_000_000

  /** The channel after a Log that no other step interrupts. */
  function Queued<R>(ch: seq<R>, buffer: nat, r: R): seq<R>
    requires buffer >= 1
  {
    if |ch| < buffer then ch + [r] else ch[1..] + [r]
  }

  class UsageLogger<R> {
    const buffer: nat
    const batchSize: nat
    const flushInterval: nat
    var ch: seq<R>
    var batch: seq<R>
    var inserts: seq<Insert<R>>

    ghost predicate Valid()
      reads this
    {
      && buffer >= 1 && batchSize >= 1 && flushInterval >= 1 && |ch| <= buffer && |batch| < batchSize
      && forall i :: 0 <= i < |inserts| ==> 1 <= |inserts[i].records| <= batchSize
    }

    /** Options that are not positive are replaced; the interval is in nanoseconds. */
    constructor (bufferSize: int, batchSize: int, flushInterval: int)
      ensures Valid() && ch == [] && batch == [] && inserts == []
      ensures buffer == if bufferSize <= 0 then DEFAULT_BUFFER_SIZE else bufferSize
      ensures this.batchSize == if batchSize <= 0 then DEFAULT_BATCH_SIZE else batchSize
      ensures this.flushInterval == if flushInterval <= 0 then DEFAULT_FLUSH_INTERVAL else flushInterval
    {
      buffer := if bufferSize <= 0 then DEFAULT_BUFFER_SIZE else bufferSize;
      this.batchSize := if batchSize <= 0 then DEFAULT_BATCH_SIZE else batchSize;
      this.flushInterval := if flushInterval <= 0 then DEFAULT_FLUSH_INTERVAL else flushInterval;
      ch, batch, inserts := [], [], [];
    }

    method Log(r: R)
      requires Valid()
      modifies this`ch
      ensures Valid() && ch == Queued(old(ch), buffer, r)
      ensures |old(ch)| < buffer ==> ch == old(ch) + [r]
      ensures |old(ch)| == buffer ==> ch == old(ch)[1..] + [r]
    {
      if |ch| < buffer {
        ch := ch + [r];
      } else if |ch| > 0 {
        ch := ch[1..];
        if |ch| < buffer {
          ch := ch + [r];
        }
      }
    }

    /** Hands the batch to BatchInsert, whatever comes of it, unless it is empty. */
    method Flush() returns (ghost ok: bool)
      modifies this`batch, this`inserts
      ensures batch == []
      ensures inserts == if old(batch) == [] then old(inserts) else old(inserts) + [Insert(old(batch), ok)]
      ensures Handed(inserts) == old(Handed(inserts) + batch)
    {
      var done: bool := *;
      ok := done;
      if |batch| == 0 {
        return;
      }
      HandedSnoc(inserts, Insert(batch, done));
      inserts := inserts + [Insert(batch, done)];
      batch := [];
    }

    /** The consumer receives the oldest record and flushes a full batch. */
    method Consume()
      requires Valid() && ch != []
      modifies this
      ensures Valid() && ch == old(ch)[1..]
      ensures Handed(inserts) + batch == old(Handed(inserts) + batch) + [old(ch)[0]]
      ensures |old(batch)| + 1 < batchSize ==> inserts == old(inserts) && batch == old(batch) + [old(ch)[0]]
      ensures |old(batch)| + 1 == batchSize ==>
        batch == [] && exists ok :: inserts == old(inserts) + [Insert(old(batch) + [old(ch)[0]], ok)]
    {
      hide Handed;
      Regroup(Handed(inserts), batch, ch);
      batch := batch + [ch[0]];
      ch := ch[1..];
      if |batch| >= batchSize {
        ghost var ok := Flush();
        assert inserts == old(inserts) + [Insert(old(batch) + [old(ch)[0]], ok)];
      }
    }

    /** The shutdown path of the consumer. */
    method Drain()
      requires Valid()
      modifies this
      ensures Valid() && ch == [] && batch == []
      ensures Handed(inserts) == old(Handed(inserts) + batch + ch)
      ensures old(inserts) <= inserts
      ensures var first := |old(inserts)| + if old(batch) == [] then 0 else 1;
        && first <= |inserts| && (old(batch) != [] ==> inserts[first - 1].records == old(batch))
        && forall i :: first <= i < |inserts| - 1 ==> |inserts[i].records| == batchSize
    {
      hide Handed;
      var _ := Flush();
      ghost var first := |inserts|;
      while ch != []
        invariant Valid()
        invariant Handed(inserts) + batch + ch == old(Handed(inserts) + batch + ch)
        invariant old(inserts) <= inserts && first <= |inserts|
        invariant old(batch) != [] ==> inserts[first - 1].records == old(batch)
        invariant forall i :: first <= i < |inserts| ==> |inserts[i].records| == batchSize
        decreases |ch|
      {
        Regroup(Handed(inserts) + batch, [], ch);
        Consume();
      }
      var _ := Flush();
    }
  }
}
