/**
 Reloading the configuration file: the watcher that waits until changed content has been stable for a
 while, the reload itself, and what it does to the backends.

 `Polled` is what one poll does to the watcher's state and `Watch` the state after a run of polls.
 The content hash is a value of the type H.
 */
module Reloader {
  import opened Wrappers
  import opened RuntimePolicy

  /** A poll that could read the file: when, and the hash of what it read. */
  datatype Poll<H> = Poll(at: int, hash: H)

  /** The watcher: the last hash read, the hash waiting since some time, and the last one it tried to load. */
  datatype WatchState<H> = WatchState(
    last: Option<H>,
    pending: bool,
    pendingHash: Option<H>,
    since: int,
    attempted: Option<H>)

  function Start<H>(): WatchState<H> {
    WatchState(None, false, None, 0, None)
  }

  /** The watcher after it has compared the hash with the last one. */
  function Seen<H(==)>(s: WatchState<H>, p: Poll<H>): WatchState<H> {
    if s.last.None? then s.(last := Some(p.hash))
    else if s.last.value != p.hash then WatchState(Some(p.hash), true, Some(p.hash), p.at, s.attempted)
    else s
  }

  /** The poll tries to load the file. */
  predicate Attempts<H(==)>(s: WatchState<H>, p: Poll<H>, debounce: int) {
    var n := Seen(s, p);
    s.last.Some? && n.pending && p.at - n.since >= debounce && n.attempted != n.pendingHash
  }

  function Polled<H(==)>(s: WatchState<H>, p: Poll<H>, debounce: int): WatchState<H> {
    var n := Seen(s, p);
    if Attempts(s, p, debounce) then n.(attempted := n.pendingHash, pending := false) else n
  }

  function Watch<H(==)>(polls: seq<Poll<H>>, debounce: int): WatchState<H> {
    if polls == [] then Start() else Polled(Watch(polls[..|polls|-1], debounce), polls[|polls|-1], debounce)
  }

  // ---------------------------------------------------------------------
  // Runs of polls
  // ---------------------------------------------------------------------

  /** From poll i on, every poll has read the same hash, and the poll before read another. */
  ghost predicate ChangedAt<H>(polls: seq<Poll<H>>, i: int) {
    && 0 < i < |polls| && polls[i - 1].hash != polls[i].hash
    && forall j :: i <= j < |polls| ==> polls[j].hash == polls[i].hash
  }

  /** What the watcher's state says about the polls so far. */
  ghost predicate Remembers<H>(polls: seq<Poll<H>>, s: WatchState<H>) {
    if polls == [] then s == Start()
    else
      && s.last == Some(polls[|polls|-1].hash)
      && (s.pending ==> s.pendingHash == s.last && exists i :: ChangedAt(polls, i) && s.since == polls[i].at)
  }

  lemma ChangedOneMore<H>(polls: seq<Poll<H>>, p: Poll<H>, i: int)
    requires polls != []
    ensures ChangedAt(polls + [p], i) <==>
      if i == |polls| then polls[|polls|-1].hash != p.hash
      else ChangedAt(polls, i) && p.hash == polls[|polls|-1].hash
  {
    var more := polls + [p];
    assert forall j :: 0 <= j < |polls| ==> more[j] == polls[j];
    assert more[|polls|] == p;
  }

  lemma {:induction false} WatchRemembers<H>(polls: seq<Poll<H>>, debounce: int)
    ensures Remembers(polls, Watch(polls, debounce))
  {
    if polls == [] {
    } else {
      var front, p := polls[..|polls|-1], polls[|polls|-1];
      WatchRemembers(front, debounce);
      assert front + [p] == polls;
      var s, n := Watch(front, debounce), Watch(polls, debounce);
      if n.pending {
        if s.last == Some(p.hash) {
          var i :| ChangedAt(front, i) && s.since == front[i].at;
          ChangedOneMore(front, p, i);
          assert ChangedAt(polls, i);
        } else {
          ChangedOneMore(front, p, |front|);
          assert ChangedAt(polls, |front|);
        }
      }
    }
  }

  /**
   A poll that tries to load the file has read a hash that every poll has read since it last
   changed, and that was at least the debounce time ago.
   */
  lemma AttemptsAreStable<H>(polls: seq<Poll<H>>, p: Poll<H>, debounce: int)
    requires Attempts(Watch(polls, debounce), p, debounce)
    ensures exists i :: ChangedAt(polls + [p], i) && p.at - (polls + [p])[i].at >= debounce
    ensures Watch(polls + [p], debounce).attempted == Some(p.hash)
  {
    WatchRemembers(polls, debounce);
    var s := Watch(polls, debounce);
    assert (polls + [p])[..|polls|] == polls;
    if s.last == Some(p.hash) {
      var i :| ChangedAt(polls, i) && s.since == polls[i].at;
      ChangedOneMore(polls, p, i);
      assert (polls + [p])[i] == polls[i];
    } else {
      ChangedOneMore(polls, p, |polls|);
    }
  }

  /** The hashes that the watcher has tried to load, in order. */
  ghost function Attempted<H>(polls: seq<Poll<H>>, debounce: int): seq<H> {
    if polls == [] then []
    else
      var front, p := polls[..|polls|-1], polls[|polls|-1];
      Attempted(front, debounce) + if Attempts(Watch(front, debounce), p, debounce) then [p.hash] else []
  }

  /** A poll that tries to load the file tries the hash it has read, which is not the last one tried. */
  lemma AttemptIsNew<H>(polls: seq<Poll<H>>, p: Poll<H>, debounce: int)
    requires Attempts(Watch(polls, debounce), p, debounce)
    ensures Polled(Watch(polls, debounce), p, debounce).attempted == Some(p.hash) != Watch(polls, debounce).attempted
  {
    WatchRemembers(polls, debounce);
  }

  /** No element is followed by itself. */
  ghost predicate Alternates<H>(hs: seq<H>) {
    forall i :: 0 < i < |hs| ==> hs[i - 1] != hs[i]
  }

  lemma AlternatesOneMore<H>(hs: seq<H>, h: H)
    requires Alternates(hs) && (hs != [] ==> hs[|hs|-1] != h)
    ensures Alternates(hs + [h])
  {
  }

  /** The watcher never tries the same hash twice running. */
  lemma {:induction false} NeverTwiceRunning<H>(polls: seq<Poll<H>>, debounce: int)
    ensures var a := Attempted(polls, debounce);
      && Watch(polls, debounce).attempted == (if a == [] then None else Some(a[|a|-1]))
      && Alternates(a)
  {
    if polls == [] {
    } else {
      var front, p := polls[..|polls|-1], polls[|polls|-1];
      NeverTwiceRunning(front, debounce);
      if Attempts(Watch(front, debounce), p, debounce) {
        AttemptIsNew(front, p, debounce);
        hide Alternates;
        AlternatesOneMore(Attempted(front, debounce), p.hash);
      }
    }
  }

  /** Since the change, the watcher has been waiting for it or has tried the hash. */
  lemma {:induction false} WaitingOrTried<H>(polls: seq<Poll<H>>, i: int, debounce: int)
    requires ChangedAt(polls, i)
    ensures var s, h := Watch(polls, debounce), polls[|polls|-1].hash;
      s.attempted == Some(h) || (s.pending && s.pendingHash == Some(h) && s.since == polls[i].at)
  {
    var front, p := polls[..|polls|-1], polls[|polls|-1];
    WatchRemembers(front, debounce);
    if i < |front| {
      assert front + [p] == polls;
      ChangedOneMore(front, p, i);
      WaitingOrTried(front, i, debounce);
    } else {
      assert front[|front|-1] == polls[i - 1];
    }
  }

  /**
   Content that has changed and then stays the same gets tried: once a poll comes at least the
   debounce time after the change, the last hash tried is that of the content.
   */
  lemma StableContentIsTried<H>(polls: seq<Poll<H>>, i: int, debounce: int)
    requires ChangedAt(polls, i) && polls[|polls|-1].at - polls[i].at >= debounce
    ensures Watch(polls, debounce).attempted == Some(polls[|polls|-1].hash)
  {
    WaitingOrTried(polls, i, debounce);
    var front, p := polls[..|polls|-1], polls[|polls|-1];
    WatchRemembers(front, debounce);
    if i < |front| {
      assert front + [p] == polls;
      ChangedOneMore(front, p, i);
      WaitingOrTried(front, i, debounce);
    } else {
      assert front[|front|-1] == polls[i - 1];
    }
  }

  // ---------------------------------------------------------------------
  // The reloader
  // ---------------------------------------------------------------------

  datatype ReloadStatus = ReloadStatus(lastTrigger: string, lastError: string)

  class Reloader<H(==)> {
    const policy: Policy
    const debounce: int
    var current: Configuration
    var hasHash: bool
    var lastHash: Option<H>
    var pending: bool
    var pendingHash: Option<H>
    var pendingSince: int
    var attemptedHash: Option<H>
    var status: ReloadStatus
    ghost const startup: Fixed

    /** The configuration in use has the fixed part of the one at startup. */
    ghost predicate Valid()
      reads this
    {
      FixedPart(current) == startup && (hasHash <==> lastHash.Some?)
    }

    ghost function State(): WatchState<H>
      reads this
    {
      WatchState(lastHash, pending, pendingHash, pendingSince, attemptedHash)
    }

    constructor (current: Configuration, policy: Policy, debounce: int)
      ensures Valid() && this.current == current && startup == FixedPart(current)
      ensures this.policy == if policy == Policy(false, false, false) then DEFAULT_POLICY else policy
      ensures this.debounce == debounce && State() == Start()
    {
      this.current, this.debounce := current, debounce;
      this.policy := if policy == Policy(false, false, false) then DEFAULT_POLICY else policy;
      hasHash, lastHash, pending, pendingHash, pendingSince, attemptedHash := false, None, false, None, 0, None;
      status := ReloadStatus("", "");
      startup := FixedPart(current);
    }

    /**
     Loads the file and applies it.  The outcomes of loading and of applying the backends and the TLS
     paths are given; the configuration in use changes only if all goes well.
     */
    method Reload(reason: string, loaded: Result<Configuration>, backends: Outcome, tls: Outcome) returns (r: Outcome)
      requires Valid()
      modifies this`current, this`status
      ensures Valid()
      ensures r.Pass? <==> loaded.Ok? && ValidateRuntimeChange(policy, Some(old(current)), Some(loaded.value)).Pass?
                           && backends.Pass? && tls.Pass?
      ensures current == if r.Pass? then loaded.value else old(current)
      ensures status.lastTrigger == reason && status.lastError == if r.Pass? then "" else r.message
    {
      hide ValidateRuntimeChange, FixedPart;
      status := status.(lastTrigger := reason);
      if loaded.Err? {
        status := status.(lastError := loaded.message);
        return Fail(loaded.message);
      }
      var next := loaded.value;
      AcceptsIff(policy, current, next);
      var valid := ValidateRuntimeChange(policy, Some(current), Some(next));
      if valid.Fail? {
        status := status.(lastError := valid.message);
        return valid;
      }
      if backends.Fail? {
        status := status.(lastError := backends.message);
        return backends;
      }
      if tls.Fail? {
        status := status.(lastError := tls.message);
        return tls;
      }
      current := next;
      status := status.(lastError := "");
      return Pass;
    }

    /** One tick of the watcher; `read` is the hash of the file, if it could be read. */
    method PollAndMaybeReload(read: Result<H>, now: int, loaded: Result<Configuration>, backends: Outcome, tls: Outcome)
      returns (r: Outcome)
      requires Valid()
      modifies this
      ensures Valid()
      ensures read.Err? ==> r.Fail? && current == old(current) && State() == old(State())
      ensures read.Ok? ==> State() == Polled(old(State()), Poll(now, read.value), debounce)
      ensures read.Ok? && !Attempts(old(State()), Poll(now, read.value), debounce) ==>
        r.Pass? && current == old(current)
      ensures read.Ok? && Attempts(old(State()), Poll(now, read.value), debounce) ==>
        && (r.Pass? <==> loaded.Ok? && ValidateRuntimeChange(policy, Some(old(current)), Some(loaded.value)).Pass?
                         && backends.Pass? && tls.Pass?)
        && current == (if r.Pass? then loaded.value else old(current))
        && status.lastTrigger == "watcher" && status.lastError == (if r.Pass? then "" else r.message)
    {
      if read.Err? {
        return Fail("read config file: " + read.message);
      }
      var h := read.value;
      if !hasHash {
        hasHash := true;
        lastHash := Some(h);
        return Pass;
      }
      if Some(h) != lastHash {
        lastHash := Some(h);
        pending := true;
        pendingHash := Some(h);
        pendingSince := now;
      }
      var ready := pending && now - pendingSince >= debounce;
      var alreadyAttempted := attemptedHash == pendingHash;
      if !ready || alreadyAttempted {
        return Pass;
      }
      var targetHash := pendingHash;
      r := Reload("watcher", loaded, backends, tls);
      attemptedHash := targetHash;
      pending := false;
    }
  }
}
