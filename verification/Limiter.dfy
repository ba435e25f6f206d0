/**
 The store of token buckets, one for each API key, with the clean-up that drops idle buckets.
 Settings do not change during a run; each clock reading that the code makes is an argument.
 */
module Limiter {
  import opened T = TokenBucket

  /** Effective settings of a key: refill rate per second, burst capacity, idle time to live in seconds. */
  datatype Settings = Settings(rate: real, burst: int, ttl: real)

  /** The global defaults and the users that have their own limits in the configuration file. */
  datatype Limits = Limits(defaults: Settings, users: map<string, Settings>)

  datatype Answer = Answer(allowed: bool, retryAfter: int)

  /** The positive fields of an override replace those of the defaults. */
  function Overridden(s: Settings, o: Settings): Settings {
    Settings(
      if o.rate > 0.0 then o.rate else s.rate,
      if o.burst > 0 then o.burst else s.burst,
      if o.ttl > 0.0 then o.ttl else s.ttl)
  }

  /** In s, each positive field of an override stands in place of the default. */
  predicate Replaces(defaults: Settings, o: Settings, s: Settings) {
    && (o.rate > 0.0 ==> s.rate == o.rate) && (o.rate <= 0.0 ==> s.rate == defaults.rate)
    && (o.burst > 0 ==> s.burst == o.burst) && (o.burst <= 0 ==> s.burst == defaults.burst)
    && (o.ttl > 0.0 ==> s.ttl == o.ttl) && (o.ttl <= 0.0 ==> s.ttl == defaults.ttl)
  }

  /** The settings that the clean-up uses: it knows only the configuration file. */
  function CleanupSettings(l: Limits, key: string): Settings {
    if key in l.users then Overridden(l.defaults, l.users[key]) else l.defaults
  }

  /** The settings that requests are served with: limits in the user database come first. */
  function ServingSettings(l: Limits, db: map<string, Settings>, key: string): Settings {
    if key in db then Overridden(l.defaults, db[key]) else CleanupSettings(l, key)
  }

  /** The clean-up goes by a positive time to live from the configuration file, else by the default. */
  lemma CleanupTtlIs(l: Limits, key: string)
    ensures key in l.users && l.users[key].ttl > 0.0 ==> CleanupSettings(l, key).ttl == l.users[key].ttl
    ensures key !in l.users || l.users[key].ttl <= 0.0 ==> CleanupSettings(l, key).ttl == l.defaults.ttl
  {
  }

  // ---------------------------------------------------------------------
  // The store as a value
  // ---------------------------------------------------------------------

  type Buckets = map<string, Bucket>

  /** The bucket that serves a key; it is created, full, when there is none. */
  function BucketFor(m: Buckets, key: string, s: Settings, created: real): Bucket {
    if key in m then m[key] else New(s.burst as real, s.rate, created)
  }

  function AnswerOf(b: Bucket, now: real): Answer {
    if Succeeds(b, Call(1, now)) then Answer(true, 0)
    else Answer(false, RetryAfter(TakeFrom(b, Call(1, now))))
  }

  /** The store after a request for a key. */
  function Served(m: Buckets, key: string, s: Settings, created: real, now: real): Buckets {
    m[key := TakeFrom(BucketFor(m, key, s, created), Call(1, now))]
  }

  /** Whether the clean-up drops the bucket of a key. */
  predicate Idle(m: Buckets, key: string, ttl: real, now: real) {
    key in m && now - m[key].last > ttl
  }

  class LocalLimiter {
    const limits: Limits
    const db: map<string, Settings>
    var buckets: map<string, TokenBucket>

    /** The buckets as values. */
    ghost var contents: Buckets

    /** No two keys share a bucket, and the buckets have the values in `contents`. */
    ghost predicate Valid()
      reads this, buckets.Values
    {
      && contents.Keys == buckets.Keys
      && (forall k :: k in buckets ==> buckets[k].Value() == contents[k])
      && forall k, k' :: k in buckets && k' in buckets && k != k' ==> buckets[k] != buckets[k']
    }

    constructor (limits: Limits, db: map<string, Settings>)
      ensures Valid() && contents == map[]
      ensures this.limits == limits && this.db == db
    {
      this.limits, this.db := limits, db;
      buckets, contents := map[], map[];
    }

    /** The user's own limits, from the database if they are there and else from the file, come before the defaults. */
    method ResolveSettings(key: string) returns (s: Settings)
      ensures s == ServingSettings(limits, db, key)
      ensures key in db ==> Replaces(limits.defaults, db[key], s)
      ensures key !in db && key in limits.users ==> Replaces(limits.defaults, limits.users[key], s)
      ensures key !in db && key !in limits.users ==> s == limits.defaults
    {
      var rate, burst, ttl := limits.defaults.rate, limits.defaults.burst, limits.defaults.ttl;
      var found := key in db;
      if found || key in limits.users {
        var o := if found then db[key] else limits.users[key];
        if o.rate > 0.0 {
          rate := o.rate;
        }
        if o.burst > 0 {
          burst := o.burst;
        }
        if o.ttl > 0.0 {
          ttl := o.ttl;
        }
      }
      return Settings(rate, burst, ttl);
    }

    /** The buckets of other keys are the same objects as before, with the same values. */
    twostate predicate OthersKept(key: string)
      reads this, buckets.Values
    {
      && buckets.Keys == old(buckets.Keys) + {key}
      && (key in old(buckets) ==> buckets[key] == old(buckets)[key])
      && forall k :: k in old(buckets) && k != key ==> buckets[k] == old(buckets)[k] && unchanged(buckets[k])
    }

    /** Answers a request with the settings of its key. */
    method Allow(key: string, created: real, now: real) returns (a: Answer)
      requires Valid()
      modifies this, buckets.Values
      ensures Valid() && fresh(buckets.Values - old(buckets.Values))
      ensures OthersKept(key)
      ensures var s := ServingSettings(limits, db, key);
        && contents == Served(old(contents), key, s, created, now)
        && a == AnswerOf(BucketFor(old(contents), key, s, created), now)
    {
      var s := ResolveSettings(key);
      hide Served, AnswerOf, BucketFor;
      a := AllowWith(key, s, created, now);
    }

    /** Answers a request, creating the key's bucket at time `created` when there is none. */
    method AllowWith(key: string, s: Settings, created: real, now: real) returns (a: Answer)
      requires Valid()
      modifies this, buckets.Values
      ensures Valid() && fresh(buckets.Values - old(buckets.Values))
      ensures contents == Served(old(contents), key, s, created, now)
      ensures a == AnswerOf(BucketFor(old(contents), key, s, created), now)
      ensures OthersKept(key)
      ensures buckets[key].lastRefill == now && (a.allowed ==> a.retryAfter == 0)
      ensures !a.allowed && buckets[key].refillRate <= 0.0 ==> a.retryAfter == 0
    {
      hide TakeFrom, AnswerOf, BucketFor, Valid;
      var bucket := GetOrCreateBucket(key, s, created);
      a := TakeOne(key, now);
    }

    /** The request takes its token from the key's bucket. */
    method TakeOne(key: string, now: real) returns (a: Answer)
      requires Valid() && key in buckets
      modifies buckets[key], this`contents
      ensures Valid() && contents == old(contents)[key := TakeFrom(old(contents)[key], Call(1, now))]
      ensures a == AnswerOf(old(contents)[key], now)
      ensures forall k :: k in buckets && k != key ==> unchanged(buckets[k])
      ensures buckets[key].lastRefill == now && (a.allowed ==> a.retryAfter == 0)
      ensures !a.allowed && buckets[key].refillRate <= 0.0 ==> a.retryAfter == 0
    {
      hide TakeFrom, RetryAfter, Succeeds;
      var bucket := buckets[key];
      var ok := bucket.Take(1, now);
      contents := contents[key := TakeFrom(contents[key], Call(1, now))];
      var retry := 0;
      if !ok {
        retry := bucket.RetryAfterSeconds();
      }
      return Answer(ok, retry);
    }

    method GetOrCreateBucket(key: string, s: Settings, created: real) returns (bucket: TokenBucket)
      requires Valid()
      modifies this
      ensures Valid() && fresh(buckets.Values - old(buckets.Values))
      ensures key in buckets && buckets[key] == bucket
      ensures contents == old(contents)[key := BucketFor(old(contents), key, s, created)]
      ensures key in old(buckets) ==> buckets == old(buckets)
      ensures key !in old(buckets) ==> buckets == old(buckets)[key := bucket] && fresh(bucket)
    {
      if key in buckets {
        return buckets[key];
      }
      bucket := new TokenBucket(s.burst as real, s.rate, created);
      assert forall k :: k in buckets ==> buckets[k] in buckets.Values;
      buckets, contents := buckets[key := bucket], contents[key := bucket.Value()];
    }

    lemma KeysAgree()
      requires Valid()
      ensures contents.Keys == buckets.Keys
    {
    }

    method DropIfIdle(key: string, now: real)
      requires Valid() && key in buckets
      modifies this
      ensures Valid() && contents.Keys == buckets.Keys
      ensures var idle := now - old(contents)[key].last > CleanupSettings(limits, key).ttl;
        && contents == (if idle then old(contents) - {key} else old(contents))
        && buckets == (if idle then old(buckets) - {key} else old(buckets))
    {
      hide CleanupSettings;
      var idle := now - buckets[key].lastRefill;
      if idle > CleanupSettings(limits, key).ttl {
        buckets, contents := buckets - {key}, contents - {key};
      }
    }

    /** Drops every bucket that is idle for longer than its time to live; `clock` gives the reading for each key. */
    method Cleanup(clock: string -> real)
      requires Valid()
      modifies this
      ensures Valid() && forall k :: k in buckets ==> k in old(buckets) && buckets[k] == old(buckets)[k]
      ensures contents == map k | k in old(contents)
        && clock(k) - old(contents)[k].last <= CleanupSettings(limits, k).ttl :: old(contents)[k]
    {
      hide Valid, CleanupSettings;
      ghost var was := contents;
      KeysAgree();
      var todo := buckets.Keys;
      while todo != {}
        invariant Valid() && todo <= contents.Keys == buckets.Keys
        invariant forall k :: k in buckets ==> k in old(buckets) && buckets[k] == old(buckets)[k]
        invariant contents == map k | k in was
          && (k in todo || clock(k) - was[k].last <= CleanupSettings(limits, k).ttl) :: was[k]
        decreases todo
      {
        var key :| key in todo;
        todo := todo - {key};
        DropIfIdle(key, clock(key));
      }
    }
  }
}
