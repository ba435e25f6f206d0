/**
 The token bucket of the rate limiter.  Tokens and times are real numbers; every call is given
 the reading of the clock that it makes.
 */
module TokenBucket {

  /** A bucket as a value: capacity, refill rate per second, tokens at the time of the last refill. */
  datatype Bucket = Bucket(capacity: real, rate: real, tokens: real, last: real)

  /** One call of Take: the number of tokens asked for and the time of the call. */
  datatype Call = Call(n: int, now: real)

  function Min(x: real, y: real): real { if x <= y then x else y }

  function Max(x: real, y: real): real { if x >= y then x else y }

  /** The least integer that is not below x. */
  function Ceiling(x: real): (r: int)
    ensures x <= r as real < x + 1.0
  {
    -(-x).Floor
  }

  /** A new bucket; it starts with `capacity` tokens even when that is negative. */
  function New(capacity: real, rate: real, now: real): Bucket {
    Bucket(Max(0.0, capacity), Max(0.0, rate), capacity, now)
  }

  /** The tokens that flow in between two times. */
  function Inflow(rate: real, from: real, to: real): real {
    (to - from) * rate
  }

  lemma InflowIs(rate: real, from: real, to: real, elapsed: real)
    requires elapsed == to - from
    ensures Inflow(rate, from, to) == elapsed * rate
  {
  }

  /** The tokens after a refill at time `now`. */
  function Level(b: Bucket, now: real): real {
    Min(b.capacity, b.tokens + Inflow(b.rate, b.last, now))
  }

  /** Whether the call takes its tokens; a call for no tokens always succeeds. */
  predicate Succeeds(b: Bucket, c: Call) {
    c.n <= 0 || Level(b, c.now) >= c.n as real
  }

  /** The bucket after the call; a call for no tokens does not even refill. */
  function TakeFrom(b: Bucket, c: Call): Bucket {
    if c.n <= 0 then b
    else b.(tokens := Level(b, c.now) - if Succeeds(b, c) then c.n as real else 0.0, last := c.now)
  }

  function RetryAfter(b: Bucket): int {
    if b.rate <= 0.0 then 0
    else if 1.0 - b.tokens <= 0.0 then 0
    else Ceiling((1.0 - b.tokens) / b.rate)
  }

  /** A bucket that New can have made and calls can have changed. */
  ghost predicate Sound(b: Bucket) {
    0.0 <= b.capacity && 0.0 <= b.rate && b.tokens <= b.capacity
  }

  class TokenBucket {
    const capacity: real
    var tokens: real
    const refillRate: real
    var lastRefill: real

    function Value(): Bucket
      reads this
    {
      Bucket(capacity, refillRate, tokens, lastRefill)
    }

    constructor (capacity: real, refillRate: real, now: real)
      ensures Value() == New(capacity, refillRate, now) && Sound(Value())
      ensures tokens == capacity && lastRefill == now
      ensures capacity >= 0.0 ==> this.capacity == capacity
      ensures capacity < 0.0 ==> this.capacity == 0.0
      ensures refillRate >= 0.0 ==> this.refillRate == refillRate
      ensures refillRate < 0.0 ==> this.refillRate == 0.0
    {
      this.capacity := Max(0.0, capacity);
      tokens := capacity;
      this.refillRate := Max(0.0, refillRate);
      lastRefill := now;
    }

    method Take(n: int, now: real) returns (ok: bool)
      modifies this`tokens, this`lastRefill
      ensures ok == Succeeds(old(Value()), Call(n, now))
      ensures Value() == TakeFrom(old(Value()), Call(n, now))
      ensures n <= 0 ==> ok && unchanged(this)
      ensures n > 0 ==> lastRefill == now
    {
      hide Inflow;
      if n <= 0 {
        return true;
      }
      var elapsed := now - lastRefill;
      InflowIs(refillRate, lastRefill, now, elapsed);
      tokens := Min(capacity, tokens + elapsed * refillRate);
      lastRefill := now;
      if tokens >= n as real {
        tokens := tokens - n as real;
        return true;
      }
      return false;
    }

    method RetryAfterSeconds() returns (seconds: int)
      ensures seconds == RetryAfter(Value())
      ensures refillRate <= 0.0 || tokens >= 1.0 ==> seconds == 0
    {
      if refillRate <= 0.0 {
        return 0;
      }
      var needed := 1.0 - tokens;
      if needed <= 0.0 {
        return 0;
      }
      return Ceiling(needed / refillRate);
    }
  }

  // ---------------------------------------------------------------------
  // Runs of calls
  // ---------------------------------------------------------------------

  /** The calls come in the order of their times, none before the last refill of b. */
  ghost predicate InOrder(b: Bucket, cs: seq<Call>) {
    && (forall i :: 0 <= i < |cs| ==> b.last <= cs[i].now)
    && (forall i, j :: 0 <= i < j < |cs| ==> cs[i].now <= cs[j].now)
  }

  /** The bucket after the first k calls. */
  ghost function After(b: Bucket, cs: seq<Call>, k: nat): (r: Bucket)
    requires k <= |cs|
    ensures r.capacity == b.capacity && r.rate == b.rate
  {
    if k == 0 then b else TakeFrom(After(b, cs, k - 1), cs[k - 1])
  }

  /** The tokens that call number k took. */
  ghost function Grant(b: Bucket, cs: seq<Call>, k: nat): (r: real)
    requires k < |cs|
    ensures r >= 0.0
  {
    if cs[k].n > 0 && Succeeds(After(b, cs, k), cs[k]) then cs[k].n as real else 0.0
  }

  /** The tokens that the calls from number i up to but not including k took. */
  ghost function Granted(b: Bucket, cs: seq<Call>, i: nat, k: nat): (r: real)
    requires k <= |cs|
    ensures r >= 0.0
  {
    if k <= i then 0.0 else Granted(b, cs, i, k - 1) + Grant(b, cs, k - 1)
  }

  /** What the limit leaves at time `now` after the first k calls, counting from call i on. */
  ghost function Allowance(b: Bucket, cs: seq<Call>, i: nat, k: nat, now: real): real
    requires i < |cs| && k <= |cs|
  {
    b.capacity + Inflow(b.rate, cs[i].now, now) - Granted(b, cs, i, k)
  }

  /** The same counting from the creation of the bucket. */
  ghost function InitialAllowance(b: Bucket, cs: seq<Call>, k: nat, now: real): real
    requires k <= |cs|
  {
    b.tokens + Inflow(b.rate, b.last, now) - Granted(b, cs, 0, k)
  }

  lemma InflowLaws(rate: real, x: real, y: real, z: real)
    ensures Inflow(rate, x, z) == Inflow(rate, x, y) + Inflow(rate, y, z)
    ensures Inflow(rate, x, x) == 0.0
    ensures rate >= 0.0 && y <= z ==> Inflow(rate, y, z) >= 0.0
  {
  }

  /** A call lowers the level at every later time by what it took, up to the capacity. */
  lemma LevelAfterTake(b: Bucket, c: Call, now: real)
    requires Sound(b) && b.last <= c.now <= now
    ensures var g := if c.n > 0 && Succeeds(b, c) then c.n as real else 0.0;
      Level(TakeFrom(b, c), now) == Min(b.capacity, Level(b, c.now) - g + Inflow(b.rate, c.now, now))
    ensures Sound(TakeFrom(b, c)) && TakeFrom(b, c).last <= c.now
  {
    hide Inflow;
    InflowLaws(b.rate, b.last, c.now, now);
  }

  lemma {:induction false} AfterSound(b: Bucket, cs: seq<Call>, k: nat)
    requires Sound(b) && InOrder(b, cs) && k <= |cs|
    ensures Sound(After(b, cs, k)) && b.last <= After(b, cs, k).last
    ensures k > 0 ==> After(b, cs, k).last <= cs[k - 1].now
    ensures k == 0 ==> After(b, cs, k).last == b.last
  {
    hide Inflow;
    if k == 0 {
    } else {
      AfterSound(b, cs, k - 1);
      LevelAfterTake(After(b, cs, k - 1), cs[k - 1], cs[k - 1].now);
    }
  }

  /** The level never exceeds any allowance and is one of them. */
  ghost predicate LevelIsLeast(b: Bucket, cs: seq<Call>, k: nat, now: real)
    requires k <= |cs|
  {
    var level := Level(After(b, cs, k), now);
    && level <= b.capacity && level <= InitialAllowance(b, cs, k, now)
    && (forall i :: 0 <= i < k ==> level <= Allowance(b, cs, i, k, now))
    && (level == b.capacity || level == InitialAllowance(b, cs, k, now)
        || exists i :: 0 <= i < k && level == Allowance(b, cs, i, k, now))
  }

  lemma {:induction false} LevelLeast(b: Bucket, cs: seq<Call>, k: nat, now: real)
    requires Sound(b) && InOrder(b, cs) && k <= |cs|
    requires b.last <= now && (k > 0 ==> cs[k - 1].now <= now)
    ensures LevelIsLeast(b, cs, k, now)
  {
    hide Inflow, TakeFrom, Succeeds;
    if k == 0 {
      assert After(b, cs, 0) == b && Granted(b, cs, 0, 0) == 0.0;
    } else {
      var c, was := cs[k - 1], After(b, cs, k - 1);
      LevelLeast(b, cs, k - 1, c.now);
      AfterSound(b, cs, k - 1);
      LevelAfterTake(was, c, now);
      var g, more := Grant(b, cs, k - 1), Inflow(b.rate, c.now, now);
      InflowLaws(b.rate, b.last, c.now, now);
      assert InitialAllowance(b, cs, k, now) == InitialAllowance(b, cs, k - 1, c.now) + more - g;
      assert Granted(b, cs, k - 1, k - 1) == 0.0;
      assert Allowance(b, cs, k - 1, k, now) == b.capacity + more - g;
      forall i | 0 <= i < k - 1 ensures Allowance(b, cs, i, k, now) == Allowance(b, cs, i, k - 1, c.now) + more - g {
        InflowLaws(b.rate, cs[i].now, c.now, now);
      }
      var level := Level(was, c.now);
      if level != b.capacity && level != InitialAllowance(b, cs, k - 1, c.now) {
        var i :| 0 <= i < k - 1 && level == Allowance(b, cs, i, k - 1, c.now);
        assert Allowance(b, cs, i, k, now) == level + more - g;
      }
    }
  }

  // ---------------------------------------------------------------------
  // Main results
  // ---------------------------------------------------------------------

  /** Every window that ends now, from creation or any earlier call, has room for n more tokens. */
  ghost predicate Conforms(b: Bucket, cs: seq<Call>, n: int, now: real) {
    && n as real <= b.capacity
    && Granted(b, cs, 0, |cs|) + n as real <= b.tokens + Inflow(b.rate, b.last, now)
    && forall i :: 0 <= i < |cs| ==>
         Granted(b, cs, i, |cs|) + n as real <= b.capacity + Inflow(b.rate, cs[i].now, now)
  }

  /** Exact conformance: after any calls, Take(n) succeeds if and only if every window has room for n. */
  lemma Conformance(b: Bucket, cs: seq<Call>, n: int, now: real)
    requires Sound(b) && InOrder(b, cs + [Call(n, now)]) && n > 0
    ensures Succeeds(After(b, cs, |cs|), Call(n, now)) <==> Conforms(b, cs, n, now)
  {
    hide Inflow;
    var all := cs + [Call(n, now)];
    assert all[|cs|] == Call(n, now);
    assert forall i :: 0 <= i < |cs| ==> all[i] == cs[i];
    LevelLeast(b, cs, |cs|, now);
    var level := Level(After(b, cs, |cs|), now);
    if Succeeds(After(b, cs, |cs|), Call(n, now)) {
      forall i | 0 <= i < |cs|
        ensures Granted(b, cs, i, |cs|) + n as real <= b.capacity + Inflow(b.rate, cs[i].now, now)
      {
        assert level <= Allowance(b, cs, i, |cs|, now);
      }
    }
  }

  /** The grants of any window of calls are at most the capacity plus the rate times its length. */
  lemma {:induction false} WindowBound(b: Bucket, cs: seq<Call>, i: nat, j: nat)
    requires Sound(b) && InOrder(b, cs) && i <= j < |cs|
    ensures Granted(b, cs, i, j + 1) <= b.capacity + Inflow(b.rate, cs[i].now, cs[j].now)
  {
    hide Inflow;
    LevelLeast(b, cs, j, cs[j].now);
    if i < j {
      WindowBound(b, cs, i, j - 1);
      InflowLaws(b.rate, cs[i].now, cs[j - 1].now, cs[j].now);
      assert Level(After(b, cs, j), cs[j].now) <= Allowance(b, cs, i, j, cs[j].now);
    } else {
      assert Granted(b, cs, i, j) == 0.0;
      InflowLaws(b.rate, cs[i].now, cs[i].now, cs[i].now);
    }
  }

  /** Refused calls do not change the level at any later time. */
  lemma {:induction false} RefusalsKeepLevel(b: Bucket, cs: seq<Call>, k: nat, now: real)
    requires Sound(b) && InOrder(b, cs) && k <= |cs|
    requires b.last <= now && (k > 0 ==> cs[k - 1].now <= now)
    requires forall i :: 0 <= i < k ==> Grant(b, cs, i) == 0.0
    ensures Level(After(b, cs, k), now) == Level(b, now)
  {
    hide Inflow;
    if k == 0 {
    } else {
      var c, was := cs[k - 1], After(b, cs, k - 1);
      RefusalsKeepLevel(b, cs, k - 1, c.now);
      AfterSound(b, cs, k - 1);
      LevelAfterTake(was, c, now);
      InflowLaws(b.rate, b.last, c.now, now);
      assert Grant(b, cs, k - 1) == 0.0;
    }
  }

  lemma Between(low: real, q: real, high: real, rate: real, x: real)
    requires rate > 0.0 && low < q <= high && q * rate == x
    ensures low * rate < x <= high * rate
  {
    assert (q - low) * rate > 0.0;
    assert (q - low) * rate == q * rate - low * rate;
    assert (high - q) * rate >= 0.0;
    assert (high - q) * rate == high * rate - q * rate;
  }

  lemma Quotient(x: real, y: real) returns (q: real)
    requires x > 0.0 && y > 0.0
    ensures q == x / y && q * y == x && q > 0.0
  {
    q := x / y;
  }

  /** For every refilling bucket without a token: the wait covers what is missing, and a second less does not. */
  lemma RetryAfterCovers(b: Bucket)
    requires b.rate > 0.0 && b.tokens < 1.0
    ensures (RetryAfter(b) - 1) as real * b.rate < 1.0 - b.tokens <= RetryAfter(b) as real * b.rate
    ensures RetryAfter(b) >= 1
  {
    var need, k := 1.0 - b.tokens, RetryAfter(b);
    var q := Quotient(need, b.rate);
    assert k == Ceiling(q);
    hide RetryAfter, Ceiling;
    Between((k - 1) as real, q, k as real, b.rate, need);
  }

  lemma TokenAfter(b: Bucket, seconds: real, inflow: real)
    requires b.capacity >= 1.0 && inflow == seconds * b.rate
    ensures Level(b, b.last + seconds) >= 1.0 <==> inflow >= 1.0 - b.tokens
  {
    hide Inflow;
    InflowIs(b.rate, b.last, b.last + seconds, seconds);
  }

  /** RetryAfter is the first whole number of seconds after which the bucket holds a token. */
  lemma RetryAfterIsFirst(b: Bucket)
    requires Sound(b) && b.rate > 0.0 && b.capacity >= 1.0 && b.tokens < 1.0
    ensures RetryAfter(b) >= 1
    ensures Level(b, b.last + RetryAfter(b) as real) >= 1.0
    ensures Level(b, b.last + (RetryAfter(b) - 1) as real) < 1.0
  {
    RetryAfterCovers(b);
    hide RetryAfter, Level;
    var k := RetryAfter(b);
    TokenAfter(b, k as real, k as real * b.rate);
    TokenAfter(b, (k - 1) as real, (k - 1) as real * b.rate);
  }

  /**
   Retry-After is exact.  Right after a refused Take(1) of a refilling bucket that can hold a token,
   a Take(1) after RetryAfter seconds succeeds and one a second earlier is refused, no matter how
   many calls are refused in between.
   */
  lemma RetryAfterIsExact(b: Bucket, cs: seq<Call>)
    requires Sound(b) && b.rate > 0.0 && b.capacity >= 1.0 && b.tokens < 1.0
    requires InOrder(b, cs) && forall i :: 0 <= i < |cs| ==> Grant(b, cs, i) == 0.0
    ensures RetryAfter(b) >= 1
    ensures (|cs| > 0 ==> cs[|cs| - 1].now <= b.last + RetryAfter(b) as real) ==>
      Succeeds(After(b, cs, |cs|), Call(1, b.last + RetryAfter(b) as real))
    ensures (|cs| > 0 ==> cs[|cs| - 1].now <= b.last + (RetryAfter(b) - 1) as real) ==>
      !Succeeds(After(b, cs, |cs|), Call(1, b.last + (RetryAfter(b) - 1) as real))
  {
    RetryAfterIsFirst(b);
    hide RetryAfter, Inflow;
    var k := RetryAfter(b);
    if |cs| > 0 ==> cs[|cs| - 1].now <= b.last + k as real {
      RefusalsKeepLevel(b, cs, |cs|, b.last + k as real);
    }
    if |cs| > 0 ==> cs[|cs| - 1].now <= b.last + (k - 1) as real {
      RefusalsKeepLevel(b, cs, |cs|, b.last + (k - 1) as real);
    }
  }
}
