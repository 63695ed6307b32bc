/** The two read-only predictors: exactly when they are exact. */
module RatePredictions {
  import opened Common
  import opened RateLimiter
  import opened TokenBucket
  import opened RateTheorems
  import opened RateEviction

  // ---------------------------------------------------------------- remaining

  /** The next call at this instant evicts the client's bucket although it is not full. */
  ghost predicate AboutToBeReset(c: Config, s: State, key: string, now: real) {
    && now - s.lastCleanup >= c.cleanupInterval
    && key in s.buckets
    && now - s.buckets[key].lastAccess > c.entryTtl
    && Level(c, s.buckets, key, now) < c.maxTokens as real
  }

  lemma LevelInRange(c: Config, bs: Buckets, key: string, now: real)
    requires Sane(c) && Valid(c, bs, now)
    ensures 0.0 <= Level(c, bs, key, now) <= c.maxTokens as real
    ensures key !in bs ==> Level(c, bs, key, now) == c.maxTokens as real
  {
    LevelLater(c, bs, key, now, now);
  }

  lemma CleanedLevel(c: Config, s: State, key: string, now: real)
    requires Sane(c) && Valid(c, s.buckets, now)
    ensures Valid(c, Cleaned(c, s, now).buckets, now)
    ensures Level(c, Cleaned(c, s, now).buckets, key, now) ==
            if AboutToBeReset(c, s, key, now) then c.maxTokens as real else Level(c, s.buckets, key, now)
  {
    LevelInRange(c, s.buckets, key, now);
  }

  /** A bucket used at this very instant is not evicted by the next call. */
  lemma JustUsedStays(c: Config, s: State, key: string, now: real)
    requires Sane(c) && Valid(c, s.buckets, now)
    ensures var s' := Allowed(c, s, key, now).0;
            Valid(c, s'.buckets, now) && !AboutToBeReset(c, s', key, now)
  {
    CleanedLevel(c, s, key, now);
    SpendLevels(c, Cleaned(c, s, now).buckets, key, now, now);
  }

  /** The i-th of some immediate calls succeeds exactly if the level that the first one finds reaches i + 1. */
  lemma {:induction false} ImmediateCalls(c: Config, s: State, key: string, now: real, n: nat, level: real)
    requires Sane(c) && Valid(c, s.buckets, now)
    requires level == Level(c, Cleaned(c, s, now).buckets, key, now)
    ensures forall i | 0 <= i < n :: Results(c, s, Calls(key, now, n))[i] <==> level >= (i + 1) as real
    decreases n
  {
    if n > 0 {
      var (s', ok) := Allowed(c, s, key, now);
      CleanedLevel(c, s, key, now);
      SpendLevels(c, Cleaned(c, s, now).buckets, key, now, now);
      JustUsedStays(c, s, key, now);
      CleanedLevel(c, s', key, now);
      assert Calls(key, now, n)[1..] == Calls(key, now, n - 1);
      ImmediateCalls(c, s', key, now, n - 1, Spent(level));
      var rest := Results(c, s', Calls(key, now, n - 1));
      assert Results(c, s, Calls(key, now, n)) == [ok] + rest;
      forall i | 0 <= i < n
        ensures ([ok] + rest)[i] <==> level >= (i + 1) as real
      {
        if i > 0 {
          assert rest[i - 1] <==> Spent(level) >= i as real;
        }
      }
    }
  }

  /** `remaining` counts the immediate calls that succeed before the first denial. */
  ghost predicate RemainingExact(c: Config, s: State, key: string, now: real) {
    var left := Max(0, Level(c, s.buckets, key, now).Floor);
    forall n: nat, i | 0 <= i < n :: Results(c, s, Calls(key, now, n))[i] <==> i < left
  }

  /** It does so in exactly those states in which the next call does not evict the client's bucket before
      it is full again. */
  lemma RemainingIsExactIff(c: Config, s: State, key: string, now: real)
    requires Sane(c) && Valid(c, s.buckets, now)
    ensures RemainingExact(c, s, key, now) <==> !AboutToBeReset(c, s, key, now)
  {
    var level := Level(c, s.buckets, key, now);
    var left := Max(0, level.Floor);
    LevelInRange(c, s.buckets, key, now);
    CleanedLevel(c, s, key, now);
    if AboutToBeReset(c, s, key, now) {
      ImmediateCalls(c, s, key, now, left + 1, c.maxTokens as real);
      assert left + 1 <= c.maxTokens;
      assert Results(c, s, Calls(key, now, left + 1))[left];
    } else {
      forall n: nat, i | 0 <= i < n
        ensures Results(c, s, Calls(key, now, n))[i] <==> i < left
      {
        ImmediateCalls(c, s, key, now, n, level);
        assert level >= (i + 1) as real <==> i < level.Floor;
      }
    }
  }

  /** With a configuration whose buckets are full before they may be evicted that is every state. */
  lemma FullBucketsAreNotReset(c: Config, s: State, key: string, now: real)
    requires Sane(c) && FullBeforeEvicted(c) && Valid(c, s.buckets, now)
    ensures !AboutToBeReset(c, s, key, now) && RemainingExact(c, s, key, now)
  {
    EvictedLevel(c, s.buckets, key, now, now);
    RemainingIsExactIff(c, s, key, now);
  }

  // ---------------------------------------------------------------- retry_after

  lemma CeilMeaning(x: real, d: int)
    ensures Ceil(x) <= d <==> x <= d as real
  {
  }

  /** The predicted wait is the least whole number of seconds that refills a whole token. */
  lemma WaitIsLeast(c: Config, level: real, known: bool, d: nat, gain: real) returns (wait: nat)
    requires c.refillRate > 0.0 && c.maxTokens >= 1 && 0.0 <= level <= c.maxTokens as real
    requires !known ==> level == c.maxTokens as real
    requires gain == (d as real) * c.refillRate
    ensures WaitFor(c, level, known) == Seconds(wait)
    ensures wait <= d <==> MinReal(c.maxTokens as real, level + gain) >= 1.0
  {
    wait := WaitFor(c, level, known).n;
    if known && level < 1.0 {
      QuotientMeaning(1.0 - level, c.refillRate, 0.0);
      QuotientMeaning(1.0 - level, c.refillRate, d as real);
      CeilMeaning((1.0 - level) / c.refillRate, d);
      CeilMeaning((1.0 - level) / c.refillRate, 0);
    } else {
      Gain(d as real, 0.0, c.refillRate);
    }
  }

  /** Other clients' calls leave a bucket alone or evict it, and that only when it has been idle long enough. */
  ghost predicate KeptOrEvicted(c: Config, bs: Buckets, bs': Buckets, key: string, now: real) {
    && (key in bs' ==> key in bs && bs'[key] == bs[key])
    && (key in bs && key !in bs' ==> now - bs[key].lastAccess > c.entryTtl)
  }

  lemma {:induction false} OthersKeepOrEvict(c: Config, s: State, calls: seq<Call>, key: string, t: real, now: real)
    requires Sane(c) && Ordered(calls, t) && t <= now
    requires forall i | 0 <= i < |calls| :: calls[i].key != key && calls[i].at <= now
    ensures KeptOrEvicted(c, s.buckets, After(c, s, calls).buckets, key, now)
    decreases |calls|
  {
    if calls != [] {
      OthersKeepOrEvict(c, Allowed(c, s, calls[0].key, calls[0].at).0, calls[1..], key, calls[0].at, now);
    }
  }

  lemma LastIsAllowed(c: Config, s: State, others: seq<Call>, last: Call)
    ensures Results(c, s, others + [last])[|others|] == Allowed(c, After(c, s, others), last.key, last.at).1
  {
    var s1 := After(c, s, others);
    ResultsAppend(c, s, others, [last]);
    assert [last][1..] == [];
    assert Results(c, s1, [last]) == [Allowed(c, s1, last.key, last.at).1];
  }

  /** If a bucket that may be evicted has a token, then a client's next call, after any calls of others,
      succeeds exactly if its present bucket has a token by then. */
  lemma NextOwnCall(c: Config, s: State, others: seq<Call>, last: Call, now: real) returns (granted: bool)
    requires Sane(c) && c.maxTokens >= 1 && c.entryTtl * c.refillRate >= 1.0
    requires Valid(c, s.buckets, now) && Ordered(others + [last], now)
    requires forall i | 0 <= i < |others| :: others[i].key != last.key
    ensures granted == Results(c, s, others + [last])[|others|]
    ensures granted <==> Level(c, s.buckets, last.key, last.at) >= 1.0
  {
    var calls, s1 := others + [last], After(c, s, others);
    assert forall i | 0 <= i < |others| :: others[i] == calls[i] && others[i].at <= calls[|others|].at;
    assert calls[|others|] == last;
    granted := Allowed(c, s1, last.key, last.at).1;
    LastIsAllowed(c, s, others, last);
    OthersKeepOrEvict(c, s, others, last.key, now, last.at);
    EvictedHadToken(c, s.buckets, Cleaned(c, s1, last.at).buckets, last.key, now, last.at);
  }

  lemma GainsToken(ttl: real, elapsed: real, rate: real) returns (gain: real)
    requires ttl <= elapsed && rate >= 0.0 && ttl * rate >= 1.0
    ensures gain == elapsed * rate && gain >= 1.0
  {
    gain := elapsed * rate;
    LongerRefillsMore(ttl, elapsed, rate);
  }

  lemma EvictedHadToken(c: Config, bs: Buckets, bs': Buckets, key: string, t: real, now: real)
    requires Sane(c) && c.maxTokens >= 1 && c.entryTtl * c.refillRate >= 1.0
    requires Valid(c, bs, t) && t <= now && KeptOrEvicted(c, bs, bs', key, now)
    ensures Level(c, bs', key, now) >= 1.0 <==> Level(c, bs, key, now) >= 1.0
  {
    if key in bs && key !in bs' {
      var b := bs[key];
      RefilledLevel(c, b, now);
      var gain := GainsToken(c.entryTtl, now - b.lastRefill, c.refillRate);
      assert Level(c, bs, key, now) == MinReal(c.maxTokens as real, b.tokens + gain);
    }
  }

  /** Is the prediction for this client exact: does a call d whole seconds later succeed if and only if
      d is at least the predicted wait, given that only others call in between? */
  ghost predicate ExactFor(c: Config, s: State, now: real, others: seq<Call>, last: Call, d: nat)
    requires c.refillRate >= 0.0
  {
    && Ordered(others + [last], now) && last.at == now + d as real
    && (forall i | 0 <= i < |others| :: others[i].key != last.key) ==>
      var wait := WaitFor(c, Level(c, s.buckets, last.key, now), last.key in s.buckets);
      wait.Seconds? && (Results(c, s, others + [last])[|others|] <==> wait.n <= d)
  }

  lemma WaitReachesToken(c: Config, bs: Buckets, key: string, now: real, at: real, d: nat) returns (wait: nat)
    requires Sane(c) && c.maxTokens >= 1 && c.refillRate > 0.0 && Valid(c, bs, now) && at == now + d as real
    ensures WaitFor(c, Level(c, bs, key, now), key in bs) == Seconds(wait)
    ensures wait <= d <==> Level(c, bs, key, at) >= 1.0
  {
    assert at - now == d as real;
    LevelLater(c, bs, key, now, at);
    LevelInRange(c, bs, key, now);
    wait := WaitIsLeast(c, Level(c, bs, key, now), key in bs, d, (d as real) * c.refillRate);
  }

  lemma RetryAfterIsExact(c: Config, s: State, now: real, others: seq<Call>, last: Call, d: nat) returns (wait: nat)
    requires Sane(c) && c.maxTokens >= 1 && c.refillRate > 0.0 && c.entryTtl * c.refillRate >= 1.0
    requires Valid(c, s.buckets, now) && Ordered(others + [last], now) && last.at == now + d as real
    requires forall i | 0 <= i < |others| :: others[i].key != last.key
    ensures WaitFor(c, Level(c, s.buckets, last.key, now), last.key in s.buckets) == Seconds(wait)
    ensures Results(c, s, others + [last])[|others|] <==> wait <= d
  {
    var granted := NextOwnCall(c, s, others, last, now);
    wait := WaitReachesToken(c, s.buckets, last.key, now, last.at, d);
  }

  /** A run that started at one instant and has come to another. */
  ghost predicate Until(start: real, calls: seq<Call>, now: real) {
    Ordered(calls, start) && start <= now && forall i | 0 <= i < |calls| :: calls[i].at <= now
  }

  /** A drained bucket, evicted before it holds a token again: the client is told to wait, but an
      immediate call would succeed. */
  lemma WaitTooLong(c: Config, key: string, idle: real) returns (calls: seq<Call>, last: Call)
    requires Sane(c) && c.maxTokens >= 1 && c.refillRate > 0.0 && idle > c.entryTtl && idle * c.refillRate < 1.0
    ensures Until(0.0, calls, last.at)
    ensures !ExactFor(c, After(c, State(map[], 0.0), calls), last.at, [], last, 0)
  {
    var drained := DrainAt(c, idle);
    calls, last := Calls(key, drained, c.maxTokens), Call(key, drained + idle);
    var s := After(c, State(map[], 0.0), calls);
    DrainReal(c, key, idle);
    assert last.at - drained == idle;
    Gain(idle, 0.0, c.refillRate);
    assert Level(c, s.buckets, key, last.at) == idle * c.refillRate;
    var wait := WaitIsLeast(c, idle * c.refillRate, true, 0, 0.0);
    assert Evicted(c, s.buckets, last.at) == map[];
    LastIsAllowed(c, s, [], last);
    assert [] + [last] == [last];
  }

  /** The prediction is exact for every client in every reachable state, whatever others do, if and only
      if a bucket has refilled a whole token before it may be evicted. */
  lemma RetryAfterIsExactIff(c: Config)
    requires Sane(c) && c.maxTokens >= 1 && c.refillRate > 0.0
    ensures c.entryTtl * c.refillRate >= 1.0 <==>
            forall start: real, calls, now: real, others, last, d | Until(start, calls, now) ::
              ExactFor(c, After(c, State(map[], start), calls), now, others, last, d)
  {
    if c.entryTtl * c.refillRate >= 1.0 {
      forall start: real, calls, now: real, others, last, d | Until(start, calls, now)
        ensures ExactFor(c, After(c, State(map[], start), calls), now, others, last, d)
      {
        ExactEverywhere(c, start, calls, now, others, last, d);
      }
    } else {
      var idle := IdleTooShort(c, 1);
      var calls, last := WaitTooLong(c, "client", idle);
    }
  }

  lemma ExactEverywhere(c: Config, start: real, calls: seq<Call>, now: real, others: seq<Call>, last: Call, d: nat)
    requires Sane(c) && c.maxTokens >= 1 && c.refillRate > 0.0 && c.entryTtl * c.refillRate >= 1.0
    requires Until(start, calls, now)
    ensures ExactFor(c, After(c, State(map[], start), calls), now, others, last, d)
  {
    AfterIsValid(c, State(map[], start), calls, start, now);
    if Ordered(others + [last], now) && last.at == now + d as real
       && forall i | 0 <= i < |others| :: others[i].key != last.key {
      var wait := RetryAfterIsExact(c, After(c, State(map[], start), calls), now, others, last, d);
    }
  }
}
