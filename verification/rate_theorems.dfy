/** What the limiter guarantees over whole runs of calls. */
module RateTheorems {
  import opened RateLimiter
  import opened TokenBucket

  datatype Call = Call(key: string, at: real)

  /** Calls reach the lock in the order of their clock readings, none before t. */
  ghost predicate Ordered(calls: seq<Call>, t: real) {
    && (forall i | 0 <= i < |calls| :: t <= calls[i].at)
    && (forall i, j | 0 <= i < j < |calls| :: calls[i].at <= calls[j].at)
  }

  function Results(c: Config, s: State, calls: seq<Call>): (r: seq<bool>)
    ensures |r| == |calls|
    decreases |calls|
  {
    if calls == [] then []
    else
      var (s', ok) := Allowed(c, s, calls[0].key, calls[0].at);
      [ok] + Results(c, s', calls[1..])
  }

  function After(c: Config, s: State, calls: seq<Call>): State
    decreases |calls|
  {
    if calls == [] then s else After(c, Allowed(c, s, calls[0].key, calls[0].at).0, calls[1..])
  }

  /** The same run on the limiter that never evicts. */
  function SimpleResults(c: Config, bs: Buckets, calls: seq<Call>): (r: seq<bool>)
    ensures |r| == |calls|
    decreases |calls|
  {
    if calls == [] then []
    else
      var (bs', ok) := Spend(c, bs, calls[0].key, calls[0].at);
      [ok] + SimpleResults(c, bs', calls[1..])
  }

  ghost predicate Sane(c: Config) {
    c.refillRate >= 0.0 && c.cleanupInterval >= 0.0 && c.entryTtl >= 0.0
  }

  /** An idle bucket is full again before it may be evicted. */
  ghost predicate FullBeforeEvicted(c: Config) {
    c.entryTtl * c.refillRate >= c.maxTokens as real
  }

  ghost predicate Valid(c: Config, bs: Buckets, t: real) {
    forall k | k in bs ::
      && 0.0 <= bs[k].tokens <= c.maxTokens as real
      && bs[k].lastRefill == bs[k].lastAccess <= t
  }

  // ---------------------------------------------------------------- levels

  lemma LongerRefillsMore(a: real, b: real, rate: real)
    requires a <= b && rate >= 0.0
    ensures a * rate <= b * rate
  {
    assert (b - a) * rate >= 0.0;
  }

  lemma Gain(a: real, b: real, rate: real)
    requires a >= 0.0 && b >= 0.0 && rate >= 0.0
    ensures a * rate >= 0.0 && b * rate >= 0.0 && (a + b) * rate == a * rate + b * rate
  {
  }

  lemma GainOf(elapsed: real, rate: real) returns (gain: real)
    requires elapsed >= 0.0 && rate >= 0.0
    ensures gain == elapsed * rate && gain >= 0.0 && (elapsed == 0.0 ==> gain == 0.0)
  {
    gain := elapsed * rate;
  }

  lemma RefilledLevel(c: Config, b: Bucket, t: real)
    requires Sane(c) && b.lastRefill <= t && 0.0 <= b.tokens <= c.maxTokens as real
    ensures Refilled(c, b, t).tokens == MinReal(c.maxTokens as real, b.tokens + (t - b.lastRefill) * c.refillRate)
    ensures 0.0 <= Refilled(c, b, t).tokens <= c.maxTokens as real
  {
    var gain := GainOf(t - b.lastRefill, c.refillRate);
    assert Refilled(c, b, t).tokens == MinReal(c.maxTokens as real, b.tokens + gain);
  }

  lemma Saturates(max: real, tokens: real, p: real, q: real)
    requires p >= 0.0 && q >= 0.0
    ensures MinReal(max, tokens + (p + q)) == MinReal(max, MinReal(max, tokens + p) + q)
  {
  }

  /** Saturating refill composes over split intervals. */
  lemma LevelLater(c: Config, bs: Buckets, key: string, t: real, t': real)
    requires Sane(c) && Valid(c, bs, t) && t <= t'
    ensures Level(c, bs, key, t') == MinReal(c.maxTokens as real, Level(c, bs, key, t) + (t' - t) * c.refillRate)
    ensures 0.0 <= Level(c, bs, key, t) <= c.maxTokens as real
  {
    Gain(t' - t, 0.0, c.refillRate);
    if key in bs {
      var b := bs[key];
      RefilledLevel(c, b, t);
      RefilledLevel(c, b, t');
      Gain(t - b.lastRefill, t' - t, c.refillRate);
      assert (t - b.lastRefill) + (t' - t) == t' - b.lastRefill;
      Saturates(c.maxTokens as real, b.tokens, (t - b.lastRefill) * c.refillRate, (t' - t) * c.refillRate);
    }
  }

  lemma SpendLevels(c: Config, bs: Buckets, key: string, t: real, now: real)
    requires Sane(c) && Valid(c, bs, t) && t <= now
    ensures var (bs', ok) := Spend(c, bs, key, now);
            && Valid(c, bs', now)
            && ok == (Level(c, bs, key, now) >= 1.0)
            && Level(c, bs', key, now) == Level(c, bs, key, now) - (if ok then 1.0 else 0.0)
            && forall k | k != key :: Level(c, bs', k, now) == Level(c, bs, k, now)
  {
    LevelLater(c, bs, key, t, now);
    LevelLater(c, bs, key, now, now);
  }

  lemma EvictedLevel(c: Config, bs: Buckets, key: string, t: real, now: real)
    requires Sane(c) && FullBeforeEvicted(c) && Valid(c, bs, t) && t <= now
    ensures Level(c, Evicted(c, bs, now), key, now) == Level(c, bs, key, now)
  {
    if key in bs && key !in Evicted(c, bs, now) {
      var b := bs[key];
      assert now - b.lastRefill > c.entryTtl;
      LongerRefillsMore(c.entryTtl, now - b.lastRefill, c.refillRate);
    }
  }

  /** One call: eviction shows in no level, the call succeeds exactly with a whole token, and only
      the caller's level drops, by the token. */
  lemma AllowedLevels(c: Config, s: State, key: string, t: real, now: real)
    requires Sane(c) && FullBeforeEvicted(c) && Valid(c, s.buckets, t) && t <= now
    ensures var (s', ok) := Allowed(c, s, key, now);
            && Valid(c, s'.buckets, now)
            && ok == (Level(c, s.buckets, key, now) >= 1.0)
            && Level(c, s'.buckets, key, now) == Level(c, s.buckets, key, now) - (if ok then 1.0 else 0.0)
            && forall k | k != key :: Level(c, s'.buckets, k, now) == Level(c, s.buckets, k, now)
  {
    var s1 := Cleaned(c, s, now);
    forall k
      ensures Level(c, s1.buckets, k, now) == Level(c, s.buckets, k, now)
    {
      EvictedLevel(c, s.buckets, k, t, now);
    }
    SpendLevels(c, s1.buckets, key, t, now);
  }

  /** Every state a run reaches is valid, whatever the configuration evicts. */
  lemma {:induction false} AfterIsValid(c: Config, s: State, calls: seq<Call>, t: real, now: real)
    requires Sane(c) && Valid(c, s.buckets, t) && Ordered(calls, t) && t <= now
    requires forall i | 0 <= i < |calls| :: calls[i].at <= now
    ensures Valid(c, After(c, s, calls).buckets, now)
    decreases |calls|
  {
    if calls != [] {
      var first := calls[0];
      SpendLevels(c, Cleaned(c, s, first.at).buckets, first.key, t, first.at);
      AfterIsValid(c, Allowed(c, s, first.key, first.at).0, calls[1..], first.at, now);
    }
  }

  // ---------------------------------------------------------------- refinement of the limiter without eviction

  ghost predicate SameLevels(c: Config, a: Buckets, b: Buckets, t: real) {
    forall k :: Level(c, a, k, t) == Level(c, b, k, t)
  }

  lemma SameLevelsLater(c: Config, a: Buckets, b: Buckets, t: real, t': real)
    requires Sane(c) && Valid(c, a, t) && Valid(c, b, t) && t <= t' && SameLevels(c, a, b, t)
    ensures SameLevels(c, a, b, t')
  {
    forall k
      ensures Level(c, a, k, t') == Level(c, b, k, t')
    {
      LevelLater(c, a, k, t, t');
      LevelLater(c, b, k, t, t');
    }
  }

  lemma {:induction false} EvictionInvisible(c: Config, s: State, bs: Buckets, calls: seq<Call>, t: real)
    requires Sane(c) && FullBeforeEvicted(c) && Ordered(calls, t)
    requires Valid(c, s.buckets, t) && Valid(c, bs, t) && SameLevels(c, s.buckets, bs, t)
    ensures Results(c, s, calls) == SimpleResults(c, bs, calls)
    decreases |calls|
  {
    if calls != [] {
      var key, now := calls[0].key, calls[0].at;
      SameLevelsLater(c, s.buckets, bs, t, now);
      AllowedLevels(c, s, key, t, now);
      SpendLevels(c, bs, key, t, now);
      EvictionInvisible(c, Allowed(c, s, key, now).0, Spend(c, bs, key, now).0, calls[1..], now);
    }
  }

  // ---------------------------------------------------------------- one client's view

  function ClockOf(c: Config): Clock {
    (t: real) => t * c.refillRate
  }

  function TimesOf(calls: seq<Call>, key: string): seq<real>
    decreases |calls|
  {
    if calls == [] then []
    else (if calls[0].key == key then [calls[0].at] else []) + TimesOf(calls[1..], key)
  }

  function ResultsOf(calls: seq<Call>, results: seq<bool>, key: string): (r: seq<bool>)
    requires |calls| == |results|
    ensures |r| == |TimesOf(calls, key)|
    decreases |calls|
  {
    if calls == [] then []
    else (if calls[0].key == key then [results[0]] else []) + ResultsOf(calls[1..], results[1..], key)
  }

  lemma {:induction false} TimesAscend(calls: seq<Call>, key: string, t: real)
    requires Ordered(calls, t)
    ensures Ascending(TimesOf(calls, key), t)
    decreases |calls|
  {
    if calls != [] {
      TimesAscend(calls[1..], key, calls[0].at);
    }
  }

  lemma ClockMonotone(c: Config)
    requires Sane(c)
    ensures Monotone(ClockOf(c))
  {
    forall s, t | s <= t
      ensures ClockOf(c)(s) <= ClockOf(c)(t)
    {
      LongerRefillsMore(s, t, c.refillRate);
    }
  }

  lemma LevelByClock(c: Config, bs: Buckets, key: string, t: real, t': real)
    requires Sane(c) && Valid(c, bs, t) && t <= t'
    ensures Level(c, bs, key, t') ==
            Filled(c.maxTokens as real, Level(c, bs, key, t), ClockOf(c)(t') - ClockOf(c)(t))
  {
    LevelLater(c, bs, key, t, t');
    assert (t' - t) * c.refillRate == t' * c.refillRate - t * c.refillRate;
  }

  /** The first call of a run, seen by one client: its bucket is filled up to that time, and the
      caller's bucket pays. */
  lemma FirstCall(c: Config, s: State, calls: seq<Call>, key: string, t: real) returns (s': State, ok: bool)
    requires Sane(c) && FullBeforeEvicted(c) && Valid(c, s.buckets, t) && Ordered(calls, t) && calls != []
    ensures Results(c, s, calls) == [ok] + Results(c, s', calls[1..])
    ensures Valid(c, s'.buckets, calls[0].at) && Ordered(calls[1..], calls[0].at)
    ensures var now := Filled(c.maxTokens as real, Level(c, s.buckets, key, t), ClockOf(c)(calls[0].at) - ClockOf(c)(t));
            if calls[0].key == key
            then ok == (now >= 1.0) && Level(c, s'.buckets, key, calls[0].at) == Spent(now)
            else Level(c, s'.buckets, key, calls[0].at) == now
  {
    var r := Allowed(c, s, calls[0].key, calls[0].at);
    s', ok := r.0, r.1;
    LevelByClock(c, s.buckets, key, t, calls[0].at);
    AllowedLevels(c, s, calls[0].key, t, calls[0].at);
  }

  /** A call of the client itself in front of a run. */
  lemma PrependOwn(max: real, u: Clock, level: real, t: real, calls: seq<Call>, key: string, rest: seq<bool>)
    requires calls != [] && |rest| + 1 == |calls| && calls[0].key == key
    requires var now := Filled(max, level, u(calls[0].at) - u(t));
             ResultsOf(calls[1..], rest, key) == Ask(max, u, Spent(now), calls[0].at, TimesOf(calls[1..], key))
    ensures var now := Filled(max, level, u(calls[0].at) - u(t));
            ResultsOf(calls, [now >= 1.0] + rest, key) == Ask(max, u, level, t, TimesOf(calls, key))
  {
    var now := Filled(max, level, u(calls[0].at) - u(t));
    ResultsCons(calls, key, now >= 1.0, rest);
    AskCons(max, u, level, t, calls[0].at, TimesOf(calls[1..], key));
  }

  /** Another client's call in front of a run. */
  lemma PrependOther(max: real, u: Clock, level: real, t: real, calls: seq<Call>, key: string, ok: bool, rest: seq<bool>)
    requires Monotone(u) && calls != [] && |rest| + 1 == |calls| && Ordered(calls, t) && calls[0].key != key
    requires var now := Filled(max, level, u(calls[0].at) - u(t));
             ResultsOf(calls[1..], rest, key) == Ask(max, u, now, calls[0].at, TimesOf(calls[1..], key))
    ensures ResultsOf(calls, [ok] + rest, key) == Ask(max, u, level, t, TimesOf(calls, key))
  {
    ResultsCons(calls, key, ok, rest);
    TimesAscend(calls[1..], key, calls[0].at);
    AskLater(max, u, level, t, calls[0].at, TimesOf(calls[1..], key));
  }

  lemma ResultsCons(calls: seq<Call>, key: string, ok: bool, rest: seq<bool>)
    requires calls != [] && |rest| + 1 == |calls|
    ensures calls[0].key == key ==>
              && ResultsOf(calls, [ok] + rest, key) == [ok] + ResultsOf(calls[1..], rest, key)
              && TimesOf(calls, key) == [calls[0].at] + TimesOf(calls[1..], key)
    ensures calls[0].key != key ==>
              && ResultsOf(calls, [ok] + rest, key) == ResultsOf(calls[1..], rest, key)
              && TimesOf(calls, key) == TimesOf(calls[1..], key)
  {
    assert ([ok] + rest)[1..] == rest;
  }

  /** Whatever the other clients do and whenever buckets are evicted, a client's results are those of
      its own plain bucket at the times of its own calls. */
  lemma {:induction false} ClientSeesPlainBucket(c: Config, s: State, calls: seq<Call>, key: string, t: real)
    requires Sane(c) && FullBeforeEvicted(c) && Valid(c, s.buckets, t) && Ordered(calls, t)
    ensures ResultsOf(calls, Results(c, s, calls), key) ==
            Ask(c.maxTokens as real, ClockOf(c), Level(c, s.buckets, key, t), t, TimesOf(calls, key))
    decreases |calls|
  {
    if calls != [] {
      var s', ok := FirstCall(c, s, calls, key, t);
      ClientSeesPlainBucket(c, s', calls[1..], key, calls[0].at);
      ClockMonotone(c);
      var rest := Results(c, s', calls[1..]);
      if calls[0].key == key {
        PrependOwn(c.maxTokens as real, ClockOf(c), Level(c, s.buckets, key, t), t, calls, key, rest);
      } else {
        PrependOther(c.maxTokens as real, ClockOf(c), Level(c, s.buckets, key, t), t, calls, key, ok, rest);
      }
    }
  }

  lemma ClockDifference(c: Config, from: real, to: real)
    ensures ClockOf(c)(to) - ClockOf(c)(from) == c.refillRate * (to - from)
  {
  }

  /** In every run, the calls granted to one client in any time window number at most the bucket size
      plus what the window refills, although buckets are evicted and recreated full. */
  lemma RateBound(c: Config, start: real, calls: seq<Call>, key: string, from: real, to: real)
    requires Sane(c) && FullBeforeEvicted(c) && Ordered(calls, start) && from <= to
    ensures Granted(TimesOf(calls, key), ResultsOf(calls, Results(c, State(map[], start), calls), key), from, to) as real
            <= c.maxTokens as real + c.refillRate * (to - from)
  {
    ClientSeesPlainBucket(c, State(map[], start), calls, key, start);
    TimesAscend(calls, key, start);
    ClockMonotone(c);
    WindowBound(c.maxTokens as real, ClockOf(c), c.maxTokens as real, start, TimesOf(calls, key), from, to);
    ClockDifference(c, from, to);
  }

  // ---------------------------------------------------------------- denied calls do not matter

  function Select<T>(s: seq<T>, keep: seq<bool>): seq<T>
    requires |s| == |keep|
    decreases |s|
  {
    if s == [] then [] else (if keep[0] then [s[0]] else []) + Select(s[1..], keep[1..])
  }

  lemma {:induction false} SelectOrdered(calls: seq<Call>, keep: seq<bool>, t: real)
    requires |calls| == |keep| && Ordered(calls, t)
    ensures Ordered(Select(calls, keep), t)
    decreases |calls|
  {
    if calls != [] {
      SelectOrdered(calls[1..], keep[1..], calls[0].at);
    }
  }

  lemma {:induction false} DroppingDeniedKeepsRest(c: Config, s: State, s2: State, calls: seq<Call>, keep: seq<bool>, t: real)
    requires Sane(c) && FullBeforeEvicted(c) && Ordered(calls, t) && |keep| == |calls|
    requires Valid(c, s.buckets, t) && Valid(c, s2.buckets, t) && SameLevels(c, s.buckets, s2.buckets, t)
    requires forall i | 0 <= i < |calls| && !keep[i] :: !Results(c, s, calls)[i]
    ensures Results(c, s2, Select(calls, keep)) == Select(Results(c, s, calls), keep)
    decreases |calls|
  {
    if calls != [] {
      var key, now := calls[0].key, calls[0].at;
      var (s', ok) := Allowed(c, s, key, now);
      SameLevelsLater(c, s.buckets, s2.buckets, t, now);
      AllowedLevels(c, s, key, t, now);
      assert Results(c, s, calls) == [ok] + Results(c, s', calls[1..]);
      forall i | 0 <= i < |calls[1..]| && !keep[1..][i]
        ensures !Results(c, s', calls[1..])[i]
      {
        assert !keep[i + 1] && !Results(c, s, calls)[i + 1];
      }
      if keep[0] {
        AllowedLevels(c, s2, key, t, now);
        DroppingDeniedKeepsRest(c, s', Allowed(c, s2, key, now).0, calls[1..], keep[1..], now);
        assert Select(calls, keep)[1..] == Select(calls[1..], keep[1..]);
      } else {
        DroppingDeniedKeepsRest(c, s', s2, calls[1..], keep[1..], now);
        assert Select(calls, keep) == Select(calls[1..], keep[1..]);
      }
    }
  }

  /** Removing any denied calls from a run leaves the result of every other call unchanged. */
  lemma DeniedCallsDoNotMatter(c: Config, start: real, calls: seq<Call>, keep: seq<bool>)
    requires Sane(c) && FullBeforeEvicted(c) && Ordered(calls, start) && |keep| == |calls|
    requires forall i | 0 <= i < |calls| && !keep[i] :: !Results(c, State(map[], start), calls)[i]
    ensures Results(c, State(map[], start), Select(calls, keep)) ==
            Select(Results(c, State(map[], start), calls), keep)
  {
    DroppingDeniedKeepsRest(c, State(map[], start), State(map[], start), calls, keep, start);
  }
}
