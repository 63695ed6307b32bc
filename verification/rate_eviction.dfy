/** Eviction of idle buckets is invisible exactly when a bucket is full again before it may be evicted. */
module RateEviction {
  import opened RateLimiter
  import opened TokenBucket
  import opened RateTheorems

  function Calls(key: string, t: real, n: nat): seq<Call> {
    seq(n, _ => Call(key, t))
  }

  lemma ProductMeaning(q: real, d: real, rate: real, a: real)
    requires rate > 0.0 && a == q * rate
    ensures q <= d <==> a <= d * rate
  {
    var gap := q - d;
    assert a == gap * rate + d * rate;
    if gap > 0.0 {
      assert gap * rate > 0.0;
    } else {
      assert gap * rate <= 0.0;
    }
  }

  lemma QuotientMeaning(a: real, rate: real, d: real)
    requires rate > 0.0
    ensures a / rate <= d <==> a <= d * rate
  {
    assert a / rate * rate == a;
    ProductMeaning(a / rate, d, rate, a);
  }

  lemma {:induction false} ResultsAppend(c: Config, s: State, a: seq<Call>, b: seq<Call>)
    ensures Results(c, s, a + b) == Results(c, s, a) + Results(c, After(c, s, a), b)
    decreases |a|
  {
    if a == [] {
      assert a + b == b;
    } else {
      assert (a + b)[1..] == a[1..] + b;
      ResultsAppend(c, Allowed(c, s, a[0].key, a[0].at).0, a[1..], b);
    }
  }

  function SimpleAfter(c: Config, bs: Buckets, calls: seq<Call>): Buckets
    decreases |calls|
  {
    if calls == [] then bs else SimpleAfter(c, Spend(c, bs, calls[0].key, calls[0].at).0, calls[1..])
  }

  lemma {:induction false} SimpleAppend(c: Config, bs: Buckets, a: seq<Call>, b: seq<Call>)
    ensures SimpleResults(c, bs, a + b) == SimpleResults(c, bs, a) + SimpleResults(c, SimpleAfter(c, bs, a), b)
    decreases |a|
  {
    if a == [] {
      assert a + b == b;
    } else {
      assert (a + b)[1..] == a[1..] + b;
      SimpleAppend(c, Spend(c, bs, a[0].key, a[0].at).0, a[1..], b);
    }
  }

  /** At time t the client finds `level` tokens, in a bucket of its own or none. */
  ghost predicate Finds(c: Config, bs: Buckets, key: string, t: real, level: real) {
    && Level(c, bs, key, t) == level
    && (key in bs ==> bs[key].lastRefill <= t)
  }

  lemma SpendFinds(c: Config, bs: Buckets, key: string, t: real, level: real)
    requires Sane(c) && Finds(c, bs, key, t, level)
    ensures var (bs', ok) := Spend(c, bs, key, t);
            && ok == (level >= 1.0)
            && Finds(c, bs', key, t, Spent(level))
            && bs' == bs[key := Bucket(Spent(level), t, t)]
  {
  }

  /** A burst at one instant on the limiter that never evicts. */
  lemma {:induction false} SimpleBurst(c: Config, bs: Buckets, key: string, t: real, level: nat, n: nat)
    requires Sane(c) && Finds(c, bs, key, t, level as real) && 0 < n <= level
    ensures SimpleAfter(c, bs, Calls(key, t, n)) == bs[key := Bucket((level - n) as real, t, t)]
    decreases n
  {
    SpendFinds(c, bs, key, t, level as real);
    var bs' := Spend(c, bs, key, t).0;
    assert Calls(key, t, n)[1..] == Calls(key, t, n - 1);
    if n > 1 {
      SimpleBurst(c, bs', key, t, level - 1, n - 1);
    } else {
      assert Calls(key, t, 0) == [];
    }
  }

  lemma {:induction false} SimpleLastOfBurst(c: Config, bs: Buckets, key: string, t: real, level: real, n: nat)
    requires Sane(c) && Finds(c, bs, key, t, level) && n > 0
    ensures SimpleResults(c, bs, Calls(key, t, n))[n - 1] <==> level >= n as real
    decreases n
  {
    SpendFinds(c, bs, key, t, level);
    var bs' := Spend(c, bs, key, t).0;
    assert Calls(key, t, n)[1..] == Calls(key, t, n - 1);
    if n > 1 {
      SimpleLastOfBurst(c, bs', key, t, Spent(level), n - 1);
    }
  }

  predicate AllTrue(results: seq<bool>) {
    forall i | 0 <= i < |results| :: results[i]
  }

  /** A burst at one instant on the real limiter: a bucket just used is never evicted. */
  lemma {:induction false} RealBurst(c: Config, s: State, key: string, t: real, level: nat, n: nat)
    requires Sane(c) && s.buckets == map[key := Bucket(level as real, t, t)] && n <= level
    requires t - s.lastCleanup < c.cleanupInterval || s.lastCleanup == t
    ensures After(c, s, Calls(key, t, n)) == State(map[key := Bucket((level - n) as real, t, t)], s.lastCleanup)
    ensures AllTrue(Results(c, s, Calls(key, t, n)))
    decreases n
  {
    if n > 0 {
      var (s', ok) := Allowed(c, s, key, t);
      assert Cleaned(c, s, t) == s by {
        assert Evicted(c, s.buckets, t) == s.buckets;
      }
      assert s'.buckets == map[key := Bucket((level - 1) as real, t, t)];
      assert Calls(key, t, n)[1..] == Calls(key, t, n - 1);
      RealBurst(c, s', key, t, level - 1, n - 1);
      assert Results(c, s, Calls(key, t, n)) == [ok] + Results(c, s', Calls(key, t, n - 1));
    } else {
      assert Calls(key, t, 0) == [];
    }
  }

  /** How long a counterexample lets the client idle: past the eviction age, but too short to refill so
      many tokens. */
  lemma IdleTooShort(c: Config, tokens: nat) returns (idle: real)
    requires Sane(c) && tokens >= 1 && c.entryTtl * c.refillRate < tokens as real
    ensures idle > c.entryTtl && idle * c.refillRate < tokens as real
  {
    if c.refillRate == 0.0 {
      idle := c.entryTtl + 1.0;
    } else {
      var full := tokens as real / c.refillRate;
      idle := (c.entryTtl + full) / 2.0;
      assert full * c.refillRate == tokens as real;
      QuotientMeaning(tokens as real, c.refillRate, c.entryTtl);
      assert full > c.entryTtl;
      assert (full - idle) * c.refillRate > 0.0;
    }
  }

  /** When the client drains its bucket: just so that the next eviction is due after the idle time. */
  function DrainAt(c: Config, idle: real): real {
    if idle >= c.cleanupInterval then 0.0 else c.cleanupInterval - idle
  }

  /** Drain the bucket, stay idle, and ask for a full bucket again. */
  function TwoBursts(c: Config, key: string, idle: real): seq<Call> {
    Calls(key, DrainAt(c, idle), c.maxTokens) + Calls(key, DrainAt(c, idle) + idle, c.maxTokens)
  }

  lemma DrainReal(c: Config, key: string, idle: real)
    requires Sane(c) && c.maxTokens >= 1 && idle > c.entryTtl
    ensures var s := After(c, State(map[], 0.0), Calls(key, DrainAt(c, idle), c.maxTokens));
            s.buckets == map[key := Bucket(0.0, DrainAt(c, idle), DrainAt(c, idle))] && s.lastCleanup == 0.0
    ensures AllTrue(Results(c, State(map[], 0.0), Calls(key, DrainAt(c, idle), c.maxTokens)))
  {
    var t, n := DrainAt(c, idle), c.maxTokens;
    var s0 := State(map[], 0.0);
    var (s1, ok) := Allowed(c, s0, key, t);
    assert Evicted(c, map[], t) == map[];
    assert s1 == State(map[key := Bucket((n - 1) as real, t, t)], 0.0);
    assert Calls(key, t, n)[1..] == Calls(key, t, n - 1);
    RealBurst(c, s1, key, t, n - 1, n - 1);
    assert Results(c, s0, Calls(key, t, n)) == [ok] + Results(c, s1, Calls(key, t, n - 1));
  }

  lemma RefilledByEviction(c: Config, s: State, key: string, idle: real)
    requires Sane(c) && c.maxTokens >= 1 && idle > c.entryTtl
    requires s == State(map[key := Bucket(0.0, DrainAt(c, idle), DrainAt(c, idle))], 0.0)
    ensures AllTrue(Results(c, s, Calls(key, DrainAt(c, idle) + idle, c.maxTokens)))
  {
    var t, n := DrainAt(c, idle) + idle, c.maxTokens;
    assert Evicted(c, s.buckets, t) == map[];
    var (s1, ok) := Allowed(c, s, key, t);
    assert s1 == State(map[key := Bucket((n - 1) as real, t, t)], t);
    assert Calls(key, t, n)[1..] == Calls(key, t, n - 1);
    RealBurst(c, s1, key, t, n - 1, n - 1);
    assert Results(c, s, Calls(key, t, n)) == [ok] + Results(c, s1, Calls(key, t, n - 1));
  }

  lemma NotRefilledWithoutEviction(c: Config, key: string, idle: real)
    requires Sane(c) && c.maxTokens >= 1 && idle > c.entryTtl && idle * c.refillRate < c.maxTokens as real
    ensures var bs := SimpleAfter(c, map[], Calls(key, DrainAt(c, idle), c.maxTokens));
            !SimpleResults(c, bs, Calls(key, DrainAt(c, idle) + idle, c.maxTokens))[c.maxTokens - 1]
  {
    var s, n := DrainAt(c, idle), c.maxTokens;
    SimpleBurst(c, map[], key, s, n, n);
    var bs := SimpleAfter(c, map[], Calls(key, s, n));
    var t := s + idle;
    assert t - s == idle;
    Gain(idle, 0.0, c.refillRate);
    assert Level(c, bs, key, t) == idle * c.refillRate;
    SimpleLastOfBurst(c, bs, key, t, idle * c.refillRate, n);
  }

  lemma BurstsOrdered(c: Config, key: string, idle: real)
    requires Sane(c) && idle >= 0.0
    ensures Ordered(TwoBursts(c, key, idle), 0.0)
  {
  }

  /** Both bursts are granted in full. */
  lemma TwoBurstsGranted(c: Config, key: string, idle: real)
    requires Sane(c) && c.maxTokens >= 1 && idle > c.entryTtl
    ensures |TwoBursts(c, key, idle)| == 2 * c.maxTokens && Ordered(TwoBursts(c, key, idle), 0.0)
    ensures AllTrue(Results(c, State(map[], 0.0), TwoBursts(c, key, idle)))
  {
    var a, b := Calls(key, DrainAt(c, idle), c.maxTokens), Calls(key, DrainAt(c, idle) + idle, c.maxTokens);
    var s := After(c, State(map[], 0.0), a);
    BurstsOrdered(c, key, idle);
    DrainReal(c, key, idle);
    RefilledByEviction(c, s, key, idle);
    ResultsAppend(c, State(map[], 0.0), a, b);
  }

  lemma EvictionShows(c: Config, key: string) returns (calls: seq<Call>)
    requires Sane(c) && c.maxTokens >= 1 && !FullBeforeEvicted(c)
    ensures Ordered(calls, 0.0) && Results(c, State(map[], 0.0), calls) != SimpleResults(c, map[], calls)
  {
    var idle := IdleTooShort(c, c.maxTokens);
    var a, b := Calls(key, DrainAt(c, idle), c.maxTokens), Calls(key, DrainAt(c, idle) + idle, c.maxTokens);
    calls := a + b;
    TwoBurstsGranted(c, key, idle);
    NotRefilledWithoutEviction(c, key, idle);
    SimpleAppend(c, map[], a, b);
    assert !SimpleResults(c, map[], calls)[2 * c.maxTokens - 1];
  }

  /** Eviction never changes any result, in any run, if and only if an idle bucket is full again before
      it may be evicted. */
  lemma EvictionInvisibleIff(c: Config)
    requires Sane(c) && c.maxTokens >= 1
    ensures FullBeforeEvicted(c) <==>
            forall start: real, calls | Ordered(calls, start) ::
              Results(c, State(map[], start), calls) == SimpleResults(c, map[], calls)
  {
    if FullBeforeEvicted(c) {
      forall start: real, calls | Ordered(calls, start)
        ensures Results(c, State(map[], start), calls) == SimpleResults(c, map[], calls)
      {
        EvictionInvisible(c, State(map[], start), map[], calls, start);
      }
    } else {
      var calls := EvictionShows(c, "client");
    }
  }

  // ---------------------------------------------------------------- exactly when the rate bound holds

  lemma {:induction false} AllGranted(calls: seq<Call>, results: seq<bool>, key: string, from: real, to: real)
    requires |calls| == |results| && AllTrue(results)
    requires forall i | 0 <= i < |calls| :: calls[i].key == key && from <= calls[i].at <= to
    ensures Granted(TimesOf(calls, key), ResultsOf(calls, results, key), from, to) == |calls|
    decreases |calls|
  {
    if calls != [] {
      AllGranted(calls[1..], results[1..], key, from, to);
      var times, oks := TimesOf(calls[1..], key), ResultsOf(calls[1..], results[1..], key);
      assert ([calls[0].at] + times)[1..] == times && ([results[0]] + oks)[1..] == oks;
    }
  }

  /** A client's grants in the window stay within the bucket's size plus what the window refills. */
  ghost predicate WithinRate(c: Config, start: real, calls: seq<Call>, key: string, from: real, to: real) {
    Granted(TimesOf(calls, key), ResultsOf(calls, Results(c, State(map[], start), calls), key), from, to) as real
    <= c.maxTokens as real + c.refillRate * (to - from)
  }

  lemma TwoBurstsExceed(c: Config, key: string) returns (calls: seq<Call>, from: real, to: real)
    requires Sane(c) && c.maxTokens >= 1 && !FullBeforeEvicted(c)
    ensures Ordered(calls, 0.0) && from <= to && !WithinRate(c, 0.0, calls, key, from, to)
  {
    var idle := IdleTooShort(c, c.maxTokens);
    calls, from, to := TwoBursts(c, key, idle), DrainAt(c, idle), DrainAt(c, idle) + idle;
    TwoBurstsGranted(c, key, idle);
    AllGranted(calls, Results(c, State(map[], 0.0), calls), key, from, to);
    assert to - from == idle;
  }

  /** The bound holds in every run, for every client and every window, if and only if an idle bucket is full
      again before it may be evicted. */
  lemma RateBoundIff(c: Config)
    requires Sane(c)
    ensures FullBeforeEvicted(c) <==>
            forall start: real, calls, key, from: real, to: real | Ordered(calls, start) && from <= to ::
              WithinRate(c, start, calls, key, from, to)
  {
    if FullBeforeEvicted(c) {
      forall start: real, calls, key, from: real, to: real | Ordered(calls, start) && from <= to
        ensures WithinRate(c, start, calls, key, from, to)
      {
        RateBound(c, start, calls, key, from, to);
      }
    } else {
      Gain(c.entryTtl, 0.0, c.refillRate);
      var calls, from, to := TwoBurstsExceed(c, "client");
    }
  }
}
