/** The per-client token-bucket limiter: lazy refill, periodic eviction of idle buckets. Times and
    token counts are real numbers. */
module RateLimiter {
  import opened Common

  datatype Config = Config(maxTokens: nat, refillRate: real, cleanupInterval: real, entryTtl: real)

  datatype Bucket = Bucket(tokens: real, lastRefill: real, lastAccess: real)

  type Buckets = map<string, Bucket>

  datatype State = State(buckets: Buckets, lastCleanup: real)

  function MinReal(a: real, b: real): real {
    if a <= b then a else b
  }

  function Ceil(x: real): int {
    -((-x).Floor)
  }

  function Refilled(c: Config, b: Bucket, now: real): Bucket {
    if now - b.lastRefill <= 0.0 then b
    else Bucket(MinReal(c.maxTokens as real, b.tokens + (now - b.lastRefill) * c.refillRate), now, b.lastAccess)
  }

  /** The tokens a client would find now; a client without a bucket finds a full one. */
  function Level(c: Config, bs: Buckets, key: string, now: real): real {
    if key in bs then Refilled(c, bs[key], now).tokens else c.maxTokens as real
  }

  /** The limiter without eviction. */
  function Spend(c: Config, bs: Buckets, key: string, now: real): (r: (Buckets, bool)) {
    var level := Level(c, bs, key, now);
    var refillTime := if key in bs then Refilled(c, bs[key], now).lastRefill else now;
    if level >= 1.0 then (bs[key := Bucket(level - 1.0, refillTime, now)], true)
    else (bs[key := Bucket(level, refillTime, now)], false)
  }

  function Evicted(c: Config, bs: Buckets, now: real): Buckets {
    map k | k in bs && now - bs[k].lastAccess <= c.entryTtl :: bs[k]
  }

  function Cleaned(c: Config, s: State, now: real): State {
    if now - s.lastCleanup < c.cleanupInterval then s else State(Evicted(c, s.buckets, now), now)
  }

  function Allowed(c: Config, s: State, key: string, now: real): (r: (State, bool)) {
    var s1 := Cleaned(c, s, now);
    var (bs, ok) := Spend(c, s1.buckets, key, now);
    (s1.(buckets := bs), ok)
  }

  lemma QuotientNotNegative(a: real, rate: real)
    requires a >= 0.0 && rate > 0.0
    ensures a / rate >= 0.0
  {
    var q := a / rate;
    assert q < 0.0 ==> q * rate < 0.0;
    assert q * rate == a;
  }

  /** How long a client has to wait, in whole seconds; without refill an empty bucket stays empty. */
  datatype Wait = Seconds(n: nat) | Forever

  class RateLimiter {
    const config: Config
    var buckets: Buckets
    var lastCleanup: real

    function Abs(): State
      reads this
    {
      State(buckets, lastCleanup)
    }

    constructor (config: Config, now: real)
      ensures this.config == config && Abs() == State(map[], now)
    {
      this.config := config;
      buckets, lastCleanup := map[], now;
    }

    method Refill(key: string, now: real)
      requires key in buckets
      modifies this`buckets
      ensures buckets == old(buckets)[key := Refilled(config, old(buckets)[key], now)]
    {
      var b := buckets[key];
      ghost var refilled := Refilled(config, b, now);
      var elapsed := now - b.lastRefill;
      if elapsed <= 0.0 {
        assert buckets == buckets[key := refilled];
        return;
      }
      b := b.(tokens := MinReal(config.maxTokens as real, b.tokens + elapsed * config.refillRate));
      b := b.(lastRefill := now);
      assert b == refilled;
      buckets := buckets[key := b];
    }

    method MaybeCleanup(now: real)
      modifies this
      ensures Abs() == Cleaned(config, old(Abs()), now)
    {
      if now - lastCleanup < config.cleanupInterval {
        return;
      }
      lastCleanup := now;
      var todo := buckets.Keys;
      ghost var before := buckets;
      while todo != {}
        invariant todo <= before.Keys && lastCleanup == now
        invariant forall k :: k in buckets <==>
                    k in before && (k in todo || now - before[k].lastAccess <= config.entryTtl)
        invariant forall k | k in buckets :: buckets[k] == before[k]
        decreases |todo|
      {
        var k :| k in todo;
        if now - buckets[k].lastAccess > config.entryTtl {
          buckets := buckets - {k};
        }
        todo := todo - {k};
      }
      assert buckets == Evicted(config, before, now);
    }

    method Allow(key: string, now: real) returns (granted: bool)
      modifies this
      ensures (Abs(), granted) == Allowed(config, old(Abs()), key, now)
    {
      MaybeCleanup(now);
      ghost var cleaned := buckets;
      var inserted := key !in buckets;
      if inserted {
        buckets := buckets[key := Bucket(config.maxTokens as real, now, now)];
      } else {
        Refill(key, now);
      }
      buckets := buckets[key := buckets[key].(lastAccess := now)];
      if buckets[key].tokens >= 1.0 {
        buckets := buckets[key := buckets[key].(tokens := buckets[key].tokens - 1.0)];
        assert buckets == Spend(config, cleaned, key, now).0;
        return true;
      }
      assert buckets == Spend(config, cleaned, key, now).0;
      return false;
    }

    /** The number of whole tokens, for a client seen before or not. */
    method Remaining(key: string, now: real) returns (n: nat)
      ensures n == Max(0, Level(config, buckets, key, now).Floor)
    {
      if key !in buckets {
        return config.maxTokens;
      }
      var copy := Refilled(config, buckets[key], now);
      n := Max(0, copy.tokens.Floor);
    }

    method RetryAfter(key: string, now: real) returns (w: Wait)
      requires config.refillRate >= 0.0
      ensures w == WaitFor(config, Level(config, buckets, key, now), key in buckets)
    {
      if key !in buckets {
        return Seconds(0);
      }
      var copy := Refilled(config, buckets[key], now);
      if copy.tokens >= 1.0 {
        return Seconds(0);
      }
      var deficit := 1.0 - copy.tokens;
      if config.refillRate == 0.0 {
        return Forever;
      }
      QuotientNotNegative(deficit, config.refillRate);
      return Seconds(Ceil(deficit / config.refillRate));
    }
  }

  function WaitFor(c: Config, level: real, known: bool): Wait
    requires c.refillRate >= 0.0
  {
    if !known || level >= 1.0 then Seconds(0)
    else if c.refillRate == 0.0 then Forever
    else
      QuotientNotNegative(1.0 - level, c.refillRate);
      Seconds(Ceil((1.0 - level) / c.refillRate))
  }
}
