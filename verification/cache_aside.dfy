/** The Redis side of the resource cache: a store whose two scripts run atomically, and the client
    object that calls them over a connection that may break. */
module Cache {
  import opened Common

  /** A cached body or a version counter; `expires` is the last instant at which the key exists. */
  datatype Body<+V> = Body(value: V, expires: Option<int>)
  datatype Counter = Counter(n: nat, expires: Option<int>)

  predicate Live(expires: Option<int>, now: int) {
    expires.None? || now <= expires.value
  }

  /** What happens to one command: it is served, its reply is lost after it took effect, it never
      reaches the server, or the server refuses it with an error reply. */
  datatype Wire = Delivered | LostReply | Unsent | Refused

  predicate TakesEffect(w: Wire) {
    w.Delivered? || w.LostReply?
  }

  /** The connection context records an error, so the next call has to reconnect. */
  predicate BreaksConnection(w: Wire) {
    w.LostReply? || w.Unsent?
  }

  /** All that Redis holds for one logical key: the cached body and the version counter. */
  datatype Slot<+V> = Slot(body: Option<Body<V>>, counter: Option<Counter>)

  /** The version a reader sees; an absent or expired counter reads as 0. */
  function VersionOf<V>(s: Slot<V>, now: int): nat {
    if s.counter.Some? && Live(s.counter.value.expires, now) then s.counter.value.n else 0
  }

  function BodyAt<V>(s: Slot<V>, now: int): Option<V> {
    if s.body.Some? && Live(s.body.value.expires, now) then Some(s.body.value.value) else None
  }

  function Deadline(now: int, ttlSeconds: int): Option<int> {
    if ttlSeconds > 0 then Some(now + ttlSeconds * SECOND) else None
  }

  /** The conditional store: nothing changes unless the version still is the expected one. */
  function StoreIfVersion<V>(s: Slot<V>, expected: nat, value: V, ttlSeconds: int, now: int): Slot<V> {
    if VersionOf(s, now) == expected then s.(body := Some(Body(value, Deadline(now, ttlSeconds)))) else s
  }

  /** The eviction: count up from the visible version, re-arm the counter's expiry, drop the body.
      Expiring a key with a non-positive time to live deletes it. */
  function Evict<V>(s: Slot<V>, ttlSeconds: int, now: int): Slot<V> {
    Slot(None,
         if ttlSeconds > 0 then Some(Counter(VersionOf(s, now) + 1, Deadline(now, ttlSeconds))) else None)
  }

  /** A row stored under the visible version is seen for exactly ttl seconds, or until it is dropped if the
      time to live is not positive; under any other version nothing changes. */
  lemma StoreMeaning<V>(s: Slot<V>, expected: nat, value: V, ttlSeconds: int, now: int, t: int)
    requires now <= t
    ensures var s' := StoreIfVersion(s, expected, value, ttlSeconds, now);
            && s'.counter == s.counter
            && (VersionOf(s, now) == expected ==>
                  BodyAt(s', t) == if ttlSeconds > 0 && t > now + 1000 * ttlSeconds then None else Some(value))
            && (VersionOf(s, now) != expected ==> s' == s)
  {
  }

  /** After an eviction no row is seen, and for ttl seconds the version is one higher than before. */
  lemma EvictMeaning<V>(s: Slot<V>, ttlSeconds: int, now: int, t: int)
    requires now <= t
    ensures var s' := Evict(s, ttlSeconds, now);
            && BodyAt(s', t) == None
            && VersionOf(s', t) == if ttlSeconds > 0 && t <= now + 1000 * ttlSeconds then VersionOf(s, now) + 1 else 0
  {
  }

  datatype CacheConfig = CacheConfig(defaultTtlSeconds: int, keyPrefix: string, versionTtlSeconds: int)

  function MakeKey(config: CacheConfig, key: string): string {
    config.keyPrefix + key
  }

  function VersionKey(config: CacheConfig, key: string): string {
    config.keyPrefix + "ver:" + key
  }

  function CacheKey(clientId: string, id: string): string {
    "resource:" + clientId + ":" + id
  }

  lemma DropPrefix(p: string, a: string, b: string)
    ensures p + a == p + b <==> a == b
  {
    if p + a == p + b {
      assert a == (p + a)[|p|..] == (p + b)[|p|..] == b;
    }
  }

  /** Body keys and version keys share one key space. They collide exactly when the body's key is
      the text "ver:" followed by the other key. */
  lemma KeysCollide(config: CacheConfig, a: string, b: string)
    ensures MakeKey(config, a) == config.keyPrefix + a && VersionKey(config, b) == config.keyPrefix + "ver:" + b
    ensures MakeKey(config, a) == MakeKey(config, b) <==> a == b
    ensures VersionKey(config, a) == VersionKey(config, b) <==> a == b
    ensures MakeKey(config, a) == VersionKey(config, b) <==> a == "ver:" + b
  {
    DropPrefix(config.keyPrefix, a, b);
    DropPrefix(config.keyPrefix + "ver:", a, b);
    DropPrefix(config.keyPrefix, a, "ver:" + b);
    assert VersionKey(config, b) == config.keyPrefix + ("ver:" + b);
  }

  /** The two keys share no Redis key, neither for a body nor for a counter. */
  predicate Apart(a: string, b: string) {
    a != b && a != "ver:" + b && b != "ver:" + a
  }

  /** No resource's body shares a Redis key with a resource's version counter, and for client ids
      without a colon distinct resources have distinct keys. */
  lemma ResourceKeysDoNotCollide(config: CacheConfig, c: string, i: string, c': string, i': string)
    requires ':' !in c && ':' !in c'
    ensures MakeKey(config, CacheKey(c, i)) != VersionKey(config, CacheKey(c', i'))
    ensures CacheKey(c, i) == CacheKey(c', i') <==> c == c' && i == i'
  {
    KeysCollide(config, CacheKey(c, i), CacheKey(c', i'));
    assert CacheKey(c, i)[0] == 'r';
    assert ("ver:" + CacheKey(c', i'))[0] == 'v';
    if CacheKey(c, i) == CacheKey(c', i') {
      var s, s' := c + (":" + i), c' + (":" + i');
      assert CacheKey(c, i) == "resource:" + s && CacheKey(c', i') == "resource:" + s';
      DropPrefix("resource:", s, s');
      FirstColon(c, i, c', i');
    }
  }

  lemma FirstColon(c: string, i: string, c': string, i': string)
    requires ':' !in c && ':' !in c'
    requires c + (":" + i) == c' + (":" + i')
    ensures c == c' && i == i'
  {
    var s := c + (":" + i);
    var t := c' + (":" + i');
    assert s[|c|] == ':' && t[|c'|] == ':';
    assert forall k | 0 <= k < |c| :: s[k] != ':';
    assert forall k | 0 <= k < |c'| :: t[k] != ':';
    assert |c| == |c'|;
    assert c == s[..|c|] == t[..|c'|] == c';
    assert i == s[|c| + 1..] == t[|c'| + 1..] == i';
  }

  predicate SameElsewhere<K, T(==)>(m: map<K, T>, m': map<K, T>, k: K) {
    && (forall x | x in m && x != k :: x in m' && m[x] == m'[x])
    && (forall x | x in m' && x != k :: x in m)
  }

  /** The Redis server. The two kinds of key never collide for resources (see above), so they are
      kept in two maps. */
  class Redis<V(==)> {
    var bodies: map<string, Body<V>>
    var counters: map<string, Counter>

    constructor ()
      ensures bodies == map[] && counters == map[]
    {
      bodies, counters := map[], map[];
    }

    function SlotAt(bodyKey: string, versionKey: string): Slot<V>
      reads this
    {
      Slot(if bodyKey in bodies then Some(bodies[bodyKey]) else None,
           if versionKey in counters then Some(counters[versionKey]) else None)
    }

    /** GET of a version key; "0" stands for a missing one. */
    function Current(versionKey: string, now: int): nat
      reads this
    {
      if versionKey in counters && Live(counters[versionKey].expires, now)
      then counters[versionKey].n else 0
    }

    method Incr(versionKey: string, now: int)
      modifies this`counters
      ensures versionKey in counters && counters[versionKey].n == old(Current(versionKey, now)) + 1
      ensures counters == old(counters)[versionKey := counters[versionKey]]
    {
      if versionKey in counters && Live(counters[versionKey].expires, now) {
        counters := counters[versionKey := counters[versionKey].(n := counters[versionKey].n + 1)];
      } else {
        counters := counters[versionKey := Counter(1, None)];
      }
    }

    method Expire(versionKey: string, ttlSeconds: int, now: int)
      modifies this`counters
      ensures versionKey !in old(counters) ==> counters == old(counters)
      ensures versionKey in old(counters) ==>
                counters == if ttlSeconds > 0
                            then old(counters)[versionKey :=
                              old(counters)[versionKey].(expires := Deadline(now, ttlSeconds))]
                            else old(counters) - {versionKey}
    {
      if versionKey in counters {
        if ttlSeconds > 0 {
          counters := counters[versionKey := counters[versionKey].(expires := Deadline(now, ttlSeconds))];
        } else {
          counters := counters - {versionKey};
        }
      }
    }

    method Del(bodyKey: string)
      modifies this`bodies
      ensures bodies == old(bodies) - {bodyKey}
    {
      bodies := bodies - {bodyKey};
    }

    method Set(bodyKey: string, value: V, expires: Option<int>)
      modifies this`bodies
      ensures bodies == old(bodies)[bodyKey := Body(value, expires)]
    {
      bodies := bodies[bodyKey := Body(value, expires)];
    }

    /** The script behind put_if_version. */
    method EvalPutIfVersion(bodyKey: string, versionKey: string, expected: nat, value: V,
                            ttlSeconds: int, now: int)
      returns (reply: bool)
      modifies this
      ensures reply == (old(Current(versionKey, now)) == expected)
      ensures SlotAt(bodyKey, versionKey) ==
              StoreIfVersion(old(SlotAt(bodyKey, versionKey)), expected, value, ttlSeconds, now)
      ensures counters == old(counters)
      ensures SameElsewhere(bodies, old(bodies), bodyKey)
    {
      var current := Current(versionKey, now);
      if current != expected {
        return false;
      }
      if ttlSeconds > 0 {
        Set(bodyKey, value, Some(now + ttlSeconds * SECOND));
      } else {
        Set(bodyKey, value, None);
      }
      return true;
    }

    /** The script behind invalidate_versioned. */
    method EvalInvalidate(bodyKey: string, versionKey: string, ttlSeconds: int, now: int)
      modifies this
      ensures SlotAt(bodyKey, versionKey) == Evict(old(SlotAt(bodyKey, versionKey)), ttlSeconds, now)
      ensures SameElsewhere(bodies, old(bodies), bodyKey)
      ensures SameElsewhere(counters, old(counters), versionKey)
    {
      Incr(versionKey, now);
      Expire(versionKey, ttlSeconds, now);
      Del(bodyKey);
    }
  }

  /** The environment's answer to one call: does a reconnect succeed if one is needed, and what
      becomes of the command. */
  datatype Net = Net(reconnects: bool, wire: Wire)

  class CacheAside<V(==)> {
    const config: CacheConfig
    const redis: Redis<V>
    var connected: bool
    var nextReconnect: int

    constructor (redis: Redis<V>, config: CacheConfig)
      ensures this.redis == redis && this.config == config && connected && nextReconnect == 0
    {
      this.redis, this.config := redis, config;
      connected, nextReconnect := true, 0;
    }

    function SlotOf(key: string): Slot<V>
      reads redis
    {
      redis.SlotAt(MakeKey(config, key), VersionKey(config, key))
    }

    /** A broken connection is retried at most once a second. */
    predicate Reachable(now: int, net: Net)
      reads this
    {
      connected || (nextReconnect <= now && net.reconnects)
    }

    /** What really happens to the command, given the state of the connection. */
    function Outcome(now: int, net: Net): Wire
      reads this
    {
      if Reachable(now, net) then net.wire else Unsent
    }

    function EffectiveTtl(ttlSeconds: int): int {
      if ttlSeconds < 0 then config.defaultTtlSeconds else ttlSeconds
    }

    method EnsureConnected(now: int, net: Net) returns (ok: bool)
      modifies this
      ensures ok == old(Reachable(now, net)) == connected
      ensures nextReconnect ==
              if old(connected) || now < old(nextReconnect) || net.reconnects then old(nextReconnect)
              else now + SECOND
    {
      if connected {
        return true;
      }
      if now < nextReconnect {
        return false;
      }
      if net.reconnects {
        connected := true;
        return true;
      }
      nextReconnect := now + SECOND;
      return false;
    }

    method Get(key: string, now: int, net: Net) returns (r: Option<V>)
      modifies this
      ensures r == if old(Outcome(now, net)).Delivered? then BodyAt(SlotOf(key), now) else None
      ensures connected == (old(Reachable(now, net)) && !BreaksConnection(net.wire))
    {
      var ok := EnsureConnected(now, net);
      if !ok {
        return None;
      }
      connected := !BreaksConnection(net.wire);
      if net.wire != Delivered {
        return None;
      }
      var full := MakeKey(config, key);
      if full !in redis.bodies || !Live(redis.bodies[full].expires, now) {
        return None;
      }
      return Some(redis.bodies[full].value);
    }

    method Version(key: string, now: int, net: Net) returns (r: Option<nat>)
      modifies this
      ensures r == if old(Outcome(now, net)).Delivered? then Some(VersionOf(SlotOf(key), now)) else None
      ensures connected == (old(Reachable(now, net)) && !BreaksConnection(net.wire))
    {
      var ok := EnsureConnected(now, net);
      if !ok {
        return None;
      }
      connected := !BreaksConnection(net.wire);
      if net.wire != Delivered {
        return None;
      }
      return Some(redis.Current(VersionKey(config, key), now));
    }

    /** True only if the entry was stored; the entry may be stored although the answer is false,
        when the reply is lost. No key apart from this one is touched. */
    method PutIfVersion(key: string, expected: nat, value: V, ttlSeconds: int, now: int, net: Net)
      returns (stored: bool)
      modifies this, redis
      ensures SlotOf(key) == if TakesEffect(old(Outcome(now, net)))
                             then StoreIfVersion(old(SlotOf(key)), expected, value,
                                                 if ttlSeconds < 0 then config.defaultTtlSeconds else ttlSeconds, now)
                             else old(SlotOf(key))
      ensures stored == (old(Outcome(now, net)).Delivered? && VersionOf(old(SlotOf(key)), now) == expected)
      ensures connected == (old(Reachable(now, net)) && !BreaksConnection(net.wire))
      ensures forall k :: Apart(k, key) ==> SlotOf(k) == old(SlotOf(k))
    {
      forall k {
        KeysCollide(config, k, key);
      }
      var ok := EnsureConnected(now, net);
      if !ok {
        return false;
      }
      connected := !BreaksConnection(net.wire);
      if !TakesEffect(net.wire) {
        return false;
      }
      var reply := redis.EvalPutIfVersion(MakeKey(config, key), VersionKey(config, key), expected, value,
                                          EffectiveTtl(ttlSeconds), now);
      return reply && net.wire.Delivered?;
    }

    /** True only if the eviction took effect; it may take effect although the answer is false. */
    method InvalidateVersioned(key: string, now: int, net: Net) returns (done: bool)
      modifies this, redis
      ensures SlotOf(key) == if TakesEffect(old(Outcome(now, net)))
                             then Evict(old(SlotOf(key)), config.versionTtlSeconds, now)
                             else old(SlotOf(key))
      ensures done == old(Outcome(now, net)).Delivered?
      ensures connected == (old(Reachable(now, net)) && !BreaksConnection(net.wire))
      ensures forall k :: Apart(k, key) ==> SlotOf(k) == old(SlotOf(k))
    {
      forall k {
        KeysCollide(config, k, key);
      }
      var ok := EnsureConnected(now, net);
      if !ok {
        return false;
      }
      connected := !BreaksConnection(net.wire);
      if !TakesEffect(net.wire) {
        return false;
      }
      redis.EvalInvalidate(MakeKey(config, key), VersionKey(config, key), config.versionTtlSeconds, now);
      return net.wire.Delivered?;
    }
  }
}
