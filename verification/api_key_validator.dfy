/** `validate` for one key, step by step over Redis and the lookup, with the steps of other calls, of
    other writers and of the clock free to run between any two of its commands. */
module ApiKeyValidator {
  import opened Common
  import opened Cache
  import opened ApiKeyProtocol
  import opened ApiKeyTheorems

  /** The network's answer to a cache read: is there a connection, what becomes of the command, and, should
      it break the connection, can a new one be made and what becomes of the second attempt. */
  datatype Exchange = Exchange(connects: bool, first: Wire, reconnects: bool, second: Wire)

  predicate Answered(x: Exchange) {
    x.connects && (x.first.Delivered? || (BreaksConnection(x.first) && x.reconnects && x.second.Delivered?))
  }

  ghost predicate NoneBy(es: seq<Step>, v: nat) {
    forall e | e in es :: !ByCall(e, v)
  }

  lemma {:induction false} OthersKeepCallInRun(s: State, es: seq<Step>, v: nat)
    requires s.log != [] && NoneBy(es, v)
    ensures v in Run(s, es).calls <==> v in s.calls
    ensures v in s.calls ==> Run(s, es).calls[v] == s.calls[v]
    decreases |es|
  {
    if es != [] {
      assert es[0] in es;
      OthersKeepCall(s, es[0], v);
      OthersKeepCallInRun(Next(s, es[0]), es[1..], v);
    }
  }

  lemma RunSnoc(s: State, es: seq<Step>, e: Step)
    requires s.log != []
    ensures Run(s, es + [e]) == Next(Run(s, es), e)
  {
    RunAppend(s, es, [e]);
    assert [e][1..] == [];
    assert Run(Run(s, es), [e]) == Run(Next(Run(s, es), e), []);
  }

  /** A call's own commands in a run. */
  ghost function Own(es: seq<Step>, v: nat): seq<Step>
    decreases |es|
  {
    if es == [] then [] else if ByCall(es[0], v) then [es[0]] + Own(es[1..], v) else Own(es[1..], v)
  }

  lemma {:induction false} OwnAppend(es: seq<Step>, fs: seq<Step>, v: nat)
    ensures Own(es + fs, v) == Own(es, v) + Own(fs, v)
    decreases |es|
  {
    if es == [] {
      assert es + fs == fs;
    } else {
      assert (es + fs)[1..] == es[1..] + fs && (es + fs)[0] == es[0];
      OwnAppend(es[1..], fs, v);
    }
  }

  lemma {:induction false} NoneOwn(es: seq<Step>, v: nat)
    requires NoneBy(es, v)
    ensures Own(es, v) == []
    decreases |es|
  {
    if es != [] {
      assert es[0] in es && forall e | e in es[1..] :: e in es;
      NoneOwn(es[1..], v);
    }
  }

  lemma OwnStep(es: seq<Step>, e: Step, v: nat)
    requires ByCall(e, v)
    ensures Own(es + [e], v) == Own(es, v) + [e]
  {
    OwnAppend(es, [e], v);
    assert [e][1..] == [];
  }

  lemma OwnWaits(es: seq<Step>, more: seq<Step>, v: nat)
    requires NoneBy(more, v)
    ensures Own(es + more, v) == Own(es, v)
  {
    OwnAppend(es, more, v);
    NoneOwn(more, v);
  }

  /** The commands of a `validate` in their order, for these answers; a call issues them one after the
      other until it has its answer. */
  function Program(v: nat, x: Exchange, answered: bool, connects: bool, hmset: Wire, expire: Wire): seq<Step> {
    [ReadCache(v, Answered(x)), AskLookup(v, answered), Hmset(v, if connects then hmset else Unsent), Aim(v),
     Expire(v, expire)]
  }

  /** How a finished call answers. */
  function Answer(c: Call): Result<ApiKeyInfo, KeyError>
    requires c.Accepted? || c.Rejected?
  {
    if c.Accepted? then Ok(c.info) else Err(c.error)
  }

  class ApiKeyValidator {
    const hasLookup: bool
    var now: int
    var log: seq<Commit>
    var entry: Option<Entry>
    var calls: map<nat, Call>

    ghost predicate Valid()
      reads this
    {
      log != []
    }

    ghost function Abs(): State
      reads this
    {
      State(hasLookup, now, log, entry, calls)
    }

    constructor (hasLookup: bool, now: int, row: Option<KeyRow>)
      ensures Valid() && Abs() == Init(now, row, hasLookup)
    {
      this.hasLookup := hasLookup;
      this.now, log, entry, calls := now, [Commit(now, row)], None, map[];
    }

    // -------------------------------------------------------------- commands

    method Hgetall() returns (fields: Option<Entry>)
      ensures fields == LiveEntry(Abs())
    {
      if entry.None? || !Live(entry.value.expires, now) {
        return None;
      }
      return entry;
    }

    method Hmset(rec: Reading)
      modifies this`entry
      ensures entry == Some(Put(old(LiveEntry(Abs())), rec))
    {
      if entry.Some? && Live(entry.value.expires, now) {
        entry := Some(entry.value.(info := InfoOf(rec.row), source := Some(rec)));
      } else {
        entry := Some(Entry(InfoOf(rec.row), Some(rec), None, None));
      }
    }

    method ExpireKey(ttl: int, renewer: Reading)
      requires ttl > 0
      modifies this`entry
      ensures entry == if old(LiveEntry(Abs())).Some?
                       then Some(old(entry).value.(expires := Some(now + ttl * SECOND), renewer := Some(renewer)))
                       else old(entry)
    {
      if entry.Some? && Live(entry.value.expires, now) {
        entry := Some(entry.value.(expires := Some(now + ttl * SECOND), renewer := Some(renewer)));
      }
    }

    // -------------------------------------------------------------- the environment

    method Perform(e: Step)
      requires Valid()
      modifies this
      ensures Valid() && Abs() == Next(old(Abs()), e)
    {
      var s := Next(State(hasLookup, now, log, entry, calls), e);
      assert s.withLookup == hasLookup;
      now, log, entry, calls := s.now, s.log, s.entry, s.calls;
    }

    /** The steps of everyone else. */
    method Interfere(es: seq<Step>)
      requires Valid()
      modifies this
      ensures Valid() && Abs() == Run(old(Abs()), es)
    {
      for i := 0 to |es|
        invariant Valid() && Abs() == Run(old(Abs()), es[..i])
      {
        Perform(es[i]);
        RunSnoc(old(Abs()), es[..i], es[i]);
        assert es[..i] + [es[i]] == es[..i + 1];
      }
      assert es[..|es|] == es;
    }

    method Proceed(ghost s0: State, ghost before: seq<Step>, v: nat, es: seq<Step>) returns (ghost trace: seq<Step>)
      requires Valid() && s0.log != [] && Abs() == Run(s0, before) && NoneBy(es, v)
      modifies this
      ensures Valid() && trace == before + es && Abs() == Run(s0, trace)
      ensures v in calls <==> v in old(calls)
      ensures v in calls ==> calls[v] == old(calls[v])
      ensures Own(trace, v) == Own(before, v)
    {
      OwnWaits(before, es, v);
      OthersKeepCallInRun(Abs(), es, v);
      RunAppend(s0, before, es);
      Interfere(es);
      trace := before + es;
    }

    // -------------------------------------------------------------- validate

    /** The cached client, if the cache answers and holds an entry that may be trusted. */
    method FromCache(v: nat, x: Exchange) returns (failed: bool, cached: Option<ApiKeyInfo>)
      requires Valid() && v !in calls
      modifies this`calls
      ensures Valid() && Abs() == Next(old(Abs()), ReadCache(v, Answered(x)))
      ensures v in calls && failed == !Answered(x)
      ensures failed == !(x.connects && (x.first == Delivered || (x.first in {LostReply, Unsent} && x.reconnects && x.second == Delivered)))
      ensures cached.Some? ==> !failed && (calls[v].Accepted? || calls[v].Rejected?) &&
                               Answer(calls[v]) == if cached.value.clientId == "" then Err(MissingClientId) else Ok(cached.value)
      ensures cached.None? ==> calls[v] == if hasLookup then Missed else Rejected(if failed then CacheDown else UnknownKey)
    {
      calls := Next(State(hasLookup, now, log, entry, calls), ReadCache(v, Answered(x))).calls;
      if !x.connects {
        return true, None;
      }
      if !x.first.Delivered? {
        if !BreaksConnection(x.first) || !x.reconnects || !x.second.Delivered? {
          return true, None;
        }
      }
      var fields := Hgetall();
      if fields.None? || (hasLookup && fields.value.source.None?) {
        return false, None;
      }
      return false, Some(fields.value.info);
    }

    method Lookup(v: nat, answered: bool) returns (failed: bool, record: Option<Reading>)
      requires Valid() && v in calls && calls[v].Missed?
      modifies this`calls
      ensures Valid() && Abs() == Next(old(Abs()), AskLookup(v, answered))
      ensures v in calls && failed == !answered
      ensures record.Some? ==> !failed && calls[v] == Looked(record.value)
      ensures var row := log[|log| - 1].row;
              record.Some? == (answered && row.Some? && row.value.active == true
                               && (row.value.expiresAt == None || (row.value.expiresAt.Some? && row.value.expiresAt.value > now)))
      ensures record.Some? ==> Some(record.value.row) == log[|log| - 1].row
      ensures record.None? ==> calls[v] == Rejected(if failed then LookupDown else UnknownKey)
    {
      calls := Next(State(hasLookup, now, log, entry, calls), AskLookup(v, answered)).calls;
      if !answered {
        return true, None;
      }
      var row := log[|log| - 1].row;
      if row.Some? && row.value.active && (row.value.expiresAt.None? || row.value.expiresAt.value > now) {
        return false, Some(Reading(row.value, now, |log| - 1));
      }
      return false, None;
    }

    /** The commands of one store in their order, with the others' steps in between: HMSET, and only if it
        is confirmed the time to live and EXPIRE. Without a connection nothing is sent. */
    static ghost function StoreTrace(before: seq<Step>, v: nat, env: seq<seq<Step>>, connects: bool, hmset: Wire, expire: Wire): seq<Step>
      requires |env| == 3
    {
      var wire := if connects then hmset else Unsent;
      var sent := before + env[0] + [Step.Hmset(v, wire)];
      if wire.Delivered? then sent + env[1] + [Aim(v)] + env[2] + [Expire(v, expire)] else sent
    }

    /** Two commands; whatever goes wrong is ignored. */
    method StoreInCache(ghost s0: State, ghost before: seq<Step>, v: nat, record: Reading,
                        env: seq<seq<Step>>, connects: bool, hmset: Wire, expire: Wire)
      returns (ghost trace: seq<Step>)
      requires Valid() && s0.log != [] && Abs() == Run(s0, before) && v in calls && calls[v] == Looked(record)
      requires |env| == 3 && forall es | es in env :: NoneBy(es, v)
      modifies this
      ensures Valid() && Abs() == Run(s0, trace)
      ensures v in calls && (calls[v].Accepted? || calls[v].Rejected?) && Answer(calls[v]) == Answer(Finish(record, now))
      ensures trace == StoreTrace(before, v, env, connects, hmset, expire)
      ensures var wire := if connects then hmset else Unsent;
              Own(trace, v) == Own(before, v) + if wire.Delivered? then [Step.Hmset(v, wire), Aim(v), Expire(v, expire)]
                                                else [Step.Hmset(v, wire)]
    {
      trace := Proceed(s0, before, v, env[0]);
      var wire := if connects then hmset else Unsent;
      trace := SendHmset(s0, trace, v, record, wire);
      if !wire.Delivered? {
        return;
      }
      trace := LimitLife(s0, trace, v, record, env[1], env[2], expire);
    }

    /** The second command, after a confirmed HMSET. */
    method LimitLife(ghost s0: State, ghost before: seq<Step>, v: nat, record: Reading,
                     env1: seq<Step>, env2: seq<Step>, expire: Wire)
      returns (ghost trace: seq<Step>)
      requires Valid() && s0.log != [] && Abs() == Run(s0, before) && v in calls && calls[v] == Stored(record)
      requires NoneBy(env1, v) && NoneBy(env2, v)
      modifies this
      ensures Valid() && Abs() == Run(s0, trace) && v in calls && calls[v] == Finish(record, now)
      ensures trace == before + env1 + [Aim(v)] + env2 + [Expire(v, expire)]
      ensures Own(trace, v) == Own(before, v) + [Aim(v), Expire(v, expire)]
    {
      trace := Proceed(s0, before, v, env1);
      var ttl;
      ttl, trace := ChooseTtl(s0, trace, v, record);
      trace := Proceed(s0, trace, v, env2);
      trace := SendExpire(s0, trace, v, record, ttl, expire);
    }

    method ChooseTtl(ghost s0: State, ghost before: seq<Step>, v: nat, record: Reading)
      returns (ttl: int, ghost trace: seq<Step>)
      requires Valid() && s0.log != [] && Abs() == Run(s0, before) && v in calls && calls[v] == Stored(record)
      modifies this
      ensures Valid() && Abs() == Run(s0, trace) && trace == before + [Aim(v)]
      ensures Own(trace, v) == Own(before, v) + [Aim(v)]
      ensures v in calls && calls[v] == Timed(record, ttl) && ttl == CacheTtl(record.row, now) > 0
    {
      ttl := CacheTtl(record.row, now);
      CacheTtlRange(record.row, now);
      RunSnoc(s0, before, Aim(v));
      OwnStep(before, Aim(v), v);
      trace := before + [Aim(v)];
      calls := calls[v := Timed(record, ttl)];
    }

    method SendHmset(ghost s0: State, ghost before: seq<Step>, v: nat, record: Reading, wire: Wire)
      returns (ghost trace: seq<Step>)
      requires Valid() && s0.log != [] && Abs() == Run(s0, before) && v in calls && calls[v] == Looked(record)
      modifies this
      ensures Valid() && Abs() == Run(s0, trace) && now == old(now) && trace == before + [Step.Hmset(v, wire)]
      ensures Own(trace, v) == Own(before, v) + [Step.Hmset(v, wire)]
      ensures v in calls && calls[v] == if wire.Delivered? then Stored(record) else Finish(record, now)
    {
      RunSnoc(s0, before, Step.Hmset(v, wire));
      OwnStep(before, Step.Hmset(v, wire), v);
      trace := before + [Step.Hmset(v, wire)];
      if TakesEffect(wire) {
        Hmset(record);
      }
      calls := calls[v := if wire.Delivered? then Stored(record) else Finish(record, now)];
    }

    method SendExpire(ghost s0: State, ghost before: seq<Step>, v: nat, record: Reading, ttl: int, wire: Wire)
      returns (ghost trace: seq<Step>)
      requires Valid() && s0.log != [] && Abs() == Run(s0, before) && v in calls && calls[v] == Timed(record, ttl) && ttl > 0
      modifies this
      ensures Valid() && Abs() == Run(s0, trace) && now == old(now) && trace == before + [Expire(v, wire)]
      ensures Own(trace, v) == Own(before, v) + [Expire(v, wire)]
      ensures v in calls && calls[v] == Finish(record, now)
    {
      RunSnoc(s0, before, Expire(v, wire));
      OwnStep(before, Expire(v, wire), v);
      trace := before + [Expire(v, wire)];
      if TakesEffect(wire) {
        ExpireKey(ttl, record);
      }
      calls := calls[v := Finish(record, now)];
    }

    lemma AcceptedIsRecent(s0: State, trace: seq<Step>, v: nat)
      requires s0.log != [] && Abs() == Run(s0, trace) && v in calls && calls[v].Accepted?
      ensures hasLookup ==>
                forall d: nat :: Inv(s0, d) && Orderly(s0, trace, d) ==> WasUsable(log, calls[v].at, calls[v].info, d)
    {
      forall d: nat | hasLookup && Inv(s0, d) && Orderly(s0, trace, d)
        ensures WasUsable(log, calls[v].at, calls[v].info, d)
      {
        RunKeepsInv(s0, trace, d);
        AcceptedInInv(Abs(), d, v);
      }
    }

    /** The lookup of a key that the cache does not know, and the attempt to cache what it found. */
    method AskAndStore(ghost s0: State, ghost before: seq<Step>, v: nat, env: seq<seq<Step>>, answered: bool,
                       connects: bool, hmset: Wire, expire: Wire)
      returns (res: Result<ApiKeyInfo, KeyError>, ghost trace: seq<Step>)
      requires Valid() && s0.log != [] && Abs() == Run(s0, before) && v in calls && calls[v].Missed?
      requires |env| == 4 && forall es | es in env :: NoneBy(es, v)
      modifies this
      ensures Valid() && Abs() == Run(s0, trace) && v in calls && (calls[v].Accepted? || calls[v].Rejected?)
      ensures Answer(calls[v]) == if res.Ok? && res.value.clientId == "" then Err(MissingClientId) else res
      ensures Own(trace, v) <= Own(before, v)
              + [AskLookup(v, answered), Step.Hmset(v, if connects then hmset else Unsent), Aim(v), Expire(v, expire)]
    {
      trace := Proceed(s0, before, v, env[0]);
      RunSnoc(s0, trace, AskLookup(v, answered));
      OwnStep(trace, AskLookup(v, answered), v);
      var down, record := Lookup(v, answered);
      trace := trace + [AskLookup(v, answered)];
      if down {
        return Err(LookupDown), trace;
      }
      if record.None? {
        return Err(UnknownKey), trace;
      }
      trace := StoreInCache(s0, trace, v, record.value, env[1..], connects, hmset, expire);
      res := Ok(InfoOf(record.value.row));
    }

    /** An empty key is refused before anything happens. Otherwise the call is carried out as one of the
        protocol's calls, and what it returns is what that call ends with. */
    method Validate(v: nat, rawKey: string, env: seq<seq<Step>>, x: Exchange, answered: bool,
                    connects: bool, hmset: Wire, expire: Wire)
      returns (res: Result<ApiKeyInfo, KeyError>, ghost trace: seq<Step>)
      requires Valid() && v !in calls && |env| == 5 && forall es | es in env :: NoneBy(es, v)
      modifies this
      ensures Valid() && Abs() == Run(old(Abs()), trace)
      ensures rawKey == "" ==> res == Err(EmptyKey) && trace == []
      ensures rawKey != "" ==> Own(trace, v) <= Program(v, x, answered, connects, hmset, expire)
      ensures res.Ok? ==> res.value.clientId != ""
      ensures rawKey != "" ==> v in calls && (calls[v].Accepted? || calls[v].Rejected?) && res == Answer(calls[v])
      ensures rawKey != "" && hasLookup && res.Ok? ==>
                forall d: nat :: old(Inv(Abs(), d)) && Orderly(old(Abs()), trace, d) ==> WasUsable(log, calls[v].at, res.value, d)
    {
      if rawKey == "" {
        return Err(EmptyKey), [];
      }
      ghost var s0 := Abs();
      trace := Proceed(s0, [], v, env[0]);
      RunSnoc(s0, trace, ReadCache(v, Answered(x)));
      OwnStep(trace, ReadCache(v, Answered(x)), v);
      var failed, cached := FromCache(v, x);
      trace := trace + [ReadCache(v, Answered(x))];
      if failed && !hasLookup {
        return Err(CacheDown), trace;
      }

      var info;
      if cached.Some? {
        info := cached.value;
      } else {
        if !hasLookup {
          return Err(UnknownKey), trace;
        }
        res, trace := AskAndStore(s0, trace, v, env[1..], answered, connects, hmset, expire);
        if res.Err? {
          return;
        }
        info := res.value;
      }

      if info.clientId == "" {
        return Err(MissingClientId), trace;
      }
      AcceptedIsRecent(s0, trace, v);
      return Ok(info), trace;
    }
  }
}
