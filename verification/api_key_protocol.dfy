/** The API-key cache for one key: any number of `validate` calls interleave their commands to Redis and
    to Postgres, the key's row changes, commands fail or lose their reply, entries are seeded by others
    or evicted. */
module ApiKeyProtocol {
  import opened Common
  import opened Cache

  const CACHE_TTL: int := 60   // seconds

  datatype KeyRow = KeyRow(clientId: string, scopes: string, active: bool, expiresAt: Option<int>)

  datatype ApiKeyInfo = ApiKeyInfo(clientId: string, scopes: string)

  datatype Commit = Commit(at: int, row: Option<KeyRow>)

  /** The lookup's condition. */
  predicate Usable(row: Option<KeyRow>, t: int) {
    row.Some? && row.value.active && (row.value.expiresAt.None? || row.value.expiresAt.value > t)
  }

  function InfoOf(row: KeyRow): ApiKeyInfo {
    ApiKeyInfo(row.clientId, row.scopes)
  }

  /** A row as the lookup found it: when, and after which commit. */
  datatype Reading = Reading(row: KeyRow, readAt: int, commit: nat)

  /** A cached hash. `source` is the reading that store_in_cache wrote it from (src=pg), or None if it
      was seeded by someone else; `expires` is None while the key has no time to live, and `renewer` is
      the reading of the call whose EXPIRE set it. */
  datatype Entry = Entry(info: ApiKeyInfo, source: Option<Reading>, expires: Option<int>, renewer: Option<Reading>)

  datatype KeyError = EmptyKey | UnknownKey | MissingClientId | CacheDown | LookupDown

  datatype Call =
    | Missed
    | Looked(rec: Reading)
    | Stored(rec: Reading)
    | Timed(rec: Reading, ttl: int)
    | Accepted(info: ApiKeyInfo, source: Option<Reading>, renewer: Option<Reading>, at: int)
    | Rejected(error: KeyError)

  datatype State = State(withLookup: bool, now: int, log: seq<Commit>, entry: Option<Entry>, calls: map<nat, Call>)

  datatype Step =
    | Tick(d: nat)
    | Change(row: Option<KeyRow>)
    | Seed(info: ApiKeyInfo, expires: Option<int>)
    | Evict
    | ReadCache(v: nat, answered: bool)
    | AskLookup(v: nat, answered: bool)
    | Hmset(v: nat, wire: Wire)
    | Aim(v: nat)
    | Expire(v: nat, wire: Wire)

  // ---------------------------------------------------------------- time to live

  /** The lookup reads expires_at in whole seconds, rounded to the nearest. */
  function ToSecond(t: int): int {
    (t + SECOND / 2) / SECOND * SECOND
  }

  /** A duration cast to seconds drops the fraction, on either side of zero. */
  function TruncateToSeconds(ms: int): int {
    if ms >= 0 then ms / SECOND else -(-ms / SECOND)
  }

  function CacheTtl(row: KeyRow, now: int): int {
    var ttl := if row.expiresAt.Some? then Min(CACHE_TTL, TruncateToSeconds(ToSecond(row.expiresAt.value) - now))
               else CACHE_TTL;
    Max(ttl, 1)
  }

  /** The rounding moves an instant by at most half a second. */
  lemma ToSecondRange(t: int)
    ensures ToSecond(t) % 1000 == 0 && t - 500 <= ToSecond(t) <= t + 500
    ensures t % 1000 == 0 ==> ToSecond(t) == t
  {
  }

  /** A minute without an expiry. Otherwise the whole seconds that are left until the expiry, up to the
      rounding of half a second, but at least one second and at most a minute. */
  lemma CacheTtlRange(row: KeyRow, now: int)
    ensures 1 <= CacheTtl(row, now) <= 60
    ensures row.expiresAt.None? ==> CacheTtl(row, now) == 60
    ensures row.expiresAt.Some? ==>
              && (CacheTtl(row, now) > 1 ==> now + CacheTtl(row, now) * 1000 <= row.expiresAt.value + 500)
              && (CacheTtl(row, now) < 60 ==> now + (CacheTtl(row, now) + 1) * 1000 > row.expiresAt.value - 500)
    ensures row.expiresAt.Some? && row.expiresAt.value % 1000 == 0 && row.expiresAt.value >= now ==>
              CacheTtl(row, now) == Max(1, Min(60, (row.expiresAt.value - now) / 1000))
  {
    if row.expiresAt.Some? {
      ToSecondRange(row.expiresAt.value);
    }
  }

  // ---------------------------------------------------------------- steps

  function LiveEntry(s: State): Option<Entry> {
    if s.entry.Some? && Live(s.entry.value.expires, s.now) then s.entry else None
  }

  /** HMSET writes all three fields and keeps the time to live that the key may have. */
  function Put(live: Option<Entry>, rec: Reading): Entry {
    if live.Some? then live.value.(info := InfoOf(rec.row), source := Some(rec))
    else Entry(InfoOf(rec.row), Some(rec), None, None)
  }

  /** The end of a call that has got hold of a client and its scopes. */
  function Conclude(info: ApiKeyInfo, source: Option<Reading>, renewer: Option<Reading>, now: int): Call {
    if info.clientId == "" then Rejected(MissingClientId) else Accepted(info, source, renewer, now)
  }

  function Finish(rec: Reading, now: int): Call {
    Conclude(InfoOf(rec.row), Some(rec), None, now)
  }

  function Next(s: State, e: Step): State
    requires s.log != []
    ensures Next(s, e).log != []
  {
    match e
    case Tick(d) => s.(now := s.now + d)
    case Change(row) => s.(log := s.log + [Commit(s.now, row)])
    case Seed(info, expires) => s.(entry := Some(Entry(info, None, expires, None)))
    case Evict => s.(entry := None)
    case ReadCache(v, answered) =>
      if v in s.calls then s
      else
        var live := LiveEntry(s);
        s.(calls := s.calls[v :=
          if !answered then if s.withLookup then Missed else Rejected(CacheDown)
          else if live.Some? && (s.withLookup ==> live.value.source.Some?)
          then Conclude(live.value.info, live.value.source, live.value.renewer, s.now)
          else if s.withLookup then Missed
          else Rejected(UnknownKey)])
    case AskLookup(v, answered) =>
      if v !in s.calls || !s.calls[v].Missed? then s
      else
        var row := s.log[|s.log| - 1].row;
        s.(calls := s.calls[v :=
          if !answered then Rejected(LookupDown)
          else if Usable(row, s.now) then Looked(Reading(row.value, s.now, |s.log| - 1))
          else Rejected(UnknownKey)])
    case Hmset(v, wire) =>
      if v !in s.calls || !s.calls[v].Looked? then s
      else
        var rec := s.calls[v].rec;
        var s' := s.(calls := s.calls[v := if wire.Delivered? then Stored(rec) else Finish(rec, s.now)]);
        if TakesEffect(wire) then s'.(entry := Some(Put(LiveEntry(s), rec))) else s'
    case Aim(v) =>
      if v !in s.calls || !s.calls[v].Stored? then s
      else s.(calls := s.calls[v := Timed(s.calls[v].rec, CacheTtl(s.calls[v].rec.row, s.now))])
    case Expire(v, wire) =>
      if v !in s.calls || !s.calls[v].Timed? then s
      else
        var s' := s.(calls := s.calls[v := Finish(s.calls[v].rec, s.now)]);
        if TakesEffect(wire) && LiveEntry(s).Some?
        then s'.(entry := Some(s.entry.value.(expires := Some(s.now + s.calls[v].ttl * SECOND),
                                              renewer := Some(s.calls[v].rec)))) else s'
  }

  function Run(s: State, es: seq<Step>): State
    requires s.log != []
    ensures Run(s, es).log != []
    decreases |es|
  {
    if es == [] then s else Run(Next(s, es[0]), es[1..])
  }

  lemma {:induction false} RunAppend(s: State, es: seq<Step>, fs: seq<Step>)
    requires s.log != []
    ensures Run(s, es + fs) == Run(Run(s, es), fs)
    decreases |es|
  {
    if es == [] {
      assert es + fs == fs;
    } else {
      assert (es + fs)[1..] == es[1..] + fs;
      RunAppend(Next(s, es[0]), es[1..], fs);
    }
  }

  function Init(now: int, row: Option<KeyRow>, withLookup: bool): State {
    State(withLookup, now, [Commit(now, row)], None, map[])
  }

  predicate ByCall(e: Step, v: nat) {
    (e.ReadCache? || e.AskLookup? || e.Hmset? || e.Aim? || e.Expire?) && e.v == v
  }

  /** A call's progress depends on its own steps only. */
  lemma OthersKeepCall(s: State, e: Step, v: nat)
    requires s.log != [] && !ByCall(e, v)
    ensures v in Next(s, e).calls <==> v in s.calls
    ensures v in s.calls ==> Next(s, e).calls[v] == s.calls[v]
  {
  }
}
