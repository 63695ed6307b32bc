/** Stores that are cut short: what they leave behind, and exactly when that breaks the staleness bound
    of accepted keys. */
module ApiKeyExposure {
  import opened Common
  import opened Cache
  import opened ApiKeyProtocol
  import opened ApiKeyTheorems

  // ---------------------------------------------------------------- what one store leaves

  /** HMSET takes effect and no effective EXPIRE follows it. EXPIRE is sent only after a confirmed HMSET. */
  predicate CutShort(hmset: Wire, expire: Wire) {
    TakesEffect(hmset) && !(hmset.Delivered? && TakesEffect(expire))
  }

  /** The commands of one store. */
  function StoreSteps(v: nat, hmset: Wire, expire: Wire): seq<Step> {
    if hmset.Delivered? then [Hmset(v, hmset)] + ([Aim(v)] + ([Expire(v, expire)] + [])) else [Hmset(v, hmset)] + []
  }

  lemma RunStep(s: State, e: Step, es: seq<Step>, s1: State)
    requires s.log != [] && s1.log != [] && Next(s, e) == s1
    ensures Run(s, [e] + es) == Run(s1, es)
  {
    assert ([e] + es)[1..] == es;
  }

  lemma HmsetLeaves(s: State, v: nat, wire: Wire)
    requires s.log != [] && v in s.calls && s.calls[v].Looked?
    ensures var rec := s.calls[v].rec;
            Next(s, Hmset(v, wire)) == s.(
              calls := s.calls[v := if wire.Delivered? then Stored(rec) else Finish(rec, s.now)],
              entry := if TakesEffect(wire) then Some(Put(LiveEntry(s), rec)) else s.entry)
  {
  }

  lemma ExpireLeaves(s: State, v: nat, wire: Wire)
    requires s.log != [] && v in s.calls && s.calls[v].Timed? && LiveEntry(s).Some?
    ensures var c := s.calls[v];
            Next(s, Expire(v, wire)) == s.(
              calls := s.calls[v := Finish(c.rec, s.now)],
              entry := if TakesEffect(wire)
                       then Some(s.entry.value.(expires := Some(s.now + c.ttl * SECOND), renewer := Some(c.rec)))
                       else s.entry)
  {
  }

  /** What a store leaves of the entry that was there: the same, one that lives as long as the record
      allows, or - cut short - the new fields with whatever time to live the key had. */
  function LeftBehind(s: State, rec: Reading, hmset: Wire, expire: Wire): Option<Entry> {
    var put := Put(LiveEntry(s), rec);
    if !TakesEffect(hmset) then s.entry
    else if CutShort(hmset, expire) then Some(put)
    else Some(put.(expires := Some(s.now + CacheTtl(rec.row, s.now) * SECOND), renewer := Some(rec)))
  }

  /** An undisturbed store, command by command. */
  lemma StoreLeaves(s: State, v: nat, hmset: Wire, expire: Wire) returns (s': State)
    requires s.log != [] && v in s.calls && s.calls[v].Looked?
    ensures s' == Run(s, StoreSteps(v, hmset, expire))
    ensures s'.entry == LeftBehind(s, s.calls[v].rec, hmset, expire)
    ensures s'.log == s.log && s'.now == s.now && s'.withLookup == s.withLookup
    ensures s'.calls == s.calls[v := Finish(s.calls[v].rec, s.now)]
  {
    var rec := s.calls[v].rec;
    var s1 := Next(s, Hmset(v, hmset));
    HmsetLeaves(s, v, hmset);
    if hmset.Delivered? {
      var s2 := s1.(calls := s.calls[v := Timed(rec, CacheTtl(rec.row, s.now))]);
      assert Next(s1, Aim(v)) == s2;
      s' := Next(s2, Expire(v, expire));
      ExpireLeaves(s2, v, expire);
      RunStep(s, Hmset(v, hmset), [Aim(v)] + ([Expire(v, expire)] + []), s1);
      RunStep(s1, Aim(v), [Expire(v, expire)] + [], s2);
      RunStep(s2, Expire(v, expire), [], s');
    } else {
      s' := s1;
      RunStep(s, Hmset(v, hmset), [], s1);
    }
  }

  ghost predicate NeverExpires(s: State) {
    LiveEntry(s).Some? && s.entry.value.expires.None?
  }

  /** A store leaves an entry without a time to live exactly if it is cut short on a key that has none:
      a missing key, or one that was seeded or left without a time to live. */
  lemma StoreLeavesImmortalEntryIff(s: State, v: nat, hmset: Wire, expire: Wire)
    requires s.log != [] && v in s.calls && s.calls[v].Looked?
    ensures NeverExpires(Run(s, StoreSteps(v, hmset, expire))) <==>
            if TakesEffect(hmset) then CutShort(hmset, expire) && (LiveEntry(s).None? || NeverExpires(s))
            else NeverExpires(s)
  {
    var s' := StoreLeaves(s, v, hmset, expire);
  }

  // ---------------------------------------------------------------- exposed states

  ghost predicate AnyPending(s: State) {
    exists v :: v in s.calls && Pending(s.calls[v])
  }

  /** An acceptance at instant t would still meet the bounds, by what is known now. */
  ghost predicate GoodUntil(s: State, info: ApiKeyInfo, t: int, d: nat) {
    && (exists u, r :: u <= s.now && t <= u + CACHE_TTL * SECOND + d && UsableAt(s.log, u, r))
    && (exists u, r :: u <= s.now && t <= u + CACHE_TTL * SECOND + 2 * d && UsableAt(s.log, u, r) && info == InfoOf(r))
  }

  /** The cache holds a client's entry written from the table. */
  ghost predicate Serves(s: State) {
    LiveEntry(s).Some? && s.entry.value.source.Some? && s.entry.value.info.clientId != ""
  }

  /** Such an entry, with no EXPIRE to come, has no time to live or one that ends too late. */
  ghost predicate Exposed(s: State, d: nat) {
    && Serves(s)
    && !AnyPending(s)
    && (s.entry.value.expires.Some? ==> !GoodUntil(s, s.entry.value.info, s.entry.value.expires.value, d))
  }

  ghost predicate SourceNear(s: State, d: nat) {
    s.entry.Some? && s.entry.value.source.Some? ==>
      forall v | v in s.calls && Pending(s.calls[v]) :: s.calls[v].rec.readAt <= s.entry.value.source.value.readAt + d
  }

  ghost predicate AnswerOk(s: State, c: Call, d: nat) {
    && (c.Timed? ==> 1 <= c.ttl <= CACHE_TTL)
    && (c.Accepted? ==> c.at <= s.now && (s.withLookup ==> WasUsable(s.log, c.at, c.info, d)))
  }

  /** What every run in time keeps as long as it is not exposed. */
  ghost predicate Steady(s: State, d: nat) {
    && Truthful(s) && SourceNear(s, d)
    && forall v | v in s.calls :: AnswerOk(s, s.calls[v], d)
  }

  lemma UsableStays(s: State, e: Step, t: int, r: KeyRow)
    requires LogOrdered(s) && t <= s.now && UsableAt(s.log, t, r)
    ensures UsableAt(Next(s, e).log, t, r)
  {
    var c :| UsableDuring(s.log, c, t, r);
    ReadingStaysTrue(s, e, Reading(r, t, c));
    assert UsableDuring(Next(s, e).log, c, t, r);
  }

  lemma WasUsableStays(s: State, e: Step, at: int, info: ApiKeyInfo, d: nat)
    requires LogOrdered(s) && at <= s.now && WasUsable(s.log, at, info, d)
    ensures WasUsable(Next(s, e).log, at, info, d)
  {
    var t, r :| at - (60_000 + d) <= t <= at && UsableAt(s.log, t, r);
    UsableStays(s, e, t, r);
    var t', r' :| at - (60_000 + 2 * d) <= t' <= at && UsableAt(s.log, t', r') && info.clientId == r'.clientId && info.scopes == r'.scopes;
    UsableStays(s, e, t', r');
  }

  lemma ClockRuns(s: State, e: Step)
    requires s.log != []
    ensures s.now <= Next(s, e).now
  {
  }

  lemma GoodUntilStays(s: State, e: Step, info: ApiKeyInfo, t: int, d: nat)
    requires LogOrdered(s) && GoodUntil(s, info, t, d)
    ensures GoodUntil(Next(s, e), info, t, d)
  {
    ClockRuns(s, e);
    var u, r :| u <= s.now && t <= u + CACHE_TTL * SECOND + d && UsableAt(s.log, u, r);
    UsableStays(s, e, u, r);
    var u', r' :| u' <= s.now && t <= u' + CACHE_TTL * SECOND + 2 * d && UsableAt(s.log, u', r') && info == InfoOf(r');
    UsableStays(s, e, u', r');
  }

  lemma ReadingIsUsable(s: State, rec: Reading)
    requires TrueReading(s, rec)
    ensures UsableAt(s.log, rec.readAt, rec.row)
  {
  }

  /** Two recent readings, the second of the right client, meet the bounds. */
  lemma RecentReadings(s: State, any: Reading, own: Reading, t: int, d: nat)
    requires TrueReading(s, any) && TrueReading(s, own)
    requires t <= any.readAt + CACHE_TTL * SECOND + d && t <= own.readAt + CACHE_TTL * SECOND + 2 * d
    ensures GoodUntil(s, InfoOf(own.row), t, d)
  {
    ReadingIsUsable(s, any);
    ReadingIsUsable(s, own);
  }

  lemma GoodNow(s: State, info: ApiKeyInfo, d: nat)
    requires GoodUntil(s, info, s.now, d)
    ensures WasUsable(s.log, s.now, info, d)
  {
  }

  lemma EarlierIsGood(s: State, info: ApiKeyInfo, t: int, t': int, d: nat)
    requires GoodUntil(s, info, t, d) && t' <= t
    ensures GoodUntil(s, info, t', d)
  {
    var u, r :| u <= s.now && t <= u + CACHE_TTL * SECOND + d && UsableAt(s.log, u, r);
    assert t' <= u + CACHE_TTL * SECOND + d;
    var u', r' :| u' <= s.now && t <= u' + CACHE_TTL * SECOND + 2 * d && UsableAt(s.log, u', r') && info == InfoOf(r');
    assert t' <= u' + CACHE_TTL * SECOND + 2 * d;
  }

  /** A hit in a state that is not exposed. */
  lemma HitIsGood(s: State, d: nat)
    requires Steady(s, d) && InTime(s, d) && !Exposed(s, d) && Serves(s)
    ensures WasUsable(s.log, s.now, s.entry.value.info, d)
  {
    var e := s.entry.value;
    if AnyPending(s) {
      var w :| w in s.calls && Pending(s.calls[w]);
      assert InProgress(s.calls[w]) && TrueCall(s, s.calls[w]);
      RecentReadings(s, s.calls[w].rec, e.source.value, s.now, d);
    } else {
      EarlierIsGood(s, e.info, e.expires.value, s.now, d);
    }
    GoodNow(s, e.info, d);
  }

  lemma FinishIsGood(s: State, v: nat, d: nat)
    requires Steady(s, d) && InTime(s, d) && v in s.calls && InProgress(s.calls[v])
    ensures WasUsable(s.log, s.now, InfoOf(s.calls[v].rec.row), d)
  {
    var rec := s.calls[v].rec;
    assert TrueCall(s, s.calls[v]);
    RecentReadings(s, rec, rec, s.now, d);
    GoodNow(s, InfoOf(rec.row), d);
  }

  lemma NewAnswer(s: State, e: Step, v: nat)
    requires s.log != [] && ByCall(e, v) && v in Next(s, e).calls
    ensures var c' := Next(s, e).calls[v];
            && (c'.Timed? ==> 1 <= c'.ttl <= CACHE_TTL || (v in s.calls && c' == s.calls[v]))
            && (c'.Accepted? ==>
                  || (v in s.calls && c' == s.calls[v])
                  || (v in s.calls && InProgress(s.calls[v]) && c' == Finish(s.calls[v].rec, s.now))
                  || (v !in s.calls && LiveEntry(s).Some? && c'.at == s.now && c'.info == s.entry.value.info
                      && c'.info.clientId != "" && (s.withLookup ==> s.entry.value.source.Some?)))
  {
    if v in s.calls && s.calls[v].Stored? {
      CacheTtlRange(s.calls[v].rec.row, s.now);
    }
  }

  lemma AnswerStaysOk(s: State, e: Step, v: nat, d: nat)
    requires Steady(s, d) && InTime(s, d) && !Exposed(s, d)
    ensures v in Next(s, e).calls ==> AnswerOk(Next(s, e), Next(s, e).calls[v], d)
  {
    var s' := Next(s, e);
    ClockRuns(s, e);
    SameLookup(s, e);
    if v in s'.calls {
      if ByCall(e, v) {
        NewAnswer(s, e, v);
        OwnStepKeepsTable(s, e, v);
        if v in s.calls {
          assert AnswerOk(s, s.calls[v], d);
          if InProgress(s.calls[v]) {
            FinishIsGood(s, v, d);
          }
        } else if Serves(s) {
          HitIsGood(s, d);
        }
      } else {
        OthersKeepCall(s, e, v);
        assert AnswerOk(s, s.calls[v], d);
        if s.calls[v].Accepted? && s.withLookup {
          WasUsableStays(s, e, s.calls[v].at, s.calls[v].info, d);
        }
      }
    }
  }

  lemma SourceStaysNear(s: State, e: Step, d: nat)
    requires Steady(s, d) && InTime(s, d)
    ensures SourceNear(Next(s, e), d)
  {
    var s' := Next(s, e);
    if s'.entry.Some? && s'.entry.value.source.Some? {
      forall v | v in s'.calls && Pending(s'.calls[v])
        ensures s'.calls[v].rec.readAt <= s'.entry.value.source.value.readAt + d
      {
        PendingWasInProgress(s, e, v);
        assert TrueCall(s, s.calls[v]);
        SourceComesFrom(s, e);
        if e.Hmset? && e.v in s.calls && s.calls[e.v].Looked? {
          assert InProgress(s.calls[e.v]);
        }
      }
    }
  }

  lemma NextStaysSteady(s: State, e: Step, d: nat)
    requires Steady(s, d) && InTime(s, d) && !Exposed(s, d)
    ensures Steady(Next(s, e), d)
  {
    NextKeepsTruthful(s, e);
    SourceStaysNear(s, e, d);
    forall v | v in Next(s, e).calls
      ensures AnswerOk(Next(s, e), Next(s, e).calls[v], d)
    {
      AnswerStaysOk(s, e, v, d);
    }
  }

  // ---------------------------------------------------------------- no exposed state, no late acceptance

  /** In time, and never exposed before its end. Stores may be cut short. */
  ghost predicate Unexposed(s: State, es: seq<Step>, d: nat)
    requires s.log != []
    decreases |es|
  {
    InTime(s, d) && (es != [] ==> !Exposed(s, d) && Unexposed(Next(s, es[0]), es[1..], d))
  }

  lemma {:induction false} RunStaysSteady(s: State, es: seq<Step>, d: nat)
    requires Steady(s, d) && Unexposed(s, es, d)
    ensures Steady(Run(s, es), d) && InTime(Run(s, es), d)
    decreases |es|
  {
    if es != [] {
      NextStaysSteady(s, es[0], d);
      RunStaysSteady(Next(s, es[0]), es[1..], d);
    }
  }

  /** Whatever stores are cut short: as long as no state is exposed, accepted keys meet the bounds. */
  lemma UnexposedRunsAreSafe(now: int, row: Option<KeyRow>, es: seq<Step>, d: nat, v: nat)
    requires Unexposed(Init(now, row, true), es, d)
    requires var s := Run(Init(now, row, true), es); v in s.calls && s.calls[v].Accepted?
    ensures var s := Run(Init(now, row, true), es);
            WasUsable(s.log, s.calls[v].at, s.calls[v].info, d)
  {
    RunStaysSteady(Init(now, row, true), es, d);
    RunKeepsLookup(Init(now, row, true), es);
    var s := Run(Init(now, row, true), es);
    assert AnswerOk(s, s.calls[v], d);
  }

  // ---------------------------------------------------------------- exactly the exposed states break the bound

  /** A store that is not cut short exposes nothing. */
  lemma WholeExposesNothing(s: State, e: Step, d: nat)
    requires Steady(s, d) && InTime(s, d) && !Exposed(s, d) && Whole(e)
    ensures !Exposed(Next(s, e), d)
  {
    var s' := Next(s, e);
    if Serves(s') && !AnyPending(s') {
      NothingNewExposed(s, e, d);
    }
  }

  lemma PendingStays(s: State, e: Step)
    requires s.log != [] && AnyPending(s)
    requires e.Expire? && e.v in s.calls ==> !s.calls[e.v].Timed?
    ensures AnyPending(Next(s, e))
  {
    var w :| w in s.calls && Pending(s.calls[w]);
    assert w in Next(s, e).calls && Pending(Next(s, e).calls[w]);
  }

  lemma ExpireIsGood(s: State, v: nat, d: nat)
    requires Steady(s, d) && InTime(s, d) && v in s.calls && s.calls[v].Timed?
    requires s.entry.Some? && s.entry.value.source.Some?
    ensures GoodUntil(s, s.entry.value.info, s.now + s.calls[v].ttl * SECOND, d)
  {
    var c, source := s.calls[v], s.entry.value.source.value;
    assert AnswerOk(s, c, d) && TrueCall(s, c) && InProgress(c) && Pending(c);
    RecentReadings(s, c.rec, source, s.now + c.ttl * SECOND, d);
  }

  lemma SameEntryStaysGood(s: State, e: Step, d: nat)
    requires Steady(s, d) && !Exposed(s, d) && !AnyPending(s)
    requires Next(s, e).entry == s.entry && Serves(Next(s, e))
    ensures s.entry.value.expires.Some? && GoodUntil(Next(s, e), s.entry.value.info, s.entry.value.expires.value, d)
  {
    ClockRuns(s, e);
    GoodUntilStays(s, e, s.entry.value.info, s.entry.value.expires.value, d);
  }

  lemma NothingNewExposed(s: State, e: Step, d: nat)
    requires Steady(s, d) && InTime(s, d) && !Exposed(s, d) && Whole(e)
    requires Serves(Next(s, e)) && !AnyPending(Next(s, e))
    ensures !Exposed(Next(s, e), d)
  {
    var s' := Next(s, e);
    if e.Expire? && e.v in s.calls && s.calls[e.v].Timed? {
      ExpireLeft(s, e.v, e.wire);
      if LiveEntry(s).Some? {
        ExpireIsGood(s, e.v, d);
        GoodUntilStays(s, e, s.entry.value.info, s'.entry.value.expires.value, d);
      }
    } else {
      if AnyPending(s) {
        PendingStays(s, e);
      }
      EntryKept(s, e);
      SameEntryStaysGood(s, e, d);
    }
  }

  lemma ExpireLeft(s: State, v: nat, wire: Wire)
    requires s.log != [] && v in s.calls && s.calls[v].Timed? && LiveEntry(Next(s, Expire(v, wire))).Some?
    requires TakesEffect(wire)
    ensures LiveEntry(s).Some?
    ensures Next(s, Expire(v, wire)).entry ==
            Some(s.entry.value.(expires := Some(s.now + s.calls[v].ttl * SECOND), renewer := Some(s.calls[v].rec)))
  {
  }

  /** A whole step after which no EXPIRE is to come leaves an entry written from the table alone. */
  lemma EntryKept(s: State, e: Step)
    requires s.log != [] && Whole(e) && !AnyPending(Next(s, e))
    requires e.Expire? && e.v in s.calls ==> !s.calls[e.v].Timed?
    requires Next(s, e).entry.Some? && Next(s, e).entry.value.source.Some?
    ensures Next(s, e).entry == s.entry
  {
    assert e.Hmset? && e.v in s.calls && s.calls[e.v].Looked? && e.wire.Delivered? ==>
        e.v in Next(s, e).calls && Pending(Next(s, e).calls[e.v]);
  }

  lemma {:induction false} OrderlyStaysUnexposed(s: State, es: seq<Step>, d: nat)
    requires Steady(s, d) && !Exposed(s, d) && Orderly(s, es, d)
    ensures Unexposed(s, es, d)
    decreases |es|
  {
    if es != [] {
      WholeExposesNothing(s, es[0], d);
      NextStaysSteady(s, es[0], d);
      OrderlyStaysUnexposed(Next(s, es[0]), es[1..], d);
    }
  }

  /** Some call was accepted in breach of the bounds. */
  ghost predicate Breach(s: State, d: nat) {
    exists v :: v in s.calls && s.calls[v].Accepted? && !WasUsable(s.log, s.calls[v].at, s.calls[v].info, d)
  }

  lemma SteadyIsNoBreach(s: State, d: nat)
    requires Steady(s, d) && s.withLookup
    ensures !Breach(s, d)
  {
    forall v | v in s.calls && s.calls[v].Accepted?
      ensures WasUsable(s.log, s.calls[v].at, s.calls[v].info, d)
    {
      assert AnswerOk(s, s.calls[v], d);
    }
  }

  // ---------------------------------------------------------------- from an exposed state to a breach

  /** No call is on its way from its lookup to its answer. */
  ghost predicate Quiet(s: State) {
    forall v | v in s.calls :: !InProgress(s.calls[v])
  }

  /** The row is gone from now on, so every instant at which it was usable is past. */
  lemma RevokedNow(s: State, info: ApiKeyInfo, at: int, d: nat)
    requires LogOrdered(s) && at >= s.now
    requires WasUsable(s.log + [Commit(s.now, None)], at, info, d)
    ensures GoodUntil(s, info, at, d)
  {
    var log := s.log + [Commit(s.now, None)];
    var t, r :| at - (60_000 + d) <= t <= at && UsableAt(log, t, r);
    UsableBefore(s, t, r);
    var t', r' :| at - (60_000 + 2 * d) <= t' <= at && UsableAt(log, t', r') && info.clientId == r'.clientId && info.scopes == r'.scopes;
    UsableBefore(s, t', r');
  }

  lemma UsableBefore(s: State, t: int, r: KeyRow)
    requires LogOrdered(s) && UsableAt(s.log + [Commit(s.now, None)], t, r)
    ensures t <= s.now && UsableAt(s.log, t, r)
  {
    var log := s.log + [Commit(s.now, None)];
    var c: nat :| UsableDuring(log, c, t, r);
    assert c < |s.log| && log[c] == s.log[c];
    if c + 1 < |s.log| {
      assert log[c + 1] == s.log[c + 1] && s.log[c + 1].at <= s.log[|s.log| - 1].at by {
        LogAscends(s, c + 1, |s.log| - 1);
      }
    }
    assert UsableDuring(s.log, c, t, r);
  }

  /** How long after a revocation the entry is still there although it should not. */
  ghost function TooLong(s: State, d: nat): nat
    requires LiveEntry(s).Some?
  {
    if s.entry.value.expires.Some? then s.entry.value.expires.value - s.now else CACHE_TTL * SECOND + 2 * d + 1
  }

  lemma ExposedIsTooLong(s: State, d: nat)
    requires LogOrdered(s) && Exposed(s, d)
    ensures !GoodUntil(s, s.entry.value.info, s.now + TooLong(s, d), d)
  {
  }

  /** Revoke the key, wait, and present it: the exposed entry is accepted too late. */
  lemma RevokeWaitUse(s: State, d: nat) returns (es: seq<Step>)
    requires LogOrdered(s) && s.withLookup && Exposed(s, d) && Quiet(s)
    ensures Orderly(s, es, d) && Breach(Run(s, es), d)
  {
    var v := FreshKey(s.calls);
    var x := TooLong(s, d);
    var e := s.entry.value;
    var s1 := s.(log := s.log + [Commit(s.now, None)]);
    var s2 := s1.(now := s.now + x);
    var s3 := s2.(calls := s.calls[v := Accepted(e.info, e.source, e.renewer, s.now + x)]);
    es := [Change(None)] + ([Tick(x)] + ([ReadCache(v, true)] + []));
    assert Next(s, Change(None)) == s1 && Next(s1, Tick(x)) == s2 && Next(s2, ReadCache(v, true)) == s3;
    RunStep(s, Change(None), [Tick(x)] + ([ReadCache(v, true)] + []), s1);
    RunStep(s1, Tick(x), [ReadCache(v, true)] + [], s2);
    RunStep(s2, ReadCache(v, true), [], s3);
    OrderlyStep(s3, [], d);
    OrderlyCons(s2, ReadCache(v, true), [], s3, d);
    OrderlyCons(s1, Tick(x), [ReadCache(v, true)] + [], s2, d);
    OrderlyCons(s, Change(None), [Tick(x)] + ([ReadCache(v, true)] + []), s1, d);
    ExposedIsTooLong(s, d);
    if WasUsable(s3.log, s.now + x, e.info, d) {
      RevokedNow(s, e.info, s.now + x, d);
    }
    assert s3.calls[v].Accepted?;
  }

  ghost function InFlight(s: State): set<nat> {
    set v | v in s.calls && InProgress(s.calls[v])
  }

  /** The calls still on their way can fail to store and answer; the entry stays as it is. */
  lemma {:induction false} Retire(s: State, d: nat) returns (es: seq<Step>)
    requires s.log != [] && InTime(s, d) && !AnyPending(s)
    ensures Orderly(s, es, d) && Quiet(Run(s, es))
    ensures var s' := Run(s, es);
            s'.entry == s.entry && s'.log == s.log && s'.now == s.now && s'.withLookup == s.withLookup && !AnyPending(s')
    decreases |InFlight(s)|
  {
    if InFlight(s) == {} {
      es := [];
      assert Quiet(s) by {
        assert forall v | v in s.calls && InProgress(s.calls[v]) :: v in InFlight(s);
      }
    } else {
      var v :| v in InFlight(s);
      var s1 := Next(s, Hmset(v, Unsent));
      HmsetLeaves(s, v, Unsent);
      assert InFlight(s1) == InFlight(s) - {v};
      var rest := Retire(s1, d);
      es := [Hmset(v, Unsent)] + rest;
      RunStep(s, Hmset(v, Unsent), rest, s1);
      OrderlyCons(s, Hmset(v, Unsent), rest, s1, d);
    }
  }

  lemma {:induction false} OrderlyAppend(s: State, es: seq<Step>, fs: seq<Step>, d: nat)
    requires s.log != [] && Orderly(s, es, d) && Orderly(Run(s, es), fs, d)
    ensures Orderly(s, es + fs, d)
    decreases |es|
  {
    if es == [] {
      assert es + fs == fs;
    } else {
      assert (es + fs)[1..] == es[1..] + fs && (es + fs)[0] == es[0];
      OrderlyAppend(Next(s, es[0]), es[1..], fs, d);
    }
  }

  lemma ExposedLeadsToBreach(s: State, d: nat) returns (es: seq<Step>)
    requires LogOrdered(s) && InTime(s, d) && s.withLookup && Exposed(s, d)
    ensures Orderly(s, es, d) && Breach(Run(s, es), d)
  {
    var first := Retire(s, d);
    var s' := Run(s, first);
    StillExposed(s, s', d);
    var more := RevokeWaitUse(s', d);
    RunAppend(s, first, more);
    OrderlyAppend(s, first, more, d);
    es := first + more;
  }

  lemma StillExposed(s: State, s': State, d: nat)
    requires LogOrdered(s) && Exposed(s, d) && !AnyPending(s')
    requires s'.entry == s.entry && s'.log == s.log && s'.now == s.now
    ensures LogOrdered(s') && Exposed(s', d)
  {
    if s.entry.value.expires.Some? {
      SameGood(s, s', s.entry.value.info, s.entry.value.expires.value, d);
    }
  }

  lemma NoBreachUnlessExposed(s: State, es: seq<Step>, d: nat)
    requires Steady(s, d) && !Exposed(s, d) && s.withLookup && Orderly(s, es, d)
    ensures !Breach(Run(s, es), d)
  {
    OrderlyStaysUnexposed(s, es, d);
    RunStaysSteady(s, es, d);
    RunKeepsLookup(s, es);
    SteadyIsNoBreach(Run(s, es), d);
  }

  ghost predicate LeadsToBreach(s: State, es: seq<Step>, d: nat)
    requires s.log != []
  {
    Orderly(s, es, d) && Breach(Run(s, es), d)
  }

  /** From a state reached without exposure, some continuation in time whose own stores are all whole
      accepts a key in breach of the bounds if and only if the state is exposed. */
  lemma BreachFollowsIffExposed(s: State, d: nat)
    requires Steady(s, d) && InTime(s, d) && s.withLookup
    ensures Exposed(s, d) <==> exists es :: LeadsToBreach(s, es, d)
  {
    if Exposed(s, d) {
      var es := ExposedLeadsToBreach(s, d);
      assert LeadsToBreach(s, es, d);
    } else {
      forall es
        ensures !LeadsToBreach(s, es, d)
      {
        if Orderly(s, es, d) {
          NoBreachUnlessExposed(s, es, d);
        }
      }
    }
  }

  lemma OrderlyStep(s: State, es: seq<Step>, d: nat)
    requires s.log != [] && Quiet(s) && es == []
    ensures Orderly(s, es, d)
  {
  }

  lemma OrderlyCons(s: State, e: Step, es: seq<Step>, s1: State, d: nat)
    requires s.log != [] && s1.log != [] && InTime(s, d) && Whole(e) && Next(s, e) == s1 && Orderly(s1, es, d)
    ensures Orderly(s, [e] + es, d)
  {
    assert ([e] + es)[1..] == es;
  }

  // ---------------------------------------------------------------- which commands expose

  /** The time to live a key has, if any, does not end in time for these fields. */
  ghost predicate TtlTooLong(s: State, info: ApiKeyInfo, live: Option<Entry>, d: nat) {
    live.None? || live.value.expires.None? || !GoodUntil(s, info, live.value.expires.value, d)
  }

  /** HMSET takes effect unanswered, nobody else will send an EXPIRE, and the key has no entry yet or one
      without a suitable time to live. */
  ghost predicate LosesHmset(s: State, e: Step, d: nat) {
    && e.Hmset? && e.v in s.calls && s.calls[e.v].Looked? && e.wire.LostReply?
    && !AnyPending(s) && s.calls[e.v].rec.row.clientId != ""
    && TtlTooLong(s, InfoOf(s.calls[e.v].rec.row), LiveEntry(s), d)
  }

  /** The last EXPIRE to come does not take effect, on an entry without a suitable time to live. */
  ghost predicate LosesExpire(s: State, e: Step, d: nat) {
    && e.Expire? && e.v in s.calls && s.calls[e.v].Timed? && !TakesEffect(e.wire)
    && (forall w | w in s.calls && Pending(s.calls[w]) :: w == e.v)
    && Serves(s) && TtlTooLong(s, s.entry.value.info, LiveEntry(s), d)
  }

  lemma SameGood(s: State, s': State, info: ApiKeyInfo, t: int, d: nat)
    requires s'.log == s.log && s'.now == s.now
    ensures GoodUntil(s', info, t, d) <==> GoodUntil(s, info, t, d)
  {
  }

  lemma LostHmsetExposes(s: State, v: nat, d: nat)
    requires s.log != [] && v in s.calls && s.calls[v].Looked?
    ensures Exposed(Next(s, Hmset(v, LostReply)), d) <==> LosesHmset(s, Hmset(v, LostReply), d)
  {
    var s' := Next(s, Hmset(v, LostReply));
    HmsetLeaves(s, v, LostReply);
    assert forall w | w != v && w in s.calls :: s'.calls[w] == s.calls[w];
    if s'.entry.value.expires.Some? {
      SameGood(s, s', s'.entry.value.info, s'.entry.value.expires.value, d);
    }
  }

  lemma LostExpireExposes(s: State, e: Step, d: nat)
    requires s.log != [] && e.Expire? && e.v in s.calls && s.calls[e.v].Timed? && !TakesEffect(e.wire)
    ensures Exposed(Next(s, e), d) <==> LosesExpire(s, e, d)
  {
    var s' := Next(s, e);
    assert s'.entry == s.entry && s'.log == s.log && s'.now == s.now;
    assert s'.calls == s.calls[e.v := Finish(s.calls[e.v].rec, s.now)];
    assert AnyPending(s') <==> exists w :: w in s.calls && Pending(s.calls[w]) && w != e.v by {
      forall w | w in s.calls && Pending(s.calls[w]) && w != e.v
        ensures AnyPending(s')
      {
        assert w in s'.calls && Pending(s'.calls[w]);
      }
    }
    if s.entry.Some? && s.entry.value.expires.Some? {
      SameGood(s, s', s.entry.value.info, s.entry.value.expires.value, d);
    }
  }

  /** Which step of a run first exposes the key: exactly a cut-short store on a key whose time to live
      does not end in time anyway, with no other EXPIRE to come. */
  lemma ExposingStepIff(s: State, e: Step, d: nat)
    requires Steady(s, d) && InTime(s, d) && !Exposed(s, d)
    ensures Exposed(Next(s, e), d) <==> LosesHmset(s, e, d) || LosesExpire(s, e, d)
  {
    if Whole(e) {
      WholeExposesNothing(s, e, d);
    } else if e.Hmset? && e.v in s.calls && s.calls[e.v].Looked? {
      LostHmsetExposes(s, e.v, d);
    } else if e.Expire? && e.v in s.calls && s.calls[e.v].Timed? {
      LostExpireExposes(s, e, d);
    } else {
      assert Next(s, e) == s;
    }
  }

  /** A lost HMSET is harmless on a key that a client's entry from the table already serves. */
  lemma OwnEntryShields(s: State, v: nat, wire: Wire, d: nat)
    requires Steady(s, d) && InTime(s, d) && !Exposed(s, d) && Serves(s)
    ensures !Exposed(Next(s, Hmset(v, wire)), d)
  {
    ExposingStepIff(s, Hmset(v, wire), d);
    if v in s.calls && s.calls[v].Looked? && !AnyPending(s) {
      var rec := s.calls[v].rec;
      assert TrueCall(s, s.calls[v]) && InProgress(s.calls[v]);
      RenewedFieldsAreGood(s, rec, s.entry.value.info, s.entry.value.expires.value, d);
    }
  }

  lemma RenewedFieldsAreGood(s: State, rec: Reading, info: ApiKeyInfo, t: int, d: nat)
    requires TrueReading(s, rec) && s.now <= rec.readAt + d && GoodUntil(s, info, t, d)
    ensures GoodUntil(s, InfoOf(rec.row), t, d)
  {
    ReadingIsUsable(s, rec);
    var u, r :| u <= s.now && t <= u + CACHE_TTL * SECOND + d && UsableAt(s.log, u, r);
    assert t <= rec.readAt + CACHE_TTL * SECOND + 2 * d;
  }

  // ---------------------------------------------------------------- which outcomes of the two commands break the bound

  /** The step is whole, or is part of a store with exactly these two outcomes. */
  predicate OutcomeOf(e: Step, hmset: Wire, expire: Wire) {
    || Whole(e)
    || (e.Hmset? && e.wire == hmset)
    || (e.Expire? && hmset.Delivered? && e.wire == expire)
  }

  ghost predicate OnlyThese(s: State, es: seq<Step>, d: nat, hmset: Wire, expire: Wire)
    requires s.log != []
    decreases |es|
  {
    InTime(s, d) && (es != [] ==> OutcomeOf(es[0], hmset, expire) && OnlyThese(Next(s, es[0]), es[1..], d, hmset, expire))
  }

  lemma {:induction false} NotCutIsOrderly(s: State, es: seq<Step>, d: nat, hmset: Wire, expire: Wire)
    requires s.log != [] && OnlyThese(s, es, d, hmset, expire) && !CutShort(hmset, expire)
    ensures Orderly(s, es, d)
    decreases |es|
  {
    if es != [] {
      NotCutIsOrderly(Next(s, es[0]), es[1..], d, hmset, expire);
    }
  }

  lemma {:induction false} OnlyTheseAppend(s: State, es: seq<Step>, fs: seq<Step>, d: nat, hmset: Wire, expire: Wire)
    requires s.log != [] && OnlyThese(s, es, d, hmset, expire) && Orderly(Run(s, es), fs, d)
    ensures OnlyThese(s, es + fs, d, hmset, expire)
    decreases |es|
  {
    if es == [] {
      assert es + fs == fs;
      OrderlyIsOnly(s, fs, d, hmset, expire);
    } else {
      assert (es + fs)[1..] == es[1..] + fs && (es + fs)[0] == es[0];
      OnlyTheseAppend(Next(s, es[0]), es[1..], fs, d, hmset, expire);
    }
  }

  lemma {:induction false} OrderlyIsOnly(s: State, es: seq<Step>, d: nat, hmset: Wire, expire: Wire)
    requires s.log != [] && Orderly(s, es, d)
    ensures OnlyThese(s, es, d, hmset, expire)
    decreases |es|
  {
    if es != [] {
      OrderlyIsOnly(Next(s, es[0]), es[1..], d, hmset, expire);
    }
  }

  lemma OnlyCons(s: State, e: Step, es: seq<Step>, s1: State, d: nat, hmset: Wire, expire: Wire)
    requires s.log != [] && s1.log != [] && InTime(s, d) && OutcomeOf(e, hmset, expire) && Next(s, e) == s1
    requires OnlyThese(s1, es, d, hmset, expire)
    ensures OnlyThese(s, [e] + es, d, hmset, expire)
  {
    assert ([e] + es)[1..] == es;
  }

  lemma StoreIsOnly(s: State, v: nat, d: nat, hmset: Wire, expire: Wire)
    requires s.log != [] && InTime(s, d) && v in s.calls && s.calls[v].Looked?
    ensures OnlyThese(s, StoreSteps(v, hmset, expire), d, hmset, expire)
  {
    var s1 := Next(s, Hmset(v, hmset));
    HmsetLeaves(s, v, hmset);
    assert s.now <= s.calls[v].rec.readAt + d;
    assert InTime(s1, d);
    if hmset.Delivered? {
      var s2 := Next(s1, Aim(v));
      var s3 := Next(s2, Expire(v, expire));
      assert InTime(s2, d) && InTime(s3, d);
      OnlyCons(s2, Expire(v, expire), [], s3, d, hmset, expire);
      OnlyCons(s1, Aim(v), [Expire(v, expire)] + [], s2, d, hmset, expire);
      OnlyCons(s, Hmset(v, hmset), [Aim(v)] + ([Expire(v, expire)] + []), s1, d, hmset, expire);
    } else {
      OnlyCons(s, Hmset(v, hmset), [], s1, d, hmset, expire);
    }
  }

  /** A first call whose store has these outcomes. */
  function FirstCallOf(hmset: Wire, expire: Wire): seq<Step> {
    [ReadCache(0, true)] + ([AskLookup(0, true)] + StoreSteps(0, hmset, expire))
  }

  lemma FirstCallLeaves(row: KeyRow, d: nat, hmset: Wire, expire: Wire) returns (s: State)
    requires Usable(Some(row), 0)
    ensures s == Run(Init(0, Some(row), true), FirstCallOf(hmset, expire))
    ensures OnlyThese(Init(0, Some(row), true), FirstCallOf(hmset, expire), d, hmset, expire)
    ensures s.now == 0 && s.withLookup && s.log == [Commit(0, Some(row))]
    ensures s.calls == map[0 := Finish(Reading(row, 0, 0), 0)]
    ensures CutShort(hmset, expire) ==> s.entry == Some(Entry(InfoOf(row), Some(Reading(row, 0, 0)), None, None))
  {
    var s0 := Init(0, Some(row), true);
    var s1 := s0.(calls := map[0 := Missed]);
    var s2 := s0.(calls := map[0 := Looked(Reading(row, 0, 0))]);
    var store := StoreSteps(0, hmset, expire);
    assert Next(s0, ReadCache(0, true)) == s1 && Next(s1, AskLookup(0, true)) == s2;
    RunStep(s0, ReadCache(0, true), [AskLookup(0, true)] + store, s1);
    RunStep(s1, AskLookup(0, true), store, s2);
    s := StoreLeaves(s2, 0, hmset, expire);
    StoreIsOnly(s2, 0, d, hmset, expire);
    OnlyCons(s1, AskLookup(0, true), store, s2, d, hmset, expire);
    OnlyCons(s0, ReadCache(0, true), [AskLookup(0, true)] + store, s1, d, hmset, expire);
  }

  /** A run in time, all of whose stores are whole or have these two outcomes, that breaches the bounds. */
  ghost predicate BreaksWith(now: int, row: Option<KeyRow>, es: seq<Step>, d: nat, hmset: Wire, expire: Wire) {
    OnlyThese(Init(now, row, true), es, d, hmset, expire) && Breach(Run(Init(now, row, true), es), d)
  }

  /** Two outcomes of HMSET and EXPIRE can break the bounds - in some run in time all of whose other stores
      are whole - if and only if they cut the store short. */
  lemma CutShortBreaksIff(hmset: Wire, expire: Wire, d: nat)
    ensures CutShort(hmset, expire) <==>
            exists now, row, es :: BreaksWith(now, row, es, d, hmset, expire)
  {
    if CutShort(hmset, expire) {
      var row := KeyRow("client", "read", true, None);
      var s := FirstCallLeaves(row, d, hmset, expire);
      assert Exposed(s, d) && Quiet(s);
      var es := FirstCallOf(hmset, expire);
      var fs := RevokeWaitUse(s, d);
      RunAppend(Init(0, Some(row), true), es, fs);
      OnlyTheseAppend(Init(0, Some(row), true), es, fs, d, hmset, expire);
      assert BreaksWith(0, Some(row), es + fs, d, hmset, expire);
    } else {
      forall now, row, es
        ensures !BreaksWith(now, row, es, d, hmset, expire)
      {
        if OnlyThese(Init(now, row, true), es, d, hmset, expire) {
          NotCutIsOrderly(Init(now, row, true), es, d, hmset, expire);
          NoBreachUnlessExposed(Init(now, row, true), es, d);
        }
      }
    }
  }

  /** A cut-short store on a missing key leaves an entry for ever: a key revoked at once is still accepted
      after any time d. */
  lemma CutShortNeverExpires(row: KeyRow, d: nat, hmset: Wire, expire: Wire)
    requires Usable(Some(row), 0) && row.clientId != "" && CutShort(hmset, expire)
    ensures var s := Run(Init(0, Some(row), true), FirstCallOf(hmset, expire) + RevokedThenUsed(d));
            && 1 in s.calls && s.calls[1].Accepted? && s.calls[1].at == d
            && forall t, r | 0 < t <= d :: !UsableAt(s.log, t, r)
  {
    var s0 := FirstCallLeaves(row, d, hmset, expire);
    var s1 := s0.(log := [Commit(0, Some(row)), Commit(0, None)]);
    var s2 := s1.(now := d);
    var s3 := s2.(calls := s2.calls[1 := Accepted(InfoOf(row), Some(Reading(row, 0, 0)), None, d)]);
    RunStep(s0, Change(None), [Tick(d)] + ([ReadCache(1, true)] + []), s1);
    RunStep(s1, Tick(d), [ReadCache(1, true)] + [], s2);
    RunStep(s2, ReadCache(1, true), [], s3);
    RunAppend(Init(0, Some(row), true), FirstCallOf(hmset, expire), RevokedThenUsed(d));
  }

  function RevokedThenUsed(d: nat): seq<Step> {
    [Change(None)] + ([Tick(d)] + ([ReadCache(1, true)] + []))
  }
}
