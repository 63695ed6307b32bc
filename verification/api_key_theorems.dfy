/** How stale an accepted key can be. */
module ApiKeyTheorems {
  import opened Common
  import opened Cache
  import opened ApiKeyProtocol

  // ---------------------------------------------------------------- the row's history

  /** Commit c's row was the key's row at instant t. */
  ghost predicate InForce(log: seq<Commit>, c: nat, t: int) {
    && c < |log|
    && log[c].at <= t
    && (c + 1 < |log| ==> t <= log[c + 1].at)
  }

  /** At instant t commit c's row was the key's row, was active, and had not expired. */
  ghost predicate UsableDuring(log: seq<Commit>, c: nat, t: int, row: KeyRow) {
    && InForce(log, c, t) && log[c].row == Some(row)
    && row.active == true
    && (row.expiresAt == None || (row.expiresAt.Some? && row.expiresAt.value > t))
  }

  /** At instant t this was the key's row, active and not expired. */
  ghost predicate UsableAt(log: seq<Commit>, t: int, row: KeyRow) {
    exists c :: UsableDuring(log, c, t, row)
  }

  ghost predicate TrueReading(s: State, rec: Reading) {
    rec.readAt <= s.now && UsableDuring(s.log, rec.commit, rec.readAt, rec.row)
  }

  ghost predicate TrueIfAny(s: State, rec: Option<Reading>) {
    rec.Some? ==> TrueReading(s, rec.value)
  }

  ghost predicate InProgress(c: Call) {
    c.Looked? || c.Stored? || c.Timed?
  }

  /** HMSET has taken effect and EXPIRE is still to come. */
  ghost predicate Pending(c: Call) {
    c.Stored? || c.Timed?
  }

  ghost predicate TrueCall(s: State, c: Call) {
    && (InProgress(c) ==> TrueReading(s, c.rec))
    && (c.Accepted? ==> TrueIfAny(s, c.source) && TrueIfAny(s, c.renewer))
    && (c.Accepted? && s.withLookup ==> c.source.Some?)
    && (c.Accepted? && c.source.Some? ==> c.info == InfoOf(c.source.value.row))
  }

  ghost predicate LogOrdered(s: State) {
    && s.log != []
    && (forall i | 0 <= i < |s.log| - 1 :: s.log[i].at <= s.log[i + 1].at)
    && s.log[|s.log| - 1].at <= s.now
  }

  ghost predicate TrueEntry(s: State) {
    s.entry.Some? ==>
      && TrueIfAny(s, s.entry.value.source)
      && TrueIfAny(s, s.entry.value.renewer)
      && (s.entry.value.source.Some? ==> s.entry.value.info == InfoOf(s.entry.value.source.value.row))
  }

  ghost predicate Truthful(s: State) {
    && LogOrdered(s)
    && (forall v | v in s.calls :: TrueCall(s, s.calls[v]))
    && TrueEntry(s)
  }

  lemma ReadingStaysTrue(s: State, e: Step, rec: Reading)
    requires LogOrdered(s) && TrueReading(s, rec)
    ensures TrueReading(Next(s, e), rec)
  {
  }

  lemma IfAnyStaysTrue(s: State, e: Step, rec: Option<Reading>)
    requires LogOrdered(s) && TrueIfAny(s, rec)
    ensures TrueIfAny(Next(s, e), rec)
  {
    if rec.Some? {
      ReadingStaysTrue(s, e, rec.value);
    }
  }

  lemma TrueCallStaysTrue(s: State, e: Step, c: Call)
    requires LogOrdered(s) && TrueCall(s, c)
    ensures TrueCall(Next(s, e).(withLookup := s.withLookup), c)
  {
    if InProgress(c) {
      ReadingStaysTrue(s, e, c.rec);
    } else if c.Accepted? {
      IfAnyStaysTrue(s, e, c.source);
      IfAnyStaysTrue(s, e, c.renewer);
    }
  }

  lemma SameLookup(s: State, e: Step)
    requires s.log != []
    ensures Next(s, e).withLookup == s.withLookup
  {
  }

  /** A call's own step leaves the table and the clock alone. */
  lemma OwnStepKeepsTable(s: State, e: Step, v: nat)
    requires s.log != [] && ByCall(e, v)
    ensures Next(s, e).log == s.log && Next(s, e).now == s.now
  {
  }

  lemma LookupIsTrue(s: State)
    requires LogOrdered(s) && Usable(s.log[|s.log| - 1].row, s.now)
    ensures TrueReading(s, Reading(s.log[|s.log| - 1].row.value, s.now, |s.log| - 1))
  {
  }

  lemma OwnStepTrue(s: State, e: Step, v: nat)
    requires LogOrdered(s) && TrueEntry(s) && ByCall(e, v) && (v in s.calls ==> TrueCall(s, s.calls[v]))
    ensures v in Next(s, e).calls ==> TrueCall(s, Next(s, e).calls[v])
  {
    if v in s.calls {
      if Usable(s.log[|s.log| - 1].row, s.now) {
        LookupIsTrue(s);
      }
      OwnNextTrue(s, e, v, s.calls[v], Next(s, e).calls[v]);
    }
  }

  lemma OwnNextTrue(s: State, e: Step, v: nat, c: Call, c': Call)
    requires s.log != [] && v in s.calls && s.calls[v] == c && ByCall(e, v) && Next(s, e).calls[v] == c'
    ensures c' == c
            || (c'.Looked? && Usable(s.log[|s.log| - 1].row, s.now)
                && c'.rec == Reading(s.log[|s.log| - 1].row.value, s.now, |s.log| - 1))
            || c'.Rejected?
            || (InProgress(c) && (Pending(c') ==> c'.rec == c.rec)
                && (c'.Accepted? ==> c' == Finish(c.rec, s.now)) && (Pending(c') || c'.Accepted?))
  {
  }

  lemma CallStaysTrue(s: State, e: Step, v: nat)
    requires LogOrdered(s) && TrueEntry(s) && (v in s.calls ==> TrueCall(s, s.calls[v]))
    ensures v in Next(s, e).calls ==> TrueCall(Next(s, e), Next(s, e).calls[v])
  {
    SameLookup(s, e);
    if ByCall(e, v) {
      OwnStepTrue(s, e, v);
      OwnStepKeepsTable(s, e, v);
    } else {
      OthersKeepCall(s, e, v);
      if v in s.calls {
        TrueCallStaysTrue(s, e, s.calls[v]);
      }
    }
  }

  lemma StoredEntryTrue(s: State, e: Step)
    requires s.log != [] && TrueEntry(s) && (e.Hmset? || e.Expire?)
    requires e.v in s.calls && InProgress(s.calls[e.v]) ==> TrueReading(s, s.calls[e.v].rec)
    ensures TrueEntry(s.(entry := Next(s, e).entry))
  {
  }

  lemma EntryStaysTrue(s: State, e: Step)
    requires LogOrdered(s) && TrueEntry(s)
    requires (e.Hmset? || e.Expire?) && e.v in s.calls ==> TrueCall(s, s.calls[e.v])
    ensures TrueEntry(Next(s, e))
  {
    if e.Hmset? || e.Expire? {
      StoredEntryTrue(s, e);
      OwnStepKeepsTable(s, e, e.v);
    } else if s.entry.Some? {
      IfAnyStaysTrue(s, e, s.entry.value.source);
      IfAnyStaysTrue(s, e, s.entry.value.renewer);
    }
  }

  lemma LogStaysOrdered(s: State, e: Step)
    requires LogOrdered(s)
    ensures LogOrdered(Next(s, e))
  {
  }

  lemma NextKeepsTruthful(s: State, e: Step)
    requires Truthful(s)
    ensures Truthful(Next(s, e))
  {
    var s' := Next(s, e);
    LogStaysOrdered(s, e);
    EntryStaysTrue(s, e);
    forall v | v in s'.calls
      ensures TrueCall(s', s'.calls[v])
    {
      CallStaysTrue(s, e, v);
    }
  }

  // ---------------------------------------------------------------- assumptions on the run

  /** A store whose HMSET takes effect goes on to its EXPIRE, and every EXPIRE takes effect. */
  predicate Whole(e: Step) {
    && (e.Hmset? ==> !e.wire.LostReply?)
    && (e.Expire? ==> TakesEffect(e.wire))
  }

  /** No call is still storing more than d after its lookup. */
  ghost predicate InTime(s: State, d: nat) {
    forall v | v in s.calls && InProgress(s.calls[v]) :: s.now <= s.calls[v].rec.readAt + d
  }

  ghost predicate Orderly(s: State, es: seq<Step>, d: nat)
    requires s.log != []
    decreases |es|
  {
    InTime(s, d) && (es != [] ==> Whole(es[0]) && Orderly(Next(s, es[0]), es[1..], d))
  }

  // ---------------------------------------------------------------- the invariant

  /** The call that wrote the entry has yet to expire it. */
  ghost predicate WriterPending(s: State, rec: Reading) {
    exists v :: v in s.calls && Pending(s.calls[v]) && s.calls[v].rec == rec
  }

  /** The time to live that an EXPIRE gave the entry. */
  ghost predicate Renewed(expires: Option<int>, renewer: Option<Reading>, source: Reading, d: nat) {
    && expires.Some? && renewer.Some?
    && expires.value <= renewer.value.readAt + d + CACHE_TTL * SECOND
    && renewer.value.readAt <= source.readAt + d
    && WithinExpiry(renewer.value, expires.value, d)
  }

  /** Instant t is at most the one-second floor and d past the expiry that was read. */
  ghost predicate WithinExpiry(rec: Reading, t: int, d: nat) {
    rec.row.expiresAt.Some? ==> t <= rec.row.expiresAt.value + SECOND + d
  }

  ghost predicate EntryOk(s: State, d: nat) {
    s.entry.Some? && s.entry.value.source.Some? ==>
      var e, source := s.entry.value, s.entry.value.source.value;
      && (WriterPending(s, source) || !Live(e.expires, s.now) || Renewed(e.expires, e.renewer, source, d))
      && (forall v | v in s.calls && Pending(s.calls[v]) :: s.calls[v].rec.readAt <= source.readAt + d)
  }

  ghost predicate CallOk(c: Call, d: nat) {
    && (c.Timed? ==> 1 <= c.ttl <= CACHE_TTL && (c.ttl == 1 || WithinExpiry(c.rec, c.rec.readAt + c.ttl * SECOND, 0)))
    && (c.Accepted? && c.source.Some? ==>
          || c.source.value.readAt <= c.at <= c.source.value.readAt + d
          || Renewed(Some(c.at), c.renewer, c.source.value, d))
    && (c.Accepted? ==> (c.source.Some? ==> c.source.value.readAt <= c.at) && (c.renewer.Some? ==> c.renewer.value.readAt <= c.at))
  }

  ghost predicate Inv(s: State, d: nat) {
    Truthful(s) && EntryOk(s, d) && forall v | v in s.calls :: CallOk(s.calls[v], d)
  }

  lemma CallStaysOk(s: State, e: Step, d: nat, v: nat)
    requires Inv(s, d) && InTime(s, d)
    ensures v in Next(s, e).calls ==> CallOk(Next(s, e).calls[v], d)
  {
    if !ByCall(e, v) {
      OthersKeepCall(s, e, v);
    } else if v in s.calls {
      OwnStepOk(s, e, d, v);
    } else if LiveEntry(s).Some? {
      HitIsOk(s, d);
    }
  }

  lemma OwnStepOk(s: State, e: Step, d: nat, v: nat)
    requires v in s.calls && s.log != [] && CallOk(s.calls[v], d) && TrueCall(s, s.calls[v]) && ByCall(e, v)
    requires InProgress(s.calls[v]) ==> s.now <= s.calls[v].rec.readAt + d
    ensures v in Next(s, e).calls && CallOk(Next(s, e).calls[v], d)
  {
    if e.Aim? && s.calls[v].Stored? {
      CacheTtlRange(s.calls[v].rec.row, s.now);
    }
  }

  /** What a cache hit may rely on. */
  lemma HitIsOk(s: State, d: nat)
    requires Inv(s, d) && InTime(s, d) && LiveEntry(s).Some?
    ensures var live := s.entry.value;
            live.source.Some? ==>
              || live.source.value.readAt <= s.now <= live.source.value.readAt + d
              || Renewed(Some(s.now), live.renewer, live.source.value, d)
  {
    var live := s.entry.value;
    if live.source.Some? && WriterPending(s, live.source.value) {
      var w :| w in s.calls && Pending(s.calls[w]) && s.calls[w].rec == live.source.value;
      assert InProgress(s.calls[w]);
    }
  }

  lemma WriterStaysPending(s: State, e: Step, rec: Reading)
    requires s.log != [] && WriterPending(s, rec)
    requires e.Expire? && e.v in s.calls && s.calls[e.v].Timed? ==> s.calls[e.v].rec != rec
    ensures WriterPending(Next(s, e), rec)
  {
    var w :| w in s.calls && Pending(s.calls[w]) && s.calls[w].rec == rec;
    assert w in Next(s, e).calls && Pending(Next(s, e).calls[w]) && Next(s, e).calls[w].rec == rec;
  }

  /** An EXPIRE bounds the entry's age, whoever sends it. */
  lemma ExpireRenews(s: State, v: nat, d: nat)
    requires Inv(s, d) && InTime(s, d) && v in s.calls && s.calls[v].Timed?
    requires s.entry.Some? && s.entry.value.source.Some?
    ensures Renewed(Some(s.now + s.calls[v].ttl * SECOND), Some(s.calls[v].rec), s.entry.value.source.value, d)
  {
    var c := s.calls[v];
    assert CallOk(c, d) && TrueCall(s, c) && InProgress(c) && Pending(c);
    assert s.now <= c.rec.readAt + d;
  }

  /** No call that may still send its EXPIRE looked the key up long after the entry's source. */
  lemma PendingStaysBounded(s: State, e: Step, d: nat, v: nat)
    requires Inv(s, d) && InTime(s, d)
    requires Next(s, e).entry.Some? && Next(s, e).entry.value.source.Some?
    requires v in Next(s, e).calls && Pending(Next(s, e).calls[v])
    ensures Next(s, e).calls[v].rec.readAt <= Next(s, e).entry.value.source.value.readAt + d
  {
    PendingWasInProgress(s, e, v);
    assert TrueCall(s, s.calls[v]);
    SourceComesFrom(s, e);
    if e.Hmset? && e.v in s.calls && s.calls[e.v].Looked? {
      assert InProgress(s.calls[e.v]);
    }
  }

  lemma PendingWasInProgress(s: State, e: Step, v: nat)
    requires s.log != [] && v in Next(s, e).calls && Pending(Next(s, e).calls[v])
    ensures v in s.calls && InProgress(s.calls[v]) && s.calls[v].rec == Next(s, e).calls[v].rec
    ensures Pending(s.calls[v]) || (e.Hmset? && e.v == v)
  {
  }

  /** Only an HMSET gives the entry a source. */
  lemma SourceComesFrom(s: State, e: Step)
    requires s.log != [] && Next(s, e).entry.Some? && Next(s, e).entry.value.source.Some?
    ensures var source := Next(s, e).entry.value.source;
            if e.Hmset? && e.v in s.calls && s.calls[e.v].Looked? && TakesEffect(e.wire)
            then source == Some(s.calls[e.v].rec)
            else s.entry.Some? && s.entry.value.source == source
    ensures e.Hmset? && e.v in Next(s, e).calls && Pending(Next(s, e).calls[e.v]) ==>
              (e.v in s.calls && Pending(s.calls[e.v])) || TakesEffect(e.wire)
  {
  }

  lemma NextKeepsEntryOk(s: State, e: Step, d: nat)
    requires Inv(s, d) && InTime(s, d) && Whole(e)
    ensures EntryOk(Next(s, e), d)
  {
    var s' := Next(s, e);
    if s'.entry.Some? && s'.entry.value.source.Some? {
      forall v | v in s'.calls && Pending(s'.calls[v])
        ensures s'.calls[v].rec.readAt <= s'.entry.value.source.value.readAt + d
      {
        PendingStaysBounded(s, e, d, v);
      }
      var source := s'.entry.value.source.value;
      if e.Hmset? && e.v in s.calls && s.calls[e.v].Looked? && TakesEffect(e.wire) {
        assert s'.calls[e.v] == Stored(source);
      } else if e.Expire? && e.v in s.calls && s.calls[e.v].Timed? && LiveEntry(s).Some? {
        ExpireRenews(s, e.v, d);
      } else {
        assert s'.entry == s.entry;
        if Live(s.entry.value.expires, s.now) && WriterPending(s, source) {
          WriterStaysPending(s, e, source);
        }
      }
    }
  }

  lemma {:induction false} RunKeepsInv(s: State, es: seq<Step>, d: nat)
    requires Inv(s, d) && Orderly(s, es, d)
    ensures Inv(Run(s, es), d)
    decreases |es|
  {
    if es != [] {
      NextKeepsTruthful(s, es[0]);
      forall v | v in Next(s, es[0]).calls
        ensures CallOk(Next(s, es[0]).calls[v], d)
      {
        CallStaysOk(s, es[0], d, v);
      }
      NextKeepsEntryOk(s, es[0], d);
      RunKeepsInv(Next(s, es[0]), es[1..], d);
    }
  }

  // ---------------------------------------------------------------- theorems

  /** At some instant in the last 60 s + d the key was active and not expired, and at some instant in the
      last 60 s + 2d it had this client and these scopes. */
  ghost predicate WasUsable(log: seq<Commit>, at: int, info: ApiKeyInfo, d: nat) {
    && (exists t, r :: at - (60_000 + d) <= t <= at && UsableAt(log, t, r))
    && (exists t, r :: at - (60_000 + 2 * d) <= t <= at && UsableAt(log, t, r) && info.clientId == r.clientId && info.scopes == r.scopes)
  }

  lemma AcceptedInInv(s: State, d: nat, v: nat)
    requires Inv(s, d) && s.withLookup && v in s.calls && s.calls[v].Accepted?
    ensures WasUsable(s.log, s.calls[v].at, s.calls[v].info, d)
  {
    var c := s.calls[v];
    assert CallOk(c, d) && TrueCall(s, c);
    var source := c.source.value;
    assert UsableDuring(s.log, source.commit, source.readAt, source.row);
    assert UsableAt(s.log, source.readAt, source.row);
    if c.at > source.readAt + d {
      var renewer := c.renewer.value;
      assert UsableDuring(s.log, renewer.commit, renewer.readAt, renewer.row);
      assert UsableAt(s.log, renewer.readAt, renewer.row);
    }
  }

  /** With a lookup installed, in every run - Redis commands may fail, entries may be seeded by others or
      evicted - whose stores take effect wholly or not at all and end within d of their lookup: a key
      accepted at time t was active and unexpired at some instant in the last 60 s + d, and it had the
      client and the scopes returned at some instant in the last 60 s + 2d. */
  lemma AcceptedWasUsable(now: int, row: Option<KeyRow>, es: seq<Step>, d: nat, v: nat)
    requires Orderly(Init(now, row, true), es, d)
    requires var s := Run(Init(now, row, true), es); v in s.calls && s.calls[v].Accepted?
    ensures var s := Run(Init(now, row, true), es);
            WasUsable(s.log, s.calls[v].at, s.calls[v].info, d)
  {
    RunKeepsInv(Init(now, row, true), es, d);
    RunKeepsLookup(Init(now, row, true), es);
    AcceptedInInv(Run(Init(now, row, true), es), d, v);
  }

  /** A key from whose table row some commit k on is missing or inactive is not accepted later than 60 s + d
      after that commit. */
  lemma RevokedIsRefused(now: int, row: Option<KeyRow>, es: seq<Step>, d: nat, v: nat, k: nat)
    requires Orderly(Init(now, row, true), es, d)
    requires var s := Run(Init(now, row, true), es);
             && v in s.calls && s.calls[v].Accepted? && k < |s.log|
             && forall c | k <= c < |s.log| :: s.log[c].row.Some? ==> s.log[c].row.value.active == false
    ensures var s := Run(Init(now, row, true), es);
            s.calls[v].at <= s.log[k].at + 60_000 + d
  {
    var s := Run(Init(now, row, true), es);
    RunKeepsInv(Init(now, row, true), es, d);
    AcceptedWasUsable(now, row, es, d, v);
    var at := s.calls[v].at;
    var t, r :| at - (60_000 + d) <= t <= at && UsableAt(s.log, t, r);
    var c: nat :| UsableDuring(s.log, c, t, r);
    assert c < k;
    LogAscends(s, c + 1, k);
  }

  lemma {:induction false} LogAscends(s: State, i: nat, j: nat)
    requires LogOrdered(s) && i <= j < |s.log|
    ensures s.log[i].at <= s.log[j].at
    decreases j
  {
    if i < j {
      LogAscends(s, i, j - 1);
    }
  }

  lemma {:induction false} RunKeepsLookup(s: State, es: seq<Step>)
    requires s.log != []
    ensures Run(s, es).withLookup == s.withLookup
    decreases |es|
  {
    if es != [] {
      RunKeepsLookup(Next(s, es[0]), es[1..]);
    }
  }

  /** The key's expiry, if it has one, is never changed. */
  ghost predicate ExpiresAt(log: seq<Commit>, x: int) {
    forall c | 0 <= c < |log| && log[c].row.Some? :: log[c].row.value.expiresAt == Some(x)
  }

  /** In such a run a key is never accepted more than one second and d past its expiry. */
  lemma ExpiryRespected(now: int, row: Option<KeyRow>, es: seq<Step>, d: nat, v: nat, x: int)
    requires Orderly(Init(now, row, true), es, d)
    requires var s := Run(Init(now, row, true), es); v in s.calls && s.calls[v].Accepted? && ExpiresAt(s.log, x)
    ensures Run(Init(now, row, true), es).calls[v].at <= x + SECOND + d
  {
    var s := Run(Init(now, row, true), es);
    RunKeepsInv(Init(now, row, true), es, d);
    RunKeepsLookup(Init(now, row, true), es);
    var c := s.calls[v];
    assert CallOk(c, d) && TrueCall(s, c);
    assert s.log[c.source.value.commit].row == Some(c.source.value.row);
    if c.at > c.source.value.readAt + d {
      assert s.log[c.renewer.value.commit].row == Some(c.renewer.value.row);
    }
  }
}
