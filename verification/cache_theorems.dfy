/** The guarantees of the cached repository over every run of the protocol. */
module CacheTheorems {
  import opened Common
  import opened Cache
  import opened CacheProtocol
  import opened CacheSafety

  // ---------------------------------------------------------------- strict freshness

  /** The step stores a row under a version whose counter was lost after the version was read. */
  predicate StoresUnderLostCounter(s: State, e: Step) {
    && e.Install? && e.r in s.readers && s.readers[e.r].Fetched? && s.readers[e.r].token.Some?
    && TakesEffect(e.wire)
    && VersionOf(s.slot, s.now) == s.readers[e.r].token.value.version
    && !s.readers[e.r].token.value.clean
  }

  /** No store of this run is accepted under a version whose counter was lost after it was read. */
  ghost predicate Sheltered(s: State, es: seq<Step>)
    requires s.log != []
    decreases |es|
  {
    es != [] ==> !StoresUnderLostCounter(s, es[0]) && Sheltered(Next(s, es[0]), es[1..])
  }

  ghost predicate AllClean(s: State) {
    && (s.slot.body.Some? ==> s.slot.body.value.value.clean)
    && (forall r | r in s.readers && s.readers[r].Returned? :: s.readers[r].clean)
  }

  lemma NextStaysClean(s: State, e: Step)
    requires s.log != [] && AllClean(s) && !StoresUnderLostCounter(s, e)
    ensures AllClean(Next(s, e))
  {
  }

  lemma {:induction false} ShelteredStaysClean(s: State, es: seq<Step>)
    requires Inv(s) && AllClean(s) && Sheltered(s, es)
    ensures Inv(Run(s, es)) && AllClean(Run(s, es))
    decreases |es|
  {
    if es != [] {
      NextKeepsInv(s, es[0]);
      NextStaysClean(s, es[0]);
      ShelteredStaysClean(Next(s, es[0]), es[1..]);
    }
  }

  /** In every reachable state the cached row is a true reading of the table, and no commit whose
      eviction took effect is newer than it. */
  lemma CacheNeverStale(ttl: int, now: int, row: Option<Resource>, es: seq<Step>)
    requires ttl > 0 && Sheltered(Init(ttl, now, row), es)
    ensures var s := Run(Init(ttl, now, row), es);
            s.slot.body.Some? ==>
              var v := s.slot.body.value.value;
              && v.commit < |s.log|
              && s.log[v.commit].row == Some(v.row)
              && forall i | i in s.settled :: i <= v.commit
  {
    InitInv(ttl, now, row);
    ShelteredStaysClean(Init(ttl, now, row), es);
  }

  /** The commit overwrote an existing row: an update or a removal, which must be followed by an eviction. */
  predicate Overwrites(log: seq<Commit>, i: nat)
    requires i < |log|
  {
    i > 0 && log[i - 1].row.Some?
  }

  /** Every update and removal so far has had its eviction take effect. */
  ghost predicate AllSettled(s: State) {
    forall i: nat | i < |s.log| && Overwrites(s.log, i) :: i in s.settled
  }

  lemma {:induction false} OnlyFirstCommitCreates(s: State, es: seq<Step>)
    requires s.log != []
    requires forall i | 1 < i < |s.log| :: Overwrites(s.log, i)
    ensures forall i | 1 < i < |Run(s, es).log| :: Overwrites(Run(s, es).log, i)
    decreases |es|
  {
    if es != [] {
      var s' := Next(s, es[0]);
      forall i | 1 < i < |s'.log|
        ensures Overwrites(s'.log, i)
      {
        assert i < |s.log| ==> Overwrites(s.log, i);
      }
      OnlyFirstCommitCreates(s', es[1..]);
    }
  }

  /** Once every update and removal has had its eviction take effect, the cache holds nothing or
      exactly the current row. */
  lemma QuiescentCacheIsCurrent(ttl: int, now: int, row: Option<Resource>, es: seq<Step>)
    requires ttl > 0 && Sheltered(Init(ttl, now, row), es)
    requires AllSettled(Run(Init(ttl, now, row), es))
    ensures var s := Run(Init(ttl, now, row), es);
            s.slot.body.Some? ==> Some(s.slot.body.value.value.row) == Last(s.log).row
  {
    var s := Run(Init(ttl, now, row), es);
    InitInv(ttl, now, row);
    ShelteredStaysClean(Init(ttl, now, row), es);
    OnlyFirstCommitCreates(Init(ttl, now, row), es);
    if s.slot.body.Some? {
      var v := s.slot.body.value.value;
      var last: nat := |s.log| - 1;
      if Overwrites(s.log, last) {
        assert last in s.settled;
      } else {
        assert last <= 1;
        assert last == 1 ==> s.log[0].row.None?;
      }
    }
  }

  /** Every reader that started after s0 carries the evictions of s0 in its floor. */
  ghost predicate StartedAfter(s0: State, s: State) {
    && s0.settled <= s.settled
    && (forall r | r in s.readers && r !in s0.readers :: s0.settled <= s.readers[r].floor)
  }

  lemma FloorsStay(s: State, e: Step, r: nat)
    requires s.log != []
    ensures s.settled <= Next(s, e).settled
    ensures r in s.readers ==> r in Next(s, e).readers && Next(s, e).readers[r].floor == s.readers[r].floor
    ensures r !in s.readers && r in Next(s, e).readers ==> Next(s, e).readers[r].floor == s.settled
  {
  }

  lemma {:induction false} RunStartsAfter(s0: State, s: State, es: seq<Step>)
    requires s.log != [] && StartedAfter(s0, s)
    ensures StartedAfter(s0, Run(s, es))
    decreases |es|
  {
    if es != [] {
      var s' := Next(s, es[0]);
      FloorsStay(s, es[0], 0);
      forall r | r in s'.readers && r !in s0.readers
        ensures s0.settled <= s'.readers[r].floor
      {
        FloorsStay(s, es[0], r);
      }
      RunStartsAfter(s0, s', es[1..]);
    }
  }

  /** A `get` that starts after a write whose eviction took effect returns that write or a newer state
      of the row (a missing row included). */
  lemma GetSeesSettledWrites(ttl: int, now: int, row: Option<Resource>, before: seq<Step>, after: seq<Step>, r: nat, i: nat)
    requires ttl > 0 && Sheltered(Init(ttl, now, row), before + after)
    requires var s0 := Run(Init(ttl, now, row), before);
             var s := Run(s0, after);
             i in s0.settled && r !in s0.readers && r in s.readers && s.readers[r].Returned?
    ensures var s := Run(Run(Init(ttl, now, row), before), after);
            var got := s.readers[r];
            i <= got.commit < |s.log| && s.log[got.commit].row == got.found
  {
    var s0 := Run(Init(ttl, now, row), before);
    InitInv(ttl, now, row);
    ShelteredStaysClean(Init(ttl, now, row), before + after);
    RunAppend(Init(ttl, now, row), before, after);
    RunStartsAfter(s0, s0, after);
    assert ReaderOk(Run(s0, after), Run(s0, after).readers[r]);
  }

  /** A store under a current version shows its row for exactly 60 s, unless it is dropped; a hit meanwhile
      returns it and does not renew it. */
  lemma InstalledFor60Seconds(s: State, r: nat, wire: Wire, d: nat, q: nat)
    requires s.log != [] && r in s.readers && s.readers[r].Fetched? && s.readers[r].token.Some? && TakesEffect(wire)
    requires VersionOf(s.slot, s.now) == s.readers[r].token.value.version && q !in s.readers
    ensures var s1 := Next(Next(s, Install(r, wire)), Tick(d));
            var s2 := Next(s1, Lookup(q, Delivered));
            && s2.slot == s1.slot
            && q in s2.readers
            && if d <= 60_000 then s2.readers[q].Returned? && s2.readers[q].found == Some(s.readers[r].snap.row)
               else s2.readers[q].Missed?
  {
    var s1 := Next(s, Install(r, wire));
    var p := s.readers[r];
    StoreMeaning(s.slot, p.token.value.version, p.snap.(clean := p.token.value.clean), RESOURCE_TTL, s.now, s.now + d);
    assert Next(s1, Tick(d)).slot == s1.slot && Next(s1, Tick(d)).now == s.now + d;
    assert q !in Next(s1, Tick(d)).readers;
  }

  // ---------------------------------------------------------------- bounded staleness, no proviso

  /** Every store into the cache happens at most d after its row was read. */
  ghost predicate Prompt(s: State, es: seq<Step>, d: nat)
    requires s.log != []
    decreases |es|
  {
    es != [] ==>
    && (es[0].Install? && es[0].r in s.readers && s.readers[es[0].r].Fetched? ==>
          s.now <= s.readers[es[0].r].snap.readAt + d)
    && Prompt(Next(s, es[0]), es[1..], d)
  }

  /** How long ago a served value can have been read. */
  ghost function Window(d: nat): int {
    RESOURCE_TTL * SECOND + d
  }

  ghost predicate Aged(s: State, d: nat) {
    && (s.slot.body.Some? ==>
          var b := s.slot.body.value;
          b.expires.Some? && b.expires.value <= b.value.readAt + Window(d))
    && (forall r | r in s.readers && s.readers[r].Returned? :: s.readers[r].at <= s.readers[r].readAt + Window(d))
  }

  lemma {:induction false} RunKeepsAge(s: State, es: seq<Step>, d: nat)
    requires s.log != [] && Aged(s, d) && Prompt(s, es, d)
    ensures Aged(Run(s, es), d)
    decreases |es|
  {
    if es != [] {
      var s' := Next(s, es[0]);
      forall r | r in s'.readers && s'.readers[r].Returned?
        ensures s'.readers[r].at <= s'.readers[r].readAt + Window(d)
      {
      }
      RunKeepsAge(s', es[1..], d);
    }
  }

  /** The row held this value at instant t. */
  ghost predicate RowAt(log: seq<Commit>, t: int, row: Option<Resource>) {
    exists c :: ValueDuring(log, c, t, row)
  }

  ghost predicate ValueDuring(log: seq<Commit>, c: nat, t: int, row: Option<Resource>) {
    && c < |log|
    && log[c].row == row
    && log[c].at <= t
    && (c + 1 < |log| ==> t <= log[c + 1].at)
  }

  /** In every run - failed or lost evictions, crashed writers, lost counters included - what a `get`
      returns was the row's value at some instant in the last 60 s + d. */
  lemma BoundedStaleness(ttl: int, now: int, row: Option<Resource>, es: seq<Step>, d: nat, r: nat)
    requires Prompt(Init(ttl, now, row), es, d)
    requires var s := Run(Init(ttl, now, row), es); r in s.readers && s.readers[r].Returned?
    ensures var s := Run(Init(ttl, now, row), es);
            var got := s.readers[r];
            exists t :: got.at - (60_000 + d) <= t <= got.at && RowAt(s.log, t, got.found)
  {
    InitInv(ttl, now, row);
    RunKeepsInv(Init(ttl, now, row), es);
    RunKeepsAge(Init(ttl, now, row), es, d);
    var s := Run(Init(ttl, now, row), es);
    var got := s.readers[r];
    assert ReaderOk(s, got);
    assert ValueDuring(s.log, got.commit, got.readAt, got.found);
    assert RowAt(s.log, got.readAt, got.found);
  }

  // ---------------------------------------------------------------- expiry alone is harmless in time

  ghost predicate NoEviction(es: seq<Step>) {
    forall e | e in es :: !e.DropCounter?
  }

  /** Until its deadline a token is clean and the counter it relies on outlives the deadline. */
  ghost predicate Durable(s: State, t: Token) {
    s.now <= t.until ==>
      && t.clean
      && (t.version > 0 ==> s.slot.counter.Some?)
      && (VersionOf(s.slot, s.now) > 0 ==> s.slot.counter.value.expires.Some? && t.until <= s.slot.counter.value.expires.value)
  }

  ghost predicate DeadlineOk(s: State, t: Token) {
    && t.until <= s.now + s.versionTtl * SECOND
    && (t.version == 0 ==> t.until == t.takenAt + s.versionTtl * SECOND)
  }

  /** A counter is positive and its expiry is at most a full time to live away. */
  ghost predicate CounterBounded(s: State) {
    s.slot.counter.Some? ==>
      && s.slot.counter.value.n > 0
      && s.slot.counter.value.expires.Some?
      && s.slot.counter.value.expires.value <= s.now + s.versionTtl * SECOND
  }

  ghost predicate TokensDurable(s: State) {
    && CounterBounded(s)
    && (forall r | r in s.readers && HoldsToken(s.readers[r]) ::
          Durable(s, s.readers[r].token.value) && DeadlineOk(s, s.readers[r].token.value))
  }

  lemma CounterStaysBounded(s: State, e: Step)
    requires s.log != [] && CounterBounded(s)
    ensures CounterBounded(Next(s, e))
  {
  }

  lemma CapturedIsDurable(s: State, r: nat, wire: Wire)
    requires s.log != [] && CounterBounded(s) && r in s.readers && s.readers[r].Missed?
    ensures var p := Next(s, Capture(r, wire)).readers[r];
            HoldsToken(p) ==> Durable(Next(s, Capture(r, wire)), p.token.value) && DeadlineOk(s, p.token.value)
  {
  }

  /** An outstanding token is either untouched or learns that the counter was lost. */
  lemma OldTokenStaysDurable(s: State, e: Step, t: Token, t': Token)
    requires s.versionTtl > 0 && s.log != [] && CounterBounded(s) && !e.DropCounter? && Durable(s, t) && DeadlineOk(s, t)
    requires t' == if (e.Tick? || e.DropBody?) && CounterLost(s, Next(s, e)) then t.(clean := false) else t
    ensures Durable(Next(s, e), t') && DeadlineOk(Next(s, e), t')
  {
  }

  lemma TokenKept(s: State, e: Step, r: nat)
    requires s.log != [] && !e.DropCounter? && r in s.readers && HoldsToken(s.readers[r])
    requires r in Next(s, e).readers && HoldsToken(Next(s, e).readers[r])
    ensures var t := s.readers[r].token.value;
            Next(s, e).readers[r].token.value ==
              if (e.Tick? || e.DropBody?) && CounterLost(s, Next(s, e)) then t.(clean := false) else t
  {
  }

  lemma TokenStaysDurable(s: State, e: Step, r: nat)
    requires s.versionTtl > 0 && s.log != [] && TokensDurable(s) && !e.DropCounter?
    requires r in Next(s, e).readers && HoldsToken(Next(s, e).readers[r])
    ensures Durable(Next(s, e), Next(s, e).readers[r].token.value)
    ensures DeadlineOk(Next(s, e), Next(s, e).readers[r].token.value)
  {
    TokenComesFrom(s, e, r);
    if HoldsToken(s.readers[r]) {
      TokenKept(s, e, r);
      OldTokenStaysDurable(s, e, s.readers[r].token.value, Next(s, e).readers[r].token.value);
    } else {
      CapturedIsDurable(s, r, e.wire);
    }
  }

  lemma TokenComesFrom(s: State, e: Step, r: nat)
    requires s.log != [] && r in Next(s, e).readers && HoldsToken(Next(s, e).readers[r])
    ensures r in s.readers
    ensures HoldsToken(s.readers[r]) || (e.Capture? && e.r == r && s.readers[r].Missed?)
  {
  }

  lemma NextKeepsDurable(s: State, e: Step)
    requires s.versionTtl > 0 && Inv(s) && TokensDurable(s) && !e.DropCounter?
    ensures TokensDurable(Next(s, e))
  {
    CounterStaysBounded(s, e);
    forall r | r in Next(s, e).readers && HoldsToken(Next(s, e).readers[r])
      ensures Durable(Next(s, e), Next(s, e).readers[r].token.value)
      ensures DeadlineOk(Next(s, e), Next(s, e).readers[r].token.value)
    {
      TokenStaysDurable(s, e, r);
    }
  }

  lemma {:induction false} RunKeepsDurable(s: State, es: seq<Step>)
    requires s.versionTtl > 0 && Inv(s) && TokensDurable(s) && NoEviction(es)
    ensures Inv(Run(s, es)) && TokensDurable(Run(s, es))
    decreases |es|
  {
    if es != [] {
      NextKeepsInv(s, es[0]);
      NextKeepsDurable(s, es[0]);
      RunKeepsDurable(Next(s, es[0]), es[1..]);
    }
  }

  /** Unless the server evicts counters, a reader that stores no later than its token's deadline
      never installs a row that a completed eviction has superseded. */
  lemma TimelyInstallIsFresh(ttl: int, now: int, row: Option<Resource>, es: seq<Step>, r: nat)
    requires ttl > 0 && NoEviction(es)
    requires var s := Run(Init(ttl, now, row), es);
             && r in s.readers && s.readers[r].Fetched? && s.readers[r].token.Some?
             && s.now <= s.readers[r].token.value.until
             && VersionOf(s.slot, s.now) == s.readers[r].token.value.version
    ensures var s := Run(Init(ttl, now, row), es);
            forall i | i in s.settled :: i <= s.readers[r].snap.commit
  {
    InitInv(ttl, now, row);
    RunKeepsDurable(Init(ttl, now, row), es);
    var s := Run(Init(ttl, now, row), es);
    assert ReaderOk(s, s.readers[r]);
    assert Durable(s, s.readers[r].token.value);
  }

  /** For a key without a counter the deadline is the full version time to live, counted from the
      version read: every increment in between re-arms the expiry. */
  lemma FreshKeyInstallIsFresh(ttl: int, now: int, row: Option<Resource>, es: seq<Step>, r: nat)
    requires ttl > 0 && NoEviction(es)
    requires var s := Run(Init(ttl, now, row), es);
             && r in s.readers && s.readers[r].Fetched? && s.readers[r].token.Some?
             && s.readers[r].token.value.version == 0 == VersionOf(s.slot, s.now)
             && s.now <= s.readers[r].token.value.takenAt + ttl * SECOND
    ensures var s := Run(Init(ttl, now, row), es);
            forall i | i in s.settled :: i <= s.readers[r].snap.commit
  {
    InitInv(ttl, now, row);
    RunKeepsDurable(Init(ttl, now, row), es);
    TimelyInstallIsFresh(ttl, now, row, es, r);
  }
}
