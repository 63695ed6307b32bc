/** Why the version counter must not be lost under a reader: exactly which lost counters let a
    superseded row back into the cache. */
module CacheReuse {
  import opened Common
  import opened Cache
  import opened CacheProtocol
  import opened CacheSafety
  import CacheTheorems

  /** The others run on, reader r waits, and the counter is not lost (again). */
  ghost predicate Waiting(s: State, es: seq<Step>, r: nat)
    requires s.log != []
    decreases |es|
  {
    es != [] ==>
      var s' := Next(s, es[0]);
      && es[0] != Fetch(r) && !(es[0].Install? && es[0].r == r)
      && !CounterLost(s, s')
      && Waiting(s', es[1..], r)
  }

  /** Storing now would be accepted, and would install a row older than a completed eviction. */
  ghost predicate WouldPoison(s: State, r: nat) {
    && r in s.readers && s.readers[r].Fetched? && s.readers[r].token.Some?
    && VersionOf(s.slot, s.now) == s.readers[r].token.value.version
    && !NotOlderThan(s.readers[r].snap.commit, s.settled)
  }

  /** A continuation after which reader r would poison the cache. */
  ghost predicate LeadsToPoison(s: State, es: seq<Step>, r: nat)
    requires s.log != []
  {
    Waiting(s, es, r) && WouldPoison(Run(s, es), r)
  }

  /** Reader r cannot poison the cache: the version is past its token, or at it with nothing newer evicted. */
  ghost predicate Harmless(s: State, token: nat, commit: nat) {
    || VersionOf(s.slot, s.now) > token
    || (VersionOf(s.slot, s.now) == token && NotOlderThan(commit, s.settled))
  }

  lemma {:induction false} HarmlessStays(s: State, es: seq<Step>, r: nat)
    requires s.versionTtl > 0 && s.log != [] && Waiting(s, es, r)
    requires r in s.readers && s.readers[r].Fetched? && s.readers[r].token.Some?
    requires Harmless(s, s.readers[r].token.value.version, s.readers[r].snap.commit)
    ensures !WouldPoison(Run(s, es), r)
    decreases |es|
  {
    if es != [] {
      var s' := Next(s, es[0]);
      assert s'.readers[r] == s.readers[r];
      HarmlessStays(s', es[1..], r);
    }
  }

  /** n updates of the row, each followed by its eviction. */
  function Rounds(w: nat, row: Resource, n: nat): seq<Step> {
    if n == 0 then [] else [Write(w, Some(row)), Settle(w, Delivered)] + Rounds(w, row, n - 1)
  }

  /** One round: the log and the version grow by one, and the new commit is settled. */
  lemma OneRound(s: State, w: nat, row: Resource, r: nat) returns (s1: State, s2: State)
    requires s.versionTtl > 0 && Inv(s) && w !in s.writers && Last(s.log).row.Some?
    requires r in s.readers && s.readers[r].Fetched?
    ensures s1 == Next(s, Write(w, Some(row))) && s2 == Next(s1, Settle(w, Delivered))
    ensures Inv(s1) && Inv(s2) && !CounterLost(s, s1) && !CounterLost(s1, s2)
    ensures s2.writers == s.writers && s2.readers == s.readers && Last(s2.log).row == Some(row)
    ensures s2.settled == s.settled + {|s.log|}
    ensures VersionOf(s2.slot, s2.now) == VersionOf(s.slot, s.now) + 1
  {
    s1 := Next(s, Write(w, Some(row)));
    s2 := Next(s1, Settle(w, Delivered));
    NextKeepsInv(s, Write(w, Some(row)));
    NextKeepsInv(s1, Settle(w, Delivered));
  }

  lemma {:induction false} RoundsCountUp(s: State, w: nat, row: Resource, n: nat, r: nat)
    requires s.versionTtl > 0 && Inv(s) && w !in s.writers && Last(s.log).row.Some?
    requires r in s.readers && s.readers[r].Fetched?
    ensures var s' := Run(s, Rounds(w, row, n));
            && Waiting(s, Rounds(w, row, n), r)
            && s'.log != [] && r in s'.readers && s'.readers[r] == s.readers[r]
            && VersionOf(s'.slot, s'.now) == VersionOf(s.slot, s.now) + n
            && (n > 0 ==> |s.log| in s'.settled)
            && s.settled <= s'.settled
    decreases n
  {
    if n > 0 {
      var es, rest := Rounds(w, row, n), Rounds(w, row, n - 1);
      var s1, s2 := OneRound(s, w, row, r);
      assert es[1..] == [Settle(w, Delivered)] + rest && es[1..][1..] == rest;
      RoundsCountUp(s2, w, row, n - 1, r);
      assert Run(s, es) == Run(s1, es[1..]) == Run(s2, rest);
      assert Waiting(s1, es[1..], r);
    }
  }

  /** The counter reads less than the reader's token, or equals it although a newer commit's eviction
      already took effect. */
  ghost predicate BehindToken(s: State, r: nat)
    requires r in s.readers && s.readers[r].Fetched? && s.readers[r].token.Some?
  {
    !Harmless(s, s.readers[r].token.value.version, s.readers[r].snap.commit)
  }

  lemma PresentRowPoisons(s: State, r: nat) returns (es: seq<Step>)
    requires s.versionTtl > 0 && Inv(s) && Last(s.log).row.Some?
    requires r in s.readers && s.readers[r].Fetched? && s.readers[r].token.Some? && BehindToken(s, r)
    ensures LeadsToPoison(s, es, r)
  {
    var w := FreshKey(s.writers);
    var n := s.readers[r].token.value.version - VersionOf(s.slot, s.now);
    var row := Last(s.log).row.value;
    es := Rounds(w, row, n);
    RoundsCountUp(s, w, row, n, r);
    assert ReaderOk(s, s.readers[r]);
  }

  // ---------------------------------------------------------------- a row that is gone

  /** A removed row never comes back, so only the evictions still to come can count the version up. */
  ghost predicate Gone(s: State) {
    |s.log| > 1 && Last(s.log).row.None?
  }

  ghost predicate NewerPending(s: State, commit: nat) {
    exists w :: w in s.writers && s.writers[w] > commit
  }

  /** Enough evictions are still to come to bring the counter up to the token, and one newer than the
      reader's row has taken effect or can be among them. */
  ghost predicate CanCatchUp(s: State, token: nat, commit: nat) {
    VersionOf(s.slot, s.now) == token ||
    (token - VersionOf(s.slot, s.now) <= |s.writers| && (!NotOlderThan(commit, s.settled) || NewerPending(s, commit)))
  }

  /** What a run over a removed row can change: each eviction uses up its writer. */
  ghost predicate Spends(s: State, s': State) {
    && VersionOf(s.slot, s.now) <= VersionOf(s'.slot, s'.now)
    && VersionOf(s'.slot, s'.now) + |s'.writers| <= VersionOf(s.slot, s.now) + |s.writers|
    && (forall w | w in s'.writers :: w in s.writers && s'.writers[w] == s.writers[w])
    && (forall i | i in s'.settled :: i in s.settled || exists w :: w in s.writers && s.writers[w] == i)
    && (VersionOf(s'.slot, s'.now) == VersionOf(s.slot, s.now) ==> s'.settled == s.settled)
  }

  lemma GoneStep(s: State, e: Step, r: nat)
    requires s.log != [] && s.versionTtl > 0 && Gone(s) && !CounterLost(s, Next(s, e))
    requires r in s.readers && s.readers[r].Fetched? && !(e.Install? && e.r == r)
    ensures Gone(Next(s, e)) && Spends(s, Next(s, e))
    ensures r in Next(s, e).readers && Next(s, e).readers[r] == s.readers[r]
  {
    if e.Settle? && e.w in s.writers {
      WithoutKey(s.writers, e.w);
    }
  }

  lemma SpendsOn(s: State, s1: State, s2: State)
    requires Spends(s, s1) && Spends(s1, s2)
    ensures Spends(s, s2)
  {
  }

  lemma {:induction false} GoneRun(s: State, es: seq<Step>, r: nat)
    requires s.log != [] && s.versionTtl > 0 && Gone(s) && Waiting(s, es, r)
    requires r in s.readers && s.readers[r].Fetched?
    ensures Spends(s, Run(s, es)) && r in Run(s, es).readers && Run(s, es).readers[r] == s.readers[r]
    decreases |es|
  {
    if es != [] {
      GoneStep(s, es[0], r);
      GoneRun(Next(s, es[0]), es[1..], r);
      SpendsOn(s, Next(s, es[0]), Run(s, es));
    }
  }

  lemma GonePoisonsOnlyByCatchingUp(s: State, es: seq<Step>, r: nat)
    requires s.log != [] && s.versionTtl > 0 && Gone(s)
    requires r in s.readers && s.readers[r].Fetched? && s.readers[r].token.Some? && LeadsToPoison(s, es, r)
    ensures CanCatchUp(s, s.readers[r].token.value.version, s.readers[r].snap.commit)
  {
    GoneRun(s, es, r);
  }

  /** One pending eviction takes effect. */
  lemma SettleOne(s: State, w: nat, r: nat, commit: nat)
    requires s.log != [] && s.versionTtl > 0 && w in s.writers
    requires r in s.readers && s.readers[r].Fetched?
    requires s.writers[w] > commit || !NotOlderThan(commit, s.settled)
    ensures var s1 := Next(s, Settle(w, Delivered));
            && !CounterLost(s, s1) && s1.readers == s.readers && |s1.writers| == |s.writers| - 1
            && VersionOf(s1.slot, s1.now) == VersionOf(s.slot, s.now) + 1
            && !NotOlderThan(commit, s1.settled)
  {
    WithoutKey(s.writers, w);
    assert s.writers[w] in Next(s, Settle(w, Delivered)).settled;
  }

  lemma {:induction false} SettleUp(s: State, n: nat, r: nat) returns (es: seq<Step>)
    requires s.log != [] && s.versionTtl > 0 && 0 < n <= |s.writers|
    requires r in s.readers && s.readers[r].Fetched?
    requires !NotOlderThan(s.readers[r].snap.commit, s.settled) || NewerPending(s, s.readers[r].snap.commit)
    ensures Waiting(s, es, r)
    ensures var s' := Run(s, es);
            && r in s'.readers && s'.readers[r] == s.readers[r]
            && VersionOf(s'.slot, s'.now) == VersionOf(s.slot, s.now) + n
            && !NotOlderThan(s.readers[r].snap.commit, s'.settled)
    decreases n
  {
    var commit := s.readers[r].snap.commit;
    var w: nat;
    if NewerPending(s, commit) {
      w :| w in s.writers && s.writers[w] > commit;
    } else {
      assert s.writers.Keys != {};
      w :| w in s.writers.Keys;
    }
    SettleOne(s, w, r, commit);
    var s1 := Next(s, Settle(w, Delivered));
    var rest := [];
    if n > 1 {
      rest := SettleUp(s1, n - 1, r);
    }
    es := [Settle(w, Delivered)] + rest;
    assert es[1..] == rest;
  }

  lemma GoneRowPoisons(s: State, r: nat) returns (es: seq<Step>)
    requires s.versionTtl > 0 && s.log != []
    requires r in s.readers && s.readers[r].Fetched? && s.readers[r].token.Some? && BehindToken(s, r)
    requires CanCatchUp(s, s.readers[r].token.value.version, s.readers[r].snap.commit)
    ensures LeadsToPoison(s, es, r)
  {
    var n := s.readers[r].token.value.version - VersionOf(s.slot, s.now);
    if n == 0 {
      es := [];
    } else {
      es := SettleUp(s, n, r);
    }
  }

  lemma ReadRowIsGone(s: State, r: nat)
    requires Inv(s) && r in s.readers && s.readers[r].Fetched? && Last(s.log).row.None?
    ensures Gone(s)
  {
    assert ReaderOk(s, s.readers[r]);
  }

  /** For a reader about to store: some continuation in which the counter is not lost again lets it install
      a superseded row if and only if the counter is now behind its token and - unless the row is still
      there to be updated - enough evictions are still to come to catch up with it. */
  lemma PoisonedIffCounterBehindToken(s: State, r: nat)
    requires s.versionTtl > 0 && Inv(s)
    requires r in s.readers && s.readers[r].Fetched? && s.readers[r].token.Some?
    ensures (exists es :: LeadsToPoison(s, es, r)) <==>
            && BehindToken(s, r)
            && (Last(s.log).row.None? ==> CanCatchUp(s, s.readers[r].token.value.version, s.readers[r].snap.commit))
  {
    if !BehindToken(s, r) {
      forall es
        ensures !LeadsToPoison(s, es, r)
      {
        if Waiting(s, es, r) {
          HarmlessStays(s, es, r);
        }
      }
    } else if Last(s.log).row.Some? {
      var es := PresentRowPoisons(s, r);
    } else {
      ReadRowIsGone(s, r);
      if CanCatchUp(s, s.readers[r].token.value.version, s.readers[r].snap.commit) {
        var es := GoneRowPoisons(s, r);
      } else {
        forall es
          ensures !LeadsToPoison(s, es, r)
        {
          if LeadsToPoison(s, es, r) {
            GonePoisonsOnlyByCatchingUp(s, es, r);
          }
        }
      }
    }
  }

  lemma BehindTokenMeaning(s: State, r: nat)
    requires r in s.readers && s.readers[r].Fetched? && s.readers[r].token.Some?
    ensures var token := s.readers[r].token.value.version;
            BehindToken(s, r) <==>
            || VersionOf(s.slot, s.now) < token
            || (VersionOf(s.slot, s.now) == token && exists i | i in s.settled :: i > s.readers[r].snap.commit)
  {
  }

  /** One update and its eviction bring the counter to 1, and reader r misses the cache. */
  lemma AfterOneUpdate(ttl: int, now: int, row: Resource, r: nat) returns (es: seq<Step>)
    requires ttl > 0
    ensures var s := Run(Init(ttl, now, Some(row)), es);
            && Inv(s) && s.now == now && s.versionTtl == ttl && s.writers == map[] && |s.log| == 2 && Last(s.log).row == Some(row)
            && s.slot == Slot(None, Some(Counter(1, Some(now + ttl * SECOND))))
            && s.readers == map[r := Missed({1})]
  {
    var s0 := Init(ttl, now, Some(row));
    var e1 := [Write(0, Some(row))];
    assert [] + e1 == e1;
    RunSnoc(s0, [], e1[0]);
    RunSnoc(s0, e1, Settle(0, Delivered));
    RunSnoc(s0, e1 + [Settle(0, Delivered)], Lookup(r, Delivered));
    es := e1 + [Settle(0, Delivered)] + [Lookup(r, Delivered)];
    var s2 := Run(s0, e1 + [Settle(0, Delivered)]);
    assert s2.settled == {1} && s2.writers == map[];
    InitInv(ttl, now, Some(row));
    RunKeepsInv(s0, es);
  }

  /** A reachable state in which a reader holds token 1 and a row it read, and the counter is gone. */
  lemma TokenWithoutCounter(ttl: int, now: int, row: Resource, r: nat) returns (es: seq<Step>)
    requires ttl > 0
    ensures var s := Run(Init(ttl, now, Some(row)), es);
            && Inv(s) && s.writers == map[] && Last(s.log).row.Some?
            && r in s.readers && s.readers[r].Fetched? && s.readers[r].token.Some?
            && VersionOf(s.slot, s.now) < s.readers[r].token.value.version
  {
    var s0 := Init(ttl, now, Some(row));
    var e1 := AfterOneUpdate(ttl, now, row, r);
    var e2 := e1 + [Capture(r, Delivered)];
    var e3 := e2 + [Fetch(r)];
    RunSnoc(s0, e1, Capture(r, Delivered));
    RunSnoc(s0, e2, Fetch(r));
    var s3 := Run(s0, e3);
    assert s3.readers[r].Fetched? && s3.readers[r].token.value.version == 1;
    RunSnoc(s0, e3, DropCounter);
    es := e3 + [DropCounter];
    InitInv(ttl, now, Some(row));
    RunKeepsInv(s0, es);
  }

  lemma PoisonInstalls(s: State, r: nat)
    requires s.log != [] && WouldPoison(s, r)
    ensures var s' := Next(s, Install(r, Delivered));
            s'.slot.body.Some? && !NotOlderThan(s'.slot.body.value.value.commit, s'.settled)
  {
  }

  /** The bad case is reachable: a reader captures version 1, the counter is evicted, and one update
      counts back up to 1 before the reader stores the row it read earlier. */
  lemma TokenReuseReachable(ttl: int, now: int, row: Resource)
    requires ttl > 0
    ensures exists es ::
              var s := Run(Init(ttl, now, Some(row)), es);
              s.slot.body.Some? && !NotOlderThan(s.slot.body.value.value.commit, s.settled)
  {
    var r: nat := 7;
    var s0 := Init(ttl, now, Some(row));
    var first := TokenWithoutCounter(ttl, now, row, r);
    var s := Run(s0, first);
    PoisonedIffCounterBehindToken(s, r);
    var others :| LeadsToPoison(s, others, r);
    RunAppend(s0, first, others);
    RunSnoc(s0, first + others, Install(r, Delivered));
    PoisonInstalls(Run(s, others), r);
    var es := first + others + [Install(r, Delivered)];
    assert Run(s0, es).slot.body.Some?;
  }

  // ---------------------------------------------------------------- the counter's lifetime must be positive

  /** No commit whose eviction took effect is newer than the cached row. */
  ghost predicate NotSuperseded(s: State) {
    s.slot.body.Some? ==> NotOlderThan(s.slot.body.value.value.commit, s.settled)
  }

  ghost predicate ShelteredAndStale(ttl: int, now: int, row: Option<Resource>, es: seq<Step>) {
    CacheTheorems.Sheltered(Init(ttl, now, row), es) && !NotSuperseded(Run(Init(ttl, now, row), es))
  }

  /** A reader that has just read the row, before anything was evicted. */
  ghost function ReadAtOnce(ttl: int, now: int, row: Resource): State {
    Init(ttl, now, Some(row)).(readers :=
      map[0 := Fetched({}, Some(Token(0, now, now + ttl * SECOND, true)), Snapshot(row, 0, now, true))])
  }

  lemma OneReader(ttl: int, now: int, row: Resource, more: seq<Step>) returns (es: seq<Step>)
    requires CacheTheorems.Sheltered(ReadAtOnce(ttl, now, row), more)
    ensures CacheTheorems.Sheltered(Init(ttl, now, Some(row)), es)
    ensures Run(Init(ttl, now, Some(row)), es) == Run(ReadAtOnce(ttl, now, row), more)
  {
    var s0 := Init(ttl, now, Some(row));
    var s1 := s0.(readers := map[0 := Missed({})]);
    var s2 := s0.(readers := map[0 := Captured({}, Some(Token(0, now, now + ttl * SECOND, true)))]);
    var s3 := ReadAtOnce(ttl, now, row);
    assert Next(s2, Fetch(0)) == s3;
    ShelteredCons(s2, Fetch(0), more, s3);
    es := [Fetch(0)] + more;
    assert Next(s1, Capture(0, Delivered)) == s2;
    ShelteredCons(s1, Capture(0, Delivered), es, s2);
    es := [Capture(0, Delivered)] + es;
    assert Next(s0, Lookup(0, Delivered)) == s1;
    ShelteredCons(s0, Lookup(0, Delivered), es, s1);
    es := [Lookup(0, Delivered)] + es;
  }

  /** Without one an eviction leaves no trace, and a reader that began before it stores its old row. */
  lemma WriteEvictStore(ttl: int, now: int, row: Resource) returns (es: seq<Step>)
    requires ttl <= 0
    ensures var s := ReadAtOnce(ttl, now, row);
            CacheTheorems.Sheltered(s, es) && !NotSuperseded(Run(s, es))
  {
    var s3 := ReadAtOnce(ttl, now, row);
    var log := [Commit(now, Some(row)), Commit(now, Some(row))];
    var s4 := s3.(log := log, writers := map[1 := 1]);
    var s5 := s3.(log := log, settled := {1});
    var s6 := Next(s5, Install(0, Delivered));
    ShelteredCons(s5, Install(0, Delivered), [], s6);
    assert Next(s4, Settle(1, Delivered)) == s5;
    ShelteredCons(s4, Settle(1, Delivered), [Install(0, Delivered)] + [], s5);
    assert Next(s3, Write(1, Some(row))) == s4;
    es := [Settle(1, Delivered)] + ([Install(0, Delivered)] + []);
    ShelteredCons(s3, Write(1, Some(row)), es, s4);
    es := [Write(1, Some(row))] + es;
  }

  lemma EvictionWithoutTrace(ttl: int, now: int, row: Resource) returns (es: seq<Step>)
    requires ttl <= 0
    ensures ShelteredAndStale(ttl, now, Some(row), es)
  {
    var more := WriteEvictStore(ttl, now, row);
    es := OneReader(ttl, now, row, more);
  }

  lemma ShelteredCons(s: State, e: Step, es: seq<Step>, s1: State)
    requires s.log != [] && s1.log != [] && Next(s, e) == s1
    requires CacheTheorems.Sheltered(s1, es) && !CacheTheorems.StoresUnderLostCounter(s, e)
    ensures CacheTheorems.Sheltered(s, [e] + es) && Run(s, [e] + es) == Run(s1, es)
  {
    assert ([e] + es)[1..] == es;
  }

  /** The configured lifetime of version counters is positive if and only if no sheltered run ever caches a
      superseded row. */
  lemma PositiveTtlIff(ttl: int)
    ensures ttl > 0 <==> forall now, row, es :: !ShelteredAndStale(ttl, now, row, es)
  {
    if ttl > 0 {
      forall now, row, es
        ensures !ShelteredAndStale(ttl, now, row, es)
      {
        if CacheTheorems.Sheltered(Init(ttl, now, row), es) {
          CacheTheorems.CacheNeverStale(ttl, now, row, es);
        }
      }
    } else {
      var es := EvictionWithoutTrace(ttl, 0, Resource("", "", "", "", "", "", "", ""));
    }
  }
}
