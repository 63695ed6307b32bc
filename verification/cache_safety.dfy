/** What every interleaving of the cache protocol keeps, over whole runs. */
module CacheSafety {
  import opened Common
  import opened Cache
  import opened CacheProtocol

  /** No commit whose eviction took effect is newer than commit c. */
  ghost predicate NotOlderThan(c: nat, commits: set<nat>) {
    forall i | i in commits :: i <= c
  }

  /** The row was the current one when it was read. */
  ghost predicate TrueReading(s: State, row: Option<Resource>, commit: nat, readAt: int) {
    && commit < |s.log|
    && s.log[commit].row == row
    && s.log[commit].at <= readAt <= s.now
    && (commit + 1 < |s.log| ==> readAt <= s.log[commit + 1].at)
  }

  /** Only with a positive lifetime does an eviction leave a counter behind that tells of it. */
  predicate Trusted(s: State, clean: bool) {
    s.versionTtl > 0 && clean
  }

  /** A clean token still at the current version proves that no eviction happened since the capture. */
  ghost predicate TokenOk(s: State, t: Token) {
    && (Trusted(s, t.clean) ==> t.version <= VersionOf(s.slot, s.now))
  }

  ghost predicate ReaderOk(s: State, r: Reader) {
    && r.floor <= s.settled
    && match r
       case Missed(_) => true
       case Captured(_, token) => token.Some? ==> TokenOk(s, token.value)
       case Fetched(floor, token, snap) =>
         && TrueReading(s, Some(snap.row), snap.commit, snap.readAt)
         && NotOlderThan(snap.commit, floor)
         && (token.Some? ==>
               && TokenOk(s, token.value)
               && (Trusted(s, token.value.clean) && token.value.version == VersionOf(s.slot, s.now) ==>
                     NotOlderThan(snap.commit, s.settled)))
       case Returned(floor, found, commit, readAt, at, clean) =>
         && TrueReading(s, found, commit, readAt)
         && readAt <= at <= s.now
         && (Trusted(s, clean) ==> NotOlderThan(commit, floor))
  }

  ghost predicate BodyOk(s: State, b: Body<Snapshot>) {
    && TrueReading(s, Some(b.value.row), b.value.commit, b.value.readAt)
    && (Trusted(s, b.value.clean) ==> NotOlderThan(b.value.commit, s.settled))
  }

  ghost predicate LogOk(s: State) {
    && s.log != []
    && (forall i | 0 <= i < |s.log| :: s.log[i].at <= s.now)
    && (forall i, j | 0 <= i < j < |s.log| :: s.log[i].at <= s.log[j].at)
    && NotOlderThan(|s.log| - 1, s.settled)
    && (forall w | w in s.writers :: s.writers[w] < |s.log|)
  }

  ghost predicate Inv(s: State) {
    && LogOk(s)
    && (s.slot.body.Some? ==> BodyOk(s, s.slot.body.value))
    && (forall r | r in s.readers :: ReaderOk(s, s.readers[r]))
  }

  lemma InitInv(ttl: int, now: int, row: Option<Resource>)
    ensures Inv(Init(ttl, now, row))
  {
  }

  /** s' extends s: time went on and at most commits made now were added. */
  ghost predicate Extends(s: State, s': State) {
    && s.versionTtl == s'.versionTtl && s.now <= s'.now
    && |s.log| <= |s'.log| && s'.log[..|s.log|] == s.log
    && (|s.log| < |s'.log| ==> s'.log[|s.log|].at == s.now)
  }

  lemma ReadingKept(s: State, s': State, row: Option<Resource>, commit: nat, readAt: int)
    requires Extends(s, s') && TrueReading(s, row, commit, readAt)
    ensures TrueReading(s', row, commit, readAt)
  {
    assert s'.log[commit] == s'.log[..|s.log|][commit];
    if commit + 1 < |s.log| {
      assert s'.log[commit + 1] == s'.log[..|s.log|][commit + 1];
    }
  }

  /** A reader that takes no step keeps its invariant when no eviction takes effect and either the
      version is unchanged or its token was tainted. */
  lemma BystanderOk(s: State, s': State, r: Reader, r': Reader)
    requires Inv(s) && ReaderOk(s, r) && Extends(s, s') && s'.settled == s.settled
    requires if CounterLost(s, s') then r' == Tainted(r)
             else r' == r && VersionOf(s'.slot, s'.now) == VersionOf(s.slot, s.now)
    ensures ReaderOk(s', r')
  {
    match r
    case Missed(_) =>
    case Captured(_, _) =>
    case Fetched(_, _, snap) => ReadingKept(s, s', Some(snap.row), snap.commit, snap.readAt);
    case Returned(_, found, commit, readAt, _, _) => ReadingKept(s, s', found, commit, readAt);
  }

  lemma BodyKept(s: State, s': State)
    requires Inv(s) && Extends(s, s') && s'.settled == s.settled
    requires s'.slot.body.None? || s'.slot.body == s.slot.body
    ensures s'.slot.body.Some? ==> BodyOk(s', s'.slot.body.value)
  {
    if s'.slot.body.Some? {
      var v := s.slot.body.value.value;
      ReadingKept(s, s', Some(v.row), v.commit, v.readAt);
    }
  }

  lemma PassKeepsInv(s: State, e: Step)
    requires Inv(s) && (e.Tick? || e.DropBody? || e.DropCounter?)
    ensures Inv(Next(s, e))
  {
    var s' := Next(s, e);
    BodyKept(s, s');
    forall r | r in s'.readers
      ensures ReaderOk(s', s'.readers[r])
    {
      BystanderOk(s, s', s.readers[r], s'.readers[r]);
    }
  }

  lemma CommitKeepsInv(s: State, e: Step)
    requires Inv(s) && (e.Create? || e.Write?)
    ensures Inv(Next(s, e))
  {
    var s' := Next(s, e);
    BodyKept(s, s');
    forall r | r in s'.readers
      ensures ReaderOk(s', s'.readers[r])
    {
      BystanderOk(s, s', s.readers[r], s'.readers[r]);
    }
  }

  /** An eviction moves the version past every clean token, so no older reading can be installed. */
  lemma EvictedReaderOk(s: State, s': State, p: Reader)
    requires Inv(s) && ReaderOk(s, p) && Extends(s, s') && s'.log == s.log && s.settled <= s'.settled
    requires s.versionTtl > 0 ==> VersionOf(s'.slot, s'.now) == VersionOf(s.slot, s.now) + 1
    ensures ReaderOk(s', p)
  {
    match p
    case Missed(_) =>
    case Captured(_, _) =>
    case Fetched(_, _, snap) => ReadingKept(s, s', Some(snap.row), snap.commit, snap.readAt);
    case Returned(_, found, commit, readAt, _, _) => ReadingKept(s, s', found, commit, readAt);
  }

  lemma SettleKeepsInv(s: State, w: nat, wire: Wire)
    requires Inv(s)
    ensures Inv(Next(s, Settle(w, wire)))
  {
    var s' := Next(s, Settle(w, wire));
    if w in s.writers && TakesEffect(wire) {
      forall r | r in s'.readers
        ensures ReaderOk(s', s'.readers[r])
      {
        EvictedReaderOk(s, s', s.readers[r]);
      }
    } else {
      BodyKept(s, s');
      forall r | r in s'.readers
        ensures ReaderOk(s', s'.readers[r])
      {
        BystanderOk(s, s', s.readers[r], s.readers[r]);
      }
    }
  }

  lemma ReadKeepsInv(s: State, e: Step)
    requires Inv(s) && (e.Lookup? || e.Capture? || e.Fetch?)
    ensures Inv(Next(s, e))
  {
    var s' := Next(s, e);
    BodyKept(s, s');
    forall r | r in s'.readers
      ensures ReaderOk(s', s'.readers[r])
    {
      if r in s.readers && s'.readers[r] == s.readers[r] {
        BystanderOk(s, s', s.readers[r], s'.readers[r]);
      }
    }
  }

  /** The script stores only under the captured version, so a clean token vouches for the reading. */
  lemma InstalledBodyOk(s: State, r: nat, wire: Wire)
    requires Inv(s)
    ensures var s' := Next(s, Install(r, wire)); s'.slot.body.Some? ==> BodyOk(s', s'.slot.body.value)
  {
    var s' := Next(s, Install(r, wire));
    if s'.slot.body == s.slot.body {
      BodyKept(s, s');
    } else {
      assert ReaderOk(s, s.readers[r]);
    }
  }

  lemma InstallerOk(s: State, r: nat, wire: Wire, q: nat)
    requires Inv(s) && q in s.readers
    ensures var s' := Next(s, Install(r, wire)); q in s'.readers && ReaderOk(s', s'.readers[q])
  {
    var s' := Next(s, Install(r, wire));
    if s'.readers[q] == s.readers[q] {
      BystanderOk(s, s', s.readers[q], s'.readers[q]);
    } else {
      assert ReaderOk(s, s.readers[r]);
    }
  }

  lemma InstallKeepsInv(s: State, r: nat, wire: Wire)
    requires Inv(s)
    ensures Inv(Next(s, Install(r, wire)))
  {
    var s' := Next(s, Install(r, wire));
    InstalledBodyOk(s, r, wire);
    forall q | q in s'.readers
      ensures ReaderOk(s', s'.readers[q])
    {
      InstallerOk(s, r, wire, q);
    }
  }

  lemma NextKeepsInv(s: State, e: Step)
    requires Inv(s)
    ensures Inv(Next(s, e))
  {
    match e
    case Tick(_) => PassKeepsInv(s, e);
    case DropBody => PassKeepsInv(s, e);
    case DropCounter => PassKeepsInv(s, e);
    case Create(_) => CommitKeepsInv(s, e);
    case Write(_, _) => CommitKeepsInv(s, e);
    case Settle(w, wire) => SettleKeepsInv(s, w, wire);
    case Lookup(_, _) => ReadKeepsInv(s, e);
    case Capture(_, _) => ReadKeepsInv(s, e);
    case Fetch(_) => ReadKeepsInv(s, e);
    case Install(r, wire) => InstallKeepsInv(s, r, wire);
  }

  lemma {:induction false} RunKeepsInv(s: State, es: seq<Step>)
    requires Inv(s)
    ensures Inv(Run(s, es))
    decreases |es|
  {
    if es != [] {
      NextKeepsInv(s, es[0]);
      RunKeepsInv(Next(s, es[0]), es[1..]);
    }
  }
}
