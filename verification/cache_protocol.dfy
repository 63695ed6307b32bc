/** The versioned cache-aside protocol for one resource: any number of readers and writers interleave
    their atomic steps, commands fail or lose their reply, writers crash (by never taking their next
    step), entries and counters expire or are dropped by the server. */
module CacheProtocol {
  import opened Common
  import opened Cache

  const RESOURCE_TTL: int := 60   // seconds

  datatype Resource = Resource(id: string, clientId: string, kind: string, name: string, status: string,
                               metadata: string, createdAt: string, updatedAt: string)

  /** One committed state of the row; None is an absent row. */
  datatype Commit = Commit(at: int, row: Option<Resource>)

  /** A row together with facts the program cannot see: the number of the commit it was read from,
      when it was read, and whether its reader's version token was never overtaken by a lost counter. */
  datatype Snapshot = Snapshot(row: Resource, commit: nat, readAt: int, clean: bool)

  /** The version a reader captured. `clean` turns false when the counter vanishes (expires or is
      evicted) while the token is held; `until` is the instant up to which expiry alone cannot do so. */
  datatype Token = Token(version: nat, takenAt: int, until: int, clean: bool)

  /** Where a `get` is; `floor` holds the commits whose eviction had taken effect when it started. */
  datatype Reader =
    | Missed(floor: set<nat>)
    | Captured(floor: set<nat>, token: Option<Token>)
    | Fetched(floor: set<nat>, token: Option<Token>, snap: Snapshot)
    | Returned(floor: set<nat>, found: Option<Resource>, commit: nat, readAt: int, at: int, clean: bool)

  /** `settled` holds the commits whose eviction took effect; `writers` maps a writer that has
      committed but not yet evicted to its commit; `versionTtl` is the configured lifetime of a version
      counter in seconds. */
  datatype State = State(versionTtl: int, now: int, log: seq<Commit>, slot: Slot<Snapshot>, settled: set<nat>,
                         writers: map<nat, nat>, readers: map<nat, Reader>)

  datatype Step =
    | Tick(d: nat)
    | Create(created: Resource)
    | Write(w: nat, written: Option<Resource>)
    | Settle(w: nat, wire: Wire)
    | Lookup(r: nat, wire: Wire)
    | Capture(r: nat, wire: Wire)
    | Fetch(r: nat)
    | Install(r: nat, wire: Wire)
    | DropBody
    | DropCounter

  function Last(log: seq<Commit>): Commit
    requires log != []
  {
    log[|log| - 1]
  }

  predicate HoldsToken(r: Reader) {
    (r.Captured? || r.Fetched?) && r.token.Some?
  }

  function Tainted(r: Reader): Reader {
    if HoldsToken(r) then r.(token := Some(r.token.value.(clean := false))) else r
  }

  predicate CounterLost(s: State, s': State) {
    VersionOf(s.slot, s.now) > 0 && VersionOf(s'.slot, s'.now) == 0
  }

  /** Time passes or the server drops a key; every outstanding token notices a lost counter. */
  function Pass(s: State, s': State): State {
    if CounterLost(s, s') then s'.(readers := map r | r in s'.readers :: Tainted(s'.readers[r])) else s'
  }

  /** A token's guarantee against expiry: a missing counter, once created, lives for its full time. */
  function TokenFor(s: State): Token {
    var v := VersionOf(s.slot, s.now);
    Token(v, s.now,
          if v > 0 && s.slot.counter.value.expires.Some? then s.slot.counter.value.expires.value
          else s.now + s.versionTtl * SECOND,
          true)
  }

  /** One atomic step. A step whose actor is not at that point of its program changes nothing. */
  function Next(s: State, e: Step): State
    requires s.log != []
    ensures Next(s, e).log != [] && Next(s, e).versionTtl == s.versionTtl
  {
    match e
    case Tick(d) => Pass(s, s.(now := s.now + d))
    case DropBody => s.(slot := s.slot.(body := None))
    case DropCounter => Pass(s, s.(slot := s.slot.(counter := None)))
    case Create(row) =>
      // identifiers are never reused, so only the first commit creates the row
      if |s.log| == 1 && Last(s.log).row.None? then s.(log := s.log + [Commit(s.now, Some(row))]) else s
    case Write(w, row) =>
      if w !in s.writers && Last(s.log).row.Some?
      then s.(log := s.log + [Commit(s.now, row)], writers := s.writers[w := |s.log|]) else s
    case Settle(w, wire) =>
      if w !in s.writers then s
      else
        var s' := s.(writers := s.writers - {w});
        if TakesEffect(wire)
        then s'.(slot := Evict(s.slot, s.versionTtl, s.now), settled := s.settled + {s.writers[w]}) else s'
    case Lookup(r, wire) =>
      if r in s.readers then s
      else
        var hit := BodyAt(s.slot, s.now);
        s.(readers := s.readers[r :=
          if wire.Delivered? && hit.Some?
          then Returned(s.settled, Some(hit.value.row), hit.value.commit, hit.value.readAt, s.now, hit.value.clean)
          else Missed(s.settled)])
    case Capture(r, wire) =>
      if r !in s.readers || !s.readers[r].Missed? then s
      else s.(readers := s.readers[r := Captured(s.readers[r].floor,
                                                 if wire.Delivered? then Some(TokenFor(s)) else None)])
    case Fetch(r) =>
      if r !in s.readers || !s.readers[r].Captured? then s
      else
        var found := Last(s.log).row;
        var p := s.readers[r];
        s.(readers := s.readers[r :=
          if found.None? then Returned(p.floor, None, |s.log| - 1, s.now, s.now, true)
          else Fetched(p.floor, p.token, Snapshot(found.value, |s.log| - 1, s.now, true))])
    case Install(r, wire) =>
      if r !in s.readers || !s.readers[r].Fetched? then s
      else
        var p := s.readers[r];
        var s' := s.(readers := s.readers[r :=
          Returned(p.floor, Some(p.snap.row), p.snap.commit, p.snap.readAt, s.now, true)]);
        if p.token.Some? && TakesEffect(wire)
        then s'.(slot := StoreIfVersion(s.slot, p.token.value.version,
                                        p.snap.(clean := p.token.value.clean), RESOURCE_TTL, s.now))
        else s'
  }

  function Run(s: State, es: seq<Step>): State
    requires s.log != []
    ensures Run(s, es).log != [] && Run(s, es).versionTtl == s.versionTtl
    decreases |es|
  {
    if es == [] then s else Run(Next(s, es[0]), es[1..])
  }

  lemma {:induction false} RunAppend(s: State, es: seq<Step>, fs: seq<Step>)
    requires s.log != []
    ensures Run(s, es + fs) == Run(Run(s, es), fs)
    decreases |es|
  {
    if es == [] {
      assert es + fs == fs;
    } else {
      assert (es + fs)[1..] == es[1..] + fs;
      RunAppend(Next(s, es[0]), es[1..], fs);
    }
  }

  lemma RunSnoc(s: State, es: seq<Step>, e: Step)
    requires s.log != []
    ensures Run(s, es + [e]) == Next(Run(s, es), e)
  {
    RunAppend(s, es, [e]);
    var t := Run(s, es);
    assert [e][1..] == [];
    assert Run(t, [e]) == Run(Next(t, e), []);
  }

  function Init(ttl: int, now: int, row: Option<Resource>): State {
    State(ttl, now, [Commit(now, row)], Slot(None, None), {}, map[], map[])
  }
}
