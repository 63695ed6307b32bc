/** The service's own code, step by step over the repository and the cache, with the steps of every
    other request (and of the server) free to run between any two of its steps. */
module ResourceService {
  import opened Common
  import opened Cache
  import opened CacheProtocol
  import opened CacheSafety
  import opened CacheTheorems

  datatype ServiceError = NotFound | AlreadyExists

  ghost predicate ByReader(e: Step, r: nat) {
    (e.Lookup? || e.Capture? || e.Fetch? || e.Install?) && e.r == r
  }

  ghost predicate ByWriter(e: Step, w: nat) {
    (e.Write? || e.Settle?) && e.w == w
  }

  ghost predicate NoneByReader(es: seq<Step>, r: nat) {
    forall e | e in es :: !ByReader(e, r)
  }

  ghost predicate NoneByWriter(es: seq<Step>, w: nat) {
    forall e | e in es :: !ByWriter(e, w)
  }

  /** The same program point with the same data; only the token's taint may differ. */
  ghost predicate SameUpToTaint(p: Reader, p': Reader) {
    p' == p || p' == Tainted(p)
  }

  lemma {:induction false} OthersKeepReader(s: State, es: seq<Step>, r: nat)
    requires s.log != [] && NoneByReader(es, r)
    ensures r in Run(s, es).readers <==> r in s.readers
    ensures r in s.readers ==> SameUpToTaint(s.readers[r], Run(s, es).readers[r])
    decreases |es|
  {
    if es != [] {
      var s' := Next(s, es[0]);
      assert es[0] in es;
      assert r in s.readers ==> SameUpToTaint(s.readers[r], s'.readers[r]);
      OthersKeepReader(s', es[1..], r);
    }
  }

  lemma {:induction false} OthersKeepWriter(s: State, es: seq<Step>, w: nat)
    requires s.log != [] && NoneByWriter(es, w)
    ensures w in Run(s, es).writers <==> w in s.writers
    ensures w in s.writers ==> Run(s, es).writers[w] == s.writers[w]
    ensures |s.log| <= |Run(s, es).log| && Run(s, es).log[..|s.log|] == s.log
    decreases |es|
  {
    if es != [] {
      var s' := Next(s, es[0]);
      assert es[0] in es;
      OthersKeepWriter(s', es[1..], w);
      assert s'.log[..|s.log|] == s.log;
    }
  }

  /** No command of these steps breaks the connection. */
  predicate Benign(es: seq<Step>) {
    forall e | e in es :: BenignStep(e)
  }

  predicate BenignStep(e: Step) {
    e.Settle? || e.Lookup? || e.Capture? || e.Install? ==> !BreaksConnection(e.wire)
  }

  predicate AllBenign(env: seq<seq<Step>>) {
    forall es | es in env :: Benign(es)
  }

  /** One request: a `get` or a write. */
  datatype Request = Asking(r: nat) | Writing(w: nat)

  ghost predicate By(e: Step, q: Request) {
    match q
    case Asking(r) => ByReader(e, r)
    case Writing(w) => ByWriter(e, w)
  }

  /** A request's own commands in a run. */
  ghost function Own(es: seq<Step>, q: Request): seq<Step>
    decreases |es|
  {
    if es == [] then [] else if By(es[0], q) then [es[0]] + Own(es[1..], q) else Own(es[1..], q)
  }

  lemma {:induction false} OwnAppend(es: seq<Step>, fs: seq<Step>, q: Request)
    ensures Own(es + fs, q) == Own(es, q) + Own(fs, q)
    decreases |es|
  {
    if es == [] {
      assert es + fs == fs;
    } else {
      assert (es + fs)[1..] == es[1..] + fs && (es + fs)[0] == es[0];
      OwnAppend(es[1..], fs, q);
    }
  }

  lemma {:induction false} NoneOwn(es: seq<Step>, q: Request)
    requires forall e | e in es :: !By(e, q)
    ensures Own(es, q) == []
    decreases |es|
  {
    if es != [] {
      assert es[0] in es && forall e | e in es[1..] :: e in es;
      NoneOwn(es[1..], q);
    }
  }

  lemma OwnStep(es: seq<Step>, e: Step, q: Request)
    requires By(e, q)
    ensures Own(es + [e], q) == Own(es, q) + [e]
  {
    OwnAppend(es, [e], q);
    assert [e][1..] == [];
  }

  lemma OwnWaits(es: seq<Step>, more: seq<Step>, q: Request)
    requires forall e | e in more :: !By(e, q)
    ensures Own(es + more, q) == Own(es, q)
  {
    OwnAppend(es, more, q);
    NoneOwn(more, q);
  }

  /** The version the program holds is that of the reader's token. */
  ghost predicate Captures(token: Option<Token>, version: Option<nat>) {
    (version.Some? <==> token.Some?) && (version.Some? ==> token.value.version == version.value)
  }

  class ResourceService {
    const cache: CacheAside<Snapshot>
    const key: string
    var now: int
    var log: seq<Commit>
    var settled: set<nat>
    var writers: map<nat, nat>
    var readers: map<nat, Reader>

    ghost predicate Valid()
      reads this, cache, cache.redis
    {
      log != []
    }

    ghost function Abs(): State
      reads this, cache, cache.redis
    {
      State(cache.config.versionTtlSeconds, now, log, cache.SlotOf(key), settled, writers, readers)
    }

    constructor (cache: CacheAside<Snapshot>, clientId: string, id: string, now: int, row: Option<Resource>)
      requires cache.SlotOf(CacheKey(clientId, id)) == Slot(None, None)
      ensures Valid() && Abs() == Init(cache.config.versionTtlSeconds, now, row)
      ensures this.cache == cache && key == CacheKey(clientId, id)
    {
      this.cache, this.key := cache, CacheKey(clientId, id);
      this.now, log, settled, writers, readers := now, [Commit(now, row)], {}, map[], map[];
    }

    method CacheGet(r: nat, net: Net) returns (cached: Option<Snapshot>)
      requires Valid() && r !in readers
      modifies this, cache
      ensures Valid() && Abs() == Next(old(Abs()), Lookup(r, old(cache.Outcome(now, net))))
      ensures cache.connected == (old(cache.Reachable(now, net)) && !BreaksConnection(net.wire))
      ensures r in readers
      ensures cached.Some? <==> readers[r].Returned?
      ensures cached.Some? ==> readers[r].found == Some(cached.value.row)
      ensures cached.None? ==> readers[r].Missed?
    {
      cached := cache.Get(key, now, net);
      readers := readers[r := if cached.Some?
                              then Returned(settled, Some(cached.value.row), cached.value.commit,
                                            cached.value.readAt, now, cached.value.clean)
                              else Missed(settled)];
    }

    method CacheVersion(r: nat, net: Net) returns (version: Option<nat>)
      requires Valid() && r in readers && readers[r].Missed?
      modifies this, cache
      ensures Valid() && Abs() == Next(old(Abs()), Capture(r, old(cache.Outcome(now, net))))
      ensures cache.connected == (old(cache.Reachable(now, net)) && !BreaksConnection(net.wire))
      ensures r in readers && readers[r].Captured?
      ensures version.Some? <==> readers[r].token.Some?
      ensures version.Some? ==> readers[r].token.value.version == version.value
    {
      version := cache.Version(key, now, net);
      var s := State(cache.config.versionTtlSeconds, now, log, cache.SlotOf(key), settled, writers, readers);
      readers := readers[r := Captured(readers[r].floor, if version.Some? then Some(TokenFor(s)) else None)];
    }

    method FindById(r: nat) returns (found: Option<Resource>)
      requires Valid() && r in readers && readers[r].Captured?
      modifies this
      ensures Valid() && Abs() == Next(old(Abs()), Fetch(r))
      ensures found == Last(log).row && r in readers
      ensures found.None? ==> readers[r].Returned? && readers[r].found.None?
      ensures found.Some? ==> readers[r].Fetched? && readers[r].snap.row == found.value
      ensures found.Some? ==> readers[r].token == old(readers[r].token)
    {
      found := log[|log| - 1].row;
      var p := readers[r];
      readers := readers[r := if found.None? then Returned(p.floor, None, |log| - 1, now, now, true)
                              else Fetched(p.floor, p.token, Snapshot(found.value, |log| - 1, now, true))];
    }

    /** The end of a `get` that read the table: store under the captured version, if there is one. */
    method CachePut(r: nat, version: Option<nat>, row: Resource, net: Net) returns (ghost step: Step)
      requires Valid() && r in readers && readers[r].Fetched? && readers[r].snap.row == row
      requires version.Some? <==> readers[r].token.Some?
      requires version.Some? ==> readers[r].token.value.version == version.value
      modifies this, cache, cache.redis
      ensures Valid() && step == Install(r, old(cache.Outcome(now, net))) && Abs() == Next(old(Abs()), step)
      ensures r in readers && readers[r].Returned? && readers[r].found == Some(row)
      ensures old(cache.connected) && !BreaksConnection(net.wire) ==> cache.connected
    {
      var p := readers[r];
      step := Install(r, cache.Outcome(now, net));
      if version.Some? {
        var _ := cache.PutIfVersion(key, version.value, p.snap.(clean := p.token.value.clean), RESOURCE_TTL, now, net);
      }
      readers := readers[r := Returned(p.floor, Some(row), p.snap.commit, p.snap.readAt, now, true)];
    }

    /** UPDATE (a new row) or DELETE (none); answers whether a row was there. */
    method CommitWrite(w: nat, row: Option<Resource>) returns (present: bool)
      requires Valid() && w !in writers
      modifies this
      ensures Valid() && Abs() == Next(old(Abs()), Write(w, row))
      ensures present == Last(old(log)).row.Some?
      ensures present ==> w in writers && writers[w] == |old(log)| && log == old(log) + [Commit(now, row)]
    {
      present := log[|log| - 1].row.Some?;
      if present {
        log, writers := log + [Commit(now, row)], writers[w := |log|];
      }
    }

    method CacheEvict(w: nat, net: Net) returns (done: bool, ghost step: Step)
      requires Valid() && w in writers
      modifies this, cache, cache.redis
      ensures Valid() && step == Settle(w, old(cache.Outcome(now, net))) && Abs() == Next(old(Abs()), step)
      ensures done == step.wire.Delivered?
      ensures cache.connected == (old(cache.Reachable(now, net)) && !BreaksConnection(net.wire))
      ensures log == old(log)
    {
      var outcome := cache.Outcome(now, net);
      step := Settle(w, outcome);
      done := cache.InvalidateVersioned(key, now, net);
      if TakesEffect(outcome) {
        settled := settled + {writers[w]};
      }
      writers := writers - {w};
    }

    method Create(row: Resource)
      requires Valid()
      modifies this
      ensures Valid() && Abs() == Next(old(Abs()), CacheProtocol.Create(row))
    {
      if |log| == 1 && log[0].row.None? {
        log := log + [Commit(now, Some(row))];
      }
    }

    /** The clock advances or the server drops a key. */
    method Elapse(e: Step)
      requires Valid() && (e.Tick? || e.DropBody? || e.DropCounter?)
      modifies this, cache.redis
      ensures Valid() && Abs() == Next(old(Abs()), e)
    {
      var before := VersionOf(cache.SlotOf(key), now);
      match e {
        case Tick(d) => now := now + d;
        case DropBody => cache.redis.bodies := cache.redis.bodies - {MakeKey(cache.config, key)};
        case DropCounter => cache.redis.counters := cache.redis.counters - {VersionKey(cache.config, key)};
      }
      if !e.DropBody? && before > 0 && VersionOf(cache.SlotOf(key), now) == 0 {
        readers := map r | r in readers :: Tainted(readers[r]);
      }
    }

    /** Another request's or the server's next step, carried out on the same cache and table. */
    method Perform(e: Step, reconnects: bool) returns (ghost step: Step)
      requires Valid()
      modifies this, cache, cache.redis
      ensures Valid() && Abs() == Next(old(Abs()), step)
      ensures forall r :: ByReader(step, r) ==> ByReader(e, r)
      ensures forall w :: ByWriter(step, w) ==> ByWriter(e, w)
      ensures old(cache.connected) && BenignStep(e) ==> cache.connected
    {
      step := e;
      match e {
        case Tick(_) => Elapse(e);
        case DropBody => Elapse(e);
        case DropCounter => Elapse(e);
        case Create(row) => Create(row);
        case Write(w, row) =>
          if w !in writers {
            var _ := CommitWrite(w, row);
          }
        case Settle(w, wire) =>
          if w in writers {
            var _, s := CacheEvict(w, Net(reconnects, wire));
            step := s;
          }
        case Lookup(r, wire) =>
          if r !in readers {
            step := Lookup(r, cache.Outcome(now, Net(reconnects, wire)));
            var _ := CacheGet(r, Net(reconnects, wire));
          }
        case Capture(r, wire) =>
          if r in readers && readers[r].Missed? {
            step := Capture(r, cache.Outcome(now, Net(reconnects, wire)));
            var _ := CacheVersion(r, Net(reconnects, wire));
          }
        case Fetch(r) =>
          if r in readers && readers[r].Captured? {
            var _ := FindById(r);
          }
        case Install(r, wire) =>
          if r in readers && readers[r].Fetched? {
            var p := readers[r];
            var version := if p.token.Some? then Some(p.token.value.version) else None;
            step := CachePut(r, version, p.snap.row, Net(reconnects, wire));
          }
      }
    }

    method Interfere(es: seq<Step>, reconnects: bool) returns (ghost trace: seq<Step>)
      requires Valid()
      modifies this, cache, cache.redis
      ensures Valid() && Abs() == Run(old(Abs()), trace)
      ensures forall r :: NoneByReader(es, r) ==> NoneByReader(trace, r)
      ensures forall w :: NoneByWriter(es, w) ==> NoneByWriter(trace, w)
      ensures old(cache.connected) && Benign(es) ==> cache.connected
      ensures es == [] ==> trace == [] && cache.connected == old(cache.connected) && cache.nextReconnect == old(cache.nextReconnect)
    {
      trace := [];
      for i := 0 to |es|
        invariant old(cache.connected) && Benign(es) ==> cache.connected
        invariant i == 0 ==> trace == [] && cache.connected == old(cache.connected) && cache.nextReconnect == old(cache.nextReconnect)
        invariant Valid() && Abs() == Run(old(Abs()), trace)
        invariant forall r :: NoneByReader(es, r) ==> NoneByReader(trace, r)
        invariant forall w :: NoneByWriter(es, w) ==> NoneByWriter(trace, w)
      {
        var step := Perform(es[i], reconnects);
        RunSnoc(old(Abs()), trace, step);
        trace := trace + [step];
      }
    }

    /** What a caller may rely on: the answer was the row's state after some commit at least as new as
        every commit whose eviction had taken effect when the call began. */
    ghost predicate Current(res: Result<Resource, ServiceError>, floor: set<nat>)
      reads this
    {
      exists c: nat :: c < |log| && NotOlderThan(c, floor) &&
        (if res.Ok? then log[c].row == Some(res.value) else log[c].row == None)
    }

    method GetTraced(ghost s0: State, ghost before: seq<Step>, r: nat, net: Net)
      returns (cached: Option<Snapshot>, ghost trace: seq<Step>)
      requires Valid() && s0.log != [] && Abs() == Run(s0, before) && r !in readers
      modifies this, cache
      ensures Valid() && Abs() == Run(s0, trace) && r in readers
      ensures trace == before + [Lookup(r, old(cache.Outcome(now, net)))]
      ensures Own(trace, Asking(r)) == Own(before, Asking(r)) + [Lookup(r, old(cache.Outcome(now, net)))]
      ensures cache.connected == (old(cache.Reachable(now, net)) && !BreaksConnection(net.wire))
      ensures cached.Some? ==> readers[r].Returned? && readers[r].found == Some(cached.value.row)
      ensures cached.None? ==> readers[r].Missed?
    {
      ghost var step := Lookup(r, cache.Outcome(now, net));
      OwnStep(before, step, Asking(r));
      cached := CacheGet(r, net);
      RunSnoc(s0, before, step);
      trace := before + [step];
    }

    method VersionTraced(ghost s0: State, ghost before: seq<Step>, r: nat, net: Net)
      returns (version: Option<nat>, ghost trace: seq<Step>)
      requires Valid() && s0.log != [] && Abs() == Run(s0, before) && r in readers && readers[r].Missed?
      modifies this, cache
      ensures Valid() && Abs() == Run(s0, trace)
      ensures trace == before + [Capture(r, old(cache.Outcome(now, net)))]
      ensures Own(trace, Asking(r)) == Own(before, Asking(r)) + [Capture(r, old(cache.Outcome(now, net)))]
      ensures cache.connected == (old(cache.Reachable(now, net)) && !BreaksConnection(net.wire))
      ensures r in readers && readers[r].Captured? && Captures(readers[r].token, version)
    {
      ghost var step := Capture(r, cache.Outcome(now, net));
      OwnStep(before, step, Asking(r));
      version := CacheVersion(r, net);
      RunSnoc(s0, before, step);
      trace := before + [step];
    }

    method FindTraced(ghost s0: State, ghost before: seq<Step>, r: nat)
      returns (found: Option<Resource>, ghost trace: seq<Step>)
      requires Valid() && s0.log != [] && Abs() == Run(s0, before) && r in readers && readers[r].Captured?
      modifies this
      ensures Valid() && Abs() == Run(s0, trace) && r in readers
      ensures trace == before + [Fetch(r)] && Own(trace, Asking(r)) == Own(before, Asking(r)) + [Fetch(r)]
      ensures found.None? ==> readers[r].Returned? && readers[r].found.None?
      ensures found.Some? ==> readers[r].Fetched? && readers[r].snap.row == found.value
                              && readers[r].token == old(readers[r].token)
    {
      OwnStep(before, Fetch(r), Asking(r));
      found := FindById(r);
      RunSnoc(s0, before, Fetch(r));
      trace := before + [Fetch(r)];
    }

    method PutTraced(ghost s0: State, ghost before: seq<Step>, r: nat, version: Option<nat>, row: Resource, net: Net)
      returns (ghost trace: seq<Step>)
      requires Valid() && s0.log != [] && Abs() == Run(s0, before)
      requires r in readers && readers[r].Fetched? && readers[r].snap.row == row && Captures(readers[r].token, version)
      modifies this, cache, cache.redis
      ensures Valid() && Abs() == Run(s0, trace)
      ensures trace == before + [Install(r, old(cache.Outcome(now, net)))]
      ensures Own(trace, Asking(r)) == Own(before, Asking(r)) + [Install(r, old(cache.Outcome(now, net)))]
      ensures r in readers && readers[r].Returned? && readers[r].found == Some(row)
    {
      ghost var step := CachePut(r, version, row, net);
      RunSnoc(s0, before, step);
      OwnStep(before, step, Asking(r));
      trace := before + [step];
    }

    /** The commands of a `get` in their order, for these answers of the network. */
    static ghost function Program(r: nat, nets: seq<Net>): seq<Step>
      requires |nets| == 3
    {
      [Lookup(r, nets[0].wire), Capture(r, nets[1].wire), Fetch(r), Install(r, nets[2].wire)]
    }

    /** The connection is up and neither this request's nor the others' commands break it. */
    static ghost predicate Undisturbed(connected: bool, env: seq<seq<Step>>, nets: seq<Net>) {
      connected && AllBenign(env) && forall net | net in nets :: !BreaksConnection(net.wire)
    }

    /** The others' steps between two steps of one request, and the network's answers to its commands. While
        the connection is up, the request issues its commands one after the other until it has its answer. */
    method Get(r: nat, env: seq<seq<Step>>, nets: seq<Net>, reconnects: bool)
      returns (res: Result<Resource, ServiceError>, ghost trace: seq<Step>)
      requires Valid() && r !in readers && |env| == 4 && |nets| == 3
      requires forall es | es in env :: NoneByReader(es, r)
      modifies this, cache, cache.redis
      ensures Valid() && Abs() == Run(old(Abs()), trace)
      ensures res.Ok? || res.error == NotFound
      ensures r in readers && readers[r].Returned? && readers[r].found == if res.Ok? then Some(res.value) else None
      ensures Undisturbed(old(cache.connected), env, nets) ==> Own(trace, Asking(r)) <= Program(r, nets)
      ensures env == [[], [], [], []] ==> trace == Own(trace, Asking(r))
      ensures cache.config.versionTtlSeconds > 0 && old(Inv(Abs()) && AllClean(Abs())) && Sheltered(old(Abs()), trace) ==>
                Current(res, old(settled))
    {
      ghost var s0 := Abs();
      var cached;
      cached, trace := LookupFirst(r, env[0], nets[0], reconnects);
      if cached.Some? {
        res := Ok(cached.value.row);
        Answer(s0, trace, r, res);
        return;
      }

      res, trace := Fill(s0, trace, r, env[1..], nets[1..], reconnects);
      Answer(s0, trace, r, res);
    }

    method LookupFirst(r: nat, es: seq<Step>, net: Net, reconnects: bool)
      returns (cached: Option<Snapshot>, ghost trace: seq<Step>)
      requires Valid() && r !in readers && NoneByReader(es, r)
      modifies this, cache, cache.redis
      ensures Valid() && Abs() == Run(old(Abs()), trace) && r in readers
      ensures cached.Some? ==> readers[r].Returned? && readers[r].found == Some(cached.value.row)
      ensures cached.None? ==> readers[r].Missed?
      ensures old(cache.connected) && Benign(es) ==>
                Own(trace, Asking(r)) == [Lookup(r, net.wire)] && cache.connected == !BreaksConnection(net.wire)
      ensures es == [] ==> trace == Own(trace, Asking(r))
    {
      ghost var s0 := Abs();
      trace := Interfere(es, reconnects);
      OthersKeepReader(s0, trace, r);
      NoneOwn(trace, Asking(r));
      cached, trace := GetTraced(s0, trace, r, net);
    }

    /** The rest of a `get` that missed the cache: version, table, and the conditional store. */
    method Fill(ghost s0: State, ghost before: seq<Step>, r: nat, env: seq<seq<Step>>, nets: seq<Net>, reconnects: bool)
      returns (res: Result<Resource, ServiceError>, ghost trace: seq<Step>)
      requires Valid() && s0.log != [] && Abs() == Run(s0, before) && r in readers && readers[r].Missed?
      requires |env| == 3 && |nets| == 2 && forall es | es in env :: NoneByReader(es, r)
      modifies this, cache, cache.redis
      ensures Valid() && Abs() == Run(s0, trace) && (res.Ok? || res.error == NotFound)
      ensures r in readers && readers[r].Returned? && readers[r].found == if res.Ok? then Some(res.value) else None
      ensures Undisturbed(old(cache.connected), env, nets) ==>
                Own(trace, Asking(r)) <= Own(before, Asking(r)) + [Capture(r, nets[0].wire), Fetch(r), Install(r, nets[1].wire)]
      ensures env == [[], [], []] && before == Own(before, Asking(r)) ==> trace == Own(trace, Asking(r))
    {
      trace := Proceed(s0, before, r, env[0], reconnects);
      var version;
      version, trace := VersionTraced(s0, trace, r, nets[0]);
      res, trace := FindAndStore(s0, trace, r, version, env[1], env[2], nets[1], reconnects);
    }

    method FindAndStore(ghost s0: State, ghost before: seq<Step>, r: nat, version: Option<nat>,
                        env1: seq<Step>, env2: seq<Step>, net: Net, reconnects: bool)
      returns (res: Result<Resource, ServiceError>, ghost trace: seq<Step>)
      requires Valid() && s0.log != [] && Abs() == Run(s0, before)
      requires r in readers && readers[r].Captured? && Captures(readers[r].token, version)
      requires NoneByReader(env1, r) && NoneByReader(env2, r)
      modifies this, cache, cache.redis
      ensures Valid() && Abs() == Run(s0, trace) && (res.Ok? || res.error == NotFound)
      ensures r in readers && readers[r].Returned? && readers[r].found == if res.Ok? then Some(res.value) else None
      ensures old(cache.connected) && Benign(env1) && Benign(env2) ==>
                Own(trace, Asking(r)) <= Own(before, Asking(r)) + [Fetch(r), Install(r, net.wire)]
      ensures env1 == [] == env2 && before == Own(before, Asking(r)) ==> trace == Own(trace, Asking(r))
    {
      trace := Proceed(s0, before, r, env1, reconnects);
      var found;
      found, trace := FindTraced(s0, trace, r);
      if found.None? {
        return Err(NotFound), trace;
      }
      trace := Proceed(s0, trace, r, env2, reconnects);
      trace := PutTraced(s0, trace, r, version, found.value, net);
      return Ok(found.value), trace;
    }

    method Proceed(ghost s0: State, ghost before: seq<Step>, r: nat, es: seq<Step>, reconnects: bool)
      returns (ghost trace: seq<Step>)
      requires Valid() && s0.log != [] && Abs() == Run(s0, before) && r in readers && NoneByReader(es, r)
      modifies this, cache, cache.redis
      ensures Valid() && Abs() == Run(s0, trace)
      ensures r in readers && SameUpToTaint(old(readers[r]), readers[r])
      ensures Own(trace, Asking(r)) == Own(before, Asking(r)) && (es == [] ==> trace == before)
      ensures old(cache.connected) && Benign(es) ==> cache.connected
    {
      var more := Interfere(es, reconnects);
      RunAppend(s0, before, more);
      OwnWaits(before, more, Asking(r));
      OthersKeepReader(Run(s0, before), more, r);
      trace := before + more;
    }

    lemma Answer(s0: State, trace: seq<Step>, r: nat, res: Result<Resource, ServiceError>)
      requires s0.log != [] && Abs() == Run(s0, trace)
      requires r !in s0.readers && r in readers && readers[r].Returned?
      requires readers[r].found == if res.Ok? then Some(res.value) else None
      ensures Inv(s0) && AllClean(s0) && s0.versionTtl > 0 && Sheltered(s0, trace) ==> Current(res, s0.settled)
    {
      if Inv(s0) && AllClean(s0) && s0.versionTtl > 0 && Sheltered(s0, trace) {
        var got := readers[r];
        ShelteredStaysClean(s0, trace);
        RunStartsAfter(s0, s0, trace);
        assert ReaderOk(Abs(), Abs().readers[r]);
        assert got.commit < |log| && NotOlderThan(got.commit, s0.settled);
      }
    }

    method ProceedWriter(ghost s0: State, ghost before: seq<Step>, w: nat, es: seq<Step>, reconnects: bool)
      returns (ghost trace: seq<Step>)
      requires Valid() && s0.log != [] && Abs() == Run(s0, before) && NoneByWriter(es, w)
      modifies this, cache, cache.redis
      ensures Valid() && Abs() == Run(s0, trace) && old(log) <= log
      ensures w in writers <==> w in old(writers)
      ensures w in writers ==> writers[w] == old(writers[w])
      ensures NoneByWriter(before, w) ==> NoneByWriter(trace, w)
      ensures Own(trace, Writing(w)) == Own(before, Writing(w))
      ensures old(cache.connected) && Benign(es) ==> cache.connected
      ensures es == [] ==> trace == before && Abs() == old(Abs())
                           && cache.connected == old(cache.connected) && cache.nextReconnect == old(cache.nextReconnect)
    {
      var more := Interfere(es, reconnects);
      RunAppend(s0, before, more);
      OwnWaits(before, more, Writing(w));
      OthersKeepWriter(Run(s0, before), more, w);
      trace := before + more;
    }

    method CommitTraced(ghost s0: State, ghost before: seq<Step>, w: nat, row: Option<Resource>)
      returns (present: bool, ghost trace: seq<Step>)
      requires Valid() && s0.log != [] && Abs() == Run(s0, before) && w !in writers
      modifies this
      ensures Valid() && Abs() == Run(s0, trace) && now == old(now) && present == Last(old(log)).row.Some?
      ensures !present ==> trace == before && log == old(log)
      ensures present ==> w in writers && writers[w] == |old(log)| && log == old(log) + [Commit(now, row)]
      ensures present ==> trace == before + [Write(w, row)] && Own(trace, Writing(w)) == Own(before, Writing(w)) + [Write(w, row)]
    {
      OwnStep(before, Write(w, row), Writing(w));
      present := CommitWrite(w, row);
      RunSnoc(s0, before, Write(w, row));
      trace := if present then before + [Write(w, row)] else before;
    }

    method EvictTraced(ghost s0: State, ghost before: seq<Step>, w: nat, net: Net)
      returns (done: bool, ghost outcome: Wire, ghost trace: seq<Step>)
      requires Valid() && s0.log != [] && Abs() == Run(s0, before) && w in writers
      modifies this, cache, cache.redis
      ensures Valid() && Abs() == Run(s0, trace) && log == old(log) && w !in writers
      ensures outcome == old(cache.Outcome(now, net)) && trace == before + [Settle(w, outcome)]
      ensures done == outcome.Delivered? && Own(trace, Writing(w)) == Own(before, Writing(w)) + [Settle(w, outcome)]
      ensures TakesEffect(outcome) ==> old(writers[w]) in settled && cache.SlotOf(key).body.None?
    {
      ghost var step;
      done, step := CacheEvict(w, net);
      RunSnoc(s0, before, step);
      OwnStep(before, step, Writing(w));
      outcome, trace := step.wire, before + [step];
    }

    /** What became of a write: its commit c, and the outcome of its eviction. Once that has taken effect,
        the cache holds no body and c counts among the evicted commits. */
    ghost predicate Written(c: nat, row: Option<Resource>, before: nat, outcome: Wire)
      reads this, cache, cache.redis
    {
      && before <= c < |log| && log[c].row == row
      && (TakesEffect(outcome) ==> c in settled && cache.SlotOf(key).body.None?)
    }

    /** The common course of update and remove: commit, then evict, with others in between. */
    method CommitThenEvict(w: nat, row: Option<Resource>, env: seq<seq<Step>>, net: Net, reconnects: bool)
      returns (present: bool, evicted: bool, ghost outcome: Wire, ghost trace: seq<Step>)
      requires Valid() && w !in writers && |env| == 2
      requires forall es | es in env :: NoneByWriter(es, w)
      modifies this, cache, cache.redis
      ensures Valid() && Abs() == Run(old(Abs()), trace) && old(log) <= log && w !in writers
      ensures evicted == (present && outcome.Delivered?)
      ensures Own(trace, Writing(w)) == if present then [Write(w, row), Settle(w, outcome)] else []
      ensures present ==> exists c: nat :: Written(c, row, |old(log)|, outcome)
      ensures present && old(cache.connected) && AllBenign(env) ==> outcome == net.wire
      ensures env == [[], []] ==> present == Last(old(log)).row.Some?
      ensures env == [[], []] && present ==> outcome == old(cache.Outcome(now, net)) && log == old(log) + [Commit(old(now), row)]
    {
      ghost var s0 := Abs();
      outcome := Unsent;
      trace := ProceedWriter(s0, [], w, env[0], reconnects);
      ghost var c := |log|;
      present, trace := CommitTraced(s0, trace, w, row);
      if !present {
        return false, false, outcome, trace;
      }
      evicted, outcome, trace := EvictLater(s0, trace, w, env[1], net, reconnects);
      assert log[c].row == row;
      assert Written(c, row, |old(log)|, outcome);
    }

    method EvictLater(ghost s0: State, ghost before: seq<Step>, w: nat, es: seq<Step>, net: Net, reconnects: bool)
      returns (done: bool, ghost outcome: Wire, ghost trace: seq<Step>)
      requires Valid() && s0.log != [] && Abs() == Run(s0, before) && w in writers && NoneByWriter(es, w)
      modifies this, cache, cache.redis
      ensures Valid() && Abs() == Run(s0, trace) && old(log) <= log && w !in writers
      ensures done == outcome.Delivered? && Own(trace, Writing(w)) == Own(before, Writing(w)) + [Settle(w, outcome)]
      ensures TakesEffect(outcome) ==> old(writers[w]) in settled && cache.SlotOf(key).body.None?
      ensures old(cache.connected) && Benign(es) ==> outcome == net.wire
      ensures es == [] ==> log == old(log) && outcome == old(cache.Outcome(now, net))
    {
      trace := ProceedWriter(s0, before, w, es, reconnects);
      done, outcome, trace := EvictTraced(s0, trace, w, net);
    }

    /** `conflict`: the new name violates the uniqueness constraint, so nothing is committed. On success
        the row is committed and its eviction was attempted exactly once; if the eviction takes effect, no
        body is left and no later `get` can miss the commit. While the connection is up, its outcome is what
        the network makes of the command. */
    method Update(w: nat, row: Resource, conflict: bool, env: seq<seq<Step>>, net: Net, reconnects: bool)
      returns (res: Result<Resource, ServiceError>, evicted: bool, ghost outcome: Wire, ghost trace: seq<Step>)
      requires Valid() && w !in writers && |env| == 2
      requires forall es | es in env :: NoneByWriter(es, w)
      modifies this, cache, cache.redis
      ensures Valid() && Abs() == Run(old(Abs()), trace) && w !in writers
      ensures res.Err? ==> Own(trace, Writing(w)) == [] && res.error == if conflict then AlreadyExists else NotFound
      ensures res.Ok? ==> res.value == row && Own(trace, Writing(w)) == [Write(w, Some(row)), Settle(w, outcome)]
      ensures res.Ok? ==> exists c: nat :: Written(c, Some(row), |old(log)|, outcome)
      ensures evicted <==> res.Ok? && outcome.Delivered?
      ensures res.Ok? && old(cache.connected) && AllBenign(env) ==> outcome == net.wire
      ensures env == [[], []] ==> (res.Ok? <==> !conflict && Last(old(log)).row.Some?)
      ensures env == [[], []] && res.Ok? ==>
                outcome == old(cache.Outcome(now, net)) && log == old(log) + [Commit(old(now), Some(row))]
    {
      if conflict {
        return Err(AlreadyExists), false, Unsent, [];
      }
      var present;
      present, evicted, outcome, trace := CommitThenEvict(w, Some(row), env, net, reconnects);
      res := if present then Ok(row) else Err(NotFound);
    }

    method Remove(w: nat, env: seq<seq<Step>>, net: Net, reconnects: bool)
      returns (res: Result<(), ServiceError>, evicted: bool, ghost outcome: Wire, ghost trace: seq<Step>)
      requires Valid() && w !in writers && |env| == 2
      requires forall es | es in env :: NoneByWriter(es, w)
      modifies this, cache, cache.redis
      ensures Valid() && Abs() == Run(old(Abs()), trace) && w !in writers
      ensures res.Err? ==> Own(trace, Writing(w)) == [] && res.error == NotFound
      ensures res.Ok? ==> Own(trace, Writing(w)) == [Write(w, None), Settle(w, outcome)]
      ensures res.Ok? ==> exists c: nat :: Written(c, None, |old(log)|, outcome)
      ensures evicted <==> res.Ok? && outcome.Delivered?
      ensures res.Ok? && old(cache.connected) && AllBenign(env) ==> outcome == net.wire
      ensures env == [[], []] ==> (res.Ok? <==> Last(old(log)).row.Some?)
      ensures env == [[], []] && res.Ok? ==>
                outcome == old(cache.Outcome(now, net)) && log == old(log) + [Commit(old(now), None)]
    {
      var present;
      present, evicted, outcome, trace := CommitThenEvict(w, None, env, net, reconnects);
      res := if present then Ok(()) else Err(NotFound);
    }
  }
}
