/** What any number of migration runs, each of which may die anywhere, leave behind. */
module MigrationTheorems {
  import opened Common
  import opened Migrations

  /** One run: the order in which it saw the directory, and how far each application got. */
  datatype Try = Try(order: seq<Migration>, fates: seq<Fate>)

  function After(db: Db, t: Try): Db {
    Attempt(db, t.order, db.recorded, t.fates).0
  }

  function Returned(db: Db, t: Try): Option<nat> {
    Attempt(db, t.order, db.recorded, t.fates).1
  }

  function History(db: Db, tries: seq<Try>): Db
    decreases |tries|
  {
    if tries == [] then db else History(After(db, tries[0]), tries[1..])
  }

  ghost predicate NoRepeats(ms: seq<Migration>) {
    forall i, j | 0 <= i < j < |ms| :: ms[i] != ms[j]
  }

  /** An ascending listing of the directory, whose file names are distinct. */
  ghost predicate Orders(order: seq<Migration>, files: set<Migration>) {
    Ascending(order) && NoRepeats(order) && forall m :: m in order <==> m in files
  }

  ghost predicate AllOrder(tries: seq<Try>, files: set<Migration>) {
    forall t | t in tries :: Orders(t.order, files)
  }

  // ---------------------------------------------------------------- discovery

  ghost predicate DistinctNames(files: seq<File>) {
    forall i, j | 0 <= i < j < |files| :: files[i].name != files[j].name
  }

  /** Two selected files with different names give different migrations. */
  lemma NamesTellApart(f: File, g: File)
    requires Selected(f) && Selected(g) && f.name != g.name
    ensures AsMigration(f) != AsMigration(g)
  {
    if AsMigration(f).name == AsMigration(g).name {
      SameStem(f.name, g.name);
    }
  }

  lemma NotListedBefore(init: seq<File>, last: File)
    requires Selected(last) && Listed(init).Ok? && forall f | f in init :: f.name != last.name
    ensures AsMigration(last) !in Listed(init).value
  {
    ListedMeaning(init);
    forall f | f in init && Selected(f)
      ensures AsMigration(f) != AsMigration(last)
    {
      NamesTellApart(f, last);
    }
  }

  lemma NoRepeatsSnoc(ms: seq<Migration>, m: Migration)
    requires NoRepeats(ms) && m !in ms
    ensures NoRepeats(ms + [m])
  {
  }

  lemma {:induction false} ListedNoRepeats(files: seq<File>)
    requires DistinctNames(files) && Listed(files).Ok?
    ensures NoRepeats(Listed(files).value)
    decreases |files|
  {
    if files != [] {
      var init, last := files[..|files| - 1], files[|files| - 1];
      ListedNoRepeats(init);
      if Selected(last) {
        assert forall f | f in init :: f.name != last.name;
        NotListedBefore(init, last);
        NoRepeatsSnoc(Listed(init).value, AsMigration(last));
      }
    }
  }

  lemma {:induction false} CountedOnce(ms: seq<Migration>)
    ensures NoRepeats(ms) <==> forall m :: multiset(ms)[m] <= 1
    decreases |ms|
  {
    if ms != [] {
      var init, last := ms[..|ms| - 1], ms[|ms| - 1];
      assert ms == init + [last];
      CountedOnce(init);
      if NoRepeats(ms) {
        assert last !in init;
        assert NoRepeats(init);
      }
      if forall m :: multiset(ms)[m] <= 1 {
        assert multiset(ms)[last] == multiset(init)[last] + 1;
        assert last !in multiset(init);
        assert forall m :: multiset(init)[m] <= multiset(ms)[m];
      }
    }
  }

  /** What a run works through is an ascending listing of the directory's migrations. */
  lemma DiscoveredOrders(files: seq<File>, order: seq<Migration>)
    requires DistinctNames(files) && Listed(files).Ok?
    requires Ascending(order) && multiset(order) == multiset(Listed(files).value)
    ensures Orders(order, set m | m in Listed(files).value)
  {
    ListedNoRepeats(files);
    CountedOnce(Listed(files).value);
    CountedOnce(order);
    assert forall m :: m in order <==> m in multiset(order);
    assert forall m :: m in Listed(files).value <==> m in multiset(Listed(files).value);
  }

  // ---------------------------------------------------------------- one run

  /** The migrations whose SQL a run executes. */
  function Executions(ms: seq<Migration>, applied: set<nat>, fates: seq<Fate>): seq<Migration>
    decreases |ms|
  {
    if ms == [] then []
    else if ms[0].version in applied then Executions(ms[1..], applied, fates)
    else
      match FateOf(fates)
      case BeforeSql => []
      case AfterSql => [ms[0]]
      case Applied => [ms[0]] + Executions(ms[1..], applied, Later(fates))
  }

  lemma {:induction false} AttemptExecutes(db: Db, ms: seq<Migration>, applied: set<nat>, fates: seq<Fate>)
    ensures var (db', count) := Attempt(db, ms, applied, fates);
            && db'.executed == db.executed + Executions(ms, applied, fates)
            && db.recorded <= db'.recorded
            && (forall v | v in db'.recorded :: v in db.recorded || exists m | m in Executions(ms, applied, fates) :: m.version == v)
            && (count.Some? ==> count.value == |Executions(ms, applied, fates)|)
            && (count.Some? ==> forall m | m in ms :: m.version in applied || m.version in db'.recorded)
    decreases |ms|
  {
    if ms != [] {
      assert ms == [ms[0]] + ms[1..];
      if ms[0].version in applied {
        AttemptExecutes(db, ms[1..], applied, fates);
      } else if FateOf(fates).Applied? {
        AttemptExecutes(Record(Execute(db, ms[0]), ms[0]), ms[1..], applied, Later(fates));
        var all, rest := Executions(ms, applied, fates), Executions(ms[1..], applied, Later(fates));
        assert all == [ms[0]] + rest;
        assert all[0] == ms[0] && forall m | m in rest :: m in all;
      } else if FateOf(fates).AfterSql? {
        assert Executions(ms, applied, fates)[0] == ms[0];
      }
    }
  }

  lemma {:induction false} ExecutionsAreNew(ms: seq<Migration>, applied: set<nat>, fates: seq<Fate>)
    requires Ascending(ms)
    ensures Ascending(Executions(ms, applied, fates))
    ensures forall m | m in Executions(ms, applied, fates) :: m in ms && m.version !in applied
    decreases |ms|
  {
    if ms != [] {
      assert ms == [ms[0]] + ms[1..];
      ExecutionsAreNew(ms[1..], applied, fates);
      ExecutionsAreNew(ms[1..], applied, Later(fates));
    }
  }

  /** One run executes, in ascending order of version, migrations of the directory that were not recorded
      when it began; what it returns is how many. */
  lemma RunExecutesOnlyUnrecorded(db: Db, t: Try)
    requires Ascending(t.order)
    ensures var ran := Executions(t.order, db.recorded, t.fates);
            && After(db, t).executed == db.executed + ran
            && Ascending(ran)
            && (forall m | m in ran :: m in t.order && m.version !in db.recorded)
            && (Returned(db, t).Some? ==> Returned(db, t).value == |ran|)
  {
    AttemptExecutes(db, t.order, db.recorded, t.fates);
    ExecutionsAreNew(t.order, db.recorded, t.fates);
  }

  // ---------------------------------------------------------------- all runs

  ghost predicate RecordedWereExecuted(db: Db) {
    forall v | v in db.recorded :: exists m | m in db.executed :: m.version == v
  }

  /** After any runs whatever, a recorded version has had its SQL executed. */
  lemma {:induction false} RecordedImpliesExecuted(db: Db, tries: seq<Try>)
    requires RecordedWereExecuted(db)
    ensures RecordedWereExecuted(History(db, tries))
    ensures db.recorded <= History(db, tries).recorded
    decreases |tries|
  {
    if tries != [] {
      var t := tries[0];
      AttemptExecutes(db, t.order, db.recorded, t.fates);
      forall v | v in After(db, t).recorded
        ensures exists m | m in After(db, t).executed :: m.version == v
      {
        var ran := Executions(t.order, db.recorded, t.fates);
        if v in db.recorded {
          var m :| m in db.executed && m.version == v;
          assert m in After(db, t).executed;
        } else {
          var m :| m in ran && m.version == v;
          assert m in After(db, t).executed;
        }
      }
      RecordedImpliesExecuted(After(db, t), tries[1..]);
    }
  }

  lemma {:induction false} NothingPending(db: Db, ms: seq<Migration>, applied: set<nat>, fates: seq<Fate>)
    requires forall m | m in ms :: m.version in applied
    ensures Attempt(db, ms, applied, fates) == (db, Some(0))
    decreases |ms|
  {
    if ms != [] {
      assert ms[0] in ms && forall m | m in ms[1..] :: m in ms;
      NothingPending(db, ms[1..], applied, fates);
    }
  }

  /** After a run that completed, no run over the same directory changes anything, and each returns 0. */
  lemma CompletedMeansDone(db: Db, done: Try, later: seq<Try>, next: Try, files: set<Migration>)
    requires Returned(db, done).Some? && Orders(done.order, files) && AllOrder(later, files) && Orders(next.order, files)
    ensures var s := After(db, done);
            History(s, later) == s && After(s, next) == s && Returned(s, next) == Some(0)
  {
    AttemptExecutes(db, done.order, db.recorded, done.fates);
    var s := After(db, done);
    assert forall m | m in files :: m in done.order;
    NothingChanges(s, later, files);
    NothingPending(s, next.order, s.recorded, next.fates);
  }

  lemma {:induction false} NothingChanges(s: Db, tries: seq<Try>, files: set<Migration>)
    requires forall m | m in files :: m.version in s.recorded
    requires AllOrder(tries, files)
    ensures History(s, tries) == s
    decreases |tries|
  {
    if tries != [] {
      assert tries[0] in tries && forall t | t in tries[1..] :: t in tries;
      NothingPending(s, tries[0].order, s.recorded, tries[0].fates);
      NothingChanges(s, tries[1..], files);
    }
  }

  // ---------------------------------------------------------------- distinct versions: order and repetition

  ghost predicate DistinctVersions(files: set<Migration>) {
    forall a, b | a in files && b in files && a.version == b.version :: a == b
  }

  const EMPTY: Db := Db([], {})

  function Versions(ms: seq<Migration>): set<nat> {
    set m | m in ms :: m.version
  }

  /** The sequence without immediate repetitions. */
  function Squeezed(ms: seq<Migration>): (r: seq<Migration>)
    ensures ms != [] <==> r != []
    ensures ms != [] ==> r[|r| - 1] == ms[|ms| - 1]
    decreases |ms|
  {
    if |ms| <= 1 then ms
    else
      var init, last := ms[..|ms| - 1], ms[|ms| - 1];
      if last == init[|init| - 1] then Squeezed(init) else Squeezed(init) + [last]
  }

  lemma SqueezeSnoc(ms: seq<Migration>, m: Migration)
    ensures Squeezed(ms + [m]) ==
            if ms != [] && ms[|ms| - 1] == m then Squeezed(ms) else Squeezed(ms) + [m]
  {
    assert (ms + [m])[..|ms|] == ms;
  }

  ghost predicate Strict(order: seq<Migration>) {
    forall i, j | 0 <= i < j < |order| :: order[i].version < order[j].version
  }

  /** The first k migrations are recorded, and they, and at most the next one, have been executed in
      order, each perhaps several times in a row; `exact`: once each, and not the next one. */
  ghost predicate OnTrack(db: Db, order: seq<Migration>, k: nat, exact: bool) {
    && k <= |order|
    && db.recorded == Versions(order[..k])
    && (Squeezed(db.executed) == order[..k] || (k < |order| && Squeezed(db.executed) == order[..k + 1]))
    && (exact ==> db.executed == order[..k])
  }

  lemma ExecuteOnTrack(db: Db, order: seq<Migration>, k: nat, exact: bool)
    requires Strict(order) && k < |order| && OnTrack(db, order, k, exact)
    ensures Squeezed(Execute(db, order[k]).executed) == order[..k + 1]
    ensures exact ==> Execute(db, order[k]).executed == order[..k + 1]
  {
    var m := order[k];
    SqueezeSnoc(db.executed, m);
    assert order[..k + 1] == order[..k] + [m];
    var seen := Squeezed(db.executed);
    if seen == order[..k] && db.executed != [] {
      assert seen[|seen| - 1] == order[k - 1] && order[k - 1].version < m.version;
    } else if seen == order[..k + 1] {
      assert seen[|seen| - 1] == m;
    }
  }

  lemma VersionsCons(m: Migration, ms: seq<Migration>)
    ensures Versions([m] + ms) == {m.version} + Versions(ms)
  {
    forall v
      ensures v in Versions([m] + ms) <==> v == m.version || v in Versions(ms)
    {
      if v in Versions(ms) {
        var x :| x in ms && x.version == v;
        assert x in [m] + ms;
      }
      assert m in [m] + ms;
    }
  }

  lemma VersionsSnoc(order: seq<Migration>, j: nat)
    requires j < |order|
    ensures Versions(order[..j + 1]) == Versions(order[..j]) + {order[j].version}
  {
    var ms, m := order[..j], order[j];
    assert order[..j + 1] == ms + [m];
    forall v
      ensures v in Versions(ms + [m]) <==> v in Versions(ms) || v == m.version
    {
      if v in Versions(ms) {
        var x :| x in ms && x.version == v;
        assert x in ms + [m];
      }
      assert m in ms + [m];
    }
  }

  /** Recording what was just executed moves on by one; dying before that need not. */
  lemma StepOnTrack(db: Db, order: seq<Migration>, j: nat, exact: bool)
    requires Strict(order) && j < |order| && OnTrack(db, order, j, exact)
    ensures OnTrack(Record(Execute(db, order[j]), order[j]), order, j + 1, exact)
    ensures OnTrack(Execute(db, order[j]), order, if order[j].recordsItself then j + 1 else j, false)
  {
    ExecuteOnTrack(db, order, j, exact);
    VersionsSnoc(order, j);
  }

  lemma {:induction false} AttemptOnTrack(db: Db, order: seq<Migration>, j: nat, applied: set<nat>, fates: seq<Fate>, exact: bool)
    returns (k: nat)
    requires Strict(order) && OnTrack(db, order, j, exact)
    requires forall i | j <= i < |order| :: order[i].version !in applied
    requires exact ==> AfterSql !in fates
    ensures OnTrack(Attempt(db, order[j..], applied, fates).0, order, k, exact)
    ensures Attempt(db, order[j..], applied, fates).1.Some? ==> k == |order|
    decreases |order| - j
  {
    k := j;
    if j < |order| {
      var m := order[j];
      var db' := Record(Execute(db, m), m);
      assert order[j..][0] == m && order[j..][1..] == order[j + 1..];
      StepOnTrack(db, order, j, exact);
      match FateOf(fates) {
        case BeforeSql =>
        case AfterSql => k := if m.recordsItself then j + 1 else j;
        case Applied => k := AttemptOnTrack(db', order, j + 1, applied, Later(fates), exact);
      }
    }
  }

  lemma {:induction false} SkipApplied(db: Db, order: seq<Migration>, k: nat, applied: set<nat>, fates: seq<Fate>)
    requires k <= |order| && forall i | 0 <= i < k :: order[i].version in applied
    ensures Attempt(db, order, applied, fates) == Attempt(db, order[k..], applied, fates)
    decreases k
  {
    if k == 0 {
      assert order[0..] == order;
    } else {
      SkipApplied(db, order[1..], k - 1, applied, fates);
      assert order[1..][k - 1..] == order[k..];
    }
  }

  lemma RunOnTrack(db: Db, order: seq<Migration>, k: nat, fates: seq<Fate>, exact: bool) returns (k': nat)
    requires Strict(order) && OnTrack(db, order, k, exact) && (exact ==> AfterSql !in fates)
    ensures OnTrack(After(db, Try(order, fates)), order, k', exact)
    ensures Returned(db, Try(order, fates)).Some? ==> k' == |order|
  {
    forall i | 0 <= i < k
      ensures order[i].version in db.recorded
    {
      assert order[..k][i] == order[i];
    }
    forall i | k <= i < |order|
      ensures order[i].version !in db.recorded
    {
      assert forall m | m in order[..k] :: m.version < order[i].version;
    }
    SkipApplied(db, order, k, db.recorded, fates);
    k' := AttemptOnTrack(db, order, k, db.recorded, fates, exact);
  }

  lemma {:induction false} StrictUnique(a: seq<Migration>, b: seq<Migration>)
    requires Strict(a) && Strict(b) && forall m :: m in a <==> m in b
    ensures a == b
    decreases |a|
  {
    assert b != [] ==> b[0] in b;
    if a != [] {
      assert a[0] in b && b != [] && b[0] in a;
      assert a[0] == b[0];
      forall m
        ensures m in a[1..] <==> m in b[1..]
      {
        assert m in a <==> m == a[0] || m in a[1..];
        assert m in b <==> m == b[0] || m in b[1..];
      }
      StrictUnique(a[1..], b[1..]);
    }
  }

  lemma OrderIsStrict(order: seq<Migration>, files: set<Migration>)
    requires Orders(order, files) && DistinctVersions(files)
    ensures Strict(order)
  {
    forall i, j | 0 <= i < j < |order|
      ensures order[i].version < order[j].version
    {
      assert order[i] in files && order[j] in files;
    }
  }

  ghost predicate NoGaps(tries: seq<Try>) {
    forall t | t in tries :: AfterSql !in t.fates
  }

  lemma {:induction false} HistoryOnTrack(db: Db, order: seq<Migration>, k: nat, files: set<Migration>, tries: seq<Try>, exact: bool)
    returns (k': nat)
    requires Orders(order, files) && DistinctVersions(files) && AllOrder(tries, files)
    requires OnTrack(db, order, k, exact) && (exact ==> NoGaps(tries))
    ensures OnTrack(History(db, tries), order, k', exact)
    decreases |tries|
  {
    k' := k;
    if tries != [] {
      var t := tries[0];
      assert t in tries && forall u | u in tries[1..] :: u in tries;
      OrderIsStrict(order, files);
      OrderIsStrict(t.order, files);
      StrictUnique(t.order, order);
      assert t == Try(order, t.fates);
      var k1 := RunOnTrack(db, order, k, t.fates, exact);
      k' := HistoryOnTrack(After(db, t), order, k1, files, tries[1..], exact);
    }
  }

  /** Over a directory with distinct versions, and however the runs die, the SQL is executed in the
      directory's order: what was executed, immediate repetitions aside, are the recorded migrations and at
      most the one after them. If no run dies between SQL and record, nothing is ever executed twice. */
  lemma RetriesFollowTheOrder(files: set<Migration>, order: seq<Migration>, tries: seq<Try>) returns (k: nat)
    requires Orders(order, files) && DistinctVersions(files) && AllOrder(tries, files)
    ensures OnTrack(History(EMPTY, tries), order, k, false)
    ensures NoGaps(tries) ==> History(EMPTY, tries).executed == order[..k]
  {
    k := HistoryOnTrack(EMPTY, order, 0, files, tries, false);
    if NoGaps(tries) {
      var k' := HistoryOnTrack(EMPTY, order, 0, files, tries, true);
      k := k';
    }
  }

  // ---------------------------------------------------------------- does a completed run mean everything ran?

  lemma {:induction false} ExecutedAreFiles(db: Db, tries: seq<Try>, files: set<Migration>)
    requires AllOrder(tries, files) && forall m | m in db.executed :: m in files
    ensures forall m | m in History(db, tries).executed :: m in files
    decreases |tries|
  {
    if tries != [] {
      assert tries[0] in tries && forall u | u in tries[1..] :: u in tries;
      RunExecutesOnlyUnrecorded(db, tries[0]);
      ExecutedAreFiles(After(db, tries[0]), tries[1..], files);
    }
  }

  lemma {:induction false} HistorySnoc(db: Db, tries: seq<Try>, t: Try)
    ensures History(db, tries + [t]) == After(History(db, tries), t)
    decreases |tries|
  {
    if tries == [] {
      assert [] + [t] == [t] && [t][1..] == [];
    } else {
      assert (tries + [t])[1..] == tries[1..] + [t];
      HistorySnoc(After(db, tries[0]), tries[1..], t);
    }
  }

  /** The last run completed although this migration's SQL was never executed. */
  ghost predicate Misses(files: set<Migration>, tries: seq<Try>, last: Try, m: Migration) {
    && AllOrder(tries, files) && Orders(last.order, files)
    && Returned(History(EMPTY, tries), last).Some?
    && m in files && m !in After(History(EMPTY, tries), last).executed
  }

  lemma CompletedCovers(files: set<Migration>, tries: seq<Try>, last: Try, m: Migration)
    requires DistinctVersions(files) && AllOrder(tries, files) && Orders(last.order, files)
    requires Returned(History(EMPTY, tries), last).Some? && m in files
    ensures m in After(History(EMPTY, tries), last).executed
  {
    var all := tries + [last];
    HistorySnoc(EMPTY, tries, last);
    assert AllOrder(all, files);
    RecordedImpliesExecuted(EMPTY, all);
    ExecutedAreFiles(EMPTY, all, files);
    var db := History(EMPTY, tries);
    AttemptExecutes(db, last.order, db.recorded, last.fates);
    assert m in last.order && m.version in After(db, last).recorded;
    var m' :| m' in After(db, last).executed && m'.version == m.version;
  }

  function Stops(n: nat): seq<Fate> {
    if n == 0 then [BeforeSql] else [Applied] + Stops(n - 1)
  }

  lemma {:induction false} StopAfter(db: Db, ms: seq<Migration>, n: nat)
    requires n < |ms|
    ensures Attempt(db, ms, {}, Stops(n)).0 == Db(db.executed + ms[..n], db.recorded + Versions(ms[..n]))
    decreases n
  {
    if n > 0 {
      assert Later(Stops(n)) == Stops(n - 1);
      StopAfter(Record(Execute(db, ms[0]), ms[0]), ms[1..], n - 1);
      OneMore(db, ms, n);
    }
  }

  lemma OneMore(db: Db, ms: seq<Migration>, n: nat)
    requires 0 < n < |ms|
    ensures var db' := Record(Execute(db, ms[0]), ms[0]);
            && db'.executed + ms[1..][..n - 1] == db.executed + ms[..n]
            && db'.recorded + Versions(ms[1..][..n - 1]) == db.recorded + Versions(ms[..n])
  {
    var rest := ms[1..][..n - 1];
    assert ms[..n] == [ms[0]] + rest;
    VersionsCons(ms[0], rest);
  }

  lemma {:induction false} UndisturbedCompletes(db: Db, ms: seq<Migration>, applied: set<nat>)
    ensures Attempt(db, ms, applied, []).1.Some?
    decreases |ms|
  {
    if ms != [] {
      UndisturbedCompletes(db, ms[1..], applied);
      UndisturbedCompletes(Record(Execute(db, ms[0]), ms[0]), ms[1..], applied);
    }
  }

  lemma {:induction false} OrderExists(files: set<Migration>) returns (order: seq<Migration>)
    ensures Orders(order, files)
    decreases |files|
  {
    if files == {} {
      order := [];
    } else {
      var m :| m in files;
      var rest := OrderExists(files - {m});
      var k := Place(rest, m);
      InsertedAscends(rest, m, k);
      order := rest[..k] + [m] + rest[k..];
      assert rest == rest[..k] + rest[k..];
      assert forall x :: x in order <==> x == m || x in rest;
    }
  }

  lemma {:induction false} Place(sorted: seq<Migration>, m: Migration) returns (k: nat)
    requires Ascending(sorted)
    ensures k <= |sorted|
    ensures forall j | 0 <= j < k :: sorted[j].version <= m.version
    ensures forall j | k <= j < |sorted| :: sorted[j].version >= m.version
    decreases |sorted|
  {
    k := |sorted|;
    if sorted != [] && sorted[|sorted| - 1].version > m.version {
      var init := sorted[..|sorted| - 1];
      k := Place(init, m);
      assert forall j | 0 <= j < |init| :: sorted[j] == init[j];
    }
  }

  lemma Prefix(order: seq<Migration>, p: nat, q: nat)
    requires NoRepeats(order) && p < q < |order|
    ensures order[p].version in Versions(order[..p + 1]) && order[q] !in order[..p + 1]
  {
    var first := order[..p + 1];
    assert first[p] == order[p] && order[p] in first;
    assert forall i | 0 <= i < |first| :: first[i] == order[i] && order[i] != order[q];
  }

  lemma FirstRunStops(db: Db, order: seq<Migration>, n: nat)
    requires db.recorded == {} && db.executed == [] && n < |order|
    ensures After(db, Try(order, Stops(n))) == Db(order[..n], Versions(order[..n]))
  {
    StopAfter(db, order, n);
    assert db.executed + order[..n] == order[..n];
    assert db.recorded + Versions(order[..n]) == Versions(order[..n]);
  }

  lemma StoppedBetween(order: seq<Migration>, p: nat, n: nat, q: nat) returns (db: Db)
    requires NoRepeats(order) && p < q < |order| && n == p + 1
    ensures db == After(EMPTY, Try(order, Stops(n)))
    ensures order[p].version in db.recorded && order[q] !in db.executed
  {
    db := Db(order[..n], Versions(order[..n]));
    FirstRunStops(EMPTY, order, n);
    Prefix(order, p, q);
  }

  lemma RecordedIsSkipped(db: Db, order: seq<Migration>, m: Migration)
    requires Ascending(order) && m.version in db.recorded && m !in db.executed
    ensures Returned(db, Try(order, [])).Some? && m !in After(db, Try(order, [])).executed
  {
    UndisturbedCompletes(db, order, db.recorded);
    RunExecutesOnlyUnrecorded(db, Try(order, []));
  }

  /** Two files of one version: the run stops after the first of them, and the next run takes the second
      for done. */
  lemma DuplicateIsMissed(files: set<Migration>, order: seq<Migration>, p: nat, q: nat)
    requires Orders(order, files) && p < q < |order| && order[p].version == order[q].version
    ensures Misses(files, [Try(order, Stops(p + 1))], Try(order, []), order[q])
  {
    var n := p + 1;
    var db := StoppedBetween(order, p, n, q);
    RecordedIsSkipped(db, order, order[q]);
    OneRun(EMPTY, Try(order, Stops(n)));
  }

  lemma OneRun(db: Db, t: Try)
    ensures History(db, [t]) == After(db, t)
  {
    assert [t][1..] == [];
  }

  /** "A completed run leaves no migration unexecuted" holds of a directory, whatever runs died before,
      if and only if its files have distinct versions. */
  lemma CompletionCoversIff(files: set<Migration>)
    ensures DistinctVersions(files) <==> forall tries, last, m :: !Misses(files, tries, last, m)
  {
    forall tries, last, m | DistinctVersions(files)
      ensures !Misses(files, tries, last, m)
    {
      if AllOrder(tries, files) && Orders(last.order, files) && Returned(History(EMPTY, tries), last).Some? && m in files {
        CompletedCovers(files, tries, last, m);
      }
    }
    if !DistinctVersions(files) {
      var a, b :| a in files && b in files && a.version == b.version && a != b;
      var order := OrderExists(files);
      assert a in order && b in order;
      var p, q :| 0 <= p < |order| && 0 <= q < |order| && order[p] == a && order[q] == b;
      DuplicateIsMissed(files, order, Min(p, q), Max(p, q));
    }
  }
}
