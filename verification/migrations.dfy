/** Schema migrations: discovering them, applying the pending ones, and dying at any point. */
module Migrations {
  import opened Common

  /** `recordsItself`: its SQL also inserts its own version into schema_migrations. */
  datatype Migration = Migration(version: nat, name: string, sql: string, recordsItself: bool)

  /** The SQL executed so far, in order, and the versions in schema_migrations. */
  datatype Db = Db(executed: seq<Migration>, recorded: set<nat>)

  /** How far the application of one migration gets: all the way, or the run stops before its SQL took
      effect, or after it took effect but before its version was recorded. */
  datatype Fate = Applied | BeforeSql | AfterSql

  predicate Ascending(ms: seq<Migration>) {
    forall i, j | 0 <= i < j < |ms| :: ms[i].version <= ms[j].version
  }

  function FateOf(fates: seq<Fate>): Fate {
    if fates == [] then Applied else fates[0]
  }

  function Later(fates: seq<Fate>): seq<Fate> {
    if fates == [] then [] else fates[1..]
  }

  function Execute(db: Db, m: Migration): Db {
    Db(db.executed + [m], if m.recordsItself then db.recorded + {m.version} else db.recorded)
  }

  function Record(db: Db, m: Migration): Db {
    db.(recorded := db.recorded + {m.version})
  }

  function Plus(count: Option<nat>, n: nat): Option<nat> {
    if count.Some? then Some(count.value + n) else None
  }

  /** A run over the discovered migrations, given the versions recorded when it began; the count is None
      if it stops before the end. */
  function Attempt(db: Db, ms: seq<Migration>, applied: set<nat>, fates: seq<Fate>): (Db, Option<nat>)
    decreases |ms|
  {
    if ms == [] then (db, Some(0))
    else if ms[0].version in applied then Attempt(db, ms[1..], applied, fates)
    else
      match FateOf(fates)
      case BeforeSql => (db, None)
      case AfterSql => (Execute(db, ms[0]), None)
      case Applied =>
        var (db', count) := Attempt(Record(Execute(db, ms[0]), ms[0]), ms[1..], applied, Later(fates));
        (db', Plus(count, 1))
  }

  // ---------------------------------------------------------------- discovery

  datatype File = File(name: string, regular: bool, readable: bool, content: string, recordsItself: bool)

  datatype MigrationError = CannotOpen(file: string) | EmptyFile(file: string) | VersionTooLarge(file: string) | Stopped

  const MAX_VERSION: nat := 0x7fff_ffff_ffff_ffff

  predicate IsDigit(c: char) {
    '0' <= c <= '9'
  }

  function DigitCount(s: string): (n: nat)
    ensures n <= |s|
    ensures forall i | 0 <= i < n :: IsDigit(s[i])
    ensures n < |s| ==> !IsDigit(s[n])
  {
    if s != "" && IsDigit(s[0]) then 1 + DigitCount(s[1..]) else 0
  }

  function Number(digits: string): nat
    requires forall i | 0 <= i < |digits| :: IsDigit(digits[i])
  {
    if digits == "" then 0
    else
      var last := digits[|digits| - 1];
      assert IsDigit(last);
      10 * Number(digits[..|digits| - 1]) + (last - '0') as nat
  }

  const SUFFIX := ".sql"

  /** Digits, an underscore, at least one character that is no line break, and the suffix. */
  predicate IsMigrationName(name: string) {
    var n := DigitCount(name);
    && 0 < n && n + 1 + 1 + |SUFFIX| <= |name|
    && name[n] == '_'
    && name[|name| - |SUFFIX|..] == SUFFIX
    && forall i | n < i < |name| - |SUFFIX| :: name[i] != '\n' && name[i] != '\r'
  }

  predicate Selected(f: File) {
    f.regular && IsMigrationName(f.name)
  }

  function VersionOf(name: string): nat {
    Number(name[..DigitCount(name)])
  }

  function Problem(f: File): Option<MigrationError> {
    if VersionOf(f.name) > MAX_VERSION then Some(VersionTooLarge(f.name))
    else if !f.readable then Some(CannotOpen(f.name))
    else if f.content == "" then Some(EmptyFile(f.name))
    else None
  }

  function AsMigration(f: File): Migration
    requires Selected(f)
  {
    Migration(VersionOf(f.name), f.name[..|f.name| - |SUFFIX|], f.content, f.recordsItself)
  }

  /** The migrations of a directory, or the first problem met while listing it. */
  function Listed(files: seq<File>): Result<seq<Migration>, MigrationError>
    decreases |files|
  {
    if files == [] then Ok([])
    else
      var init, last := files[..|files| - 1], files[|files| - 1];
      var rest := Listed(init);
      if rest.Err? || !Selected(last) then rest
      else if Problem(last).Some? then Err(Problem(last).value)
      else Ok(rest.value + [AsMigration(last)])
  }

  /** Discovery finds exactly the migrations of the files it selects, unless one of these has a problem. */
  lemma {:induction false} ListedMeaning(files: seq<File>)
    ensures Listed(files).Err? <==> exists f | f in files :: Selected(f) && Problem(f).Some?
    ensures Listed(files).Ok? ==>
              forall m :: m in Listed(files).value <==> exists f | f in files && Selected(f) :: AsMigration(f) == m
    decreases |files|
  {
    if files != [] {
      var init, last := files[..|files| - 1], files[|files| - 1];
      assert files == init + [last];
      ListedMeaning(init);
      assert forall f :: f in files <==> f in init || f == last;
    }
  }

  lemma SameStem(a: string, b: string)
    requires |a| >= |SUFFIX| && |b| >= |SUFFIX| && a[|a| - |SUFFIX|..] == b[|b| - |SUFFIX|..]
    requires a[..|a| - |SUFFIX|] == b[..|b| - |SUFFIX|]
    ensures a == b
  {
    assert a == a[..|a| - |SUFFIX|] + a[|a| - |SUFFIX|..];
    assert b == b[..|b| - |SUFFIX|] + b[|b| - |SUFFIX|..];
  }

  // ---------------------------------------------------------------- names and numbers

  const DIGITS := "0123456789"

  /** The decimal text of a number. */
  function Text(n: nat): string {
    if n < 10 then [DIGITS[n]] else Text(n / 10) + [DIGITS[n % 10]]
  }

  ghost predicate IsDigits(s: string) {
    forall i | 0 <= i < |s| :: IsDigit(s[i])
  }

  ghost predicate IsZeros(s: string) {
    forall i | 0 <= i < |s| :: s[i] == '0'
  }

  lemma NumberSnoc(s: string, d: nat)
    requires d < 10 && IsDigits(s)
    ensures IsDigits(s + [DIGITS[d]]) && Number(s + [DIGITS[d]]) == 10 * Number(s) + d
  {
    DigitValue(d);
    assert (s + [DIGITS[d]])[..|s|] == s;
  }

  lemma DigitValue(d: nat)
    requires d < 10
    ensures IsDigit(DIGITS[d]) && (DIGITS[d] - '0') as int == d
  {
    assert d == 0 || d == 1 || d == 2 || d == 3 || d == 4 || d == 5 || d == 6 || d == 7 || d == 8 || d == 9;
  }

  lemma {:induction false} ZerosAreZero(zeros: string)
    requires IsZeros(zeros)
    ensures IsDigits(zeros) && Number(zeros) == 0
    decreases |zeros|
  {
    if zeros != "" {
      ZerosAreZero(zeros[..|zeros| - 1]);
    }
  }

  /** Reading the decimal text of n, with any leading zeros, gives n. */
  lemma {:induction false} ReadsDecimal(zeros: string, n: nat)
    requires IsZeros(zeros)
    ensures IsDigits(zeros + Text(n)) && Number(zeros + Text(n)) == n
    decreases n
  {
    if n < 10 {
      ZerosAreZero(zeros);
      NumberSnoc(zeros, n);
    } else {
      ReadsDecimal(zeros, n / 10);
      NumberSnoc(zeros + Text(n / 10), n % 10);
      assert zeros + Text(n) == zeros + Text(n / 10) + [DIGITS[n % 10]];
    }
  }

  lemma {:induction false} CountsDigits(digits: string, rest: string)
    requires IsDigits(digits) && (rest != "" ==> !IsDigit(rest[0]))
    ensures DigitCount(digits + rest) == |digits|
    decreases |digits|
  {
    if digits == "" {
      assert digits + rest == rest;
    } else {
      assert (digits + rest)[1..] == digits[1..] + rest;
      CountsDigits(digits[1..], rest);
    }
  }

  /** The parts of a migration's file name. */
  ghost predicate Parts(name: string, digits: string, rest: string) {
    && name == digits + "_" + rest + ".sql"
    && digits != "" && IsDigits(digits)
    && rest != "" && '\n' !in rest && '\r' !in rest
  }

  lemma PartsAreName(name: string, digits: string, rest: string)
    requires Parts(name, digits, rest)
    ensures IsMigrationName(name) && VersionOf(name) == Number(digits)
  {
    var tail := "_" + rest + ".sql";
    assert name == digits + tail;
    CountsDigits(digits, tail);
    var n := |digits|;
    assert name[..n] == digits && name[n] == '_';
    assert name[|name| - 4..] == ".sql";
    forall i | n < i < |name| - |SUFFIX|
      ensures name[i] != '\n' && name[i] != '\r'
    {
      assert name[i] == rest[i - n - 1] && rest[i - n - 1] in rest;
    }
  }

  lemma NameHasParts(name: string) returns (digits: string, rest: string)
    requires IsMigrationName(name)
    ensures Parts(name, digits, rest)
  {
    var n := DigitCount(name);
    digits, rest := name[..n], name[n + 1..|name| - 4];
    assert name == digits + [name[n]] + rest + name[|name| - 4..];
    forall c | c in rest
      ensures c != '\n' && c != '\r'
    {
      var i :| 0 <= i < |rest| && rest[i] == c;
      assert name[n + 1 + i] == c;
    }
  }

  /** The names selected are exactly: digits, an underscore, a non-empty rest without line breaks, ".sql". */
  lemma NameMeaning(name: string)
    ensures IsMigrationName(name) <==> exists digits, rest :: Parts(name, digits, rest)
  {
    if IsMigrationName(name) {
      var digits, rest := NameHasParts(name);
    }
    if digits, rest :| Parts(name, digits, rest) {
      PartsAreName(name, digits, rest);
    }
  }

  /** The name begins with the number n, written in decimal with any leading zeros. */
  ghost predicate NumberedName(name: string, n: nat) {
    exists zeros, rest :: IsZeros(zeros) && Parts(name, zeros + Text(n), rest)
  }

  lemma NumberIsVersion(name: string, n: nat)
    requires NumberedName(name, n)
    ensures IsMigrationName(name) && VersionOf(name) == n
  {
    var zeros, rest :| IsZeros(zeros) && Parts(name, zeros + Text(n), rest);
    ReadsDecimal(zeros, n);
    PartsAreName(name, zeros + Text(n), rest);
  }

  /** What a file with a numbered name becomes. */
  ghost predicate Becomes(f: File, n: nat, m: Migration) {
    m.version == n && m.name + ".sql" == f.name && m.sql == f.content
  }

  lemma FileBecomes(f: File)
    requires Selected(f)
    ensures Becomes(f, VersionOf(f.name), AsMigration(f))
  {
    assert f.name == f.name[..|f.name| - 4] + f.name[|f.name| - 4..];
  }

  /** Every regular file named by a number becomes a migration of that version. */
  ghost predicate FindsNumbered(files: seq<File>, found: seq<Migration>) {
    forall f, n: nat | f in files && f.regular && NumberedName(f.name, n) :: exists m | m in found :: Becomes(f, n, m)
  }

  /** Files named by smaller numbers come first. */
  ghost predicate InNumericOrder(files: seq<File>, found: seq<Migration>) {
    forall f, g, i: nat, j: nat, p, q |
      f in files && g in files && NumberedName(f.name, i) && NumberedName(g.name, j) && i < j
      && 0 <= p < |found| && 0 <= q < |found| && found[p].name + ".sql" == f.name && found[q].name + ".sql" == g.name ::
      p < q
  }

  /** A found migration has the version that its name begins with. */
  lemma FoundVersion(files: seq<File>, found: seq<Migration>, p: nat, f: File, n: nat)
    requires Listed(files).Ok? && multiset(found) == multiset(Listed(files).value) && p < |found|
    requires NumberedName(f.name, n) && found[p].name + ".sql" == f.name
    ensures found[p].version == n
  {
    ListedMeaning(files);
    assert found[p] in multiset(found);
    assert found[p] in Listed(files).value;
    var g :| g in files && Selected(g) && AsMigration(g) == found[p];
    FileBecomes(g);
    NumberIsVersion(f.name, n);
  }

  lemma FoundByNumber(files: seq<File>, found: seq<Migration>)
    requires Listed(files).Ok? && Ascending(found) && multiset(found) == multiset(Listed(files).value)
    ensures FindsNumbered(files, found) && InNumericOrder(files, found)
  {
    forall f, n: nat | f in files && f.regular && NumberedName(f.name, n)
      ensures exists m | m in found :: Becomes(f, n, m)
    {
      NumberIsVersion(f.name, n);
      FileBecomes(f);
      ListedMeaning(files);
      assert AsMigration(f) in Listed(files).value;
      assert AsMigration(f) in multiset(found);
    }
    forall f, g, i: nat, j: nat, p, q |
      f in files && g in files && NumberedName(f.name, i) && NumberedName(g.name, j) && i < j
      && 0 <= p < |found| && 0 <= q < |found| && found[p].name + ".sql" == f.name && found[q].name + ".sql" == g.name
      ensures p < q
    {
      FoundVersion(files, found, p, f, i);
      FoundVersion(files, found, q, g, j);
    }
  }

  lemma InsertedAscends(sorted: seq<Migration>, m: Migration, k: nat)
    requires Ascending(sorted) && k <= |sorted|
    requires forall j | 0 <= j < k :: sorted[j].version <= m.version
    requires forall j | k <= j < |sorted| :: sorted[j].version >= m.version
    ensures Ascending(sorted[..k] + [m] + sorted[k..])
    ensures multiset(sorted[..k] + [m] + sorted[k..]) == multiset(sorted) + multiset{m}
  {
    assert sorted == sorted[..k] + sorted[k..];
  }

  /** Where a migration belongs: behind all that are not newer. */
  method InsertionPoint(sorted: seq<Migration>, m: Migration) returns (k: nat)
    requires Ascending(sorted)
    ensures k <= |sorted|
    ensures forall j | 0 <= j < k :: sorted[j].version <= m.version
    ensures forall j | k <= j < |sorted| :: sorted[j].version > m.version
  {
    k := |sorted|;
    while k > 0 && sorted[k - 1].version > m.version
      invariant k <= |sorted|
      invariant forall j | k <= j < |sorted| :: sorted[j].version > m.version
    {
      k := k - 1;
    }
  }

  /** Any sort by version will do: callers only learn that the result ascends, equal versions may come
      in any order. */
  method SortByVersion(ms: seq<Migration>) returns (sorted: seq<Migration>)
    ensures Ascending(sorted) && multiset(sorted) == multiset(ms)
  {
    sorted := [];
    for i := 0 to |ms|
      invariant Ascending(sorted) && multiset(sorted) == multiset(ms[..i])
    {
      var k := InsertionPoint(sorted, ms[i]);
      InsertedAscends(sorted, ms[i], k);
      assert ms[..i + 1] == ms[..i] + [ms[i]];
      sorted := sorted[..k] + [ms[i]] + sorted[k..];
    }
    assert ms[..|ms|] == ms;
  }

  class MigrationRunner {
    var db: Db

    constructor ()
      ensures db == Db([], {})
    {
      db := Db([], {});
    }

    /** The directory's migrations in ascending order of version. */
    method Discover(files: seq<File>) returns (r: Result<seq<Migration>, MigrationError>)
      ensures r.Ok? <==> Listed(files).Ok?
      ensures r.Ok? ==> Ascending(r.value) && multiset(r.value) == multiset(Listed(files).value)
      ensures r.Err? ==> r == Listed(files)
      ensures r.Err? <==> exists f | f in files ::
                            && f.regular && IsMigrationName(f.name)
                            && (VersionOf(f.name) > 9_223_372_036_854_775_807 || !f.readable || f.content == "")
      ensures r.Ok? ==> FindsNumbered(files, r.value) && InNumericOrder(files, r.value)
    {
      ListedMeaning(files);
      var migrations := [];
      for i := 0 to |files|
        invariant Listed(files[..i]) == Ok(migrations)
      {
        var f := files[i];
        assert files[..i + 1][..i] == files[..i];
        if Selected(f) {
          var problem := Problem(f);
          if problem.Some? {
            FirstProblem(files, i + 1);
            return Err(problem.value);
          }
          migrations := migrations + [AsMigration(f)];
        }
      }
      assert files[..|files|] == files;
      var sorted := SortByVersion(migrations);
      FoundByNumber(files, sorted);
      return Ok(sorted);
    }

    method Apply(m: Migration, fate: Fate) returns (ok: bool)
      modifies this
      ensures ok == fate.Applied?
      ensures db == match fate
                    case BeforeSql => old(db)
                    case AfterSql => Execute(old(db), m)
                    case Applied => Record(Execute(old(db), m), m)
    {
      if fate.BeforeSql? {
        return false;
      }
      db := Execute(db, m);
      if fate.AfterSql? {
        return false;
      }
      db := Record(db, m);
      return true;
    }

    /** Applies what is not yet recorded, in this order, and counts it, or stops. */
    method ApplyPending(order: seq<Migration>, fates: seq<Fate>) returns (count: Option<nat>)
      modifies this
      ensures (db, count) == Attempt(old(db), order, old(db).recorded, fates)
    {
      var applied := db.recorded;
      var done, left := 0, fates;
      for i := 0 to |order|
        invariant Attempt(old(db), order, applied, fates) ==
                  var (db', n) := Attempt(db, order[i..], applied, left); (db', Plus(n, done))
      {
        var m := order[i];
        if m.version in applied {
          continue;
        }
        var ok := Apply(m, FateOf(left));
        if !ok {
          return None;
        }
        left := Later(left);
        done := done + 1;
      }
      return Some(done);
    }

    /** A whole run; it changes nothing unless the directory is in order. */
    method Migrate(files: seq<File>, fates: seq<Fate>) returns (r: Result<nat, MigrationError>, order: seq<Migration>)
      modifies this
      ensures Listed(files).Err? ==> r.Err? && r.error == Listed(files).error && db == old(db)
      ensures Listed(files).Ok? ==>
                && Ascending(order) && multiset(order) == multiset(Listed(files).value)
                && FindsNumbered(files, order) && InNumericOrder(files, order)
                && var (db', count) := Attempt(old(db), order, old(db).recorded, fates);
                && db == db'
                && r == if count.Some? then Ok(count.value) else Err(Stopped)
    {
      order := [];
      var all := Discover(files);
      if all.Err? {
        return Err(all.error), order;
      }
      order := all.value;
      var count := ApplyPending(order, fates);
      r := if count.Some? then Ok(count.value) else Err(Stopped);
    }
  }

  lemma {:induction false} FirstProblem(files: seq<File>, n: nat)
    requires n <= |files| && Listed(files[..n]).Err?
    ensures Listed(files) == Listed(files[..n])
    decreases |files| - n
  {
    if n < |files| {
      assert files[..n + 1][..n] == files[..n];
      FirstProblem(files, n + 1);
    } else {
      assert files[..n] == files;
    }
  }
}
