/** Walking the pages of a list while other transactions insert, update and delete rows. */
module Walk {
  import opened Common
  import opened Base64
  import opened Pagination

  /** `used` holds every id ever given to a row; `emitted` the positions of the rows handed out so far,
      in order; `cursor` is what the client sends next. */
  datatype State = State(table: Table, used: set<nat>, cursor: Option<seq<byte>>, emitted: seq<Position>, done: bool)

  /** The client's query, the same on every page. */
  datatype Query = Query(text: Text, clientId: string, filter: ListFilter)

  datatype Event =
    | Insert(row: Row)
    | Update(row: Row)
    | Delete(id: nat)
    | Fetch(limit: int)

  /** Ids are never reused; an update may set any updated_at. */
  predicate Allowed(s: State, e: Event) {
    match e
    case Insert(row) => row.id !in s.used
    case Update(row) => row.id in s.table
    case Delete(_) => true
    case Fetch(_) => true
  }

  function FetchPage(q: Query, s: State, limit: int): State {
    var start := StartOf(q.text, s.cursor);
    if s.done || start.Err? then s
    else
      var keys := PagePositions(s.table, q.clientId, q.filter, start.value, limit);
      var more := MoreThanOnePage(s.table, q.clientId, q.filter, start.value, limit);
      s.(emitted := s.emitted + keys,
         cursor := if more && keys != [] then Some(CursorOf(q.text, keys[|keys| - 1])) else None,
         done := !more)
  }

  function Next(q: Query, s: State, e: Event): State {
    if !Allowed(s, e) then s
    else
      match e
      case Insert(row) => s.(table := s.table[row.id := row], used := s.used + {row.id})
      case Update(row) => s.(table := s.table[row.id := row])
      case Delete(id) => s.(table := s.table - {id})
      case Fetch(limit) => FetchPage(q, s, limit)
  }

  function Run(q: Query, s: State, es: seq<Event>): State
    decreases |es|
  {
    if es == [] then s else Run(q, Next(q, s, es[0]), es[1..])
  }

  function Start(table: Table): State {
    State(table, table.Keys, None, [], false)
  }

  ghost predicate WellKeyed(t: Table) {
    forall id | id in t :: t[id].id == id
  }

  /** The position after which the next page starts. */
  ghost predicate CursorFollows(q: Query, s: State) {
    !s.done ==>
      if s.emitted == [] then s.cursor.None?
      else s.cursor == Some(CursorOf(q.text, s.emitted[|s.emitted| - 1]))
  }

  ghost predicate Inv(q: Query, s: State) {
    && WellKeyed(s.table) && s.table.Keys <= s.used
    && Descends(s.emitted)
    && CursorFollows(q, s)
    && (forall i | 0 <= i < |s.emitted| :: s.emitted[i].id in s.used)
  }

  ghost predicate NoRepeats(s: State) {
    forall i, j | 0 <= i < j < |s.emitted| :: s.emitted[i].id != s.emitted[j].id
  }

  /** Where the next page starts, in positions rather than text. */
  ghost function After(s: State): Option<Position> {
    if s.emitted == [] then None else Some(s.emitted[|s.emitted| - 1])
  }

  lemma StartIsAfter(q: Query, s: State)
    requires Lawful(q.text) && CursorFollows(q, s) && !s.done
    ensures StartOf(q.text, s.cursor) == Ok(After(s))
  {
    if s.emitted != [] {
      CursorPointsBack(q.text, s.emitted[|s.emitted| - 1]);
    }
  }

  lemma FetchInPositions(q: Query, s: State, limit: int)
    requires Lawful(q.text) && CursorFollows(q, s) && !s.done
    ensures var ps := Below(Matching(s.table, q.clientId, q.filter), After(s));
            var keys := Take(Descending(ps), Clamp(limit));
            var s' := FetchPage(q, s, limit);
            && s'.emitted == s.emitted + keys && s'.done == (|ps| <= Clamp(limit))
            && s'.table == s.table && s'.used == s.used && CursorFollows(q, s')
            && (!s'.done ==> keys != [])
  {
    StartIsAfter(q, s);
    DescendingSorts(Below(Matching(s.table, q.clientId, q.filter), After(s)));
  }

  /** The rows of a page are matching rows of the table, all below everything emitted before. */
  lemma PageContents(q: Query, s: State, limit: int, i: nat)
    requires Inv(q, s)
    requires i < |Take(Descending(Below(Matching(s.table, q.clientId, q.filter), After(s))), Clamp(limit))|
    ensures var p := Take(Descending(Below(Matching(s.table, q.clientId, q.filter), After(s))), Clamp(limit))[i];
            && p.id in s.table && p == PositionOf(s.table[p.id]) && Matches(s.table[p.id], q.clientId, q.filter)
            && (forall j | 0 <= j < |s.emitted| :: Less(p, s.emitted[j]))
  {
    var ps := Below(Matching(s.table, q.clientId, q.filter), After(s));
    DescendingSorts(ps);
    var p := Take(Descending(ps), Clamp(limit))[i];
    assert p in Descending(ps);
    assert p in ps;
    forall j | 0 <= j < |s.emitted|
      ensures Less(p, s.emitted[j])
    {
      var last := s.emitted[|s.emitted| - 1];
      assert Less(p, last) && (j == |s.emitted| - 1 || Less(last, s.emitted[j]));
    }
  }

  /** Appending a page to what was emitted keeps the invariant. */
  lemma EmitKeepsInv(q: Query, s: State, s': State, limit: int)
    requires Inv(q, s) && s'.table == s.table && s'.used == s.used && CursorFollows(q, s')
    requires s'.emitted ==
             s.emitted + Take(Descending(Below(Matching(s.table, q.clientId, q.filter), After(s))), Clamp(limit))
    ensures Inv(q, s')
  {
    var ps := Below(Matching(s.table, q.clientId, q.filter), After(s));
    var keys := Take(Descending(ps), Clamp(limit));
    DescendingSorts(ps);
    forall i | 0 <= i < |keys|
      ensures keys[i].id in s.table
      ensures forall j | 0 <= j < |s.emitted| :: Less(keys[i], s.emitted[j])
    {
      PageContents(q, s, limit, i);
    }
  }

  lemma FetchKeepsInv(q: Query, s: State, limit: int)
    requires Lawful(q.text) && Inv(q, s)
    ensures Inv(q, FetchPage(q, s, limit))
  {
    if !s.done {
      FetchInPositions(q, s, limit);
      EmitKeepsInv(q, s, FetchPage(q, s, limit), limit);
    }
  }

  lemma NextKeepsInv(q: Query, s: State, e: Event)
    requires Lawful(q.text) && Inv(q, s)
    ensures Inv(q, Next(q, s, e))
  {
    if Allowed(s, e) && e.Fetch? {
      FetchKeepsInv(q, s, e.limit);
    }
  }

  lemma {:induction false} RunKeepsInv(q: Query, s: State, es: seq<Event>)
    requires Lawful(q.text) && Inv(q, s)
    ensures Inv(q, Run(q, s, es))
    decreases |es|
  {
    if es != [] {
      NextKeepsInv(q, s, es[0]);
      RunKeepsInv(q, Next(q, s, es[0]), es[1..]);
    }
  }

  // ---------------------------------------------------------------- nothing is handed out twice

  /** A resource handed out before now matches at a position below the cursor: the walk will meet it again. */
  ghost predicate Reappears(q: Query, s: State) {
    !s.done && exists i :: Ahead(q, s, i)
  }

  ghost predicate Ahead(q: Query, s: State, i: int) {
    && 0 <= i < |s.emitted| && s.emitted[i].id in s.table
    && Matches(s.table[s.emitted[i].id], q.clientId, q.filter)
    && Less(PositionOf(s.table[s.emitted[i].id]), s.emitted[|s.emitted| - 1])
  }

  lemma PageIsNew(q: Query, s: State, limit: int, i: nat, j: nat)
    requires Inv(q, s) && !s.done && !Reappears(q, s) && j < |s.emitted|
    requires i < |Take(Descending(Below(Matching(s.table, q.clientId, q.filter), After(s))), Clamp(limit))|
    ensures Take(Descending(Below(Matching(s.table, q.clientId, q.filter), After(s))), Clamp(limit))[i].id
            != s.emitted[j].id
  {
    PageContents(q, s, limit, i);
    assert !Ahead(q, s, j);
  }

  lemma PageHasNoRepeats(q: Query, s: State, limit: int)
    requires Inv(q, s)
    ensures var keys := Take(Descending(Below(Matching(s.table, q.clientId, q.filter), After(s))), Clamp(limit));
            forall i, j | 0 <= i < j < |keys| :: keys[i].id != keys[j].id
  {
    var ps := Below(Matching(s.table, q.clientId, q.filter), After(s));
    var keys := Take(Descending(ps), Clamp(limit));
    DescendingSorts(ps);
    forall i, j | 0 <= i < j < |keys|
      ensures keys[i].id != keys[j].id
    {
      PageContents(q, s, limit, i);
      PageContents(q, s, limit, j);
      assert Less(Descending(ps)[j], Descending(ps)[i]);
    }
  }

  lemma FetchKeepsNoRepeats(q: Query, s: State, limit: int)
    requires Lawful(q.text) && Inv(q, s) && NoRepeats(s) && !Reappears(q, s)
    ensures NoRepeats(FetchPage(q, s, limit))
  {
    if !s.done {
      FetchInPositions(q, s, limit);
      PageHasNoRepeats(q, s, limit);
      var keys := Take(Descending(Below(Matching(s.table, q.clientId, q.filter), After(s))), Clamp(limit));
      forall i, j | 0 <= i < |keys| && 0 <= j < |s.emitted|
        ensures keys[i].id != s.emitted[j].id
      {
        PageIsNew(q, s, limit, i, j);
      }
    }
  }

  /** No page of this run is fetched while a resource handed out before lies ahead again. */
  ghost predicate Calm(q: Query, s: State, es: seq<Event>)
    decreases |es|
  {
    es != [] ==> (es[0].Fetch? ==> !Reappears(q, s)) && Calm(q, Next(q, s, es[0]), es[1..])
  }

  lemma {:induction false} CalmHasNoRepeats(q: Query, s: State, es: seq<Event>)
    requires Lawful(q.text) && Inv(q, s) && NoRepeats(s) && Calm(q, s, es)
    ensures NoRepeats(Run(q, s, es))
    decreases |es|
  {
    if es != [] {
      NextKeepsInv(q, s, es[0]);
      if es[0].Fetch? {
        FetchKeepsNoRepeats(q, s, es[0].limit);
      }
      CalmHasNoRepeats(q, Next(q, s, es[0]), es[1..]);
    }
  }

  /** Every update of this run keeps or increases its row's updated_at. */
  ghost predicate NeverDecreases(q: Query, s: State, es: seq<Event>)
    decreases |es|
  {
    es != [] ==>
      && (es[0].Update? && es[0].row.id in s.table ==> s.table[es[0].row.id].updatedAt <= es[0].row.updatedAt)
      && NeverDecreases(q, Next(q, s, es[0]), es[1..])
  }

  /** No row lies below the position at which it was handed out. */
  ghost predicate Risen(s: State) {
    forall i | 0 <= i < |s.emitted| && s.emitted[i].id in s.table ::
      s.emitted[i].updatedAt <= s.table[s.emitted[i].id].updatedAt
  }

  lemma RisenIsCalm(q: Query, s: State)
    requires Inv(q, s) && Risen(s)
    ensures !Reappears(q, s)
  {
    forall i
      ensures !Ahead(q, s, i)
    {
      if 0 <= i < |s.emitted| && s.emitted[i].id in s.table {
        assert i == |s.emitted| - 1 || Less(s.emitted[|s.emitted| - 1], s.emitted[i]);
      }
    }
  }

  lemma FetchKeepsRisen(q: Query, s: State, limit: int)
    requires Lawful(q.text) && Inv(q, s) && Risen(s)
    ensures Risen(FetchPage(q, s, limit))
  {
    if !s.done {
      FetchInPositions(q, s, limit);
      var keys := Take(Descending(Below(Matching(s.table, q.clientId, q.filter), After(s))), Clamp(limit));
      forall i | 0 <= i < |keys|
        ensures keys[i].id in s.table && keys[i].updatedAt == s.table[keys[i].id].updatedAt
      {
        PageContents(q, s, limit, i);
      }
    }
  }

  lemma {:induction false} NeverDecreasingIsCalm(q: Query, s: State, es: seq<Event>)
    requires Lawful(q.text) && Inv(q, s) && Risen(s) && NeverDecreases(q, s, es)
    ensures Calm(q, s, es)
    decreases |es|
  {
    if es != [] {
      NextKeepsInv(q, s, es[0]);
      RisenIsCalm(q, s);
      if es[0].Fetch? {
        FetchKeepsRisen(q, s, es[0].limit);
      }
      NeverDecreasingIsCalm(q, Next(q, s, es[0]), es[1..]);
    }
  }

  /** Whatever other transactions do between the pages, as long as no update decreases its row's updated_at
      no resource is handed out twice. */
  lemma NoResourceTwice(q: Query, table: Table, es: seq<Event>, i: nat, j: nat)
    requires Lawful(q.text) && WellKeyed(table) && NeverDecreases(q, Start(table), es)
    requires i < |Run(q, Start(table), es).emitted| && j < |Run(q, Start(table), es).emitted|
    requires Run(q, Start(table), es).emitted[i].id == Run(q, Start(table), es).emitted[j].id
    ensures i == j
  {
    NeverDecreasingIsCalm(q, Start(table), es);
    CalmHasNoRepeats(q, Start(table), es);
  }

  // ---------------------------------------------------------------- nothing is missed

  ghost predicate Untouched(es: seq<Event>, id: nat) {
    forall e | e in es :: !(e.Update? && e.row.id == id) && !(e.Delete? && e.id == id)
  }

  /** The row at p is emitted already, or still lies ahead of the cursor. */
  ghost predicate Pending(q: Query, s: State, p: Position) {
    && p.id in s.table && p in Matching(s.table, q.clientId, q.filter)
    && (p in s.emitted || (!s.done && (s.emitted == [] || Less(p, s.emitted[|s.emitted| - 1]))))
  }

  lemma FetchKeepsPending(q: Query, s: State, limit: int, p: Position)
    requires Lawful(q.text) && Inv(q, s) && Pending(q, s, p)
    ensures Pending(q, FetchPage(q, s, limit), p)
  {
    if !s.done {
      var ps := Below(Matching(s.table, q.clientId, q.filter), After(s));
      var keys := Take(Descending(ps), Clamp(limit));
      FetchInPositions(q, s, limit);
      DescendingSorts(ps);
      if p !in s.emitted && p !in keys {
        assert p in ps;
        var k :| 0 <= k < |Descending(ps)| && Descending(ps)[k] == p;
        assert |keys| <= k;
        assert keys[|keys| - 1] == Descending(ps)[|keys| - 1];
      }
    }
  }

  lemma NextKeepsPending(q: Query, s: State, e: Event, p: Position)
    requires Lawful(q.text) && Inv(q, s) && Pending(q, s, p) && Untouched([e], p.id)
    ensures Pending(q, Next(q, s, e), p)
  {
    assert e in [e];
    var s' := Next(q, s, e);
    if e.Fetch? {
      FetchKeepsPending(q, s, e.limit, p);
    } else {
      assert s'.table[p.id] == s.table[p.id];
    }
  }

  lemma {:induction false} RunKeepsPending(q: Query, s: State, es: seq<Event>, p: Position)
    requires Lawful(q.text) && Inv(q, s) && Pending(q, s, p) && Untouched(es, p.id)
    ensures Pending(q, Run(q, s, es), p)
    decreases |es|
  {
    if es != [] {
      NextKeepsInv(q, s, es[0]);
      assert es[0] in es;
      NextKeepsPending(q, s, es[0], p);
      RunKeepsPending(q, Next(q, s, es[0]), es[1..], p);
    }
  }

  /** Whenever this row was handed out, it was at p, and there it still is. */
  ghost predicate OnlyAt(s: State, p: Position) {
    && p.id in s.table && PositionOf(s.table[p.id]) == p
    && forall j | 0 <= j < |s.emitted| && s.emitted[j].id == p.id :: s.emitted[j] == p
  }

  lemma NextKeepsOnlyAt(q: Query, s: State, e: Event, p: Position)
    requires Lawful(q.text) && Inv(q, s) && OnlyAt(s, p) && Untouched([e], p.id)
    ensures OnlyAt(Next(q, s, e), p)
  {
    assert e in [e];
    if e.Fetch? && !s.done {
      FetchInPositions(q, s, e.limit);
      var keys := Take(Descending(Below(Matching(s.table, q.clientId, q.filter), After(s))), Clamp(e.limit));
      forall i | 0 <= i < |keys|
        ensures keys[i].id in s.table && keys[i] == PositionOf(s.table[keys[i].id])
      {
        PageContents(q, s, e.limit, i);
      }
    }
  }

  lemma {:induction false} RunKeepsOnlyAt(q: Query, s: State, es: seq<Event>, p: Position)
    requires Lawful(q.text) && Inv(q, s) && OnlyAt(s, p) && Untouched(es, p.id)
    ensures OnlyAt(Run(q, s, es), p)
    decreases |es|
  {
    if es != [] {
      NextKeepsInv(q, s, es[0]);
      assert es[0] in es;
      NextKeepsOnlyAt(q, s, es[0], p);
      RunKeepsOnlyAt(q, Next(q, s, es[0]), es[1..], p);
    }
  }

  /** A matching row that no other transaction touches during the walk is handed out exactly once, whatever
      happens to the others. */
  lemma UntouchedRowExactlyOnce(q: Query, table: Table, es: seq<Event>, id: nat)
    requires Lawful(q.text) && WellKeyed(table)
    requires id in table && Matches(table[id], q.clientId, q.filter) && Untouched(es, id)
    requires Run(q, Start(table), es).done
    ensures var emitted := Run(q, Start(table), es).emitted;
            exists i :: 0 <= i < |emitted| && emitted[i] == PositionOf(table[id])
                        && forall j | 0 <= j < |emitted| && emitted[j].id == id :: j == i
  {
    var p := PositionOf(table[id]);
    RunKeepsPending(q, Start(table), es, p);
    RunKeepsOnlyAt(q, Start(table), es, p);
    RunKeepsInv(q, Start(table), es);
    var emitted := Run(q, Start(table), es).emitted;
    var i :| 0 <= i < |emitted| && emitted[i] == p;
    assert forall j, k | 0 <= j < k < |emitted| :: emitted[j] != emitted[k];
    assert forall j | 0 <= j < |emitted| && emitted[j].id == id :: emitted[j] == p;
  }

  // ---------------------------------------------------------------- an unchanged table

  function Fetches(limits: seq<int>): seq<Event> {
    seq(|limits|, i requires 0 <= i < |limits| => Fetch(limits[i]))
  }

  function Total(limits: seq<int>): nat {
    if limits == [] then 0 else Clamp(limits[0]) + Total(limits[1..])
  }

  /** Cutting a descending listing at an element leaves the listing of what lies below it. */
  lemma RestIsBelow(ps: set<Position>, n: nat)
    requires 0 < n <= |ps|
    ensures |Descending(ps)| == |ps|
    ensures Descending(ps)[n..] == Descending(Below(ps, Some(Descending(ps)[n - 1])))
  {
    DescendingSorts(ps);
    var all := Descending(ps);
    var rest, left := all[n..], Below(ps, Some(all[n - 1]));
    forall p
      ensures p in rest <==> p in left
    {
      if p in left {
        var k :| 0 <= k < |all| && all[k] == p;
        assert k >= n;
        assert rest[k - n] == p;
      }
      if p in rest {
        var k :| 0 <= k < |rest| && rest[k] == p;
        assert all[n + k] == p;
        assert p in all;
      }
    }
    DescendingUnique(rest, left);
  }

  /** On a fixed table: what was emitted is a prefix of the listing, the cursor is at its end, and the
      walk is done exactly if it is the whole listing (and at least one page was fetched). */
  ghost predicate OnTrack(q: Query, s: State, all: set<Position>, n: nat) {
    && Inv(q, s) && Matching(s.table, q.clientId, q.filter) == all
    && s.emitted == Take(Descending(all), n)
    && (s.done <==> 0 < n && |all| <= n)
  }

  lemma TakeMore(all: seq<Position>, n: nat, m: nat)
    requires n <= |all|
    ensures Take(all, n) + Take(all[n..], m) == Take(all, n + m)
  {
  }

  /** The rows left after an unfinished walk are the tail of the listing. */
  lemma LeftIsTail(q: Query, s: State, all: set<Position>, n: nat)
    requires OnTrack(q, s, all, n) && !s.done
    ensures n <= |all| == |Descending(all)|
    ensures Descending(Below(all, After(s))) == Descending(all)[n..]
    ensures |Below(all, After(s))| == |all| - n
  {
    DescendingSorts(all);
    if n == 0 {
      assert Below(all, After(s)) == all;
    } else {
      RestIsBelow(all, n);
    }
    DescendingSorts(Below(all, After(s)));
  }

  lemma FetchOnTrack(q: Query, s: State, all: set<Position>, n: nat, limit: int)
    requires Lawful(q.text) && OnTrack(q, s, all, n)
    ensures OnTrack(q, FetchPage(q, s, limit), all, n + Clamp(limit))
  {
    FetchKeepsInv(q, s, limit);
    if s.done {
      DescendingSorts(all);
    } else {
      FetchInPositions(q, s, limit);
      LeftIsTail(q, s, all, n);
      TakeMore(Descending(all), n, Clamp(limit));
    }
  }

  lemma FetchFirst(q: Query, s: State, all: set<Position>, n: nat, limits: seq<int>) returns (s1: State)
    requires Lawful(q.text) && OnTrack(q, s, all, n) && limits != []
    ensures OnTrack(q, s1, all, n + Clamp(limits[0]))
    ensures Run(q, s, Fetches(limits)) == Run(q, s1, Fetches(limits[1..]))
  {
    s1 := FetchPage(q, s, limits[0]);
    FetchOnTrack(q, s, all, n, limits[0]);
    assert Fetches(limits)[1..] == Fetches(limits[1..]);
  }

  lemma {:induction false} FetchesStayOnTrack(q: Query, s: State, all: set<Position>, n: nat, limits: seq<int>)
    requires Lawful(q.text) && OnTrack(q, s, all, n)
    ensures OnTrack(q, Run(q, s, Fetches(limits)), all, n + Total(limits))
    decreases |limits|
  {
    if limits != [] {
      var s1 := FetchFirst(q, s, all, n, limits);
      FetchesStayOnTrack(q, s1, all, n + Clamp(limits[0]), limits[1..]);
    }
  }

  /** On an unchanged table, with any limits, the pages concatenate to the filtered rows in descending
      order, cut at the sum of the clamped limits; the walk says it is done exactly when all rows were
      handed out. */
  lemma PagesConcatenate(q: Query, table: Table, limits: seq<int>)
    requires Lawful(q.text) && WellKeyed(table) && limits != []
    ensures var all := Matching(table, q.clientId, q.filter);
            var s := Run(q, Start(table), Fetches(limits));
            && s.emitted == Take(Descending(all), Total(limits))
            && (s.done <==> s.emitted == Descending(all))
  {
    var all := Matching(table, q.clientId, q.filter);
    FetchesStayOnTrack(q, Start(table), all, 0, limits);
    DescendingSorts(all);
    TotalGrows(limits);
  }

  lemma {:induction false} TotalGrows(limits: seq<int>)
    ensures |limits| <= Total(limits) <= 200 * |limits|
  {
    if limits != [] {
      TotalGrows(limits[1..]);
    }
  }

  /** The walk terminates: as many pages as there are rows (at least one) always suffice. */
  lemma WalkTerminates(q: Query, table: Table, limits: seq<int>)
    requires Lawful(q.text) && WellKeyed(table)
    requires limits != [] && |Matching(table, q.clientId, q.filter)| <= |limits|
    ensures var s := Run(q, Start(table), Fetches(limits));
            s.done && s.emitted == Descending(Matching(table, q.clientId, q.filter))
  {
    PagesConcatenate(q, table, limits);
    TotalGrows(limits);
    DescendingSorts(Matching(table, q.clientId, q.filter));
  }

  // ---------------------------------------------------------------- exactly when a resource is handed out twice

  lemma ProperSubset(a: set<Position>, b: set<Position>)
    requires a < b
    ensures |a| < |b|
  {
    assert b == a + (b - a);
  }

  /** Every page but the last brings the walk nearer to its end. */
  lemma FetchGetsOn(q: Query, s: State, limit: int)
    requires Lawful(q.text) && Inv(q, s) && !s.done && !FetchPage(q, s, limit).done
    ensures var s' := FetchPage(q, s, limit);
            |Below(Matching(s'.table, q.clientId, q.filter), After(s'))|
            < |Below(Matching(s.table, q.clientId, q.filter), After(s))|
  {
    var all := Matching(s.table, q.clientId, q.filter);
    var ps, s' := Below(all, After(s)), FetchPage(q, s, limit);
    var keys := Take(Descending(ps), Clamp(limit));
    FetchInPositions(q, s, limit);
    DescendingSorts(ps);
    var last := keys[|keys| - 1];
    assert last in Descending(ps) && last in ps && After(s') == Some(last);
    PageContents(q, s, limit, |keys| - 1);
    assert last !in Below(all, After(s'));
    ProperSubset(Below(all, After(s')), ps);
  }

  lemma FetchesCons(q: Query, s: State, limits: seq<int>)
    ensures Run(q, s, Fetches([200] + limits)) == Run(q, FetchPage(q, s, 200), Fetches(limits))
  {
    assert Fetches([200] + limits)[1..] == Fetches(limits);
  }

  lemma {:induction false} WalkOn(q: Query, s: State) returns (limits: seq<int>)
    requires Lawful(q.text) && Inv(q, s) && !s.done
    ensures Run(q, s, Fetches(limits)).done && s.emitted <= Run(q, s, Fetches(limits)).emitted
    decreases |Below(Matching(s.table, q.clientId, q.filter), After(s))|
  {
    var s1 := FetchPage(q, s, 200);
    var rest := [];
    FetchKeepsInv(q, s, 200);
    FetchInPositions(q, s, 200);
    if s1.done {
      assert Run(q, s1, Fetches(rest)) == s1;
    } else {
      FetchGetsOn(q, s, 200);
      rest := WalkOn(q, s1);
    }
    FetchesCons(q, s, rest);
    limits := [200] + rest;
  }

  lemma AheadIsMetAgain(q: Query, s: State) returns (limits: seq<int>)
    requires Lawful(q.text) && Inv(q, s) && Reappears(q, s)
    ensures !NoRepeats(Run(q, s, Fetches(limits)))
  {
    var i :| Ahead(q, s, i);
    var p := PositionOf(s.table[s.emitted[i].id]);
    limits := WalkOn(q, s);
    assert Untouched(Fetches(limits), p.id);
    assert i == |s.emitted| - 1 || Less(s.emitted[|s.emitted| - 1], s.emitted[i]);
    RunKeepsPending(q, s, Fetches(limits), p);
    var emitted := Run(q, s, Fetches(limits)).emitted;
    var k :| 0 <= k < |emitted| && emitted[k] == p;
    assert emitted[i] == s.emitted[i] != p;
  }

  /** A page moves the cursor down, so what was not below it before is not below it now. */
  lemma OldStaysBehind(q: Query, s: State, s': State, i: nat)
    requires s'.table == s.table && s.emitted <= s'.emitted && Descends(s'.emitted)
    requires i < |s.emitted| && !Ahead(q, s, i)
    ensures !Ahead(q, s', i)
  {
    var last, last' := s.emitted[|s.emitted| - 1], s'.emitted[|s'.emitted| - 1];
    assert s'.emitted[|s.emitted| - 1] == last && s'.emitted[i] == s.emitted[i];
    assert last' == last || Less(last', last);
  }

  lemma NewIsBehind(q: Query, s': State, i: nat)
    requires i < |s'.emitted| && Descends(s'.emitted)
    requires s'.emitted[i].id in s'.table ==> PositionOf(s'.table[s'.emitted[i].id]) == s'.emitted[i]
    ensures !Ahead(q, s', i)
  {
    assert i == |s'.emitted| - 1 || Less(s'.emitted[|s'.emitted| - 1], s'.emitted[i]);
  }

  lemma FetchMeetsNothingOld(q: Query, s: State, limit: int)
    requires Lawful(q.text) && Inv(q, s) && !Reappears(q, s)
    ensures !Reappears(q, FetchPage(q, s, limit))
  {
    var s' := FetchPage(q, s, limit);
    if !s.done {
      FetchInPositions(q, s, limit);
      FetchKeepsInv(q, s, limit);
      forall i | 0 <= i < |s'.emitted|
        ensures !Ahead(q, s', i)
      {
        if i < |s.emitted| {
          OldStaysBehind(q, s, s', i);
        } else {
          PageContents(q, s, limit, i - |s.emitted|);
          NewIsBehind(q, s', i);
        }
      }
    }
  }

  lemma {:induction false} FetchesAreCalm(q: Query, s: State, limits: seq<int>)
    requires Lawful(q.text) && Inv(q, s) && !Reappears(q, s)
    ensures Calm(q, s, Fetches(limits))
    decreases |limits|
  {
    if limits != [] {
      FetchKeepsInv(q, s, limits[0]);
      FetchMeetsNothingOld(q, s, limits[0]);
      assert Fetches(limits)[1..] == Fetches(limits[1..]);
      FetchesAreCalm(q, FetchPage(q, s, limits[0]), limits[1..]);
    }
  }

  /** A walk without a repetition so far will repeat a resource, if nothing else changes, exactly when an
      update has moved a resource it already handed out, still or again matching, below its cursor. */
  lemma RepeatsIffMovedBelowCursor(q: Query, s: State)
    requires Lawful(q.text) && Inv(q, s) && NoRepeats(s)
    ensures Reappears(q, s) <==> exists limits :: !NoRepeats(Run(q, s, Fetches(limits)))
  {
    if Reappears(q, s) {
      var limits := AheadIsMetAgain(q, s);
    } else {
      forall limits
        ensures NoRepeats(Run(q, s, Fetches(limits)))
      {
        FetchesAreCalm(q, s, limits);
        CalmHasNoRepeats(q, s, Fetches(limits));
      }
    }
  }
}
