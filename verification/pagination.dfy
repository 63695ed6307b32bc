/** Keyset pagination over the resources table, in descending (updated_at, id) order. */
module Pagination {
  import opened Common
  import opened Base64
  import opened Cursor

  // ---------------------------------------------------------------- rows and their order

  datatype Row = Row(id: nat, clientId: string, kind: string, name: string, status: string,
                     metadata: string, updatedAt: int)

  type Table = map<nat, Row>

  /** The sort key of a row. */
  datatype Position = Position(updatedAt: int, id: nat)

  predicate Less(a: Position, b: Position) {
    a.updatedAt < b.updatedAt || (a.updatedAt == b.updatedAt && a.id < b.id)
  }

  function PositionOf(r: Row): Position {
    Position(r.updatedAt, r.id)
  }

  predicate Descends(s: seq<Position>) {
    forall i, j | 0 <= i < j < |s| :: Less(s[j], s[i])
  }

  lemma HasGreatest(ps: set<Position>)
    requires ps != {}
    ensures exists m :: m in ps && forall q | q in ps :: q == m || Less(q, m)
    decreases |ps|
  {
    var p :| p in ps;
    var rest := ps - {p};
    if rest == {} {
      assert ps == {p};
    } else {
      HasGreatest(rest);
      var m :| m in rest && forall q | q in rest :: q == m || Less(q, m);
      var top := if Less(m, p) then p else m;
      forall q | q in ps
        ensures q == top || Less(q, top)
      {
        assert q == p || q in rest;
      }
    }
  }

  function Greatest(ps: set<Position>): (m: Position)
    requires ps != {}
    ensures m in ps && forall q | q in ps :: q == m || Less(q, m)
  {
    HasGreatest(ps);
    var m :| m in ps && forall q | q in ps :: q == m || Less(q, m);
    m
  }

  /** ORDER BY updated_at DESC, id DESC. */
  function Descending(ps: set<Position>): seq<Position>
    decreases |ps|
  {
    if ps == {} then [] else var m := Greatest(ps); [m] + Descending(ps - {m})
  }

  lemma {:induction false} DescendingSorts(ps: set<Position>)
    ensures Descends(Descending(ps))
    ensures |Descending(ps)| == |ps|
    ensures forall p :: p in Descending(ps) <==> p in ps
    decreases |ps|
  {
    if ps != {} {
      var m := Greatest(ps);
      DescendingSorts(ps - {m});
      var rest := Descending(ps - {m});
      forall j | 0 <= j < |rest|
        ensures Less(rest[j], m)
      {
        assert rest[j] in rest;
        assert rest[j] in ps - {m};
      }
    }
  }

  /** A descending sequence is determined by its members. */
  lemma {:induction false} DescendingUnique(s: seq<Position>, ps: set<Position>)
    requires Descends(s) && forall p :: p in s <==> p in ps
    ensures s == Descending(ps)
    decreases |s|
  {
    if s == [] {
      assert ps == {};
    } else {
      assert s[0] in ps;
      var m := Greatest(ps);
      var i :| 0 <= i < |s| && s[i] == m;
      assert i == 0;
      forall p
        ensures p in s[1..] <==> p in ps - {m}
      {
        if p in ps - {m} {
          var k :| 0 <= k < |s| && s[k] == p;
          assert s[1..][k - 1] == p;
        }
      }
      DescendingUnique(s[1..], ps - {m});
    }
  }

  // ---------------------------------------------------------------- one page

  datatype ListFilter = ListFilter(kind: Option<string>, status: Option<string>)

  predicate Matches(r: Row, clientId: string, f: ListFilter) {
    && r.clientId == clientId
    && (f.kind.Some? ==> r.kind == f.kind.value)
    && (f.status.Some? ==> r.status == f.status.value)
  }

  function Matching(t: Table, clientId: string, f: ListFilter): set<Position> {
    set id | id in t && Matches(t[id], clientId, f) :: Position(t[id].updatedAt, id)
  }

  function Below(ps: set<Position>, after: Option<Position>): set<Position> {
    set p | p in ps && (after.Some? ==> Less(p, after.value))
  }

  function Clamp(limit: int): nat
    ensures 1 <= Clamp(limit) <= 200
  {
    if limit < 1 then 1 else if limit > 200 then 200 else limit
  }

  function Take(s: seq<Position>, n: nat): seq<Position> {
    if n <= |s| then s[..n] else s
  }

  /** How timestamps and ids are written as text and read back by the database. */
  datatype Text = Text(time: int -> seq<byte>, parseTime: seq<byte> -> Option<int>,
                       id: nat -> seq<byte>, parseId: seq<byte> -> Option<nat>)

  ghost predicate Lawful(x: Text) {
    && (forall t :: x.time(t) != [] && SEP !in x.time(t) && x.parseTime(x.time(t)) == Some(t))
    && (forall i: nat :: x.id(i) != [] && x.parseId(x.id(i)) == Some(i))
  }

  function CursorOf(x: Text, p: Position): seq<byte> {
    EncodeCursor(x.time(p.updatedAt), x.id(p.id))
  }

  /** Where the page starts: an absent or empty cursor means the beginning. */
  function StartOf(x: Text, cursor: Option<seq<byte>>): Result<Option<Position>, ListError> {
    if cursor.None? || cursor.value == [] then Ok(None)
    else
      match ParseCursor(Decoded(cursor.value))
      case Err(e) => Err(e)
      case Ok(pos) =>
        var t, i := x.parseTime(pos.updatedAt), x.parseId(pos.id);
        if t.None? || i.None? then Err(InvalidValue) else Ok(Some(Position(t.value, i.value)))
  }

  lemma CursorPointsBack(x: Text, p: Position)
    requires Lawful(x)
    ensures StartOf(x, Some(CursorOf(x, p))) == Ok(Some(p))
  {
    CursorRoundTrip(x.time(p.updatedAt), x.id(p.id));
    RoundTrip(x.time(p.updatedAt) + [SEP] + x.id(p.id));
    assert |Decoded([])| == 0;
  }

  datatype Page = Page(items: seq<Row>, nextCursor: Option<seq<byte>>, hasMore: bool)

  /** The first n positions of what is left, the biggest first. */
  function PagePositions(t: Table, clientId: string, f: ListFilter, after: Option<Position>, limit: int): seq<Position> {
    Take(Descending(Below(Matching(t, clientId, f), after)), Clamp(limit))
  }

  predicate MoreThanOnePage(t: Table, clientId: string, f: ListFilter, after: Option<Position>, limit: int) {
    |Below(Matching(t, clientId, f), after)| > Clamp(limit)
  }

  /** The row is this client's, and of the kind and status asked for. */
  ghost predicate Asked(row: Row, clientId: string, kind: Option<string>, status: Option<string>) {
    && row.clientId == clientId
    && (kind == None || kind == Some(row.kind))
    && (status == None || status == Some(row.status))
  }

  /** Row a is listed before row b: changed later, or at the same time with a greater id. */
  ghost predicate ListedBefore(a: Row, b: Row) {
    a.updatedAt > b.updatedAt || (a.updatedAt == b.updatedAt && a.id > b.id)
  }

  class Repository {
    var table: Table
    const text: Text

    ghost predicate Valid()
      reads this
    {
      forall id | id in table :: table[id].id == id
    }

    constructor (text: Text)
      ensures Valid() && table == map[] && this.text == text
    {
      this.text, table := text, map[];
    }

    /** The rows are the table's rows at these positions, in this order. */
    ghost predicate RowsAt(rows: seq<Row>, keys: seq<Position>)
      reads this
    {
      && |rows| == |keys|
      && forall i | 0 <= i < |rows| ::
           && rows[i].id in table && rows[i] == table[rows[i].id] && PositionOf(rows[i]) == keys[i]
    }

    /** One SELECT ... ORDER BY ... LIMIT n. */
    method Select(clientId: string, f: ListFilter, after: Option<Position>, n: nat) returns (rows: seq<Row>)
      requires Valid()
      ensures RowsAt(rows, Take(Descending(Below(Matching(table, clientId, f), after)), n))
      ensures forall row | row in rows :: Asked(row, clientId, f.kind, f.status)
    {
      var left := Below(Matching(table, clientId, f), after);
      var keys := Take(Descending(left), n);
      DescendingSorts(left);
      rows := [];
      for i := 0 to |keys|
        invariant RowsAt(rows, keys[..i])
        invariant forall row | row in rows :: Asked(row, clientId, f.kind, f.status)
      {
        assert keys[i] in left;
        rows := rows + [table[keys[i].id]];
      }
      assert keys[..|keys|] == keys;
    }

    /** The page after a position: at most the clamped limit of rows; one more row is read to learn
        whether any remain. */
    ghost predicate Serves(page: Page, clientId: string, f: ListFilter, after: Option<Position>, limit: int)
      reads this
    {
      var keys := PagePositions(table, clientId, f, after, limit);
      && RowsAt(page.items, keys) && |keys| <= Clamp(limit)
      && page.hasMore == MoreThanOnePage(table, clientId, f, after, limit)
      && (page.hasMore ==> keys != [] && page.nextCursor == Some(CursorOf(text, keys[|keys| - 1])))
      && (!page.hasMore ==> page.nextCursor.None?)
    }

    /** A page in terms of its rows: the client's rows of the kind and status asked for, below the start, in
        the listing's order, none of them left out, as many as the limit between 1 and 200 allows; more
        remain exactly if some such row is listed after the last. */
    ghost predicate PageByFields(page: Page, clientId: string, kind: Option<string>, status: Option<string>,
                                 start: Option<Position>, limit: int)
      reads this
    {
      var size := if limit < 1 then 1 else if limit > 200 then 200 else limit;
      && (forall row | row in page.items ::
            row.id in table && table[row.id] == row && Asked(row, clientId, kind, status) && StartsBefore(start, row))
      && (forall i, j | 0 <= i < j < |page.items| :: ListedBefore(page.items[i], page.items[j]))
      && |page.items| <= size
      && (page.hasMore ==> |page.items| == size)
      && (forall id | id in table && Asked(table[id], clientId, kind, status) && StartsBefore(start, table[id]) ::
            table[id] in page.items || (page.hasMore && ListedBefore(page.items[size - 1], table[id])))
      && (page.hasMore ==> exists id | id in table ::
            Asked(table[id], clientId, kind, status) && ListedBefore(page.items[size - 1], table[id]))
    }

    /** The row lies below the start of the page. */
    static ghost predicate StartsBefore(start: Option<Position>, row: Row) {
      start == None ||
      row.updatedAt < start.value.updatedAt || (row.updatedAt == start.value.updatedAt && row.id < start.value.id)
    }

    lemma RowIsLeft(id: nat, clientId: string, f: ListFilter, after: Option<Position>)
      requires Valid() && id in table && Asked(table[id], clientId, f.kind, f.status) && StartsBefore(after, table[id])
      ensures PositionOf(table[id]) in Below(Matching(table, clientId, f), after)
    {
      assert Matches(table[id], clientId, f);
    }

    lemma LeftIsRow(p: Position, clientId: string, f: ListFilter, after: Option<Position>)
      requires Valid() && p in Below(Matching(table, clientId, f), after)
      ensures p.id in table && PositionOf(table[p.id]) == p
      ensures Asked(table[p.id], clientId, f.kind, f.status) && StartsBefore(after, table[p.id])
    {
    }

    lemma ItemsByFields(page: Page, clientId: string, f: ListFilter, start: Option<Position>, limit: int)
      requires Valid() && Serves(page, clientId, f, start, limit)
      ensures forall row | row in page.items ::
                row.id in table && table[row.id] == row && Asked(row, clientId, f.kind, f.status) && StartsBefore(start, row)
      ensures forall i, j | 0 <= i < j < |page.items| :: ListedBefore(page.items[i], page.items[j])
    {
      var left := Below(Matching(table, clientId, f), start);
      var keys := PagePositions(table, clientId, f, start, limit);
      DescendingSorts(left);
      forall i | 0 <= i < |keys|
        ensures Asked(page.items[i], clientId, f.kind, f.status) && StartsBefore(start, page.items[i])
      {
        assert keys[i] == Descending(left)[i] && keys[i] in left;
        LeftIsRow(keys[i], clientId, f, start);
      }
    }

    lemma NoneLeftOut(page: Page, clientId: string, f: ListFilter, start: Option<Position>, limit: int, id: nat)
      requires Valid() && Serves(page, clientId, f, start, limit)
      requires id in table && Asked(table[id], clientId, f.kind, f.status) && StartsBefore(start, table[id])
      ensures page.hasMore ==> |page.items| == Clamp(limit)
      ensures table[id] in page.items || (page.hasMore && ListedBefore(page.items[Clamp(limit) - 1], table[id]))
    {
      var left := Below(Matching(table, clientId, f), start);
      var all := Descending(left);
      DescendingSorts(left);
      RowIsLeft(id, clientId, f, start);
      var k :| 0 <= k < |all| && all[k] == PositionOf(table[id]);
      if k < Clamp(limit) {
        assert PositionOf(page.items[k]) == all[k];
      } else {
        assert PositionOf(page.items[Clamp(limit) - 1]) == all[Clamp(limit) - 1];
      }
    }

    lemma ServesByFields(page: Page, clientId: string, f: ListFilter, start: Option<Position>, limit: int)
      requires Valid() && Serves(page, clientId, f, start, limit)
      ensures PageByFields(page, clientId, f.kind, f.status, start, limit)
    {
      var left := Below(Matching(table, clientId, f), start);
      var all := Descending(left);
      DescendingSorts(left);
      ItemsByFields(page, clientId, f, start, limit);
      forall id | id in table && Asked(table[id], clientId, f.kind, f.status) && StartsBefore(start, table[id])
        ensures table[id] in page.items || (page.hasMore && ListedBefore(page.items[Clamp(limit) - 1], table[id]))
      {
        NoneLeftOut(page, clientId, f, start, limit, id);
      }
      if page.hasMore {
        var n := Clamp(limit);
        assert all[n] in left && PositionOf(page.items[n - 1]) == all[n - 1];
        LeftIsRow(all[n], clientId, f, start);
        assert Asked(table[all[n].id], clientId, f.kind, f.status)
               && ListedBefore(page.items[n - 1], table[all[n].id]);
      }
    }

    method List(clientId: string, f: ListFilter, limit: int, cursor: Option<seq<byte>>)
      returns (r: Result<Page, ListError>)
      requires Valid()
      ensures var start := StartOf(text, cursor);
              if start.Err? then r == Err(start.error)
              else r.Ok? && Serves(r.value, clientId, f, start.value, limit)
                   && PageByFields(r.value, clientId, f.kind, f.status, start.value, limit)
      ensures cursor == None || cursor == Some([]) ==>
                r.Ok? && PageByFields(r.value, clientId, f.kind, f.status, None, limit)
    {
      var after := None;
      if cursor.Some? && cursor.value != [] {
        var pos := DecodeCursor(cursor.value);
        if pos.Err? {
          return Err(pos.error);
        }
        var t, i := text.parseTime(pos.value.updatedAt), text.parseId(pos.value.id);
        if t.None? || i.None? {
          return Err(InvalidValue);
        }
        after := Some(Position(t.value, i.value));
      }
      var page := PageAfter(clientId, f, limit, after);
      ServesByFields(page, clientId, f, after, limit);
      return Ok(page);
    }

    method CursorAfter(last: Row) returns (c: seq<byte>)
      ensures c == CursorOf(text, PositionOf(last))
    {
      c := MakeCursor(text.time(last.updatedAt), text.id(last.id));
    }

    /** Cut the rows to the page size; a row beyond it means that more remain. */
    method Cut(result: seq<Row>, pageSize: nat) returns (page: Page)
      requires pageSize > 0
      ensures page.hasMore <==> |result| > pageSize
      ensures page.items == if page.hasMore then result[..pageSize] else result
      ensures page.nextCursor == if page.hasMore then Some(CursorOf(text, PositionOf(page.items[pageSize - 1]))) else None
    {
      var hasMore := |result| > pageSize;
      var count := if hasMore then pageSize else |result|;
      var items := [];
      for i := 0 to count
        invariant items == result[..i]
      {
        items := items + [result[i]];
      }
      page := Page(items, None, hasMore);
      if hasMore && items != [] {
        var next := CursorAfter(items[|items| - 1]);
        page := page.(nextCursor := Some(next));
      }
    }

    method PageAfter(clientId: string, f: ListFilter, limit: int, after: Option<Position>) returns (page: Page)
      requires Valid()
      ensures Serves(page, clientId, f, after, limit)
    {
      var result := Select(clientId, f, after, Clamp(limit) + 1);
      page := Cut(result, Clamp(limit));
      CutServes(result, page, clientId, f, after, limit);
    }

    lemma CutServes(result: seq<Row>, page: Page, clientId: string, f: ListFilter, after: Option<Position>, limit: int)
      requires RowsAt(result, Take(Descending(Below(Matching(table, clientId, f), after)), Clamp(limit) + 1))
      requires page.hasMore <==> |result| > Clamp(limit)
      requires page.items == if page.hasMore then result[..Clamp(limit)] else result
      requires page.nextCursor ==
               if page.hasMore then Some(CursorOf(text, PositionOf(page.items[Clamp(limit) - 1]))) else None
      ensures Serves(page, clientId, f, after, limit)
    {
      var all := Descending(Below(Matching(table, clientId, f), after));
      DescendingSorts(Below(Matching(table, clientId, f), after));
      RowsPrefix(result, all, Clamp(limit));
    }

    lemma RowsPrefix(rows: seq<Row>, all: seq<Position>, n: nat)
      requires RowsAt(rows, Take(all, n + 1))
      ensures |rows| > n <==> |all| > n
      ensures RowsAt(if |rows| > n then rows[..n] else rows, Take(all, n))
    {
    }
  }
}
