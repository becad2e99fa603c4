/** Cursor pagination: a page of rows and the cursor of the next page, if there is one. */
module CursorPaging {
  import opened Options

  datatype Row = Row(id: string, data: int)

  datatype PageResult = PageResult(items: seq<Row>, nextCursor: Option<string>)

  /** `items[items.length - 2]?.id`: nothing when there is no such element. */
  function NextToLastId(items: seq<Row>): Option<string> {
    if |items| >= 2 then Some(items[|items| - 2].id) else None
  }

  function CursorPaginate(items: seq<Row>, limit: nat): PageResult {
    if |items| > limit then PageResult(items[..limit], NextToLastId(items)) else PageResult(items, None)
  }

  // ---------------------------------------------------------------- the query

  ghost predicate UniqueIds(rows: seq<Row>) {
    forall i, j :: 0 <= i < j < |rows| ==> rows[i].id != rows[j].id
  }

  lemma DistinctIds(rows: seq<Row>, i: nat, j: nat)
    requires UniqueIds(rows) && i < |rows| && j < |rows|
    ensures rows[i].id == rows[j].id <==> i == j
  {
    var a, b := Min(i, j), Max(i, j);
    assert a < b ==> rows[a].id != rows[b].id;
  }

  /** The number of rows up to and including the cursor's row, which the next page skips. */
  function Position(rows: seq<Row>, cursor: Option<string>): (n: nat)
    ensures n <= |rows|
    ensures cursor.Some? && n > 0 ==> rows[n - 1].id == cursor.value
  {
    if cursor.None? || rows == [] then 0
    else if rows[|rows| - 1].id == cursor.value then |rows|
    else Position(rows[..|rows| - 1], cursor)
  }

  lemma {:induction false} PositionOfRow(rows: seq<Row>, i: nat)
    requires UniqueIds(rows) && i < |rows|
    ensures Position(rows, Some(rows[i].id)) == i + 1
    decreases |rows|
  {
    if i < |rows| - 1 {
      assert rows[i].id != rows[|rows| - 1].id;
      PositionOfRow(rows[..|rows| - 1], i);
    }
  }

  /** A query that fetches one row more than the page holds, as far as there are rows. */
  function Query(rows: seq<Row>, cursor: Option<string>, take: nat): seq<Row> {
    var from := Position(rows, cursor);
    rows[from..Min(from + take, |rows|)]
  }

  /** The page after a cursor ends at position `from + limit`, and its next cursor leads exactly there. */
  lemma PageIsExact(rows: seq<Row>, cursor: Option<string>, limit: nat)
    requires UniqueIds(rows) && limit >= 1
    ensures var from := Position(rows, cursor);
            var page := CursorPaginate(Query(rows, cursor, limit + 1), limit);
            && page.items == rows[from..Min(from + limit, |rows|)]
            && (page.nextCursor.Some? <==> from + limit < |rows|)
            && (page.nextCursor.Some? ==> Position(rows, page.nextCursor) == from + limit)
  {
    hide Position, UniqueIds;
    var from := Position(rows, cursor);
    var items := Query(rows, cursor, limit + 1);
    if from + limit < |rows| {
      assert |items| == limit + 1 && items[limit - 1] == rows[from + limit - 1];
      assert items[..limit] == rows[from..from + limit];
      assert CursorPaginate(items, limit).nextCursor == Some(rows[from + limit - 1].id);
      PositionOfRow(rows, from + limit - 1);
    } else {
      assert items == rows[from..];
    }
  }

  /** The pages that a caller sees who follows the cursors until there is none; the walk always ends. */
  function Walk(rows: seq<Row>, cursor: Option<string>, limit: nat): seq<seq<Row>>
    requires UniqueIds(rows) && limit >= 1
    decreases |rows| - Position(rows, cursor)
  {
    var page := CursorPaginate(Query(rows, cursor, limit + 1), limit);
    PageIsExact(rows, cursor, limit);
    [page.items] + if page.nextCursor.None? then [] else Walk(rows, page.nextCursor, limit)
  }

  function Concat(pages: seq<seq<Row>>): seq<Row> {
    if pages == [] then [] else pages[0] + Concat(pages[1..])
  }

  lemma {:induction false} WalkFrom(rows: seq<Row>, cursor: Option<string>, limit: nat)
    requires UniqueIds(rows) && limit >= 1
    ensures var pages, from := Walk(rows, cursor, limit), Position(rows, cursor);
            && Concat(pages) == rows[from..]
            && pages != [] && (forall p :: 0 <= p < |pages| - 1 ==> |pages[p]| == limit)
            && |pages[|pages| - 1]| <= limit && (from < |rows| ==> pages[|pages| - 1] != [])
    decreases |rows| - Position(rows, cursor)
  {
    hide UniqueIds, Position, Query, CursorPaginate;
    var page := CursorPaginate(Query(rows, cursor, limit + 1), limit);
    PageIsExact(rows, cursor, limit);
    var pages, from := Walk(rows, cursor, limit), Position(rows, cursor);
    if page.nextCursor.None? {
      assert pages == [page.items];
      assert Concat([page.items]) == page.items + Concat([]);
    } else {
      var later := Walk(rows, page.nextCursor, limit);
      WalkFrom(rows, page.nextCursor, limit);
      assert pages == [page.items] + later && pages[1..] == later;
      assert rows[from..] == page.items + rows[from + limit..];
    }
  }

  /**
   Following the cursors visits every row exactly once and in order.  All pages but the last are full,
   and the last is empty only if there are no rows.
   */
  lemma WalkVisitsAll(rows: seq<Row>, limit: nat)
    requires UniqueIds(rows) && limit >= 1
    ensures var pages := Walk(rows, None, limit);
            && Concat(pages) == rows
            && pages != [] && (forall p :: 0 <= p < |pages| - 1 ==> |pages[p]| == limit)
            && |pages[|pages| - 1]| <= limit && (rows != [] ==> pages[|pages| - 1] != [])
  {
    WalkFrom(rows, None, limit);
    assert rows[0..] == rows;
  }

  /**
   The next cursor is the id of the last row of the page exactly when the query gave one row too many;
   a query that gives more makes the cursor skip rows that no page has shown.
   */
  lemma CursorIsLastShownExactly(items: seq<Row>, limit: nat)
    requires UniqueIds(items) && limit >= 1 && |items| > limit
    ensures var page := CursorPaginate(items, limit);
            && page.nextCursor.Some?
            && (page.nextCursor.value == page.items[|page.items| - 1].id <==> |items| == limit + 1)
            && (page.nextCursor.value !in (set r | r in page.items :: r.id) <==> |items| > limit + 1)
  {
    var page := CursorPaginate(items, limit);
    var last := |items| - 2;
    assert page.items == items[..limit];
    DistinctIds(items, last, limit - 1);
    forall r | r in page.items
      ensures r.id == items[last].id ==> last < limit
    {
      var k :| 0 <= k < limit && items[k] == r;
      DistinctIds(items, k, last);
    }
    if last == limit - 1 {
      assert items[last] in page.items;
    }
  }
}
