/**
 * Cursor paging, newest first, over tables that may grow between fetches: the
 * audit trail and the document list.
 */
module Paging {
  import opened Text
  import opened Acl
  import Sorting
  import Search

  /** Ids are numbered in the order in which the database compares them. */
  datatype Row = Row(id: nat, organizationId: string, createdAt: int, deleted: bool)

  type Table = seq<Row>

  /** `a` is listed before `b`: by creation time, then by id, both descending. */
  predicate Newer(a: Row, b: Row) {
    a.createdAt > b.createdAt || (a.createdAt == b.createdAt && a.id > b.id)
  }

  predicate Descending(rows: Table) {
    forall i, j :: 0 <= i < j < |rows| ==> Newer(rows[i], rows[j])
  }

  function RowId(r: Row): nat {
    r.id
  }

  predicate UniqueIds(table: Table) {
    Sorting.DistinctBy(table, RowId)
  }

  function Place(r: Row, rows: Table): Table {
    if rows == [] || Newer(r, rows[0]) then [r] + rows else [rows[0]] + Place(r, rows[1..])
  }

  function Ordered(rows: Table): Table {
    if rows == [] then [] else Place(rows[0], Ordered(rows[1..]))
  }

  function OfOrg(org: string): Row -> bool {
    (r: Row) => r.organizationId == org && !r.deleted
  }

  /** An organization's rows, newest first. */
  function Trail(table: Table, org: string): Table {
    Ordered(Filter(table, OfOrg(org)))
  }

  function FindId(table: Table, id: nat): (r: Option<Row>)
    ensures r.Some? ==> r.value in table && r.value.id == id
    ensures r.None? ==> forall x :: x in table ==> x.id != id
  {
    if table == [] then None else if table[0].id == id then Some(table[0]) else FindId(table[1..], id)
  }

  /** Leave out what comes before `c` in the listing order. */
  function SkipNewer(rows: Table, c: Row): Table {
    if rows == [] || !Newer(rows[0], c) then rows else SkipNewer(rows[1..], c)
  }

  function Take(rows: Table, n: nat): (r: Table)
    ensures r <= rows && |r| == if n < |rows| then n else |rows|
  {
    if n < |rows| then rows[..n] else rows
  }

  /** The rows after the cursor; a cursor that names no row yields none. */
  function Rest(table: Table, org: string, cursor: Option<nat>): Table {
    if cursor.None? then Trail(table, org)
    else
      match FindId(table, cursor.value)
      case None => []
      case Some(c) =>
        var rows := SkipNewer(Trail(table, org), c);
        if rows == [] then [] else rows[1..]
  }

  datatype Page = Page(rows: Table, next: Option<nat>)

  /** One more row than asked for is fetched, to see whether there is a next page. */
  function ListPage(table: Table, org: string, limit: nat, cursor: Option<nat>): Page {
    var rows := Take(Rest(table, org, cursor), limit + 1);
    var page := Take(rows, limit);
    Page(page, if |rows| > limit && page != [] then Some(page[|page| - 1].id) else None)
  }

  /** The append-only audit table. */
  class AuditRepository {
    var table: Table

    constructor ()
      ensures table == []
    {
      table := [];
    }

    /** Fails when the id is taken; rows are never changed or removed. */
    method Create(row: Row) returns (ok: bool)
      requires UniqueIds(table)
      modifies this
      ensures ok == FindId(old(table), row.id).None?
      ensures table == if ok then old(table) + [row] else old(table)
      ensures UniqueIds(table)
    {
      hide FindId;
      if FindId(table, row.id).Some? { return false; }
      table := table + [row];
      return true;
    }

    method List(org: string, limit: nat, cursor: Option<nat>) returns (page: Page)
      ensures page == ListPage(table, org, limit, cursor)
    {
      var rows := Take(Rest(table, org, cursor), limit + 1);
      var hasMore := |rows| > limit;
      var shown := if hasMore then rows[..limit] else rows;
      page := Page(shown, if hasMore && shown != [] then Some(shown[|shown| - 1].id) else None);
    }
  }

  // ------------------------------------------------------------------- the order

  lemma {:induction false} PlaceMembers(r: Row, rows: Table, x: Row)
    ensures x in Place(r, rows) <==> x == r || x in rows
  {
    if rows != [] && !Newer(r, rows[0]) {
      PlaceMembers(r, rows[1..], x);
      assert x in rows <==> x == rows[0] || x in rows[1..];
    }
  }

  lemma {:induction false} PlaceDescending(r: Row, rows: Table)
    requires Descending(rows) && forall x :: x in rows ==> x.id != r.id
    ensures Descending(Place(r, rows))
  {
    if rows == [] {
    } else if Newer(r, rows[0]) {
      forall j | 0 <= j < |rows| ensures Newer(r, rows[j]) {
        assert j > 0 ==> Newer(rows[0], rows[j]);
      }
    } else {
      PlaceDescending(r, rows[1..]);
      var rest := Place(r, rows[1..]);
      forall j | 0 <= j < |rest| ensures Newer(rows[0], rest[j]) {
        PlaceMembers(r, rows[1..], rest[j]);
        assert rows[0] in rows;
      }
    }
  }

  lemma {:induction false} OrderedMembers(rows: Table, x: Row)
    ensures x in Ordered(rows) <==> x in rows
  {
    if rows != [] {
      OrderedMembers(rows[1..], x);
      PlaceMembers(rows[0], Ordered(rows[1..]), x);
      assert x in rows <==> x == rows[0] || x in rows[1..];
    }
  }

  lemma {:induction false} OrderedDescending(rows: Table)
    requires UniqueIds(rows)
    ensures Descending(Ordered(rows))
  {
    if rows != [] {
      OrderedDescending(rows[1..]);
      forall x | x in Ordered(rows[1..]) ensures x.id != rows[0].id {
        OrderedMembers(rows[1..], x);
        var j :| 0 <= j < |rows[1..]| && rows[1..][j] == x;
        assert RowId(rows[0]) != RowId(rows[j + 1]);
      }
      PlaceDescending(rows[0], Ordered(rows[1..]));
    }
  }

  lemma {:induction false} FilterDistinct(rows: Table, keep: Row -> bool)
    requires UniqueIds(rows)
    ensures UniqueIds(Filter(rows, keep))
  {
    if rows != [] {
      FilterDistinct(rows[1..], keep);
      var rest := Filter(rows[1..], keep);
      forall j | 0 <= j < |rest| ensures rest[j].id != rows[0].id {
        assert rest[j] in rows[1..];
        var k :| 0 <= k < |rows[1..]| && rows[1..][k] == rest[j];
        assert RowId(rows[0]) != RowId(rows[k + 1]);
      }
    }
  }

  /** The trail is strictly descending and holds exactly the organization's rows. */
  lemma TrailShape(table: Table, org: string)
    requires UniqueIds(table)
    ensures Descending(Trail(table, org))
    ensures forall r :: r in Trail(table, org) <==> r in table && OfOrg(org)(r)
  {
    hide Ordered, Filter;
    FilterDistinct(table, OfOrg(org));
    OrderedDescending(Filter(table, OfOrg(org)));
    forall r ensures r in Trail(table, org) <==> r in table && OfOrg(org)(r) {
      OrderedMembers(Filter(table, OfOrg(org)), r);
    }
  }

  /** The trail: the rows of the organization that are not deleted, by time and then by id, both falling. */
  lemma TrailExactly(table: Table, org: string)
    requires UniqueIds(table)
    ensures forall r :: r in Trail(table, org) <==> r in table && r.organizationId == org && !r.deleted
    ensures var trail := Trail(table, org);
      forall i, j :: 0 <= i < j < |trail| ==>
        trail[i].createdAt > trail[j].createdAt ||
        (trail[i].createdAt == trail[j].createdAt && trail[i].id > trail[j].id)
  {
    hide Trail;
    TrailShape(table, org);
    var trail := Trail(table, org);
    forall i, j | 0 <= i < j < |trail|
      ensures trail[i].createdAt > trail[j].createdAt ||
        (trail[i].createdAt == trail[j].createdAt && trail[i].id > trail[j].id)
    {
      assert Newer(trail[i], trail[j]);
    }
  }

  /** Two strictly descending lists with the same rows are the same list. */
  lemma {:induction false} DescendingIsUnique(a: Table, b: Table)
    requires Descending(a) && Descending(b) && forall r :: r in a <==> r in b
    ensures a == b
  {
    SameEmptiness(a, b);
    SameEmptiness(b, a);
    if a != [] {
      assert a[0] in b && b[0] in a;
      HeadIsNewest(a, b[0]);
      HeadIsNewest(b, a[0]);
      forall r ensures r in a[1..] <==> r in b[1..] {
        TailMembers(a, r);
        TailMembers(b, r);
      }
      DescendingIsUnique(a[1..], b[1..]);
    }
  }

  lemma SameEmptiness(a: Table, b: Table)
    requires forall r :: r in a ==> r in b
    ensures a != [] ==> b != []
  {
    if a != [] { assert a[0] in b; }
  }

  lemma HeadIsNewest(rows: Table, r: Row)
    requires Descending(rows) && r in rows
    ensures r == rows[0] || Newer(rows[0], r)
  {
  }

  lemma TailMembers(rows: Table, r: Row)
    requires Descending(rows) && rows != []
    ensures r in rows[1..] <==> r in rows && Newer(rows[0], r)
  {
    forall j | 1 <= j < |rows| ensures rows[j] in rows[1..] { assert rows[1..][j - 1] == rows[j]; }
    if r in rows[1..] {
      var j :| 0 <= j < |rows[1..]| && rows[1..][j] == r;
      assert rows[j + 1] == r;
    }
  }

  lemma OlderIsLater(rows: Table, i: nat, j: nat)
    requires Descending(rows) && i < |rows| && j < |rows| && Newer(rows[i], rows[j])
    ensures i < j
  {
  }

  // ---------------------------------------------------------------- after a cursor

  lemma {:induction false} SkipToRow(rows: Table, i: nat)
    requires Descending(rows) && i < |rows|
    ensures SkipNewer(rows, rows[i]) == rows[i..]
  {
    if i > 0 {
      assert rows[i] == rows[1..][i - 1];
      SkipToRow(rows[1..], i - 1);
    }
  }

  lemma FindUnique(table: Table, r: Row)
    requires UniqueIds(table) && r in table
    ensures FindId(table, r.id) == Some(r)
  {
    hide FindId;
    SameIdSameRow(table, r, FindId(table, r.id).value);
  }

  lemma SameIdSameRow(table: Table, a: Row, b: Row)
    requires UniqueIds(table) && a in table && b in table && a.id == b.id
    ensures a == b
  {
    var i :| 0 <= i < |table| && table[i] == a;
    var j :| 0 <= j < |table| && table[j] == b;
    assert RowId(table[i]) == RowId(table[j]);
  }

  predicate RestFrom(table: Table, org: string, c: Row, i: nat) {
    i < |Trail(table, org)| && Trail(table, org)[i] == c &&
    Rest(table, org, Some(c.id)) == Trail(table, org)[i + 1..]
  }

  /** After a cursor that is a listed row come exactly the listed rows that are older. */
  lemma RestAfterRow(table: Table, org: string, c: Row)
    requires UniqueIds(table) && c in Trail(table, org)
    ensures var rest := Rest(table, org, Some(c.id));
      Descending(rest) && forall r :: r in rest <==> r in Trail(table, org) && Newer(c, r)
    ensures exists i :: RestFrom(table, org, c, i)
  {
    hide Trail, FindId, SkipNewer;
    TrailShape(table, org);
    FindUnique(table, c);
    var trail := Trail(table, org);
    var i :| 0 <= i < |trail| && trail[i] == c;
    SkipToRow(trail, i);
    var rest := Rest(table, org, Some(c.id));
    assert rest == trail[i..][1..] == trail[i + 1..];
    assert RestFrom(table, org, c, i);
    forall r ensures r in rest <==> r in trail && Newer(c, r) {
      TailMembers(trail[i..], r);
      if r in trail && Newer(c, r) {
        var j :| 0 <= j < |trail| && trail[j] == r;
        OlderIsLater(trail, i, j);
        assert trail[i..][j - i] == r;
      }
    }
  }

  /** The page that starts at place `i` of the trail: `limit` rows or what is left, and a cursor if more is left. */
  predicate IsPage(trail: Table, i: nat, limit: nat, page: Page)
    requires i <= |trail|
  {
    if |trail| - i > limit then
      page.rows == trail[i..i + limit] && page.next == (if limit == 0 then None else Some(trail[i + limit - 1].id))
    else page == Page(trail[i..], None)
  }

  lemma RestMakesPage(table: Table, org: string, limit: nat, cursor: Option<nat>, i: nat)
    requires i <= |Trail(table, org)| && Rest(table, org, cursor) == Trail(table, org)[i..]
    ensures IsPage(Trail(table, org), i, limit, ListPage(table, org, limit, cursor))
  {
    hide Trail, Rest;
    var trail := Trail(table, org);
    if |trail| - i > limit { assert Take(Take(trail[i..], limit + 1), limit) == trail[i..i + limit]; }
  }

  lemma RestAtPlace(table: Table, org: string, i: nat)
    requires UniqueIds(table) && i < |Trail(table, org)|
    ensures Rest(table, org, Some(Trail(table, org)[i].id)) == Trail(table, org)[i + 1..]
  {
    hide Trail, FindId, SkipNewer;
    var trail := Trail(table, org);
    TrailShape(table, org);
    assert trail[i] in trail;
    FindUnique(table, trail[i]);
    SkipToRow(trail, i);
    assert trail[i..][1..] == trail[i + 1..];
  }

  /** The first page starts the trail; the page after a row starts behind it; after an unknown row there is nothing. */
  lemma PagesExactly(table: Table, org: string, limit: nat, i: nat)
    requires UniqueIds(table)
    ensures IsPage(Trail(table, org), 0, limit, ListPage(table, org, limit, None))
    ensures i < |Trail(table, org)|
      ==> IsPage(Trail(table, org), i + 1, limit, ListPage(table, org, limit, Some(Trail(table, org)[i].id)))
    ensures (forall r :: r in table ==> r.id != i) ==> ListPage(table, org, limit, Some(i)) == Page([], None)
  {
    hide Trail, IsPage, ListPage, Rest;
    RestOfAll(table, org);
    assert Trail(table, org)[0..] == Trail(table, org);
    RestMakesPage(table, org, limit, None, 0);
    if i < |Trail(table, org)| {
      RestAtPlace(table, org, i);
      RestMakesPage(table, org, limit, Some(Trail(table, org)[i].id), i + 1);
    }
    NothingAfterUnknown(table, org, limit, i);
  }

  lemma NothingAfterUnknown(table: Table, org: string, limit: nat, id: nat)
    ensures (forall r :: r in table ==> r.id != id) ==> ListPage(table, org, limit, Some(id)) == Page([], None)
  {
    hide Trail, SkipNewer;
  }

  // --------------------------------------------------------------- following cursors

  /** Every table of a run extends the one before. */
  predicate Growing(tables: seq<Table>) {
    (forall i :: 0 <= i < |tables| ==> UniqueIds(tables[i])) &&
    forall i, j, r :: 0 <= i < j < |tables| && r in tables[i] ==> r in tables[j]
  }

  datatype Walk = Walk(rows: Table, done: bool)

  /** Fetch page after page, the k-th from the k-th table, until there is no next cursor. */
  function Follow(tables: seq<Table>, org: string, limit: nat, cursor: Option<nat>): Walk
    decreases |tables|
  {
    if tables == [] then Walk([], false)
    else
      var page := ListPage(tables[0], org, limit, cursor);
      if page.next.None? then Walk(page.rows, true)
      else
        var more := Follow(tables[1..], org, limit, page.next);
        Walk(page.rows + more.rows, more.done)
  }

  /** The cursor is absent or a listed row. */
  predicate Valid(table: Table, org: string, cursor: Option<Row>) {
    cursor.Some? ==> cursor.value in Trail(table, org)
  }

  function IdOf(cursor: Option<Row>): Option<nat> {
    if cursor.None? then None else Some(cursor.value.id)
  }

  /** `r` comes after the cursor. */
  predicate Later(cursor: Option<Row>, r: Row) {
    cursor.Some? ==> Newer(cursor.value, r)
  }

  lemma RestShape(table: Table, org: string, cursor: Option<Row>)
    requires UniqueIds(table) && Valid(table, org, cursor)
    ensures var rest := Rest(table, org, IdOf(cursor));
      Descending(rest) && forall r :: r in rest <==> r in Trail(table, org) && Later(cursor, r)
  {
    hide Trail, Rest;
    TrailShape(table, org);
    if cursor.Some? { RestAfterRow(table, org, cursor.value); } else { RestOfAll(table, org); }
  }

  lemma RestOfAll(table: Table, org: string)
    ensures Rest(table, org, None) == Trail(table, org)
  {
  }

  /** One page: the next rows in order; and either it is the last one, or it ends at the new cursor. */
  lemma PageShape(table: Table, org: string, limit: nat, cursor: Option<Row>)
    requires UniqueIds(table) && Valid(table, org, cursor) && limit >= 1
    ensures var page, rest := ListPage(table, org, limit, IdOf(cursor)), Rest(table, org, IdOf(cursor));
      page.rows <= rest && (page.next.None? <==> |rest| <= limit) &&
      if page.next.None? then page.rows == rest
      else |page.rows| == limit && page.next.value == page.rows[limit - 1].id &&
           page.rows[limit - 1] in Trail(table, org)
  {
    hide Rest, Trail;
    RestShape(table, org, cursor);
    var rest := Rest(table, org, IdOf(cursor));
    if |rest| > limit { assert rest[limit - 1] in rest; }
  }

  lemma PageMembers(rest: Table, n: nat, c: Row)
    requires Descending(rest) && 1 <= n <= |rest| && c == rest[n - 1]
    ensures forall r :: r in rest ==> r in rest[..n] || Newer(c, r)
    ensures forall r :: r in rest[..n] ==> r == c || Newer(r, c)
  {
    forall r | r in rest ensures r in rest[..n] || Newer(c, r) {
      var j :| 0 <= j < |rest| && rest[j] == r;
      if j < n { assert rest[..n][j] == r; }
    }
  }

  lemma StillListed(tables: seq<Table>, org: string, r: Row)
    requires Growing(tables) && |tables| >= 2 && r in Trail(tables[0], org)
    ensures r in Trail(tables[1], org)
  {
    hide Trail;
    TrailShape(tables[0], org);
    TrailShape(tables[1], org);
  }

  /**
   * Whatever is appended between the fetches, the rows come in strictly descending
   * order, hence none twice.
   */
  lemma {:induction false} WalkDescends(tables: seq<Table>, org: string, limit: nat, cursor: Option<Row>)
    requires Growing(tables) && limit >= 1 && (tables != [] ==> Valid(tables[0], org, cursor))
    ensures var walk := Follow(tables, org, limit, IdOf(cursor));
      Descending(walk.rows) && forall r :: r in walk.rows ==> Later(cursor, r)
    decreases |tables|
  {
    hide ListPage, Rest, Trail, Growing;
    if tables != [] {
      GrowingTail(tables);
      RestShape(tables[0], org, cursor);
      PageShape(tables[0], org, limit, cursor);
      var page := ListPage(tables[0], org, limit, IdOf(cursor));
      if page.next.Some? {
        var c := page.rows[limit - 1];
        if |tables| >= 2 { StillListed(tables, org, c); }
        WalkDescends(tables[1..], org, limit, Some(c));
        PageMembers(Rest(tables[0], org, IdOf(cursor)), limit, c);
        DescendingJoin(page.rows, Follow(tables[1..], org, limit, page.next).rows, c);
        assert c in page.rows;
      }
    }
  }

  lemma GrowingTail(tables: seq<Table>)
    requires Growing(tables) && tables != []
    ensures Growing(tables[1..]) && UniqueIds(tables[0])
  {
  }

  lemma DescendingJoin(a: Table, b: Table, c: Row)
    requires Descending(a) && Descending(b) && a != [] && a[|a| - 1] == c
    requires forall r :: r in b ==> Newer(c, r)
    ensures Descending(a + b)
  {
    forall i, j | 0 <= i < |a| && 0 <= j < |b| ensures Newer(a[i], b[j]) {
      assert b[j] in b && (i < |a| - 1 ==> Newer(a[i], c));
    }
  }

  /**
   * A completed walk has met every row that was listed at the first fetch, whatever
   * was appended meanwhile; with `WalkDescends`, exactly once.
   */
  lemma {:induction false} WalkMeetsEverything(tables: seq<Table>, org: string, limit: nat, cursor: Option<Row>, r: Row)
    requires Growing(tables) && tables != [] && limit >= 1 && Valid(tables[0], org, cursor)
    requires Follow(tables, org, limit, IdOf(cursor)).done && r in Trail(tables[0], org) && Later(cursor, r)
    ensures r in Follow(tables, org, limit, IdOf(cursor)).rows
    decreases |tables|
  {
    hide ListPage, Rest, Trail, Growing;
    GrowingTail(tables);
    RestShape(tables[0], org, cursor);
    PageShape(tables[0], org, limit, cursor);
    var page := ListPage(tables[0], org, limit, IdOf(cursor));
    if page.next.Some? {
      var c := page.rows[limit - 1];
      PageMembers(Rest(tables[0], org, IdOf(cursor)), limit, c);
      if r !in page.rows {
        StillListed(tables, org, c);
        StillListed(tables, org, r);
        WalkMeetsEverything(tables[1..], org, limit, Some(c), r);
      }
    }
  }

  // ------------------------------------------------------- when only newer rows arrive

  /** What was not there at first is newer than all that was. */
  predicate NewerOnly(first: Table, tables: seq<Table>, org: string) {
    forall i, r, s :: 0 <= i < |tables| && r in Trail(tables[i], org) && s in Trail(first, org) ==>
      r in Trail(first, org) || Newer(r, s)
  }

  /** The rows after a cursor are then the same in every table. */
  lemma SameRest(first: Table, table: Table, org: string, c: Row)
    requires UniqueIds(first) && UniqueIds(table) && c in Trail(first, org) && c in Trail(table, org)
    requires forall r :: r in Trail(first, org) ==> r in Trail(table, org)
    requires forall r :: r in Trail(table, org) ==> r in Trail(first, org) || Newer(r, c)
    ensures Rest(table, org, Some(c.id)) == Rest(first, org, Some(c.id))
  {
    hide Trail, Rest;
    RestShape(first, org, Some(c));
    RestShape(table, org, Some(c));
    DescendingIsUnique(Rest(table, org, Some(c.id)), Rest(first, org, Some(c.id)));
  }

  predicate Contains(first: Table, tables: seq<Table>) {
    (forall i :: 0 <= i < |tables| ==> UniqueIds(tables[i])) &&
    forall i, r :: 0 <= i < |tables| && r in first ==> r in tables[i]
  }

  /**
   * The walk from a listed row then returns what follows it in the first table, in
   * order and nothing else, if it is completed; and enough fetches complete it.
   */
  lemma {:induction false} WalkFromRow(first: Table, tables: seq<Table>, org: string, limit: nat, c: Row)
    requires UniqueIds(first) && Contains(first, tables) && NewerOnly(first, tables, org)
    requires limit >= 1 && c in Trail(first, org)
    ensures var walk, rest := Follow(tables, org, limit, Some(c.id)), Rest(first, org, Some(c.id));
      walk.rows <= rest && (walk.done ==> walk.rows == rest) &&
      (tables != [] && |tables| * limit >= |rest| ==> walk.done)
    decreases |tables|
  {
    hide ListPage, Rest, Trail, Contains, NewerOnly;
    if tables != [] {
      var rest := Rest(first, org, Some(c.id));
      TableStep(first, tables, org, c);
      PageShape(tables[0], org, limit, Some(c));
      var page := ListPage(tables[0], org, limit, Some(c.id));
      if page.next.Some? {
        var d := page.rows[limit - 1];
        WalkFromRow(first, tables[1..], org, limit, d);
        var more := Follow(tables[1..], org, limit, page.next);
        RestAfterPage(first, org, Some(c), limit, d);
        assert rest == page.rows + rest[limit..];
        Fewer(|tables|, limit, |rest|);
      }
    }
  }

  lemma Fewer(n: nat, limit: nat, size: nat)
    requires n >= 1 && size > limit
    ensures n * limit >= size <==> (n - 1) * limit >= size - limit
    ensures n * limit >= size ==> n > 1
  {
    assert n * limit == (n - 1) * limit + limit;
  }

  lemma TableStep(first: Table, tables: seq<Table>, org: string, c: Row)
    requires UniqueIds(first) && Contains(first, tables) && NewerOnly(first, tables, org) && tables != []
    requires c in Trail(first, org)
    ensures UniqueIds(tables[0]) && Contains(first, tables[1..]) && NewerOnly(first, tables[1..], org)
    ensures c in Trail(tables[0], org)
    ensures Rest(tables[0], org, Some(c.id)) == Rest(first, org, Some(c.id))
    ensures forall r :: r in Rest(first, org, Some(c.id)) ==> r in Trail(first, org)
  {
    hide Trail, Rest;
    TrailShape(first, org);
    TrailShape(tables[0], org);
    SameRest(first, tables[0], org, c);
    RestShape(first, org, Some(c));
  }

  /** What follows the last row of a page is what the page left over. */
  lemma RestAfterPage(table: Table, org: string, cursor: Option<Row>, n: nat, d: Row)
    requires UniqueIds(table) && Valid(table, org, cursor)
    requires var rest := Rest(table, org, IdOf(cursor)); 1 <= n <= |rest| && d == rest[n - 1]
    ensures Rest(table, org, Some(d.id)) == Rest(table, org, IdOf(cursor))[n..]
  {
    hide Trail, Rest;
    RestShape(table, org, cursor);
    var rest := Rest(table, org, IdOf(cursor));
    assert d in rest;
    RestShape(table, org, Some(d));
    forall r ensures r in rest[n..] <==> r in Rest(table, org, Some(d.id)) { OlderThan(rest, n, r, cursor, d); }
    DescendingIsUnique(rest[n..], Rest(table, org, Some(d.id)));
  }

  lemma OlderThan(rest: Table, n: nat, r: Row, cursor: Option<Row>, d: Row)
    requires Descending(rest) && 1 <= n <= |rest| && d == rest[n - 1] && Later(cursor, d)
    ensures r in rest[n..] <==> r in rest && Newer(d, r)
    ensures Newer(d, r) ==> Later(cursor, r)
  {
    forall j | n <= j < |rest| ensures rest[j] in rest[n..] { assert rest[n..][j - n] == rest[j]; }
    if r in rest[n..] {
      var j :| 0 <= j < |rest[n..]| && rest[n..][j] == r;
      assert rest[n + j] == r;
    } else if r in rest && Newer(d, r) {
      var j :| 0 <= j < |rest| && rest[j] == r;
      OlderIsLater(rest, n - 1, j);
    }
  }

  /**
   * Paging an append-only trail to which only newer rows are added: the pages are
   * the trail as it was at the first fetch, cut into pieces, and the walk ends after
   * at most one fetch per `limit` rows.
   */
  lemma WalkIsTheTrail(tables: seq<Table>, org: string, limit: nat)
    requires tables != [] && limit >= 1 && Contains(tables[0], tables) && NewerOnly(tables[0], tables, org)
    ensures var walk, trail := Follow(tables, org, limit, None), Trail(tables[0], org);
      walk.rows <= trail && (walk.done ==> walk.rows == trail) && (|tables| * limit >= |trail| ==> walk.done)
  {
    hide ListPage, Rest, Trail, NewerOnly;
    var first := tables[0];
    var trail := Trail(first, org);
    RestOfAll(first, org);
    PageShape(first, org, limit, None);
    var page := ListPage(first, org, limit, None);
    if page.next.Some? {
      var d := page.rows[limit - 1];
      OneLess(first, tables, org);
      WalkFromRow(first, tables[1..], org, limit, d);
      RestAfterPage(first, org, None, limit, d);
      assert trail == page.rows + trail[limit..];
      Fewer(|tables|, limit, |trail|);
    }
  }

  lemma OneLess(first: Table, tables: seq<Table>, org: string)
    requires tables != [] && Contains(first, tables) && NewerOnly(first, tables, org)
    ensures Contains(first, tables[1..]) && NewerOnly(first, tables[1..], org)
  {
    hide Trail;
  }

  // --------------------------------------------- documents: page first, filter after

  /** `name` gives an id its text, by which access entries refer to documents. */
  function Visible(acls: seq<AclEntry>, name: nat -> string, p: Principal): Row -> bool {
    (r: Row) => CanAccess(Filter(acls, Search.OfDoc(name(r.id))), p, true)
  }

  /** Administrators see every document; others those that list nobody, or them. */
  lemma VisibleExactly(acls: seq<AclEntry>, name: nat -> string, p: Principal, r: Row)
    ensures Visible(acls, name, p)(r) <==>
      p.role == ADMIN || p.role == OWNER || (forall a :: a in acls ==> a.documentId != name(r.id)) ||
      exists a :: a in acls && a.documentId == name(r.id) && CanAccess([a], p, false)
  {
    hide CanAccess, Grants, Filter;
    var listed := Filter(acls, Search.OfDoc(name(r.id)));
    AccessRule(listed, p, true);
    forall a ensures CanAccess([a], p, false) <==> Grants(a, p) {
      GrantOfOne(a, p);
    }
    assert forall a :: a in listed <==> a in acls && a.documentId == name(r.id);
    if listed != [] { assert listed[0] in listed; }
  }

  function VisibleIn(byDoc: map<string, seq<AclEntry>>, name: nat -> string, p: Principal): Row -> bool {
    (r: Row) => CanAccess(Search.Listed(byDoc, name(r.id)), p, true)
  }

  function Names(rows: Table, name: nat -> string): (r: seq<string>)
    ensures |r| == |rows| && forall x :: x in rows ==> name(x.id) in r
  {
    if rows == [] then [] else [name(rows[0].id)] + Names(rows[1..], name)
  }

  /** One page of documents; an administrator sees all, others what they have access to. */
  method ListDocuments(table: Table, acls: seq<AclEntry>, name: nat -> string, p: Principal, org: string, limit: nat,
                       cursor: Option<nat>)
    returns (documents: Table, next: Option<nat>)
    ensures var page := ListPage(table, org, limit, cursor);
      documents == Filter(page.rows, Visible(acls, name, p)) && next == page.next
  {
    hide Rest, Filter, CanAccess, Names;
    var rows := Take(Rest(table, org, cursor), limit + 1);
    var page := Take(rows, limit);
    var docs := Names(page, name);
    var byDoc := Search.GroupByDocument(Filter(acls, Search.InDocs(docs)));
    documents := Filter(page, VisibleIn(byDoc, name, p));
    forall r | r in page ensures VisibleIn(byDoc, name, p)(r) == Visible(acls, name, p)(r) {
      Search.FilterTwice(acls, docs, name(r.id));
    }
    FilterAgrees(page, VisibleIn(byDoc, name, p), Visible(acls, name, p));
    next := if |rows| > limit && page != [] then Some(page[|page| - 1].id) else None;
  }

  lemma {:induction false} FilterAgrees<T(!new)>(s: seq<T>, f: T -> bool, g: T -> bool)
    requires forall x :: x in s ==> f(x) == g(x)
    ensures Filter(s, f) == Filter(s, g)
  {
    if s != [] { FilterAgrees(s[1..], f, g); }
  }

  /** At most `fetches` pages of documents, following cursors on a table that stays as it is. */
  function FollowDocuments(table: Table, see: Row -> bool, org: string, limit: nat, cursor: Option<nat>, fetches: nat): Walk
    decreases fetches
  {
    if fetches == 0 then Walk([], false)
    else
      var page := ListPage(table, org, limit, cursor);
      if page.next.None? then Walk(Filter(page.rows, see), true)
      else
        var more := FollowDocuments(table, see, org, limit, page.next, fetches - 1);
        Walk(Filter(page.rows, see) + more.rows, more.done)
  }

  function Repeat(table: Table, n: nat): (r: seq<Table>)
    ensures |r| == n && forall t :: t in r ==> t == table
  {
    if n == 0 then [] else [table] + Repeat(table, n - 1)
  }

  lemma {:induction false} DocumentPagesAreFiltered(table: Table, see: Row -> bool, org: string, limit: nat,
                                                    cursor: Option<nat>, fetches: nat)
    ensures var all, some := Follow(Repeat(table, fetches), org, limit, cursor),
                             FollowDocuments(table, see, org, limit, cursor, fetches);
      some.done == all.done && some.rows == Filter(all.rows, see)
    decreases fetches
  {
    hide ListPage, Filter;
    if fetches == 0 {
      NothingToFilter(see);
    } else {
      var page := ListPage(table, org, limit, cursor);
      assert Repeat(table, fetches)[1..] == Repeat(table, fetches - 1);
      if page.next.Some? {
        DocumentPagesAreFiltered(table, see, org, limit, page.next, fetches - 1);
        FilterAppend(page.rows, Follow(Repeat(table, fetches - 1), org, limit, page.next).rows, see);
      }
    }
  }

  lemma NothingToFilter(see: Row -> bool)
    ensures Filter([], see) == []
  {
  }

  /**
   * On a table that stays as it is, the pages together are what the principal may
   * see of the whole list, in order, even when single pages are empty.
   */
  lemma DocumentsAreComplete(table: Table, acls: seq<AclEntry>, name: nat -> string, p: Principal, org: string,
                             limit: nat, fetches: nat)
    requires UniqueIds(table) && limit >= 1 && fetches >= 1 && fetches * limit >= |Trail(table, org)|
    ensures FollowDocuments(table, Visible(acls, name, p), org, limit, None, fetches)
         == Walk(Filter(Trail(table, org), Visible(acls, name, p)), true)
  {
    hide ListPage, Filter, Trail, Visible, Follow;
    var tables := Repeat(table, fetches);
    forall i | 0 <= i < |tables| ensures tables[i] == table { assert tables[i] in tables; }
    WalkIsTheTrail(tables, org, limit);
    DocumentPagesAreFiltered(table, Visible(acls, name, p), org, limit, None, fetches);
  }
}
