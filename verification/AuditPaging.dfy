/** Keyset pagination of the incident audit log: pages newest first, each continuing strictly before the
    last record of the one before. */
module AuditPaging {
  import opened Common
  import opened Sorting

  datatype Record = Record(timestamp: int, id: string)

  function StampOf(r: Record): (int, string) {
    (r.timestamp, r.id)
  }

  /** Earlier in (timestamp, id) order. */
  predicate Before(a: Record, b: Record) {
    StampLess(StampOf(a), StampOf(b))
  }

  /** The order of the query: descending. */
  predicate After(a: Record, b: Record) {
    Before(b, a)
  }

  /** Audit ids are the table's primary key. */
  ghost predicate IdsUnique(table: seq<Record>) {
    forall i, j :: 0 <= i < j < |table| ==> table[i].id != table[j].id
  }

  function Newest(table: seq<Record>): seq<Record> {
    SortBy(table, After)
  }

  function Take<T>(items: seq<T>, n: nat): seq<T> {
    if n <= |items| then items[..n] else items
  }

  /** The rows the cursor leaves: all of them without one, else those strictly before it. */
  function Remaining(table: seq<Record>, cursor: Option<Record>): seq<Record> {
    match cursor
    case None => table
    case Some(c) => Where(table, (r: Record) => Before(r, c))
  }

  /** One page of the repository's query. */
  function Page(table: seq<Record>, cursor: Option<Record>, limit: nat): seq<Record> {
    Take(Newest(Remaining(table, cursor)), limit)
  }

  // ---------------------------------------------------------------- what a cursor leaves

  lemma AfterIsTotal(table: seq<Record>, items: seq<Record>)
    requires IdsUnique(table) && forall x :: x in items ==> x in table
    ensures TotalOn(items, After) && TotalOn(items, Before)
  {
    StampLessIsTotal();
  }

  lemma UniqueIsDistinct(table: seq<Record>)
    requires IdsUnique(table)
    ensures Distinct(table)
  {
  }

  /** The full list is strictly descending. */
  lemma NewestDescends(table: seq<Record>, i: nat, j: nat)
    requires IdsUnique(table) && i < j < |Newest(table)|
    ensures Before(Newest(table)[j], Newest(table)[i])
  {
    AfterIsTotal(table, table);
    SortByOrders(table, After);
    OrderedPairs(Newest(table), After, i, j);
    UniqueIsDistinct(table);
    SortKeepsDistinct(table, After);
    SortKeepsMembers(table, After, Newest(table)[i]);
    SortKeepsMembers(table, After, Newest(table)[j]);
    assert Newest(table)[i] in table && Newest(table)[j] in table;
  }

  /** The rows strictly before the `n`-th record of the full list are exactly the ones after it there. */
  lemma LeftMembers(table: seq<Record>, n: nat, x: Record)
    requires IdsUnique(table) && 0 < n <= |Newest(table)|
    ensures x in Newest(table)[n..] <==> x in Remaining(table, Some(Newest(table)[n - 1]))
  {
    var all := Newest(table);
    var keep := (r: Record) => Before(r, all[n - 1]);
    WhereMembers(table, keep, x);
    SortKeepsMembers(table, After, x);
    if x in all {
      var j :| 0 <= j < |all| && all[j] == x;
      BeforeIsBehind(table, n, j);
      TailHas(all, n, j);
    }
  }

  /** With no record twice, the tail from `n` holds exactly the records placed there. */
  lemma TailHas(all: seq<Record>, n: nat, j: nat)
    requires Distinct(all) && n <= |all| && j < |all|
    ensures all[j] in all[n..] <==> j >= n
  {
    assert j >= n ==> all[n..][j - n] == all[j];
  }

  lemma BeforeIsBehind(table: seq<Record>, n: nat, j: nat)
    requires IdsUnique(table) && 0 < n <= |Newest(table)| && j < |Newest(table)|
    ensures Before(Newest(table)[j], Newest(table)[n - 1]) <==> j >= n
    ensures Distinct(Newest(table))
  {
    StampLessIsTotal();
    UniqueIsDistinct(table);
    SortKeepsDistinct(table, After);
    if j < n - 1 {
      NewestDescends(table, j, n - 1);
    } else if j >= n {
      NewestDescends(table, n - 1, j);
    }
  }

  /** Continuing from the `n`-th record gives the rest of the full list. */
  lemma CursorContinues(table: seq<Record>, n: nat)
    requires IdsUnique(table) && 0 < n <= |Newest(table)|
    ensures Newest(Remaining(table, Some(Newest(table)[n - 1]))) == Newest(table)[n..]
  {
    var all, left := Newest(table), Remaining(table, Some(Newest(table)[n - 1]));
    UniqueIsDistinct(table);
    SortKeepsDistinct(table, After);
    WhereDistinct(table, (r: Record) => Before(r, all[n - 1]));
    assert Distinct(all[n..]);
    forall x ensures x in left <==> x in all[n..] {
      LeftMembers(table, n, x);
    }
    DistinctSameMembers(left, all[n..]);
    forall x | x in all[n..] ensures x in table {
      SortKeepsMembers(table, After, x);
    }
    AfterIsTotal(table, all[n..]);
    SortIgnoresOrder(all[n..], left, After);
    TailSorted(table, n);
  }

  lemma TailSorted(table: seq<Record>, n: nat)
    requires IdsUnique(table) && n <= |Newest(table)|
    ensures Newest(Newest(table)[n..]) == Newest(table)[n..]
  {
    var tail := Newest(table)[n..];
    forall x | x in tail ensures x in table {
      SortKeepsMembers(table, After, x);
    }
    AfterIsTotal(table, tail);
    AfterIsTotal(table, table);
    SortByOrders(table, After);
    TailOrdered(Newest(table), n);
    SortByOrders(tail, After);
    OrderedUnique(tail, SortBy(tail, After), After);
  }

  lemma {:induction false} TailOrdered(items: seq<Record>, n: nat)
    requires Ordered(items, After) && n <= |items|
    ensures Ordered(items[n..], After)
  {
    if n > 0 {
      TailOrdered(items[1..], n - 1);
      assert items[1..][n - 1..] == items[n..];
    } else {
      assert items[n..] == items;
    }
  }

  /** A page from a cursor at position `n` is the next stretch of the full list. */
  lemma PageIsStretch(table: seq<Record>, n: nat, limit: nat)
    requires IdsUnique(table) && n <= |Newest(table)|
    ensures Page(table, CursorAt(Newest(table), n), limit) == Take(Newest(table)[n..], limit)
  {
    if n > 0 {
      CursorContinues(table, n);
    } else {
      assert Newest(table)[0..] == Newest(table);
    }
  }

  // ---------------------------------------------------------------- reading everything

  function CursorAt(all: seq<Record>, n: nat): Option<Record>
    requires n <= |all|
  {
    if n == 0 then None else Some(all[n - 1])
  }

  /** A stretch of at most `limit` records from position `n`, and where it ends. */
  lemma StretchFits(all: seq<Record>, n: nat, limit: nat, page: seq<Record>)
    requires n <= |all| && page == Take(all[n..], limit)
    ensures n + |page| <= |all| && all[..n] + page == all[..n + |page|]
    ensures |page| == if limit <= |all| - n then limit else |all| - n
    ensures page != [] ==> CursorAt(all, n + |page|) == Some(page[|page| - 1])
  {
  }

  /** One query, known to continue the full list `all` from position `n`. */
  method ListPage(table: seq<Record>, cursor: Option<Record>, limit: nat, ghost all: seq<Record>, ghost n: nat) returns (page: seq<Record>)
    requires IdsUnique(table) && all == Newest(table) && n <= |all| && cursor == CursorAt(all, n)
    ensures page == Take(all[n..], limit) && n + |page| <= |all| && all[..n] + page == all[..n + |page|]
    ensures |page| == if limit <= |all| - n then limit else |all| - n
    ensures page != [] ==> CursorAt(all, n + |page|) == Some(page[|page| - 1])
  {
    page := Page(table, cursor, limit);
    PageIsStretch(table, n, limit);
    StretchFits(all, n, limit, page);
  }

  const PAGE_SIZE: nat := 200

  /** The pages read until a short one are the full list, newest first. */
  method AllPages(table: seq<Record>) returns (records: seq<Record>)
    requires IdsUnique(table)
    ensures records == Newest(table)
  {
    ghost var all := Newest(table);
    records := [];
    var cursor: Option<Record> := None;
    while true
      invariant |records| <= |all| && records == all[..|records|] && cursor == CursorAt(all, |records|)
      decreases |all| - |records|
    {
      var page := ListPage(table, cursor, PAGE_SIZE, all, |records|);
      records := records + page;
      if |page| < PAGE_SIZE {
        break;
      }
      cursor := Some(page[|page| - 1]);
    }
  }

  /** Page by page until a short page, then ascending: every record of the incident exactly once, in
      (timestamp, id) order, for any number of records and any ties of timestamps. */
  method AllRecords(table: seq<Record>) returns (r: seq<Record>)
    requires IdsUnique(table)
    ensures r == SortBy(table, Before) && Distinct(r) && Ordered(r, Before)
  {
    var records := AllPages(table);
    r := SortBy(records, Before);
    AfterIsTotal(table, table);
    SortIgnoresOrder(table, records, Before);
    UniqueIsDistinct(table);
    SortKeepsDistinct(table, Before);
    SortByOrders(table, Before);
  }

  /** The page and the continuation flag, for a cursor at position `n` of the full list. */
  ghost predicate Continues(all: seq<Record>, n: nat, limit: nat, page: seq<Record>, more: bool) {
    && n + |page| <= |all| && all[..n] + page == all[..n + |page|]
    && (more ==> |page| == limit && page != [] && CursorAt(all, n + |page|) == Some(page[|page| - 1]))
    && (!more ==> n + |page| == |all|)
  }

  /** One page of the API: ask for one row more than the page, show the page, and say whether there was
      one more. */
  method ShowPage(table: seq<Record>, cursor: Option<Record>, limit: nat, ghost n: nat) returns (page: seq<Record>, more: bool)
    requires IdsUnique(table) && limit >= 1
    ensures page == Page(table, cursor, limit) && |page| <= limit
    ensures more <==> More(table, cursor, limit)
    ensures n <= |Newest(table)| && cursor == CursorAt(Newest(table), n) ==> Continues(Newest(table), n, limit, page, more)
  {
    var rows := Page(table, cursor, limit + 1);
    page := Take(rows, limit);
    more := |rows| > limit;
    RemainingSize(table, cursor);
    PageContinues(table, cursor, limit, n);
  }

  /** A page from position `n` of the full list continues it there. */
  lemma PageContinues(table: seq<Record>, cursor: Option<Record>, limit: nat, n: nat)
    requires IdsUnique(table) && limit >= 1
    ensures n <= |Newest(table)| && cursor == CursorAt(Newest(table), n) ==>
              Continues(Newest(table), n, limit, Page(table, cursor, limit), More(table, cursor, limit))
  {
    var all := Newest(table);
    if n <= |all| && cursor == CursorAt(all, n) {
      PageIsStretch(table, n, limit);
      PageIsStretch(table, n, limit + 1);
      RemainingSize(table, cursor);
      ShownPart(all, n, limit, Page(table, cursor, limit + 1), Page(table, cursor, limit));
    }
  }

  /** More rows are left than a page shows. */
  predicate More(table: seq<Record>, cursor: Option<Record>, limit: nat) {
    |Remaining(table, cursor)| > limit
  }

  lemma RemainingSize(table: seq<Record>, cursor: Option<Record>)
    ensures |Newest(Remaining(table, cursor))| == |Remaining(table, cursor)|
  {
    assert |multiset(Newest(Remaining(table, cursor)))| == |multiset(Remaining(table, cursor))|;
  }

  /** The client's walk continues from the last row shown while there is more. The pages together are
      the full list, newest first, and all but the last are full. */
  method WalkPages(table: seq<Record>, limit: nat) returns (pages: seq<seq<Record>>)
    requires IdsUnique(table) && limit >= 1
    ensures Flatten(pages) == Newest(table)
    ensures forall k :: 0 <= k < |pages| ==> |pages[k]| <= limit && (k < |pages| - 1 ==> |pages[k]| == limit)
  {
    ghost var all, n := Newest(table), 0;
    pages := [];
    var cursor: Option<Record> := None;
    while true
      invariant Walked(all, limit, pages, n, cursor)
      decreases |all| - n
    {
      var page, more := ShowPage(table, cursor, limit, n);
      WalkContinues(all, n, limit, pages, page, more, cursor);
      pages := pages + [page];
      n := n + |page|;
      if !more {
        break;
      }
      cursor := Some(page[|page| - 1]);
    }
  }

  /** The pages so far are full and are the first `n` records, and the cursor is where they end. */
  ghost predicate Walked(all: seq<Record>, limit: nat, pages: seq<seq<Record>>, n: int, cursor: Option<Record>) {
    && 0 <= n <= |all| && Flatten(pages) == all[..n] && cursor == CursorAt(all, n)
    && forall k :: 0 <= k < |pages| ==> |pages[k]| == limit
  }

  /** One more page: a full one, or the last. */
  lemma WalkContinues(all: seq<Record>, n: nat, limit: nat, pages: seq<seq<Record>>, page: seq<Record>, more: bool, cursor: Option<Record>)
    requires limit >= 1 && Walked(all, limit, pages, n, cursor) && Continues(all, n, limit, page, more) && |page| <= limit
    ensures more ==> page != [] && Walked(all, limit, pages + [page], n + |page|, Some(page[|page| - 1]))
    ensures !more ==> Flatten(pages + [page]) == all
    ensures forall k :: 0 <= k < |pages + [page]| ==> |(pages + [page])[k]| <= limit && (k < |pages| ==> |(pages + [page])[k]| == limit)
  {
    FlattenAppends(pages, page);
    if !more {
      assert all[..|all|] == all;
    }
  }

  /** Dropping the extra row leaves a page of `limit`. */
  lemma ShownPart(all: seq<Record>, n: nat, limit: nat, rows: seq<Record>, page: seq<Record>)
    requires n <= |all| && limit >= 1 && rows == Take(all[n..], limit + 1) && page == Take(all[n..], limit)
    ensures Continues(all, n, limit, page, |rows| > limit)
  {
    StretchFits(all, n, limit, page);
  }

  function Flatten(pages: seq<seq<Record>>): seq<Record> {
    if pages == [] then [] else Flatten(pages[..|pages| - 1]) + pages[|pages| - 1]
  }

  lemma FlattenAppends(pages: seq<seq<Record>>, page: seq<Record>)
    ensures Flatten(pages + [page]) == Flatten(pages) + page
  {
    assert (pages + [page])[..|pages|] == pages;
  }
}
