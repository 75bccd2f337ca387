/** Walking the audit pages while records keep arriving: each page is read from the log as it is then. */
module AuditGrowth {
  import opened AuditPaging
  import opened Common
  import opened Sorting

  /** The log at each page of a walk: append-only, ids unique. */
  ghost predicate Growing(logs: seq<seq<Record>>) {
    && (forall k :: 0 <= k < |logs| ==> IdsUnique(logs[k]))
    && (forall j, k, x :: 0 <= j <= k < |logs| && x in logs[j] ==> x in logs[k])
  }

  /** Where the walk stands before page `k`: at the last record shown. */
  function Reached(pages: seq<seq<Record>>, k: nat): Option<Record>
    requires k <= |pages|
  {
    if k == 0 || pages[k - 1] == [] then None else Some(pages[k - 1][|pages[k - 1]| - 1])
  }

  /** The rows that lie beyond a cursor. */
  predicate Beyond(x: Record, cursor: Option<Record>) {
    cursor.Some? ==> Before(x, cursor.value)
  }

  predicate PageRead(logs: seq<seq<Record>>, limit: nat, pages: seq<seq<Record>>, k: nat)
    requires |pages| == |logs| && k < |pages|
  {
    pages[k] == Page(logs[k], Reached(pages, k), limit)
  }

  predicate MoreLeft(logs: seq<seq<Record>>, limit: nat, pages: seq<seq<Record>>, k: nat)
    requires |pages| == |logs| && k < |pages|
  {
    More(logs[k], Reached(pages, k), limit)
  }

  /** Each page continues from the one before, read from the log of its moment, as long as that one said
      there was more. */
  ghost predicate Walk(logs: seq<seq<Record>>, limit: nat, pages: seq<seq<Record>>) {
    && |pages| == |logs|
    && (forall k :: 0 <= k < |pages| ==> PageRead(logs, limit, pages, k))
    && (forall k :: 0 <= k < |pages| - 1 ==> MoreLeft(logs, limit, pages, k))
  }

  /** The walk has ended: its last page said there was no more. */
  ghost predicate Ended(logs: seq<seq<Record>>, limit: nat, pages: seq<seq<Record>>) {
    Walk(logs, limit, pages) && pages != [] && !MoreLeft(logs, limit, pages, |pages| - 1)
  }

  /** Newest first, no record twice. */
  ghost predicate Descends(rows: seq<Record>) {
    forall i, j :: 0 <= i < j < |rows| ==> Before(rows[j], rows[i])
  }

  // ---------------------------------------------------------------- one page

  /** A page holds rows of the log beyond the cursor; what it leaves out lies beyond its last row, and it
      leaves nothing out when there is no more. */
  ghost predicate Shows(log: seq<Record>, cursor: Option<Record>, limit: nat, page: seq<Record>) {
    && Descends(page)
    && (forall x :: x in page ==> x in log && Beyond(x, cursor))
    && (forall x :: x in log && Beyond(x, cursor) && x !in page ==> page != [] && Before(x, page[|page| - 1]) && More(log, cursor, limit))
    && (More(log, cursor, limit) ==> page != [])
  }

  lemma RemainingMembers(log: seq<Record>, cursor: Option<Record>, x: Record)
    ensures x in Remaining(log, cursor) <==> x in log && Beyond(x, cursor)
  {
    if cursor.Some? {
      WhereMembers(log, (r: Record) => Before(r, cursor.value), x);
    }
  }

  lemma NewestOfRemaining(log: seq<Record>, cursor: Option<Record>)
    requires IdsUnique(log)
    ensures Descends(Newest(Remaining(log, cursor)))
  {
    var left := Remaining(log, cursor);
    if cursor.Some? {
      WhereDistinct(log, (r: Record) => Before(r, cursor.value));
    }
    StampLessIsTotal();
    SortByOrders(left, After);
    SortKeepsDistinct(left, After);
    var rows := Newest(left);
    forall i, j | 0 <= i < j < |rows| ensures Before(rows[j], rows[i]) {
      OrderedPairs(rows, After, i, j);
    }
  }

  lemma TakeLeavesLater(rows: seq<Record>, limit: nat, x: Record)
    requires Descends(rows) && x in rows && limit >= 1
    ensures var page := Take(rows, limit);
            x in page || (page != [] && |rows| > limit && Before(x, page[|page| - 1]))
  {
    var j :| 0 <= j < |rows| && rows[j] == x;
    if j < limit {
      assert Take(rows, limit)[j] == x;
    }
  }

  lemma TakeKeepsFirst(rows: seq<Record>, limit: nat)
    requires Descends(rows)
    ensures Descends(Take(rows, limit))
    ensures forall x :: x in Take(rows, limit) ==> x in rows
  {
  }

  lemma PageShows(log: seq<Record>, cursor: Option<Record>, limit: nat)
    requires IdsUnique(log) && limit >= 1
    ensures Shows(log, cursor, limit, Page(log, cursor, limit))
  {
    var rows, page := Newest(Remaining(log, cursor)), Page(log, cursor, limit);
    NewestOfRemaining(log, cursor);
    RemainingSize(log, cursor);
    forall x ensures x in rows <==> x in log && Beyond(x, cursor) {
      RemainingMembers(log, cursor, x);
      SortKeepsMembers(Remaining(log, cursor), After, x);
    }
    forall x | x in rows ensures x in page || (page != [] && |rows| > limit && Before(x, page[|page| - 1])) {
      TakeLeavesLater(rows, limit, x);
    }
    TakeKeepsFirst(rows, limit);
  }

  lemma PageAt(logs: seq<seq<Record>>, limit: nat, pages: seq<seq<Record>>, k: nat)
    requires Growing(logs) && Walk(logs, limit, pages) && limit >= 1 && k < |pages|
    ensures Shows(logs[k], Reached(pages, k), limit, pages[k])
    ensures k < |pages| - 1 ==> More(logs[k], Reached(pages, k), limit)
  {
    assert PageRead(logs, limit, pages, k);
    assert k < |pages| - 1 ==> MoreLeft(logs, limit, pages, k);
    PageShows(logs[k], Reached(pages, k), limit);
  }

  // ---------------------------------------------------------------- the pages so far

  /** After `k` pages: newest first without repetition, and nothing shown lies beyond the place reached. */
  ghost predicate Progress(pages: seq<seq<Record>>, k: nat)
    requires k <= |pages|
  {
    && Descends(Flatten(pages[..k]))
    && (0 < k < |pages| ==> forall x :: x in Flatten(pages[..k]) ==> !Beyond(x, Reached(pages, k)))
  }

  lemma DescendsTogether(a: seq<Record>, b: seq<Record>, cursor: Option<Record>)
    requires Descends(a) && Descends(b)
    requires forall x :: x in b ==> Beyond(x, cursor)
    requires a != [] ==> cursor.Some? && forall x :: x in a ==> !Beyond(x, cursor)
    ensures Descends(a + b)
  {
    StampLessIsTotal();
    var ab := a + b;
    forall i, j | 0 <= i < j < |ab| ensures Before(ab[j], ab[i]) {
      if i < |a| <= j {
        assert ab[i] in a && ab[j] in b;
      }
    }
  }

  /** Nothing on a page lies beyond its last row. */
  lemma LastIsReached(page: seq<Record>, x: Record)
    requires Descends(page) && x in page
    ensures !Before(x, page[|page| - 1])
  {
    StampLessIsTotal();
    var i :| 0 <= i < |page| && page[i] == x;
    if i < |page| - 1 {
      assert Before(page[|page| - 1], page[i]);
    }
  }

  /** The place reached moves only onwards. */
  lemma PlaceMoves(logs: seq<seq<Record>>, limit: nat, pages: seq<seq<Record>>, k: nat)
    requires Growing(logs) && Walk(logs, limit, pages) && limit >= 1 && k + 1 < |pages|
    ensures Reached(pages, k + 1).Some? && Beyond(Reached(pages, k + 1).value, Reached(pages, k))
    ensures pages[k] != [] && Reached(pages, k + 1) == Some(pages[k][|pages[k]| - 1])
  {
    PageAt(logs, limit, pages, k);
  }

  lemma BeyondChains(x: Record, y: Record, cursor: Option<Record>)
    ensures Before(x, y) && Beyond(y, cursor) ==> Beyond(x, cursor)
    ensures Beyond(y, cursor) && !Beyond(x, cursor) ==> !Before(x, y)
  {
    StampLessIsTotal();
  }

  lemma {:induction false} WalkProgress(logs: seq<seq<Record>>, limit: nat, pages: seq<seq<Record>>, k: nat)
    requires Growing(logs) && Walk(logs, limit, pages) && limit >= 1 && k <= |pages|
    ensures Progress(pages, k)
  {
    if k > 0 {
      WalkProgress(logs, limit, pages, k - 1);
      var before, page := pages[..k - 1], pages[k - 1];
      PageAt(logs, limit, pages, k - 1);
      assert pages[..k] == before + [page];
      FlattenAppends(before, page);
      if k > 1 {
        PlaceMoves(logs, limit, pages, k - 2);
      }
      DescendsTogether(Flatten(before), page, Reached(pages, k - 1));
      if k < |pages| {
        PlaceMoves(logs, limit, pages, k - 1);
        forall x | x in Flatten(pages[..k]) ensures !Beyond(x, Reached(pages, k)) {
          if x in page {
            LastIsReached(page, x);
          } else {
            BeyondChains(x, Reached(pages, k).value, Reached(pages, k - 1));
          }
        }
      }
    }
  }

  /** A walk shows its records newest first and none twice, whatever is added meanwhile. */
  lemma WalkDescends(logs: seq<seq<Record>>, limit: nat, pages: seq<seq<Record>>)
    requires Growing(logs) && Walk(logs, limit, pages) && limit >= 1
    ensures Descends(Flatten(pages))
  {
    WalkProgress(logs, limit, pages, |pages|);
    assert pages[..|pages|] == pages;
  }

  // ---------------------------------------------------------------- which records a walk shows

  lemma {:induction false} FlattenMembers(pages: seq<seq<Record>>, x: Record)
    ensures x in Flatten(pages) <==> exists k :: 0 <= k < |pages| && x in pages[k]
  {
    if pages != [] {
      FlattenMembers(pages[..|pages| - 1], x);
    }
  }

  /** A record beyond the place reached is still shown, on this page or a later one. */
  lemma {:induction false} ShownLater(logs: seq<seq<Record>>, limit: nat, pages: seq<seq<Record>>, k: nat, x: Record)
    requires Growing(logs) && Ended(logs, limit, pages) && limit >= 1 && k < |logs|
    requires x in logs[k] && Beyond(x, Reached(pages, k))
    ensures exists n :: k <= n < |pages| && x in pages[n]
    decreases |logs| - k
  {
    PageAt(logs, limit, pages, k);
    if x !in pages[k] {
      assert k + 1 < |pages|;
      ShownLater(logs, limit, pages, k + 1, x);
    }
  }

  /** What lies beyond a later place lay beyond every earlier one. */
  lemma {:induction false} BeyondEarlier(logs: seq<seq<Record>>, limit: nat, pages: seq<seq<Record>>, j: nat, k: nat, x: Record)
    requires Growing(logs) && Walk(logs, limit, pages) && limit >= 1 && j <= k < |logs|
    requires Beyond(x, Reached(pages, k))
    ensures Beyond(x, Reached(pages, j))
  {
    if j < k {
      PlaceMoves(logs, limit, pages, k - 1);
      BeyondChains(x, Reached(pages, k).value, Reached(pages, k - 1));
      BeyondEarlier(logs, limit, pages, j, k - 1, x);
    }
  }

  /** A record that enters the log before page `j` is read is shown by the walk exactly when it lies beyond
      the last record shown until then. In particular every record of the first log is shown. */
  lemma ShownExactly(logs: seq<seq<Record>>, limit: nat, pages: seq<seq<Record>>, j: nat, x: Record)
    requires Growing(logs) && Ended(logs, limit, pages) && limit >= 1
    requires j < |logs| && x in logs[j] && (j == 0 || x !in logs[j - 1])
    ensures x in Flatten(pages) <==> Beyond(x, Reached(pages, j))
  {
    FlattenMembers(pages, x);
    if Beyond(x, Reached(pages, j)) {
      ShownLater(logs, limit, pages, j, x);
    }
    if x in Flatten(pages) {
      var k :| 0 <= k < |pages| && x in pages[k];
      PageAt(logs, limit, pages, k);
      assert x in logs[k];
      BeyondEarlier(logs, limit, pages, j, k, x);
    }
  }

  // ---------------------------------------------------------------- records that are only later

  /** What is added is later than everything the first log had. */
  ghost predicate OnlyLater(logs: seq<seq<Record>>) {
    forall k, x, y {:trigger x in logs[k], y in logs[0]} ::
      0 <= k < |logs| && x in logs[k] && x !in logs[0] && y in logs[0] ==> Before(y, x)
  }

  lemma {:induction false} OldPages(logs: seq<seq<Record>>, limit: nat, pages: seq<seq<Record>>, k: nat)
    requires Growing(logs) && Walk(logs, limit, pages) && limit >= 1 && k < |pages| && OnlyLater(logs)
    ensures forall x :: x in pages[k] ==> x in logs[0]
  {
    PageAt(logs, limit, pages, k);
    if k > 0 {
      OldPages(logs, limit, pages, k - 1);
      PlaceMoves(logs, limit, pages, k - 1);
      StampLessIsTotal();
      var last := Reached(pages, k).value;
      assert last in logs[0];
      forall x | x in pages[k] ensures x in logs[0] {
        assert x in logs[k] && Before(x, last);
      }
    }
  }

  /** Records that are only later do not disturb a walk: it shows the log as it was at the first page. */
  lemma LaterRecordsHidden(logs: seq<seq<Record>>, limit: nat, pages: seq<seq<Record>>)
    requires Growing(logs) && Ended(logs, limit, pages) && limit >= 1 && OnlyLater(logs)
    ensures Flatten(pages) == Newest(logs[0])
  {
    var shown := Flatten(pages);
    WalkDescends(logs, limit, pages);
    forall x ensures x in shown <==> x in logs[0] {
      FlattenMembers(pages, x);
      if x in logs[0] {
        ShownExactly(logs, limit, pages, 0, x);
      }
      if x in shown {
        var k :| 0 <= k < |pages| && x in pages[k];
        OldPages(logs, limit, pages, k);
      }
    }
    DescendsMeansSorted(shown);
    DescendsIsDistinct(shown);
    UniqueIsDistinct(logs[0]);
    DistinctSameMembers(shown, logs[0]);
    StampLessIsTotal();
    SortIgnoresOrder(shown, logs[0], After);
  }

  lemma DescendsIsDistinct(rows: seq<Record>)
    requires Descends(rows)
    ensures Distinct(rows)
  {
    StampLessIsTotal();
  }

  lemma {:induction false} DescendsIsOrdered(rows: seq<Record>)
    requires Descends(rows)
    ensures Ordered(rows, After)
  {
    if rows != [] {
      DescendsIsOrdered(rows[1..]);
      StampLessIsTotal();
      forall y | y in rows[1..] ensures !After(y, rows[0]) {
        var j :| 0 <= j < |rows[1..]| && rows[1..][j] == y;
        assert Before(rows[j + 1], rows[0]);
      }
    }
  }

  lemma DescendsMeansSorted(rows: seq<Record>)
    requires Descends(rows)
    ensures Newest(rows) == rows
  {
    DescendsIsOrdered(rows);
    StampLessIsTotal();
    SortByOrders(rows, After);
    OrderedUnique(rows, Newest(rows), After);
  }

  // ---------------------------------------------------------------- the client

  /** The client's walk over a log that grows between its pages, as far as the given states go. */
  method WalkLog(logs: seq<seq<Record>>, limit: nat) returns (pages: seq<seq<Record>>)
    requires Growing(logs) && logs != [] && limit >= 1
    ensures 1 <= |pages| <= |logs| && Walk(logs[..|pages|], limit, pages)
    ensures |pages| < |logs| ==> Ended(logs[..|pages|], limit, pages)
    ensures Descends(Flatten(pages))
  {
    pages := [];
    var k, more := 0, true;
    while more && k < |logs|
      invariant 0 <= k <= |logs| && |pages| == k && (k == 0 ==> more)
      invariant Walk(logs[..k], limit, pages)
      invariant k > 0 ==> (more <==> MoreLeft(logs[..k], limit, pages, k - 1))
    {
      var page;
      ghost var before := pages;
      page, more := ShowPage(logs[k], Reached(pages, k), limit, 0);
      pages := pages + [page];
      assert logs[..k + 1][..k] == logs[..k];
      k := k + 1;
      WalkExtends(logs[..k], limit, before, page);
    }
    assert Growing(logs[..k]);
    WalkDescends(logs[..k], limit, pages);
  }

  lemma WalkExtends(logs: seq<seq<Record>>, limit: nat, before: seq<seq<Record>>, page: seq<Record>)
    requires |logs| == |before| + 1 && Walk(logs[..|before|], limit, before)
    requires page == Page(logs[|before|], Reached(before, |before|), limit)
    requires before != [] ==> MoreLeft(logs[..|before|], limit, before, |before| - 1)
    ensures Walk(logs, limit, before + [page])
    ensures Reached(before + [page], |before|) == Reached(before, |before|)
  {
    var pages := before + [page];
    var earlier := logs[..|before|];
    forall k | 0 <= k <= |before| ensures Reached(pages, k) == Reached(before, k) {
    }
    forall k | 0 <= k < |pages| ensures PageRead(logs, limit, pages, k) {
      assert k < |before| ==> PageRead(earlier, limit, before, k) && earlier[k] == logs[k];
    }
    forall k | 0 <= k < |pages| - 1 ensures MoreLeft(logs, limit, pages, k) {
      assert MoreLeft(earlier, limit, before, k) && earlier[k] == logs[k];
    }
  }

  // ---------------------------------------------------------------- a record a walk misses

  const OLDEST := Record(1, "a")
  const NEWER := Record(2, "b")
  const LATE := Record(3, "c")

  /** The log at the first page of a walk one record at a time, and at the second. */
  const TWO_LOGS := [[OLDEST, NEWER], [OLDEST, NEWER, LATE]]

  const TWO_PAGES := [[NEWER], [OLDEST]]

  lemma FirstOfTwo()
    ensures Page(TWO_LOGS[0], None, 1) == [NEWER] && More(TWO_LOGS[0], None, 1)
  {
    assert [OLDEST, NEWER][1..] == [NEWER] && [NEWER][1..] == [];
    assert SortBy([NEWER], After) == [NEWER];
    assert Newest([OLDEST, NEWER]) == Insert(OLDEST, [NEWER], After) == [NEWER, OLDEST];
  }

  lemma SecondOfTwo()
    ensures Page(TWO_LOGS[1], Some(NEWER), 1) == [OLDEST] && !More(TWO_LOGS[1], Some(NEWER), 1)
  {
    var keep := (r: Record) => Before(r, NEWER);
    assert [OLDEST, NEWER, LATE][1..] == [NEWER, LATE] && [NEWER, LATE][1..] == [LATE] && [LATE][1..] == [];
    StampLessIsTotal();
    assert Where([LATE], keep) == [] && Where([NEWER, LATE], keep) == [];
    assert Remaining(TWO_LOGS[1], Some(NEWER)) == [OLDEST];
    assert [OLDEST][1..] == [];
    assert Newest([OLDEST]) == [OLDEST];
  }

  lemma TwoLogsGrow()
    ensures Growing(TWO_LOGS)
  {
    assert "a"[0] != "b"[0] && "b"[0] != "c"[0] && "a"[0] != "c"[0];
    assert IdsUnique(TWO_LOGS[0]) && IdsUnique(TWO_LOGS[1]);
    assert forall x :: x in TWO_LOGS[0] ==> x in TWO_LOGS[1];
  }

  lemma TwoPagesEnd()
    ensures Ended(TWO_LOGS, 1, TWO_PAGES)
  {
    FirstOfTwo();
    SecondOfTwo();
    assert PageRead(TWO_LOGS, 1, TWO_PAGES, 0) && PageRead(TWO_LOGS, 1, TWO_PAGES, 1);
    assert MoreLeft(TWO_LOGS, 1, TWO_PAGES, 0) && !MoreLeft(TWO_LOGS, 1, TWO_PAGES, 1);
  }

  /** A record newer than the first page arrives after it, and the walk ends without having shown it. */
  lemma RecordMissed()
    ensures Growing(TWO_LOGS) && Ended(TWO_LOGS, 1, TWO_PAGES) && LATE in TWO_LOGS[1] && LATE !in Flatten(TWO_PAGES)
  {
    TwoLogsGrow();
    TwoPagesEnd();
    assert TWO_LOGS[1][2] == LATE;
    FlattenMembers(TWO_PAGES, LATE);
  }
}
