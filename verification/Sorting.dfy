/** Sorting by a strict total order, and why the result does not depend on the input's order. */
module Sorting {
  import opened Common

  /** `less` is transitive and decides any two different members of `items`. */
  ghost predicate TotalOn<T(!new)>(items: seq<T>, less: (T, T) -> bool) {
    && (forall x :: !less(x, x))
    && (forall x, y, z :: less(x, y) && less(y, z) ==> less(x, z))
    && (forall x, y :: x in items && y in items ==> x == y || less(x, y) || less(y, x))
  }

  ghost predicate StrictTotal<T(!new)>(less: (T, T) -> bool) {
    && (forall x :: !less(x, x))
    && (forall x, y, z :: less(x, y) && less(y, z) ==> less(x, z))
    && (forall x, y :: x == y || less(x, y) || less(y, x))
  }

  /** No item belongs before an earlier one. */
  ghost predicate Ordered<T>(items: seq<T>, less: (T, T) -> bool) {
    items == [] || ((forall y :: y in items[1..] ==> !less(y, items[0])) && Ordered(items[1..], less))
  }

  lemma {:induction false} OrderedPairs<T>(items: seq<T>, less: (T, T) -> bool, i: nat, j: nat)
    requires Ordered(items, less) && i < j < |items|
    ensures !less(items[j], items[i])
  {
    if i == 0 {
      assert items[1..][j - 1] == items[j];
    } else {
      OrderedPairs(items[1..], less, i - 1, j - 1);
    }
  }

  function Insert<T>(x: T, items: seq<T>, less: (T, T) -> bool): (r: seq<T>)
    ensures multiset(r) == multiset(items) + multiset{x}
  {
    if items == [] then [x]
    else if less(items[0], x) then
      assert items == [items[0]] + items[1..];
      [items[0]] + Insert(x, items[1..], less)
    else [x] + items
  }

  /** Python's `sorted` with a key that is a strict total order on the items. */
  function SortBy<T>(items: seq<T>, less: (T, T) -> bool): (r: seq<T>)
    ensures multiset(r) == multiset(items)
  {
    if items == [] then []
    else
      assert items == [items[0]] + items[1..];
      Insert(items[0], SortBy(items[1..], less), less)
  }

  lemma InsertMembers<T>(x: T, items: seq<T>, less: (T, T) -> bool, y: T)
    ensures y in Insert(x, items, less) <==> y == x || y in items
  {
    assert y in multiset(Insert(x, items, less)) <==> y == x || y in multiset(items);
  }

  lemma {:induction false} InsertKeepsOrder<T(!new)>(x: T, items: seq<T>, less: (T, T) -> bool)
    requires TotalOn([x] + items, less) && Ordered(items, less)
    ensures Ordered(Insert(x, items, less), less)
  {
    if items != [] {
      var head, tail := items[0], items[1..];
      assert items == [head] + tail;
      if less(head, x) {
        forall y | y in [x] + tail ensures y in [x] + items {
        }
        InsertKeepsOrder(x, tail, less);
        var rest := Insert(x, tail, less);
        forall y | y in rest ensures !less(y, head) {
          InsertMembers(x, tail, less, y);
        }
        assert ([head] + rest)[1..] == rest;
      } else {
        forall y | y in items ensures !less(y, x) {
          Beneath(x, head, y, items, less);
        }
        assert ([x] + items)[1..] == items;
      }
    }
  }

  lemma Beneath<T(!new)>(x: T, head: T, y: T, items: seq<T>, less: (T, T) -> bool)
    requires TotalOn([x] + items, less) && head in items && y in items
    requires !less(head, x) && (y == head || !less(y, head))
    ensures !less(y, x)
  {
    var all := [x] + items;
    assert head in all && y in all && x in all;
  }

  lemma {:induction false} SortByOrders<T(!new)>(items: seq<T>, less: (T, T) -> bool)
    requires TotalOn(items, less)
    ensures Ordered(SortBy(items, less), less)
  {
    if items != [] {
      var rest := SortBy(items[1..], less);
      assert forall y :: y in items[1..] ==> y in items;
      SortByOrders(items[1..], less);
      forall y | y in [items[0]] + rest ensures y in items {
        if y in rest {
          SortKeepsMembers(items[1..], less, y);
        }
      }
      InsertKeepsOrder(items[0], rest, less);
    }
  }

  /** Two ordered arrangements of the same items start alike. */
  lemma HeadsAgree<T(!new)>(a: seq<T>, b: seq<T>, less: (T, T) -> bool)
    requires a != [] && b != [] && TotalOn(a, less)
    requires Ordered(a, less) && Ordered(b, less) && multiset(a) == multiset(b)
    ensures a[0] == b[0]
  {
    var x, y, restA, restB := a[0], b[0], a[1..], b[1..];
    assert a == [x] + restA && b == [y] + restB;
    assert x in multiset(b) && y in multiset(a);
    assert x == y || (x in restB && y in restA);
  }

  lemma TailsAgree<T>(a: seq<T>, b: seq<T>)
    requires a != [] && b != [] && a[0] == b[0] && multiset(a) == multiset(b)
    ensures multiset(a[1..]) == multiset(b[1..])
  {
    assert a == [a[0]] + a[1..] && b == [b[0]] + b[1..];
    assert multiset(a[1..]) == multiset(a) - multiset{a[0]} == multiset(b[1..]);
  }

  /** Two ordered arrangements of the same items are the same sequence. */
  lemma {:induction false} OrderedUnique<T(!new)>(a: seq<T>, b: seq<T>, less: (T, T) -> bool)
    requires TotalOn(a, less)
    requires Ordered(a, less) && Ordered(b, less) && multiset(a) == multiset(b)
    ensures a == b
  {
    assert |multiset(a)| == |a| && |multiset(b)| == |b|;
    if a != [] {
      HeadsAgree(a, b, less);
      TailsAgree(a, b);
      assert forall y :: y in a[1..] ==> y in a;
      OrderedUnique(a[1..], b[1..], less);
      assert a == [a[0]] + a[1..] && b == [b[0]] + b[1..];
    }
  }

  /** Sorting forgets the order of its input. */
  lemma SortIgnoresOrder<T(!new)>(a: seq<T>, b: seq<T>, less: (T, T) -> bool)
    requires TotalOn(a, less) && multiset(a) == multiset(b)
    ensures SortBy(a, less) == SortBy(b, less)
  {
    forall x | x in b || x in SortBy(a, less) ensures x in a {
      assert x in multiset(b) || x in multiset(SortBy(a, less));
    }
    SortByOrders(a, less);
    SortByOrders(b, less);
    OrderedUnique(SortBy(a, less), SortBy(b, less), less);
  }

  lemma SortKeepsMembers<T>(items: seq<T>, less: (T, T) -> bool, x: T)
    ensures x in SortBy(items, less) <==> x in items
    ensures |SortBy(items, less)| == |items|
  {
    assert x in multiset(SortBy(items, less)) <==> x in multiset(items);
    assert |multiset(SortBy(items, less))| == |multiset(items)|;
  }

  // ---------------------------------------------------------------- sorting images

  ghost predicate Respects<T(!new)>(less: (T, T) -> bool, f: T -> T) {
    forall x, y :: less(f(x), f(y)) <==> less(x, y)
  }

  lemma MappedCons<T>(x: T, items: seq<T>, f: T -> T)
    ensures Mapped([x] + items, f) == [f(x)] + Mapped(items, f)
  {
  }

  lemma {:induction false} InsertMaps<T(!new)>(x: T, items: seq<T>, less: (T, T) -> bool, f: T -> T)
    requires Respects(less, f)
    ensures Mapped(Insert(x, items, less), f) == Insert(f(x), Mapped(items, f), less)
  {
    MappedCons(x, items, f);
    if items != [] {
      assert items == [items[0]] + items[1..];
      MappedCons(items[0], items[1..], f);
      MappedCons(items[0], Insert(x, items[1..], less), f);
      InsertMaps(x, items[1..], less, f);
      assert Mapped(items, f)[1..] == Mapped(items[1..], f);
    }
  }

  /** Sorting commutes with a change that keeps the order. */
  lemma {:induction false} SortMaps<T(!new)>(items: seq<T>, less: (T, T) -> bool, f: T -> T)
    requires Respects(less, f)
    ensures Mapped(SortBy(items, less), f) == SortBy(Mapped(items, f), less)
  {
    if items != [] {
      SortMaps(items[1..], less, f);
      InsertMaps(items[0], SortBy(items[1..], less), less, f);
      assert Mapped(items, f)[1..] == Mapped(items[1..], f);
    }
  }

  lemma TwiceCounts<T>(items: seq<T>, i: nat, j: nat)
    requires i < j < |items| && items[i] == items[j]
    ensures multiset(items)[items[i]] >= 2
  {
    assert items == items[..j] + items[j..];
    assert items[i] in items[..j] && items[j] in items[j..];
  }

  lemma SortKeepsDistinct<T(!new)>(items: seq<T>, less: (T, T) -> bool)
    requires Distinct(items)
    ensures Distinct(SortBy(items, less))
  {
    var sorted := SortBy(items, less);
    forall i, j | 0 <= i < j < |sorted| ensures sorted[i] != sorted[j] {
      DistinctCount(items, sorted[i]);
      if sorted[i] == sorted[j] {
        TwiceCounts(sorted, i, j);
      }
    }
  }

  // ---------------------------------------------------------------- strings

  /** Python compares strings code point by code point. */
  predicate StringLess(a: string, b: string) {
    b != [] && (a == [] || a[0] < b[0] || (a[0] == b[0] && StringLess(a[1..], b[1..])))
  }

  lemma {:induction false} StringLessTrichotomy(a: string, b: string)
    ensures !StringLess(a, a)
    ensures a == b || StringLess(a, b) || StringLess(b, a)
    decreases |a|
  {
    if a != [] {
      if b != [] {
        StringLessTrichotomy(a[1..], b[1..]);
        if a[0] == b[0] && a[1..] == b[1..] {
          assert a == [a[0]] + a[1..] == b;
        }
      } else {
        StringLessTrichotomy(a[1..], b);
      }
    }
  }

  lemma {:induction false} StringLessTransitive(a: string, b: string, c: string)
    requires StringLess(a, b) && StringLess(b, c)
    ensures StringLess(a, c)
  {
    if a != [] && a[0] == b[0] && b[0] == c[0] {
      StringLessTransitive(a[1..], b[1..], c[1..]);
    }
  }

  lemma StringLessIsTotal()
    ensures StrictTotal(StringLess)
  {
    forall a, b ensures !StringLess(a, a) && (a == b || StringLess(a, b) || StringLess(b, a)) {
      StringLessTrichotomy(a, b);
    }
    forall a, b, c | StringLess(a, b) && StringLess(b, c) ensures StringLess(a, c) {
      StringLessTransitive(a, b, c);
    }
  }

  /** The order on (timestamp, id) pairs used throughout. */
  predicate StampLess(a: (int, string), b: (int, string)) {
    a.0 < b.0 || (a.0 == b.0 && StringLess(a.1, b.1))
  }

  lemma StampLessIsTotal()
    ensures StrictTotal(StampLess)
  {
    StringLessIsTotal();
  }
}
