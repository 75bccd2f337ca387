/** Small shared vocabulary: optional values and the outcome of an operation that can raise. */
module Common {

  datatype Option<+T> = None | Some(value: T)

  datatype Outcome<+T, +E> = Ok(value: T) | Raised(error: E)

  /** Python's `dict.fromkeys(items)`: first occurrences, in order. */
  function Dedupe<T(==, !new)>(items: seq<T>): (r: seq<T>)
    ensures forall x :: x in r <==> x in items
    ensures forall i, j :: 0 <= i < j < |r| ==> r[i] != r[j]
  {
    if items == [] then []
    else
      var head := Dedupe(items[..|items| - 1]);
      var last := items[|items| - 1];
      assert items == items[..|items| - 1] + [last];
      if last in head then head else head + [last]
  }

  function ToSet<T(!new)>(items: seq<T>): (r: set<T>)
    ensures forall x :: x in r <==> x in items
  {
    set x | x in items
  }

  lemma ToSetConcat<T(!new)>(a: seq<T>, b: seq<T>)
    ensures ToSet(a + b) == ToSet(a) + ToSet(b)
  {
  }

  lemma ToSetAppends<T(!new)>(a: seq<T>, x: T)
    ensures ToSet(a + [x]) == ToSet(a) + {x}
  {
  }

  lemma ToSetSplits<T(!new)>(a: seq<T>)
    requires a != []
    ensures ToSet(a) == {a[0]} + ToSet(a[1..])
  {
    assert a == [a[0]] + a[1..];
  }

  ghost predicate Distinct<T>(items: seq<T>) {
    forall i, j :: 0 <= i < j < |items| ==> items[i] != items[j]
  }

  lemma DistinctConcat<T>(a: seq<T>, b: seq<T>)
    requires Distinct(a) && Distinct(b) && forall x :: x in b ==> x !in a
    ensures Distinct(a + b)
  {
    var c := a + b;
    forall i, j | 0 <= i < j < |c| ensures c[i] != c[j] {
      if i < |a| <= j {
        assert c[i] in a && c[j] == b[j - |a|];
      }
    }
  }

  lemma {:induction false} DistinctSize<T(!new)>(items: seq<T>)
    requires Distinct(items)
    ensures |ToSet(items)| == |items|
  {
    if items == [] {
    } else {
      var rest := items[1..];
      DistinctSize(rest);
      assert items == [items[0]] + rest;
      assert ToSet(items) == ToSet(rest) + {items[0]};
    }
  }

  lemma {:induction false} SizeDistinct<T(!new)>(items: seq<T>)
    requires |ToSet(items)| == |items|
    ensures Distinct(items)
  {
    if items != [] {
      var rest := items[1..];
      assert items == [items[0]] + rest;
      assert ToSet(items) == ToSet(rest) + {items[0]};
      SetNoLarger(rest);
      SizeDistinct(rest);
      assert items[0] !in rest;
    }
  }

  lemma {:induction false} SetNoLarger<T(!new)>(items: seq<T>)
    ensures |ToSet(items)| <= |items|
  {
    if items != [] {
      var rest := items[1..];
      assert items == [items[0]] + rest;
      assert ToSet(items) == ToSet(rest) + {items[0]};
      SetNoLarger(rest);
    }
  }

  lemma NoMembers<T(!new)>(items: seq<T>)
    requires forall x :: x !in items
    ensures items == []
  {
    forall x ensures multiset(items)[x] == 0 {
      assert x !in items && x !in multiset(items);
    }
    assert multiset(items) == multiset{} && |multiset(items)| == |items|;
  }

  /** The comprehension `x for x in items if keep(x)`. */
  function Where<T>(items: seq<T>, keep: T -> bool): seq<T> {
    if items == [] then []
    else if keep(items[0]) then [items[0]] + Where(items[1..], keep)
    else Where(items[1..], keep)
  }

  lemma {:induction false} WhereMembers<T>(items: seq<T>, keep: T -> bool, x: T)
    ensures x in Where(items, keep) <==> x in items && keep(x)
  {
    if items != [] {
      WhereMembers(items[1..], keep, x);
      assert items == [items[0]] + items[1..];
    }
  }

  /** Filtering keeps every kept item as often as it was there. */
  lemma {:induction false} WhereCounts<T>(items: seq<T>, keep: T -> bool, x: T)
    ensures multiset(Where(items, keep))[x] == if keep(x) then multiset(items)[x] else 0
  {
    if items != [] {
      assert items == [items[0]] + items[1..];
      WhereCounts(items[1..], keep, x);
    }
  }

  lemma {:induction false} WhereDistinct<T>(items: seq<T>, keep: T -> bool)
    requires Distinct(items)
    ensures Distinct(Where(items, keep))
  {
    if items != [] {
      var head, tail := items[0], items[1..];
      assert items == [head] + tail;
      WhereDistinct(tail, keep);
      if keep(head) {
        forall x | x in Where(tail, keep) ensures x !in [head] {
          WhereMembers(tail, keep, x);
        }
        DistinctConcat([head], Where(tail, keep));
      }
    }
  }

  lemma {:induction false} DistinctCount<T>(items: seq<T>, x: T)
    requires Distinct(items)
    ensures multiset(items)[x] == if x in items then 1 else 0
  {
    if items != [] {
      assert items == [items[0]] + items[1..];
      DistinctCount(items[1..], x);
    }
  }

  lemma DistinctSameMembers<T(!new)>(a: seq<T>, b: seq<T>)
    requires Distinct(a) && Distinct(b) && forall x :: x in a <==> x in b
    ensures multiset(a) == multiset(b)
  {
    forall x ensures multiset(a)[x] == multiset(b)[x] {
      DistinctCount(a, x);
      DistinctCount(b, x);
    }
  }

  function Mapped<T, U>(items: seq<T>, f: T -> U): (r: seq<U>)
    ensures |r| == |items| && forall i :: 0 <= i < |r| ==> r[i] == f(items[i])
  {
    seq(|items|, i requires 0 <= i < |items| => f(items[i]))
  }

  /** `good` relates the items of `ys` to the items of `xs` at the same places. */
  ghost predicate Pairwise<T, U>(good: (T, U) -> bool, xs: seq<T>, ys: seq<U>) {
    |ys| <= |xs| && forall i :: 0 <= i < |ys| ==> good(xs[i], ys[i])
  }

  lemma PairwiseAppends<T, U>(good: (T, U) -> bool, xs: seq<T>, ys: seq<U>, y: U)
    requires Pairwise(good, xs, ys) && |ys| < |xs| && good(xs[|ys|], y)
    ensures Pairwise(good, xs, ys + [y])
  {
  }

  lemma DistinctAppends<T>(items: seq<T>, x: T)
    ensures Distinct(items + [x]) <==> Distinct(items) && x !in items
  {
    var all := items + [x];
    assert all[|items|] == x;
    assert forall i :: 0 <= i < |items| ==> all[i] == items[i];
    if x in items {
      var i :| 0 <= i < |items| && items[i] == x;
      assert all[i] == all[|items|];
    }
  }

  lemma {:induction false} WhereConcat<T>(a: seq<T>, b: seq<T>, keep: T -> bool)
    ensures Where(a + b, keep) == Where(a, keep) + Where(b, keep)
  {
    if a == [] {
      assert a + b == b;
    } else {
      assert (a + b)[1..] == a[1..] + b;
      WhereConcat(a[1..], b, keep);
    }
  }

  lemma {:induction false} WhereNone<T>(a: seq<T>, keep: T -> bool)
    requires forall x :: x in a ==> !keep(x)
    ensures Where(a, keep) == []
  {
    if a != [] {
      assert a == [a[0]] + a[1..];
      WhereNone(a[1..], keep);
    }
  }

  lemma {:induction false} WhereAll<T>(a: seq<T>, keep: T -> bool)
    requires forall x :: x in a ==> keep(x)
    ensures Where(a, keep) == a
  {
    if a != [] {
      assert a == [a[0]] + a[1..];
      WhereAll(a[1..], keep);
    }
  }

  /** The first `n` lists, one after another. */
  function Joined<T>(lists: nat -> seq<T>, n: nat): seq<T> {
    if n == 0 then [] else Joined(lists, n - 1) + lists(n - 1)
  }

  lemma {:induction false} JoinedFrom<T>(lists: nat -> seq<T>, n: nat, x: T) returns (i: nat)
    requires x in Joined(lists, n)
    ensures i < n && x in lists(i)
  {
    if x in lists(n - 1) {
      i := n - 1;
    } else {
      i := JoinedFrom(lists, n - 1, x);
    }
  }

  // ---------------------------------------------------------------- counting places

  /** The places below `n` where something holds. */
  ghost function Places(n: nat, good: int -> bool): set<int> {
    set i | 0 <= i < n && good(i)
  }

  lemma PlacesNext(n: nat, good: int -> bool)
    ensures |Places(n + 1, good)| == |Places(n, good)| + if good(n) then 1 else 0
    ensures |Places(n, good)| <= |Places(n + 1, good)|
  {
    assert Places(n + 1, good) == if good(n) then Places(n, good) + {n} else Places(n, good);
  }

  lemma {:induction false} PlacesBounded(n: nat, good: int -> bool)
    ensures |Places(n, good)| <= n
    ensures |Places(n, good)| == n <==> forall i :: 0 <= i < n ==> good(i)
    ensures |Places(n, good)| == 0 <==> forall i :: 0 <= i < n ==> !good(i)
  {
    if n > 0 {
      PlacesNext(n - 1, good);
      PlacesBounded(n - 1, good);
    }
  }

  lemma SamePlaces(n: nat, one: int -> bool, other: int -> bool)
    requires forall i :: 0 <= i < n ==> (one(i) <==> other(i))
    ensures Places(n, one) == Places(n, other)
  {
  }

  lemma {:induction false} MorePlaces(n: nat, few: int -> bool, many: int -> bool)
    requires forall i :: 0 <= i < n && few(i) ==> many(i)
    ensures |Places(n, few)| <= |Places(n, many)|
  {
    if n > 0 {
      PlacesNext(n - 1, few);
      PlacesNext(n - 1, many);
      MorePlaces(n - 1, few, many);
    }
  }

  lemma {:induction false} WherePlaces<T>(items: seq<T>, keep: T -> bool, good: int -> bool, n: nat)
    requires n <= |items| && forall i :: 0 <= i < |items| ==> (good(i) <==> keep(items[i]))
    ensures |Where(items[..n], keep)| == |Places(n, good)|
  {
    if n > 0 {
      WherePlaces(items, keep, good, n - 1);
      PlacesNext(n - 1, good);
      assert items[..n] == items[..n - 1] + [items[n - 1]];
      WhereConcat(items[..n - 1], [items[n - 1]], keep);
      assert [items[n - 1]][1..] == [];
    }
  }
}
