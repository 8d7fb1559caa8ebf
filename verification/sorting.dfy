/** Sorting as the Go code uses it: `sort.Slice` with a "less" callback.
    `sort.Slice` is not stable and promises nothing when ties occur, so the
    model states only what every correct sort delivers — a permutation in
    which no element is less than the one before it — and realises it by an
    insertion sort. That sortedness needs only an asymmetric `less`. */
module Sorting {

  /** No element is strictly less than its predecessor. */
  predicate Sorted<T>(s: seq<T>, less: (T, T) -> bool) {
    forall i :: 0 < i < |s| ==> !less(s[i], s[i - 1])
  }

  ghost predicate Asymmetric<T(!new)>(less: (T, T) -> bool) {
    forall a, b :: less(a, b) ==> !less(b, a)
  }

  ghost predicate Transitive<T(!new)>(less: (T, T) -> bool) {
    forall a, b, c :: less(a, b) && less(b, c) ==> less(a, c)
  }

  /** Inserts `x` in front of the first element it is less than. */
  function Insert<T(!new)>(x: T, s: seq<T>, less: (T, T) -> bool): (r: seq<T>)
    requires Asymmetric(less) && Sorted(s, less)
    ensures multiset(r) == multiset(s) + multiset{x}
    ensures |r| == |s| + 1
    ensures Sorted(r, less)
    ensures |r| > 0 && (r[0] == x || (|s| > 0 && r[0] == s[0]))
  {
    if |s| == 0 then [x]
    else if less(x, s[0]) then [x] + s
    else
      var t := Insert(x, s[1..], less);
      assert s == [s[0]] + s[1..];
      [s[0]] + t
  }

  function Sort<T(!new)>(s: seq<T>, less: (T, T) -> bool): (r: seq<T>)
    requires Asymmetric(less)
    ensures multiset(r) == multiset(s)
    ensures |r| == |s|
    ensures Sorted(r, less)
  {
    if |s| == 0 then []
    else
      assert s == s[..|s| - 1] + [s[|s| - 1]];
      Insert(s[|s| - 1], Sort(s[..|s| - 1], less), less)
  }

  /** When `less` compares an integer key, sortedness means the keys never
      decrease anywhere in the sequence, not only between neighbours. */
  lemma {:induction false} SortedByKey<T>(s: seq<T>, key: T -> int, i: int, j: int)
    requires Sorted(s, (a: T, b: T) => key(a) < key(b))
    requires 0 <= i <= j < |s|
    ensures key(s[i]) <= key(s[j])
    decreases j - i
  {
    if i < j {
      SortedByKey(s, key, i, j - 1);
      assert !(key(s[j]) < key(s[j - 1]));
    }
  }

  /** The first `n` elements, all of them when `n` is negative or too large:
      SQL's `LIMIT n` (a negative limit means no limit). */
  function Limit<T>(s: seq<T>, n: int): (r: seq<T>)
    ensures n < 0 || n >= |s| ==> r == s
    ensures 0 <= n < |s| ==> r == s[..n]
  {
    if n < 0 || n >= |s| then s else s[..n]
  }

  /** `f` applied to every element, in order: the column a query selects. */
  function Apply<T, U>(s: seq<T>, f: T -> U): (r: seq<U>)
    ensures |r| == |s| && forall i :: 0 <= i < |s| ==> r[i] == f(s[i])
  {
    seq(|s|, i requires 0 <= i < |s| => f(s[i]))
  }

  /** A property every element has survives putting one more such element in front. */
  lemma ConsAll<T>(x: T, rest: seq<T>, p: T -> bool)
    requires p(x) && forall i :: 0 <= i < |rest| ==> p(rest[i])
    ensures forall i :: 0 <= i < |[x] + rest| ==> p(([x] + rest)[i])
  {
  }

  /** No element of a non-empty sequence has `p` exactly when its head has
      not and no element of its tail has. */
  lemma NoneStep<T>(xs: seq<T>, p: T -> bool)
    requires |xs| > 0
    ensures (forall k :: 0 <= k < |xs| ==> !p(xs[k]))
        <==> (!p(xs[0]) && forall k :: 0 <= k < |xs[1..]| ==> !p(xs[1..][k]))
  {
    assert forall k :: 1 <= k < |xs| ==> xs[k] == xs[1..][k - 1];
  }

  /** One step of a filter-and-project over `xs`: if `rest` holds the keys of
      exactly the kept elements of the tail, then `r` holds those of `xs`. */
  lemma FilterStep<T, U>(xs: seq<T>, rest: seq<U>, r: seq<U>, keep: T -> bool, key: T -> U)
    requires |xs| > 0
    requires forall e :: e in xs[1..] && keep(e) ==> key(e) in rest
    requires forall x :: x in rest ==> exists e :: e in xs[1..] && keep(e) && key(e) == x
    requires r == if keep(xs[0]) then [key(xs[0])] + rest else rest
    ensures forall e :: e in xs && keep(e) ==> key(e) in r
    ensures forall x :: x in r ==> exists e :: e in xs && keep(e) && key(e) == x
  {
    assert xs == [xs[0]] + xs[1..];
  }

  /** Distinct elements. */
  predicate NoDuplicates<T(==)>(s: seq<T>) {
    forall i, j :: 0 <= i < j < |s| ==> s[i] != s[j]
  }

  /** A duplicate-free enumeration of exactly the set `keys`: how the model
      receives Go's unspecified map iteration order. */
  predicate Enumerates<T(==,!new)>(order: seq<T>, keys: set<T>) {
    NoDuplicates(order) && (forall i :: 0 <= i < |order| ==> order[i] in keys) && (forall k :: k in keys ==> k in order)
  }

  /** The first index of `x` in `s`. */
  function Position<T(==)>(s: seq<T>, x: T): (i: nat)
    requires x in s
    ensures i < |s| && s[i] == x
    ensures forall j :: 0 <= j < i ==> s[j] != x
  {
    if s[0] == x then 0 else 1 + Position(s[1..], x)
  }

  lemma {:induction false} EnumeratesLength<T(!new)>(order: seq<T>, keys: set<T>)
    requires Enumerates(order, keys)
    ensures |order| == |keys|
    decreases |order|
  {
    if |order| > 0 {
      var last := order[|order| - 1];
      var rest := order[..|order| - 1];
      assert forall k :: k in rest <==> k in keys - {last} by {
        forall k ensures k in rest <==> k in keys - {last} {
          if k in rest {
            var i :| 0 <= i < |rest| && rest[i] == k;
            assert order[i] == k;
          }
          if k in keys - {last} {
            assert k in order;
            var i :| 0 <= i < |order| && order[i] == k;
            assert i != |order| - 1;
            assert rest[i] == k;
          }
        }
      }
      EnumeratesLength(rest, keys - {last});
    } else {
      assert forall k :: k !in keys;
      assert keys == {};
    }
  }

  lemma SortedByKeyAll<T(!new)>(s: seq<T>, key: T -> int)
    requires Sorted(s, (a: T, b: T) => key(a) < key(b))
    ensures forall i, j :: 0 <= i <= j < |s| ==> key(s[i]) <= key(s[j])
  {
    forall i, j | 0 <= i <= j < |s|
      ensures key(s[i]) <= key(s[j])
    {
      SortedByKey(s, key, i, j);
    }
  }

  /** Sorts by an integer key, ascending: what `ORDER BY key ASC` and
      `sort.Slice` with `key(a) < key(b)` produce. */
  function SortByKey<T(!new)>(s: seq<T>, key: T -> int): (r: seq<T>)
    ensures multiset(r) == multiset(s)
    ensures |r| == |s|
    ensures forall x :: x in r <==> x in s
    ensures NoDuplicates(s) ==> NoDuplicates(r)
    ensures forall i, j :: 0 <= i <= j < |r| ==> key(r[i]) <= key(r[j])
  {
    var less := (a: T, b: T) => key(a) < key(b);
    var r := Sort(s, less);
    SortedByKeyAll(r, key);
    SameElements(s, r);
    PermutationNoDuplicates(s, r);
    r
  }

  lemma SameElements<T>(a: seq<T>, b: seq<T>)
    requires multiset(a) == multiset(b)
    ensures forall x :: x in a <==> x in b
  {
    forall x ensures x in a <==> x in b {
      assert x in a <==> x in multiset(a);
      assert x in b <==> x in multiset(b);
    }
  }

  /** Taking the first `n` of a key-sorted sequence keeps the smallest keys:
      nothing left behind has a smaller key than anything taken. */
  lemma LimitKeepsSmallest<T>(s: seq<T>, key: T -> int, n: int)
    requires forall i, j :: 0 <= i <= j < |s| ==> key(s[i]) <= key(s[j])
    ensures forall x, i :: x in s && x !in Limit(s, n) && 0 <= i < |Limit(s, n)| ==>
      key(Limit(s, n)[i]) <= key(x)
  {
    var r := Limit(s, n);
    forall x, i | x in s && x !in r && 0 <= i < |r|
      ensures key(r[i]) <= key(x)
    {
      var k :| 0 <= k < |s| && s[k] == x;
      assert forall j :: 0 <= j < |r| ==> r[j] == s[j];
      assert forall j :: 0 <= j < |r| ==> s[j] in r;
      assert |r| <= k;
      assert r[i] == s[i];
    }
  }

  /** Keeps the elements that satisfy `p`, in order: a SQL `WHERE` over a scan. */
  function Filter<T(!new)>(s: seq<T>, p: T -> bool): (r: seq<T>)
    ensures |r| <= |s|
    ensures forall x :: x in r <==> x in s && p(x)
    ensures multiset(r) <= multiset(s)
  {
    if |s| == 0 then []
    else
      var rest := Filter(s[1..], p);
      assert s == [s[0]] + s[1..];
      if p(s[0]) then [s[0]] + rest else rest
  }

  lemma {:induction false} FilterNoDuplicates<T(!new)>(s: seq<T>, p: T -> bool)
    requires NoDuplicates(s)
    ensures NoDuplicates(Filter(s, p))
    decreases |s|
  {
    if |s| > 0 {
      FilterNoDuplicates(s[1..], p);
      assert s[0] !in s[1..];
    }
  }

  /** A permutation of a duplicate-free sequence is duplicate-free. */
  lemma PermutationNoDuplicates<T>(a: seq<T>, b: seq<T>)
    requires multiset(a) == multiset(b)
    ensures NoDuplicates(a) ==> NoDuplicates(b)
  {
    if !NoDuplicates(a) {
      return;
    }
    forall x | x in multiset(a)
      ensures multiset(a)[x] == 1
    {
      CountOne(a, x);
    }
    forall i, j | 0 <= i < j < |b|
      ensures b[i] != b[j]
    {
      if b[i] == b[j] {
        TwoPositions(b, i, j);
        assert false;
      }
    }
  }

  lemma {:induction false} CountOne<T>(a: seq<T>, x: T)
    requires NoDuplicates(a) && x in a
    ensures multiset(a)[x] == 1
    decreases |a|
  {
    assert a == [a[0]] + a[1..];
    if a[0] == x {
      assert x !in a[1..];
    } else {
      CountOne(a[1..], x);
    }
  }

  lemma {:induction false} TwoPositions<T>(b: seq<T>, i: int, j: int)
    requires 0 <= i < j < |b| && b[i] == b[j]
    ensures multiset(b)[b[i]] >= 2
    decreases |b|
  {
    assert b == [b[0]] + b[1..];
    if i > 0 {
      TwoPositions(b[1..], i - 1, j - 1);
    } else {
      assert b[j] in b[1..];
    }
  }
}
