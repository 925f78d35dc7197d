/** Python's sorted(set(...)): the one strictly sorted sequence with the given elements. */
module Sorting {

  ghost predicate StrictTotal<T(!new)>(less: (T, T) -> bool) {
    && (forall x :: !less(x, x))
    && (forall x, y, z :: less(x, y) && less(y, z) ==> less(x, z))
    && (forall x, y :: x != y ==> less(x, y) || less(y, x))
  }

  ghost predicate StrictlySorted<T>(less: (T, T) -> bool, xs: seq<T>) {
    forall i, j :: 0 <= i < j < |xs| ==> less(xs[i], xs[j])
  }

  function Insert<T(==)>(less: (T, T) -> bool, xs: seq<T>, x: T): seq<T> {
    if xs == [] then [x]
    else if xs[0] == x then xs
    else if less(x, xs[0]) then [x] + xs
    else [xs[0]] + Insert(less, xs[1..], x)
  }

  function SortedDistinct<T(==)>(less: (T, T) -> bool, xs: seq<T>): seq<T> {
    if xs == [] then [] else Insert(less, SortedDistinct(less, xs[..|xs| - 1]), xs[|xs| - 1])
  }

  lemma {:induction false} InsertMeans<T(!new)>(less: (T, T) -> bool, xs: seq<T>, x: T)
    requires StrictTotal(less) && StrictlySorted(less, xs)
    ensures StrictlySorted(less, Insert(less, xs, x))
    ensures forall y :: y in Insert(less, xs, x) <==> y == x || y in xs
    ensures |Insert(less, xs, x)| <= |xs| + 1
  {
    if xs != [] && xs[0] != x && !less(x, xs[0]) {
      InsertMeans(less, xs[1..], x);
      var rest := Insert(less, xs[1..], x);
      assert forall y :: y in xs[1..] ==> less(xs[0], y);
      assert forall i :: 0 <= i < |rest| ==> rest[i] in rest;
      assert forall y :: y in xs <==> y == xs[0] || y in xs[1..];
    } else if xs != [] && xs[0] != x {
      assert forall j :: 0 < j < |xs| ==> less(x, xs[0]) && less(xs[0], xs[j]);
    }
  }

  lemma {:induction false} SortedDistinctMeans<T(!new)>(less: (T, T) -> bool, xs: seq<T>)
    requires StrictTotal(less)
    ensures StrictlySorted(less, SortedDistinct(less, xs))
    ensures forall y :: y in SortedDistinct(less, xs) <==> y in xs
    ensures |SortedDistinct(less, xs)| <= |xs|
  {
    if xs != [] {
      var front, last := xs[..|xs| - 1], xs[|xs| - 1];
      SortedDistinctMeans(less, front);
      InsertMeans(less, SortedDistinct(less, front), last);
      assert xs == front + [last];
    }
  }

  /** Strictly sorted sequences with the same elements are equal. */
  lemma {:induction false} SortedUnique<T(!new)>(less: (T, T) -> bool, xs: seq<T>, ys: seq<T>)
    requires StrictTotal(less) && StrictlySorted(less, xs) && StrictlySorted(less, ys)
    requires forall x :: x in xs <==> x in ys
    ensures xs == ys
  {
    if xs == [] {
      assert forall i :: 0 <= i < |ys| ==> ys[i] in ys;
    } else {
      assert xs[0] in ys && ys[0] in xs;
      assert xs[0] == ys[0];
      forall x ensures x in xs[1..] <==> x in ys[1..] {
        assert x in xs <==> x == xs[0] || x in xs[1..];
        assert x in ys <==> x == ys[0] || x in ys[1..];
      }
      SortedUnique(less, xs[1..], ys[1..]);
    }
  }

  /** The order of the input and its repetitions do not matter. */
  lemma SortedDistinctSame<T(!new)>(less: (T, T) -> bool, xs: seq<T>, ys: seq<T>)
    requires StrictTotal(less) && forall x :: x in xs <==> x in ys
    ensures SortedDistinct(less, xs) == SortedDistinct(less, ys)
  {
    SortedDistinctMeans(less, xs);
    SortedDistinctMeans(less, ys);
    SortedUnique(less, SortedDistinct(less, xs), SortedDistinct(less, ys));
  }

  /** Python's order of strings: by the first character that differs, then by length. */
  predicate StringLess(a: string, b: string) {
    if b == [] then false
    else if a == [] then true
    else a[0] < b[0] || (a[0] == b[0] && StringLess(a[1..], b[1..]))
  }

  lemma {:induction false} StringLessTransitive(a: string, b: string, c: string)
    requires StringLess(a, b) && StringLess(b, c)
    ensures StringLess(a, c)
  {
    if a != [] && a[0] == b[0] == c[0] {
      StringLessTransitive(a[1..], b[1..], c[1..]);
    }
  }

  lemma {:induction false} StringLessTotal(a: string, b: string)
    ensures StringLess(a, b) || a == b || StringLess(b, a)
    ensures !StringLess(a, a)
  {
    if a != [] {
      StringLessTotal(a[1..], if b == [] then [] else b[1..]);
      if b != [] && a[0] == b[0] && a[1..] == b[1..] {
        assert a == [a[0]] + a[1..] && b == [b[0]] + b[1..];
      }
    }
  }

  lemma StringOrder()
    ensures StrictTotal(StringLess)
  {
    forall a, b, c | StringLess(a, b) && StringLess(b, c) ensures StringLess(a, c) {
      StringLessTransitive(a, b, c);
    }
    forall a, b ensures StringLess(a, b) || a == b || StringLess(b, a)
    {
      StringLessTotal(a, b);
    }
    forall a: string ensures !StringLess(a, a) {
      StringLessTotal(a, a);
    }
  }

  predicate NatLess(a: nat, b: nat) { a < b }

  lemma NatOrder()
    ensures StrictTotal(NatLess)
  {
  }

  /** The order of strings: at the first place where they differ the first has the smaller character, or it
      ends there. */
  lemma {:induction false} StringLessMeans(a: string, b: string)
    ensures StringLess(a, b) <==> exists k :: DifferAt(a, b, k)
  {
    if a != [] && b != [] && a[0] == b[0] {
      StringLessMeans(a[1..], b[1..]);
      forall k | DifferAt(a[1..], b[1..], k) ensures DifferAt(a, b, k + 1) {
        assert a[..k + 1] == [a[0]] + a[1..][..k] && b[..k + 1] == [b[0]] + b[1..][..k];
      }
      forall k | DifferAt(a, b, k) ensures k > 0 && DifferAt(a[1..], b[1..], k - 1) {
        assert a[1..][..k - 1] == a[..k][1..] && b[1..][..k - 1] == b[..k][1..];
      }
    } else {
      forall k | DifferAt(a, b, k) ensures k > 0 ==> a != [] && a[0] == b[0] { HeadsAgree(a, b, k); }
      assert StringLess(a, b) ==> DifferAt(a, b, 0);
    }
  }

  lemma HeadsAgree(a: string, b: string, k: int)
    requires DifferAt(a, b, k)
    ensures k > 0 ==> a != [] && a[0] == b[0]
  {
    if k > 0 {
      assert a[..k][0] == a[0] && b[..k][0] == b[0];
    }
  }

  predicate DifferAt(a: string, b: string, k: int) {
    && 0 <= k <= |a| && k < |b| && a[..k] == b[..k]
    && (k == |a| || a[k] < b[k])
  }
}
