/** Listing a finite set in ascending order of a strict total order: the
    order in which IndexedDB's `getAll` returns the records of a store (by
    primary key, arrays of keys compared element by element). */
module Enumeration {

  ghost predicate StrictTotalOrder<T(!new)>(less: (T, T) -> bool) {
    && (forall a :: !less(a, a))
    && (forall a, b, c :: less(a, b) && less(b, c) ==> less(a, c))
    && (forall a, b :: a != b ==> less(a, b) || less(b, a))
  }

  /** Every non-empty finite set has a least element. */
  lemma {:induction false} LeastExists<T(!new)>(s: set<T>, less: (T, T) -> bool)
    requires s != {} && StrictTotalOrder(less)
    ensures exists m :: m in s && forall x :: x in s && x != m ==> less(m, x)
    decreases |s|
  {
    var y :| y in s;
    var rest := s - {y};
    if rest == {} {
      assert s == {y};
    } else {
      LeastExists(rest, less);
      var m :| m in rest && forall x :: x in rest && x != m ==> less(m, x);
      if less(m, y) {
        OldLeastStays(s, y, m, less);
      } else {
        assert less(y, m);
        assert forall x :: less(m, x) ==> less(y, x);
        NewLeast(s, y, m, less);
      }
    }
  }

  /** The least element of the rest stays least when `y` is above it. */
  lemma OldLeastStays<T>(s: set<T>, y: T, m: T, less: (T, T) -> bool)
    requires y in s && m in s - {y} && less(m, y)
    requires forall x :: x in s - {y} && x != m ==> less(m, x)
    ensures forall x :: x in s && x != m ==> less(m, x)
  {
    forall x | x in s && x != m ensures less(m, x) {
      if x != y { assert x in s - {y}; }
    }
  }

  /** A new element below the old least one is the least of all. */
  lemma NewLeast<T>(s: set<T>, y: T, m: T, less: (T, T) -> bool)
    requires y in s && m in s - {y} && less(y, m)
    requires forall x :: x in s - {y} && x != m ==> less(m, x)
    requires forall x :: less(m, x) ==> less(y, x)
    ensures forall x :: x in s && x != y ==> less(y, x)
  {
    forall x | x in s && x != y ensures less(y, x) {
      if x != m { assert x in s - {y}; }
    }
  }

  ghost function Least<T(!new)>(s: set<T>, less: (T, T) -> bool): (m: T)
    requires s != {} && StrictTotalOrder(less)
    ensures m in s && forall x :: x in s && x != m ==> less(m, x)
  {
    LeastExists(s, less);
    var m :| m in s && forall x :: x in s && x != m ==> less(m, x); m
  }

  /** The elements of `s`, each once, in strictly ascending order. */
  ghost function Ascending<T(!new)>(s: set<T>, less: (T, T) -> bool): (xs: seq<T>)
    requires StrictTotalOrder(less)
    ensures |xs| == |s|
    ensures forall i :: 0 <= i < |xs| ==> xs[i] in s
    ensures forall x :: x in s ==> x in xs
    ensures forall i, j :: 0 <= i < j < |xs| ==> less(xs[i], xs[j])
    decreases |s|
  {
    if s == {} then []
    else
      var m := Least(s, less);
      var rest := Ascending(s - {m}, less);
      assert forall i :: 0 <= i < |rest| ==> less(m, rest[i]);
      [m] + rest
  }

  /** Strictly ascending lists have no repeats. */
  lemma AscendingDistinct<T(!new)>(xs: seq<T>, less: (T, T) -> bool)
    requires StrictTotalOrder(less)
    requires forall i, j :: 0 <= i < j < |xs| ==> less(xs[i], xs[j])
    ensures forall i, j :: 0 <= i < |xs| && 0 <= j < |xs| && xs[i] == xs[j] ==> i == j
  {
    forall i, j | 0 <= i < |xs| && 0 <= j < |xs| && i != j
      ensures xs[i] != xs[j]
    {
      if i < j { assert less(xs[i], xs[j]); } else { assert less(xs[j], xs[i]); }
    }
  }
}
