/** A stable insertion sort over a "may precede" relation: the behaviour of
    `Array.prototype.sort` with a consistent comparator, where `le(a, b)`
    means the comparator's result for (a, b) is not positive. Elements that
    compare equal keep their input order. */
module Sorting {

  ghost predicate TotalPreorder<T(!new)>(le: (T, T) -> bool) {
    && (forall a, b :: le(a, b) || le(b, a))
    && (forall a, b, c :: le(a, b) && le(b, c) ==> le(a, c))
  }

  predicate SortedBy<T>(s: seq<T>, le: (T, T) -> bool) {
    forall i, j :: 0 <= i < j < |s| ==> le(s[i], s[j])
  }

  /** `x` goes after every element that may precede it. */
  function Insert<T>(x: T, s: seq<T>, le: (T, T) -> bool): (r: seq<T>)
    ensures multiset(r) == multiset(s) + multiset{x}
    decreases |s|
  {
    if s == [] then [x]
    else if le(s[0], x) then
      assert s == [s[0]] + s[1..];
      [s[0]] + Insert(x, s[1..], le)
    else [x] + s
  }

  /** Each element in turn is inserted into the sorted prefix before it. */
  function SortBy<T>(s: seq<T>, le: (T, T) -> bool): (r: seq<T>)
    ensures multiset(r) == multiset(s)
    decreases |s|
  {
    if s == [] then []
    else
      assert s == s[..|s| - 1] + [s[|s| - 1]];
      Insert(s[|s| - 1], SortBy(s[..|s| - 1], le), le)
  }

  lemma {:induction false} InsertSorted<T(!new)>(x: T, s: seq<T>, le: (T, T) -> bool)
    requires TotalPreorder(le) && SortedBy(s, le)
    ensures SortedBy(Insert(x, s, le), le)
    decreases |s|
  {
    if s != [] && le(s[0], x) {
      var t := s[1..];
      assert SortedBy(t, le);
      InsertSorted(x, t, le);
      var r := Insert(x, t, le);
      assert multiset(r) == multiset(t) + multiset{x};
      forall y | y in r
        ensures le(s[0], y)
      {
        assert y in multiset(r);
        if y != x {
          assert y in multiset(t);
          var i :| 0 <= i < |t| && t[i] == y;
          assert s[i + 1] == y;
        }
      }
    } else if s != [] {
      assert le(x, s[0]);
      forall j | 0 <= j < |s|
        ensures le(x, s[j])
      {
        if j > 0 { assert le(s[0], s[j]); }
      }
    }
  }

  /** The result is ordered by `le`. */
  lemma {:induction false} SortBySorted<T(!new)>(s: seq<T>, le: (T, T) -> bool)
    requires TotalPreorder(le)
    ensures SortedBy(SortBy(s, le), le)
    decreases |s|
  {
    if s != [] {
      SortBySorted(s[..|s| - 1], le);
      InsertSorted(s[|s| - 1], SortBy(s[..|s| - 1], le), le);
    }
  }

  lemma {:induction false} InsertAfterAll<T>(x: T, s: seq<T>, le: (T, T) -> bool)
    requires forall i :: 0 <= i < |s| ==> le(s[i], x)
    ensures Insert(x, s, le) == s + [x]
    decreases |s|
  {
    if s != [] {
      InsertAfterAll(x, s[1..], le);
      assert [s[0]] + (s[1..] + [x]) == s + [x];
    }
  }

  /** An input that is already ordered comes back unchanged: the sort
      never reorders elements that may stay where they are. */
  lemma {:induction false} SortByOrderedInput<T>(s: seq<T>, le: (T, T) -> bool)
    requires SortedBy(s, le)
    ensures SortBy(s, le) == s
    decreases |s|
  {
    if s != [] {
      var init := s[..|s| - 1];
      assert SortedBy(init, le);
      SortByOrderedInput(init, le);
      InsertAfterAll(s[|s| - 1], init, le);
      assert init + [s[|s| - 1]] == s;
    }
  }
}
