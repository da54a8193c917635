/** The localStorage helpers of js/base/local_storage.js: a single-value save
    behind an optional validator, and a bounded most-recently-used list. The
    browser storage slot is modelled as the value it holds before and after. */
module Mru {
  import opened Wrappers

  /** The optional `validateFn` argument. */
  type Validator = Option<string -> bool>

  /** The gate both helpers start with: no validator, or one that accepts. */
  predicate Passes(validate: Validator, value: string) {
    validate.None? || validate.value(value)
  }

  /** `saveToStorage`: the slot's content after the call. */
  function SaveToStorage(slot: Option<string>, value: string, validate: Validator): (r: Option<string>)
    ensures validate.Some? && !validate.value(value) ==> r == slot
    ensures validate.None? ==> r == Some(value)
    ensures Passes(validate, value) ==> r == Some(value)
    ensures r != slot ==> r == Some(value)
  {
    if Passes(validate, value) then Some(value) else slot
  }

  /** Two saves under one key: the later accepted value is what the slot
      holds, a rejected one leaves the earlier save in place, and saving
      the same value again changes nothing. */
  lemma SaveTwice(slot: Option<string>, a: string, b: string, validate: Validator)
    ensures Passes(validate, b) ==>
      SaveToStorage(SaveToStorage(slot, a, validate), b, validate) == Some(b)
    ensures !Passes(validate, b) ==>
      SaveToStorage(SaveToStorage(slot, a, validate), b, validate) == SaveToStorage(slot, a, validate)
    ensures SaveToStorage(SaveToStorage(slot, a, validate), a, validate) == SaveToStorage(slot, a, validate)
  {
  }

  /** `Array.prototype.indexOf`: the first index holding `x`. */
  function IndexOf(xs: seq<string>, x: string): (r: Option<nat>)
    ensures r.None? <==> x !in xs
    ensures r.Some? ==> r.value < |xs| && xs[r.value] == x && x !in xs[..r.value]
  {
    if x !in xs then None
    else if xs[0] == x then Some(0)
    else
      var i := IndexOf(xs[1..], x).value;
      assert xs[1..][..i] == xs[1..i + 1];
      Some(i + 1)
  }

  /** `Array.prototype.pop` on the list, keeping only what remains. */
  function Pop(xs: seq<string>): seq<string>
  {
    if |xs| == 0 then xs else xs[..|xs| - 1]
  }

  /** `saveToStorageWithLimit` as its documentation describes it: drop an
      earlier copy of the value, or the oldest entry when the list is full,
      then put the value first. */
  function SaveWithLimit(list: seq<string>, value: string, maxSize: int, validate: Validator): (r: seq<string>)
    ensures !Passes(validate, value) ==> r == list
    ensures Passes(validate, value) ==> |r| > 0 && r[0] == value
  {
    if !Passes(validate, value) then list
    else
      var rest := match IndexOf(list, value)
        case Some(i) => list[..i] + list[i + 1..]
        case None => if |list| >= maxSize then Pop(list) else list;
      [value] + rest
  }

  /** No entry occurs twice. */
  predicate NoDuplicates(xs: seq<string>) {
    forall i, j :: 0 <= i < j < |xs| ==> xs[i] != xs[j]
  }

  /** An accepted save leaves the other entries in their old relative order:
      after the new head comes the old list with at most one entry removed. */
  lemma SaveWithLimitKeepsOrder(list: seq<string>, value: string, maxSize: int, validate: Validator)
    requires Passes(validate, value)
    ensures var r := SaveWithLimit(list, value, maxSize, validate);
      r[1..] == list || exists j :: 0 <= j < |list| && r[1..] == list[..j] + list[j + 1..]
  {
    var r := SaveWithLimit(list, value, maxSize, validate);
    match IndexOf(list, value)
    case Some(i) =>
      assert r[1..] == list[..i] + list[i + 1..];
    case None =>
      if |list| >= maxSize && |list| > 0 {
        assert r[1..] == list[..|list| - 1] + list[|list|..];
      }
  }

  /** A save of a value already present only moves it to the front; a new
      value is added, evicting the last (oldest) entry when the list is full. */
  lemma SaveWithLimitContents(list: seq<string>, value: string, maxSize: int, validate: Validator)
    requires Passes(validate, value)
    ensures var r := SaveWithLimit(list, value, maxSize, validate);
      && (value in list ==> multiset(r) == multiset(list))
      && (value !in list && |list| < maxSize ==> multiset(r) == multiset(list) + multiset{value})
      && (value !in list && 0 < |list| && maxSize <= |list| ==>
            multiset(r) == multiset(list) - multiset{list[|list| - 1]} + multiset{value})
  {
    match IndexOf(list, value)
    case Some(i) => MovedToFront(list, value, maxSize, validate, i);
    case None => AddedAtFront(list, value, maxSize, validate);
  }

  /** A value already at index `i` is moved to the front. */
  lemma MovedToFront(list: seq<string>, value: string, maxSize: int, validate: Validator, i: nat)
    requires Passes(validate, value) && IndexOf(list, value) == Some(i)
    ensures multiset(SaveWithLimit(list, value, maxSize, validate)) == multiset(list)
  {
    RemoveAtMultiset(list, i);
    assert SaveWithLimit(list, value, maxSize, validate) == [value] + (list[..i] + list[i + 1..]);
  }

  /** A new value is put first, after evicting the last entry of a full
      list. */
  lemma AddedAtFront(list: seq<string>, value: string, maxSize: int, validate: Validator)
    requires Passes(validate, value) && value !in list
    ensures |list| < maxSize ==> multiset(SaveWithLimit(list, value, maxSize, validate)) == multiset(list) + multiset{value}
    ensures 0 < |list| && maxSize <= |list| ==>
      multiset(SaveWithLimit(list, value, maxSize, validate)) == multiset(list) - multiset{list[|list| - 1]} + multiset{value}
  {
    if 0 < |list| && maxSize <= |list| {
      PopMultiset(list);
      assert SaveWithLimit(list, value, maxSize, validate) == [value] + Pop(list);
    } else {
      assert SaveWithLimit(list, value, maxSize, validate) == [value] + list;
    }
  }

  lemma RemoveAtMultiset(xs: seq<string>, i: nat)
    requires i < |xs|
    ensures multiset(xs[..i] + xs[i + 1..]) + multiset{xs[i]} == multiset(xs)
  {
    assert xs == xs[..i] + [xs[i]] + xs[i + 1..];
  }

  lemma PopMultiset(xs: seq<string>)
    requires |xs| > 0
    ensures multiset(Pop(xs)) + multiset{xs[|xs| - 1]} == multiset(xs)
  {
    assert xs == xs[..|xs| - 1] + [xs[|xs| - 1]];
  }

  /** The size cap: a list within `maxSize` stays within it. */
  lemma SaveWithLimitBounded(list: seq<string>, value: string, maxSize: int, validate: Validator)
    requires 1 <= maxSize && |list| <= maxSize
    ensures |SaveWithLimit(list, value, maxSize, validate)| <= maxSize
  {
  }

  lemma NoDuplicatesRemove(xs: seq<string>, i: nat)
    requires i < |xs| && NoDuplicates(xs)
    ensures var ys := xs[..i] + xs[i + 1..]; NoDuplicates(ys) && xs[i] !in ys
  {
    var ys := xs[..i] + xs[i + 1..];
    assert forall k :: 0 <= k < |ys| ==> ys[k] == if k < i then xs[k] else xs[k + 1];
  }

  lemma NoDuplicatesPrefix(xs: seq<string>, n: nat)
    requires n <= |xs| && NoDuplicates(xs)
    ensures NoDuplicates(xs[..n])
  {
  }

  lemma NoDuplicatesCons(x: string, ys: seq<string>)
    requires x !in ys && NoDuplicates(ys)
    ensures NoDuplicates([x] + ys)
  {
    var r := [x] + ys;
    forall a, b | 0 <= a < b < |r| ensures r[a] != r[b] {
      assert r[b] == ys[b - 1];
      if a > 0 { assert r[a] == ys[a - 1]; }
    }
  }

  /** Starting from a list without duplicates, the saved value ends up at
      index 0 and nowhere else, and the list still has no duplicates. */
  lemma SaveWithLimitUnique(list: seq<string>, value: string, maxSize: int, validate: Validator)
    requires Passes(validate, value) && NoDuplicates(list)
    ensures var r := SaveWithLimit(list, value, maxSize, validate);
      && r[0] == value
      && value !in r[1..]
      && NoDuplicates(r)
  {
    var r := SaveWithLimit(list, value, maxSize, validate);
    var rest := r[1..];
    match IndexOf(list, value) {
      case Some(i) =>
        NoDuplicatesRemove(list, i);
      case None =>
        if |list| >= maxSize && |list| > 0 {
          NoDuplicatesPrefix(list, |list| - 1);
        }
    }
    assert r == [value] + rest;
    NoDuplicatesCons(value, rest);
  }

  /** What a call of `saveToStorageWithLimit` does AS WRITTEN: past the
      validator, line 35 evaluates the undeclared identifier `val`, which
      throws a ReferenceError before `setItem`; the stored list is untouched. */
  function SaveWithLimitAsWritten(list: seq<string>, value: string, maxSize: int, validate: Validator)
    : (r: Result<seq<string>, string>)
    ensures Passes(validate, value) <==> r.Failure?
    ensures r.Success? ==> r.value == list
  {
    if !Passes(validate, value) then Success(list) else Failure("ReferenceError: val is not defined")
  }

  /** The discrepancy: saving "x" into an empty list stores nothing as
      written, while the documented behaviour stores ["x"]. */
  lemma AsWrittenNeverStores(list: seq<string>, value: string, maxSize: int, validate: Validator)
    requires Passes(validate, value)
    ensures SaveWithLimitAsWritten(list, value, maxSize, validate).Failure?
    ensures SaveWithLimit(list, value, maxSize, validate)[0] == value
    ensures SaveWithLimitAsWritten([], "x", 5, None).Failure? && SaveWithLimit([], "x", 5, None) == ["x"]
  {
  }
}
