/** Placeholder substitution of `getString` (defined the same way in
    js/base/common.js and js/common.js): the parameter object's keys are replaced in
    the template one after the other, each by `String.prototype.replaceAll`. */
module Placeholder {
  import opened Text
  import opened Wrappers

  /** One `key -> value` pair of the parameter object, in `Object.keys` order. */
  type Param = (string, string)

  /** Keys are non-empty and values carry no `$` replacement patterns. */
  predicate WellFormedParams(ps: seq<Param>) {
    forall i :: 0 <= i < |ps| ==> |ps[i].0| > 0 && '$' !in ps[i].1
  }

  /** `s.replaceAll(key, val)`: scans left to right and replaces every
      non-overlapping occurrence of `key` by `val`. */
  function ReplaceAll(s: string, key: string, val: string): (r: string)
    requires |key| > 0
    ensures |val| == |key| ==> |r| == |s|
    decreases |s|
  {
    if |s| < |key| then s
    else if s[..|key|] == key then val + ReplaceAll(s[|key|..], key, val)
    else [s[0]] + ReplaceAll(s[1..], key, val)
  }

  /** An occurrence of `key` in `s[1..]` is an occurrence in `s`. */
  lemma ContainsTail(s: string, key: string)
    requires |s| > 0 && Contains(s[1..], key)
    ensures Contains(s, key)
  {
    var i :| 0 <= i <= |s[1..]| - |key| && OccursAt(s[1..], key, i);
    assert s[i + 1..i + 1 + |key|] == s[1..][i..i + |key|];
    assert OccursAt(s, key, i + 1);
  }

  /** Replacing a key that does not occur changes nothing. */
  lemma {:induction false} ReplaceAllAbsent(s: string, key: string, val: string)
    requires |key| > 0 && !Contains(s, key)
    ensures ReplaceAll(s, key, val) == s
    decreases |s|
  {
    if |s| >= |key| {
      assert !OccursAt(s, key, 0);
      if Contains(s[1..], key) { ContainsTail(s, key); }
      ReplaceAllAbsent(s[1..], key, val);
      assert [s[0]] + s[1..] == s;
    }
  }

  /** Replacing a key by itself changes nothing. */
  lemma {:induction false} ReplaceAllSelf(s: string, key: string)
    requires |key| > 0
    ensures ReplaceAll(s, key, key) == s
    decreases |s|
  {
    if |s| >= |key| {
      if s[..|key|] == key {
        ReplaceAllSelf(s[|key|..], key);
        assert key + s[|key|..] == s;
      } else {
        ReplaceAllSelf(s[1..], key);
        assert [s[0]] + s[1..] == s;
      }
    }
  }

  /** Occurrences in `s[1..]` are the occurrences in `s` shifted by one. */
  lemma OccursShift(s: string, key: string, i: nat)
    requires |s| > 0
    ensures OccursAt(s[1..], key, i) <==> OccursAt(s, key, i + 1)
  {
    if i + |key| <= |s[1..]| {
      assert s[1..][i..i + |key|] == s[i + 1..i + 1 + |key|];
    }
  }

  /** The leftmost occurrence is the one replaced: when `key` occurs at `k`
      and starts nowhere before `k`, the text before it is kept, the
      occurrence becomes `val`, and the scan resumes right after it. With
      `ReplaceAllAbsent` this determines `ReplaceAll` on every input. */
  lemma {:induction false} ReplaceAllLeftmost(s: string, key: string, val: string, k: nat)
    requires |key| > 0 && OccursAt(s, key, k) && NoneBefore(s, key, k)
    ensures ReplaceAll(s, key, val) == s[..k] + val + ReplaceAll(s[k + |key|..], key, val)
    decreases k
  {
    if k == 0 {
      LeftmostAtStart(s, key, val);
    } else {
      NoEarlierInTail(s, key, k);
      ReplaceAllLeftmost(s[1..], key, val, k - 1);
      LeftmostStep(s, key, val, k);
    }
  }

  lemma LeftmostAtStart(s: string, key: string, val: string)
    requires |key| > 0 && OccursAt(s, key, 0)
    ensures ReplaceAll(s, key, val) == s[..0] + val + ReplaceAll(s[|key|..], key, val)
  {
    assert s[..|key|] == key;
    assert s[..0] + val == val;
  }

  /** One step of the scan past a character that starts no occurrence. */
  lemma LeftmostStep(s: string, key: string, val: string, k: nat)
    requires |key| > 0 && 0 < k && k + |key| <= |s| && !OccursAt(s, key, 0)
    requires ReplaceAll(s[1..], key, val)
      == s[1..][..k - 1] + val + ReplaceAll(s[1..][k - 1 + |key|..], key, val)
    ensures ReplaceAll(s, key, val) == s[..k] + val + ReplaceAll(s[k + |key|..], key, val)
  {
    var t := s[1..];
    var rest := ReplaceAll(s[k + |key|..], key, val);
    SkipFirst(s, key, val);
    TailSlice(s, k + |key|);
    ConsPrefix(s, k, val, rest);
    calc {
      ReplaceAll(s, key, val);
      [s[0]] + ReplaceAll(t, key, val);
      [s[0]] + (t[..k - 1] + val + ReplaceAll(t[k - 1 + |key|..], key, val));
      [s[0]] + (t[..k - 1] + val + rest);
      s[..k] + val + rest;
    }
  }

  /** `key` starts at no position before `k`. */
  predicate NoneBefore(s: string, key: string, k: nat) {
    forall i :: 0 <= i < k ==> !OccursAt(s, key, i)
  }

  /** The leftmost-occurrence condition carries over to `s[1..]`. */
  lemma NoEarlierInTail(s: string, key: string, k: nat)
    requires 0 < k && OccursAt(s, key, k) && NoneBefore(s, key, k)
    ensures OccursAt(s[1..], key, k - 1) && NoneBefore(s[1..], key, k - 1)
    ensures !OccursAt(s, key, 0)
  {
    forall i | 0 <= i < k - 1
      ensures !OccursAt(s[1..], key, i)
    {
      OccursShift(s, key, i);
    }
    OccursShift(s, key, k - 1);
  }

  /** Slicing the tail is slicing the whole, one further on. */
  lemma TailSlice(s: string, n: nat)
    requires 1 <= n <= |s|
    ensures s[1..][n - 1..] == s[n..]
  {
  }

  /** Putting the first character back in front of a prefix of the tail. */
  lemma ConsPrefix(s: string, k: nat, v: string, rest: string)
    requires 0 < k <= |s|
    ensures [s[0]] + (s[1..][..k - 1] + v + rest) == s[..k] + v + rest
  {
    assert [s[0]] + s[1..][..k - 1] == s[..k];
  }

  /** No occurrence at 0: the first character is kept and the scan moves on. */
  lemma SkipFirst(s: string, key: string, val: string)
    requires |key| > 0 && |key| <= |s| && !OccursAt(s, key, 0)
    ensures ReplaceAll(s, key, val) == [s[0]] + ReplaceAll(s[1..], key, val)
  {
    assert s[..|key|] != key;
  }

  /** The ordered fold of `getString`: each pair is applied to the result of
      the previous ones. */
  function ApplyAll(s: string, ps: seq<Param>): (r: string)
    requires WellFormedParams(ps)
    decreases |ps|
  {
    if |ps| == 0 then s else ApplyAll(ReplaceAll(s, ps[0].0, ps[0].1), ps[1..])
  }

  /** `getString(origin, params)`: `None` stands for a missing or empty
      `params` attribute, `Some(ps)` for the parsed object's pairs. */
  function GetString(origin: string, params: Option<seq<Param>>): (r: string)
    requires params.Some? ==> WellFormedParams(params.value)
    ensures params.None? ==> r == origin
    ensures params == Some([]) ==> r == origin
  {
    match params
    case None => origin
    case Some(ps) => ApplyAll(origin, ps)
  }

  /** Replacements happen one key at a time, in key order: the last pair acts
      on what all the earlier pairs produced. */
  lemma {:induction false} ApplyAllSequential(s: string, ps: seq<Param>, p: Param)
    requires WellFormedParams(ps) && |p.0| > 0 && '$' !in p.1
    ensures WellFormedParams(ps + [p])
    ensures ApplyAll(s, ps + [p]) == ReplaceAll(ApplyAll(s, ps), p.0, p.1)
    decreases |ps|
  {
    assert forall i :: 0 <= i < |ps| ==> ps[i] == (ps + [p])[i];
    if |ps| > 0 {
      assert (ps + [p])[1..] == ps[1..] + [p];
      ApplyAllSequential(ReplaceAll(s, ps[0].0, ps[0].1), ps[1..], p);
    }
  }

  /** When no key occurs in the template, the template is returned as is. */
  lemma {:induction false} GetStringNoKeyOccurs(origin: string, ps: seq<Param>)
    requires WellFormedParams(ps)
    requires forall i :: 0 <= i < |ps| ==> !Contains(origin, ps[i].0)
    ensures GetString(origin, Some(ps)) == origin
    decreases |ps|
  {
    if |ps| > 0 {
      ReplaceAllAbsent(origin, ps[0].0, ps[0].1);
      GetStringNoKeyOccurs(origin, ps[1..]);
    }
  }

  /** Pairs that map a key to itself leave the template unchanged. */
  lemma {:induction false} GetStringSelfKeys(origin: string, ps: seq<Param>)
    requires WellFormedParams(ps)
    requires forall i :: 0 <= i < |ps| ==> ps[i].0 == ps[i].1
    ensures GetString(origin, Some(ps)) == origin
    decreases |ps|
  {
    if |ps| > 0 {
      ReplaceAllSelf(origin, ps[0].0);
      GetStringSelfKeys(origin, ps[1..]);
    }
  }

  /** The fold is not simultaneous: a later key matches text that an earlier
      replacement introduced ({"a": "b", "b": "c"} turns "a" into "c"). */
  lemma GetStringChains()
    ensures GetString("a", Some([("a", "b"), ("b", "c")])) == "c"
  {
    assert ReplaceAll("a", "a", "b") == "b" + ReplaceAll("", "a", "b") == "b";
    assert ReplaceAll("b", "b", "c") == "c";
  }
}
