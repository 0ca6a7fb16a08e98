/**
 * The list operations the engine applies to its roster of animals:
 * `List.Remove` (drop the first occurrence) and the roster left after a
 * movement pass (every animal, in order, except the ones that died).
 */
module Roster {

  /** No element occurs twice in `s`. */
  ghost predicate Distinct<T>(s: seq<T>) {
    forall i, j :: 0 <= i < j < |s| ==> s[i] != s[j]
  }

  /** `List.Remove(a)`: `s` without its first occurrence of `a`, or `s` itself when `a` is absent. */
  function RemoveFirst<T(==)>(s: seq<T>, a: T): (r: seq<T>)
    ensures a !in s ==> r == s
    ensures a in s ==> |r| == |s| - 1
    ensures forall x :: x in r ==> x in s
  {
    if s == [] then []
    else if s[0] == a then s[1..]
    else [s[0]] + RemoveFirst(s[1..], a)
  }

  /** When s[i] does not occur before i, Remove cuts exactly position i. */
  lemma {:induction false} RemoveFirstAt<T>(s: seq<T>, i: nat)
    requires i < |s| && s[i] !in s[..i]
    ensures RemoveFirst(s, s[i]) == s[..i] + s[i + 1..]
  {
    if i > 0 {
      assert s[0] == s[..i][0] && s[0] != s[i];
      assert s[1..][i - 1] == s[i] && s[1..][..i - 1] == s[1..i];
      RemoveFirstAt(s[1..], i - 1);
      assert s[1..][i..] == s[i + 1..];
      assert s[..i] == [s[0]] + s[1..i];
    }
  }

  /** The elements of `s` whose flag in `died` is false, in order. */
  function Survivors<T>(s: seq<T>, died: seq<bool>): (r: seq<T>)
    requires |s| == |died|
    ensures |r| <= |s|
    ensures forall x :: x in r ==> x in s
  {
    if s == [] then []
    else
      Survivors(s[..|s| - 1], died[..|s| - 1]) + (if died[|s| - 1] then [] else [s[|s| - 1]])
  }

  /** Number of true flags. */
  function Count(flags: seq<bool>): (n: nat)
    ensures n <= |flags|
  {
    if flags == [] then 0 else Count(flags[..|flags| - 1]) + (if flags[|flags| - 1] then 1 else 0)
  }

  /** The elements of `s` whose flag is true, in order: one per true flag. */
  function Flagged<T>(s: seq<T>, flags: seq<bool>): (r: seq<T>)
    requires |s| == |flags|
    ensures |r| == Count(flags)
  {
    if s == [] then []
    else
      Flagged(s[..|s| - 1], flags[..|s| - 1]) + (if flags[|s| - 1] then [s[|s| - 1]] else [])
  }

  /** Appending one element and its flag appends the element when flagged. */
  lemma FlaggedStep<T>(s: seq<T>, flags: seq<bool>, x: T, f: bool)
    requires |s| == |flags|
    ensures Flagged(s + [x], flags + [f]) == Flagged(s, flags) + (if f then [x] else [])
  {
    assert (s + [x])[..|s|] == s;
    assert (flags + [f])[..|s|] == flags;
  }

  /** Every element removed is counted as a death: survivors and deaths add up to the whole list. */
  lemma {:induction false} SurvivorsCount<T>(s: seq<T>, died: seq<bool>)
    requires |s| == |died|
    ensures |Survivors(s, died)| + Count(died) == |s|
  {
    if s != [] {
      SurvivorsCount(s[..|s| - 1], died[..|s| - 1]);
    }
  }

  /** Some element is dropped exactly when some flag is set. */
  lemma {:induction false} CountPositive(died: seq<bool>)
    ensures Count(died) > 0 <==> exists k :: 0 <= k < |died| && died[k]
  {
    if died != [] {
      CountPositive(died[..|died| - 1]);
      if Count(died[..|died| - 1]) > 0 {
        var k :| 0 <= k < |died| - 1 && died[..|died| - 1][k];
        assert died[k];
      }
      if exists k :: 0 <= k < |died| && died[k] {
        var k :| 0 <= k < |died| && died[k];
        if k < |died| - 1 {
          assert died[..|died| - 1][k];
        }
      }
    }
  }

  /** Extending the flags by one: the survivors of one more element. */
  lemma SurvivorsStep<T>(s: seq<T>, died: seq<bool>, k: nat, d: bool)
    requires |died| == k < |s|
    ensures Survivors(s[..k + 1], died + [d]) ==
            Survivors(s[..k], died) + (if d then [] else [s[k]])
  {
    assert s[..k + 1][..k] == s[..k];
    assert (died + [d])[..k] == died;
  }

  /** An element occurring once in `s` is not among the survivors of the part before it. */
  lemma NotInEarlierSurvivors<T>(s: seq<T>, died: seq<bool>, k: nat)
    requires |died| == k < |s|
    requires Distinct(s)
    ensures s[k] !in Survivors(s[..k], died)
  {
  }

  /** Every survivor is an element whose flag is false. */
  lemma {:induction false} SurvivorsFrom<T>(s: seq<T>, died: seq<bool>, x: T)
    requires |s| == |died| && x in Survivors(s, died)
    ensures exists m :: 0 <= m < |s| && !died[m] && s[m] == x
  {
    var n := |s| - 1;
    if x in Survivors(s[..n], died[..n]) {
      SurvivorsFrom(s[..n], died[..n], x);
      var m :| 0 <= m < n && !died[..n][m] && s[..n][m] == x;
      assert !died[m] && s[m] == x;
    } else {
      assert !died[n] && s[n] == x;
    }
  }

  /** Every element whose flag is false survives. */
  lemma {:induction false} SurvivorsKeep<T>(s: seq<T>, died: seq<bool>, m: nat)
    requires |s| == |died| && m < |s| && !died[m]
    ensures s[m] in Survivors(s, died)
  {
    var n := |s| - 1;
    if m < n {
      SurvivorsKeep(s[..n], died[..n], m);
      assert s[..n][m] == s[m];
    }
  }

  /** The survivors of a list of distinct elements are distinct. */
  lemma {:induction false} SurvivorsDistinct<T>(s: seq<T>, died: seq<bool>)
    requires |s| == |died|
    requires Distinct(s)
    ensures Distinct(Survivors(s, died))
  {
    if s != [] {
      var n := |s| - 1;
      SurvivorsDistinct(s[..n], died[..n]);
      if !died[n] {
        NotInEarlierSurvivors(s, died[..n], n);
        var p := Survivors(s[..n], died[..n]);
        var r := p + [s[n]];
        forall i, j | 0 <= i < j < |r|
          ensures r[i] != r[j]
        {
          if j == |p| {
            assert r[i] == p[i] && p[i] in p;
          } else {
            assert r[i] == p[i] && r[j] == p[j];
          }
        }
      }
    }
  }

  /**
   * One step of a pass that walks `s` removing the elements that die: with
   * `before` the survivors of the first k elements followed by the rest,
   * removing s[k] when it dies gives the same shape for k + 1.
   */
  lemma SurvivorsRemoveStep<T>(s: seq<T>, k: nat, died: seq<bool>, dead: bool, before: seq<T>, after: seq<T>)
    requires Distinct(s)
    requires |died| == k < |s| && before == Survivors(s[..k], died) + s[k..]
    requires after == if dead then RemoveFirst(before, s[k]) else before
    ensures after == Survivors(s[..k + 1], died + [dead]) + s[k + 1..]
    ensures s[k] in before && (dead ==> s[k] !in after)
  {
    NotInEarlierSurvivors(s, died, k);
    NotInLater(s, k);
    RemoveStep(s, k, died, dead, before, after);
  }

  /** SurvivorsRemoveStep once s[k] is known to occur nowhere else. */
  lemma RemoveStep<T>(s: seq<T>, k: nat, died: seq<bool>, dead: bool, before: seq<T>, after: seq<T>)
    requires |died| == k < |s| && before == Survivors(s[..k], died) + s[k..]
    requires s[k] !in Survivors(s[..k], died) && s[k] !in s[k + 1..]
    requires after == if dead then RemoveFirst(before, s[k]) else before
    ensures after == Survivors(s[..k + 1], died + [dead]) + s[k + 1..]
    ensures s[k] in before && (dead ==> s[k] !in after)
  {
    SliceCons(s, k);
    SurvivorsStep(s, died, k, dead);
    var done := Survivors(s[..k], died);
    RemoveMiddle(done, s[k], s[k + 1..], dead, before, after);
    if dead {
      assert done + [] == done;
    }
  }

  lemma SliceCons<T>(s: seq<T>, k: nat)
    requires k < |s|
    ensures s[k..] == [s[k]] + s[k + 1..]
  {
    assert s[k..][1..] == s[k + 1..];
  }

  /** Removing x from a list where it occurs once, between `done` and `rest`. */
  lemma RemoveMiddle<T>(done: seq<T>, x: T, rest: seq<T>, dead: bool, before: seq<T>, after: seq<T>)
    requires before == done + ([x] + rest) && x !in done && x !in rest
    requires after == if dead then RemoveFirst(before, x) else before
    ensures after == if dead then done + rest else done + [x] + rest
    ensures x in before && (dead ==> x !in after)
  {
    assert before == done + [x] + rest && before[|done|] == x;
    if dead {
      RemoveFirstMiddle(done, x, rest);
      assert x !in done + rest;
    }
  }

  /** Remove cuts the first occurrence, wherever it sits. */
  lemma RemoveFirstMiddle<T>(done: seq<T>, x: T, rest: seq<T>)
    requires x !in done
    ensures RemoveFirst(done + [x] + rest, x) == done + rest
  {
    var b := done + [x] + rest;
    assert b[|done|] == x && b[..|done|] == done && b[|done| + 1..] == rest;
    RemoveFirstAt(b, |done|);
  }

  /** In a list of distinct elements, s[k] does not occur after position k. */
  lemma NotInLater<T>(s: seq<T>, k: nat)
    requires k < |s|
    requires Distinct(s)
    ensures s[k] !in s[k + 1..]
  {
  }
}
