/** What several models share: keys, optional values and results, and small facts about sets of numbers. */
module Basics {

  /** Keys are compared only; any total order would do. */
  type Key = int

  datatype Option<+T> = None | Some(value: T)
  datatype Result<+T, +E> = Ok(value: T) | Err(error: E)

  ghost predicate Ascending(list: seq<int>) {
    forall i, j :: 0 <= i < j < |list| ==> list[i] < list[j]
  }

  ghost predicate Lists(list: seq<int>, s: set<int>) {
    forall k :: k in list <==> k in s
  }

  lemma NothingIn(s: set<int>)
    requires forall k :: k !in s
    ensures s == {}
  {
    assert forall k :: k !in s;
  }

  lemma AnyOf(s: set<int>) returns (k: int)
    requires s != {}
    ensures k in s
  {
    if forall x :: x !in s {
      NothingIn(s);
    } else {
      k :| k in s;
    }
  }

  lemma SizeOfSubset(a: set<int>, b: set<int>)
    requires a <= b
    ensures |a| <= |b|
  {
    assert b == a + (b - a);
  }

  lemma DivisionIsUnique(x: nat, d: nat, k: nat, s: nat)
    requires d > 0 && x == d * k + s && s < d
    ensures x / d == k && x % d == s
  {
    assert x == d * (x / d) + x % d;
    NextMultiple(d, k, x / d);
    NextMultiple(d, x / d, k);
  }

  lemma NextMultiple(d: nat, i: nat, j: nat)
    ensures i < j ==> d * i + d <= d * j
  {
    if i < j { assert d * (i + 1) <= d * j; }
  }
}
