/**
 Object identities and the deterministic order in which tree searches list them.
 Searches over the object arena enumerate identities in ascending order, so a
 search over an unchanged tree always lists the same identities in the same order.
 */
module Ids {

  /** A sequence of identities in strictly ascending order, hence free of duplicates. */
  predicate StrictlyIncreasing(s: seq<int>) {
    forall i, j :: 0 <= i < j < |s| ==> s[i] < s[j]
  }

  /** A non-empty set holds some element. */
  lemma HasElement(s: set<int>)
    requires s != {}
    ensures exists x :: x in s
  {
    if forall y :: y !in s {
      assert false;
    }
  }

  /** A least element of a non-empty set of identities, found by removing one element at a time. */
  ghost function Least(s: set<int>): (m: int)
    requires s != {}
    ensures m in s
    ensures forall y :: y in s ==> m <= y
    decreases |s|
  {
    HasElement(s);
    var x :| x in s;
    if s == {x} then x
    else
      var m' := Least(s - {x});
      assert forall y :: y in s ==> y == x || y in s - {x};
      if x < m' then x else m'
  }

  /** Every non-empty set of identities has a least element. */
  lemma MinExists(s: set<int>)
    requires s != {}
    ensures exists m :: m in s && forall y :: y in s ==> m <= y
  {
    var m := Least(s);
    assert m in s && forall y :: y in s ==> m <= y;
  }

  /** The first element of an ascending sequence lies below all the others. */
  lemma HeadBelowRest(s: seq<int>)
    requires StrictlyIncreasing(s) && |s| > 0
    ensures forall x :: x in s[1..] ==> s[0] < x
  {
    forall x | x in s[1..]
      ensures s[0] < x
    {
      var k :| 0 <= k < |s[1..]| && s[1..][k] == x;
      assert s[k + 1] == x;
    }
  }

  /** Prefixing an identity below every element keeps a sequence ascending. */
  lemma ConsIncreasing(x: int, s: seq<int>)
    requires StrictlyIncreasing(s)
    requires forall y :: y in s ==> x < y
    ensures StrictlyIncreasing([x] + s)
  {
    forall i, j | 0 <= i < j < |[x] + s|
      ensures ([x] + s)[i] < ([x] + s)[j]
    {
      assert ([x] + s)[j] == s[j - 1];
      if i > 0 {
        assert ([x] + s)[i] == s[i - 1];
      } else {
        assert s[j - 1] in s;
      }
    }
  }

  /** The least identity of a non-empty set. */
  function Min(s: set<int>): (m: int)
    requires s != {}
    ensures m in s
    ensures forall y :: y in s ==> m <= y
  {
    MinExists(s);
    var m :| m in s && forall y :: y in s ==> m <= y;
    m
  }

  /** The identities of `s`, each once, in ascending order. */
  function SortedKeys(s: set<int>): (r: seq<int>)
    ensures StrictlyIncreasing(r)
    ensures forall x :: x in r <==> x in s
    ensures |r| == |s|
    decreases |s|
  {
    if s == {} then []
    else
      var m := Min(s);
      [m] + SortedKeys(s - {m})
  }

  /** The elements of `s` that satisfy `keep`, in their original order (LINQ's `Where`). */
  function FilterIds(s: seq<int>, keep: int -> bool): (r: seq<int>)
    ensures forall x :: x in r <==> x in s && keep(x)
    ensures StrictlyIncreasing(s) ==> StrictlyIncreasing(r)
    ensures |r| <= |s|
  {
    if s == [] then []
    else
      var rest := FilterIds(s[1..], keep);
      if keep(s[0]) then
        if StrictlyIncreasing(s) then
          assert StrictlyIncreasing(s[1..]);
          HeadBelowRest(s);
          ConsIncreasing(s[0], rest);
          [s[0]] + rest
        else [s[0]] + rest
      else
        assert StrictlyIncreasing(s) ==> StrictlyIncreasing(s[1..]);
        rest
  }

  lemma FirstTwoEqual(s: seq<int>, e: int)
    requires forall i :: 0 <= i < |s| ==> s[i] == e
    ensures |s| > 1 ==> s[0] == s[1]
  {
  }

  /** A strictly increasing sequence holding only `e`, and `e` at least once, is `[e]`. */
  lemma SingleIncreasing(s: seq<int>, e: int)
    requires StrictlyIncreasing(s)
    requires forall x :: x in s <==> x == e
    ensures s == [e]
  {
    forall i | 0 <= i < |s|
      ensures s[i] == e
    {
      assert s[i] in s;
    }
    FirstTwoEqual(s, e);
    assert e in s;
    assert |s| == 1;
  }
}
