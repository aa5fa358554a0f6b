/** Python's `sorted` on a list of integers, as a functional insertion sort. */
module Sorting {

  /** Ascending order. */
  predicate Sorted(s: seq<int>)
  {
    forall i, j :: 0 <= i < j < |s| ==> s[i] <= s[j]
  }

  /** Ascending order without repeated values. */
  predicate StrictlySorted(s: seq<int>)
  {
    forall i, j :: 0 <= i < j < |s| ==> s[i] < s[j]
  }

  /** No value occurs twice. */
  predicate Distinct(s: seq<int>)
  {
    forall i, j :: 0 <= i < j < |s| ==> s[i] != s[j]
  }

  /** Inserts x into a sorted sequence at its place. */
  function Insert(x: int, s: seq<int>): (r: seq<int>)
    requires Sorted(s)
    ensures Sorted(r)
    ensures multiset(r) == multiset(s) + multiset{x}
    decreases |s|
  {
    if s == [] || x <= s[0] then [x] + s
    else
      var rest := Insert(x, s[1..]);
      assert s == [s[0]] + s[1..];
      HeadBelowRest(s, x, rest);
      [s[0]] + rest
  }

  /** The head of a sorted sequence is below every value of a rearrangement
      of its tail with a larger value added. */
  lemma HeadBelowRest(s: seq<int>, x: int, rest: seq<int>)
    requires Sorted(s) && s != [] && s[0] < x
    requires multiset(rest) == multiset(s[1..]) + multiset{x}
    ensures forall k :: 0 <= k < |rest| ==> s[0] <= rest[k]
  {
    forall k | 0 <= k < |rest|
      ensures s[0] <= rest[k]
    {
      assert rest[k] in multiset(rest);
      if rest[k] != x {
        assert rest[k] in multiset(s[1..]);
      }
    }
  }

  /** The values of s in ascending order. */
  function Sort(s: seq<int>): (r: seq<int>)
    ensures Sorted(r)
    ensures multiset(r) == multiset(s)
    decreases |s|
  {
    if s == [] then []
    else
      assert s == [s[0]] + s[1..];
      Insert(s[0], Sort(s[1..]))
  }

  /** A sorted sequence whose values are all different is strictly ascending. */
  lemma SortedDistinctIsStrict(r: seq<int>, s: seq<int>)
    requires Sorted(r) && multiset(r) == multiset(s) && Distinct(s)
    ensures StrictlySorted(r)
  {
    forall i, j | 0 <= i < j < |r|
      ensures r[i] < r[j]
    {
      if r[i] == r[j] {
        TwiceCounted(r, i, j);
        DistinctCountsOnce(s, r[i]);
      }
    }
  }

  /** A value found at two positions occurs at least twice. */
  lemma TwiceCounted(r: seq<int>, i: int, j: int)
    requires 0 <= i < j < |r| && r[i] == r[j]
    ensures multiset(r)[r[i]] >= 2
  {
    var x := r[i];
    assert r == r[..j] + r[j..];
    assert r[..j][i] == x;
    assert r[j..][0] == x;
    assert multiset(r) == multiset(r[..j]) + multiset(r[j..]);
  }

  /** Sorting a sequence without repeats gives a strictly ascending one. */
  lemma SortDistinctIsStrict(s: seq<int>)
    requires Distinct(s)
    ensures StrictlySorted(Sort(s))
  {
    SortedDistinctIsStrict(Sort(s), s);
  }

  /** A strictly ascending sequence holding the value x and nothing else is [x]. */
  lemma OnlyValue(s: seq<int>, x: int)
    requires StrictlySorted(s) && forall v :: v in s <==> v == x
    ensures s == [x]
  {
    assert x in s;
    assert s[0] in s && s[|s| - 1] in s;
    assert |s| == 1;
  }

  /** In a sequence without repeats, every value occurs at most once. */
  lemma {:induction false} DistinctCountsOnce(s: seq<int>, x: int)
    requires Distinct(s)
    ensures multiset(s)[x] <= 1
    decreases |s|
  {
    if s != [] {
      assert s == [s[0]] + s[1..];
      DistinctCountsOnce(s[1..], x);
      if s[0] == x {
        assert x !in s[1..];
      }
    }
  }
}
