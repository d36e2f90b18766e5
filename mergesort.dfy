/**
 * Stand-in for algorithms/mergesort.py, which is not part of this model:
 * `mergesort` and `merge` carry the contracts the organiser relies on, a
 * sorted permutation and a sorted merge, under `Mountain.__lt__`.
 */
module Sorting {

  import opened Mountains
  import opened BinarySearch

  /** `x` is at most every element of `s`. */
  ghost predicate AtMostAll(x: Mountain, s: seq<Mountain>)
  {
    forall i :: 0 <= i < |s| ==> Lt(x, s[i])
  }

  /** Prepending a mountain at most every element keeps a list sorted. */
  lemma SortedCons(x: Mountain, s: seq<Mountain>)
    requires Sorted(s) && AtMostAll(x, s)
    ensures Sorted([x] + s)
  {
    var r := [x] + s;
    forall i, j | 0 <= i < j < |r|
      ensures Lt(r[i], r[j])
    {
      if i > 0 {
        assert r[i] == s[i - 1] && r[j] == s[j - 1];
      }
    }
  }

  /** `merge(l1, l2)`: interleaves two lists, taking the left head while it is `<` the right head. */
  function Merge(a: seq<Mountain>, b: seq<Mountain>): (r: seq<Mountain>)
    ensures multiset(r) == multiset(a) + multiset(b)
    ensures Sorted(a) && Sorted(b) ==> Sorted(r)
    decreases |a| + |b|
  {
    if a == [] then b
    else if b == [] then a
    else if Lt(a[0], b[0]) then
      var rest := Merge(a[1..], b);
      TakeLeft(a, b, rest);
      [a[0]] + rest
    else
      var rest := Merge(a, b[1..]);
      TakeRight(a, b, rest);
      [b[0]] + rest
  }

  /** Taking the left head in front of the merge of the rest gives the merge of both lists. */
  lemma TakeLeft(a: seq<Mountain>, b: seq<Mountain>, rest: seq<Mountain>)
    requires 0 < |a| && 0 < |b| && Lt(a[0], b[0])
    requires multiset(rest) == multiset(a[1..]) + multiset(b)
    requires Sorted(a[1..]) && Sorted(b) ==> Sorted(rest)
    ensures multiset([a[0]] + rest) == multiset(a) + multiset(b)
    ensures Sorted(a) && Sorted(b) ==> Sorted([a[0]] + rest)
  {
    assert a == [a[0]] + a[1..];
    MergeHeadIsLeast(a[0], a[1..], b, rest);
  }

  /** Taking the right head in front of the merge of the rest gives the merge of both lists. */
  lemma TakeRight(a: seq<Mountain>, b: seq<Mountain>, rest: seq<Mountain>)
    requires 0 < |a| && 0 < |b| && !Lt(a[0], b[0])
    requires multiset(rest) == multiset(a) + multiset(b[1..])
    requires Sorted(a) && Sorted(b[1..]) ==> Sorted(rest)
    ensures multiset([b[0]] + rest) == multiset(a) + multiset(b)
    ensures Sorted(a) && Sorted(b) ==> Sorted([b[0]] + rest)
  {
    assert b == [b[0]] + b[1..];
    LtTotalPreorder(a[0], b[0], b[0]);
    MergeHeadIsLeast(b[0], a, b[1..], rest);
  }

  /** A mountain at most the heads of two sorted lists is at most all of their merge. */
  lemma MergeHeadIsLeast(x: Mountain, a: seq<Mountain>, b: seq<Mountain>, rest: seq<Mountain>)
    requires multiset(rest) == multiset(a) + multiset(b)
    ensures Sorted(a) && Sorted(b) && Sorted(rest) && (a != [] ==> Lt(x, a[0])) && (b != [] ==> Lt(x, b[0]))
            ==> Sorted([x] + rest)
  {
    if Sorted(a) && Sorted(b) && Sorted(rest) && (a != [] ==> Lt(x, a[0])) && (b != [] ==> Lt(x, b[0])) {
      forall i | 0 <= i < |rest|
        ensures Lt(x, rest[i])
      {
        assert rest[i] in multiset(rest);
        if rest[i] in multiset(a) {
          var k :| 0 <= k < |a| && a[k] == rest[i];
          if k > 0 {
            LtTotalPreorder(x, a[0], a[k]);
          }
        } else {
          assert rest[i] in multiset(b);
          var k :| 0 <= k < |b| && b[k] == rest[i];
          if k > 0 {
            LtTotalPreorder(x, b[0], b[k]);
          }
        }
      }
      SortedCons(x, rest);
    }
  }

  /** `mergesort(l)`: a sorted permutation of `l`. */
  function MergeSort(s: seq<Mountain>): (r: seq<Mountain>)
    ensures multiset(r) == multiset(s)
    ensures Sorted(r)
    decreases |s|
  {
    if |s| <= 1 then s
    else
      var h := |s| / 2;
      assert s == s[..h] + s[h..];
      Merge(MergeSort(s[..h]), MergeSort(s[h..]))
  }
}
