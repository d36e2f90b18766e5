/**
 * Model of algorithms/binary_search.py: a recursive search on the index range
 * `lo..hi`, generic in the three comparison operators the code calls.
 */
module BinarySearch {

  import opened Mountains

  /** The outcome of a call: an index, or the exception it raises. */
  datatype SearchResult =
    | Found(index: nat)
    | KeyError    // "Item not in list!"
    | ValueError  // none of `>`, `<`, `==` held at `mid`
    | IndexError  // `l[lo]` read with `lo == len(l)`

  /**
   * `_binary_search_aux(l, item, lo, hi)`; `gt`, `lt` and `eq` are the element
   * type's `>`, `<` and (the truthiness of) `==`. Every call shrinks `hi - lo`
   * and keeps `lo <= hi`; the base case reads `l[lo]`, which is out of range
   * exactly when `lo == len(l)`.
   */
  function SearchAux<T>(l: seq<T>, item: T, lo: nat, hi: nat,
                        gt: (T, T) -> bool, lt: (T, T) -> bool, eq: (T, T) -> bool): (r: SearchResult)
    requires lo <= hi <= |l|
    ensures r.Found? ==> lo <= r.index <= hi && r.index < |l| && eq(l[r.index], item)
    ensures r.IndexError? ==> hi == |l|
    ensures r.ValueError? ==> exists i :: lo <= i < hi && !gt(l[i], item) && !lt(l[i], item) && !eq(l[i], item)
    decreases hi - lo
  {
    if lo == hi then
      if lo == |l| then IndexError
      else if eq(l[lo], item) then Found(lo)
      else KeyError
    else
      var mid := (hi + lo) / 2;
      if gt(l[mid], item) then SearchAux(l, item, lo, mid, gt, lt, eq)
      else if lt(l[mid], item) then SearchAux(l, item, mid + 1, hi, gt, lt, eq)
      else if eq(l[mid], item) then Found(mid)
      else ValueError
  }

  /** `binary_search(l, item)`: the top-level call on the whole list, `lo = 0` and `hi = len(l)`. */
  function Search<T>(l: seq<T>, item: T, gt: (T, T) -> bool, lt: (T, T) -> bool, eq: (T, T) -> bool): (r: SearchResult)
    ensures r.Found? ==> r.index < |l| && eq(l[r.index], item)
    ensures r.ValueError? ==> exists i :: 0 <= i < |l| && !gt(l[i], item) && !lt(l[i], item) && !eq(l[i], item)
  {
    SearchAux(l, item, 0, |l|, gt, lt, eq)
  }

  /** `Mountain.__eq__` as the search uses it: its truthiness. */
  predicate MountainEq(a: Mountain, b: Mountain)
    ensures MountainEq(a, b) <==> SameKey(a, b)
  {
    EqMeaning(a, b);
    Truthy(Eq(a, b))
  }

  /** `binary_search` on a list of mountains, with the operators of mountain.py. */
  function SearchMountains(l: seq<Mountain>, m: Mountain): (r: SearchResult)
    ensures r.Found? ==> r.index < |l| && SameKey(l[r.index], m)
  {
    Search(l, m, Gt, Lt, MountainEq)
  }

  /** Sorted by `Mountain.__lt__`, the order the organiser keeps its list in. */
  ghost predicate Sorted(l: seq<Mountain>)
  {
    forall i, j :: 0 <= i < j < |l| ==> Lt(l[i], l[j])
  }

  /** `a` lies strictly below `m` in the mountain order. */
  predicate Below(a: Mountain, m: Mountain)
  {
    !Lt(m, a)
  }

  /** The first index whose mountain is not below `m`, or `len(l)` if there is none. */
  function FirstNotBelow(l: seq<Mountain>, m: Mountain, i: nat): (p: nat)
    requires i <= |l|
    ensures i <= p <= |l|
    ensures p < |l| ==> !Below(l[p], m)
    ensures forall k :: i <= k < p ==> Below(l[k], m)
    decreases |l| - i
  {
    if i == |l| || !Below(l[i], m) then i else FirstNotBelow(l, m, i + 1)
  }

  /** What the search reports once it has narrowed the range to index `p`. */
  function Outcome(l: seq<Mountain>, m: Mountain, p: nat): SearchResult
    requires p <= |l|
  {
    if p == |l| then IndexError
    else if SameKey(l[p], m) then Found(p)
    else KeyError
  }

  /**
   * On a sorted list the search keeps "everything before `lo` is below `m`,
   * nothing from `hi` on is" and so ends at the first index not below `m`.
   */
  lemma {:induction false} SearchAuxIsLowerBound(l: seq<Mountain>, m: Mountain, lo: nat, hi: nat)
    requires Sorted(l)
    requires lo <= hi <= |l|
    requires forall k :: 0 <= k < lo ==> Below(l[k], m)
    requires forall k :: hi <= k < |l| ==> !Below(l[k], m)
    ensures SearchAux(l, m, lo, hi, Gt, Lt, MountainEq) == Outcome(l, m, FirstNotBelow(l, m, 0))
    decreases hi - lo
  {
    FirstNotBelowAt(l, m, lo);
    if lo < hi {
      var mid := (hi + lo) / 2;
      GtIsConverseOfLt(l[mid], m);
      if Gt(l[mid], m) {
        AboveFrom(l, m, mid);
        assert SearchAux(l, m, lo, hi, Gt, Lt, MountainEq) == SearchAux(l, m, lo, mid, Gt, Lt, MountainEq);
        SearchAuxIsLowerBound(l, m, lo, mid);
      } else {
        BelowUpTo(l, m, mid);
        assert SearchAux(l, m, lo, hi, Gt, Lt, MountainEq) == SearchAux(l, m, mid + 1, hi, Gt, Lt, MountainEq);
        SearchAuxIsLowerBound(l, m, mid + 1, hi);
      }
    }
  }

  /** In a sorted list, a mountain above `m` has none but mountains above `m` after it. */
  lemma AboveFrom(l: seq<Mountain>, m: Mountain, mid: nat)
    requires Sorted(l) && mid < |l| && !Below(l[mid], m)
    ensures forall k :: mid <= k < |l| ==> !Below(l[k], m)
  {
    forall k | mid < k < |l|
      ensures !Below(l[k], m)
    {
      LtTotalPreorder(m, l[mid], l[k]);
    }
  }

  /** In a sorted list, a mountain below `m` has none but mountains below `m` before it. */
  lemma BelowUpTo(l: seq<Mountain>, m: Mountain, mid: nat)
    requires Sorted(l) && mid < |l| && Below(l[mid], m)
    ensures Lt(l[mid], m)
    ensures forall k :: 0 <= k <= mid ==> Below(l[k], m)
  {
    LtTotalPreorder(l[mid], m, m);
    forall k | 0 <= k < mid
      ensures Below(l[k], m)
    {
      LtTotalPreorder(m, l[k], l[mid]);
    }
  }

  /** The first index not below `m` is pinned down by what lies before and after `p`. */
  lemma FirstNotBelowAt(l: seq<Mountain>, m: Mountain, p: nat)
    requires p <= |l|
    requires forall k :: 0 <= k < p ==> Below(l[k], m)
    ensures FirstNotBelow(l, m, 0) >= p
  {
  }

  /**
   * algorithms/binary_search.py:16-39 on a sorted list of mountains: the search
   * never reports `ValueError`; it finds an index exactly when a mountain with
   * the same length and name is present; it raises `IndexError`, not `KeyError`,
   * exactly when every mountain lies below the one sought (in particular on an
   * empty list); otherwise it raises `KeyError`.
   */
  lemma {:induction false} SearchMountainsCorrect(l: seq<Mountain>, m: Mountain)
    requires Sorted(l)
    ensures SearchMountains(l, m) != ValueError
    ensures SearchMountains(l, m).Found? <==> exists i :: 0 <= i < |l| && SameKey(l[i], m)
    ensures SearchMountains(l, m).IndexError? <==> forall i :: 0 <= i < |l| ==> Below(l[i], m)
    ensures SearchMountains(l, m).KeyError? <==>
              (forall i :: 0 <= i < |l| ==> !SameKey(l[i], m)) && (exists i :: 0 <= i < |l| && !Below(l[i], m))
  {
    SearchAuxIsLowerBound(l, m, 0, |l|);
    var p := FirstNotBelow(l, m, 0);
    forall i | 0 <= i < |l| && SameKey(l[i], m)
      ensures p < |l| && SameKey(l[p], m)
    {
      LtTotalPreorder(m, l[i], m);
      LtTotalPreorder(l[i], m, m);
      assert !Below(l[i], m);
      if p < i {
        LtTotalPreorder(l[p], l[i], m);
        LtTotalPreorder(m, l[p], m);
      }
    }
    if p < |l| {
      assert !Below(l[p], m);
    }
  }

  /**
   * algorithms/binary_search.py:26-28 reads `l[lo]` even when `lo == len(l)`,
   * so looking up a mountain above every listed one, or any mountain in an
   * empty list, raises `IndexError` where the docstring promises `KeyError`.
   */
  lemma AboveEveryMountainRaisesIndexError(m: Mountain)
    ensures SearchMountains([], m) == IndexError
    ensures SearchMountains([Mountain("a", 1, 1)], Mountain("b", 1, 2)) == IndexError
  {
  }

  /** The base case with the bounds check the docstring intends: `lo < len(l) and l[lo] == item`. */
  function SearchAuxChecked<T>(l: seq<T>, item: T, lo: nat, hi: nat,
                               gt: (T, T) -> bool, lt: (T, T) -> bool, eq: (T, T) -> bool): (r: SearchResult)
    requires lo <= hi <= |l|
    ensures r.Found? ==> lo <= r.index <= hi && r.index < |l| && eq(l[r.index], item)
    ensures !r.IndexError?
    decreases hi - lo
  {
    if lo == hi then
      if lo < |l| && eq(l[lo], item) then Found(lo) else KeyError
    else
      var mid := (hi + lo) / 2;
      if gt(l[mid], item) then SearchAuxChecked(l, item, lo, mid, gt, lt, eq)
      else if lt(l[mid], item) then SearchAuxChecked(l, item, mid + 1, hi, gt, lt, eq)
      else if eq(l[mid], item) then Found(mid)
      else ValueError
  }

  /** The checked search differs from the code only in reporting `KeyError` for `IndexError`. */
  lemma {:induction false} CheckedDiffersOnlyInIndexError<T>(l: seq<T>, item: T, lo: nat, hi: nat,
                                                           gt: (T, T) -> bool, lt: (T, T) -> bool, eq: (T, T) -> bool)
    requires lo <= hi <= |l|
    ensures SearchAuxChecked(l, item, lo, hi, gt, lt, eq) ==
              (var r := SearchAux(l, item, lo, hi, gt, lt, eq); if r.IndexError? then KeyError else r)
    decreases hi - lo
  {
    if lo < hi {
      var mid := (hi + lo) / 2;
      CheckedDiffersOnlyInIndexError(l, item, lo, mid, gt, lt, eq);
      CheckedDiffersOnlyInIndexError(l, item, mid + 1, hi, gt, lt, eq);
    }
  }

  /** The corrected search on a list of mountains. */
  function SearchMountainsChecked(l: seq<Mountain>, m: Mountain): (r: SearchResult)
    ensures r.Found? ==> r.index < |l| && SameKey(l[r.index], m)
  {
    SearchAuxChecked(l, m, 0, |l|, Gt, Lt, MountainEq)
  }

  /**
   * The intended contract of `binary_search` on a sorted list of mountains:
   * an index of a mountain with the same length and name when there is one,
   * and `KeyError` otherwise.
   */
  lemma SearchMountainsCheckedCorrect(l: seq<Mountain>, m: Mountain)
    ensures Sorted(l) ==> (SearchMountainsChecked(l, m).Found? <==> exists i :: 0 <= i < |l| && SameKey(l[i], m))
    ensures Sorted(l) ==> (SearchMountainsChecked(l, m).KeyError? <==> forall i :: 0 <= i < |l| ==> !SameKey(l[i], m))
  {
    if Sorted(l) {
      CheckedDiffersOnlyInIndexError(l, m, 0, |l|, Gt, Lt, MountainEq);
      SearchMountainsCorrect(l, m);
    }
  }
}
