/**
 * Model of mountain_organiser.py: a list of mountains kept sorted by
 * `Mountain.__lt__`, grown by merging in a sorted batch and queried for the
 * rank of a mountain by binary search.
 */
module MountainOrganisers {

  import opened Mountains
  import opened BinarySearch
  import opened Sorting

  class MountainOrganiser {

    /** `self.m_list`, reassigned as a whole by `add_mountains`. */
    var mList: seq<Mountain>

    /** `__init__`: an organiser starts with no mountains. */
    constructor ()
      ensures mList == []
    {
      mList := [];
    }

    /**
     * `add_mountains`: the guard `len(self.m_list) is None` tests an integer for
     * identity with `None` and never holds, so its branch is dead and the method
     * always sets the list to `merge(mergesort(mountains), m_list)`. The list
     * then holds the old mountains and the new ones, and stays sorted.
     */
    method AddMountains(mountains: seq<Mountain>)
      modifies this
      ensures mList == Merge(MergeSort(mountains), old(mList))
      ensures multiset(mList) == multiset(old(mList)) + multiset(mountains)
      ensures Sorted(old(mList)) ==> Sorted(mList)
    {
      var addList := MergeSort(mountains);
      mList := Merge(addList, mList);
    }

    /**
     * `cur_position`: `binary_search(self.m_list, mountain)`. On the sorted
     * list it gives the rank of a mountain that was added; for one that was
     * not, it raises `IndexError` when every listed mountain lies below it
     * (including the empty organiser), and `KeyError` otherwise.
     */
    function CurPosition(mountain: Mountain): (r: SearchResult)
      reads this
      ensures r.Found? ==> r.index < |mList| && SameKey(mList[r.index], mountain)
      ensures Sorted(mList) ==> r != ValueError
      ensures Sorted(mList) ==> (r.Found? <==> exists i :: 0 <= i < |mList| && SameKey(mList[i], mountain))
      ensures Sorted(mList) ==> (r.IndexError? <==> forall i :: 0 <= i < |mList| ==> Below(mList[i], mountain))
      ensures Sorted(mList) ==> (r.KeyError? <==>
                (forall i :: 0 <= i < |mList| ==> !SameKey(mList[i], mountain)) &&
                (exists i :: 0 <= i < |mList| && !Below(mList[i], mountain)))
    {
      RankOutcome(mList, mountain);
      SearchMountains(mList, mountain)
    }
  }

  /** `SearchMountainsCorrect` for a list that may or may not be sorted. */
  lemma RankOutcome(l: seq<Mountain>, m: Mountain)
    ensures Sorted(l) ==> SearchMountains(l, m) != ValueError
    ensures Sorted(l) ==> (SearchMountains(l, m).Found? <==> exists i :: 0 <= i < |l| && SameKey(l[i], m))
    ensures Sorted(l) ==> (SearchMountains(l, m).IndexError? <==> forall i :: 0 <= i < |l| ==> Below(l[i], m))
    ensures Sorted(l) ==> (SearchMountains(l, m).KeyError? <==>
              (forall i :: 0 <= i < |l| ==> !SameKey(l[i], m)) && (exists i :: 0 <= i < |l| && !Below(l[i], m)))
  {
    if Sorted(l) {
      SearchMountainsCorrect(l, m);
    }
  }

  /**
   * After `add_mountains(mountains)` on a sorted list, every mountain of the
   * batch, and every mountain that was already there, has a rank.
   */
  lemma {:induction false} AddedMountainsAreRanked(old_list: seq<Mountain>, mountains: seq<Mountain>, m: Mountain)
    requires Sorted(old_list)
    requires m in mountains || m in old_list
    ensures SearchMountains(Merge(MergeSort(mountains), old_list), m).Found?
  {
    var l := Merge(MergeSort(mountains), old_list);
    assert m in multiset(mountains) || m in multiset(old_list);
    assert m in multiset(l);
    var i :| 0 <= i < |l| && l[i] == m;
    assert SameKey(l[i], m);
    SearchMountainsCorrect(l, m);
  }
}
