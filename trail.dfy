/**
 * Model of trail.py: a trail is a tree of series (a mountain followed by the
 * rest of the trail) and splits (two branches that join into a following
 * trail). The `add_*` and `remove_*` methods build new values; `follow_path`
 * walks one path through the tree with an explicit stack.
 */
module Trails {

  import opened Mountains

  /** A split: the walker takes the top or the bottom branch, then the following trail. */
  datatype TrailSplit = TrailSplit(pathTop: Trail, pathBottom: Trail, pathFollow: Trail)
  {
    /** `remove_branch`: drops both branches and leaves the following trail. */
    function RemoveBranch(): (r: TrailStore)
      ensures r.Size() < Split(this).Size()
    {
      pathFollow.store
    }
  }

  /** A mountain followed by the rest of the trail. */
  datatype TrailSeries = TrailSeries(mountain: Mountain, following: Trail)
  {
    /** `remove_mountain`: drops the first mountain and leaves what follows it. */
    function RemoveMountain(): (r: TrailStore)
      ensures r.Size() < Series(this).Size()
    {
      following.store
    }

    /** `add_mountain_before`: a series headed by `m` whose rest is this series. */
    function AddMountainBefore(m: Mountain): (r: TrailStore)
      ensures r.Series? && r.series.mountain == m
      ensures r.series.RemoveMountain() == Series(this)
    {
      Series(TrailSeries(m, Trail(Series(this))))
    }

    /** `add_empty_branch_before`: a split with two empty branches, followed by this series. */
    function AddEmptyBranchBefore(): (r: TrailStore)
      ensures r.Split? && r.split.pathTop.store == NoStore && r.split.pathBottom.store == NoStore
      ensures r.split.RemoveBranch() == Series(this)
    {
      Split(TrailSplit(Trail(NoStore), Trail(NoStore), Trail(Series(this))))
    }

    /** `add_mountain_after`: keeps this mountain first, then `m`, then the old following trail. */
    function AddMountainAfter(m: Mountain): (r: TrailStore)
      ensures r.Series? && r.series.mountain == mountain
      ensures r.series.RemoveMountain().Series? && r.series.RemoveMountain().series.mountain == m
      ensures r.series.RemoveMountain().series.RemoveMountain() == following.store
    {
      Series(TrailSeries(mountain, Trail(Series(TrailSeries(m, following)))))
    }

    /** `add_empty_branch_after`: keeps this mountain first, then an empty split, then the old following trail. */
    function AddEmptyBranchAfter(): (r: TrailStore)
      ensures r.Series? && r.series.mountain == mountain
      ensures r.series.RemoveMountain().Split?
      ensures r.series.RemoveMountain().split.pathTop.store == NoStore
      ensures r.series.RemoveMountain().split.pathBottom.store == NoStore
      ensures r.series.RemoveMountain().split.RemoveBranch() == following.store
    {
      Series(TrailSeries(mountain, Trail(Split(TrailSplit(Trail(NoStore), Trail(NoStore), following)))))
    }
  }

  /** `TrailStore = Union[TrailSplit, TrailSeries, None]`. */
  datatype TrailStore = NoStore | Split(split: TrailSplit) | Series(series: TrailSeries)
  {
    /** A size that every step of `follow_path` strictly decreases; splits weigh one more than series. */
    function Size(): nat
    {
      match this
      case NoStore => 0
      case Series(s) => 1 + s.following.store.Size()
      case Split(sp) => 2 + sp.pathTop.store.Size() + sp.pathBottom.store.Size() + sp.pathFollow.store.Size()
    }
  }

  datatype Trail = Trail(store: TrailStore)
  {
    /** `Trail.add_mountain_before`: a new trail that starts with `m` and continues with this one. */
    function AddMountainBefore(m: Mountain): (r: Trail)
      ensures r.store.Series? && r.store.series.mountain == m
      ensures r.store.series.RemoveMountain() == store
    {
      Trail(Series(TrailSeries(m, this)))
    }

    /** `Trail.add_empty_branch_before`: a new trail that starts with an empty split and continues with this one. */
    function AddEmptyBranchBefore(): (r: Trail)
      ensures r.store.Split? && r.store.split.pathTop.store == NoStore && r.store.split.pathBottom.store == NoStore
      ensures r.store.split.RemoveBranch() == store
    {
      Trail(Split(TrailSplit(Trail(NoStore), Trail(NoStore), this)))
    }
  }

  /**
   * The mountains a walker meets on `store`, in order, when `select(top, bottom)`
   * says whether it takes the top branch of a split: a series contributes its
   * mountain and then the rest; a split contributes the chosen branch and then
   * the following trail.
   */
  function Path(store: TrailStore, select: (Trail, Trail) -> bool): seq<Mountain>
  {
    match store
    case NoStore => []
    case Series(s) => [s.mountain] + Path(s.following.store, select)
    case Split(sp) =>
      Path(if select(sp.pathTop, sp.pathBottom) then sp.pathTop.store else sp.pathBottom.store, select)
      + Path(sp.pathFollow.store, select)
  }

  /** The paths of the stacked trails, top of the stack (index 0) first. */
  function PathAll(stack: seq<TrailStore>, select: (Trail, Trail) -> bool): seq<Mountain>
  {
    if stack == [] then [] else Path(stack[0], select) + PathAll(stack[1..], select)
  }

  function SizeAll(stack: seq<TrailStore>): nat
  {
    if stack == [] then 0 else stack[0].Size() + SizeAll(stack[1..])
  }

  /**
   * `Trail.follow_path`: walks the trail and returns, in order, the mountains it
   * passes to `personality.add_mountain`. `select` stands for
   * `personality.select_branch`, and `store` is the local cursor that the
   * source keeps in `self.store`; on exit it holds the trail's store again.
   * On a split the following trail is pushed (top of the stack at index 0) and
   * resumed when the chosen branch ends, innermost split first.
   */
  method FollowPath(trail: Trail, select: (Trail, Trail) -> bool) returns (added: seq<Mountain>, store: TrailStore)
    ensures added == Path(trail.store, select)
    ensures store == trail.store
  {
    var copyOgStore := trail.store;
    store := trail.store;
    var stackFollow: seq<TrailStore> := [];
    added := [];
    while true
      invariant added + Rest(store, stackFollow, select) == Path(trail.store, select)
      decreases store.Size() + SizeAll(stackFollow) + |stackFollow|
    {
      match store
      case Series(s) =>
        SeriesStep(s, stackFollow, select);
        added := added + [s.mountain];
        store := s.following.store;
      case Split(sp) =>
        var isTop := select(sp.pathTop, sp.pathBottom);
        SplitStep(sp, stackFollow, select);
        stackFollow := [sp.pathFollow.store] + stackFollow;
        if isTop {
          store := sp.pathTop.store;
        } else {
          store := sp.pathBottom.store;
        }
      case NoStore =>
        if stackFollow == [] {
          store := copyOgStore;
          break;
        } else {
          PopStep(stackFollow, select);
          store := stackFollow[0];
          stackFollow := stackFollow[1..];
        }
    }
  }

  /** What is left to walk: the current store, then the stacked trails. */
  function Rest(store: TrailStore, stack: seq<TrailStore>, select: (Trail, Trail) -> bool): seq<Mountain>
  {
    Path(store, select) + PathAll(stack, select)
  }

  /** One series step of `follow_path`: the mountain moves from what is left to the added list. */
  lemma SeriesStep(s: TrailSeries, stack: seq<TrailStore>, select: (Trail, Trail) -> bool)
    ensures Rest(Series(s), stack, select) == [s.mountain] + Rest(s.following.store, stack, select)
  {
  }

  /** One split step: the chosen branch becomes current and the following trail goes on top of the stack. */
  lemma SplitStep(sp: TrailSplit, stack: seq<TrailStore>, select: (Trail, Trail) -> bool)
    ensures var chosen := if select(sp.pathTop, sp.pathBottom) then sp.pathTop.store else sp.pathBottom.store;
            Rest(Split(sp), stack, select) == Rest(chosen, [sp.pathFollow.store] + stack, select)
    ensures SizeAll([sp.pathFollow.store] + stack) == sp.pathFollow.store.Size() + SizeAll(stack)
  {
    assert ([sp.pathFollow.store] + stack)[1..] == stack;
  }

  /** A pop: the top of the stack becomes current. */
  lemma PopStep(stack: seq<TrailStore>, select: (Trail, Trail) -> bool)
    requires stack != []
    ensures Rest(NoStore, stack, select) == Rest(stack[0], stack[1..], select)
    ensures SizeAll(stack) == stack[0].Size() + SizeAll(stack[1..])
  {
  }

  /** A mountain added before a series is met first, then the series as before. */
  lemma SeriesAddMountainBeforePath(s: TrailSeries, m: Mountain, select: (Trail, Trail) -> bool)
    ensures Path(s.AddMountainBefore(m), select) == [m] + Path(Series(s), select)
  {
  }

  /** An empty branch before a series changes no walk, whichever branch is taken. */
  lemma SeriesAddEmptyBranchBeforePath(s: TrailSeries, select: (Trail, Trail) -> bool)
    ensures Path(s.AddEmptyBranchBefore(), select) == Path(Series(s), select)
  {
  }

  /** A mountain added after the first one is met second on every walk. */
  lemma SeriesAddMountainAfterPath(s: TrailSeries, m: Mountain, select: (Trail, Trail) -> bool)
    ensures Path(s.AddMountainAfter(m), select) == [s.mountain, m] + Path(s.following.store, select)
  {
  }

  /** An empty branch after the first mountain changes no walk. */
  lemma SeriesAddEmptyBranchAfterPath(s: TrailSeries, select: (Trail, Trail) -> bool)
    ensures Path(s.AddEmptyBranchAfter(), select) == Path(Series(s), select)
  {
    var sp := TrailSplit(Trail(NoStore), Trail(NoStore), s.following);
    assert Path(Split(sp), select) == Path(NoStore, select) + Path(s.following.store, select);
    assert Path(Split(sp), select) == Path(s.following.store, select);
  }

  /** `Trail.add_mountain_before` puts `m` in front of every walk and leaves the trail itself unchanged. */
  lemma TrailAddMountainBeforePath(t: Trail, m: Mountain, select: (Trail, Trail) -> bool)
    ensures Path(t.AddMountainBefore(m).store, select) == [m] + Path(t.store, select)
  {
  }

  /** `Trail.add_empty_branch_before` changes no walk. */
  lemma TrailAddEmptyBranchBeforePath(t: Trail, select: (Trail, Trail) -> bool)
    ensures Path(t.AddEmptyBranchBefore().store, select) == Path(t.store, select)
  {
  }
}
