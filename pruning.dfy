/**
 * Detection and removal of incomplete timepoints
 * (`find_and_remove_incomplete_timepoints` in dcm_nii.py).
 *
 * The slice count of every timepoint group is taken, the largest count is the
 * size of a complete volume, every group with fewer slices is incomplete, and
 * the file of every record in an incomplete group is deleted. Deleting one
 * file is an oracle `deleteOk`: it says whether `os.remove` succeeds on that
 * path. A failed deletion is skipped and the remaining files are still tried.
 */
module Pruning {
  import opened Wrappers
  import opened Timepoints

  /** `slice_counts`: the number of slices of each timepoint. */
  function SliceCounts(g: Groups): (counts: map<Key, nat>)
    ensures counts.Keys == g.members.Keys
    ensures forall k :: k in counts ==> counts[k] == |g.members[k]|
  {
    map k | k in g.members :: |g.members[k]|
  }

  /** `max(slice_counts.values())` over the timepoints `ks`. */
  function MaxCount(ks: seq<Key>, counts: map<Key, nat>): (m: nat)
    requires |ks| > 0
    requires forall k :: k in ks ==> k in counts
    ensures forall k :: k in ks ==> counts[k] <= m
    ensures exists k :: k in ks && counts[k] == m
  {
    var first := ks[0];
    assert first in ks;
    if |ks| == 1 then counts[first]
    else
      var rest := MaxCount(ks[1..], counts);
      if counts[first] >= rest then counts[first] else rest
  }

  /** `incomplete_timepoints`: the timepoints of `ks`, in order, whose count is below `m`. */
  function IncompleteTimepoints(ks: seq<Key>, counts: map<Key, nat>, m: nat): (inc: seq<Key>)
    requires forall k :: k in ks ==> k in counts
    ensures forall k :: k in inc <==> k in ks && counts[k] < m
    ensures Distinct(ks) ==> Distinct(inc)
  {
    if ks == [] then []
    else
      var first := ks[0];
      assert first in ks;
      var rest := IncompleteTimepoints(ks[1..], counts, m);
      if counts[first] < m then [first] + rest else rest
  }

  /**
   * The incomplete list is shorter than `ks` when some timepoint reaches `m`,
   * and empty when all of them do.
   */
  lemma {:induction false} IncompleteTimepointsSize(ks: seq<Key>, counts: map<Key, nat>, m: nat)
    requires forall k :: k in ks ==> k in counts
    ensures |IncompleteTimepoints(ks, counts, m)| <= |ks|
    ensures (exists k :: k in ks && m <= counts[k]) ==> |IncompleteTimepoints(ks, counts, m)| < |ks|
    ensures (forall k :: k in ks ==> m <= counts[k]) ==> IncompleteTimepoints(ks, counts, m) == []
  {
    if ks != [] {
      var first := ks[0];
      assert first in ks;
      IncompleteTimepointsSize(ks[1..], counts, m);
      assert forall k :: k in ks[1..] ==> k in ks;
      if first !in ks[1..] || counts[first] < m {
        assert forall k :: k in ks && k != first ==> k in ks[1..];
      }
    }
  }

  /**
   * Positions of `sub` in `ks[1..]`, moved to positions in `ks`, with
   * position 0 put in front when `ks[0]` is kept.
   */
  lemma ShiftPositions(ks: seq<Key>, rest: seq<nat>, sub: seq<Key>, keep: bool, inc: seq<Key>)
    returns (idx: seq<nat>)
    requires |ks| > 0 && |rest| == |sub|
    requires forall i :: 0 <= i < |rest| ==> rest[i] < |ks| - 1 && ks[1..][rest[i]] == sub[i]
    requires forall i, j :: 0 <= i < j < |rest| ==> rest[i] < rest[j]
    requires inc == if keep then [ks[0]] + sub else sub
    ensures |idx| == |inc|
    ensures forall i :: 0 <= i < |idx| ==> idx[i] < |ks| && ks[idx[i]] == inc[i]
    ensures forall i, j :: 0 <= i < j < |idx| ==> idx[i] < idx[j]
  {
    var shifted := seq(|rest|, i requires 0 <= i < |rest| => rest[i] + 1);
    idx := if keep then [0] + shifted else shifted;
  }

  /**
   * The incomplete list keeps the order of `ks`: its entries sit at strictly
   * increasing positions of `ks`, which fixes the order of deletion.
   */
  lemma {:induction false} IncompleteTimepointsKeepOrder(ks: seq<Key>, counts: map<Key, nat>, m: nat)
    returns (idx: seq<nat>)
    requires forall k :: k in ks ==> k in counts
    ensures |idx| == |IncompleteTimepoints(ks, counts, m)|
    ensures forall i :: 0 <= i < |idx| ==> idx[i] < |ks| && ks[idx[i]] == IncompleteTimepoints(ks, counts, m)[i]
    ensures forall i, j :: 0 <= i < j < |idx| ==> idx[i] < idx[j]
  {
    if ks == [] {
      idx := [];
    } else {
      var first := ks[0];
      assert first in ks;
      assert forall k :: k in ks[1..] ==> k in ks;
      var tail := IncompleteTimepoints(ks[1..], counts, m);
      var inc := IncompleteTimepoints(ks, counts, m);
      assert inc == if counts[first] < m then [first] + tail else tail;
      var rest := IncompleteTimepointsKeepOrder(ks[1..], counts, m);
      idx := ShiftPositions(ks, rest, tail, counts[first] < m, inc);
    }
  }

  /**
   * `groups[t]` on the defaultdict: a missing key reads as an empty group.
   * The script would also insert that key; this never happens, because every
   * timepoint read in the removal loop is already a key (`IncompleteAreKeys`).
   */
  function GroupOf(g: Groups, t: Key): (group: seq<Record>)
    ensures t in g.members ==> group == g.members[t]
    ensures t !in g.members ==> group == []
  {
    if t in g.members then g.members[t] else []
  }

  function Paths(rs: seq<Record>): seq<string>
  {
    if rs == [] then [] else Paths(rs[..|rs| - 1]) + [rs[|rs| - 1].path]
  }

  /** The paths handed to `os.remove`: each listed timepoint in turn, each group in load order. */
  function AttemptedPaths(inc: seq<Key>, g: Groups): seq<string>
  {
    if inc == [] then [] else AttemptedPaths(inc[..|inc| - 1], g) + Paths(GroupOf(g, inc[|inc| - 1]))
  }

  /** The attempted paths whose deletion succeeded, in the order they were tried. */
  function Deleted(ps: seq<string>, deleteOk: string -> bool): seq<string>
  {
    if ps == [] then []
    else
      var prev := Deleted(ps[..|ps| - 1], deleteOk);
      if deleteOk(ps[|ps| - 1]) then prev + [ps[|ps| - 1]] else prev
  }

  /** A path is removed exactly when it was attempted and its deletion succeeded. */
  lemma {:induction false} DeletedExactly(ps: seq<string>, deleteOk: string -> bool)
    ensures forall p :: p in Deleted(ps, deleteOk) <==> p in ps && deleteOk(p)
  {
    if ps != [] {
      var front := ps[..|ps| - 1];
      assert ps == front + [ps[|ps| - 1]];
      DeletedExactly(front, deleteOk);
    }
  }

  lemma DeletedSnoc(ps: seq<string>, p: string, deleteOk: string -> bool)
    ensures Deleted(ps + [p], deleteOk) == Deleted(ps, deleteOk) + (if deleteOk(p) then [p] else [])
  {
    assert (ps + [p])[..|ps|] == ps;
  }

  lemma PathsSnoc(rs: seq<Record>, j: int)
    requires 0 <= j < |rs|
    ensures Paths(rs[..j + 1]) == Paths(rs[..j]) + [rs[j].path]
  {
    assert rs[..j + 1][..j] == rs[..j];
  }

  lemma AttemptedPathsSnoc(inc: seq<Key>, i: int, g: Groups)
    requires 0 <= i < |inc|
    ensures AttemptedPaths(inc[..i + 1], g) == AttemptedPaths(inc[..i], g) + Paths(GroupOf(g, inc[i]))
  {
    assert inc[..i + 1][..i] == inc[..i];
  }

  /**
   * The inner removal loop: tries every file of one group, in load order,
   * appending to the paths already tried and removed.
   */
  method RemoveGroupFiles(group: seq<Record>, deleteOk: string -> bool, removed0: seq<string>, attempted0: seq<string>)
    returns (removed: seq<string>, attempted: seq<string>)
    requires removed0 == Deleted(attempted0, deleteOk)
    ensures attempted == attempted0 + Paths(group)
    ensures removed == Deleted(attempted, deleteOk)
  {
    removed, attempted := removed0, attempted0;
    for j := 0 to |group|
      invariant attempted == attempted0 + Paths(group[..j])
      invariant removed == Deleted(attempted, deleteOk)
    {
      var path := group[j].path;
      DeletedSnoc(attempted, path, deleteOk);
      PathsSnoc(group, j);
      attempted := attempted + [path];
      if deleteOk(path) {
        removed := removed + [path];
      }
    }
    assert group[..|group|] == group;
  }

  /**
   * The removal loop: tries to delete the file of every record of every
   * timepoint in `incomplete`, collecting the paths it removed.
   */
  method RemoveFiles(incomplete: seq<Key>, groups: Groups, deleteOk: string -> bool)
    returns (removed: seq<string>, attempted: seq<string>)
    ensures attempted == AttemptedPaths(incomplete, groups)
    ensures removed == Deleted(attempted, deleteOk)
  {
    removed, attempted := [], [];
    for i := 0 to |incomplete|
      invariant attempted == AttemptedPaths(incomplete[..i], groups)
      invariant removed == Deleted(attempted, deleteOk)
    {
      removed, attempted := RemoveGroupFiles(GroupOf(groups, incomplete[i]), deleteOk, removed, attempted);
      AttemptedPathsSnoc(incomplete, i, groups);
    }
    assert incomplete[..|incomplete|] == incomplete;
  }

  // The pruning decision as functions of the loaded records

  function Counts(rs: seq<Record>): map<Key, nat>
  {
    SliceCounts(Grouping(rs))
  }

  /** The slice count of a complete volume. */
  function MaxSlices(rs: seq<Record>): nat
    requires rs != []
  {
    MaxCount(Grouping(rs).order, Counts(rs))
  }

  function Incomplete(rs: seq<Record>): seq<Key>
  {
    if rs == [] then [] else IncompleteTimepoints(Grouping(rs).order, Counts(rs), MaxSlices(rs))
  }

  /** Every path that pruning `rs` tries to delete, in order. */
  function Attempts(rs: seq<Record>): seq<string>
  {
    AttemptedPaths(Incomplete(rs), Grouping(rs))
  }

  /** What `find_and_remove_incomplete_timepoints` returns: `None` for no datasets. */
  function Prune(rs: seq<Record>, deleteOk: string -> bool): Option<seq<string>>
  {
    if rs == [] then None else Some(Deleted(Attempts(rs), deleteOk))
  }

  /** `find_and_remove_incomplete_timepoints` on the records its loader returned. */
  method FindAndRemoveIncompleteTimepoints(records: seq<Record>, deleteOk: string -> bool)
    returns (removed: Option<seq<string>>, attempted: seq<string>)
    ensures removed == Prune(records, deleteOk)
    ensures attempted == Attempts(records)
    ensures removed == None <==> records == []
    ensures records == [] ==> attempted == []
  {
    if records == [] {
      return None, [];
    }
    var groups := GroupByTimepoint(records);
    var sliceCounts := SliceCounts(groups);
    var maxSlices := MaxCount(groups.order, sliceCounts);
    var incomplete := IncompleteTimepoints(groups.order, sliceCounts, maxSlices);
    var files;
    files, attempted := RemoveFiles(incomplete, groups, deleteOk);
    removed := Some(files);
  }

  // Properties of the pruning decision

  /** The sum of the counts of the timepoints `ks`. */
  function CountSum(ks: seq<Key>, counts: map<Key, nat>): nat
  {
    if ks == [] then 0
    else CountSum(ks[..|ks| - 1], counts) + (if ks[|ks| - 1] in counts then counts[ks[|ks| - 1]] else 0)
  }

  lemma {:induction false} CountSumIsTotalSize(ks: seq<Key>, rs: seq<Record>)
    requires forall k :: k in ks ==> k in Counts(rs)
    ensures CountSum(ks, Counts(rs)) == TotalSize(ks, rs)
  {
    if ks != [] {
      var front := ks[..|ks| - 1];
      assert ks == front + [ks[|ks| - 1]];
      CountSumIsTotalSize(front, rs);
    }
  }

  /** The slice count of every timepoint is its group's size, and the counts add up to the records. */
  lemma SliceCountsAddUp(rs: seq<Record>)
    ensures forall k :: k in Counts(rs) <==> k in Grouping(rs).order
    ensures forall k :: k in Counts(rs) ==> Counts(rs)[k] == |Members(rs, k)|
    ensures CountSum(Grouping(rs).order, Counts(rs)) == |rs|
  {
    CountSumIsTotalSize(Grouping(rs).order, rs);
    GroupSizesAddUp(rs);
  }

  /**
   * No timepoint has more slices than the complete size, some timepoint has
   * exactly that many, and that one is never incomplete: pruning never
   * discards every group.
   */
  lemma SomeTimepointIsComplete(rs: seq<Record>)
    requires rs != []
    ensures forall t :: t in Grouping(rs).order ==> |Members(rs, t)| <= MaxSlices(rs)
    ensures exists t :: t in Grouping(rs).order && |Members(rs, t)| == MaxSlices(rs) && t !in Incomplete(rs)
    ensures |Incomplete(rs)| < |Grouping(rs).order|
  {
    var g := Grouping(rs);
    var m := MaxCount(g.order, Counts(rs));
    assert m == MaxSlices(rs);
    var t :| t in g.order && Counts(rs)[t] == m;
    assert t !in Incomplete(rs);
    IncompleteTimepointsSize(g.order, Counts(rs), m);
  }

  /** A timepoint is incomplete exactly when its group has fewer slices than the complete size. */
  lemma IncompleteIffBelowMax(rs: seq<Record>)
    requires rs != []
    ensures forall t :: t in Incomplete(rs) <==>
      (exists r :: r in rs && KeyOf(r) == t) && |Members(rs, t)| < MaxSlices(rs)
  {
    KeyOrderIsDistinctKeys(rs);
  }

  /** Every incomplete timepoint is a key of the groups, so reading its group inserts nothing. */
  lemma IncompleteAreKeys(rs: seq<Record>)
    ensures forall t :: t in Incomplete(rs) ==> t in Grouping(rs).members && GroupOf(Grouping(rs), t) != []
  {
    if rs != [] {
      GroupsAreNonEmpty(rs);
    }
  }

  /** The key of every record is one of the timepoints. */
  lemma KeyIsListed(rs: seq<Record>, r: Record)
    requires r in rs
    ensures KeyOf(r) in KeyOrder(rs) && KeyOf(r) in Counts(rs)
    ensures Counts(rs)[KeyOf(r)] == |Members(rs, KeyOf(r))|
  {
    KeyOrderIsDistinctKeys(rs);
  }

  lemma {:induction false} OneKeyOrder(rs: seq<Record>, k: Key)
    requires rs != []
    requires forall r :: r in rs ==> KeyOf(r) == k
    ensures KeyOrder(rs) == [k]
  {
    var n := |rs| - 1;
    var prefix := rs[..n];
    assert rs == prefix + [rs[n]];
    KeyOrderSnoc(prefix, rs[n]);
    assert rs[n] in rs;
    if prefix != [] {
      assert forall r :: r in prefix ==> r in rs;
      OneKeyOrder(prefix, k);
    }
  }

  /** When all records share one key there is one timepoint, and nothing is incomplete or removed. */
  lemma SingleTimepointRemovesNothing(rs: seq<Record>, deleteOk: string -> bool)
    requires rs != []
    requires forall i, j :: 0 <= i < |rs| && 0 <= j < |rs| ==> KeyOf(rs[i]) == KeyOf(rs[j])
    ensures |Grouping(rs).order| == 1
    ensures Incomplete(rs) == [] && Attempts(rs) == []
    ensures Prune(rs, deleteOk) == Some([])
  {
    OneKeyOrder(rs, KeyOf(rs[0]));
    SomeTimepointIsComplete(rs);
  }

  lemma {:induction false} PathsMembership(rs: seq<Record>, p: string)
    ensures p in Paths(rs) <==> exists r :: r in rs && r.path == p
  {
    if rs != [] {
      var front := rs[..|rs| - 1];
      assert rs == front + [rs[|rs| - 1]];
      PathsMembership(front, p);
    }
  }

  lemma {:induction false} AttemptedPathsMembership(inc: seq<Key>, g: Groups, p: string)
    ensures p in AttemptedPaths(inc, g) <==> exists t, r :: t in inc && r in GroupOf(g, t) && r.path == p
  {
    if inc != [] {
      var front := inc[..|inc| - 1];
      assert inc == front + [inc[|inc| - 1]];
      AttemptedPathsMembership(front, g, p);
      PathsMembership(GroupOf(g, inc[|inc| - 1]), p);
    }
  }

  lemma MembersMembership(rs: seq<Record>, k: Key, r: Record)
    ensures r in Members(rs, k) <==> r in rs && KeyOf(r) == k
  {
    MembersMultiplicity(rs, k, r);
  }

  /**
   * The removal loop tries the path of every record in an incomplete group,
   * and no other path.
   */
  lemma AttemptsExactly(rs: seq<Record>)
    requires rs != []
    ensures forall p :: p in Attempts(rs) <==>
      exists r :: r in rs && r.path == p && |Members(rs, KeyOf(r))| < MaxSlices(rs)
  {
    var g, inc := Grouping(rs), Incomplete(rs);
    forall p
      ensures p in Attempts(rs) <==>
        exists r :: r in rs && r.path == p && |Members(rs, KeyOf(r))| < MaxSlices(rs)
    {
      AttemptedPathsMembership(inc, g, p);
      if p in Attempts(rs) {
        var t, r :| t in inc && r in GroupOf(g, t) && r.path == p;
        MembersMembership(rs, t, r);
      }
      if exists r :: r in rs && r.path == p && |Members(rs, KeyOf(r))| < MaxSlices(rs) {
        var r :| r in rs && r.path == p && |Members(rs, KeyOf(r))| < MaxSlices(rs);
        KeyIsListed(rs, r);
        MembersMembership(rs, KeyOf(r), r);
        assert KeyOf(r) in inc && r in GroupOf(g, KeyOf(r));
      }
    }
  }

  /**
   * A path is in the returned list exactly when it belongs to a record of an
   * incomplete group and its deletion succeeded.
   */
  lemma RemovedExactly(rs: seq<Record>, deleteOk: string -> bool)
    requires rs != []
    ensures Prune(rs, deleteOk).Some?
    ensures forall p :: p in Prune(rs, deleteOk).value <==>
      (exists r :: r in rs && r.path == p && |Members(rs, KeyOf(r))| < MaxSlices(rs)) && deleteOk(p)
  {
    AttemptsExactly(rs);
    DeletedExactly(Attempts(rs), deleteOk);
  }

  /** No two records share a file, as the directory listing guarantees. */
  predicate PathsDistinct(rs: seq<Record>)
  {
    forall i, j :: 0 <= i < j < |rs| ==> rs[i].path != rs[j].path
  }

  /** With distinct files, a record's file is tried exactly when its timepoint is incomplete. */
  lemma AttemptedIffIncomplete(rs: seq<Record>)
    requires rs != [] && PathsDistinct(rs)
    ensures forall r :: r in rs ==> (r.path in Attempts(rs) <==> KeyOf(r) in Incomplete(rs))
  {
    AttemptsExactly(rs);
    forall r | r in rs && r.path in Attempts(rs)
      ensures KeyOf(r) in Incomplete(rs)
    {
      var r' :| r' in rs && r'.path == r.path && |Members(rs, KeyOf(r'))| < MaxSlices(rs);
      var i :| 0 <= i < |rs| && rs[i] == r;
      var j :| 0 <= j < |rs| && rs[j] == r';
      assert i == j;
      KeyIsListed(rs, r);
    }
  }

  /** No file of a complete timepoint is ever passed to the deletion. */
  lemma CompleteTimepointsUntouched(rs: seq<Record>)
    requires rs != [] && PathsDistinct(rs)
    ensures forall r :: r in rs && |Members(rs, KeyOf(r))| == MaxSlices(rs) ==> r.path !in Attempts(rs)
  {
    AttemptedIffIncomplete(rs);
  }

  /** The records whose files are still on disk once the paths in `removed` are gone. */
  function Survivors(rs: seq<Record>, removed: seq<string>): seq<Record>
  {
    if rs == [] then []
    else
      var prev := Survivors(rs[..|rs| - 1], removed);
      var last := rs[|rs| - 1];
      if last.path in removed then prev else prev + [last]
  }

  /** A record survives exactly when its path was not removed. */
  lemma {:induction false} SurvivorsMembership(rs: seq<Record>, removed: seq<string>)
    ensures forall r :: r in Survivors(rs, removed) <==> r in rs && r.path !in removed
  {
    if rs != [] {
      var front := rs[..|rs| - 1];
      assert rs == front + [rs[|rs| - 1]];
      SurvivorsMembership(front, removed);
    }
  }

  lemma {:induction false} MembersOfSurvivors(rs: seq<Record>, removed: seq<string>, inc: seq<Key>, k: Key)
    requires forall r :: r in rs ==> (r.path in removed <==> KeyOf(r) in inc)
    ensures Members(Survivors(rs, removed), k) == if k in inc then [] else Members(rs, k)
  {
    if rs != [] {
      var front, last := rs[..|rs| - 1], rs[|rs| - 1];
      assert rs == front + [last];
      assert last in rs;
      assert forall r :: r in front ==> r in rs;
      MembersOfSurvivors(front, removed, inc, k);
      MembersSnoc(front, last, k);
      if last.path !in removed {
        MembersSnoc(Survivors(front, removed), last, k);
      }
    }
  }

  /** When every deletion succeeds, a record's file is removed exactly when its timepoint is incomplete. */
  lemma FullyRemovedIffIncomplete(rs: seq<Record>, deleteOk: string -> bool)
    requires rs != [] && PathsDistinct(rs)
    requires forall p :: p in Attempts(rs) ==> deleteOk(p)
    ensures forall r :: r in rs ==> (r.path in Prune(rs, deleteOk).value <==> KeyOf(r) in Incomplete(rs))
  {
    DeletedExactly(Attempts(rs), deleteOk);
    AttemptedIffIncomplete(rs);
  }

  /** After a full prune, an incomplete timepoint has no records left; a complete one keeps all of its own. */
  lemma SurvivingGroups(rs: seq<Record>, deleteOk: string -> bool, k: Key)
    requires rs != [] && PathsDistinct(rs)
    requires forall p :: p in Attempts(rs) ==> deleteOk(p)
    ensures Members(Survivors(rs, Prune(rs, deleteOk).value), k) ==
      (if k in Incomplete(rs) then [] else Members(rs, k))
  {
    FullyRemovedIffIncomplete(rs, deleteOk);
    MembersOfSurvivors(rs, Prune(rs, deleteOk).value, Incomplete(rs), k);
  }

  /** The records that stay on disk after a full prune are exactly those of complete timepoints. */
  lemma SurvivorsAreComplete(rs: seq<Record>, deleteOk: string -> bool)
    requires rs != [] && PathsDistinct(rs)
    requires forall p :: p in Attempts(rs) ==> deleteOk(p)
    ensures forall r :: r in Survivors(rs, Prune(rs, deleteOk).value) <==>
      r in rs && |Members(rs, KeyOf(r))| == MaxSlices(rs)
  {
    var removed, inc, m := Prune(rs, deleteOk).value, Incomplete(rs), MaxSlices(rs);
    assert forall r :: r in rs ==> (r.path in removed <==> KeyOf(r) in inc) by {
      FullyRemovedIffIncomplete(rs, deleteOk);
    }
    assert forall t :: t in Grouping(rs).order ==> |Members(rs, t)| <= m by {
      SomeTimepointIsComplete(rs);
    }
    SurvivorsMembership(rs, removed);
    forall r | r in rs
      ensures r in Survivors(rs, removed) <==> |Members(rs, KeyOf(r))| == m
    {
      KeyIsListed(rs, r);
    }
  }

  /** A full prune always leaves some record on disk. */
  lemma SurvivorsNonEmpty(rs: seq<Record>, deleteOk: string -> bool)
    requires rs != [] && PathsDistinct(rs)
    requires forall p :: p in Attempts(rs) ==> deleteOk(p)
    ensures Survivors(rs, Prune(rs, deleteOk).value) != []
  {
    var m := MaxSlices(rs);
    var t :| t in Grouping(rs).order && |Members(rs, t)| == m && t !in Incomplete(rs) by {
      SomeTimepointIsComplete(rs);
    }
    var r :| r in Members(rs, t) by {
      GroupsAreNonEmpty(rs);
      assert Members(rs, t)[0] in Members(rs, t);
    }
    MembersMembership(rs, t, r);
    SurvivorsAreComplete(rs, deleteOk);
  }

  /** When every timepoint has the same count, nothing is incomplete and nothing is removed. */
  lemma EqualCountsRemoveNothing(rs: seq<Record>, m: nat, deleteOk: string -> bool)
    requires rs != []
    requires forall k :: k in Grouping(rs).order ==> Counts(rs)[k] == m
    ensures MaxSlices(rs) == m
    ensures Prune(rs, deleteOk) == Some([])
  {
    var g := Grouping(rs);
    var ms := MaxCount(g.order, Counts(rs));
    assert ms == MaxSlices(rs);
    var w :| w in g.order && Counts(rs)[w] == ms;
    IncompleteTimepointsSize(g.order, Counts(rs), ms);
  }

  /** After a full prune, every timepoint that still has records has the complete size. */
  lemma SurvivingCountsAreComplete(rs: seq<Record>, deleteOk: string -> bool)
    requires rs != [] && PathsDistinct(rs)
    requires forall p :: p in Attempts(rs) ==> deleteOk(p)
    ensures forall k :: k in Grouping(Survivors(rs, Prune(rs, deleteOk).value)).order ==>
      |Members(Survivors(rs, Prune(rs, deleteOk).value), k)| == MaxSlices(rs)
  {
    var m := MaxSlices(rs);
    var s := Survivors(rs, Prune(rs, deleteOk).value);
    KeyOrderIsDistinctKeys(s);
    forall k | k in Grouping(s).order
      ensures |Members(s, k)| == m
    {
      var x :| x in s && KeyOf(x) == k;
      assert x in rs && |Members(rs, k)| == m by {
        SurvivorsAreComplete(rs, deleteOk);
      }
      SurvivingGroups(rs, deleteOk, k);
      assert k !in Incomplete(rs);
    }
  }

  /**
   * When every deletion succeeds, pruning the records left on disk again
   * removes nothing: every remaining timepoint has the complete size.
   */
  lemma PruningIsIdempotent(rs: seq<Record>, deleteOk: string -> bool, deleteOkAgain: string -> bool)
    requires rs != [] && PathsDistinct(rs)
    requires forall p :: p in Attempts(rs) ==> deleteOk(p)
    ensures Prune(Survivors(rs, Prune(rs, deleteOk).value), deleteOkAgain) == Some([])
  {
    var s := Survivors(rs, Prune(rs, deleteOk).value);
    SurvivorsNonEmpty(rs, deleteOk);
    SurvivingCountsAreComplete(rs, deleteOk);
    KeyOrderIsDistinctKeys(s);
    EqualCountsRemoveNothing(s, MaxSlices(rs), deleteOkAgain);
  }

  // Independence from the order in which the records were loaded

  /** The size of a group depends on which records were loaded, not on their order. */
  lemma GroupSizeIsOrderFree(rs: seq<Record>, rs': seq<Record>, k: Key)
    requires multiset(rs) == multiset(rs')
    ensures |Members(rs, k)| == |Members(rs', k)|
  {
    forall r
      ensures multiset(Members(rs, k))[r] == multiset(Members(rs', k))[r]
    {
      MembersMultiplicity(rs, k, r);
      MembersMultiplicity(rs', k, r);
    }
    assert multiset(Members(rs, k)) == multiset(Members(rs', k));
  }

  /** Reordering the records leaves the set of timepoints unchanged. */
  lemma TimepointsAreOrderFree(rs: seq<Record>, rs': seq<Record>)
    requires multiset(rs) == multiset(rs')
    ensures forall k :: k in Grouping(rs).order <==> k in Grouping(rs').order
  {
    KeyOrderIsDistinctKeys(rs);
    KeyOrderIsDistinctKeys(rs');
    forall r
      ensures r in rs <==> r in rs'
    {
      assert r in rs <==> r in multiset(rs);
      assert r in rs' <==> r in multiset(rs');
    }
  }

  /** Reordering the records leaves the complete size unchanged. */
  lemma MaxSlicesIsOrderFree(rs: seq<Record>, rs': seq<Record>)
    requires rs != [] && multiset(rs) == multiset(rs')
    ensures rs' != []
    ensures MaxSlices(rs) == MaxSlices(rs')
  {
    assert |rs'| == |multiset(rs')| == |multiset(rs)| == |rs|;
    TimepointsAreOrderFree(rs, rs');
    SomeTimepointIsComplete(rs);
    SomeTimepointIsComplete(rs');
    var t :| t in Grouping(rs).order && |Members(rs, t)| == MaxSlices(rs) && t !in Incomplete(rs);
    var t' :| t' in Grouping(rs').order && |Members(rs', t')| == MaxSlices(rs') && t' !in Incomplete(rs');
    GroupSizeIsOrderFree(rs, rs', t);
    GroupSizeIsOrderFree(rs, rs', t');
  }

  /**
   * Which timepoints are incomplete is a function of the group sizes alone:
   * any reordering of the loaded records finds the same incomplete timepoints.
   */
  lemma IncompleteIsOrderFree(rs: seq<Record>, rs': seq<Record>)
    requires multiset(rs) == multiset(rs')
    ensures forall t :: t in Incomplete(rs) <==> t in Incomplete(rs')
  {
    if rs == [] {
      assert |rs'| == |multiset(rs')| == 0;
    } else {
      MaxSlicesIsOrderFree(rs, rs');
      IncompleteIffBelowMax(rs);
      IncompleteIffBelowMax(rs');
      TimepointsAreOrderFree(rs, rs');
      KeyOrderIsDistinctKeys(rs);
      KeyOrderIsDistinctKeys(rs');
      forall t
        ensures |Members(rs, t)| == |Members(rs', t)|
      {
        GroupSizeIsOrderFree(rs, rs', t);
      }
    }
  }

  /** Any reordering of the loaded records tries to delete the same files. */
  lemma AttemptsAreOrderFree(rs: seq<Record>, rs': seq<Record>)
    requires multiset(rs) == multiset(rs')
    ensures forall p :: p in Attempts(rs) <==> p in Attempts(rs')
  {
    if rs == [] {
      assert |rs'| == |multiset(rs')| == 0;
    } else {
      MaxSlicesIsOrderFree(rs, rs');
      AttemptsExactly(rs);
      AttemptsExactly(rs');
      forall r
        ensures r in rs <==> r in rs'
        ensures |Members(rs, KeyOf(r))| == |Members(rs', KeyOf(r))|
      {
        assert r in rs <==> r in multiset(rs);
        assert r in rs' <==> r in multiset(rs');
        GroupSizeIsOrderFree(rs, rs', KeyOf(r));
      }
    }
  }

  /** Any reordering of the loaded records removes the same files. */
  lemma RemovedIsOrderFree(rs: seq<Record>, rs': seq<Record>, deleteOk: string -> bool)
    requires multiset(rs) == multiset(rs')
    ensures Prune(rs, deleteOk).None? <==> Prune(rs', deleteOk).None?
    ensures rs != [] ==> forall p :: p in Prune(rs, deleteOk).value <==> p in Prune(rs', deleteOk).value
  {
    assert |rs'| == |multiset(rs')| == |multiset(rs)| == |rs|;
    AttemptsAreOrderFree(rs, rs');
    DeletedExactly(Attempts(rs), deleteOk);
    DeletedExactly(Attempts(rs'), deleteOk);
  }

  /**
   * When every deletion succeeds, pruning the records left on disk again, in
   * whatever order they are loaded the second time, removes nothing.
   */
  lemma PruningIsIdempotentInAnyOrder(rs: seq<Record>, deleteOk: string -> bool,
                                      again: seq<Record>, deleteOkAgain: string -> bool)
    requires rs != [] && PathsDistinct(rs)
    requires forall p :: p in Attempts(rs) ==> deleteOk(p)
    requires multiset(again) == multiset(Survivors(rs, Prune(rs, deleteOk).value))
    ensures Prune(again, deleteOkAgain) == Some([])
  {
    var s := Survivors(rs, Prune(rs, deleteOk).value);
    SurvivorsNonEmpty(rs, deleteOk);
    SurvivingCountsAreComplete(rs, deleteOk);
    MaxSlicesIsOrderFree(s, again);
    TimepointsAreOrderFree(s, again);
    KeyOrderIsDistinctKeys(again);
    forall k | k in Grouping(again).order
      ensures Counts(again)[k] == MaxSlices(rs)
    {
      GroupSizeIsOrderFree(s, again, k);
    }
    EqualCountsRemoveNothing(again, MaxSlices(rs), deleteOkAgain);
  }

  function Slice(timepoint: int, path: string): Record
  {
    Record(map[TemporalPositionIdentifier := IntValue(timepoint)], path)
  }

  /** Five slices: A, B and C at timepoint 1, D and E at timepoint 2. */
  function ExampleSlices(): seq<Record>
  {
    [Slice(1, "A"), Slice(1, "B"), Slice(1, "C"), Slice(2, "D"), Slice(2, "E")]
  }

  lemma ExampleGrouping()
    ensures KeyOrder(ExampleSlices()) == [1.0, 2.0]
    ensures Members(ExampleSlices(), 1.0) == [Slice(1, "A"), Slice(1, "B"), Slice(1, "C")]
    ensures Members(ExampleSlices(), 2.0) == [Slice(2, "D"), Slice(2, "E")]
  {
    var a, b, c := Slice(1, "A"), Slice(1, "B"), Slice(1, "C");
    var d, e := Slice(2, "D"), Slice(2, "E");
    assert KeyOf(a) == 1.0 && KeyOf(b) == 1.0 && KeyOf(c) == 1.0;
    assert KeyOf(d) == 2.0 && KeyOf(e) == 2.0;
    var r1, r2, r3, r4 := [a], [a, b], [a, b, c], [a, b, c, d];
    assert r1 == [] + [a] && r2 == r1 + [b] && r3 == r2 + [c] && r4 == r3 + [d];
    assert ExampleSlices() == r4 + [e];
    assert KeyOrder(r1) == [1.0] by { KeyOrderSnoc([], a); }
    assert KeyOrder(r2) == [1.0] by { KeyOrderSnoc(r1, b); }
    assert KeyOrder(r3) == [1.0] by { KeyOrderSnoc(r2, c); }
    assert KeyOrder(r4) == [1.0, 2.0] by { KeyOrderSnoc(r3, d); }
    KeyOrderSnoc(r4, e);
    assert Members(r1, 1.0) == [a] by { MembersSnoc([], a, 1.0); }
    assert Members(r2, 1.0) == [a, b] by { MembersSnoc(r1, b, 1.0); }
    assert Members(r3, 1.0) == [a, b, c] by { MembersSnoc(r2, c, 1.0); }
    assert Members(r4, 1.0) == [a, b, c] by { MembersSnoc(r3, d, 1.0); }
    MembersSnoc(r4, e, 1.0);
    assert Members(r3, 2.0) == [] by {
      MembersSnoc([], a, 2.0);
      MembersSnoc(r1, b, 2.0);
      MembersSnoc(r2, c, 2.0);
    }
    assert Members(r4, 2.0) == [d] by { MembersSnoc(r3, d, 2.0); }
    MembersSnoc(r4, e, 2.0);
  }

  /**
   * Pruning the five slices: timepoint 2 has fewer slices than timepoint 1,
   * so the files "D" and "E" are tried and removed, in load order, and
   * nothing of timepoint 1 is touched.
   */
  lemma ExamplePrune(deleteOk: string -> bool)
    requires deleteOk("D") && deleteOk("E")
    ensures Incomplete(ExampleSlices()) == [2.0]
    ensures Attempts(ExampleSlices()) == ["D", "E"]
    ensures Prune(ExampleSlices(), deleteOk) == Some(["D", "E"])
  {
    var rs := ExampleSlices();
    ExampleGrouping();
    var g := Grouping(rs);
    assert g.order == [1.0, 2.0];
    assert Counts(rs)[1.0] == 3 && Counts(rs)[2.0] == 2;
    assert MaxSlices(rs) == 3 by {
      assert [1.0, 2.0][1..] == [2.0];
    }
    assert Incomplete(rs) == [2.0] by {
      assert [1.0, 2.0][1..] == [2.0] && [2.0][1..] == [];
    }
    var d, e := rs[3], rs[4];
    assert GroupOf(g, 2.0) == [d, e];
    assert d.path == "D" && e.path == "E";
    assert Paths([d]) == ["D"] by {
      assert [d][..0] == [];
    }
    assert Paths([d, e]) == ["D", "E"] by {
      assert [d, e][..1] == [d];
    }
    assert Attempts(rs) == ["D", "E"] by {
      assert [2.0][..0] == [];
    }
    assert Deleted(["D", "E"], deleteOk) == ["D", "E"] by {
      assert ["D", "E"][..1] == ["D"] && ["D"][..0] == [];
    }
  }
}
