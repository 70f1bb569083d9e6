/** Unidirectional and authoritative synchronization: one side becomes a copy of the other. */
module Mirroring {
  import opened Common
  import opened Paths
  import opened FileTrees
  import opened SyncDomain
  import opened Inventories
  import opened Planners
  import opened PlanGoals

  /** A regular file is to replace a directory that has contents. */
  ghost predicate FileReplacesFullDirectory(source: Tree, destination: Tree) {
    exists q, p :: Above(q, p) && p in destination && q in source && source[q].File?
  }

  function MirrorPlan(trees: Trees, paths: seq<string>, side: Side,
                      firstTimes: string -> int, secondTimes: string -> int): seq<Action> {
    PlanOf(AuthoritativeDecisions(
      CompareAll(InventoryOf(trees.first, firstTimes), InventoryOf(trees.second, secondTimes), paths), side))
  }

  /**
   The authoritative plan makes the other side an exact copy and leaves the authoritative
   side alone, for all trees, unless a platform that refuses to remove below a regular file
   meets a directory with contents that a file replaces; then, and only then, it fails.
   */
  lemma MirrorIsExact(trees: Trees, paths: seq<string>, side: Side,
                      firstTimes: string -> int, secondTimes: string -> int, removesBelowFile: bool)
    requires trees.Valid() && Enumerates(paths, trees.first.Keys + trees.second.Keys)
    ensures PerformAll(trees, MirrorPlan(trees, paths, side, firstTimes, secondTimes), removesBelowFile) ==
            if removesBelowFile || !FileReplacesFullDirectory(trees.Of(side), trees.Of(Opposite(side)))
            then Some(Trees(trees.Of(side), trees.Of(side))) else None
  {
    var ds := MirrorDecisions(trees, paths, side, firstTimes, secondTimes);
    var goal := trees.Of(side);
    forall i | 0 <= i < |ds| ensures Serves(trees, goal, paths[i], ds[i]) {
      assert paths[i] in paths;
      MirrorDecisionServes(trees, paths[i], side, firstTimes, secondTimes);
    }
    PlanReachesGoal(trees, goal, paths, ds, removesBelowFile);
    MirrorBlocked(trees, paths, side, firstTimes, secondTimes);
  }

  function MirrorDecisions(trees: Trees, paths: seq<string>, side: Side,
                           firstTimes: string -> int, secondTimes: string -> int): (ds: seq<Decision>)
    ensures |ds| == |paths|
  {
    AuthoritativeDecisions(
      CompareAll(InventoryOf(trees.first, firstTimes), InventoryOf(trees.second, secondTimes), paths), side)
  }

  lemma MirrorBlocked(trees: Trees, paths: seq<string>, side: Side,
                      firstTimes: string -> int, secondTimes: string -> int)
    requires trees.Valid() && Enumerates(paths, trees.first.Keys + trees.second.Keys)
    ensures Blocked(trees.Of(side), MirrorDecisions(trees, paths, side, firstTimes, secondTimes)) <==>
            FileReplacesFullDirectory(trees.Of(side), trees.Of(Opposite(side)))
  {
    var ds := MirrorDecisions(trees, paths, side, firstTimes, secondTimes);
    var goal, other := trees.Of(side), trees.Of(Opposite(side));
    forall i | 0 <= i < |ds|
      ensures RemovesBelowFile(goal, ds[i]) <==> paths[i] !in goal && BelowFile(goal, paths[i])
    {
      assert paths[i] in paths;
      MirrorDecisionServes(trees, paths[i], side, firstTimes, secondTimes);
    }
    if Blocked(goal, ds) {
      var i :| 0 <= i < |ds| && RemovesBelowFile(goal, ds[i]);
      assert paths[i] in paths;
      BelowFileIsReplaced(goal, other, paths[i]);
    }
    if FileReplacesFullDirectory(goal, other) {
      var p := ReplacedEntry(goal, other);
      assert p in paths;
      var i :| 0 <= i < |paths| && paths[i] == p;
      assert RemovesBelowFile(goal, ds[i]);
    }
  }

  lemma BelowFileIsReplaced(goal: Tree, other: Tree, p: string)
    requires p in other && BelowFile(goal, p)
    ensures FileReplacesFullDirectory(goal, other)
  {
  }

  lemma ReplacedEntry(goal: Tree, other: Tree) returns (p: string)
    requires IsTree(goal) && FileReplacesFullDirectory(goal, other)
    ensures p in other && p !in goal && BelowFile(goal, p)
  {
    var q, x :| Above(q, x) && x in other && q in goal && goal[q].File?;
    p := x;
    assert q in Ancestors(p);
  }

  lemma MirrorDecisionServes(trees: Trees, path: string, side: Side,
                             firstTimes: string -> int, secondTimes: string -> int)
    requires trees.Valid() && path in trees.first.Keys + trees.second.Keys
    ensures var d := AuthoritativeDecision(
              CompareAt(InventoryOf(trees.first, firstTimes), InventoryOf(trees.second, secondTimes), path), side);
            && Serves(trees, trees.Of(side), path, d)
            && (d.Some? ==> Target(d.value) == Opposite(side))
            && (d.Some? && !IsCopy(d.value) <==> path !in trees.Of(side))
  {
    MirrorDecisionIs(trees, path, side, firstTimes, secondTimes);
  }

  /** The decision read off the two trees. */
  lemma MirrorDecisionIs(trees: Trees, path: string, side: Side,
                         firstTimes: string -> int, secondTimes: string -> int)
    requires path in trees.first.Keys + trees.second.Keys
    ensures AuthoritativeDecision(
              CompareAt(InventoryOf(trees.first, firstTimes), InventoryOf(trees.second, secondTimes), path), side) ==
            if path !in trees.Of(side) then Some(DeleteActionForSide(path, Opposite(side)))
            else if At(trees.Of(Opposite(side)), path) == At(trees.Of(side), path) then None
            else Some(CopyActionForSide(path, side))
  {
    var first, second := InventoryOf(trees.first, firstTimes), InventoryOf(trees.second, secondTimes);
    assert path in trees.first ==> first[path] == EntryOf(path, trees.first[path], firstTimes(path));
    assert path in trees.second ==> second[path] == EntryOf(path, trees.second[path], secondTimes(path));
  }

  /** The unidirectional plan is the mirror of the first side. */
  lemma UnidirectionalPlanMirrors(trees: Trees, paths: seq<string>,
                                  firstTimes: string -> int, secondTimes: string -> int, removesBelowFile: bool)
    requires trees.Valid() && Enumerates(paths, trees.first.Keys + trees.second.Keys)
    ensures var cs := CompareAll(InventoryOf(trees.first, firstTimes), InventoryOf(trees.second, secondTimes), paths);
            PerformAll(trees, PlanOf(UnidirectionalDecisions(cs)), removesBelowFile) ==
            if removesBelowFile || !FileReplacesFullDirectory(trees.first, trees.second)
            then Some(Trees(trees.first, trees.first)) else None
  {
    var cs := CompareAll(InventoryOf(trees.first, firstTimes), InventoryOf(trees.second, secondTimes), paths);
    AuthoritativeFirstIsUnidirectional(cs);
    MirrorIsExact(trees, paths, FirstSide, firstTimes, secondTimes, removesBelowFile);
  }
}
