/**
 Bidirectional synchronization as a pointwise three-way merge: the goal it aims at, and
 exactly when executing its plan reaches that goal.
 */
module Merging {
  import opened Common
  import opened Paths
  import opened FileTrees
  import opened SyncDomain
  import opened Inventories
  import opened Planners
  import opened PlanGoals

  /** A snapshot: both trees, the paths confirmed before, and the side that prevails where both differ. */
  datatype Scene = Scene(trees: Trees, recorded: set<string>, kept: string -> Side)

  /**
   One path of the merge: what both sides agree on, else the side that prevails; on one side
   only, it is new and kept, unless it was confirmed and so has been deleted on the other.
   */
  function MergedAt(s: Scene, p: string): Option<Node> {
    match (At(s.trees.first, p), At(s.trees.second, p))
    case (None, None) => None
    case (Some(n), None) => if p in s.recorded then None else Some(n)
    case (None, Some(n)) => if p in s.recorded then None else Some(n)
    case (Some(a), Some(b)) => if a == b then Some(a) else At(s.trees.Of(s.kept(p)), p)
  }

  function Merged(s: Scene): (t: Tree)
    ensures forall p :: At(t, p) == MergedAt(s, p)
  {
    var t := map p | p in s.trees.first.Keys + s.trees.second.Keys && MergedAt(s, p).Some? :: MergedAt(s, p).value;
    assert forall p :: At(t, p) == MergedAt(s, p);
    t
  }

  /** The planner's decision, read off the two trees. */
  function Ruling(s: Scene, p: string): Decision {
    match (At(s.trees.first, p), At(s.trees.second, p))
    case (None, None) => None
    case (Some(_), None) => Some(if p in s.recorded then DeleteFromFirst(p) else CopyToSecond(p))
    case (None, Some(_)) => Some(if p in s.recorded then DeleteFromSecond(p) else CopyToFirst(p))
    case (Some(a), Some(b)) => if a == b then None else Some(CopyActionForSide(p, s.kept(p)))
  }

  function Rulings(s: Scene, paths: seq<string>): (ds: seq<Decision>)
    ensures |ds| == |paths| && forall i :: 0 <= i < |ds| ==> ds[i] == Ruling(s, paths[i])
  {
    seq(|paths|, i requires 0 <= i < |paths| => Ruling(s, paths[i]))
  }

  /**
   A directory q and an entry p below it that one side lacks are ruled alike: under a
   one-sided directory both are new or both were confirmed; where the other side has a file
   instead of q, keeping the directory needs p to be new, and keeping the file needs p to be
   confirmed (and a platform that tolerates removing it a second time).
   */
  predicate SideAgrees(s: Scene, removesBelowFile: bool, side: Side, q: string, p: string) {
    var has, lacks := s.trees.Of(side), s.trees.Of(Opposite(side));
    p in has && p !in lacks ==>
      if q !in lacks then q in s.recorded <==> p in s.recorded
      else lacks[q].File? ==>
        if s.kept(q) == side then p !in s.recorded else p in s.recorded && removesBelowFile
  }

  predicate PairAgrees(s: Scene, removesBelowFile: bool, q: string, p: string) {
    SideAgrees(s, removesBelowFile, FirstSide, q, p) && SideAgrees(s, removesBelowFile, SecondSide, q, p)
  }

  ghost predicate Compatible(s: Scene, removesBelowFile: bool) {
    forall q, p :: Above(q, p) ==> PairAgrees(s, removesBelowFile, q, p)
  }

  ghost predicate AgreesBelow(s: Scene, removesBelowFile: bool, q: string) {
    forall p :: Above(q, p) ==> PairAgrees(s, removesBelowFile, q, p)
  }

  function Outcome(s: Scene, paths: seq<string>, removesBelowFile: bool): Option<Trees> {
    PerformAll(s.trees, PlanOf(Rulings(s, paths)), removesBelowFile)
  }

  predicate Converges(outcome: Option<Trees>) {
    outcome.Some? && outcome.value.first == outcome.value.second
  }

  ghost predicate Listed(s: Scene, paths: seq<string>) {
    s.trees.Valid() && Enumerates(paths, s.trees.first.Keys + s.trees.second.Keys)
  }

  lemma MergedBelow(s: Scene, removesBelowFile: bool, p: string, y: string)
    requires s.trees.Valid() && Above(p, y) && PairAgrees(s, removesBelowFile, p, y)
    requires Ruling(s, p).Some?
    ensures var a := Ruling(s, p).value;
            MergedAt(s, y) == if IsCopy(a) then At(s.trees.Of(Opposite(Target(a))), y) else None
    ensures !IsCopy(Ruling(s, p).value) ==> y !in s.trees.Of(Opposite(Target(Ruling(s, p).value)))
  {
  }

  lemma MergedParent(s: Scene, removesBelowFile: bool, r: string, p: string)
    requires s.trees.Valid() && Above(r, p) && PairAgrees(s, removesBelowFile, r, p)
    requires MergedAt(s, p).Some?
    ensures MergedAt(s, r) == Some(Directory)
  {
  }

  lemma RulingServes(s: Scene, removesBelowFile: bool, p: string)
    requires s.trees.Valid() && (p in s.trees.first || p in s.trees.second)
    requires AgreesBelow(s, removesBelowFile, p)
    requires forall r :: Above(r, p) ==> PairAgrees(s, removesBelowFile, r, p)
    ensures Serves(s.trees, Merged(s), p, Ruling(s, p))
  {
    var goal := Merged(s);
    assert At(goal, p) == MergedAt(s, p);
    if Ruling(s, p).Some? {
      var a := Ruling(s, p).value;
      var other := s.trees.Of(Opposite(Target(a)));
      forall y | Above(p, y)
        ensures At(goal, y) == if IsCopy(a) then At(other, y) else None
        ensures !IsCopy(a) ==> y !in other && y !in goal
      {
        MergedBelow(s, removesBelowFile, p, y);
        assert At(goal, y) == MergedAt(s, y);
      }
      if IsCopy(a) {
        forall r | Above(r, p) ensures At(goal, r) == Some(Directory) {
          MergedParent(s, removesBelowFile, r, p);
          assert At(goal, r) == MergedAt(s, r);
        }
      }
    }
  }

  lemma RulingsAchieve(s: Scene, paths: seq<string>, removesBelowFile: bool)
    requires Listed(s, paths) && Compatible(s, removesBelowFile)
    ensures Achievable(s.trees, Merged(s), paths, Rulings(s, paths))
  {
    var goal, ds := Merged(s), Rulings(s, paths);
    forall i | 0 <= i < |ds| ensures Serves(s.trees, goal, paths[i], ds[i]) {
      assert paths[i] in paths;
      RulingServes(s, removesBelowFile, paths[i]);
    }
    forall p | p in goal ensures p in s.trees.first.Keys + s.trees.second.Keys {
      assert At(goal, p) == MergedAt(s, p);
    }
  }

  lemma CompatibleMerges(s: Scene, paths: seq<string>, removesBelowFile: bool)
    requires Listed(s, paths) && Compatible(s, removesBelowFile)
    ensures Outcome(s, paths, removesBelowFile) == Some(Trees(Merged(s), Merged(s)))
  {
    var goal, ds := Merged(s), Rulings(s, paths);
    RulingsAchieve(s, paths, removesBelowFile);
    forall i | 0 <= i < |ds| && RemovesBelowFile(goal, ds[i]) ensures removesBelowFile {
      assert paths[i] in paths;
      RemovalTolerated(s, removesBelowFile, paths[i]);
    }
    PlanReachesGoal(s.trees, goal, paths, ds, removesBelowFile);
  }

  lemma RemovalTolerated(s: Scene, removesBelowFile: bool, p: string)
    requires s.trees.Valid() && Compatible(s, removesBelowFile)
    requires RemovesBelowFile(Merged(s), Ruling(s, p)) && p in s.trees.first.Keys + s.trees.second.Keys
    ensures removesBelowFile
  {
  }
}
