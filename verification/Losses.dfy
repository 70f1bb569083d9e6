/**
 What a bidirectional plan can destroy: exactly which new entries are lost, wherever it stops
 and whether or not its snapshot is compatible.
 */
module Losses {
  import opened Common
  import opened Paths
  import opened FileTrees
  import opened SyncDomain
  import opened Planners
  import opened PlanGoals
  import opened Merging
  import opened Divergence
  import opened Executor

  /**
   The action at q removes from `side` a new entry p that only this side has: q was confirmed
   and is gone from the other side, or is a file there that prevails.
   */
  predicate Destroys(s: Scene, side: Side, q: string, p: string) {
    var has, lacks := s.trees.Of(side), s.trees.Of(Opposite(side));
    && Above(q, p) && p in has && p !in lacks && p !in s.recorded
    && if q in lacks then lacks[q].File? && s.kept(q) == Opposite(side) else q in s.recorded
  }

  /** No directory above q is acted on. */
  ghost predicate NoneActedAbove(s: Scene, q: string) {
    forall r :: Above(r, q) ==> Ruling(s, r).None?
  }

  /** q destroys p, and no directory above q is copied whole before. */
  ghost predicate DestroysFirst(s: Scene, side: Side, q: string, p: string) {
    Destroys(s, side, q, p) && NoneActedAbove(s, q)
  }

  /** What the merge holds at p, this side had from the start. */
  predicate Holds(s: Scene, side: Side, p: string) {
    MergedAt(s, p).Some? && At(s.trees.Of(side), p) == MergedAt(s, p)
  }

  /** Every side still has what it had of the merge. */
  ghost predicate HoldersKept(s: Scene, now: Trees) {
    forall side: Side, p :: Holds(s, side, p) ==> At(now.Of(side), p) == MergedAt(s, p)
  }

  /** Everything the merge holds is on some side. */
  ghost predicate MergeKept(s: Scene, now: Trees) {
    forall p :: MergedAt(s, p).Some? ==> At(now.first, p) == MergedAt(s, p) || At(now.second, p) == MergedAt(s, p)
  }

  /** A compatible snapshot destroys nothing. */
  lemma CompatibleDestroysNothing(s: Scene, removesBelowFile: bool, side: Side, q: string, p: string)
    requires Compatible(s, removesBelowFile)
    ensures !Destroys(s, side, q, p)
  {
    if Above(q, p) { assert PairAgrees(s, removesBelowFile, q, p); }
  }

  // ----- running a prefix of the plan -----

  /** Both trees after the actions at the first m paths, without faults. */
  function AfterPaths(s: Scene, paths: seq<string>, flag: bool, m: nat): Option<Trees>
    requires m <= |paths|
  {
    PerformAll(s.trees, PlanOf(Rulings(s, paths)[..m]), flag)
  }

  lemma NextPath(s: Scene, paths: seq<string>, flag: bool, m: nat)
    requires m < |paths|
    ensures AfterPaths(s, paths, flag, m + 1) ==
            var mid := AfterPaths(s, paths, flag, m);
            if mid.None? || Ruling(s, paths[m]).None? then mid else Perform(mid.value, Ruling(s, paths[m]).value, flag)
  {
    var ds := Rulings(s, paths);
    assert ds[..m + 1] == ds[..m] + [ds[m]];
    PlanOfAppend(ds[..m], ds[m]);
    var plan, n := PlanOf(ds[..m + 1]), |PlanOf(ds[..m])|;
    if ds[m].Some? {
      assert plan[..n] == PlanOf(ds[..m]) && plan[..n + 1] == plan && plan[n] == ds[m].value;
      PerformNext(s.trees, plan, n, flag);
    } else {
      assert plan == PlanOf(ds[..m]);
    }
  }

  /** From before path i to behind it. */
  predicate StepTo(s: Scene, paths: seq<string>, flag: bool, i: nat, before: Trees, after: Trees)
    requires i < |paths|
  {
    if Ruling(s, paths[i]).None? then after == before
    else Perform(before, Ruling(s, paths[i]).value, flag) == Some(after)
  }

  /** What holds at the start and is kept from path to path, holds behind every path the plan reaches. */
  lemma {:induction false} PathByPath(s: Scene, paths: seq<string>, flag: bool, m: nat, holds: (nat, Trees) -> bool)
    requires m <= |paths| && holds(0, s.trees)
    requires forall i: nat, before, after
      | i < m && AfterPaths(s, paths, flag, i) == Some(before) && holds(i, before)
        && StepTo(s, paths, flag, i, before, after)
      :: holds(i + 1, after)
    ensures AfterPaths(s, paths, flag, m).Some? ==> holds(m, AfterPaths(s, paths, flag, m).value)
  {
    if m == 0 {
    } else {
      PathByPath(s, paths, flag, m - 1, holds);
      NextPath(s, paths, flag, m - 1);
      if AfterPaths(s, paths, flag, m).Some? {
        assert StepTo(s, paths, flag, m - 1, AfterPaths(s, paths, flag, m - 1).value,
                      AfterPaths(s, paths, flag, m).value);
      }
    }
  }

  lemma PathsKeepTrees(s: Scene, paths: seq<string>, flag: bool, m: nat)
    requires s.trees.Valid() && m <= |paths|
    ensures AfterPaths(s, paths, flag, m).Some? ==> AfterPaths(s, paths, flag, m).value.Valid()
  {
    forall i: nat, before: Trees, after: Trees | i < m && before.Valid() && StepTo(s, paths, flag, i, before, after)
      ensures after.Valid()
    {
      if Ruling(s, paths[i]).Some? { PerformKeepsTrees(before, Ruling(s, paths[i]).value, flag); }
    }
    PathByPath(s, paths, flag, m, (i, now: Trees) => now.Valid());
  }

  /** An action that succeeds has done part of its work, too. */
  lemma PerformIsLeft(now: Trees, a: Action, flag: bool)
    requires Perform(now, a, flag).Some?
    ensures LeftAt(now, Perform(now, a, flag).value, a)
  {
  }

  lemma StepIsLeft(s: Scene, paths: seq<string>, flag: bool, i: nat, before: Trees, after: Trees)
    requires i < |paths| && StepTo(s, paths, flag, i, before, after)
    ensures if Ruling(s, paths[i]).None? then after == before else LeftAt(before, after, Ruling(s, paths[i]).value)
  {
    if Ruling(s, paths[i]).Some? { PerformIsLeft(before, Ruling(s, paths[i]).value, flag); }
  }

  /** The plan stops at path m, with the action there done, not begun, or cut short. */
  ghost predicate StopsAt(s: Scene, paths: seq<string>, flag: bool, m: nat, after: Trees) {
    && m < |paths| && Ruling(s, paths[m]).Some? && AfterPaths(s, paths, flag, m).Some?
    && LeftAt(AfterPaths(s, paths, flag, m).value, after, Ruling(s, paths[m]).value)
  }

  /** The action with a given number is the ruling at some path, and those before are the rulings before. */
  lemma {:induction false} ActionAt(ds: seq<Decision>, done: nat) returns (m: nat)
    requires done < |PlanOf(ds)|
    ensures m < |ds| && ds[m] == Some(PlanOf(ds)[done]) && PlanOf(ds[..m]) == PlanOf(ds)[..done]
    decreases |ds|
  {
    var last := |ds| - 1;
    assert ds == ds[..last] + [ds[last]];
    PlanOfAppend(ds[..last], ds[last]);
    if done < |PlanOf(ds[..last])| {
      m := ActionAt(ds[..last], done);
      assert ds[..last][..m] == ds[..m];
    } else {
      m := last;
    }
  }

  // ----- what an action spares -----

  lemma RulingPath(s: Scene, q: string)
    requires Ruling(s, q).Some?
    ensures Ruling(s, q).value.relativePath == q
  {
  }

  /** What touches an entry of the merge on a side that has had it from the start, destroys it. */
  lemma OnlyDestroyerTouches(s: Scene, side: Side, q: string, p: string)
    requires s.trees.Valid() && Holds(s, side, p) && Within(q, p)
    requires Ruling(s, q).Some? && Target(Ruling(s, q).value) == side
    ensures Destroys(s, side, q, p)
  {
  }

  lemma HolderSpared(s: Scene, before: Trees, after: Trees, side: Side, q: string, p: string)
    requires s.trees.Valid() && Holds(s, side, p) && !Destroys(s, side, q, p)
    requires Ruling(s, q).Some? && LeftAt(before, after, Ruling(s, q).value)
    requires At(before.Of(side), p) == MergedAt(s, p)
    ensures At(after.Of(side), p) == MergedAt(s, p)
  {
    RulingPath(s, q);
    if Within(q, p) && Target(Ruling(s, q).value) == side { OnlyDestroyerTouches(s, side, q, p); }
  }

  // ----- nothing destroyed: every side keeps its own -----

  ghost predicate DestroysNothing(s: Scene) {
    forall side: Side, q, p :: !Destroys(s, side, q, p)
  }

  lemma HolderKeptSoFar(s: Scene, paths: seq<string>, flag: bool, m: nat, side: Side, p: string)
    requires s.trees.Valid() && DestroysNothing(s) && Holds(s, side, p) && m <= |paths|
    ensures var now := AfterPaths(s, paths, flag, m);
            now.Some? ==> At(now.value.Of(side), p) == MergedAt(s, p)
  {
    forall i: nat, before: Trees, after: Trees
      | i < m && At(before.Of(side), p) == MergedAt(s, p) && StepTo(s, paths, flag, i, before, after)
      ensures At(after.Of(side), p) == MergedAt(s, p)
    {
      StepIsLeft(s, paths, flag, i, before, after);
      if Ruling(s, paths[i]).Some? { HolderSpared(s, before, after, side, paths[i], p); }
    }
    PathByPath(s, paths, flag, m, (i, now: Trees) => At(now.Of(side), p) == MergedAt(s, p));
  }

  /** Wherever the plan stops, every side still has what it had of the merge. */
  lemma StopKeepsHolders(s: Scene, paths: seq<string>, flag: bool, m: nat, after: Trees)
    requires s.trees.Valid() && DestroysNothing(s) && StopsAt(s, paths, flag, m, after)
    ensures HoldersKept(s, after)
  {
    forall side: Side, p | Holds(s, side, p) ensures At(after.Of(side), p) == MergedAt(s, p) {
      HolderKeptSoFar(s, paths, flag, m, side, p);
      HolderSpared(s, AfterPaths(s, paths, flag, m).value, after, side, paths[m], p);
    }
  }

  // ----- some things destroyed: which are lost -----

  /** One of the first n paths lies above p and is acted on. */
  ghost predicate ActedAbove(s: Scene, paths: seq<string>, n: nat, p: string)
    requires n <= |paths|
  {
    exists j :: 0 <= j < n && Above(paths[j], p) && Ruling(s, paths[j]).Some?
  }

  /** Nothing from r down was on the other side. */
  ghost predicate OneSidedFrom(s: Scene, side: Side, r: string) {
    forall y :: Within(r, y) ==> y !in s.trees.Of(Opposite(side))
  }

  ghost predicate GoneFrom(t: Tree, r: string) {
    forall y :: Within(r, y) ==> y !in t
  }

  /** One of the first n paths lies above p, was one-sided, and has been removed with all below it. */
  ghost predicate GoneAbove(s: Scene, paths: seq<string>, n: nat, now: Trees, side: Side, p: string)
    requires n <= |paths|
  {
    exists j :: 0 <= j < n && Above(paths[j], p) && OneSidedFrom(s, side, paths[j]) && GoneFrom(now.Of(side), paths[j])
  }

  /**
   p after n paths: still where it was, and copied to the other side once a directory above it
   was acted on; or there only, and where it was nothing can be copied from any more.
   */
  ghost predicate Survives(s: Scene, paths: seq<string>, n: nat, now: Trees, side: Side, p: string)
    requires n <= |paths|
  {
    || (At(now.Of(side), p) == MergedAt(s, p)
        && (ActedAbove(s, paths, n, p) ==> At(now.Of(Opposite(side)), p) == MergedAt(s, p)))
    || (At(now.Of(Opposite(side)), p) == MergedAt(s, p) && GoneAbove(s, paths, n, now, side, p))
  }

  /** A directory above an entry of the merge is acted on by a copy from the entry's side, or destroys the entry. */
  lemma ActionAbove(s: Scene, side: Side, q: string, p: string)
    requires s.trees.Valid() && Holds(s, side, p) && Above(q, p) && Ruling(s, q).Some?
    ensures OneSidedFrom(s, side, p) && p in s.trees.Of(side)
    ensures Ruling(s, q).value == CopyActionForSide(q, side) || Destroys(s, side, q, p)
    ensures Destroys(s, side, q, p) && q !in s.trees.Of(Opposite(side)) ==>
              OneSidedFrom(s, side, q) && Ruling(s, q).value == DeleteActionForSide(q, side)
    ensures Destroys(s, side, q, p) && q in s.trees.Of(Opposite(side)) ==>
              NoneActedAbove(s, q) && Ruling(s, q).value == CopyActionForSide(q, Opposite(side))
  {
  }

  /** The first directory above p to be acted on has none above it that is. */
  lemma FirstActed(s: Scene, paths: seq<string>, n: nat, side: Side, p: string)
    requires Listed(s, paths) && n < |paths| && Above(paths[n], p) && p in s.trees.Of(side)
    requires !ActedAbove(s, paths, n, p)
    ensures NoneActedAbove(s, paths[n])
  {
    forall r | Above(r, paths[n]) ensures Ruling(s, r).None? {
      AboveTransitive(r, paths[n], p);
      ParentListed(s.trees, paths, paths[n], r);
      EarlierThan(paths, r, n);
    }
  }

  lemma EarlierThan(paths: seq<string>, r: string, n: nat)
    requires StrictlySorted(paths) && n < |paths| && r in paths && Above(r, paths[n])
    ensures exists j :: 0 <= j < n && paths[j] == r
  {
    var j :| 0 <= j < |paths| && paths[j] == r;
    AboveLess(r, paths[n]);
    assert j < n;
  }

  /** What is gone on its side stays gone: the other side never had anything there to bring back. */
  lemma GoneStays(s: Scene, before: Trees, after: Trees, side: Side, r: string, q: string)
    requires OneSidedFrom(s, side, r) && GoneFrom(before.Of(side), r)
    requires Ruling(s, q).Some? && LeftAt(before, after, Ruling(s, q).value)
    requires !Above(q, r)
    ensures GoneFrom(after.Of(side), r)
  {
    RulingPath(s, q);
    var a := Ruling(s, q).value;
    forall y | Within(r, y) ensures y !in after.Of(side) {
      if Target(a) == side && y in after.Of(side) {
        assert y !in before.Of(side);
        if Above(y, q) { WithinTransitive(r, y, q); }
        if Within(q, y) { AncestorsComparable(r, q, y); }
      }
    }
  }

  /** Once gone, no later path at or above p has anything to copy, nor lies above what is gone. */
  lemma GoneHere(s: Scene, paths: seq<string>, n: nat, j: nat, now: Trees, side: Side, p: string)
    requires StrictlySorted(paths) && j < n < |paths| && Within(paths[n], p)
    requires Above(paths[j], p) && GoneFrom(now.Of(side), paths[j])
    ensures paths[n] !in now.Of(side) && !Above(paths[n], paths[j])
  {
    assert Less(paths[j], paths[n]);
    if Above(paths[n], paths[j]) { AboveLess(paths[n], paths[j]); }
    AncestorsComparable(paths[j], paths[n], p);
  }

  lemma GoneAboveStays(s: Scene, paths: seq<string>, n: nat, before: Trees, after: Trees, side: Side, p: string)
    requires StrictlySorted(paths) && n < |paths| && Ruling(s, paths[n]).Some?
    requires LeftAt(before, after, Ruling(s, paths[n]).value) && GoneAbove(s, paths, n, before, side, p)
    ensures GoneAbove(s, paths, n + 1, after, side, p)
    ensures Within(paths[n], p) ==> paths[n] !in before.Of(side)
  {
    var q := paths[n];
    var j :| 0 <= j < n && Above(paths[j], p) && OneSidedFrom(s, side, paths[j]) && GoneFrom(before.Of(side), paths[j]);
    if Within(q, p) { GoneHere(s, paths, n, j, before, side, p); }
    if Above(q, paths[j]) { AboveTransitive(q, paths[j], p); }
    GoneStays(s, before, after, side, paths[j], q);
  }

  lemma ActedAboveNext(s: Scene, paths: seq<string>, n: nat, p: string)
    requires n < |paths|
    ensures ActedAbove(s, paths, n + 1, p) <==>
            ActedAbove(s, paths, n, p) || (Above(paths[n], p) && Ruling(s, paths[n]).Some?)
  {
  }

  /** A path at or above p where the action copies from p's side, or p is not below. */
  lemma SparingStep(s: Scene, paths: seq<string>, n: nat, before: Trees, after: Trees, side: Side, p: string)
    requires Listed(s, paths) && n < |paths| && Holds(s, side, p) && Survives(s, paths, n, before, side, p)
    requires Ruling(s, paths[n]).Some? && LeftAt(before, after, Ruling(s, paths[n]).value)
    requires !Destroys(s, side, paths[n], p)
    ensures At(before.Of(side), p) == MergedAt(s, p) ==> At(after.Of(side), p) == MergedAt(s, p)
    ensures At(before.Of(side), p) != MergedAt(s, p) ==>
              At(after.Of(Opposite(side)), p) == MergedAt(s, p) && GoneAbove(s, paths, n + 1, after, side, p)
  {
    var q := paths[n];
    if At(before.Of(side), p) == MergedAt(s, p) {
      HolderSpared(s, before, after, side, q, p);
    } else {
      GoneAboveStays(s, paths, n, before, after, side, p);
      RulingPath(s, q);
      if Above(q, p) { ActionAbove(s, side, q, p); }
      if Within(q, p) { FromHolder(s, side, q, p); }
    }
  }

  /** At or above an entry of the merge the action copies from its side, unless it destroys it. */
  lemma FromHolder(s: Scene, side: Side, q: string, p: string)
    requires s.trees.Valid() && Holds(s, side, p) && Within(q, p) && Ruling(s, q).Some? && !Destroys(s, side, q, p)
    ensures Ruling(s, q).value == CopyActionForSide(q, side)
  {
  }

  /** The directory that destroys p was not the first to be acted on, so the other side has p by now. */
  lemma ShieldedStep(s: Scene, paths: seq<string>, n: nat, before: Trees, after: Trees, side: Side, p: string)
    requires Listed(s, paths) && n < |paths| && Holds(s, side, p) && Survives(s, paths, n, before, side, p)
    requires Ruling(s, paths[n]).Some? && LeftAt(before, after, Ruling(s, paths[n]).value)
    requires Destroys(s, side, paths[n], p) && !DestroysFirst(s, side, paths[n], p)
    ensures At(after.Of(Opposite(side)), p) == MergedAt(s, p)
    ensures OneSidedFrom(s, side, paths[n]) && Ruling(s, paths[n]).value == DeleteActionForSide(paths[n], side)
  {
    ActionAbove(s, side, paths[n], p);
    if !ActedAbove(s, paths, n, p) { FirstActed(s, paths, n, side, p); }
  }

  /** One path further, without faults. */
  lemma SurvivesNext(s: Scene, paths: seq<string>, flag: bool, n: nat, before: Trees, after: Trees, side: Side,
                     p: string)
    requires Listed(s, paths) && n < |paths| && Holds(s, side, p) && Survives(s, paths, n, before, side, p)
    requires Ruling(s, paths[n]).Some? && Perform(before, Ruling(s, paths[n]).value, flag) == Some(after)
    requires !DestroysFirst(s, side, paths[n], p)
    ensures Survives(s, paths, n + 1, after, side, p)
  {
    var q, a := paths[n], Ruling(s, paths[n]).value;
    PerformIsLeft(before, a, flag);
    RulingPath(s, q);
    ActedAboveNext(s, paths, n, p);
    if Destroys(s, side, q, p) {
      ShieldedStep(s, paths, n, before, after, side, p);
      assert GoneFrom(after.Of(side), paths[n]);
    } else {
      SparingStep(s, paths, n, before, after, side, p);
      if At(before.Of(side), p) == MergedAt(s, p) && ActedAbove(s, paths, n + 1, p) {
        CopiedAlong(s, paths, flag, n, before, after, side, p);
      }
    }
  }

  /** After a directory above p was acted on, and p still where it was, the other side has p. */
  lemma CopiedAlong(s: Scene, paths: seq<string>, flag: bool, n: nat, before: Trees, after: Trees, side: Side,
                    p: string)
    requires Listed(s, paths) && n < |paths| && Holds(s, side, p) && Survives(s, paths, n, before, side, p)
    requires Ruling(s, paths[n]).Some? && Perform(before, Ruling(s, paths[n]).value, flag) == Some(after)
    requires !Destroys(s, side, paths[n], p) && At(before.Of(side), p) == MergedAt(s, p)
    requires ActedAbove(s, paths, n + 1, p)
    ensures At(after.Of(Opposite(side)), p) == MergedAt(s, p)
  {
    var q := paths[n];
    RulingPath(s, q);
    ActedAboveNext(s, paths, n, p);
    PerformIsLeft(before, Ruling(s, q).value, flag);
    if Within(q, p) {
      FromHolder(s, side, q, p);
      GraftedAt(before.Of(side), before.Of(Opposite(side)), q, p);
    }
  }

  /** No path the plan reaches is the first to destroy something. */
  ghost predicate ReachesNoDestroyer(s: Scene, paths: seq<string>, flag: bool, n: nat)
    requires n <= |paths|
  {
    forall m: nat, side: Side, p ::
      m < n && AfterPaths(s, paths, flag, m).Some? ==> !DestroysFirst(s, side, paths[m], p)
  }

  lemma SurvivesSoFar(s: Scene, paths: seq<string>, flag: bool, n: nat, side: Side, p: string)
    requires Listed(s, paths) && n <= |paths| && Holds(s, side, p) && ReachesNoDestroyer(s, paths, flag, n)
    ensures AfterPaths(s, paths, flag, n).Some? ==>
              Survives(s, paths, n, AfterPaths(s, paths, flag, n).value, side, p)
  {
    forall i: nat, before: Trees, after: Trees
      | i < n && AfterPaths(s, paths, flag, i) == Some(before) && Survives(s, paths, i, before, side, p)
        && StepTo(s, paths, flag, i, before, after)
      ensures Survives(s, paths, i + 1, after, side, p)
    {
      if Ruling(s, paths[i]).None? {
        SurvivesQuiet(s, paths, i, before, side, p);
      } else {
        SurvivesNext(s, paths, flag, i, before, after, side, p);
      }
    }
    PathByPath(s, paths, flag, n, (i: nat, now) => i <= |paths| && Survives(s, paths, i, now, side, p));
  }

  /** One path further, where nothing is to be done. */
  lemma SurvivesQuiet(s: Scene, paths: seq<string>, n: nat, now: Trees, side: Side, p: string)
    requires n < |paths| && Ruling(s, paths[n]).None? && Survives(s, paths, n, now, side, p)
    ensures Survives(s, paths, n + 1, now, side, p)
  {
    ActedAboveNext(s, paths, n, p);
  }

  /** Where the plan stops, p is on some side. */
  lemma SurvivesStop(s: Scene, paths: seq<string>, flag: bool, m: nat, after: Trees, side: Side, p: string)
    requires Listed(s, paths) && Holds(s, side, p) && StopsAt(s, paths, flag, m, after)
    requires ReachesNoDestroyer(s, paths, flag, m + 1)
    ensures At(after.Of(side), p) == MergedAt(s, p) || At(after.Of(Opposite(side)), p) == MergedAt(s, p)
  {
    SurvivesSoFar(s, paths, flag, m, side, p);
    var mid := AfterPaths(s, paths, flag, m).value;
    if Destroys(s, side, paths[m], p) {
      ShieldedStep(s, paths, m, mid, after, side, p);
    } else {
      SparingStep(s, paths, m, mid, after, side, p);
    }
  }

  /** What the merge holds was on some side from the start. */
  lemma SomeHolder(s: Scene, p: string) returns (side: Side)
    requires MergedAt(s, p).Some?
    ensures Holds(s, side, p)
  {
    side := if Holds(s, FirstSide, p) then FirstSide else SecondSide;
  }

  // ----- the converse -----

  /** A path with nothing acted on above it is as it was when its turn comes, and so are the directories above. */
  lemma UntilItsTurn(s: Scene, paths: seq<string>, flag: bool, m: nat, side: Side, r: string)
    requires Listed(s, paths) && m < |paths| && NoneActedAbove(s, paths[m]) && Within(r, paths[m])
    ensures AfterPaths(s, paths, flag, m).Some? ==>
              At(AfterPaths(s, paths, flag, m).value.Of(side), r) == At(s.trees.Of(side), r)
  {
    forall i: nat, before: Trees, after: Trees
      | i < m && At(before.Of(side), r) == At(s.trees.Of(side), r) && StepTo(s, paths, flag, i, before, after)
      ensures At(after.Of(side), r) == At(s.trees.Of(side), r)
    {
      StepIsLeft(s, paths, flag, i, before, after);
      if Ruling(s, paths[i]).Some? { NotYet(s, paths, m, i, side, r, before, after); }
    }
    PathByPath(s, paths, flag, m, (i, now: Trees) => At(now.Of(side), r) == At(s.trees.Of(side), r));
  }

  lemma NotYet(s: Scene, paths: seq<string>, m: nat, i: nat, side: Side, r: string, before: Trees, after: Trees)
    requires Listed(s, paths) && i < m < |paths| && NoneActedAbove(s, paths[m]) && Within(r, paths[m])
    requires Ruling(s, paths[i]).Some? && LeftAt(before, after, Ruling(s, paths[i]).value)
    requires At(before.Of(side), r) == At(s.trees.Of(side), r)
    ensures At(after.Of(side), r) == At(s.trees.Of(side), r)
  {
    var x := paths[i];
    RulingPath(s, x);
    assert Less(x, paths[m]);
    LessIrreflexive(x);
    if Within(x, r) { WithinTransitive(x, r, paths[m]); }
    if Above(r, x) {
      if r == paths[m] {
        AboveLess(r, x);
      } else {
        ParentListed(s.trees, paths, paths[m], r);
        assert Ruling(s, r).None? && r in s.trees.first.Keys + s.trees.second.Keys;
      }
    }
  }

  /** The first destroyer of p, when the plan reaches it, does its work, and p is on neither side. */
  lemma DestroyedIsLost(s: Scene, paths: seq<string>, flag: bool, m: nat, side: Side, p: string)
    requires Listed(s, paths) && m < |paths| && DestroysFirst(s, side, paths[m], p)
    requires AfterPaths(s, paths, flag, m).Some?
    ensures Ruling(s, paths[m]).Some? && MergedAt(s, p).Some?
    ensures var next := Perform(AfterPaths(s, paths, flag, m).value, Ruling(s, paths[m]).value, flag);
            next.Some? && p !in next.value.first && p !in next.value.second
  {
    var mid := AfterPaths(s, paths, flag, m).value;
    PathsKeepTrees(s, paths, flag, m);
    forall r, z: Side | Within(r, paths[m]) ensures At(mid.Of(z), r) == At(s.trees.Of(z), r) {
      UntilItsTurn(s, paths, flag, m, z, r);
    }
    DestroyerRemoves(s, mid, flag, side, paths[m], p);
  }

  /** Where q and the directories above it are as they were, destroying p succeeds. */
  lemma DestroyerRemoves(s: Scene, mid: Trees, flag: bool, side: Side, q: string, p: string)
    requires s.trees.Valid() && mid.Valid() && Destroys(s, side, q, p)
    requires forall r, z: Side :: Within(r, q) ==> At(mid.Of(z), r) == At(s.trees.Of(z), r)
    ensures Ruling(s, q).Some? && MergedAt(s, p).Some?
    ensures var next := Perform(mid, Ruling(s, q).value, flag);
            next.Some? && p !in next.value.first && p !in next.value.second
  {
    RulingPath(s, q);
    var other := Opposite(side);
    assert Within(q, q);
    assert At(mid.Of(other), q) == At(s.trees.Of(other), q) && At(mid.Of(side), q) == At(s.trees.Of(side), q);
    NotBelowFile(s, mid, side, q, p);
    assert p !in mid.Of(other);
    if q in s.trees.Of(other) {
      assert Ruling(s, q).value == CopyActionForSide(q, other);
      GraftedAt(mid.Of(other), mid.Of(side), q, p);
    } else {
      assert Ruling(s, q).value == DeleteActionForSide(q, side);
    }
  }

  lemma NotBelowFile(s: Scene, mid: Trees, side: Side, q: string, p: string)
    requires s.trees.Valid() && Destroys(s, side, q, p)
    requires forall r :: Within(r, q) ==> At(mid.Of(side), r) == At(s.trees.Of(side), r)
    ensures !BelowFile(mid.Of(side), q)
  {
    forall r | r in Ancestors(q) ensures At(mid.Of(side), r) == Some(Directory) {
      AboveTransitive(r, q, p);
    }
  }

  /**
   The plan loses nothing of the merge, wherever it stops, exactly if it reaches no path that
   is the first to destroy something.
   */
  lemma LossIff(s: Scene, paths: seq<string>, flag: bool)
    requires Listed(s, paths)
    ensures (forall m, after :: StopsAt(s, paths, flag, m, after) ==> MergeKept(s, after)) <==>
            ReachesNoDestroyer(s, paths, flag, |paths|)
  {
    if ReachesNoDestroyer(s, paths, flag, |paths|) {
      forall m, after | StopsAt(s, paths, flag, m, after) ensures MergeKept(s, after) {
        StopKeepsMerge(s, paths, flag, m, after);
      }
    } else {
      var m: nat, side: Side, p :|
        m < |paths| && AfterPaths(s, paths, flag, m).Some? && DestroysFirst(s, side, paths[m], p);
      DestroyedIsLost(s, paths, flag, m, side, p);
      var mid := AfterPaths(s, paths, flag, m).value;
      PerformIsLeft(mid, Ruling(s, paths[m]).value, flag);
      var after := Perform(mid, Ruling(s, paths[m]).value, flag).value;
      assert StopsAt(s, paths, flag, m, after);
      assert MergedAt(s, p).Some? && At(after.first, p) == None == At(after.second, p);
    }
  }

  lemma StopKeepsMerge(s: Scene, paths: seq<string>, flag: bool, m: nat, after: Trees)
    requires Listed(s, paths) && StopsAt(s, paths, flag, m, after) && ReachesNoDestroyer(s, paths, flag, m + 1)
    ensures MergeKept(s, after)
  {
    forall p | MergedAt(s, p).Some?
      ensures At(after.first, p) == MergedAt(s, p) || At(after.second, p) == MergedAt(s, p)
    {
      var side := SomeHolder(s, p);
      SurvivesStop(s, paths, flag, m, after, side, p);
    }
  }

  /** Nor is anything lost where the plan ends. */
  lemma EndKeepsMerge(s: Scene, paths: seq<string>, flag: bool)
    requires Listed(s, paths) && ReachesNoDestroyer(s, paths, flag, |paths|)
    ensures AfterPaths(s, paths, flag, |paths|).Some? ==> MergeKept(s, AfterPaths(s, paths, flag, |paths|).value)
  {
    if AfterPaths(s, paths, flag, |paths|).Some? {
      var end := AfterPaths(s, paths, flag, |paths|).value;
      forall p | MergedAt(s, p).Some? ensures At(end.first, p) == MergedAt(s, p)
        || At(end.second, p) == MergedAt(s, p) {
        var side := SomeHolder(s, p);
        SurvivesSoFar(s, paths, flag, |paths|, side, p);
      }
    }
  }

  /**
   A directory confirmed before was deleted on the second side while the first gained a file in
   it: the file is lost.
   */
  lemma NewEntryIsLost(kept: string -> Side, flag: bool)
    ensures var s := Scene(Trees(map[D := Directory, DX := File([])], map[]), {D}, kept);
            && DestroysFirst(s, FirstSide, D, DX)
            && MergedAt(s, DX) == Some(File([]))
            && Rulings(s, [D, DX]) == [Some(DeleteFromFirst(D)), Some(CopyToSecond(DX))]
            && Perform(s.trees, DeleteFromFirst(D), flag) == Some(Trees(map[], map[]))
            && Perform(Trees(map[], map[]), CopyToSecond(DX), flag).None?
            && !MergeKept(s, Trees(map[], map[]))
  {
    var s := Scene(Trees(map[D := Directory, DX := File([])], map[]), {D}, kept);
    AboveDX(D);
    assert Above(D, DX);
    forall r ensures !Above(r, D) { AboveDX(r); }
    assert RemoveAllAt(s.trees.first, D) == map[];
    assert !BelowFile(s.trees.first, D) by {
      forall r | r in Ancestors(D) ensures false { AboveDX(r); }
    }
    assert MergedAt(s, DX) == Some(File([])) && At(map[], DX) == None;
  }
}
