/**
 When a plan made from a snapshot turns both trees into one goal tree, although its
 actions replace and remove whole subtrees that later actions name again.
 */
module PlanGoals {
  import opened Common
  import opened Paths
  import opened FileTrees
  import opened SyncDomain
  import opened Inventories
  import opened Planners

  /** The decision at one path, judged against the snapshot only. */
  ghost predicate Serves(start: Trees, goal: Tree, path: string, d: Decision) {
    match d
    case None =>
      At(start.first, path) == At(goal, path) && At(start.second, path) == At(goal, path)
    case Some(a) =>
      var target := start.Of(Target(a));
      var other := start.Of(Opposite(Target(a)));
      && a.relativePath == path
      && if IsCopy(a) then
           && path in other
           && (forall p :: Within(path, p) ==> At(other, p) == At(goal, p))
           && (forall q :: Above(q, path) ==> At(goal, q) == Some(Directory))
         else path in target && forall p :: Within(path, p) ==> p !in goal && p !in other
  }

  /** A plan over every path of both snapshots, whose first n decisions serve the goal. */
  ghost predicate AchievableTo(start: Trees, goal: Tree, paths: seq<string>, ds: seq<Decision>, n: nat) {
    && start.Valid()
    && Enumerates(paths, start.first.Keys + start.second.Keys)
    && n <= |ds| == |paths|
    && forall i :: 0 <= i < n ==> Serves(start, goal, paths[i], ds[i])
  }

  ghost predicate Achievable(start: Trees, goal: Tree, paths: seq<string>, ds: seq<Decision>) {
    AchievableTo(start, goal, paths, ds, |ds|) && goal.Keys <= start.first.Keys + start.second.Keys
  }

  /** A removal below what is by then a regular file. */
  predicate RemovesBelowFile(goal: Tree, d: Decision) {
    d.Some? && !IsCopy(d.value) && BelowFile(goal, d.value.relativePath)
  }

  ghost predicate Blocked(goal: Tree, ds: seq<Decision>) {
    exists i :: 0 <= i < |ds| && RemovesBelowFile(goal, ds[i])
  }

  /** The first n decisions have settled p. */
  ghost predicate Settled(paths: seq<string>, ds: seq<Decision>, n: nat, p: string)
    requires n <= |paths| == |ds|
  {
    exists j :: 0 <= j < n && Within(paths[j], p) && (paths[j] == p || ds[j].Some?)
  }

  ghost predicate Reached(start: Trees, now: Trees, goal: Tree, paths: seq<string>, ds: seq<Decision>, n: nat)
    requires n <= |paths| == |ds|
  {
    && now.Valid()
    && forall side, p :: At(now.Of(side), p) ==
                         if Settled(paths, ds, n, p) then At(goal, p) else At(start.Of(side), p)
  }

  lemma SettledNext(paths: seq<string>, ds: seq<Decision>, n: nat, p: string)
    requires n < |paths| == |ds|
    ensures Settled(paths, ds, n + 1, p) <==>
            Settled(paths, ds, n, p) || (Within(paths[n], p) && (paths[n] == p || ds[n].Some?))
  {
  }

  /** A directory above a listed path was dealt with before that path. */
  lemma AncestorsSettled(paths: seq<string>, ds: seq<Decision>, n: nat, q: string)
    requires n < |paths| == |ds| && StrictlySorted(paths)
    requires Above(q, paths[n]) && q in paths
    ensures Settled(paths, ds, n, q)
  {
    var j :| 0 <= j < |paths| && paths[j] == q;
    AboveLess(q, paths[n]);
    assert j <= n;
  }

  /** Every path of both trees is as it was or as it shall be. */
  ghost predicate Mixed(start: Trees, now: Trees, goal: Tree) {
    forall side, p :: At(now.Of(side), p) == At(goal, p) || At(now.Of(side), p) == At(start.Of(side), p)
  }

  /** The directories above the path already are as they shall be. */
  ghost predicate Prepared(now: Trees, goal: Tree, path: string) {
    forall side, q :: Above(q, path) ==> At(now.Of(side), q) == At(goal, q)
  }

  /** The action settled exactly its subtree, on both sides. */
  ghost predicate Settles(now: Trees, next: Trees, goal: Tree, path: string) {
    && next.Valid()
    && forall side, p :: At(next.Of(side), p) == if Within(path, p) then At(goal, p) else At(now.Of(side), p)
  }

  lemma CopySettles(start: Trees, now: Trees, goal: Tree, a: Action, flag: bool)
    requires now.Valid() && Mixed(start, now, goal)
    requires IsCopy(a) && Serves(start, goal, a.relativePath, Some(a)) && Prepared(now, goal, a.relativePath)
    ensures Perform(now, a, flag).Some? && Settles(now, Perform(now, a, flag).value, goal, a.relativePath)
  {
    var path, side := a.relativePath, Target(a);
    var source, target := now.Of(Opposite(side)), now.Of(side);
    forall p | Within(path, p) ensures At(source, p) == At(goal, p) {
      assert At(start.Of(Opposite(side)), p) == At(goal, p);
      assert At(now.Of(Opposite(side)), p) == At(goal, p);
    }
    assert At(source, path) == At(goal, path) == At(start.Of(Opposite(side)), path);
    forall q | Above(q, path) ensures At(target, q) == Some(Directory) {
      assert At(now.Of(side), q) == At(goal, q);
    }
    GraftSettles(source, target, goal, path);
    PerformKeepsTrees(now, a, flag);
  }

  lemma GraftSettles(source: Tree, target: Tree, goal: Tree, path: string)
    requires path in source && forall p :: Within(path, p) ==> At(source, p) == At(goal, p)
    requires forall q :: Above(q, path) ==> At(target, q) == Some(Directory)
    ensures CopyInto(source, target, path) == Some(Grafted(source, target, path))
    ensures forall p :: At(Grafted(source, target, path), p) == if Within(path, p) then At(goal, p) else At(target, p)
  {
  }

  lemma DeleteSettles(start: Trees, now: Trees, goal: Tree, a: Action, flag: bool)
    requires now.Valid() && Mixed(start, now, goal)
    requires !IsCopy(a) && Serves(start, goal, a.relativePath, Some(a)) && Prepared(now, goal, a.relativePath)
    ensures if BelowFile(goal, a.relativePath) && !flag then Perform(now, a, flag).None?
            else Perform(now, a, flag).Some? && Settles(now, Perform(now, a, flag).value, goal, a.relativePath)
  {
    var path, side := a.relativePath, Target(a);
    forall q | q in Ancestors(path) ensures At(now.Of(side), q) == At(goal, q) {
    }
    assert BelowFile(now.Of(side), path) == BelowFile(goal, path) by {
      SameAncestorsSameBlock(now.Of(side), goal, path);
    }
    if BelowFile(goal, path) ==> flag {
      PerformKeepsTrees(now, a, flag);
      var next := Perform(now, a, flag).value;
      forall s, p ensures At(next.Of(s), p) == if Within(path, p) then At(goal, p) else At(now.Of(s), p) {
        if Within(path, p) && s != side {
          assert At(start.Of(s), p) == None == At(goal, p);
          assert At(now.Of(s), p) == None;
        }
      }
    }
  }

  lemma SameAncestorsSameBlock(a: Tree, b: Tree, path: string)
    requires forall q :: q in Ancestors(path) ==> At(a, q) == At(b, q)
    ensures BelowFile(a, path) == BelowFile(b, path)
  {
  }

  lemma ReachedIsMixed(start: Trees, now: Trees, goal: Tree, paths: seq<string>, ds: seq<Decision>, n: nat)
    requires n <= |paths| == |ds| && Reached(start, now, goal, paths, ds, n)
    ensures Mixed(start, now, goal)
  {
  }

  lemma ReachedIsPrepared(start: Trees, now: Trees, goal: Tree, paths: seq<string>, ds: seq<Decision>, n: nat)
    requires AchievableTo(start, goal, paths, ds, n) && n < |ds| && Reached(start, now, goal, paths, ds, n)
    ensures Prepared(now, goal, paths[n])
  {
    forall side: Side, q | Above(q, paths[n]) ensures At(now.Of(side), q) == At(goal, q) {
      ParentSettled(start, paths, ds, n, q);
      SettledAt(start, now, goal, paths, ds, n, side, q);
    }
  }

  lemma SettledAt(start: Trees, now: Trees, goal: Tree, paths: seq<string>, ds: seq<Decision>, n: nat, side: Side,
                  p: string)
    requires n <= |paths| == |ds| && Reached(start, now, goal, paths, ds, n) && Settled(paths, ds, n, p)
    ensures At(now.Of(side), p) == At(goal, p)
  {
  }

  lemma ParentSettled(start: Trees, paths: seq<string>, ds: seq<Decision>, n: nat, q: string)
    requires start.Valid() && Enumerates(paths, start.first.Keys + start.second.Keys)
    requires n < |paths| == |ds| && Above(q, paths[n])
    ensures Settled(paths, ds, n, q)
  {
    ParentListed(start, paths, paths[n], q);
    AncestorsSettled(paths, ds, n, q);
  }

  lemma ParentListed(start: Trees, paths: seq<string>, path: string, q: string)
    requires start.Valid() && Enumerates(paths, start.first.Keys + start.second.Keys)
    requires path in paths && Above(q, path)
    ensures q in paths
  {
  }

  lemma Advance(start: Trees, now: Trees, next: Trees, goal: Tree, paths: seq<string>, ds: seq<Decision>, n: nat)
    requires n < |paths| == |ds| && Reached(start, now, goal, paths, ds, n)
    requires if ds[n].Some? then Settles(now, next, goal, paths[n])
             else next == now && forall side :: At(start.Of(side), paths[n]) == At(goal, paths[n])
    ensures Reached(start, next, goal, paths, ds, n + 1)
  {
    forall s, p ensures At(next.Of(s), p) ==
                        if Settled(paths, ds, n + 1, p) then At(goal, p) else At(start.Of(s), p) {
      SettledNext(paths, ds, n, p);
      assert At(now.Of(s), p) == if Settled(paths, ds, n, p) then At(goal, p) else At(start.Of(s), p);
    }
  }

  lemma AllSettled(start: Trees, now: Trees, goal: Tree, paths: seq<string>, ds: seq<Decision>)
    requires Achievable(start, goal, paths, ds) && Reached(start, now, goal, paths, ds, |ds|)
    ensures now == Trees(goal, goal)
  {
    forall side: Side, p ensures At(now.Of(side), p) == At(goal, p) {
      assert At(now.Of(side), p) == if Settled(paths, ds, |ds|, p) then At(goal, p) else At(start.Of(side), p);
      if !Settled(paths, ds, |ds|, p) { UnsettledIsAbsent(start, goal, paths, ds, p, side); }
    }
    SameEverywhere(now.Of(FirstSide), goal);
    SameEverywhere(now.Of(SecondSide), goal);
  }

  /** What all decisions have not settled is not there at all. */
  lemma UnsettledIsAbsent(start: Trees, goal: Tree, paths: seq<string>, ds: seq<Decision>, p: string, side: Side)
    requires |paths| == |ds| && !Settled(paths, ds, |ds|, p)
    requires Enumerates(paths, start.first.Keys + start.second.Keys)
             && goal.Keys <= start.first.Keys + start.second.Keys
    ensures At(goal, p) == None == At(start.Of(side), p)
  {
    assert p !in paths;
  }

  /** One decision: on to the next, or stuck. */
  lemma Step(start: Trees, now: Trees, goal: Tree, paths: seq<string>, ds: seq<Decision>, n: nat, flag: bool)
    returns (next: Option<Trees>)
    requires n < |ds| && AchievableTo(start, goal, paths, ds, n + 1) && Reached(start, now, goal, paths, ds, n)
    ensures next == if ds[n].None? then Some(now) else Perform(now, ds[n].value, flag)
    ensures next.None? <==> RemovesBelowFile(goal, ds[n]) && !flag
    ensures next.Some? ==> Reached(start, next.value, goal, paths, ds, n + 1)
  {
    assert Serves(start, goal, paths[n], ds[n]);
    next := if ds[n].None? then Some(now) else Perform(now, ds[n].value, flag);
    if ds[n].Some? {
      ReachedIsMixed(start, now, goal, paths, ds, n);
      ReachedIsPrepared(start, now, goal, paths, ds, n);
      if IsCopy(ds[n].value) {
        CopySettles(start, now, goal, ds[n].value, flag);
      } else {
        DeleteSettles(start, now, goal, ds[n].value, flag);
      }
    }
    if next.Some? {
      Advance(start, now, next.value, goal, paths, ds, n);
    }
  }

  lemma {:induction false} RunFrom(start: Trees, now: Trees, goal: Tree, paths: seq<string>, ds: seq<Decision>,
                                   n: nat, flag: bool)
    requires Achievable(start, goal, paths, ds) && n <= |ds|
    requires Reached(start, now, goal, paths, ds, n)
    ensures PerformAll(now, PlanOf(ds[n..]), flag) ==
            if Blocked(goal, ds[n..]) && !flag then None else Some(Trees(goal, goal))
    decreases |ds| - n
  {
    if n == |ds| {
      assert ds[n..] == [];
      AllSettled(start, now, goal, paths, ds);
    } else {
      PrefixAchievable(start, goal, paths, ds, n + 1);
      var next := Step(start, now, goal, paths, ds, n, flag);
      UnrollPlan(now, ds, n, flag);
      BlockedStep(goal, ds, n);
      if next.Some? {
        RunFrom(start, next.value, goal, paths, ds, n + 1, flag);
      }
    }
  }

  lemma PrefixAchievable(start: Trees, goal: Tree, paths: seq<string>, ds: seq<Decision>, n: nat)
    requires Achievable(start, goal, paths, ds) && n <= |ds|
    ensures AchievableTo(start, goal, paths, ds, n)
  {
  }

  lemma UnrollPlan(now: Trees, ds: seq<Decision>, n: nat, flag: bool)
    requires n < |ds|
    ensures PerformAll(now, PlanOf(ds[n..]), flag) ==
            var next := if ds[n].None? then Some(now) else Perform(now, ds[n].value, flag);
            if next.None? then None else PerformAll(next.value, PlanOf(ds[n + 1..]), flag)
  {
    var rest, plan := ds[n..], PlanOf(ds[n..]);
    assert rest[0] == ds[n] && rest[1..] == ds[n + 1..];
    if ds[n].Some? {
      assert plan[0] == ds[n].value && plan[1..] == PlanOf(rest[1..]);
    } else {
      assert plan == PlanOf(rest[1..]);
    }
  }

  lemma BlockedStep(goal: Tree, ds: seq<Decision>, n: nat)
    requires n < |ds|
    ensures Blocked(goal, ds[n..]) <==> RemovesBelowFile(goal, ds[n]) || Blocked(goal, ds[n + 1..])
  {
  }

  /** As long as the decisions serve the goal, the run gets there or is stuck for good. */
  lemma {:induction false} RunTo(start: Trees, now: Trees, goal: Tree, paths: seq<string>, ds: seq<Decision>,
                                 n: nat, m: nat, flag: bool) returns (arrived: Option<Trees>)
    requires n <= m && AchievableTo(start, goal, paths, ds, m) && Reached(start, now, goal, paths, ds, n)
    ensures arrived.None? ==> PerformAll(now, PlanOf(ds[n..]), flag).None?
    ensures arrived.Some? ==> Reached(start, arrived.value, goal, paths, ds, m)
    ensures arrived.Some? ==> PerformAll(now, PlanOf(ds[n..]), flag) == PerformAll(arrived.value, PlanOf(ds[m..]), flag)
    decreases m - n
  {
    if n == m { return Some(now); }
    assert AchievableTo(start, goal, paths, ds, n + 1);
    var next := Step(start, now, goal, paths, ds, n, flag);
    UnrollPlan(now, ds, n, flag);
    if next.None? { return None; }
    arrived := RunTo(start, next.value, goal, paths, ds, n + 1, m, flag);
  }

  /** A plan whose every decision serves the goal reaches it, unless a removal is blocked. */
  lemma PlanReachesGoal(start: Trees, goal: Tree, paths: seq<string>, ds: seq<Decision>, flag: bool)
    requires Achievable(start, goal, paths, ds)
    ensures PerformAll(start, PlanOf(ds), flag) ==
            if Blocked(goal, ds) && !flag then None else Some(Trees(goal, goal))
  {
    RunFrom(start, start, goal, paths, ds, 0, flag);
    assert ds[0..] == ds;
  }
}
