/**
 What a cycle that fails in the middle of a compatible plan leaves, and what the next cycle
 makes of it.
 */
module Recovery {
  import opened Common
  import opened Paths
  import opened FileTrees
  import opened SyncDomain
  import opened Planners
  import opened PlanGoals
  import opened Merging
  import opened Executor
  import opened Losses

  /**
   What the merge holds at p is still on some side; what it does not hold is on one side at
   most, and recorded, so that it will be removed there.
   */
  predicate SafeAt(s: Scene, now: Trees, p: string) {
    match MergedAt(s, p)
    case Some(n) => At(now.first, p) == Some(n) || At(now.second, p) == Some(n)
    case None => (p !in now.first || p !in now.second) && (p in now.first || p in now.second ==> p in s.recorded)
  }

  ghost predicate NothingLost(s: Scene, now: Trees) {
    forall p :: SafeAt(s, now, p)
  }

  /** What the merge does not hold is only where it was. */
  ghost predicate LeftoversOld(s: Scene, now: Trees) {
    forall side: Side, p :: MergedAt(s, p).None? && p in now.Of(side) ==> p in s.trees.Of(side)
  }

  /** Nothing is lost, every side has what it had of the merge, and what else it has, it had from the start. */
  ghost predicate LeftIntact(s: Scene, now: Trees) {
    NothingLost(s, now) && HoldersKept(s, now) && LeftoversOld(s, now)
  }

  lemma StartIsIntact(s: Scene)
    ensures LeftIntact(s, s.trees) && MergeKept(s, s.trees)
  {
  }

  lemma GoalIsIntact(s: Scene)
    ensures LeftIntact(s, Trees(Merged(s), Merged(s)))
  {
    forall p ensures SafeAt(s, Trees(Merged(s), Merged(s)), p) {
      assert At(Merged(s), p) == MergedAt(s, p);
    }
  }

  /** Paths as they were or as they shall be are safe. */
  lemma MixedIsSafe(s: Scene, now: Trees, p: string)
    requires forall side: Side ::
      At(now.Of(side), p) == MergedAt(s, p) || At(now.Of(side), p) == At(s.trees.Of(side), p)
    ensures SafeAt(s, now, p)
  {
    assert At(now.Of(FirstSide), p) == MergedAt(s, p) || At(now.Of(FirstSide), p) == At(s.trees.Of(FirstSide), p);
    assert At(now.Of(SecondSide), p) == MergedAt(s, p) || At(now.Of(SecondSide), p) == At(s.trees.Of(SecondSide), p);
  }

  /** An action that did not finish has lost nothing: its source is untouched. */
  lemma LeftIsSafe(s: Scene, mid: Trees, after: Trees, a: Action, p: string)
    requires Mixed(s.trees, mid, Merged(s)) && Serves(s.trees, Merged(s), a.relativePath, Some(a))
    requires LeftAt(mid, after, a)
    ensures SafeAt(s, after, p)
  {
    var target, path := Target(a), a.relativePath;
    var other := Opposite(target);
    assert At(Merged(s), p) == MergedAt(s, p);
    assert At(mid.Of(target), p) == At(Merged(s), p) || At(mid.Of(target), p) == At(s.trees.Of(target), p);
    assert At(mid.Of(other), p) == At(Merged(s), p) || At(mid.Of(other), p) == At(s.trees.Of(other), p);
    if Within(path, p) {
      InsideIsSafe(s, mid, after, a, p);
    } else {
      OutsideIsMixed(s, mid, after, a, p);
      MixedIsSafe(s, after, p);
    }
  }

  lemma OutsideIsMixed(s: Scene, mid: Trees, after: Trees, a: Action, p: string)
    requires Mixed(s.trees, mid, Merged(s)) && Serves(s.trees, Merged(s), a.relativePath, Some(a))
    requires LeftAt(mid, after, a) && !Within(a.relativePath, p)
    ensures forall side: Side ::
      At(after.Of(side), p) == MergedAt(s, p) || At(after.Of(side), p) == At(s.trees.Of(side), p)
  {
    assert At(Merged(s), p) == MergedAt(s, p);
    forall side: Side
      ensures At(after.Of(side), p) == MergedAt(s, p) || At(after.Of(side), p) == At(s.trees.Of(side), p)
    {
      assert At(mid.Of(side), p) == At(Merged(s), p) || At(mid.Of(side), p) == At(s.trees.Of(side), p);
    }
  }

  lemma InsideIsSafe(s: Scene, mid: Trees, after: Trees, a: Action, p: string)
    requires Mixed(s.trees, mid, Merged(s)) && Serves(s.trees, Merged(s), a.relativePath, Some(a))
    requires LeftAt(mid, after, a) && Within(a.relativePath, p)
    ensures SafeAt(s, after, p)
  {
    var target, path := Target(a), a.relativePath;
    var other := Opposite(target);
    assert At(Merged(s), p) == MergedAt(s, p);
    assert At(mid.Of(target), p) == At(Merged(s), p) || At(mid.Of(target), p) == At(s.trees.Of(target), p);
    assert At(mid.Of(other), p) == At(Merged(s), p) || At(mid.Of(other), p) == At(s.trees.Of(other), p);
    assert At(after.Of(other), p) == At(mid.Of(other), p);
    if IsCopy(a) {
      assert At(s.trees.Of(other), p) == At(Merged(s), p);
    } else {
      assert p !in Merged(s) && p !in s.trees.Of(other);
    }
    if MergedAt(s, p).None? && p in after.Of(target) {
      assert !Above(p, path);
      assert p in mid.Of(target).Keys;
    }
  }

  /** The action at which a plan stopped is a ruling, and what went before has got as far as its path. */
  lemma {:induction false} StoppedAt(start: Trees, now: Trees, goal: Tree, paths: seq<string>, ds: seq<Decision>,
                                     n: nat,
                                     plan: seq<Action>, done: nat, mid: Trees, flag: bool) returns (m: nat)
    requires Achievable(start, goal, paths, ds) && n <= |ds| && Reached(start, now, goal, paths, ds, n)
    requires plan == PlanOf(ds[n..]) && done < |plan| && PerformAll(now, plan[..done], flag) == Some(mid)
    ensures n <= m < |ds| && ds[m] == Some(plan[done])
    ensures Reached(start, mid, goal, paths, ds, m)
    decreases |ds| - n
  {
    if n == |ds| { PlanOfNothing(ds); }
    PrefixAchievable(start, goal, paths, ds, n + 1);
    PlanFrom(ds, n);
    var next := Step(start, now, goal, paths, ds, n, flag);
    if ds[n].None? {
      m := StoppedAt(start, now, goal, paths, ds, n + 1, plan, done, mid, flag);
    } else if done == 0 {
      m := n;
    } else {
      var rest := PlanOf(ds[n + 1..]);
      PerformFirst(now, plan, ds[n].value, rest, done, flag);
      m := StoppedAt(start, next.value, goal, paths, ds, n + 1, rest, done - 1, mid, flag);
    }
  }

  lemma PlanOfNothing(ds: seq<Decision>)
    ensures PlanOf(ds[|ds|..]) == []
  {
  }

  lemma PlanFrom(ds: seq<Decision>, n: nat)
    requires n < |ds|
    ensures ds[n].None? ==> PlanOf(ds[n..]) == PlanOf(ds[n + 1..])
    ensures ds[n].Some? ==> PlanOf(ds[n..]) == [ds[n].value] + PlanOf(ds[n + 1..])
  {
    assert ds[n..][0] == ds[n] && ds[n..][1..] == ds[n + 1..];
  }

  lemma PerformFirst(now: Trees, plan: seq<Action>, a: Action, rest: seq<Action>, done: nat, flag: bool)
    requires plan == [a] + rest && 0 < done < |plan|
    ensures plan[done] == rest[done - 1]
    ensures PerformAll(now, plan[..done], flag) ==
            if Perform(now, a, flag).None? then None
              else PerformAll(Perform(now, a, flag).value, rest[..done - 1], flag)
  {
    assert plan[..done][0] == a && plan[..done][1..] == rest[..done - 1];
  }

  /** Wherever a compatible plan stops, it has left the trees intact. */
  lemma FailedPlanLosesNothing(s: Scene, paths: seq<string>, flag: bool, done: nat, mid: Trees, after: Trees)
    requires Listed(s, paths) && Compatible(s, flag)
    requires done < |PlanOf(Rulings(s, paths))|
    requires PerformAll(s.trees, PlanOf(Rulings(s, paths))[..done], flag) == Some(mid)
    requires LeftAt(mid, after, PlanOf(Rulings(s, paths))[done])
    ensures LeftIntact(s, after)
  {
    var goal, ds := Merged(s), Rulings(s, paths);
    RulingsAchieve(s, paths, flag);
    assert ds[0..] == ds;
    var m := StoppedAt(s.trees, s.trees, goal, paths, ds, 0, PlanOf(ds), done, mid, flag);
    ReachedIsMixed(s.trees, mid, goal, paths, ds, m);
    assert Serves(s.trees, goal, paths[m], ds[m]);
    forall p ensures SafeAt(s, after, p) {
      LeftIsSafe(s, mid, after, ds[m].value, p);
    }
    forall side: Side, p | MergedAt(s, p).None? && p in after.Of(side) ensures p in s.trees.Of(side) {
      LeftoverIsOld(s, mid, after, ds[m].value, side, p);
    }
    forall side: Side, q, p ensures !Destroys(s, side, q, p) {
      CompatibleDestroysNothing(s, flag, side, q, p);
    }
    var m' := ActionAt(ds, done);
    StopKeepsHolders(s, paths, flag, m', after);
  }

  lemma LeftoverIsOld(s: Scene, mid: Trees, after: Trees, a: Action, side: Side, p: string)
    requires Mixed(s.trees, mid, Merged(s)) && Serves(s.trees, Merged(s), a.relativePath, Some(a))
    requires LeftAt(mid, after, a) && MergedAt(s, p).None? && p in after.Of(side)
    ensures p in s.trees.Of(side)
  {
    var target, path := Target(a), a.relativePath;
    assert At(Merged(s), p) == MergedAt(s, p);
    forall z: Side ensures p in mid.Of(z) ==> p in s.trees.Of(z) {
      assert At(mid.Of(z), p) == At(Merged(s), p) || At(mid.Of(z), p) == At(s.trees.Of(z), p);
    }
    if Within(path, p) {
      if side == target { assert p in after.Of(target).Keys && !Above(p, path); }
    } else {
      OutsideIsMixed(s, mid, after, a, p);
    }
  }

  /** No new entry has a first destroyer. */
  ghost predicate NoFirstDestroyer(s: Scene) {
    forall side: Side, q, p :: !DestroysFirst(s, side, q, p)
  }

  /** Wherever a plan stops, compatible or not, all of the merge is still there if nothing is destroyed first. */
  lemma StoppedPlanKeepsMerge(s: Scene, paths: seq<string>, flag: bool, done: nat, mid: Trees, after: Trees)
    requires Listed(s, paths) && NoFirstDestroyer(s)
    requires done < |PlanOf(Rulings(s, paths))|
    requires PerformAll(s.trees, PlanOf(Rulings(s, paths))[..done], flag) == Some(mid)
    requires LeftAt(mid, after, PlanOf(Rulings(s, paths))[done])
    ensures MergeKept(s, after)
  {
    var m := ActionAt(Rulings(s, paths), done);
    StopKeepsMerge(s, paths, flag, m, after);
  }

  /** So it is where the plan ends. */
  lemma EndedPlanKeepsMerge(s: Scene, paths: seq<string>, flag: bool, after: Trees)
    requires Listed(s, paths) && NoFirstDestroyer(s)
    requires PerformAll(s.trees, PlanOf(Rulings(s, paths)), flag) == Some(after)
    ensures MergeKept(s, after)
  {
    assert Rulings(s, paths)[..|paths|] == Rulings(s, paths);
    EndKeepsMerge(s, paths, flag);
  }

  // ----- the next cycle -----

  /** The next snapshot: what is there now, the same record, and whatever prevails now. */
  function NextScene(s: Scene, now: Trees, kept: string -> Side): Scene {
    Scene(now, s.recorded, kept)
  }

  /**
   A side without what the merge holds has nothing there, at a path that is not recorded, or
   it has something else over which the other side prevails.
   */
  predicate HealsAt(s: Scene, now: Trees, kept: string -> Side, side: Side, p: string) {
    MergedAt(s, p).Some? && At(now.Of(side), p) != MergedAt(s, p) ==>
      if p in now.Of(side) then kept(p) == Opposite(side) else p !in s.recorded
  }

  /** The next cycle aims at the same merge exactly if every path heals. */
  lemma NextMergeIff(s: Scene, now: Trees, kept: string -> Side)
    requires NothingLost(s, now)
    ensures Merged(NextScene(s, now, kept)) == Merged(s) <==>
            forall side, p :: HealsAt(s, now, kept, side, p)
  {
    var s' := NextScene(s, now, kept);
    forall p
      ensures MergedAt(s', p) == MergedAt(s, p) <==>
              HealsAt(s, now, kept, FirstSide, p) && HealsAt(s, now, kept, SecondSide, p)
    {
      assert SafeAt(s, now, p);
    }
    forall p ensures At(Merged(s'), p) == MergedAt(s', p) && At(Merged(s), p) == MergedAt(s, p) {
    }
    if forall side, p :: HealsAt(s, now, kept, side, p) {
      SameEverywhere(Merged(s'), Merged(s));
    }
    if Merged(s') == Merged(s) {
      forall side: Side, p ensures HealsAt(s, now, kept, side, p) {
        assert At(Merged(s'), p) == At(Merged(s), p);
        assert side == FirstSide || side == SecondSide;
      }
    }
  }

  /** Two entries, one above the other, that one side has, in what a compatible plan left. */
  lemma LeftSideAgrees(s: Scene, now: Trees, kept: string -> Side, flag: bool, side: Side, q: string, p: string)
    requires s.trees.Valid() && Compatible(s, flag) && now.Valid() && Above(q, p)
    requires LeftIntact(s, now)
    requires forall z: Side, x :: HealsAt(s, now, kept, z, x)
    ensures SideAgrees(NextScene(s, now, kept), flag, side, q, p)
  {
    var lacks := Opposite(side);
    if p in now.Of(side) && p !in now.Of(lacks) && (q !in now.Of(lacks) || now.Of(lacks)[q].File?) {
      assert PairAgrees(s, flag, q, p);
      assert SafeAt(s, now, p) && SafeAt(s, now, q);
      assert HealsAt(s, now, kept, lacks, p) && HealsAt(s, now, kept, lacks, q) && HealsAt(s, now, kept, side, q);
      assert Holds(s, lacks, q) ==> At(now.Of(lacks), q) == MergedAt(s, q);
      assert Holds(s, side, q) ==> At(now.Of(side), q) == MergedAt(s, q);
      assert MergedAt(s, p).None? ==> p in s.trees.Of(side) && p in s.recorded;
      if MergedAt(s, p).Some? { MergedParent(s, flag, q, p); }
    }
  }

  /**
   If every path heals, what a compatible plan has left is compatible again: without faults
   the next cycle ends with the merge the first one aimed at.
   */
  lemma NextCycleRecovers(s: Scene, now: Trees, kept: string -> Side, paths: seq<string>, flag: bool)
    requires s.trees.Valid() && Compatible(s, flag) && now.Valid()
    requires LeftIntact(s, now)
    requires forall side: Side, p :: HealsAt(s, now, kept, side, p)
    requires Listed(NextScene(s, now, kept), paths)
    ensures Outcome(NextScene(s, now, kept), paths, flag) == Some(Trees(Merged(s), Merged(s)))
  {
    forall q, p | Above(q, p) ensures PairAgrees(NextScene(s, now, kept), flag, q, p) {
      LeftSideAgrees(s, now, kept, flag, FirstSide, q, p);
      LeftSideAgrees(s, now, kept, flag, SecondSide, q, p);
    }
    NextMergeIff(s, now, kept);
    CompatibleMerges(NextScene(s, now, kept), paths, flag);
  }
}
