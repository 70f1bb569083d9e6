/**
 Why incompatible snapshots never converge, and the theorem that makes "compatible" exact.
 */
module Divergence {
  import opened Common
  import opened Paths
  import opened FileTrees
  import opened SyncDomain
  import opened Inventories
  import opened Planners
  import opened PlanGoals
  import opened Merging
  import opened Mirroring

  lemma {:induction false} FirstDisagreement(s: Scene, paths: seq<string>, removesBelowFile: bool, q: string)
    returns (j: nat)
    requires q in paths && !AgreesBelow(s, removesBelowFile, q)
    ensures j < |paths| && !AgreesBelow(s, removesBelowFile, paths[j])
    ensures forall i :: 0 <= i < j ==> AgreesBelow(s, removesBelowFile, paths[i])
  {
    j := 0;
    while AgreesBelow(s, removesBelowFile, paths[j])
      invariant j < |paths|
      invariant forall i :: 0 <= i < j ==> AgreesBelow(s, removesBelowFile, paths[i])
      invariant exists i :: j <= i < |paths| && paths[i] == q
      decreases |paths| - j
    {
      j := j + 1;
    }
  }

  /** Up to the first disagreement the run is as in the compatible case, or already stuck. */
  lemma ArriveAt(s: Scene, paths: seq<string>, removesBelowFile: bool, j: nat) returns (now: Option<Trees>)
    requires Listed(s, paths) && j < |paths|
    requires forall i :: 0 <= i < j ==> AgreesBelow(s, removesBelowFile, paths[i])
    ensures now.None? ==> Outcome(s, paths, removesBelowFile).None?
    ensures now.Some? ==> Reached(s.trees, now.value, Merged(s), paths, Rulings(s, paths), j)
    ensures now.Some? ==> Outcome(s, paths, removesBelowFile) ==
                          PerformAll(now.value, PlanOf(Rulings(s, paths)[j..]), removesBelowFile)
  {
    var ds := Rulings(s, paths);
    forall i | 0 <= i < j ensures Serves(s.trees, Merged(s), paths[i], ds[i]) {
      assert paths[i] in paths;
      forall r | Above(r, paths[i]) ensures PairAgrees(s, removesBelowFile, r, paths[i]) {
        ParentListed(s.trees, paths, paths[i], r);
        var k := IndexOf(paths, r);
        EarlierIndex(paths, k, i);
        assert AgreesBelow(s, removesBelowFile, paths[k]);
      }
      RulingServes(s, removesBelowFile, paths[i]);
    }
    now := RunTo(s.trees, s.trees, Merged(s), paths, ds, 0, j, removesBelowFile);
    assert ds[0..] == ds;
  }

  function IndexOf(paths: seq<string>, p: string): (i: nat)
    requires p in paths
    ensures i < |paths| && paths[i] == p
  {
    if paths[0] == p then 0 else 1 + IndexOf(paths[1..], p)
  }

  lemma EarlierIndex(paths: seq<string>, k: nat, i: nat)
    requires StrictlySorted(paths) && k < |paths| && i < |paths| && Above(paths[k], paths[i])
    ensures k < i
  {
    AboveLess(paths[k], paths[i]);
    LessIrreflexive(paths[k]);
  }

  /** A later path neither is nor encloses an earlier one. */
  lemma LaterPath(paths: seq<string>, j: nat, i: nat)
    requires StrictlySorted(paths) && j < i < |paths|
    ensures !Within(paths[i], paths[j])
  {
    assert Less(paths[j], paths[i]);
    LessIrreflexive(paths[j]);
    if Above(paths[i], paths[j]) { EarlierIndex(paths, i, j); }
  }

  /** Everything below q is on one side only. */
  ghost predicate OneSidedBelow(s: Scene, side: Side, q: string) {
    forall y :: Above(q, y) ==> y !in s.trees.Of(Opposite(side))
  }

  /** Whatever below q the plan can still touch, it takes from `side` or removes from `side`. */
  lemma RulingBelow(s: Scene, side: Side, q: string, x: string)
    requires OneSidedBelow(s, side, q) && Above(q, x) && Ruling(s, x).Some?
    ensures Ruling(s, x).value == if x in s.recorded then DeleteActionForSide(x, side) else CopyActionForSide(x, side)
  {
  }

  /** An action at a path unrelated to q's subtree leaves that subtree alone, on both sides. */
  lemma ElsewhereUntouched(now: Trees, a: Action, flag: bool, q: string, y: string, side: Side)
    requires !Within(a.relativePath, q) && !Above(q, a.relativePath) && Within(q, y)
    requires Perform(now, a, flag).Some?
    ensures At(Perform(now, a, flag).value.Of(side), y) == At(now.Of(side), y)
  {
    var x := a.relativePath;
    if Within(x, y) { AncestorsComparable(x, q, y); }
    if Above(y, x) && y != q { AboveTransitive(q, y, x); }
    GraftedAt(now.Of(Opposite(side)), now.Of(side), x, y);
  }

  /** One decision of the plan, whatever the state it meets. */
  lemma Next(s: Scene, paths: seq<string>, flag: bool, now: Trees, n: nat) returns (next: Option<Trees>)
    requires n < |paths| && now.Valid()
    ensures next == if Ruling(s, paths[n]).None? then Some(now) else Perform(now, Ruling(s, paths[n]).value, flag)
    ensures next.Some? ==> next.value.Valid()
    ensures PerformAll(now, PlanOf(Rulings(s, paths)[n..]), flag) ==
            if next.None? then None else PerformAll(next.value, PlanOf(Rulings(s, paths)[n + 1..]), flag)
    ensures Ruling(s, paths[n]).Some? ==> Ruling(s, paths[n]).value.relativePath == paths[n]
  {
    UnrollPlan(now, Rulings(s, paths), n, flag);
    next := if Ruling(s, paths[n]).None? then Some(now) else Perform(now, Ruling(s, paths[n]).value, flag);
    if Ruling(s, paths[n]).Some? && next.Some? {
      PerformKeepsTrees(now, Ruling(s, paths[n]).value, flag);
    }
  }

  /** From index n on, no path is p or encloses it. */
  ghost predicate TurnPassed(paths: seq<string>, n: nat, p: string) {
    forall k :: n <= k < |paths| ==> !Within(paths[k], p)
  }

  lemma TurnPasses(paths: seq<string>, j: nat)
    requires StrictlySorted(paths) && j < |paths|
    ensures TurnPassed(paths, j + 1, paths[j])
  {
    forall k | j + 1 <= k < |paths| ensures !Within(paths[k], paths[j]) {
      LaterPath(paths, j, k);
    }
  }

  /** What is gone below q stays gone, so a later copy of something below q finds nothing. */
  lemma {:induction false} CopyOfGone(s: Scene, paths: seq<string>, flag: bool, side: Side,
                                      now: Trees, q: string, n: nat, i: nat)
    requires n <= i < |paths| && TurnPassed(paths, n, q) && now.Valid()
    requires OneSidedBelow(s, side, q)
    requires Ruling(s, paths[i]) == Some(CopyActionForSide(paths[i], side)) && Above(q, paths[i])
    requires GoneBelow(now.Of(side), q)
    ensures PerformAll(now, PlanOf(Rulings(s, paths)[n..]), flag).None?
    decreases i - n
  {
    var next := Next(s, paths, flag, now, n);
    if n == i {
      CopyOfMissingFails(now, flag, side, paths[i]);
    } else if next.Some? {
      if Ruling(s, paths[n]).Some? {
        GoneStaysGone(s, flag, side, now, q, Ruling(s, paths[n]).value);
      }
      CopyOfGone(s, paths, flag, side, next.value, q, n + 1, i);
    }
  }

  lemma CopyOfMissingFails(now: Trees, flag: bool, side: Side, p: string)
    requires p !in now.Of(side)
    ensures Perform(now, CopyActionForSide(p, side), flag).None?
  {
  }

  ghost predicate GoneBelow(t: Tree, q: string) {
    forall y :: Above(q, y) ==> y !in t
  }

  lemma GoneStaysGone(s: Scene, flag: bool, side: Side, now: Trees, q: string, a: Action)
    requires OneSidedBelow(s, side, q) && Ruling(s, a.relativePath) == Some(a)
    requires !Within(a.relativePath, q) && GoneBelow(now.Of(side), q)
    requires Perform(now, a, flag).Some?
    ensures GoneBelow(Perform(now, a, flag).value.Of(side), q)
  {
    forall y | Above(q, y) ensures y !in Perform(now, a, flag).value.Of(side) {
      if Above(q, a.relativePath) {
        RulingBelow(s, side, q, a.relativePath);
      } else {
        ElsewhereUntouched(now, a, flag, q, y, side);
      }
    }
  }

  predicate IsFileAt(t: Tree, q: string) {
    q in t && t[q].File?
  }

  /** A file that replaced the directory q stays there and blocks a later removal below q. */
  lemma {:induction false} RemovalBlocked(s: Scene, paths: seq<string>, side: Side,
                                          now: Trees, q: string, n: nat, i: nat)
    requires n <= i < |paths| && TurnPassed(paths, n, q) && now.Valid()
    requires OneSidedBelow(s, side, q)
    requires Ruling(s, paths[i]) == Some(DeleteActionForSide(paths[i], side)) && Above(q, paths[i])
    requires IsFileAt(now.Of(side), q)
    ensures PerformAll(now, PlanOf(Rulings(s, paths)[n..]), false).None?
    decreases i - n
  {
    var next := Next(s, paths, false, now, n);
    if n == i {
      RemovalBelowFileFails(now, side, q, paths[i]);
    } else if next.Some? {
      if Ruling(s, paths[n]).Some? {
        FileStays(s, side, now, q, Ruling(s, paths[n]).value);
      }
      RemovalBlocked(s, paths, side, next.value, q, n + 1, i);
    }
  }

  lemma RemovalBelowFileFails(now: Trees, side: Side, q: string, p: string)
    requires IsFileAt(now.Of(side), q) && Above(q, p)
    ensures Perform(now, DeleteActionForSide(p, side), false).None?
  {
  }

  lemma FileStays(s: Scene, side: Side, now: Trees, q: string, a: Action)
    requires OneSidedBelow(s, side, q) && Ruling(s, a.relativePath) == Some(a)
    requires !Within(a.relativePath, q) && IsFileAt(now.Of(side), q)
    requires Perform(now, a, false).Some?
    ensures IsFileAt(Perform(now, a, false).value.Of(side), q)
  {
    if Above(q, a.relativePath) {
      RulingBelow(s, side, q, a.relativePath);
    } else {
      ElsewhereUntouched(now, a, false, q, q, side);
    }
  }

  /** p is on the other side only. */
  predicate SplitAt(now: Trees, side: Side, p: string) {
    p !in now.Of(side) && p in now.Of(Opposite(side))
  }

  /** Once p is on the other side only, and its turn has passed, it stays so. */
  lemma {:induction false} SplitStays(s: Scene, paths: seq<string>, flag: bool, side: Side,
                                      now: Trees, p: string, n: nat)
    requires n <= |paths| && TurnPassed(paths, n, p) && now.Valid()
    requires OneSidedBelow(s, side, p) && SplitAt(now, side, p)
    ensures !Converges(PerformAll(now, PlanOf(Rulings(s, paths)[n..]), flag))
    decreases |paths| - n
  {
    if n == |paths| {
      assert Rulings(s, paths)[n..] == [];
      assert now.first != now.second;
    } else {
      var next := Next(s, paths, flag, now, n);
      if next.Some? {
        if Ruling(s, paths[n]).Some? {
          SplitKept(s, flag, side, now, p, Ruling(s, paths[n]).value);
        }
        SplitStays(s, paths, flag, side, next.value, p, n + 1);
      }
    }
  }

  lemma SplitKept(s: Scene, flag: bool, side: Side, now: Trees, p: string, a: Action)
    requires OneSidedBelow(s, side, p) && Ruling(s, a.relativePath) == Some(a)
    requires !Within(a.relativePath, p) && SplitAt(now, side, p)
    requires Perform(now, a, flag).Some?
    ensures SplitAt(Perform(now, a, flag).value, side, p)
  {
    if Above(p, a.relativePath) {
      RulingBelow(s, side, p, a.relativePath);
    } else {
      ElsewhereUntouched(now, a, flag, p, p, FirstSide);
      ElsewhereUntouched(now, a, flag, p, p, SecondSide);
    }
  }

  /** Both sides hold the same below q. */
  ghost predicate SameBelow(now: Trees, q: string) {
    forall y :: Above(q, y) ==> At(now.first, y) == At(now.second, y)
  }

  /**
   A directory was copied whole to the other side; its first confirmed entry is then removed
   from one side only.
   */
  lemma {:induction false} SplitLater(s: Scene, paths: seq<string>, flag: bool, side: Side,
                                      now: Trees, q: string, n: nat, i: nat)
    requires n <= i < |paths| && TurnPassed(paths, n, q) && TurnPassed(paths, i + 1, paths[i]) && now.Valid()
    requires OneSidedBelow(s, side, q) && SameBelow(now, q)
    requires Ruling(s, paths[i]) == Some(DeleteActionForSide(paths[i], side)) && Above(q, paths[i])
    requires forall k :: n <= k < i && Above(q, paths[k]) ==> paths[k] !in s.recorded
    requires paths[i] in now.Of(side)
    ensures !Converges(PerformAll(now, PlanOf(Rulings(s, paths)[n..]), flag))
    decreases i - n
  {
    if n == i {
      SplitNow(s, paths, flag, side, now, q, i);
    } else {
      var next := Next(s, paths, flag, now, n);
      if next.Some? {
        if Ruling(s, paths[n]).Some? {
          SameBelowKept(s, flag, side, now, q, Ruling(s, paths[n]).value, paths[i]);
        }
        SplitLater(s, paths, flag, side, next.value, q, n + 1, i);
      }
    }
  }

  lemma SplitNow(s: Scene, paths: seq<string>, flag: bool, side: Side, now: Trees, q: string, i: nat)
    requires i < |paths| && TurnPassed(paths, i + 1, paths[i]) && now.Valid()
    requires OneSidedBelow(s, side, q) && SameBelow(now, q)
    requires Ruling(s, paths[i]) == Some(DeleteActionForSide(paths[i], side)) && Above(q, paths[i])
    requires paths[i] in now.Of(side)
    ensures !Converges(PerformAll(now, PlanOf(Rulings(s, paths)[i..]), flag))
  {
    var next := Next(s, paths, flag, now, i);
    if next.Some? {
      OneSidedDeeper(s, side, q, paths[i]);
      RemovalSplits(now, flag, side, q, paths[i]);
      SplitStays(s, paths, flag, side, next.value, paths[i], i + 1);
    }
  }

  lemma OneSidedDeeper(s: Scene, side: Side, q: string, p: string)
    requires OneSidedBelow(s, side, q) && Above(q, p)
    ensures OneSidedBelow(s, side, p)
  {
  }

  lemma RemovalSplits(now: Trees, flag: bool, side: Side, q: string, p: string)
    requires SameBelow(now, q) && Above(q, p) && p in now.Of(side)
    requires Perform(now, DeleteActionForSide(p, side), flag).Some?
    ensures SplitAt(Perform(now, DeleteActionForSide(p, side), flag).value, side, p)
  {
  }

  lemma SameBelowKept(s: Scene, flag: bool, side: Side, now: Trees, q: string, a: Action, p: string)
    requires now.Valid() && OneSidedBelow(s, side, q) && SameBelow(now, q)
    requires Ruling(s, a.relativePath) == Some(a) && !Within(a.relativePath, q)
    requires Above(q, a.relativePath) ==> a.relativePath !in s.recorded
    requires Perform(now, a, flag).Some? && Above(q, p) && p in now.Of(side)
    ensures SameBelow(Perform(now, a, flag).value, q) && p in Perform(now, a, flag).value.Of(side)
  {
    var x, next := a.relativePath, Perform(now, a, flag).value;
    if Above(q, x) {
      RulingBelow(s, side, q, x);
      var source, target := now.Of(side), now.Of(Opposite(side));
      forall y | Above(q, y) ensures At(next.Of(Opposite(side)), y) == At(next.Of(side), y) {
        assert At(now.first, y) == At(now.second, y);
        GraftedAt(source, target, x, y);
      }
    } else {
      forall y | Above(q, y) ensures At(next.first, y) == At(next.second, y) {
        ElsewhereUntouched(now, a, flag, q, y, FirstSide);
        ElsewhereUntouched(now, a, flag, q, y, SecondSide);
      }
      ElsewhereUntouched(now, a, flag, q, p, side);
    }
  }

  // ----- the disagreement itself -----

  /** No directory above a two-sided path has been acted on when its turn comes. */
  lemma TwoSidedUntouched(s: Scene, paths: seq<string>, now: Trees, j: nat, side: Side)
    requires Listed(s, paths) && j < |paths|
    requires Reached(s.trees, now, Merged(s), paths, Rulings(s, paths), j)
    requires paths[j] in s.trees.first && paths[j] in s.trees.second
    ensures At(now.Of(side), paths[j]) == At(s.trees.Of(side), paths[j])
  {
    var ds := Rulings(s, paths);
    forall k | 0 <= k < j ensures Within(paths[k], paths[j]) ==> ds[k].None? && paths[k] != paths[j] {
      LessIrreflexive(paths[k]);
      if Above(paths[k], paths[j]) { TwoSidedParents(s, paths[k], paths[j]); }
    }
    assert !Settled(paths, ds, j, paths[j]);
  }

  lemma TwoSidedParents(s: Scene, q: string, p: string)
    requires s.trees.Valid() && Above(q, p) && p in s.trees.first && p in s.trees.second
    ensures Ruling(s, q).None?
  {
  }

  /** Nothing above a kept directory q was copied or removed if that disagrees on p below q. */
  lemma DisagreeingUntouched(s: Scene, paths: seq<string>, flag: bool, now: Trees, j: nat, side: Side, p: string)
    requires Listed(s, paths) && j < |paths| && Above(paths[j], p)
    requires Reached(s.trees, now, Merged(s), paths, Rulings(s, paths), j)
    requires forall i :: 0 <= i < j ==> AgreesBelow(s, flag, paths[i])
    requires p in s.trees.Of(side) && p !in s.trees.Of(Opposite(side)) && p in s.recorded
    requires paths[j] in s.trees.Of(Opposite(side)) || paths[j] !in s.recorded
    ensures At(now.Of(side), p) == At(s.trees.Of(side), p)
  {
    var ds, q := Rulings(s, paths), paths[j];
    forall k | 0 <= k < j ensures Within(paths[k], p) ==> paths[k] != p && ds[k].None? {
      LaterPath(paths, k, j);
      if Within(paths[k], p) {
        AncestorsComparable(paths[k], q, p);
        assert Above(paths[k], q);
        assert AgreesBelow(s, flag, paths[k]);
        AboveTransitive(paths[k], q, p);
        NothingActedAbove(s, flag, side, paths[k], q, p);
      }
    }
    assert !Settled(paths, ds, j, p);
  }

  lemma NothingActedAbove(s: Scene, flag: bool, side: Side, x: string, q: string, p: string)
    requires s.trees.Valid() && Above(x, q) && Above(q, p) && Above(x, p)
    requires PairAgrees(s, flag, x, q) && PairAgrees(s, flag, x, p)
    requires p in s.trees.Of(side) && p !in s.trees.Of(Opposite(side)) && p in s.recorded
    requires q in s.trees.Of(Opposite(side)) || q !in s.recorded
    ensures Ruling(s, x).None?
  {
  }

  /** The first confirmed entry below paths[j], at or before index i. */
  lemma FirstRecordedBelow(s: Scene, paths: seq<string>, j: nat, i: nat) returns (k: nat)
    requires j < i < |paths| && StrictlySorted(paths)
    requires Above(paths[j], paths[i]) && paths[i] in s.recorded
    ensures j < k <= i && Above(paths[j], paths[k]) && paths[k] in s.recorded
    ensures forall m :: j < m < k && Above(paths[j], paths[m]) ==> paths[m] !in s.recorded
  {
    k := j + 1;
    while !(Above(paths[j], paths[k]) && paths[k] in s.recorded)
      invariant j < k <= i
      invariant forall m :: j < m < k && Above(paths[j], paths[m]) ==> paths[m] !in s.recorded
      decreases i - k
    {
      k := k + 1;
    }
  }

  /** The copy of q to the other side, after which both sides agree below q. */
  lemma CopiedWhole(now: Trees, flag: bool, side: Side, q: string)
    requires now.Valid() && Perform(now, CopyActionForSide(q, side), flag).Some?
    ensures var next := Perform(now, CopyActionForSide(q, side), flag).value;
            SameBelow(next, q) && next.Of(side) == now.Of(side)
            && At(next.Of(Opposite(side)), q) == At(now.Of(side), q)
  {
  }

  /** A kept directory holds a confirmed entry. */
  lemma KeptDirectorySplits(s: Scene, paths: seq<string>, flag: bool, side: Side, now: Trees, j: nat, i: nat)
    requires Listed(s, paths) && j < i < |paths| && Above(paths[j], paths[i])
    requires Reached(s.trees, now, Merged(s), paths, Rulings(s, paths), j)
    requires forall k :: 0 <= k < j ==> AgreesBelow(s, flag, paths[k])
    requires Ruling(s, paths[j]) == Some(CopyActionForSide(paths[j], side))
    requires OneSidedBelow(s, side, paths[j])
    requires paths[i] in s.trees.Of(side) && paths[i] in s.recorded
    requires paths[j] in s.trees.Of(Opposite(side)) || paths[j] !in s.recorded
    ensures !Converges(PerformAll(now, PlanOf(Rulings(s, paths)[j..]), flag))
  {
    var next := Next(s, paths, flag, now, j);
    if next.Some? {
      var k := FirstRecordedBelow(s, paths, j, i);
      assert paths[k] in paths;
      assert paths[k] in s.trees.Of(side);
      DisagreeingUntouched(s, paths, flag, now, j, side, paths[k]);
      CopiedWhole(now, flag, side, paths[j]);
      TurnPasses(paths, j);
      TurnPasses(paths, k);
      SplitLater(s, paths, flag, side, next.value, paths[j], j + 1, k);
    }
  }

  /** A removed directory holds a new entry. */
  lemma RemovedDirectoryStarves(s: Scene, paths: seq<string>, flag: bool, side: Side, now: Trees, j: nat, i: nat)
    requires StrictlySorted(paths) && j < i < |paths| && Above(paths[j], paths[i]) && now.Valid()
    requires Ruling(s, paths[j]) == Some(DeleteActionForSide(paths[j], side))
    requires Ruling(s, paths[i]) == Some(CopyActionForSide(paths[i], side))
    requires OneSidedBelow(s, side, paths[j])
    ensures !Converges(PerformAll(now, PlanOf(Rulings(s, paths)[j..]), flag))
  {
    var next := Next(s, paths, flag, now, j);
    if next.Some? {
      TurnPasses(paths, j);
      CopyOfGone(s, paths, flag, side, next.value, paths[j], j + 1, i);
    }
  }

  /** A directory replaced by the other side's file holds a new entry, or one that cannot be removed. */
  lemma ReplacedDirectoryFails(s: Scene, paths: seq<string>, flag: bool, side: Side, now: Trees, j: nat, i: nat)
    requires Listed(s, paths) && j < i < |paths| && Above(paths[j], paths[i])
    requires Reached(s.trees, now, Merged(s), paths, Rulings(s, paths), j)
    requires Ruling(s, paths[j]) == Some(CopyActionForSide(paths[j], Opposite(side)))
    requires OneSidedBelow(s, side, paths[j]) && paths[i] in s.trees.Of(side)
    requires paths[j] in s.trees.Of(side) && IsFileAt(s.trees.Of(Opposite(side)), paths[j])
    requires paths[i] !in s.recorded || !flag
    ensures !Converges(PerformAll(now, PlanOf(Rulings(s, paths)[j..]), flag))
  {
    var next := Next(s, paths, flag, now, j);
    if next.Some? {
      TwoSidedUntouched(s, paths, now, j, Opposite(side));
      CopiedWhole(now, flag, Opposite(side), paths[j]);
      assert IsFileAt(next.value.Of(side), paths[j]);
      assert GoneBelow(next.value.Of(side), paths[j]);
      RulingBelow(s, side, paths[j], paths[i]);
      TurnPasses(paths, j);
      if paths[i] in s.recorded {
        RemovalBlocked(s, paths, side, next.value, paths[j], j + 1, i);
      } else {
        CopyOfGone(s, paths, flag, side, next.value, paths[j], j + 1, i);
      }
    }
  }

  lemma DisagreementOnSide(s: Scene, paths: seq<string>, flag: bool, side: Side, now: Trees, j: nat, p: string)
    requires Listed(s, paths) && j < |paths| && Above(paths[j], p)
    requires Reached(s.trees, now, Merged(s), paths, Rulings(s, paths), j)
    requires forall k :: 0 <= k < j ==> AgreesBelow(s, flag, paths[k])
    requires !SideAgrees(s, flag, side, paths[j], p)
    ensures !Converges(PerformAll(now, PlanOf(Rulings(s, paths)[j..]), flag))
  {
    var q, has, lacks := paths[j], s.trees.Of(side), s.trees.Of(Opposite(side));
    assert p in has && p !in lacks && q in has;
    assert p in paths;
    var i := IndexOf(paths, p);
    EarlierIndex(paths, j, i);
    OneSidedUnder(s, side, q);
    RulingBelow(s, side, q, p);
    if q !in lacks && q in s.recorded {
      RemovedDirectoryStarves(s, paths, flag, side, now, j, i);
    } else if q !in lacks || s.kept(q) == side {
      KeptDirectorySplits(s, paths, flag, side, now, j, i);
    } else {
      ReplacedDirectoryFails(s, paths, flag, side, now, j, i);
    }
  }

  lemma OneSidedUnder(s: Scene, side: Side, q: string)
    requires s.trees.Valid() && (q !in s.trees.Of(Opposite(side)) || IsFileAt(s.trees.Of(Opposite(side)), q))
    ensures OneSidedBelow(s, side, q)
  {
  }

  lemma Disagreement(s: Scene, paths: seq<string>, flag: bool, j: nat, p: string)
    requires Listed(s, paths) && j < |paths| && Above(paths[j], p)
    requires forall k :: 0 <= k < j ==> AgreesBelow(s, flag, paths[k])
    requires !PairAgrees(s, flag, paths[j], p)
    ensures !Converges(Outcome(s, paths, flag))
  {
    var now := ArriveAt(s, paths, flag, j);
    if now.Some? {
      if !SideAgrees(s, flag, FirstSide, paths[j], p) {
        DisagreementOnSide(s, paths, flag, FirstSide, now.value, j, p);
      } else {
        DisagreementOnSide(s, paths, flag, SecondSide, now.value, j, p);
      }
    }
  }

  /**
   Bidirectional synchronization makes the trees equal exactly for compatible snapshots, and
   then both are the pointwise merge.
   */
  lemma MergeIff(s: Scene, paths: seq<string>, removesBelowFile: bool)
    requires Listed(s, paths)
    ensures Converges(Outcome(s, paths, removesBelowFile)) <==> Compatible(s, removesBelowFile)
    ensures Compatible(s, removesBelowFile) ==>
      Outcome(s, paths, removesBelowFile) == Some(Trees(Merged(s), Merged(s)))
  {
    if Compatible(s, removesBelowFile) {
      CompatibleMerges(s, paths, removesBelowFile);
    } else {
      var q, p :| Above(q, p) && !PairAgrees(s, removesBelowFile, q, p);
      assert p in paths && q in paths by {
        assert p in s.trees.first || p in s.trees.second;
        if p in s.trees.first { assert q in s.trees.first; } else { assert q in s.trees.second; }
      }
      var j := FirstDisagreement(s, paths, removesBelowFile, q);
      var p' :| Above(paths[j], p') && !PairAgrees(s, removesBelowFile, paths[j], p');
      Disagreement(s, paths, removesBelowFile, j, p');
    }
  }

  // ----- snapshots that fail -----

  const D := "d"
  const DX := "d/x"

  lemma AboveDX(q: string)
    ensures Above(q, DX) <==> q == D
    ensures !Above(q, D)
  {
  }

  predicate SmallTree(t: Tree) {
    t == map[] || t == map[D := File([])] || t == map[D := Directory, DX := File([])]
  }

  /** A directory with one file, against nothing or a file in the directory's place. */
  lemma SmallTreesListed(trees: Trees)
    requires SmallTree(trees.first) && SmallTree(trees.second)
    requires DX in trees.first || DX in trees.second
    ensures trees.Valid() && Enumerates([D, DX], trees.first.Keys + trees.second.Keys)
  {
    forall p, q | Above(q, p) && (p == D || p == DX) ensures p == DX && q == D {
      AboveDX(q);
    }
    AboveDX(D);
    AboveLess(D, DX);
    assert trees.first.Keys + trees.second.Keys == {D, DX};
  }

  /** A confirmed directory was deleted on the second side while the first gained an entry in it. */
  lemma NewEntryInDeletedDirectory(kept: string -> Side, removesBelowFile: bool)
    ensures !Converges(Outcome(Scene(Trees(map[D := Directory, DX := File([])], map[]), {D}, kept), [D, DX],
                               removesBelowFile))
  {
    var s := Scene(Trees(map[D := Directory, DX := File([])], map[]), {D}, kept);
    SmallTreesListed(s.trees);
    AboveDX(D);
    assert !PairAgrees(s, removesBelowFile, D, DX);
    MergeIff(s, [D, DX], removesBelowFile);
  }

  /** A confirmed directory became a file on the second side, and the user keeps the directory. */
  lemma ConfirmedEntryInKeptDirectory(removesBelowFile: bool)
    ensures !Converges(Outcome(
      Scene(Trees(map[D := Directory, DX := File([])], map[D := File([])]), {D, DX}, p => FirstSide), [D, DX],
          removesBelowFile))
  {
    var s := Scene(Trees(map[D := Directory, DX := File([])], map[D := File([])]), {D, DX}, p => FirstSide);
    SmallTreesListed(s.trees);
    AboveDX(D);
    assert !PairAgrees(s, removesBelowFile, D, DX);
    MergeIff(s, [D, DX], removesBelowFile);
  }

  /** The first side has a file where the second has a directory with contents. */
  lemma FileReplacingDirectory(firstTimes: string -> int, secondTimes: string -> int)
    ensures var trees := Trees(map[D := File([])], map[D := Directory, DX := File([])]);
            PerformAll(trees, MirrorPlan(trees, [D, DX], FirstSide, firstTimes, secondTimes), false) == None
  {
    var trees := Trees(map[D := File([])], map[D := Directory, DX := File([])]);
    SmallTreesListed(trees);
    AboveDX(D);
    assert Above(D, DX) && DX in trees.second && trees.first[D].File?;
    MirrorIsExact(trees, [D, DX], FirstSide, firstTimes, secondTimes, false);
  }
}
