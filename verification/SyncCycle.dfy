/**
 One synchronization cycle: snapshot, plan, execute, verify, and only then replace the
 confirmed record.
 */
module SyncCycle {
  import opened Common
  import opened Paths
  import opened FileTrees
  import opened SyncDomain
  import opened Inventories
  import opened Planners
  import opened Mirroring
  import opened Merging
  import opened Divergence
  import opened Executor
  import opened Losses
  import opened Recovery

  /** Modification times as the inventories of one cycle see them, before and after execution. */
  datatype Times = Times(first: string -> int, second: string -> int,
                         firstAfter: string -> int, secondAfter: string -> int)

  /** The comparison of a path with its confirmed entry attached. */
  function SnapshotAt(trees: Trees, times: Times, recorded: Inventory, p: string): Comparison {
    Attach(CompareAt(InventoryOf(trees.first, times.first), InventoryOf(trees.second, times.second), p), recorded)
  }

  /** The side whose entry prevails where both differ: the newer file, else the user's choice. */
  function PrevailingSide(c: Comparison, prompts: Prompts): Side {
    if c.first.None? || c.second.None? then FirstSide
    else if c.first.value.kind.FileEntry? && c.second.value.kind.FileEntry? then
      if c.first.value.modificationTime > c.second.value.modificationTime then FirstSide
      else if c.second.value.modificationTime > c.first.value.modificationTime then SecondSide
      else Answer(c, prompts.fileSide)
    else Answer(c, prompts.kindSide)
  }

  function Answer(c: Comparison, prompt: Option<Comparison -> Result<Side>>): Side {
    if prompt.Some? && prompt.value(c).Success? then prompt.value(c).value else FirstSide
  }

  function SceneOf(trees: Trees, times: Times, recorded: Inventory, prompts: Prompts): Scene {
    Scene(trees, recorded.Keys, p => PrevailingSide(SnapshotAt(trees, times, recorded, p), prompts))
  }

  function Snapshot(trees: Trees, times: Times, recorded: Inventory, paths: seq<string>): (cs: seq<Comparison>)
    ensures |cs| == |paths| && forall i :: 0 <= i < |cs| ==> cs[i] == SnapshotAt(trees, times, recorded, paths[i])
  {
    seq(|paths|, i requires 0 <= i < |paths| => SnapshotAt(trees, times, recorded, paths[i]))
  }

  /** Comparing digests, kinds, times and answers comes to ruling on the trees themselves. */
  lemma DecisionIsRuling(trees: Trees, times: Times, recorded: Inventory, prompts: Prompts, p: string)
    requires BidirectionalDecision(SnapshotAt(trees, times, recorded, p), prompts).Success?
    ensures BidirectionalDecision(SnapshotAt(trees, times, recorded, p), prompts).value
         == Ruling(SceneOf(trees, times, recorded, prompts), p)
  {
    if p in trees.first && p in trees.second {
      var c := SnapshotAt(trees, times, recorded, p);
      EntriesDecide(c, trees.first[p], trees.second[p], times.first(p), times.second(p), prompts);
    }
  }

  /** The case of an entry on both sides. */
  lemma EntriesDecide(c: Comparison, first: Node, second: Node, firstTime: int, secondTime: int, prompts: Prompts)
    requires c.first == Some(EntryOf(c.relativePath, first, firstTime))
    requires c.second == Some(EntryOf(c.relativePath, second, secondTime))
    requires BidirectionalDecision(c, prompts).Success?
    ensures BidirectionalDecision(c, prompts).value ==
            if first == second then None else Some(CopyActionForSide(c.relativePath, PrevailingSide(c, prompts)))
  {
  }

  lemma PlanIsRulings(trees: Trees, times: Times, recorded: Inventory, prompts: Prompts, paths: seq<string>)
    requires Resolvable(Snapshot(trees, times, recorded, paths), prompts)
    ensures BidirectionalDecisions(Snapshot(trees, times, recorded, paths), prompts)
         == Rulings(SceneOf(trees, times, recorded, prompts), paths)
  {
    var cs := Snapshot(trees, times, recorded, paths);
    forall i | 0 <= i < |cs|
      ensures BidirectionalDecisions(cs, prompts)[i] == Rulings(SceneOf(trees, times, recorded, prompts), paths)[i]
    {
      DecisionIsRuling(trees, times, recorded, prompts, paths[i]);
    }
  }

  /**
   A path at which the trees differ can be decided: one of two files is newer, or the user
   answers the question asked of two files, or of entries that are not two files.
   */
  ghost predicate DecidableAt(trees: Trees, times: Times, recorded: Inventory, prompts: Prompts, p: string)
    requires p in trees.first && p in trees.second
  {
    var question := SnapshotAt(trees, times, recorded, p);
    if trees.first[p].File? && trees.second[p].File? then
      times.first(p) != times.second(p) || (prompts.fileSide.Some? && prompts.fileSide.value(question).Success?)
    else prompts.kindSide.Some? && prompts.kindSide.value(question).Success?
  }

  /** Every conflict of the snapshot can be decided: the newer file, or an answer of the user. */
  ghost predicate Decidable(trees: Trees, times: Times, recorded: Inventory, prompts: Prompts) {
    forall p :: p in trees.first && p in trees.second && trees.first[p] != trees.second[p] ==>
      DecidableAt(trees, times, recorded, prompts, p)
  }

  lemma DecisionExistsIff(trees: Trees, times: Times, recorded: Inventory, prompts: Prompts, p: string)
    requires p in trees.first && p in trees.second
    ensures BidirectionalDecision(SnapshotAt(trees, times, recorded, p), prompts).Success? <==>
            trees.first[p] == trees.second[p] || DecidableAt(trees, times, recorded, prompts, p)
  {
  }

  lemma DecidableIffResolvable(trees: Trees, times: Times, recorded: Inventory, prompts: Prompts, paths: seq<string>)
    requires Enumerates(paths, trees.first.Keys + trees.second.Keys)
    ensures Decidable(trees, times, recorded, prompts) <==> Resolvable(Snapshot(trees, times, recorded, paths), prompts)
  {
    var cs := Snapshot(trees, times, recorded, paths);
    if Resolvable(cs, prompts) {
      forall p | p in trees.first && p in trees.second && trees.first[p] != trees.second[p]
        ensures DecidableAt(trees, times, recorded, prompts, p)
      {
        assert p in paths;
        var i := IndexOf(paths, p);
        assert BidirectionalDecision(cs[i], prompts).Success?;
        DecisionExistsIff(trees, times, recorded, prompts, p);
      }
    } else {
      var i :| 0 <= i < |cs| && !BidirectionalDecision(cs[i], prompts).Success?;
      UndecidedConflict(trees, times, recorded, prompts, paths[i]);
    }
  }

  lemma UndecidedConflict(trees: Trees, times: Times, recorded: Inventory, prompts: Prompts, p: string)
    requires BidirectionalDecision(SnapshotAt(trees, times, recorded, p), prompts).Failure?
    ensures p in trees.first && p in trees.second && trees.first[p] != trees.second[p]
    ensures !DecidableAt(trees, times, recorded, prompts, p)
  {
    if p in trees.first && p in trees.second { DecisionExistsIff(trees, times, recorded, prompts, p); }
  }

  /**
   What the merge holds where both trees have an entry and these differ: the newer of two
   files, and otherwise the entry of the side the user keeps, asked about two files or about
   entries of different kinds.
   */
  lemma ConflictIsSettled(trees: Trees, times: Times, recorded: Inventory, prompts: Prompts, p: string)
    requires p in trees.first && p in trees.second && trees.first[p] != trees.second[p]
    ensures var merged := Merged(SceneOf(trees, times, recorded, prompts));
            var question := SnapshotAt(trees, times, recorded, p);
            var prompt := if trees.first[p].File? && trees.second[p].File? then prompts.fileSide else prompts.kindSide;
            var newer := trees.first[p].File? && trees.second[p].File? && times.first(p) != times.second(p);
            && p in merged
            && (newer ==> merged[p] == if times.first(p) > times.second(p) then trees.first[p] else trees.second[p])
            && (!newer && prompt.Some? ==>
                  && (prompt.value(question) == Success(FirstSide) ==> merged[p] == trees.first[p])
                  && (prompt.value(question) == Success(SecondSide) ==> merged[p] == trees.second[p]))
  {
    var s := SceneOf(trees, times, recorded, prompts);
    assert At(Merged(s), p) == MergedAt(s, p);
  }

  /** Every entry of the inventory once, by path. */
  ghost predicate ListsInventory(entries: seq<Entry>, inventory: Inventory) {
    && (forall i, j :: 0 <= i < j < |entries| ==> Less(entries[i].relativePath, entries[j].relativePath))
    && (forall e :: e in entries ==> e.relativePath in inventory && inventory[e.relativePath] == e)
    && (forall p :: p in inventory ==> inventory[p] in entries)
  }

  ghost predicate Lists(entries: seq<Entry>, tree: Tree, times: string -> int) {
    ListsInventory(entries, InventoryOf(tree, times))
  }

  method SortedEntries(inventory: Inventory) returns (entries: seq<Entry>)
    requires IsInventory(inventory)
    ensures ListsInventory(entries, inventory)
    ensures forall i, j :: 0 <= i < j < |entries| ==> Less(entries[i].relativePath, entries[j].relativePath)
  {
    var paths := SortPaths(inventory.Keys);
    entries := [];
    for i := 0 to |paths|
      invariant |entries| == i
      invariant forall j :: 0 <= j < i ==> paths[j] in inventory && entries[j] == inventory[paths[j]]
    {
      assert paths[i] in paths;
      entries := entries + [inventory[paths[i]]];
    }
    forall p | p in inventory ensures inventory[p] in entries {
      assert p in paths;
      var i := IndexOf(paths, p);
      assert entries[i] == inventory[p];
    }
  }

  /** Equal already, or a side is chosen that can be mirrored. */
  ghost predicate CanMirror(trees: Trees, authority: Result<Side>, removesBelowFile: bool) {
    trees.first == trees.second ||
    (authority.Success? && (removesBelowFile ||
     !FileReplacesFullDirectory(trees.Of(authority.value), trees.Of(Opposite(authority.value)))))
  }

  /** Every path of either tree, sorted, with both sides' entries. */
  ghost predicate Compares(comparisons: seq<Comparison>, trees: Trees, times: Times) {
    && Enumerates(PathsOf(comparisons), trees.first.Keys + trees.second.Keys)
    && comparisons == CompareAll(InventoryOf(trees.first, times.first), InventoryOf(trees.second, times.second),
                                 PathsOf(comparisons))
  }

  lemma MirrorPlanIsExact(trees: Trees, comparisons: seq<Comparison>, times: Times, side: Side, removesBelowFile: bool)
    requires trees.Valid() && Compares(comparisons, trees, times)
    ensures PerformAll(trees, PlanOf(AuthoritativeDecisions(comparisons, side)), removesBelowFile) ==
            if removesBelowFile || !FileReplacesFullDirectory(trees.Of(side), trees.Of(Opposite(side)))
            then Some(Trees(trees.Of(side), trees.Of(side))) else None
  {
    MirrorIsExact(trees, PathsOf(comparisons), side, times.first, times.second, removesBelowFile);
  }

  /** Executing the merge's plan ends with the merge exactly if it is compatible, and loses nothing where it stops. */
  lemma ExecutedOrSafe(s: Scene, paths: seq<string>, flag: bool, completed: bool, done: nat, mid: Trees, after: Trees)
    requires Listed(s, paths)
    requires completed ==> PerformAll(s.trees, PlanOf(Rulings(s, paths)), flag) == Some(after)
    requires !completed ==> done < |PlanOf(Rulings(s, paths))| && LeftAt(mid, after, PlanOf(Rulings(s, paths))[done])
                            && PerformAll(s.trees, PlanOf(Rulings(s, paths))[..done], flag) == Some(mid)
    ensures Outcome(s, paths, flag).Some?
            && Outcome(s, paths, flag).value.first == Outcome(s, paths, flag).value.second <==>
            Compatible(s, flag)
    ensures Compatible(s, flag) ==> Outcome(s, paths, flag) == Some(Trees(Merged(s), Merged(s)))
    ensures Compatible(s, flag) ==> LeftIntact(s, after)
    ensures NoFirstDestroyer(s) ==> MergeKept(s, after)
  {
    MergeIff(s, paths, flag);
    if Compatible(s, flag) {
      if completed { GoalIsIntact(s); } else { FailedPlanLosesNothing(s, paths, flag, done, mid, after); }
    }
    if NoFirstDestroyer(s) {
      if completed { EndedPlanKeepsMerge(s, paths, flag, after); }
      else { StoppedPlanKeepsMerge(s, paths, flag, done, mid, after); }
    }
  }

  class Session {
    const roots: SyncRoots
    /** The confirmed record, replaced atomically. */
    var committed: Option<seq<Entry>>

    constructor (roots: SyncRoots)
      ensures this.roots == roots && committed == None
    {
      this.roots := roots;
      committed := None;
    }

    /** Commit the first inventory once execution completed and both inventories agree. */
    method VerifyAndCommit(completed: bool, times: Times) returns (ok: bool)
      modifies roots`faulted, this`committed
      ensures ok ==> completed && roots.trees.first == roots.trees.second
      ensures ok ==> committed.Some? && Lists(committed.value, roots.trees.first, times.firstAfter)
      ensures !ok ==> committed == old(committed)
      ensures !roots.faulted ==> (ok <==> completed && roots.trees.first == roots.trees.second)
      ensures old(roots.faulted) ==> roots.faulted
    {
      if !completed { return false; }
      var inspected := roots.Inspect();
      if inspected != Done { return false; }
      var first := InventoryOf(roots.trees.first, times.firstAfter);
      var second := InventoryOf(roots.trees.second, times.secondAfter);
      EquivalentIffSameTree(roots.trees.first, roots.trees.second, times.firstAfter, times.secondAfter);
      var same := HaveEquivalentContents(first, second);
      if !same { return false; }
      var entries := SortedEntries(first);
      var saved := roots.Inspect();
      if saved != Done { return false; }
      committed := Some(entries);
      return true;
    }

    /** A bidirectional cycle, with the user's answers given in advance. */
    method PerformSynchronization(times: Times, prompts: Prompts, authority: Result<Side>, patience: nat)
      returns (ok: bool)
      requires roots.trees.Valid()
      modifies roots`trees, roots`faulted, roots`notices, this`committed
      ensures roots.trees.Valid()
      ensures !ok ==> committed == old(committed)
      ensures ok ==> roots.trees.first == roots.trees.second
      ensures ok ==> committed.Some? && Lists(committed.value, roots.trees.first, times.firstAfter)
      // with a record: the three-way merge, exactly when the snapshot is compatible
      ensures ok && old(committed).Some? ==>
        roots.trees.first == Merged(SceneOf(old(roots.trees), times, RecordedEntries(old(committed).value), prompts))
      ensures !roots.faulted && old(committed).Some? ==>
        var recorded := RecordedEntries(old(committed).value);
        ok <==> Decidable(old(roots.trees), times, recorded, prompts)
                && Compatible(SceneOf(old(roots.trees), times, recorded, prompts), roots.removesBelowFile)
      // a conflict that is left undecided stops the cycle before anything is changed
      ensures old(committed).Some?
              && !Decidable(old(roots.trees), times, RecordedEntries(old(committed).value), prompts) ==>
        !ok && roots.trees == old(roots.trees) && roots.notices == old(roots.notices)
      // whatever failed, all of the merge is still there if no new entry has a first destroyer,
      // and a compatible snapshot is left intact
      ensures old(committed).Some? ==>
        var s := SceneOf(old(roots.trees), times, RecordedEntries(old(committed).value), prompts);
        && (NoFirstDestroyer(s) ==> MergeKept(s, roots.trees))
        && (Compatible(s, roots.removesBelowFile) ==> LeftIntact(s, roots.trees))
      // without a record: equal trees are confirmed, else the chosen side is mirrored
      ensures ok && old(committed).None? && old(roots.trees).first == old(roots.trees).second ==>
        roots.trees == old(roots.trees)
      ensures ok && old(committed).None? && old(roots.trees).first != old(roots.trees).second ==>
        authority.Success? && roots.trees.first == old(roots.trees).Of(authority.value)
      ensures old(committed).None? && authority.Success? ==>
        roots.trees.Of(authority.value) == old(roots.trees).Of(authority.value)
      ensures old(committed).None? && authority.Failure? ==> roots.trees == old(roots.trees)
      ensures !roots.faulted && old(committed).None? ==>
        (ok <==> CanMirror(old(roots.trees), authority, roots.removesBelowFile))
    {
      StartIsIntact(SceneOf(roots.trees, times, RecordedEntries(if committed.Some? then committed.value else []),
                            prompts));
      var prepared := roots.Inspect();
      if prepared != Done { return false; }
      var first, second := InventoryOf(roots.trees.first, times.first), InventoryOf(roots.trees.second, times.second);
      var comparisons := CompareInventories(first, second);
      if committed.None? {
        ok := SynchronizeUnrecorded(comparisons, first, second, times, authority, patience);
      } else {
        ok := SynchronizeRecorded(comparisons, times, prompts, patience);
      }
    }

    /** With a record: plan against it, execute, verify and commit. */
    method SynchronizeRecorded(comparisons: seq<Comparison>, times: Times, prompts: Prompts,
                               patience: nat) returns (ok: bool)
      requires roots.trees.Valid() && committed.Some?
      requires Compares(comparisons, roots.trees, times)
      modifies roots`trees, roots`faulted, roots`notices, this`committed
      ensures roots.trees.Valid()
      ensures !ok ==> committed == old(committed)
      ensures ok ==> roots.trees.first == roots.trees.second
      ensures ok ==> committed.Some? && Lists(committed.value, roots.trees.first, times.firstAfter)
      ensures var recorded := RecordedEntries(old(committed).value);
              var s := SceneOf(old(roots.trees), times, recorded, prompts);
              && (ok ==> roots.trees.first == Merged(s))
              && (NoFirstDestroyer(s) ==> MergeKept(s, roots.trees))
              && (Compatible(s, roots.removesBelowFile) ==> LeftIntact(s, roots.trees))
              && (!roots.faulted ==>
                    (ok <==>
                     Decidable(old(roots.trees), times, recorded, prompts) && Compatible(s, roots.removesBelowFile)))
      ensures !Decidable(old(roots.trees), times, RecordedEntries(old(committed).value), prompts) ==>
        !ok && roots.trees == old(roots.trees) && roots.notices == old(roots.notices)
      ensures old(roots.faulted) ==> roots.faulted
    {
      ghost var start, paths := roots.trees, PathsOf(comparisons);
      ghost var recorded := RecordedEntries(committed.value);
      ghost var s := SceneOf(start, times, recorded, prompts);
      StartIsIntact(s);
      var attached := AttachConfirmedEntries(comparisons, committed.value, true);
      assert attached == Snapshot(start, times, recorded, paths);
      DecidableIffResolvable(start, times, recorded, prompts, paths);
      var plan := GenerateSynchronizationPlan(attached, prompts);
      if plan.Failure? { return false; }
      PlanIsRulings(start, times, recorded, prompts, paths);
      var completed, done, mid := roots.ExecutePlan(plan.value, patience);
      ExecutedOrSafe(s, paths, roots.removesBelowFile, completed, done, mid, roots.trees);
      ok := VerifyAndCommit(completed, times);
    }

    /** Without a record: equal trees are confirmed, else the chosen side is mirrored. */
    method SynchronizeUnrecorded(comparisons: seq<Comparison>, first: Inventory, second: Inventory, times: Times,
                                 authority: Result<Side>, patience: nat) returns (ok: bool)
      requires roots.trees.Valid()
      requires first == InventoryOf(roots.trees.first, times.first)
               && second == InventoryOf(roots.trees.second, times.second)
      requires Compares(comparisons, roots.trees, times)
      modifies roots`trees, roots`faulted, roots`notices, this`committed
      ensures roots.trees.Valid()
      ensures !ok ==> committed == old(committed)
      ensures ok ==> roots.trees.first == roots.trees.second
      ensures ok ==> committed.Some? && Lists(committed.value, roots.trees.first, times.firstAfter)
      ensures ok && old(roots.trees).first == old(roots.trees).second ==> roots.trees == old(roots.trees)
      ensures ok && old(roots.trees).first != old(roots.trees).second ==>
        authority.Success? && roots.trees.first == old(roots.trees).Of(authority.value)
      ensures authority.Success? ==> roots.trees.Of(authority.value) == old(roots.trees).Of(authority.value)
      ensures authority.Failure? ==> roots.trees == old(roots.trees)
      ensures !roots.faulted ==> (ok <==> CanMirror(old(roots.trees), authority, roots.removesBelowFile))
      ensures old(roots.faulted) ==> roots.faulted
    {
      EquivalentIffSameTree(roots.trees.first, roots.trees.second, times.first, times.second);
      var same := HaveEquivalentContents(first, second);
      if same {
        ok := ConfirmEqual(comparisons, first, second, times, patience);
      } else {
        if authority.Failure? { return false; }
        ok := MirrorSide(comparisons, times, authority.value, patience);
      }
    }

    /** Both sides agree: the plan is empty, and the trees are confirmed as they are. */
    method ConfirmEqual(comparisons: seq<Comparison>, first: Inventory, second: Inventory, times: Times, patience: nat)
      returns (ok: bool)
      requires roots.trees.Valid() && roots.trees.first == roots.trees.second
      requires first == InventoryOf(roots.trees.first, times.first)
               && second == InventoryOf(roots.trees.second, times.second)
      requires Compares(comparisons, roots.trees, times)
      modifies roots`trees, roots`faulted, roots`notices, this`committed
      ensures roots.trees == old(roots.trees)
      ensures !ok ==> committed == old(committed)
      ensures ok ==> committed.Some? && Lists(committed.value, roots.trees.first, times.firstAfter)
      ensures !roots.faulted ==> ok
      ensures old(roots.faulted) ==> roots.faulted
    {
      EquivalentIffSameTree(roots.trees.first, roots.trees.second, times.first, times.second);
      var plan := PlanWithoutPrompts(comparisons, first, second, PathsOf(comparisons));
      var completed, _, _ := roots.ExecutePlan(plan, patience);
      ok := VerifyAndCommit(completed, times);
    }

    /** Make the other side a copy of the given one, verify and commit. */
    method MirrorSide(comparisons: seq<Comparison>, times: Times, side: Side, patience: nat) returns (ok: bool)
      requires roots.trees.Valid() && Compares(comparisons, roots.trees, times)
      modifies roots`trees, roots`faulted, roots`notices, this`committed
      ensures roots.trees.Valid()
      ensures !ok ==> committed == old(committed)
      ensures roots.trees.Of(side) == old(roots.trees).Of(side)
      ensures ok ==> roots.trees.Of(Opposite(side)) == old(roots.trees).Of(side)
      ensures ok ==> committed.Some? && Lists(committed.value, roots.trees.first, times.firstAfter)
      ensures !roots.faulted ==> (ok <==> roots.removesBelowFile ||
                                          !FileReplacesFullDirectory(old(roots.trees).Of(side),
                                                                     old(roots.trees).Of(Opposite(side))))
      ensures old(roots.faulted) ==> roots.faulted
    {
      ghost var start := roots.trees;
      var plan := GenerateAuthoritativePlan(comparisons, side);
      AuthoritativePlanSpares(comparisons, side);
      MirrorPlanIsExact(start, comparisons, times, side, roots.removesBelowFile);
      var completed, _, _ := roots.ExecutePlan(plan, patience);
      ok := VerifyAndCommit(completed, times);
    }

    /** The unidirectional cycle: a completed one has made the second side a copy of the first. */
    method SynchronizeUnidirectional(times: Times, patience: nat) returns (ok: bool)
      requires roots.trees.Valid()
      modifies roots`trees, roots`faulted, roots`notices, this`committed
      ensures roots.trees.Valid()
      ensures !ok ==> committed == old(committed)
      ensures roots.trees.first == old(roots.trees).first
      ensures ok ==> roots.trees == Trees(old(roots.trees).first, old(roots.trees).first)
      ensures ok ==> committed.Some? && Lists(committed.value, old(roots.trees).first, times.firstAfter)
      ensures !roots.faulted ==>
        (ok <==> roots.removesBelowFile || !FileReplacesFullDirectory(old(roots.trees).first, old(roots.trees).second))
    {
      ghost var start := roots.trees;
      var prepared := roots.Inspect();
      if prepared != Done { return false; }
      var first, second := InventoryOf(roots.trees.first, times.first), InventoryOf(roots.trees.second, times.second);
      var comparisons := CompareInventories(first, second);
      ghost var paths := PathsOf(comparisons);
      var plan := GenerateUnidirectionalPlan(comparisons);
      AuthoritativeFirstIsUnidirectional(comparisons);
      AuthoritativePlanSpares(comparisons, FirstSide);
      UnidirectionalPlanMirrors(start, paths, times.first, times.second, roots.removesBelowFile);
      var completed, done, mid := roots.ExecutePlan(plan, patience);
      ok := VerifyAndCommit(completed, times);
    }
  }

  /** Without prompts the plan of equivalent inventories exists and is empty. */
  method PlanWithoutPrompts(comparisons: seq<Comparison>, first: Inventory, second: Inventory, ghost paths: seq<string>)
    returns (plan: seq<Action>)
    requires IsInventory(first) && IsInventory(second) && Enumerates(paths, first.Keys + second.Keys)
    requires comparisons == CompareAll(first, second, paths) && Equivalent(first, second)
    ensures plan == []
  {
    BidirectionalEmptyIffEquivalent(first, second, paths, comparisons, Prompts(None, None));
    var planned := GenerateSynchronizationPlan(comparisons, Prompts(None, None));
    plan := planned.value;
  }

  // ----- what the record is worth in the next cycle -----

  /** Reattaching a committed record marks exactly the paths of the committed tree. */
  lemma RecordMarksTree(entries: seq<Entry>, tree: Tree, times: string -> int)
    requires Lists(entries, tree, times)
    ensures RecordedEntries(entries) == InventoryOf(tree, times)
  {
    var recorded, inventory := RecordedEntries(entries), InventoryOf(tree, times);
    forall p | p in inventory ensures p in recorded {
      assert inventory[p] in entries;
      var i :| 0 <= i < |entries| && entries[i] == inventory[p];
      assert entries[i].relativePath == p;
    }
    forall p | p in recorded ensures p in inventory && recorded[p] == inventory[p] {
      assert recorded[p] in entries;
    }
  }

  /** Nothing changed since the commit: compatible, and the merge is what is there. */
  lemma CommittedIsStable(tree: Tree, kept: string -> Side, removesBelowFile: bool)
    requires IsTree(tree)
    ensures Compatible(Scene(Trees(tree, tree), tree.Keys, kept), removesBelowFile)
    ensures Merged(Scene(Trees(tree, tree), tree.Keys, kept)) == tree
  {
  }

  /**
   Changes made on one side since the commit (additions, deletions, edits that prevail,
   changes of kind that prevail) are carried over exactly.
   */
  lemma OneSidedChangesPropagate(changed: Tree, committed: Tree, kept: string -> Side, removesBelowFile: bool)
    requires IsTree(changed) && IsTree(committed)
    requires forall p :: p in changed && p in committed && changed[p] != committed[p] ==> kept(p) == FirstSide
    ensures var s := Scene(Trees(changed, committed), committed.Keys, kept);
            && Merged(s) == changed
            && (Compatible(s, removesBelowFile) <==> removesBelowFile || !FileReplacesFullDirectory(changed, committed))
  {
    var s := Scene(Trees(changed, committed), committed.Keys, kept);
    forall p ensures At(Merged(s), p) == At(changed, p) {
      assert At(Merged(s), p) == MergedAt(s, p);
    }
    SameEverywhere(Merged(s), changed);
    forall q, p | Above(q, p)
      ensures PairAgrees(s, removesBelowFile, q, p) <==>
              removesBelowFile || !(p in committed && q in changed && changed[q].File?)
    {
    }
    if FileReplacesFullDirectory(changed, committed) && !removesBelowFile {
      var q, p :| Above(q, p) && p in committed && q in changed && changed[q].File?;
      assert !PairAgrees(s, removesBelowFile, q, p);
    }
  }

  // ----- the cycle after a failed one -----

  /** One file on both sides. */
  function AtF(first: Bytes, second: Bytes): Trees {
    Trees(map["f" := File(first)], map["f" := File(second)])
  }

  /**
   A copy that was cut short has left a truncated file with a later time: the next cycle takes
   it for the newer one and overwrites the good file.
   */
  lemma TruncatedCopyPrevails(good: Bytes, stale: Bytes, part: Bytes, recorded: Inventory, times: Times, later: Times,
                              prompts: Prompts)
    requires good != stale && good != part
    requires times.first("f") > times.second("f") && later.first("f") < later.second("f")
    ensures var start, now := AtF(good, stale), AtF(good, part);
            && Ruling(SceneOf(start, times, recorded, prompts), "f") == Some(CopyToSecond("f"))
            && LeftAt(start, now, CopyToSecond("f"))
            && Merged(SceneOf(start, times, recorded, prompts)) == map["f" := File(good)]
            && Merged(SceneOf(now, later, recorded, prompts)) == map["f" := File(part)]
  {
    NewerAtF(good, stale, recorded, times, prompts);
    NewerAtF(good, part, recorded, later, prompts);
    LeftAtF(AtF(good, stale), AtF(good, part));
  }

  /**
   A recorded file whose replacement was cut short between removing and writing is on one
   side only: the next cycle takes it for deleted and removes the good file.
   */
  lemma RemovedTargetIsDeleted(good: Bytes, stale: Bytes, recorded: Inventory, times: Times, later: Times,
                               prompts: Prompts)
    requires good != stale && "f" in recorded && times.first("f") > times.second("f")
    ensures var start, now := AtF(good, stale), Trees(map["f" := File(good)], map[]);
            && Ruling(SceneOf(start, times, recorded, prompts), "f") == Some(CopyToSecond("f"))
            && LeftAt(start, now, CopyToSecond("f"))
            && Merged(SceneOf(start, times, recorded, prompts)) == map["f" := File(good)]
            && Ruling(SceneOf(now, later, recorded, prompts), "f") == Some(DeleteFromFirst("f"))
            && Merged(SceneOf(now, later, recorded, prompts)) == map[]
  {
    NewerAtF(good, stale, recorded, times, prompts);
    LeftAtF(AtF(good, stale), Trees(map["f" := File(good)], map[]));
    DeletedAtF(SceneOf(Trees(map["f" := File(good)], map[]), later, recorded, prompts));
  }

  lemma NewerAtF(first: Bytes, second: Bytes, recorded: Inventory, times: Times, prompts: Prompts)
    requires first != second && times.first("f") != times.second("f")
    ensures var s := SceneOf(AtF(first, second), times, recorded, prompts);
            var newer := if times.first("f") > times.second("f") then FirstSide else SecondSide;
            && Ruling(s, "f") == Some(CopyActionForSide("f", newer))
            && Merged(s) == if newer == FirstSide then map["f" := File(first)] else map["f" := File(second)]
  {
    var s := SceneOf(AtF(first, second), times, recorded, prompts);
    PrevailsAtF(first, second, recorded, times, prompts);
    OnlyAtF(s, if times.first("f") > times.second("f") then File(first) else File(second));
  }

  lemma PrevailsAtF(first: Bytes, second: Bytes, recorded: Inventory, times: Times, prompts: Prompts)
    requires times.first("f") != times.second("f")
    ensures PrevailingSide(SnapshotAt(AtF(first, second), times, recorded, "f"), prompts) ==
            if times.first("f") > times.second("f") then FirstSide else SecondSide
  {
  }

  lemma OnlyAtF(s: Scene, n: Node)
    requires s.trees.first.Keys == {"f"} && s.trees.second.Keys == {"f"} && MergedAt(s, "f") == Some(n)
    ensures Merged(s) == map["f" := n]
  {
    forall p ensures At(Merged(s), p) == At(map["f" := n], p) {
      assert At(Merged(s), p) == MergedAt(s, p);
    }
    SameEverywhere(Merged(s), map["f" := n]);
  }

  lemma DeletedAtF(s: Scene)
    requires s.trees.first.Keys == {"f"} && s.trees.second == map[] && "f" in s.recorded
    ensures Ruling(s, "f") == Some(DeleteFromFirst("f")) && Merged(s) == map[]
  {
    forall p ensures At(Merged(s), p) == None {
      assert At(Merged(s), p) == MergedAt(s, p);
    }
    SameEverywhere(Merged(s), map[]);
  }

  lemma LeftAtF(before: Trees, after: Trees)
    requires before.first == after.first && "f" in before.first
    requires before.second.Keys == {"f"} && after.second.Keys <= {"f"}
    ensures LeftAt(before, after, CopyToSecond("f"))
  {
  }
}
