/**
 Executing a plan on two live trees.  Every file operation may fail, leaving part of its
 work behind; a failure is either "file is locked" (retried) or final.
 */
module Executor {
  import opened Common
  import opened Paths
  import opened FileTrees
  import opened SyncDomain

  datatype Attempt = Done | Locked | Failed

  /** StillRetrying: the file stayed locked for as long as the run was observed. */
  datatype RetryResult = Finished | Abandoned | StillRetrying

  datatype Notice = LockedNotice(path: string) | CompletedNotice(path: string)

  class SyncRoots {
    var trees: Trees
    var notices: seq<Notice>
    /** Set as soon as the environment (not the plan) made an operation fail. */
    var faulted: bool
    /** Whether RemoveAll below a regular file succeeds on this platform. */
    const removesBelowFile: bool

    constructor (first: Tree, second: Tree, removesBelowFile: bool)
      requires IsTree(first) && IsTree(second)
      ensures trees == Trees(first, second) && notices == [] && !faulted
      ensures this.removesBelowFile == removesBelowFile
    {
      trees, notices, faulted := Trees(first, second), [], false;
      this.removesBelowFile := removesBelowFile;
    }

    /** An operation that leaves the trees alone, or fails doing so. */
    method Inspect() returns (r: Attempt)
      modifies this`faulted
      ensures if r == Done then faulted == old(faulted) else faulted
    {
      r := Done;
      if * {
        faulted := true;
        if * { r := Locked; } else { r := Failed; }
      }
    }

    /** RemoveAll: an interrupted removal has removed an arbitrary part of the subtree. */
    method RemoveAll(side: Side, path: string) returns (r: Attempt)
      requires trees.Valid()
      modifies this`trees, this`faulted
      ensures trees.Valid() && trees.Of(Opposite(side)) == old(trees).Of(Opposite(side))
      ensures DeleteOutcome(old(trees).Of(side), trees.Of(side), path, removesBelowFile, r, old(faulted), faulted)
    {
      r := Inspect();
      var tree := trees.Of(side);
      if r != Done {
        var left := Leftover(tree, path);
        trees := trees.With(side, left);
      } else if BelowFile(tree, path) && !removesBelowFile {
        r := Failed;
      } else {
        RemoveAllIsTree(tree, path);
        trees := trees.With(side, RemoveAllAt(tree, path));
      }
    }

    /** An interrupted removal: entries with nothing below them have gone, one by one. */
    method Leftover(tree: Tree, path: string) returns (left: Tree)
      requires IsTree(tree)
      ensures IsTree(left) && Partial(tree, left, path, false)
      ensures forall q :: q in left ==> q in tree && left[q] == tree[q]
    {
      left := tree;
      var steps: int := *;
      while steps > 0
        invariant IsTree(left) && Partial(tree, left, path, false)
        invariant forall q :: q in left ==> q in tree && left[q] == tree[q]
      {
        if leaf :| leaf in left && Within(path, leaf) && forall q :: q in left ==> !Above(leaf, q) {
          left := left - {leaf};
        }
        steps := steps - 1;
      }
    }

    /** MkdirAll of the directories above path; interrupted, it has made some of them. */
    method MakeParentDirectories(side: Side, path: string) returns (r: Attempt)
      requires trees.Valid()
      modifies this`trees, this`faulted
      ensures trees.Valid() && trees.Of(Opposite(side)) == old(trees).Of(Opposite(side))
      ensures r == Done ==> faulted == old(faulted) && !BelowFile(old(trees).Of(side), path)
      ensures r == Done ==> trees.Of(side) == MakeParents(old(trees).Of(side), path)
      ensures r != Done ==> Partial(old(trees).Of(side), trees.Of(side), path, true)
      ensures trees.Of(side).Keys <= old(trees).Of(side).Keys + Ancestors(path)
      ensures r != Done ==> faulted || (r == Failed && BelowFile(old(trees).Of(side), path))
      ensures old(faulted) ==> faulted
    {
      r := Inspect();
      var tree := trees.Of(side);
      if r != Done {
        var made := SomeParents(tree, path);
        trees := trees.With(side, made);
      } else if BelowFile(tree, path) {
        r := Failed;
      } else {
        MakeParentsIsTree(tree, path);
        trees := trees.With(side, MakeParents(tree, path));
      }
    }

    /** An interrupted MkdirAll: some directories above path are there, outermost first. */
    method SomeParents(tree: Tree, path: string) returns (made: Tree)
      requires IsTree(tree)
      ensures IsTree(made) && Partial(tree, made, path, true)
      ensures made.Keys <= tree.Keys + Ancestors(path)
    {
      made := tree;
      var steps: int := *;
      while steps > 0
        invariant IsTree(made) && Partial(tree, made, path, true)
        invariant made.Keys <= tree.Keys + Ancestors(path)
      {
        if dir :| dir in Ancestors(path) && dir !in made
                  && forall q :: q in Ancestors(dir) ==> q in made && made[q].Directory? {
          NewLeafIsTree(made, dir, Directory);
          made := made[dir := Directory];
        }
        steps := steps - 1;
      }
    }

    /** Create or truncate the file at path and fill it; interrupted, it holds a part. */
    method WriteFile(side: Side, path: string, content: Bytes) returns (r: Attempt)
      requires trees.Valid() && HasRoomFor(trees.Of(side), path)
      modifies this`trees, this`faulted
      ensures trees.Valid() && trees.Of(Opposite(side)) == old(trees).Of(Opposite(side))
      ensures r == Done ==> faulted == old(faulted) && trees.Of(side) == old(trees).Of(side)[path := File(content)]
      ensures r != Done ==> faulted && Partial(old(trees).Of(side), trees.Of(side), path, false)
      ensures trees.Of(side).Keys <= old(trees).Of(side).Keys + {path}
    {
      var tree := trees.Of(side);
      NewLeafIsTree(tree, path, File(content));
      r := Inspect();
      if r == Done {
        trees := trees.With(side, tree[path := File(content)]);
      } else if * {
        var written: int := *;
        var part := if 0 <= written <= |content| then content[..written] else content;
        NewLeafIsTree(tree, path, File(part));
        trees := trees.With(side, tree[path := File(part)]);
      }
    }

    /** Mkdir of the last directory of a MkdirAll. */
    method MakeDirectory(side: Side, path: string) returns (r: Attempt)
      requires trees.Valid() && HasRoomFor(trees.Of(side), path)
      modifies this`trees, this`faulted
      ensures trees.Valid() && trees.Of(Opposite(side)) == old(trees).Of(Opposite(side))
      ensures r == Done ==> faulted == old(faulted) && trees.Of(side) == old(trees).Of(side)[path := Directory]
      ensures r != Done ==> faulted && trees == old(trees)
    {
      NewLeafIsTree(trees.Of(side), path, Directory);
      r := Inspect();
      if r == Done {
        trees := trees.With(side, trees.Of(side)[path := Directory]);
      }
    }

    /**
     Copy the entry at path onto the given side, replacing what is there: recursive for
     directories, parents created as needed.
     */
    method CopyPath(side: Side, path: string) returns (r: Attempt)
      requires trees.Valid()
      modifies this`trees, this`faulted
      ensures trees.Valid() && trees.Of(Opposite(side)) == old(trees).Of(Opposite(side))
      ensures CopyOutcome(old(trees).Of(Opposite(side)), old(trees).Of(side), trees.Of(side), path, r, old(faulted),
                          faulted)
      decreases |Subtree(trees.Of(Opposite(side)), path)|, 2
    {
      var source := trees.Of(Opposite(side));
      r := Inspect();
      if r != Done { return; }
      if path !in source { r := Failed; return; }
      match source[path]
      case Directory => r := CopyDirectory(side, path);
      case File(_) => r := CopyFile(side, path);
    }

    method CopyFile(side: Side, path: string) returns (r: Attempt)
      requires trees.Valid()
      requires path in trees.Of(Opposite(side)) && trees.Of(Opposite(side))[path].File?
      modifies this`trees, this`faulted
      ensures trees.Valid() && trees.Of(Opposite(side)) == old(trees).Of(Opposite(side))
      ensures CopyOutcome(old(trees).Of(Opposite(side)), old(trees).Of(side), trees.Of(side), path, r, old(faulted),
                          faulted)
    {
      ghost var destination := trees.Of(side);
      var source := trees.Of(Opposite(side));
      r := MakeParentDirectories(side, path);
      if r != Done { return; }
      ghost var withParents := trees.Of(side);
      ParentsMade(destination, path);
      r := RemoveAll(side, path);
      if r != Done {
        PartialTransitive(destination, withParents, trees.Of(side), path, true);
        return;
      }
      ghost var cleared := trees.Of(side);
      PartialTransitive(destination, withParents, cleared, path, true);
      r := WriteFile(side, path, source[path].content);
      if r != Done {
        PartialTransitive(destination, cleared, trees.Of(side), path, true);
        return;
      }
      FileCopied(source, destination, path);
    }

    method CopyDirectory(side: Side, path: string) returns (r: Attempt)
      requires trees.Valid()
      requires At(trees.Of(Opposite(side)), path) == Some(Directory)
      modifies this`trees, this`faulted
      ensures trees.Valid() && trees.Of(Opposite(side)) == old(trees).Of(Opposite(side))
      ensures CopyOutcome(old(trees).Of(Opposite(side)), old(trees).Of(side), trees.Of(side), path, r, old(faulted),
                          faulted)
      decreases |Subtree(trees.Of(Opposite(side)), path)|, 1
    {
      ghost var source, destination := trees.Of(Opposite(side)), trees.Of(side);
      r := RemoveAll(side, path);
      if r != Done { return; }
      ghost var cleared := trees.Of(side);
      PartialBelowFile(destination, cleared, path, true);
      r := MakeParentDirectories(side, path);
      if r != Done {
        PartialTransitive(destination, cleared, trees.Of(side), path, true);
        return;
      }
      ghost var withParents := trees.Of(side);
      PartialTransitive(destination, cleared, withParents, path, true);
      r := MakeDirectory(side, path);
      if r != Done { return; }
      ghost var base := trees.Of(side);
      PartialTransitive(destination, withParents, base, path, true);
      r := CopyChildren(side, path);
      if r != Done {
        PartialTransitive(destination, base, trees.Of(side), path, true);
        return;
      }
      AllChildren(source, destination, path);
    }

    /** The loop over the entries of the source directory. */
    method CopyChildren(side: Side, path: string) returns (r: Attempt)
      requires trees.Valid() && At(trees.Of(Opposite(side)), path) == Some(Directory)
      requires IsEmptyDirectory(trees.Of(side), path)
      modifies this`trees, this`faulted
      ensures trees.Valid() && trees.Of(Opposite(side)) == old(trees).Of(Opposite(side))
      ensures r == Done ==> faulted == old(faulted)
      ensures r == Done ==>
        var source := old(trees).Of(Opposite(side));
        trees.Of(side) == WithChildren(source, old(trees).Of(side), Children(source, path))
      ensures r != Done ==> faulted && Partial(old(trees).Of(side), trees.Of(side), path, true)
      ensures trees.Of(side).Keys <= old(trees).Of(side).Keys + old(trees).Of(Opposite(side)).Keys
      ensures old(faulted) ==> faulted
      decreases |Subtree(trees.Of(Opposite(side)), path)|, 0
    {
      var source := trees.Of(Opposite(side));
      ghost var base := trees.Of(side);
      var children := Children(source, path);
      ghost var all, copied: set<string> := children, {};
      NoChildren(source, base);
      while children != {}
        invariant trees.Valid() && trees.Of(Opposite(side)) == source
        invariant faulted == old(faulted)
        invariant Divided(all, copied, children)
        invariant trees.Of(side) == WithChildren(source, base, copied)
        decreases |children|
      {
        var child :| child in children;
        NextDivided(all, copied, children, child);
        ChildSubtreeSmaller(source, path, child);
        r := CopyChild(side, path, child, base, copied);
        if r != Done { return; }
        children, copied := children - {child}, copied + {child};
      }
      assert copied == all by { assert copied + {} == copied; }
      WithChildrenKeys(source, base, all);
      r := Done;
    }

    method CopyChild(side: Side, path: string, child: string, ghost base: Tree, ghost copied: set<string>)
      returns (r: Attempt)
      requires trees.Valid() && child in Children(trees.Of(Opposite(side)), path) && child !in copied
      requires copied <= Children(trees.Of(Opposite(side)), path) && IsEmptyDirectory(base, path)
      requires trees.Of(side) == WithChildren(trees.Of(Opposite(side)), base, copied)
      modifies this`trees, this`faulted
      ensures trees.Valid() && trees.Of(Opposite(side)) == old(trees).Of(Opposite(side))
      ensures r == Done ==> faulted == old(faulted)
      ensures r == Done ==> trees.Of(side) == WithChildren(old(trees).Of(Opposite(side)), base, copied + {child})
      ensures r != Done ==> faulted && Partial(base, trees.Of(side), path, true)
      ensures trees.Of(side).Keys <= base.Keys + old(trees).Of(Opposite(side)).Keys
      ensures old(faulted) ==> faulted
      decreases |Subtree(trees.Of(Opposite(side)), child)|, 3
    {
      ghost var source := trees.Of(Opposite(side));
      NextChild(source, base, path, copied, child);
      r := CopyPath(side, child);
      ChildKeys(base, source, path, copied, child, trees.Of(side));
      if r != Done {
        ChildPartial(base, source, path, copied, child, trees.Of(side));
      }
    }

    /** The retry loop around one action, observed for up to `patience` locked attempts. */
    method RetryLocked(action: Action, patience: nat) returns (r: RetryResult, ghost locked: bool)
      requires trees.Valid()
      modifies this`trees, this`faulted, this`notices
      ensures trees.Valid() && trees.Of(Opposite(Target(action))) == old(trees).Of(Opposite(Target(action)))
      ensures r == Finished ==> Perform(old(trees), action, removesBelowFile) == Some(trees)
      ensures r != Finished ==> faulted || Perform(old(trees), action, removesBelowFile).None?
      ensures r != Finished ==> LeftAt(old(trees), trees, action)
      ensures old(faulted) ==> faulted
      // at most one locked notice, then a completion notice exactly if it was followed by success
      ensures notices == old(notices) +
        if !locked then []
        else if r == Finished then [LockedNotice(action.relativePath), CompletedNotice(action.relativePath)]
        else [LockedNotice(action.relativePath)]
      ensures !faulted ==> !locked
      ensures r == Finished && !old(faulted) ==> (locked <==> faulted)
      ensures r == StillRetrying ==> locked
    {
      var side, path := Target(action), action.relativePath;
      var lockedNotificationSent := false;
      var attempts := 0;
      ghost var before := trees.Of(side);
      while attempts <= patience
        invariant trees.Valid() && trees.Of(Opposite(side)) == old(trees).Of(Opposite(side))
        invariant Partial(before, trees.Of(side), path, IsCopy(action))
        invariant KeysFrom(old(trees), trees.Of(side).Keys, action)
        invariant IsCopy(action) && path !in old(trees).Of(Opposite(side)) ==> trees == old(trees)
        invariant notices == old(notices) + if lockedNotificationSent then [LockedNotice(path)] else []
        invariant attempts > 0 ==> faulted && lockedNotificationSent
        invariant attempts == 0 ==> faulted == old(faulted) && !lockedNotificationSent
        invariant old(faulted) ==> faulted
        decreases patience + 1 - attempts
      {
        var outcome := Execute(action, before);
        if outcome == Done {
          if lockedNotificationSent {
            notices := notices + [CompletedNotice(path)];
          }
          return Finished, lockedNotificationSent;
        }
        if outcome == Failed {
          return Abandoned, lockedNotificationSent;
        }
        if !lockedNotificationSent {
          notices := notices + [LockedNotice(path)];
          lockedNotificationSent := true;
        }
        attempts := attempts + 1;
      }
      return StillRetrying, lockedNotificationSent;
    }

    /** One attempt at an action, after earlier attempts that began at `before`. */
    method Execute(action: Action, ghost before: Tree) returns (outcome: Attempt)
      requires trees.Valid()
      requires Partial(before, trees.Of(Target(action)), action.relativePath, IsCopy(action))
      modifies this`trees, this`faulted
      ensures trees.Valid() && trees.Of(Opposite(Target(action))) == old(trees).Of(Opposite(Target(action)))
      ensures Partial(before, trees.Of(Target(action)), action.relativePath, IsCopy(action))
      ensures KeysFrom(old(trees), trees.Of(Target(action)).Keys, action)
      ensures IsCopy(action) && action.relativePath !in old(trees).Of(Opposite(Target(action))) ==> trees == old(trees)
      ensures outcome == Done ==>
        Perform(old(trees).With(Target(action), before), action, removesBelowFile) == Some(trees)
      ensures outcome != Done ==>
        faulted || Perform(old(trees).With(Target(action), before), action, removesBelowFile).None?
      ensures outcome == Locked ==> faulted
      ensures outcome == Done ==> faulted == old(faulted)
      ensures old(faulted) ==> faulted
    {
      var side, path := Target(action), action.relativePath;
      ghost var reached, source := trees.Of(side), trees.Of(Opposite(side));
      if IsCopy(action) {
        CopyAbsorbsPartial(source, before, reached, path);
        outcome := CopyPath(side, path);
        if outcome == Done { CopyIsPartial(source, reached, path); }
      } else {
        DeleteAbsorbsPartial(before, reached, path, removesBelowFile);
        outcome := RemoveAll(side, path);
      }
      PartialTransitive(before, reached, trees.Of(side), path, IsCopy(action));
      assert trees == old(trees).With(side, before).With(side, trees.Of(side));
    }

    /**
     Run the actions in order, stopping at the first that does not finish: then `done` actions
     have led to `mid`, and the next is left as it is.
     */
    method ExecutePlan(actions: seq<Action>, patience: nat) returns (completed: bool, ghost done: nat, ghost mid: Trees)
      requires trees.Valid()
      modifies this`trees, this`faulted, this`notices
      ensures trees.Valid()
      ensures completed ==> PerformAll(old(trees), actions, removesBelowFile) == Some(trees)
      ensures !completed ==> done < |actions| && LeftAt(mid, trees, actions[done])
                             && PerformAll(old(trees), actions[..done], removesBelowFile) == Some(mid)
      ensures forall side: Side :: (forall a :: a in actions ==> Target(a) == side) ==>
                trees.Of(Opposite(side)) == old(trees).Of(Opposite(side))
      ensures !faulted ==> (completed <==> PerformAll(old(trees), actions, removesBelowFile).Some?)
      ensures !faulted ==> notices == old(notices)
      ensures old(faulted) ==> faulted
    {
      done, mid := 0, trees;
      for i := 0 to |actions|
        invariant trees.Valid() && mid == trees && done == i
        invariant PerformAll(old(trees), actions[..i], removesBelowFile) == Some(trees)
        invariant PerformAll(old(trees), actions, removesBelowFile) == PerformAll(trees, actions[i..], removesBelowFile)
        invariant forall side: Side :: (forall a :: a in actions ==> Target(a) == side) ==>
                    trees.Of(Opposite(side)) == old(trees).Of(Opposite(side))
        invariant !faulted ==> notices == old(notices)
        invariant old(faulted) ==> faulted
      {
        assert actions[i] in actions;
        assert actions[i..][1..] == actions[i + 1..];
        PerformNext(old(trees), actions, i, removesBelowFile);
        var r, _ := RetryLocked(actions[i], patience);
        if r != Finished {
          return false, done, mid;
        }
        done, mid := i + 1, trees;
      }
      assert actions[..|actions|] == actions;
      return true, done, mid;
    }
  }

  /** Success copies exactly; failure is the environment's or the plan's fault, and is partial. */
  ghost predicate CopyOutcome(source: Tree, before: Tree, after: Tree, path: string,
                              r: Attempt, wasFaulted: bool, faulted: bool) {
    && (r == Done ==> faulted == wasFaulted && CopyInto(source, before, path) == Some(after))
    && (r != Done ==> Partial(before, after, path, true))
    && after.Keys <= before.Keys + source.Keys + Ancestors(path)
    && (path !in source ==> after == before)
    && (r != Done ==> faulted || CopyInto(source, before, path).None?)
    && (r == Locked ==> faulted)
    && (wasFaulted ==> faulted)
  }

  ghost predicate DeleteOutcome(before: Tree, after: Tree, path: string, removesBelowFile: bool,
                                r: Attempt, wasFaulted: bool, faulted: bool) {
    && (r == Done ==> faulted == wasFaulted && after == RemoveAllAt(before, path))
    && (r == Done ==> DeleteFrom(before, path, removesBelowFile).Some?)
    && (r != Done ==> faulted || DeleteFrom(before, path, removesBelowFile).None?)
    && (r == Locked ==> faulted)
    && Partial(before, after, path, false) && after.Keys <= before.Keys
    && (wasFaulted ==> faulted)
  }

  /**
   What is left of the trees when an action does not finish: the source as it was, and on the
   target side part of the work at or above the action's path, under names that were on
   either side; nothing at all if there was nothing to copy.
   */
  ghost predicate LeftAt(before: Trees, after: Trees, a: Action) {
    var side := Target(a);
    && after.Of(Opposite(side)) == before.Of(Opposite(side))
    && Partial(before.Of(side), after.Of(side), a.relativePath, IsCopy(a))
    && KeysFrom(before, after.Of(side).Keys, a)
    && (IsCopy(a) && a.relativePath !in before.Of(Opposite(side)) ==> after == before)
  }

  ghost predicate KeysFrom(before: Trees, keys: set<string>, a: Action) {
    keys <= before.Of(Target(a)).Keys +
            if IsCopy(a) then before.Of(Opposite(Target(a))).Keys + Ancestors(a.relativePath) else {}
  }

  /** path is free and every directory above it is there. */
  ghost predicate HasRoomFor(t: Tree, path: string) {
    path !in t && forall q :: Above(q, path) ==> At(t, q) == Some(Directory)
  }

  ghost predicate IsEmptyDirectory(t: Tree, path: string) {
    && At(t, path) == Some(Directory)
    && (forall q :: Above(path, q) ==> q !in t)
    && (forall q :: Above(q, path) ==> At(t, q) == Some(Directory))
  }

  lemma MakeParentsIsTree(t: Tree, p: string)
    requires IsTree(t) && !BelowFile(t, p)
    ensures IsTree(MakeParents(t, p))
  {
  }

  lemma NewLeafIsTree(t: Tree, p: string, node: Node)
    requires IsTree(t) && p !in t
    requires forall q :: Above(q, p) ==> q in t && t[q].Directory?
    ensures IsTree(t[p := node])
  {
  }

  /** The entries ReadDir lists: directly below path. */
  function Children(t: Tree, path: string): set<string> {
    set q | q in t && Above(path, q) && '/' !in q[|path| + 1..]
  }

  /** The entry of a listed directory that q is, or lies below. */
  function ChildToward(path: string, q: string): (child: string)
    requires Above(path, q)
    ensures Above(path, child) && Within(child, q) && '/' !in child[|path| + 1..]
  {
    var n := FirstSlash(q, |path| + 1);
    assert q[..n][..|path|] == q[..|path|];
    q[..n]
  }

  function FirstSlash(q: string, from: nat): (n: nat)
    requires from <= |q|
    ensures from <= n <= |q| && (n < |q| ==> q[n] == '/') && '/' !in q[from..n]
    decreases |q| - from
  {
    if from == |q| || q[from] == '/' then from else FirstSlash(q, from + 1)
  }

  ghost function WithChildren(source: Tree, base: Tree, copied: set<string>): Tree {
    base + map q | q in source && exists c :: c in copied && Within(c, q) :: source[q]
  }

  predicate Divided(all: set<string>, done: set<string>, open: set<string>) {
    done !! open && done + open == all
  }

  lemma NextDivided(all: set<string>, done: set<string>, open: set<string>, x: string)
    requires Divided(all, done, open) && x in open
    ensures Divided(all, done + {x}, open - {x}) && x in all && x !in done && done <= all
  {
  }

  lemma WithChildrenKeys(source: Tree, base: Tree, copied: set<string>)
    ensures WithChildren(source, base, copied).Keys <= base.Keys + source.Keys
  {
  }

  lemma NoChildren(source: Tree, base: Tree)
    ensures WithChildren(source, base, {}) == base
  {
  }

  lemma ChildSubtreeSmaller(t: Tree, path: string, child: string)
    requires child in Children(t, path) && path in t
    ensures |Subtree(t, child)| < |Subtree(t, path)|
  {
    var small, large := Subtree(t, child), Subtree(t, path);
    forall q | q in small ensures q in large { WithinTransitive(path, child, q); }
    assert small.Keys <= large.Keys && path in large.Keys && path !in small.Keys;
    SubsetSize(small.Keys, large.Keys - {path});
  }

  lemma NextChild(source: Tree, base: Tree, path: string, copied: set<string>, child: string)
    requires IsTree(source) && copied <= Children(source, path)
    requires child in Children(source, path) && child !in copied
    requires IsEmptyDirectory(base, path)
    ensures CopyInto(source, WithChildren(source, base, copied), child)
         == Some(WithChildren(source, base, copied + {child}))
  {
    var before, after := WithChildren(source, base, copied), WithChildren(source, base, copied + {child});
    forall q | Above(q, child) ensures At(before, q) == Some(Directory) {
      AncestorsComparable(q, path, child);
      if Above(path, q) { EntryIsDirect(path, q, child); }
      assert !Above(path, q);
      forall c | c in copied ensures !Within(c, q) {
        if Within(c, q) { WithinTransitive(path, c, q); }
      }
    }
    forall q ensures At(Grafted(source, before, child), q) == At(after, q) {
      GraftedAt(source, before, child, q);
      if Within(child, q) {
        WithinTransitive(path, child, q);
        assert q !in base;
      }
    }
    SameEverywhere(Grafted(source, before, child), after);
  }

  lemma ChildPartial(base: Tree, source: Tree, path: string, copied: set<string>, child: string, after: Tree)
    requires child in Children(source, path) && copied <= Children(source, path)
    requires IsEmptyDirectory(base, path)
    requires Partial(WithChildren(source, base, copied), after, child, true)
    ensures Partial(base, after, path, true)
  {
    var reached := WithChildren(source, base, copied);
    forall q | !Within(path, q) ensures At(after, q) == At(base, q) {
      if Within(child, q) { WithinTransitive(path, child, q); }
      forall c | c in copied ensures !Within(c, q) {
        if Within(c, q) { WithinTransitive(path, c, q); }
      }
      assert At(reached, q) == At(base, q);
      if Above(q, child) { AncestorsComparable(q, path, child); }
    }
  }

  lemma ChildKeys(base: Tree, source: Tree, path: string, copied: set<string>, child: string, after: Tree)
    requires child in Children(source, path) && IsEmptyDirectory(base, path)
    requires after.Keys <= WithChildren(source, base, copied).Keys + source.Keys + Ancestors(child)
    ensures after.Keys <= base.Keys + source.Keys
  {
    forall q | Above(q, child) ensures q in base {
      AncestorsComparable(q, path, child);
      if Above(path, q) { EntryIsDirect(path, q, child); }
      assert At(base, q) == Some(Directory);
    }
  }

  /** Removing or writing at path, or copying to it, only touches path and the directories above. */
  lemma CopyIsPartial(source: Tree, destination: Tree, path: string)
    ensures Partial(destination, Grafted(source, destination, path), path, true)
  {
  }

  lemma ParentsMade(t: Tree, path: string)
    requires !BelowFile(t, path)
    ensures !BelowFile(MakeParents(t, path), path)
    ensures HasRoomFor(RemoveAllAt(MakeParents(t, path), path), path)
  {
  }

  lemma FileCopied(source: Tree, destination: Tree, path: string)
    requires IsTree(source) && path in source && source[path].File? && !BelowFile(destination, path)
    ensures RemoveAllAt(MakeParents(destination, path), path)[path := source[path]] ==
      Grafted(source, destination, path)
  {
    forall q | q in source && Within(path, q) ensures q == path {
    }
  }

  lemma EntryIsDirect(path: string, c: string, d: string)
    requires Above(path, c) && Above(path, d) && '/' !in d[|path| + 1..]
    ensures !Above(c, d)
  {
  }

  lemma AllChildren(source: Tree, destination: Tree, path: string)
    requires IsTree(source) && At(source, path) == Some(Directory)
    ensures var base := MakeParents(RemoveAllAt(destination, path), path)[path := Directory];
            WithChildren(source, base, Children(source, path)) == Grafted(source, destination, path)
  {
    var base := MakeParents(RemoveAllAt(destination, path), path)[path := Directory];
    var all := WithChildren(source, base, Children(source, path));
    forall q ensures At(all, q) == At(Grafted(source, destination, path), q) {
      GraftedAt(source, destination, path, q);
      if Above(path, q) && q in source {
        var child := ChildToward(path, q);
        assert child in source;
        assert child in Children(source, path);
      }
      if c :| c in Children(source, path) && Within(c, q) { WithinTransitive(path, c, q); }
    }
    SameEverywhere(all, Grafted(source, destination, path));
  }
}
