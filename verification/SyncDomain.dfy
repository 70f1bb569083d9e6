/** The values the planners and the executor exchange. */
module SyncDomain {
  import opened Common
  import opened FileTrees

  datatype EntryKind = FileEntry | DirectoryEntry

  datatype Side = FirstSide | SecondSide

  function Opposite(side: Side): Side {
    if side == FirstSide then SecondSide else FirstSide
  }

  /** Digest of a file's contents; directories carry None. */
  datatype Entry = Entry(
    relativePath: string,
    kind: EntryKind,
    contentDigest: Option<Digest<Bytes>>,
    modificationTime: int)

  datatype Comparison = Comparison(
    relativePath: string,
    first: Option<Entry>,
    second: Option<Entry>,
    confirmed: Option<Entry>)

  datatype Action =
    | CopyToFirst(relativePath: string)
    | CopyToSecond(relativePath: string)
    | DeleteFromFirst(relativePath: string)
    | DeleteFromSecond(relativePath: string)

  function CopyActionForSide(path: string, source: Side): Action {
    if source == FirstSide then CopyToSecond(path) else CopyToFirst(path)
  }

  function DeleteActionForSide(path: string, side: Side): Action {
    if side == FirstSide then DeleteFromFirst(path) else DeleteFromSecond(path)
  }

  /** The side an action changes. */
  function Target(action: Action): Side {
    if action.CopyToFirst? || action.DeleteFromFirst? then FirstSide else SecondSide
  }

  predicate IsCopy(action: Action) {
    action.CopyToFirst? || action.CopyToSecond?
  }

  /** The two trees being synchronized. */
  datatype Trees = Trees(first: Tree, second: Tree) {
    function Of(side: Side): Tree {
      if side == FirstSide then first else second
    }

    function With(side: Side, tree: Tree): Trees {
      if side == FirstSide then this.(first := tree) else this.(second := tree)
    }

    ghost predicate Valid() {
      IsTree(first) && IsTree(second)
    }
  }

  /** One action without environment faults: None when it cannot succeed. */
  function Perform(trees: Trees, action: Action, removesBelowFile: bool): Option<Trees> {
    var side, path := Target(action), action.relativePath;
    var changed := if IsCopy(action) then CopyInto(trees.Of(Opposite(side)), trees.Of(side), path)
                   else DeleteFrom(trees.Of(side), path, removesBelowFile);
    if changed.None? then None else Some(trees.With(side, changed.value))
  }

  /** A whole plan without environment faults. */
  function PerformAll(trees: Trees, actions: seq<Action>, removesBelowFile: bool): Option<Trees>
    decreases |actions|
  {
    if actions == [] then Some(trees)
    else
      var next := Perform(trees, actions[0], removesBelowFile);
      if next.None? then None else PerformAll(next.value, actions[1..], removesBelowFile)
  }

  lemma PerformKeepsTrees(trees: Trees, action: Action, removesBelowFile: bool)
    requires trees.Valid() && Perform(trees, action, removesBelowFile).Some?
    ensures Perform(trees, action, removesBelowFile).value.Valid()
    ensures Perform(trees, action, removesBelowFile).value.Of(Opposite(Target(action))) ==
      trees.Of(Opposite(Target(action)))
  {
    var side, path := Target(action), action.relativePath;
    if IsCopy(action) {
      GraftedIsTree(trees.Of(Opposite(side)), trees.Of(side), path);
    } else {
      RemoveAllIsTree(trees.Of(side), path);
    }
  }

  /** One more action of a plan. */
  lemma {:induction false} PerformNext(trees: Trees, actions: seq<Action>, n: nat, removesBelowFile: bool)
    requires n < |actions|
    ensures PerformAll(trees, actions[..n + 1], removesBelowFile) ==
            var mid := PerformAll(trees, actions[..n], removesBelowFile);
            if mid.None? then None else Perform(mid.value, actions[n], removesBelowFile)
    decreases n
  {
    if n == 0 {
      assert actions[..1] == [actions[0]] && actions[..1][1..] == [];
    } else {
      assert actions[..n + 1][1..] == actions[1..][..n] && actions[..n][1..] == actions[1..][..n - 1];
      var next := Perform(trees, actions[0], removesBelowFile);
      if next.Some? { PerformNext(next.value, actions[1..], n - 1, removesBelowFile); }
    }
  }
}
