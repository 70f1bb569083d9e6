/**
 A directory tree below one root, and the three filesystem operations the executor is
 built from: RemoveAll, MkdirAll of the directories above a path, and copying a subtree.
 */
module FileTrees {
  import opened Common
  import opened Paths

  datatype Node = Directory | File(content: Bytes)

  type Tree = map<string, Node>

  /** Everything listed has its directories listed, as directories. */
  ghost predicate IsTree(t: Tree) {
    forall p, q :: p in t && Above(q, p) ==> q in t && t[q].Directory?
  }

  function At(t: Tree, p: string): Option<Node> {
    if p in t then Some(t[p]) else None
  }

  /** The directories that have to exist for p to exist. */
  function Ancestors(p: string): (s: set<string>)
    ensures forall q :: q in s <==> Above(q, p)
  {
    var s := set i | 0 <= i < |p| && p[i] == '/' :: p[..i];
    assert forall q :: Above(q, p) ==> p[..|q|] in s;
    s
  }

  /** Some directory above p is occupied by a regular file. */
  predicate BelowFile(t: Tree, p: string) {
    exists q :: q in Ancestors(p) && q in t && t[q].File?
  }

  function Subtree(t: Tree, p: string): Tree {
    map q | q in t && Within(p, q) :: t[q]
  }

  function RemoveAllAt(t: Tree, p: string): Tree {
    map q | q in t && !Within(p, q) :: t[q]
  }

  function MakeParents(t: Tree, p: string): Tree {
    map q | q in t.Keys + Ancestors(p) :: if q in t then t[q] else Directory
  }

  /** What a successful copy of p from source leaves at the destination. */
  function Grafted(source: Tree, destination: Tree, p: string): Tree {
    MakeParents(RemoveAllAt(destination, p), p) + Subtree(source, p)
  }

  /** The copy succeeds when p is there and no file stands where a directory must be. */
  function CopyInto(source: Tree, destination: Tree, p: string): Option<Tree> {
    if p !in source || BelowFile(destination, p) then None
    else Some(Grafted(source, destination, p))
  }

  /**
   RemoveAll of a missing path succeeds, except that a platform may refuse to look below
   a regular file.
   */
  function DeleteFrom(t: Tree, p: string, removesBelowFile: bool): Option<Tree> {
    if BelowFile(t, p) && !removesBelowFile then None
    else Some(RemoveAllAt(t, p))
  }

  /** Pointwise reading of a successful copy. */
  lemma GraftedAt(source: Tree, destination: Tree, p: string, q: string)
    ensures At(Grafted(source, destination, p), q) ==
            if Within(p, q) then At(source, q)
            else if q in destination then At(destination, q)
            else if Above(q, p) then Some(Directory) else None
  {
  }

  lemma GraftedIsTree(source: Tree, destination: Tree, p: string)
    requires IsTree(source) && IsTree(destination) && CopyInto(source, destination, p).Some?
    ensures IsTree(Grafted(source, destination, p))
  {
    var g := Grafted(source, destination, p);
    forall x, q | x in g && Above(q, x) ensures q in g && g[q].Directory? {
      if Within(p, x) {
        AncestorsComparable(p, q, x);
        if Above(q, p) { assert q in Ancestors(p); }
      } else if x in destination {
        if Within(p, q) { WithinTransitive(p, q, x); }
      } else {
        AboveTransitive(q, x, p);
        assert q in Ancestors(p);
      }
    }
  }

  lemma RemoveAllIsTree(t: Tree, p: string)
    requires IsTree(t)
    ensures IsTree(RemoveAllAt(t, p))
  {
  }

  /**
   What an interrupted copy (mayAddParents) or removal of p can have done so far: anything
   below p, and for a copy some of the directories above p.
   */
  ghost predicate Partial(before: Tree, after: Tree, p: string, mayAddParents: bool) {
    forall q :: !Within(p, q) ==>
      At(after, q) == At(before, q) ||
      (mayAddParents && q !in before && Above(q, p) && At(after, q) == Some(Directory))
  }

  lemma PartialTransitive(a: Tree, b: Tree, c: Tree, p: string, mayAddParents: bool)
    requires Partial(a, b, p, mayAddParents) && Partial(b, c, p, mayAddParents)
    ensures Partial(a, c, p, mayAddParents)
  {
  }

  /** A final successful copy erases every trace of interrupted attempts. */
  lemma CopyAbsorbsPartial(source: Tree, before: Tree, after: Tree, p: string)
    requires Partial(before, after, p, true)
    ensures CopyInto(source, after, p) == CopyInto(source, before, p)
  {
    PartialBelowFile(before, after, p, true);
    forall q ensures At(Grafted(source, after, p), q) == At(Grafted(source, before, p), q) {
      GraftedAt(source, after, p, q);
      GraftedAt(source, before, p, q);
    }
    SameEverywhere(Grafted(source, after, p), Grafted(source, before, p));
  }

  /** So does a final successful removal. */
  lemma DeleteAbsorbsPartial(before: Tree, after: Tree, p: string, removesBelowFile: bool)
    requires Partial(before, after, p, false)
    ensures DeleteFrom(after, p, removesBelowFile) == DeleteFrom(before, p, removesBelowFile)
  {
    PartialBelowFile(before, after, p, false);
    forall q ensures At(RemoveAllAt(after, p), q) == At(RemoveAllAt(before, p), q) {
    }
    SameEverywhere(RemoveAllAt(after, p), RemoveAllAt(before, p));
  }

  lemma PartialBelowFile(before: Tree, after: Tree, p: string, mayAddParents: bool)
    requires Partial(before, after, p, mayAddParents)
    ensures BelowFile(after, p) == BelowFile(before, p)
  {
  }

  lemma SameEverywhere(a: Tree, b: Tree)
    requires forall q :: At(a, q) == At(b, q)
    ensures a == b
  {
    forall q ensures q in a <==> q in b {
      assert At(a, q) == At(b, q);
    }
    forall q | q in a ensures a[q] == b[q] {
      assert At(a, q) == At(b, q);
    }
  }
}
