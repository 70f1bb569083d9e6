/** The three planners: bidirectional, unidirectional and authoritative. */
module Planners {
  import opened Common
  import opened SyncDomain
  import opened Inventories

  /** The user's answers; None where no prompt is available. */
  datatype Prompts = Prompts(
    fileSide: Option<Comparison -> Result<Side>>,
    kindSide: Option<Comparison -> Result<Side>>)

  type Decision = Option<Action>

  /** The actions of the paths that need one, in order. */
  function PlanOf(decisions: seq<Decision>): (actions: seq<Action>) {
    if decisions == [] then []
    else (if decisions[0].Some? then [decisions[0].value] else []) + PlanOf(decisions[1..])
  }

  lemma {:induction false} PlanOfAppend(decisions: seq<Decision>, d: Decision)
    ensures PlanOf(decisions + [d]) == PlanOf(decisions) + if d.Some? then [d.value] else []
  {
    if decisions == [] {
      assert PlanOf([d][1..]) == [];
    } else {
      assert (decisions + [d])[0] == decisions[0] && (decisions + [d])[1..] == decisions[1..] + [d];
      PlanOfAppend(decisions[1..], d);
    }
  }

  lemma {:induction false} PlanOfEmpty(decisions: seq<Decision>)
    ensures PlanOf(decisions) == [] <==> forall i :: 0 <= i < |decisions| ==> decisions[i].None?
  {
    if decisions == [] {
    } else {
      PlanOfEmpty(decisions[1..]);
      assert forall i :: 1 <= i < |decisions| ==> decisions[i] == decisions[1..][i - 1];
    }
  }

  // ----- one path at a time -----

  function AuthoritativeDecision(c: Comparison, side: Side): Decision {
    var authoritative := if side == FirstSide then c.first else c.second;
    var other := if side == FirstSide then c.second else c.first;
    if authoritative.None? && other.Some? then
      Some(DeleteActionForSide(c.relativePath, Opposite(side)))
    else if authoritative.Some? && (other.None? || !EquivalentContents(authoritative.value, other.value)) then
      Some(CopyActionForSide(c.relativePath, side))
    else None
  }

  predicate EquivalentContents(a: Entry, b: Entry) {
    a.kind == b.kind && (a.kind.DirectoryEntry? || a.contentDigest == b.contentDigest)
  }

  function UnidirectionalDecision(c: Comparison): Decision {
    match (c.first, c.second)
    case (None, Some(_)) => Some(DeleteFromSecond(c.relativePath))
    case (Some(_), None) => Some(CopyToSecond(c.relativePath))
    case (Some(a), Some(b)) =>
      if a.kind != b.kind || (a.kind.FileEntry? && a.contentDigest != b.contentDigest)
      then Some(CopyToSecond(c.relativePath)) else None
    case (None, None) => None
  }

  /** A one-sided path: kept unless it was confirmed before, then deleted. */
  function ClassifyOneSided(c: Comparison): Decision {
    match (c.first, c.second)
    case (Some(_), None) =>
      Some(if c.confirmed.None? then CopyToSecond(c.relativePath) else DeleteFromFirst(c.relativePath))
    case (None, Some(_)) =>
      Some(if c.confirmed.None? then CopyToFirst(c.relativePath) else DeleteFromSecond(c.relativePath))
    case _ => None
  }

  function ResolveFileContentConflict(c: Comparison, prompt: Option<Comparison -> Result<Side>>): (r: Result<Decision>)
    ensures r.Success? ==>
      c.first.Some? && c.second.Some? && c.first.value.kind == FileEntry && c.second.value.kind == FileEntry
  {
    if c.first.None? || c.second.None? then
      Failure("file content conflict requires both entries")
    else if !c.first.value.kind.FileEntry? || !c.second.value.kind.FileEntry? then
      Failure("file content conflict requires file entries")
    else if c.first.value.contentDigest == c.second.value.contentDigest then
      Success(None)
    else if c.first.value.modificationTime > c.second.value.modificationTime then
      Success(Some(CopyToSecond(c.relativePath)))
    else if c.second.value.modificationTime > c.first.value.modificationTime then
      Success(Some(CopyToFirst(c.relativePath)))
    else Ask(c, prompt)
  }

  function ResolveFileDirectoryConflict(c: Comparison, prompt: Option<Comparison -> Result<Side>>)
    : (r: Result<Decision>)
    ensures r.Success? ==> c.first.Some? && c.second.Some? && c.first.value.kind != c.second.value.kind
  {
    if c.first.None? || c.second.None? then
      Failure("file-directory conflict requires both entries")
    else if c.first.value.kind == c.second.value.kind then
      Failure("file-directory conflict requires one file and one directory")
    else Ask(c, prompt)
  }

  /** The side the user keeps is copied to the other side. */
  function Ask(c: Comparison, prompt: Option<Comparison -> Result<Side>>): Result<Decision> {
    if prompt.None? then Failure("conflict decision is required")
    else match prompt.value(c)
      case Failure(e) => Failure(e)
      case Success(side) => Success(Some(CopyActionForSide(c.relativePath, side)))
  }

  function BidirectionalDecision(c: Comparison, prompts: Prompts): Result<Decision> {
    if c.first.None? || c.second.None? then Success(ClassifyOneSided(c))
    else if c.first.value.kind.FileEntry? && c.second.value.kind.FileEntry? then
      ResolveFileContentConflict(c, prompts.fileSide)
    else if c.first.value.kind != c.second.value.kind then
      ResolveFileDirectoryConflict(c, prompts.kindSide)
    else Success(None)
  }

  // ----- whole plans -----

  function UnidirectionalDecisions(cs: seq<Comparison>): (ds: seq<Decision>)
    ensures |ds| == |cs|
  {
    seq(|cs|, i requires 0 <= i < |cs| => UnidirectionalDecision(cs[i]))
  }

  function AuthoritativeDecisions(cs: seq<Comparison>, side: Side): (ds: seq<Decision>)
    ensures |ds| == |cs|
  {
    seq(|cs|, i requires 0 <= i < |cs| => AuthoritativeDecision(cs[i], side))
  }

  ghost predicate Resolvable(cs: seq<Comparison>, prompts: Prompts) {
    forall i :: 0 <= i < |cs| ==> BidirectionalDecision(cs[i], prompts).Success?
  }

  function BidirectionalDecisions(cs: seq<Comparison>, prompts: Prompts): (ds: seq<Decision>)
    requires Resolvable(cs, prompts)
    ensures |ds| == |cs|
  {
    seq(|cs|, i requires 0 <= i < |cs| => BidirectionalDecision(cs[i], prompts).value)
  }

  method GenerateUnidirectionalPlan(cs: seq<Comparison>) returns (actions: seq<Action>)
    ensures actions == PlanOf(UnidirectionalDecisions(cs))
  {
    actions := [];
    for i := 0 to |cs|
      invariant actions == PlanOf(UnidirectionalDecisions(cs)[..i])
    {
      var c := cs[i];
      assert UnidirectionalDecisions(cs)[..i + 1] == UnidirectionalDecisions(cs)[..i] + [UnidirectionalDecision(c)];
      PlanOfAppend(UnidirectionalDecisions(cs)[..i], UnidirectionalDecision(c));
      if c.first.None? && c.second.Some? {
        actions := actions + [DeleteFromSecond(c.relativePath)];
      } else if c.first.Some? && c.second.None? {
        actions := actions + [CopyToSecond(c.relativePath)];
      } else if c.first.Some? && c.second.Some? {
        var a, b := c.first.value, c.second.value;
        if a.kind != b.kind || (a.kind.FileEntry? && a.contentDigest != b.contentDigest) {
          actions := actions + [CopyToSecond(c.relativePath)];
        }
      }
    }
    assert UnidirectionalDecisions(cs)[..|cs|] == UnidirectionalDecisions(cs);
  }

  method GenerateAuthoritativePlan(cs: seq<Comparison>, side: Side) returns (actions: seq<Action>)
    ensures actions == PlanOf(AuthoritativeDecisions(cs, side))
  {
    actions := [];
    for i := 0 to |cs|
      invariant actions == PlanOf(AuthoritativeDecisions(cs, side)[..i])
    {
      var c := cs[i];
      ghost var ds := AuthoritativeDecisions(cs, side);
      assert ds[..i + 1] == ds[..i] + [AuthoritativeDecision(c, side)];
      PlanOfAppend(ds[..i], AuthoritativeDecision(c, side));
      var authoritative := if side == FirstSide then c.first else c.second;
      var other := if side == FirstSide then c.second else c.first;
      if authoritative.None? && other.Some? {
        actions := actions + [DeleteActionForSide(c.relativePath, Opposite(side))];
        continue;
      }
      if authoritative.Some? && (other.None? || !EquivalentContents(authoritative.value, other.value)) {
        actions := actions + [CopyActionForSide(c.relativePath, side)];
      }
    }
    assert AuthoritativeDecisions(cs, side)[..|cs|] == AuthoritativeDecisions(cs, side);
  }

  /** Additions and deletions among the one-sided comparisons. */
  method ClassifyAdditionsAndDeletions(cs: seq<Comparison>) returns (actions: seq<Action>)
    ensures actions == PlanOf(seq(|cs|, i requires 0 <= i < |cs| => ClassifyOneSided(cs[i])))
  {
    ghost var ds := seq(|cs|, i requires 0 <= i < |cs| => ClassifyOneSided(cs[i]));
    actions := [];
    for i := 0 to |cs|
      invariant actions == PlanOf(ds[..i])
    {
      var c := cs[i];
      assert ds[..i + 1] == ds[..i] + [ClassifyOneSided(c)];
      PlanOfAppend(ds[..i], ClassifyOneSided(c));
      if c.first.Some? && c.second.None? {
        if c.confirmed.None? {
          actions := actions + [CopyToSecond(c.relativePath)];
          continue;
        }
        actions := actions + [DeleteFromFirst(c.relativePath)];
      } else if c.first.None? && c.second.Some? {
        if c.confirmed.None? {
          actions := actions + [CopyToFirst(c.relativePath)];
          continue;
        }
        actions := actions + [DeleteFromSecond(c.relativePath)];
      }
    }
    assert ds[..|cs|] == ds;
  }

  /** Either the plan of all decisions, or the first comparison's error that stopped it. */
  method GenerateSynchronizationPlan(cs: seq<Comparison>, prompts: Prompts) returns (r: Result<seq<Action>>)
    ensures r.Success? <==> Resolvable(cs, prompts)
    ensures r.Success? ==> r.value == PlanOf(BidirectionalDecisions(cs, prompts))
    ensures r.Failure? ==> exists i :: 0 <= i < |cs| && Resolvable(cs[..i], prompts)
                             && BidirectionalDecision(cs[i], prompts) == Failure(r.error)
  {
    var actions := [];
    for i := 0 to |cs|
      invariant Resolvable(cs[..i], prompts)
      invariant actions == PlanOf(BidirectionalDecisions(cs[..i], prompts))
    {
      var c := cs[i];
      assert cs[..i + 1] == cs[..i] + [c];
      var decision;
      if c.first.None? || c.second.None? {
        var added := ClassifyAdditionsAndDeletions([c]);
        decision := Success(if added == [] then None else Some(added[0]));
        assert PlanOf([ClassifyOneSided(c)][1..]) == [];
        assert seq(|[c]|, i requires 0 <= i < |[c]| => ClassifyOneSided([c][i])) == [ClassifyOneSided(c)];
      } else if c.first.value.kind.FileEntry? && c.second.value.kind.FileEntry? {
        decision := ResolveFileContentConflict(c, prompts.fileSide);
      } else if c.first.value.kind != c.second.value.kind {
        decision := ResolveFileDirectoryConflict(c, prompts.kindSide);
      } else {
        decision := Success(None);
      }
      assert decision == BidirectionalDecision(c, prompts);
      if decision.Failure? {
        return Failure(decision.error);
      }
      assert BidirectionalDecisions(cs[..i + 1], prompts) ==
        BidirectionalDecisions(cs[..i], prompts) + [decision.value];
      PlanOfAppend(BidirectionalDecisions(cs[..i], prompts), decision.value);
      if decision.value.Some? {
        actions := actions + [decision.value.value];
      }
    }
    assert cs[..|cs|] == cs;
    return Success(actions);
  }

  // ----- properties -----

  /** The authoritative plan of the first side is the unidirectional plan. */
  lemma AuthoritativeFirstIsUnidirectional(cs: seq<Comparison>)
    ensures PlanOf(AuthoritativeDecisions(cs, FirstSide)) == PlanOf(UnidirectionalDecisions(cs))
  {
    assert AuthoritativeDecisions(cs, FirstSide) == UnidirectionalDecisions(cs);
  }

  lemma {:induction false} PlanOfOneSide(ds: seq<Decision>, side: Side)
    requires forall d :: d in ds && d.Some? ==> Target(d.value) == side
    ensures forall a :: a in PlanOf(ds) ==> Target(a) == side
  {
    if ds == [] {
    } else {
      PlanOfOneSide(ds[1..], side);
    }
  }

  /** A plan in favour of one side only changes the other. */
  lemma AuthoritativePlanSpares(cs: seq<Comparison>, side: Side)
    ensures forall a :: a in PlanOf(AuthoritativeDecisions(cs, side)) ==> Target(a) == Opposite(side)
  {
    PlanOfOneSide(AuthoritativeDecisions(cs, side), Opposite(side));
  }

  /** Nothing to do exactly when the inventories are equivalent. */
  lemma AuthoritativeEmptyIffEquivalent(first: Inventory, second: Inventory, paths: seq<string>, side: Side)
    requires IsInventory(first) && IsInventory(second) && Enumerates(paths, first.Keys + second.Keys)
    ensures PlanOf(AuthoritativeDecisions(CompareAll(first, second, paths), side)) == [] <==> Equivalent(first, second)
  {
    var cs := CompareAll(first, second, paths);
    var ds := AuthoritativeDecisions(cs, side);
    PlanOfEmpty(ds);
    forall i | 0 <= i < |ds| ensures ds[i].None? <==> Quiet(cs[i]) {
      AuthoritativeQuiet(cs[i], side);
    }
    QuietIffEquivalent(first, second, paths, cs);
  }

  lemma UnidirectionalEmptyIffEquivalent(first: Inventory, second: Inventory, paths: seq<string>)
    requires IsInventory(first) && IsInventory(second) && Enumerates(paths, first.Keys + second.Keys)
    ensures PlanOf(UnidirectionalDecisions(CompareAll(first, second, paths))) == [] <==> Equivalent(first, second)
  {
    AuthoritativeFirstIsUnidirectional(CompareAll(first, second, paths));
    AuthoritativeEmptyIffEquivalent(first, second, paths, FirstSide);
  }

  /**
   Whatever is attached and whatever the user answers: equivalent inventories never raise a
   conflict, and the plan, if there is one, is empty exactly for them.
   */
  lemma BidirectionalEmptyIffEquivalent(first: Inventory, second: Inventory, paths: seq<string>,
                                        cs: seq<Comparison>, prompts: Prompts)
    requires IsInventory(first) && IsInventory(second) && Enumerates(paths, first.Keys + second.Keys)
    requires ComparesSides(cs, first, second, paths)
    ensures Equivalent(first, second) ==> Resolvable(cs, prompts)
    ensures Resolvable(cs, prompts) ==>
      (PlanOf(BidirectionalDecisions(cs, prompts)) == [] <==> Equivalent(first, second))
  {
    QuietIffEquivalent(first, second, paths, cs);
    forall i | 0 <= i < |cs|
      ensures Quiet(cs[i]) ==> BidirectionalDecision(cs[i], prompts) == Success(None)
      ensures BidirectionalDecision(cs[i], prompts) == Success(None) ==> Quiet(cs[i])
    {
      BidirectionalQuiet(cs[i], prompts);
    }
    if Resolvable(cs, prompts) {
      var ds := BidirectionalDecisions(cs, prompts);
      PlanOfEmpty(ds);
      assert forall i :: 0 <= i < |ds| ==> (ds[i].None? <==> Quiet(cs[i]));
    }
  }

  /** Comparisons of the two sides, whatever confirmed entries are attached to them. */
  ghost predicate ComparesSides(cs: seq<Comparison>, first: Inventory, second: Inventory, paths: seq<string>) {
    && |cs| == |paths|
    && forall i :: 0 <= i < |cs| ==>
         && cs[i].relativePath == paths[i]
         && cs[i].first == InventoryEntry(first, paths[i])
         && cs[i].second == InventoryEntry(second, paths[i])
  }

  /** Both sides agree on the path. */
  predicate Quiet(c: Comparison) {
    (c.first.None? && c.second.None?) ||
    (c.first.Some? && c.second.Some? && EquivalentContents(c.first.value, c.second.value))
  }

  lemma AuthoritativeQuiet(c: Comparison, side: Side)
    ensures AuthoritativeDecision(c, side).None? <==> Quiet(c)
  {
  }

  lemma BidirectionalQuiet(c: Comparison, prompts: Prompts)
    ensures BidirectionalDecision(c, prompts) == Success(None) <==> Quiet(c)
  {
  }

  lemma QuietIffEquivalent(first: Inventory, second: Inventory, paths: seq<string>, cs: seq<Comparison>)
    requires IsInventory(first) && IsInventory(second) && Enumerates(paths, first.Keys + second.Keys)
    requires ComparesSides(cs, first, second, paths)
    ensures (forall i :: 0 <= i < |cs| ==> Quiet(cs[i])) <==> Equivalent(first, second)
  {
    if forall i :: 0 <= i < |cs| ==> Quiet(cs[i]) {
      forall p | p in first.Keys + second.Keys
        ensures p in first && p in second && EntriesMatch(first[p], second[p])
      {
        assert p in paths;
        var i :| 0 <= i < |paths| && paths[i] == p;
        assert Quiet(cs[i]);
      }
    } else {
      var i :| 0 <= i < |cs| && !Quiet(cs[i]);
      assert paths[i] in paths;
    }
  }
}
