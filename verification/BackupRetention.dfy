/**
 The store of a backup set, and confirmation and retention on it.  Every file operation may
 fail; the ghost trace records the world after each one, so that whatever holds throughout
 the trace holds wherever the program crashes.
 */
module BackupRetention {
  import opened Common
  import opened Sorting
  import opened BackupIdentity
  import opened BackupState
  import opened BackupWorld
  import opened BackupRuns

  datatype LoadResult = LoadMissing | LoadValid(state: State) | LoadFailed

  class BackupStore {
    const setting: Setting
    var world: World
    /** Set as soon as the environment made a file operation fail. */
    var faulted: bool
    ghost var trace: seq<World>

    constructor (setting: Setting, world: World)
      ensures this.setting == setting && this.world == world && trace == [world] && !faulted
      ensures Valid()
    {
      this.setting, this.world, this.trace, this.faulted := setting, world, [world], false;
    }

    ghost predicate Valid()
      reads this`world, this`trace
    {
      IsRun(trace, setting) && trace[|trace| - 1] == world
    }

    /** The process is still alive, or the operation failed. */
    method Attempt() returns (ok: bool)
      modifies this`faulted
      ensures if ok then faulted == old(faulted) else faulted
    {
      ok := true;
      if * {
        faulted, ok := true, false;
      }
    }

    /** One atomic change of the files. */
    method Do(step: Step) returns (ok: bool)
      requires Valid() && Enabled(world, step, setting)
      modifies this
      ensures Valid()
      ensures ok ==>
        faulted == old(faulted) && world == Apply(old(world), step, setting) && trace == old(trace) + [world]
      ensures !ok ==> faulted && world == old(world) && trace == old(trace)
    {
      ok := Attempt();
      if ok {
        world := Apply(world, step, setting);
        trace := trace + [world];
        assert forall i :: 0 <= i < |trace| - 2 ==> Allowed(old(trace)[i], old(trace)[i + 1], setting);
      }
    }

    method Load() returns (r: LoadResult)
      modifies this`faulted
      ensures r.LoadMissing? ==> world.persisted.None?
      ensures r.LoadValid? ==>
        world.persisted == Some(r.state) && ValidState(r.state) && r.state.destination == setting.destination
      ensures r.LoadFailed? ==> faulted || (world.persisted.Some? &&
                                            !(ValidState(world.persisted.value) && SavedState(world, setting)))
      ensures !r.LoadFailed? ==> faulted == old(faulted)
      ensures old(faulted) ==> faulted
    {
      var ok := Attempt();
      if !ok { return LoadFailed; }
      if world.persisted.None? { return LoadMissing; }
      var valid := ValidateState(world.persisted.value);
      if !valid || world.persisted.value.destination != setting.destination {
        return LoadFailed;
      }
      return LoadValid(world.persisted.value);
    }

    /** Save encodes, which validates, and then replaces the record atomically. */
    method Save(state: State, step: Step) returns (ok: bool)
      requires Valid()
      requires ValidState(state) ==>
        Enabled(world, step, setting) && Apply(world, step, setting) == world.(persisted := Some(state))
      modifies this
      ensures Valid()
      ensures ok ==> ValidState(state) && faulted == old(faulted)
      ensures ok ==> world == old(world).(persisted := Some(state)) && trace == old(trace) + [world]
      ensures !ok ==> faulted || !ValidState(state)
      ensures !ok ==> world == old(world) && trace == old(trace)
      ensures old(faulted) ==> faulted
    {
      var valid := ValidateState(state);
      if !valid { return false; }
      ok := Do(step);
    }
  }

  /** The trace has grown, and every world added to it still has the same goal. */
  ghost predicate KeepsGoal(before: seq<World>, after: seq<World>, goal: World, k: nat) {
    before <= after && forall i :: |before| <= i < |after| ==> RetentionGoal(after[i], k) == goal
  }

  // ----- confirming -----

  function RecordFor(identity: Identity, fileName: string, digest: string): Record {
    Record(identity.archiveID, fileName, identity.confirmationOrder, identity.createdAt, digest,
           identity.inventoryDigest, Confirmed)
  }

  /** What a confirmation checks before it saves. */
  ghost predicate Confirmable(setting: Setting, state: State, identity: Identity, fileName: string, digest: string) {
    && MayConfirm(setting, state, identity, fileName, digest)
    && ValidState(WithConfirmed(state, RecordFor(identity, fileName, digest), identity.sourcePath))
  }

  ghost predicate MayConfirm(setting: Setting, state: State, identity: Identity, fileName: string, digest: string) {
    && identity.destinationPath == setting.destination && identity.confirmationOrder == state.nextOrder
    && IsDigestText(digest)
    && (state.source == "" || state.source == identity.sourcePath)
    && ValidState(state.(source := identity.sourcePath))
    && (forall r :: r in state.archives ==> r.archiveID != identity.archiveID && r.fileName != fileName)
  }

  /** The checks before a confirmation, and the state it would save. */
  method PrepareConfirmation(setting: Setting, state: State, identity: Identity, fileName: string, digest: string)
    returns (r: Result<State>)
    ensures r.Success? <==> MayConfirm(setting, state, identity, fileName, digest)
    ensures r.Success? ==> r.value == WithConfirmed(state, RecordFor(identity, fileName, digest), identity.sourcePath)
  {
    if identity.destinationPath != setting.destination || identity.confirmationOrder != state.nextOrder {
      return Failure("backup archive confirmation identity does not match state");
    }
    if !IsDigestText(digest) {
      return Failure("backup archive confirmation digest is invalid");
    }
    if state.source != "" && state.source != identity.sourcePath {
      return Failure("backup set source does not match");
    }
    var bound := state.(source := identity.sourcePath);
    var valid := ValidateState(bound);
    if !valid {
      return Failure("backup set state is invalid");
    }
    for i := 0 to |bound.archives|
      invariant forall j :: 0 <= j < i ==>
        bound.archives[j].archiveID != identity.archiveID && bound.archives[j].fileName != fileName
    {
      if bound.archives[i].archiveID == identity.archiveID || bound.archives[i].fileName == fileName {
        assert bound.archives[i] in state.archives;
        return Failure("backup archive is already confirmed");
      }
    }
    bound := bound.(archives := bound.archives + [RecordFor(identity, fileName, digest)]);
    bound := bound.(nextOrder := Increment(bound.nextOrder));
    return Success(bound);
  }

  /** Append the archive at fileName, verified and its digest just computed, to the record. */
  method ConfirmArchive(store: BackupStore, state: State, identity: Identity, fileName: string, digest: string)
    returns (r: Result<State>)
    requires store.Valid() && state == StateOrFresh(store.world, store.setting)
    requires store.world.persisted.Some? ==> SavedState(store.world, store.setting) && ValidState(state)
    requires state.pending.None? && |state.archives| <= store.setting.retention
    requires RecordIntact(store.world.Files(), RecordFor(identity, fileName, digest), identity.sourcePath,
                          store.setting)
    modifies store
    ensures store.Valid()
    ensures r.Success? ==> Confirmable(store.setting, state, identity, fileName, digest)
    ensures r.Success? ==> r.value == WithConfirmed(state, RecordFor(identity, fileName, digest), identity.sourcePath)
    ensures r.Success? ==>
      && r.value.nextOrder as int == state.nextOrder + 1
      && r.value == state.(source := identity.sourcePath, nextOrder := r.value.nextOrder,
                           archives := state.archives + [
                             Record(identity.archiveID, fileName, identity.confirmationOrder, identity.createdAt,
                                    digest, identity.inventoryDigest, Confirmed)])
    ensures r.Success? ==>
      store.world == old(store.world).(persisted := Some(r.value)) && store.trace == old(store.trace) + [store.world]
    ensures r.Failure? ==> store.world == old(store.world) && store.trace == old(store.trace)
    ensures !store.faulted ==> (r.Success? <==> Confirmable(store.setting, state, identity, fileName, digest))
    ensures old(store.faulted) ==> store.faulted
  {
    var bound := PrepareConfirmation(store.setting, state, identity, fileName, digest);
    if bound.Failure? {
      return bound;
    }
    var saved := store.Save(bound.value, SaveConfirmed(RecordFor(identity, fileName, digest), identity.sourcePath));
    if !saved {
      return Failure("commit backup archive confirmation");
    }
    return bound;
  }

  /** With the counter at its maximum nothing is confirmed and nothing changes. */
  lemma ExhaustedCounterConfirmsNothing(setting: Setting, state: State, identity: Identity, fileName: string,
                                        digest: string)
    requires state.nextOrder == MAXIMUM_UINT64
    ensures !Confirmable(setting, state, identity, fileName, digest)
  {
  }

  // ----- retention -----

  predicate OrderAtMost(a: Record, b: Record) { a.order <= b.order }

  /** The confirmed records beyond the newest k, oldest first. */
  method PlanRetention(state: State, k: int) returns (r: Result<seq<Record>>)
    requires OrderedAndDistinct(state.archives)
    ensures r.Success? <==> 1 <= k <= 100 && state.pending.None?
    ensures r.Success? ==> var confirmed := ConfirmedOnly(state.archives);
                           r.value + Newest(confirmed, k) == confirmed
  {
    if !ValidRetention(k) {
      return Failure("backup retention is out of range");
    }
    if state.pending.Some? {
      return Failure("backup retention has a pending removal");
    }
    var confirmed: seq<Record> := [];
    for i := 0 to |state.archives|
      invariant confirmed == ConfirmedOnly(state.archives[..i])
    {
      assert state.archives[..i + 1] == state.archives[..i] + [state.archives[i]];
      ConfirmedOnlyAppend(state.archives[..i], state.archives[i]);
      if state.archives[i].lifecycle == Confirmed {
        confirmed := confirmed + [state.archives[i]];
      }
    }
    assert state.archives[..|state.archives|] == state.archives;
    ConfirmedOnlyOrdered(state.archives);
    var sorted := Sort(confirmed, OrderAtMost);
    SortedUniquely(sorted, confirmed, OrderAtMost);
    if |sorted| <= k {
      return Success([]);
    }
    return Success(sorted[..|sorted| - k]);
  }

  predicate Matches(r: Record, record: Record) {
    && r.archiveID == record.archiveID && r.fileName == record.fileName && r.order == record.order
    && r.lifecycle == Confirmed
  }

  /** Mark every confirmed record that is the given one. */
  method MarkRecord(state: State, record: Record) returns (archives: seq<Record>, found: bool)
    ensures |archives| == |state.archives|
    ensures forall i :: 0 <= i < |archives| ==>
      archives[i] ==
        if state.archives[i].archiveID == record.archiveID && state.archives[i].fileName == record.fileName
          && state.archives[i].order == record.order && state.archives[i].lifecycle == Confirmed
        then state.archives[i].(lifecycle := PendingRemoval) else state.archives[i]
    ensures found <==> exists i :: 0 <= i < |state.archives| && Matches(state.archives[i], record)
  {
    archives, found := state.archives, false;
    for i := 0 to |archives|
      invariant |archives| == |state.archives|
      invariant forall j :: i <= j < |archives| ==> archives[j] == state.archives[j]
      invariant forall j :: 0 <= j < i ==>
        archives[j] ==
          if Matches(state.archives[j], record) then state.archives[j].(lifecycle := PendingRemoval)
            else state.archives[j]
      invariant found <==> exists j :: 0 <= j < i && Matches(state.archives[j], record)
    {
      if Matches(archives[i], record) {
        archives := archives[i := archives[i].(lifecycle := PendingRemoval)];
        found := true;
      }
    }
  }

  /** At most one record of a valid state is meant by an identifier, a name and an order. */
  lemma MatchesOnce(s: State, record: Record, i: nat, j: nat)
    requires ValidState(s) && i < |s.archives| && j < |s.archives|
    requires Matches(s.archives[i], record) && Matches(s.archives[j], record)
    ensures i == j
  {
  }

  /** Persist that the oldest of too many archives is about to be removed. */
  method MarkPendingRemoval(store: BackupStore, state: State, record: Record) returns (r: Result<State>)
    requires store.Valid() && store.world.persisted == Some(state) && SavedState(store.world, store.setting)
    requires ValidState(state) && state.pending.None? && |state.archives| > store.setting.retention >= 1
    requires forall i :: 0 < i < |state.archives| ==> !Matches(state.archives[i], record)
    modifies store
    ensures store.Valid()
    ensures r.Success? ==> Matches(state.archives[0], record) && r.value == WithMarked(state, 0)
    ensures r.Success? ==> store.faulted == old(store.faulted)
    ensures r.Success? ==>
      store.world == Apply(old(store.world), SaveMarked, store.setting)
        && store.trace == old(store.trace) + [store.world]
    ensures r.Failure? ==> store.faulted || !Matches(state.archives[0], record)
    ensures r.Failure? ==> store.world == old(store.world) && store.trace == old(store.trace)
    ensures old(store.faulted) ==> store.faulted
  {
    var archives, found := MarkRecord(state, record);
    if !found {
      return Failure("backup archive to remove was not confirmed");
    }
    var updated := state.(archives := archives,
                          pending := Some(Removal(record.archiveID, record.fileName, record.order)));
    assert updated.archives == WithMarked(state, 0).archives;
    MarkedIsValid(state);
    var saved := store.Save(updated, SaveMarked);
    if !saved {
      return Failure("mark backup archive pending removal");
    }
    return Success(updated);
  }

  lemma PendingIdIsItsOwn(s: State)
    requires ValidState(s) && s.pending.Some?
    ensures forall r :: r in s.archives ==> (r.archiveID != s.pending.value.archiveID <==> r.lifecycle.Confirmed?)
  {
  }

  lemma KeepsGoalTransitive(a: seq<World>, b: seq<World>, c: seq<World>, goal: World, k: nat)
    requires KeepsGoal(a, b, goal, k) && KeepsGoal(b, c, goal, k)
    ensures KeepsGoal(a, c, goal, k)
  {
  }

  /** The store as retention is entered: the state at hand is what is persisted. */
  ghost predicate Current(store: BackupStore, state: State)
    reads store`world, store`trace
  {
    && store.Valid() && store.world.persisted == Some(state) && SavedState(store.world, store.setting)
    && ValidState(state)
  }

  /** os.Remove of the pending file; a file already gone is fine. */
  method DeletePendingFile(store: BackupStore, state: State) returns (ok: bool)
    requires Current(store, state) && state.pending.Some?
    modifies store
    ensures Current(store, state)
    ensures var k := store.setting.retention; var goal := RetentionGoal(old(store.world), k);
            KeepsGoal(old(store.trace), store.trace, goal, k) && RetentionGoal(store.world, k) == goal
    ensures ok ==> store.faulted == old(store.faulted) && state.pending.value.fileName !in store.world.Files()
    ensures !ok ==> store.faulted
  {
    ok := store.Attempt();
    if ok && state.pending.value.fileName in store.world.Files() {
      DeleteKeepsGoal(store.world, store.setting, store.setting.retention);
      ok := store.Do(DeletePending);
    }
  }

  /** The records whose identifier is not the pending one. */
  method RecordsWithoutPending(state: State) returns (archives: seq<Record>)
    requires state.pending.Some?
    requires forall r :: r in state.archives ==>
      (r.archiveID != state.pending.value.archiveID <==> r.lifecycle.Confirmed?)
    ensures archives == ConfirmedOnly(state.archives)
  {
    archives := [];
    for i := 0 to |state.archives|
      invariant archives == ConfirmedOnly(state.archives[..i])
    {
      assert state.archives[..i + 1] == state.archives[..i] + [state.archives[i]];
      assert state.archives[i] in state.archives;
      ConfirmedOnlyAppend(state.archives[..i], state.archives[i]);
      if state.archives[i].archiveID != state.pending.value.archiveID {
        archives := archives + [state.archives[i]];
      }
    }
    assert state.archives[..|state.archives|] == state.archives;
  }

  /** Remove the pending file, which may be gone already, and then drop its record. */
  method ResumePendingRemoval(store: BackupStore, state: State) returns (r: Result<State>)
    requires Current(store, state)
    modifies store
    ensures store.Valid()
    ensures var k := store.setting.retention; var goal := RetentionGoal(old(store.world), k);
            KeepsGoal(old(store.trace), store.trace, goal, k) && RetentionGoal(store.world, k) == goal
    ensures r.Success? ==> store.faulted == old(store.faulted) && Current(store, r.value)
    ensures r.Success? ==> r.value == (if state.pending.None? then state else WithoutPending(state))
    ensures r.Failure? ==> store.faulted
    ensures old(store.faulted) ==> store.faulted
  {
    if state.pending.None? {
      return Success(state);
    }
    var deleted := DeletePendingFile(store, state);
    if !deleted { return Failure("remove pending backup archive"); }
    PendingIdIsItsOwn(state);
    var archives := RecordsWithoutPending(state);
    var updated := state.(archives := archives, pending := None);
    assert updated == WithoutPending(state);
    DroppedIsValid(state);
    DropKeepsGoal(store.world, store.setting, store.setting.retention);
    var saved := store.Save(updated, SaveDropped);
    if !saved { return Failure("complete pending backup removal"); }
    return Success(updated);
  }

  /** One round of the retention loop: mark the oldest archive, remove it, drop it. */
  method RemoveOldest(store: BackupStore, state: State, record: Record) returns (r: Result<State>)
    requires Current(store, state) && state.pending.None? && |state.archives| > store.setting.retention >= 1
    requires record == state.archives[0]
    modifies store
    ensures store.Valid()
    ensures var k := store.setting.retention; var goal := RetentionGoal(old(store.world), k);
            KeepsGoal(old(store.trace), store.trace, goal, k) && RetentionGoal(store.world, k) == goal
    ensures r.Success? ==> store.faulted == old(store.faulted) && Current(store, r.value)
    ensures r.Success? ==> r.value == state.(archives := state.archives[1..])
    ensures r.Failure? ==> store.faulted
    ensures old(store.faulted) ==> store.faulted
  {
    OldestOnly(state);
    MarkKeepsGoal(store.world, store.setting);
    var marked := MarkPendingRemoval(store, state, record);
    if marked.Failure? { return Failure(marked.error); }
    MarkedIsValid(state);
    MarkedThenDropped(state);
    ghost var after := store.trace;
    r := ResumePendingRemoval(store, marked.value);
    KeepsGoalTransitive(old(store.trace), after, store.trace,
                        RetentionGoal(old(store.world), store.setting.retention), store.setting.retention);
  }

  /**
   Finish a removal that was under way, then remove the oldest archives until the newest k
   are left.  Every world on the way has the same goal, so stopping anywhere and running
   retention again from what is persisted ends where an uninterrupted run ends.
   */
  method ExecuteRetention(store: BackupStore, state: State) returns (ok: bool)
    requires Current(store, state)
    modifies store
    ensures store.Valid()
    ensures var k := store.setting.retention; var goal := RetentionGoal(old(store.world), k);
            KeepsGoal(old(store.trace), store.trace, goal, k) && RetentionGoal(store.world, k) == goal
    ensures old(store.trace) <= store.trace
    ensures forall i :: |old(store.trace)| <= i < |store.trace| ==>
      RetentionGoal(store.trace[i], store.setting.retention) ==
      RetentionGoal(old(store.world), store.setting.retention)
    ensures ok ==> store.world == RetentionGoal(old(store.world), store.setting.retention)
    ensures !store.faulted ==> (ok <==> 1 <= store.setting.retention <= 100)
    ensures ok ==> 1 <= store.setting.retention <= 100
    ensures old(store.faulted) ==> store.faulted
  {
    ghost var k := store.setting.retention;
    ghost var goal := RetentionGoal(store.world, k);
    var resumed := ResumePendingRemoval(store, state);
    if resumed.Failure? { return false; }
    var current := resumed.value;
    var planned := PlanRetention(current, store.setting.retention);
    if planned.Failure? { return false; }
    ValidUnlessPending(current);
    ok := RemoveExpired(store, current, planned.value, goal);
  }

  /** The retention loop over the work list computed beforehand. */
  method RemoveExpired(store: BackupStore, state: State, expired: seq<Record>, ghost goal: World) returns (ok: bool)
    requires Current(store, state) && state.pending.None? && store.setting.retention >= 1
    requires expired + Newest(state.archives, store.setting.retention) == state.archives
    requires goal == RetentionGoal(store.world, store.setting.retention)
    modifies store
    ensures store.Valid()
    ensures KeepsGoal(old(store.trace), store.trace, goal, store.setting.retention)
    ensures RetentionGoal(store.world, store.setting.retention) == goal
    ensures ok ==> store.world == goal
    ensures !ok ==> store.faulted
    ensures ok ==> store.faulted == old(store.faulted)
  {
    ghost var k := store.setting.retention;
    var current := state;
    for i := 0 to |expired|
      invariant Current(store, current) && current.pending.None? && current.archives == state.archives[i..]
      invariant KeepsGoal(old(store.trace), store.trace, goal, k) && RetentionGoal(store.world, k) == goal
      invariant store.faulted == old(store.faulted)
    {
      ghost var before := store.trace;
      assert expired[i] == state.archives[i];
      var next := RemoveOldest(store, current, expired[i]);
      KeepsGoalTransitive(old(store.trace), before, store.trace, goal, k);
      if next.Failure? { return false; }
      assert state.archives[i..][1..] == state.archives[i + 1..];
      current := next.value;
    }
    GoalReached(store.world, k);
    return true;
  }

  /** Only the oldest record matches itself. */
  lemma OldestOnly(s: State)
    requires ValidState(s) && s.pending.None? && s.archives != []
    ensures Matches(s.archives[0], s.archives[0])
    ensures forall j :: 0 < j < |s.archives| ==> !Matches(s.archives[j], s.archives[0])
  {
  }

  lemma MarkedThenDropped(s: State)
    requires ValidState(s) && s.pending.None? && s.archives != []
    ensures WithoutPending(WithMarked(s, 0)) == s.(archives := s.archives[1..])
    ensures ValidState(s.(archives := s.archives[1..]))
  {
    MarkedIsValid(s);
    DroppedIsValid(WithMarked(s, 0));
    assert WithMarked(s, 0).archives[1..] == s.archives[1..];
    AllConfirmed(s.archives[1..]);
  }

  /** A state satisfies retention when nothing is pending and at most k records are confirmed. */
  method ValidateCompliance(state: State, k: int) returns (ok: bool)
    ensures ok <==> 1 <= k <= 100 && state.pending.None? && |ConfirmedOnly(state.archives)| <= k
  {
    if !ValidRetention(k) || state.pending.Some? {
      return false;
    }
    var confirmed := 0;
    for i := 0 to |state.archives|
      invariant confirmed == |ConfirmedOnly(state.archives[..i])|
    {
      assert state.archives[..i + 1] == state.archives[..i] + [state.archives[i]];
      ConfirmedOnlyAppend(state.archives[..i], state.archives[i]);
      if state.archives[i].lifecycle == Confirmed {
        confirmed := confirmed + 1;
      }
    }
    assert state.archives[..|state.archives|] == state.archives;
    return confirmed <= k;
  }

  /**
   What retention leaves complies: nothing pending, exactly the newest min(n, k) of n records,
   and all else of the state as it was.
   */
  lemma GoalComplies(w: World, k: nat)
    requires w.persisted.Some?
    ensures var goal, confirmed := RetentionGoal(w, k).persisted.value, ConfirmedOnly(w.persisted.value.archives);
            && ConfirmedOnly(goal.archives) == goal.archives
            && |goal.archives| == (if |confirmed| < k then |confirmed| else k)
            && goal.archives == confirmed[|confirmed| - |goal.archives|..]
            && goal == w.persisted.value.(archives := goal.archives, pending := None)
  {
    AllConfirmed(RetentionGoal(w, k).persisted.value.archives);
  }

  /** Exactly the files that some record names, but none that is kept, are gone; all others are as they were. */
  lemma GoalFiles(w: World, k: nat, name: string)
    requires w.persisted.Some? && w.directory.Some?
    ensures var goal := RetentionGoal(w, k);
            && goal.directory.Some?
            && (name in goal.Files() <==>
                name in w.Files() && ((forall r :: r in w.persisted.value.archives ==> r.fileName != name) ||
                                      exists r :: r in goal.persisted.value.archives && r.fileName == name))
            && (name in goal.Files() ==> goal.Files()[name] == w.Files()[name])
  {
  }
}
