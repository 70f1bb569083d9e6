/** One whole backup cycle, and one after another. */
module BackupCycle {
  import opened Common
  import opened BackupIdentity
  import opened BackupState
  import opened InventoryEncoding
  import opened BackupArchives
  import opened BackupWorld
  import opened BackupRuns
  import opened BackupRetention
  import opened BackupInspection

  // ----- the cycle -----

  /** What one cycle gets from its surroundings. */
  datatype CycleInput = CycleInput(
    source: string,
    sourceUsable: bool,
    initial: Result<BackupInventory>,
    contents: string -> Option<Bytes>,
    final: Result<BackupInventory>,
    archiveID: Result<string>,
    createdAt: int,
    createdAtText: string,
    temporarySuffix: string,
    partialContents: FileContent)

  /** Every recorded file is there with its digest. */
  ghost predicate AllPresent(w: World, setting: Setting) {
    forall r :: r in Archives(w) ==> FileMatches(w.Files(), r, setting.hash)
  }

  /** The destination exists and `state` is what is, or would first be, persisted for the source. */
  ghost predicate Loaded(store: BackupStore, state: State, source: string)
    reads store`world, store`trace
  {
    && store.Valid() && store.world.directory.Some? && AllPresent(store.world, store.setting)
    && state == StateOrFresh(store.world, store.setting)
    && LoadsForSource(store.world, source, store.setting)
  }

  /** Ready for one more archive: nothing pending and at most k of them. */
  ghost predicate ReadyToArchive(store: BackupStore, state: State, source: string)
    reads store`world, store`trace
  {
    Loaded(store, state, source) && state.pending.None? && |state.archives| <= store.setting.retention
  }

  ghost predicate OnlyGrew(before: seq<World>, store: BackupStore)
    reads store`world, store`trace
  {
    store.Valid() && before <= store.trace
  }

  lemma CleanedIsPresent(before: World, source: string, setting: Setting)
    requires Acceptable(before, source, setting)
    ensures AllPresent(Cleared(before, Owned(before, source, setting)), setting)
    ensures Unrecorded(Cleared(before, Owned(before, source, setting))) == {}
  {
  }

  /** Inspect, recover and load. */
  method OpenBackupSet(store: BackupStore, source: string) returns (r: Result<State>)
    requires store.Valid() && store.world.directory.Some?
    modifies store
    ensures OnlyGrew(old(store.trace), store) && store.world.directory.Some?
    ensures store.world.persisted == old(store.world).persisted
    ensures r.Success? ==> Loaded(store, r.value, source) && Unrecorded(store.world) == {}
    ensures r.Success? ==> store.world == Cleared(old(store.world), Owned(old(store.world), source, store.setting))
    ensures !Acceptable(old(store.world), source, store.setting) ==>
      r.Failure? && store.world == old(store.world) && store.trace == old(store.trace)
    ensures !store.faulted ==> (r.Success? <==> Acceptable(old(store.world), source, store.setting))
    ensures old(store.faulted) ==> store.faulted
  {
    var inspection := InspectDestination(store, source);
    if inspection.failed { return Failure("inspect backup destination"); }
    CleanedIsPresent(store.world, source, store.setting);
    var recovered := RecoverOwnedCandidates(store, source);
    if !recovered && inspection.status != StatusEmpty {
      return Failure("recover owned backup candidates");
    }
    if inspection.status == StatusEmpty {
      EmptyHasNoneOwned(old(store.world), source, store.setting);
    }
    var loaded := store.Load();
    if loaded.LoadFailed? { return Failure("load backup set state"); }
    if loaded.LoadMissing? { return Success(FreshState(store.setting)); }
    if loaded.state.source != source { return Failure("backup set source does not match"); }
    return Success(loaded.state);
  }

  lemma EmptyHasNoneOwned(before: World, source: string, setting: Setting)
    requires before.directory == Some(map[]) && before.persisted.None?
    ensures Unrecorded(before) == {}
    ensures Owned(before, source, setting) == {}
    ensures Cleared(before, Owned(before, source, setting)) == before
  {
  }

  lemma RetainedIsPresent(w: World, setting: Setting, k: nat)
    requires w.persisted.Some? && AllPresent(w, setting)
    ensures AllPresent(RetentionGoal(w, k), setting)
  {
    forall r | r in Archives(RetentionGoal(w, k))
      ensures FileMatches(RetentionGoal(w, k).Files(), r, setting.hash)
    {
      KeptIsIntact(w, k, r);
      assert r in Archives(w) && FileMatches(w.Files(), r, setting.hash);
    }
  }

  lemma RetainedIsValid(w: World, k: nat)
    requires w.persisted.Some? && ValidState(w.persisted.value)
    ensures ValidState(RetentionGoal(w, k).persisted.value)
  {
    var s := w.persisted.value;
    ConfirmedOnlyOrdered(s.archives);
    NewestOrdered(ConfirmedOnly(s.archives), k);
  }

  lemma NewestOrdered(archives: seq<Record>, k: nat)
    requires OrderedAndDistinct(archives)
    ensures OrderedAndDistinct(Newest(archives, k)) && forall r :: r in Newest(archives, k) ==> r in archives
  {
    var kept := Newest(archives, k);
    var n := |archives| - |kept|;
    forall i, j | 0 <= i < j < |kept| ensures Precedes(kept[i], kept[j]) {
      assert Precedes(archives[n + i], archives[n + j]);
    }
  }

  /** What retention leaves is ready for the next archive. */
  lemma RetainedIsReady(w: World, goal: World, source: string, setting: Setting)
    requires w.persisted.Some? && w.directory.Some? && goal == RetentionGoal(w, setting.retention)
    requires LoadsForSource(w, source, setting) && AllPresent(w, setting)
    ensures goal.directory.Some? && goal.persisted.Some? && goal.persisted.value.pending.None?
    ensures |goal.persisted.value.archives| <= setting.retention
    ensures LoadsForSource(goal, source, setting) && AllPresent(goal, setting)
    ensures Unrecorded(w) == {} ==> Unrecorded(goal) == {}
  {
    RetainedIsPresent(w, setting, setting.retention);
    RetainedIsValid(w, setting.retention);
  }

  /** The retention gate before a new archive is made. */
  method PassRetentionGate(store: BackupStore, state: State, source: string) returns (r: Result<State>)
    requires Loaded(store, state, source) && Unrecorded(store.world) == {}
    modifies store
    ensures OnlyGrew(old(store.trace), store) && store.world.directory.Some?
    ensures r.Success? ==> ReadyToArchive(store, r.value, source) && Unrecorded(store.world) == {}
    ensures r.Success? ==> r.value == state.(archives := Kept(state, store.setting.retention), pending := None)
    ensures !store.faulted && ValidRetention(store.setting.retention) ==> r.Success?
    ensures state.archives == [] ==> r.Success? && store.world == old(store.world)
    ensures SameSource(store.world, source)
    ensures old(store.faulted) ==> store.faulted
  {
    if state.pending.None? && |state.archives| <= store.setting.retention {
      if store.world.persisted.Some? { ValidUnlessPending(state); }
      return Success(state);
    }
    ghost var start := store.world;
    var retained := ExecuteRetention(store, state);
    GoalDirectory(start, store.world, store.setting.retention);
    if !retained { return Failure("backup retention"); }
    RetainedIsReady(start, store.world, source, store.setting);
    var loaded := store.Load();
    if !loaded.LoadValid? { return Failure("backup state unavailable after retention"); }
    return Success(loaded.state);
  }

  lemma GoalDirectory(a: World, b: World, k: nat)
    requires RetentionGoal(a, k) == RetentionGoal(b, k) && a.persisted.Some?
    ensures a.directory.Some? <==> b.directory.Some?
  {
  }

  /** A file of the cycle's own that no record names. */
  ghost predicate HasCandidate(store: BackupStore, name: string)
    reads store`world, store`trace
  {
    name in store.world.Files() && !Recorded(store.world, name)
  }

  /** Operations on a file no record names leave the recorded files alone. */
  lemma UnrecordedKeepsPresent(w: World, w': World, name: string, setting: Setting)
    requires AllPresent(w, setting) && !Recorded(w, name) && w'.persisted == w.persisted
    requires forall x :: x != name && x in w.Files() ==> x in w'.Files() && w'.Files()[x] == w.Files()[x]
    ensures AllPresent(w', setting) && !Recorded(w', name)
  {
    forall r | r in Archives(w) ensures r.fileName != name {
    }
  }

  lemma AbsentIsUnrecorded(w: World, name: string, setting: Setting)
    requires AllPresent(w, setting) && name !in w.Files()
    ensures !Recorded(w, name)
  {
    forall r | r in Archives(w) ensures r.fileName != name {
    }
  }

  function IdentityFor(input: CycleInput, state: State, setting: Setting): Identity
    requires input.initial.Success? && input.archiveID.Success?
  {
    Identity(IDENTITY_SCHEMA_VERSION, input.archiveID.value, input.source, setting.destination, input.createdAt,
             state.nextOrder, input.initial.value.digest)
  }

  /** Fit to be part of a file name. */
  predicate PlainID(id: string) {
    id != "" && '/' !in id && '\\' !in id
  }

  /** The inventory can be archived under the identity, was read unchanged, and the identity reads back. */
  ghost predicate SourceArchived(input: CycleInput, identity: Identity, formats: Formats)
    requires input.initial.Success?
  {
    && Writable(input.initial.value, identity, input.contents, formats)
    && SourceUnchanged(input.initial.value, input.contents, formats)
    && IdentityReadable(WrittenMembers(input.initial.value.entries, input.contents), identity, formats)
  }

  /** The temporary file is still there after writing: refused unopened, or finished. */
  ghost predicate StaysBehind(input: CycleInput, identity: Identity, formats: Formats)
    requires input.initial.Success?
  {
    || !ValidIdentity(identity, "", "", 0, input.initial.value.digest)
    || Writable(input.initial.value, identity, input.contents, formats)
  }

  /** The temporary file is created, filled in pieces, and verified. */
  method MakeCandidate(store: BackupStore, state: State, input: CycleInput, identity: Identity, candidate: string,
                       formats: Formats)
    returns (written: Option<Zip>)
    requires ReadyToArchive(store, state, input.source) && candidate !in store.world.Files()
    requires input.initial.Success? && IsBackupInventory(input.initial.value, formats)
    modifies store
    ensures OnlyGrew(old(store.trace), store) && ReadyToArchive(store, state, input.source)
    ensures store.world.persisted == old(store.world).persisted && !Recorded(store.world, candidate)
    ensures Unrecorded(store.world) <= Unrecorded(old(store.world)) + {candidate}
    ensures written.Some? ==> HasCandidate(store, candidate)
                              && store.world.Files()[candidate] == Regular(ZipFile(written.value))
                              && written.value ==
                                WrittenZip(input.initial.value.entries, identity, input.contents, formats)
                              && Accepts(written.value, identity, input.initial.value, formats)
    ensures written.Some? ==> SourceArchived(input, identity, formats)
    ensures !store.faulted ==> (written.Some? <==> SourceArchived(input, identity, formats))
    ensures !store.faulted ==>
      Unrecorded(store.world) ==
        Unrecorded(old(store.world)) + if StaysBehind(input, identity, formats) then {candidate} else {}
    ensures old(store.faulted) ==> store.faulted
  {
    written := None;
    AbsentIsUnrecorded(store.world, candidate, store.setting);
    var created := WriteCandidate(store, state, input.source, candidate, OtherFile([]));
    // an invalid identity is refused before the writer answers for the file
    if created && ValidIdentity(identity, "", "", 0, input.initial.value.digest) {
      var entered := store.Attempt();
      if entered {
        written := WriteAndVerify(store, state, input, identity, candidate, formats);
      }
    }
  }

  /** The archive is written to the temporary file and verified. */
  method WriteAndVerify(store: BackupStore, state: State, input: CycleInput, identity: Identity, candidate: string,
                        formats: Formats)
    returns (written: Option<Zip>)
    requires ReadyToArchive(store, state, input.source) && HasCandidate(store, candidate)
    requires input.initial.Success? && IsBackupInventory(input.initial.value, formats)
    requires ValidIdentity(identity, "", "", 0, input.initial.value.digest)
    modifies store
    ensures OnlyGrew(old(store.trace), store) && ReadyToArchive(store, state, input.source)
    ensures store.world.persisted == old(store.world).persisted && !Recorded(store.world, candidate)
    ensures Unrecorded(store.world) <= Unrecorded(old(store.world)) + {candidate}
    ensures written.Some? ==> HasCandidate(store, candidate)
                              && store.world.Files()[candidate] == Regular(ZipFile(written.value))
                              && written.value ==
                                WrittenZip(input.initial.value.entries, identity, input.contents, formats)
                              && Accepts(written.value, identity, input.initial.value, formats)
    ensures written.Some? ==> SourceArchived(input, identity, formats)
    ensures !store.faulted ==> (written.Some? <==> SourceArchived(input, identity, formats))
    ensures !store.faulted ==>
      Unrecorded(store.world) == Unrecorded(old(store.world)) - {candidate} +
        if Writable(input.initial.value, identity, input.contents, formats) then {candidate} else {}
    ensures old(store.faulted) ==> store.faulted
  {
    written := None;
    var zip := WriteArchive(input.initial.value, identity, input.contents, formats);
    var filled := FillCandidate(store, state, input.source, candidate, input.partialContents, zip);
    if filled {
      WriteThenVerify(input.initial.value, identity, input.contents, formats);
      var ok := VerifyArchive(zip.value, identity, input.initial.value, formats);
      if ok { written := Some(zip.value); }
    }
  }

  /** The writer's work on the file: filled in pieces, and removed again if it cannot be finished. */
  method FillCandidate(store: BackupStore, state: State, source: string, candidate: string, partial: FileContent,
                       zip: Result<Zip>)
    returns (ok: bool)
    requires ReadyToArchive(store, state, source) && HasCandidate(store, candidate)
    modifies store
    ensures OnlyGrew(old(store.trace), store) && ReadyToArchive(store, state, source)
    ensures store.world.persisted == old(store.world).persisted && !Recorded(store.world, candidate)
    ensures Unrecorded(store.world) <= Unrecorded(old(store.world)) + {candidate}
    ensures ok ==> zip.Success? && HasCandidate(store, candidate)
                   && store.world.Files()[candidate] == Regular(ZipFile(zip.value))
    ensures !store.faulted ==>
      (ok <==> zip.Success?)
      && Unrecorded(store.world) == Unrecorded(old(store.world)) - {candidate} + if ok then {candidate} else {}
    ensures old(store.faulted) ==> store.faulted
  {
    var filled := WriteCandidate(store, state, source, candidate, partial);
    if zip.Failure? || !filled {
      DiscardCandidate(store, state, source, candidate);
      return false;
    }
    ok := WriteCandidate(store, state, source, candidate, ZipFile(zip.value));
    if !ok {
      DiscardCandidate(store, state, source, candidate);
    }
  }

  /** One write to the temporary file. */
  method WriteCandidate(store: BackupStore, state: State, source: string, candidate: string, content: FileContent)
    returns (ok: bool)
    requires ReadyToArchive(store, state, source) && !Recorded(store.world, candidate)
    modifies store
    ensures OnlyGrew(old(store.trace), store) && ReadyToArchive(store, state, source)
    ensures store.world.persisted == old(store.world).persisted && !Recorded(store.world, candidate)
    ensures Unrecorded(store.world) <= Unrecorded(old(store.world)) + {candidate}
    ensures ok ==> HasCandidate(store, candidate) && store.world.Files()[candidate] == Regular(content)
    ensures ok ==>
      Unrecorded(store.world) == Unrecorded(old(store.world)) + {candidate} && store.faulted == old(store.faulted)
    ensures !ok ==> store.world == old(store.world) && store.faulted
    ensures old(store.faulted) ==> store.faulted
  {
    ok := store.Do(WriteUnrecorded(candidate, Regular(content)));
    UnrecordedKeepsPresent(old(store.world), store.world, candidate, store.setting);
  }

  /** The deferred removal of a file that could not be finished; its own failure is ignored. */
  method DiscardCandidate(store: BackupStore, state: State, source: string, candidate: string)
    requires ReadyToArchive(store, state, source) && HasCandidate(store, candidate)
    modifies store
    ensures OnlyGrew(old(store.trace), store) && ReadyToArchive(store, state, source)
    ensures store.world.persisted == old(store.world).persisted && !Recorded(store.world, candidate)
    ensures Unrecorded(store.world) <= Unrecorded(old(store.world)) + {candidate}
    ensures !store.faulted ==> Unrecorded(store.world) == Unrecorded(old(store.world)) - {candidate}
    ensures old(store.faulted) ==> store.faulted
  {
    var _ := store.Do(RemoveUnrecorded(candidate));
    UnrecordedKeepsPresent(old(store.world), store.world, candidate, store.setting);
  }

  /** Rename the temporary file, unless the final name is taken. */
  method PublishArchive(store: BackupStore, state: State, source: string, candidate: string,
                        final: string) returns (ok: bool)
    requires ReadyToArchive(store, state, source) && HasCandidate(store, candidate)
    modifies store
    ensures OnlyGrew(old(store.trace), store) && ReadyToArchive(store, state, source)
    ensures store.world.persisted == old(store.world).persisted
    ensures ok ==> HasCandidate(store, final) && store.world.Files()[final] == old(store.world).Files()[candidate]
    ensures ok ==> Unrecorded(store.world) == Unrecorded(old(store.world)) - {candidate} + {final}
    ensures final in old(store.world).Files() ==> !ok
    ensures !store.faulted ==> (ok <==> final !in old(store.world).Files())
    ensures !ok ==> store.world == old(store.world)
    ensures old(store.faulted) ==> store.faulted
  {
    if final in store.world.Files() { return false; }
    AbsentIsUnrecorded(store.world, final, store.setting);
    ok := store.Do(Publish(candidate, final));
    if ok { PublishedIsPresent(old(store.world), candidate, final, store.setting); }
  }

  lemma PublishedIsPresent(w: World, candidate: string, final: string, setting: Setting)
    requires AllPresent(w, setting) && Enabled(w, Publish(candidate, final), setting)
    ensures var w' := Apply(w, Publish(candidate, final), setting);
            AllPresent(w', setting) && !Recorded(w', final) && Unrecorded(w') == Unrecorded(w) - {candidate} + {final}
  {
    var w' := Apply(w, Publish(candidate, final), setting);
    forall r | r in Archives(w) ensures FileMatches(w'.Files(), r, setting.hash) && r.fileName != final {
      assert FileMatches(w.Files(), r, setting.hash);
    }
  }

  /** The newest record is the archive of this cycle, verified against the source inventory. */
  ghost predicate EndsWithArchive(w: World, input: CycleInput, setting: Setting, formats: Formats) {
    && w.persisted.Some? && w.persisted.value.archives != [] && input.initial.Success? && input.archiveID.Success?
    && var archives := w.persisted.value.archives;
       var last := archives[|archives| - 1];
       && FileMatches(w.Files(), last, setting.hash) && w.Files()[last.fileName].content.ZipFile?
       && last == Record(input.archiveID.value, input.createdAtText + "-" + input.archiveID.value + ".zip", last.order,
                         input.createdAt, setting.hash(w.Files()[last.fileName].content), input.initial.value.digest,
                         Confirmed)
       && Accepts(w.Files()[last.fileName].content.zip,
                  Identity(1, last.archiveID, input.source, setting.destination, input.createdAt,
                           last.order, input.initial.value.digest),
                  input.initial.value, formats)
  }

  /** The newest k of the archives there were and the one added, which takes the next order. */
  ghost predicate Advanced(before: State, after: State, k: nat) {
    && after.archives != [] && after.pending.None? && after.nextOrder == before.nextOrder + 1
    && after.archives[|after.archives| - 1].order == before.nextOrder
    && after.archives == Newest(ConfirmedOnly(before.archives) + [after.archives[|after.archives| - 1]], k)
    && after.schemaVersion == before.schemaVersion && after.destination == before.destination
  }

  /** What a successful cycle leaves of a state it started from. */
  ghost predicate CycleDone(before: State, w: World, input: CycleInput, setting: Setting, formats: Formats) {
    && w.directory.Some? && EndsWithArchive(w, input, setting, formats)
    && 1 <= setting.retention <= 100 && Advanced(before, w.persisted.value, setting.retention)
    && w.persisted.value.source == input.source && AllPresent(w, setting) && Unrecorded(w) == {}
  }

  /** Record the published archive and apply retention. */
  method ConfirmAndRetain(store: BackupStore, state: State, input: CycleInput, identity: Identity, final: string,
                          ghost zip: Zip, formats: Formats)
    returns (ok: bool, confirmed: bool)
    requires ReadyToArchive(store, state, input.source) && HasCandidate(store, final)
    requires input.initial.Success? && input.archiveID.Success? && identity == IdentityFor(input, state, store.setting)
    requires store.world.Files()[final] == Regular(ZipFile(zip)) && Accepts(zip, identity, input.initial.value, formats)
    requires Unrecorded(store.world) <= {final} && final == ArchiveName(input)
    modifies store
    ensures OnlyGrew(old(store.trace), store)
    ensures ok ==> confirmed && CycleDone(state, store.world, input, store.setting, formats)
    ensures confirmed ==> Confirmable(store.setting, state, identity, final, store.setting.hash(ZipFile(zip)))
    ensures !store.faulted ==> (ok <==> ValidRetention(store.setting.retention) &&
                                        Confirmable(store.setting, state, identity, final,
                                                    store.setting.hash(ZipFile(zip))))
    ensures !confirmed ==> store.world == old(store.world)
    ensures SameSource(store.world, input.source)
    ensures old(store.faulted) ==> store.faulted
  {
    var added := ConfirmVerified(store, state, input, identity, final, zip, formats);
    ok, confirmed := false, added.Success?;
    if confirmed {
      ghost var w1, r := store.world, RecordFor(identity, final, store.setting.hash(ZipFile(zip)));
      ok := Retain(store, added.value);
      if ok {
        RetentionLeaves(w1, state, r, input.source, store.setting);
        RetainedIsDone(w1, store.world, state, input, identity, final, zip, store.setting, formats);
      }
    }
  }

  /** Record the published archive, which was verified under the identity. */
  method ConfirmVerified(store: BackupStore, state: State, input: CycleInput, identity: Identity, final: string,
                         ghost zip: Zip, formats: Formats)
    returns (added: Result<State>)
    requires ReadyToArchive(store, state, input.source) && HasCandidate(store, final)
    requires input.initial.Success? && input.archiveID.Success? && identity == IdentityFor(input, state, store.setting)
    requires store.world.Files()[final] == Regular(ZipFile(zip)) && Accepts(zip, identity, input.initial.value, formats)
    requires Unrecorded(store.world) <= {final}
    modifies store
    ensures OnlyGrew(old(store.trace), store)
    ensures added.Success? ==> Current(store, added.value) && final in store.world.Files()
                               && store.world.Files()[final] == Regular(ZipFile(zip))
    ensures added.Success? ==>
      JustConfirmed(store.world, state, RecordFor(identity, final, store.setting.hash(ZipFile(zip))), input.source,
                    store.setting)
    ensures added.Success? ==> Confirmable(store.setting, state, identity, final, store.setting.hash(ZipFile(zip)))
    ensures !store.faulted ==>
      (added.Success? <==> Confirmable(store.setting, state, identity, final, store.setting.hash(ZipFile(zip))))
    ensures added.Failure? ==> store.world == old(store.world)
    ensures old(store.faulted) ==> store.faulted
  {
    var digest := store.setting.hash(store.world.Files()[final].content);
    AcceptedIsIntact(store.world.Files(), final, zip, identity, input.initial.value, store.setting, formats);
    added := ConfirmArchive(store, state, identity, final, digest);
    if added.Success? {
      ConfirmedIsPresent(old(store.world), store.world, RecordFor(identity, final, digest), input.source,
                         store.setting);
    }
  }

  /** An archive accepted under an identity of this destination is intact for the record made of it. */
  lemma AcceptedIsIntact(files: Directory, final: string, zip: Zip, identity: Identity, inventory: BackupInventory,
                         setting: Setting, formats: Formats)
    requires final in files && files[final] == Regular(ZipFile(zip)) && Accepts(zip, identity, inventory, formats)
    requires identity.destinationPath == setting.destination
    ensures RecordIntact(files, RecordFor(identity, final, setting.hash(ZipFile(zip))), identity.sourcePath, setting)
  {
  }

  lemma RetainedIsDone(w1: World, w: World, state: State, input: CycleInput, identity: Identity, final: string,
                       zip: Zip,
                       setting: Setting, formats: Formats)
    requires input.initial.Success? && input.archiveID.Success? && identity == IdentityFor(input, state, setting)
    requires final in w1.Files() && w1.Files()[final] == Regular(ZipFile(zip))
             && Accepts(zip, identity, input.initial.value, formats)
    requires ValidRetention(setting.retention) && final == ArchiveName(input)
    requires RetainedAfter(w1, w, state, RecordFor(identity, final, setting.hash(ZipFile(zip))), input.source, setting)
    ensures CycleDone(state, w, input, setting, formats)
  {
  }

  /** What retention leaves right after record r was added to `before`. */
  ghost predicate RetainedAfter(w1: World, goal: World, before: State, r: Record, source: string, setting: Setting) {
    && SameSource(goal, source)
    && goal.persisted.Some? && goal.directory.Some? && Advanced(before, goal.persisted.value, setting.retention)
    && EndsWithRecord(goal, r) && r.fileName in w1.Files() && goal.Files()[r.fileName] == w1.Files()[r.fileName]
    && AllPresent(goal, setting) && Unrecorded(goal) == {}
  }

  ghost predicate JustConfirmed(w1: World, before: State, r: Record, source: string, setting: Setting) {
    && w1.persisted == Some(WithConfirmed(before, r, source)) && LoadsForSource(w1, source, setting)
    && w1.directory.Some? && AllPresent(w1, setting) && Unrecorded(w1) == {}
    && before.pending.None? && r.lifecycle.Confirmed? && r.order == before.nextOrder
  }

  lemma RetentionLeaves(w1: World, before: State, r: Record, source: string, setting: Setting)
    requires JustConfirmed(w1, before, r, source, setting) && setting.retention >= 1
    ensures RetainedAfter(w1, RetentionGoal(w1, setting.retention), before, r, source, setting)
  {
    assert r in Archives(w1);
    RetainedIsReady(w1, RetentionGoal(w1, setting.retention), source, setting);
    RetainedEndsWith(w1, before, r, source, setting);
  }

  /** Retention after a confirmation, and the log entries around it, which may fail too. */
  method Retain(store: BackupStore, current: State) returns (ok: bool)
    requires Current(store, current)
    modifies store
    ensures OnlyGrew(old(store.trace), store)
    ensures ok ==> ValidRetention(store.setting.retention)
    ensures ok ==> store.world == RetentionGoal(old(store.world), store.setting.retention)
    ensures !store.faulted ==> (ok <==> ValidRetention(store.setting.retention))
    ensures RetentionGoal(store.world, store.setting.retention) ==
      RetentionGoal(old(store.world), store.setting.retention)
    ensures old(store.faulted) ==> store.faulted
  {
    var logged := store.Attempt();
    if !logged { return false; }
    var retained := ExecuteRetention(store, current);
    if !retained { return false; }
    ok := store.Attempt();
  }

  predicate EndsWithRecord(w: World, r: Record) {
    Archives(w) != [] && Archives(w)[|Archives(w)| - 1] == r && r.fileName in w.Files()
  }

  lemma ConfirmedIsPresent(w: World, w1: World, r: Record, source: string, setting: Setting)
    requires AllPresent(w, setting) && Unrecorded(w) <= {r.fileName} && FileMatches(w.Files(), r, setting.hash)
    requires w1 == w.(persisted := Some(WithConfirmed(StateOrFresh(w, setting), r, source)))
    ensures AllPresent(w1, setting) && Unrecorded(w1) == {}
  {
    assert Archives(w1) == Archives(w) + [r];
    AppendOrdered(Archives(w), r);
  }

  lemma LastIsNewest(archives: seq<Record>, r: Record, k: nat)
    requires k >= 1
    ensures var kept := Newest(archives + [r], k); kept != [] && kept[|kept| - 1] == r
  {
  }

  lemma RetainedEndsWith(w1: World, state: State, r: Record, source: string, setting: Setting)
    requires w1.persisted == Some(WithConfirmed(state, r, source)) && ValidState(w1.persisted.value)
    requires state.pending.None? && r.lifecycle.Confirmed? && setting.retention >= 1 && r.fileName in w1.Files()
    requires r.order == state.nextOrder
    ensures var goal := RetentionGoal(w1, setting.retention);
            && EndsWithRecord(goal, r) && goal.Files()[r.fileName] == w1.Files()[r.fileName]
            && Advanced(state, goal.persisted.value, setting.retention)
  {
    KeptAdvances(state, r, source, setting.retention);
    var goal := RetentionGoal(w1, setting.retention);
    assert r in goal.persisted.value.archives;
    KeptIsIntact(w1, setting.retention, r);
  }

  lemma KeptAdvances(state: State, r: Record, source: string, k: nat)
    requires r.lifecycle.Confirmed? && k >= 1
    ensures var kept := Kept(WithConfirmed(state, r, source), k);
            kept == Newest(ConfirmedOnly(state.archives) + [r], k) && kept != [] && kept[|kept| - 1] == r
  {
    ConfirmedOnlyAppend(state.archives, r);
    LastIsNewest(ConfirmedOnly(state.archives), r, k);
  }

  // ----- the whole cycle -----

  /** How far a cycle got: what the deferred rollback needs to know. */
  datatype CycleEnd = CycleEnd(ok: bool, confirmed: bool, candidate: Option<string>)

  function CandidateName(input: CycleInput): string
    requires input.archiveID.Success?
  {
    ".gosync-backup-" + input.archiveID.value + "-" + input.temporarySuffix + ".tmp"
  }

  function ArchiveName(input: CycleInput): string
    requires input.archiveID.Success?
  {
    input.createdAtText + "-" + input.archiveID.value + ".zip"
  }

  /** Temporary names never look like archives. */
  lemma TemporaryNames(input: CycleInput)
    requires input.archiveID.Success?
    ensures !HasZipExtension(CandidateName(input))
  {
    var name := CandidateName(input);
    assert name[|name| - 4..] == ".tmp";
  }

  lemma NamesDiffer(input: CycleInput)
    requires input.archiveID.Success?
    ensures CandidateName(input) != ArchiveName(input)
  {
    var candidate, final := CandidateName(input), ArchiveName(input);
    assert candidate[|candidate| - 1] == 'p' && candidate[|candidate| - 2] == 'm';
    assert final[|final| - 2] == 'i';
  }

  /** Everything a cycle needs of its source, its names and the state, for one more archive. */
  ghost predicate CanArchive(state: State, input: CycleInput, setting: Setting, formats: Formats) {
    && 1 <= setting.retention <= 100
    && input.initial.Success? && input.archiveID.Success?
    && TemporaryUsable(state, input) && FinalUsable(state, input) && input.final == input.initial
    && var identity := IdentityFor(input, state, setting);
       var zip := WrittenZip(input.initial.value.entries, identity, input.contents, formats);
       SourceArchived(input, identity, formats)
       && Confirmable(setting, state, identity, ArchiveName(input), setting.hash(ZipFile(zip)))
  }

  /** The identifier fits in a file name, and no record has the temporary name made of it. */
  ghost predicate TemporaryUsable(state: State, input: CycleInput)
    requires input.archiveID.Success?
  {
    var id := input.archiveID.value;
    && id != "" && '/' !in id && '\\' !in id
    && forall r :: r in state.archives ==> r.fileName != ".gosync-backup-" + id + "-" + input.temporarySuffix + ".tmp"
  }

  /** The identifier is no dot segment, and no record has the final name made of it. */
  ghost predicate FinalUsable(state: State, input: CycleInput)
    requires input.archiveID.Success?
  {
    var id := input.archiveID.value;
    id !in {".", ".."} && forall r :: r in state.archives ==> r.fileName != input.createdAtText + "-" + id + ".zip"
  }

  lemma UsableNames(state: State, input: CycleInput)
    requires input.archiveID.Success?
    ensures TemporaryUsable(state, input) <==>
            PlainID(input.archiveID.value) && CandidateName(input) !in FileNames(state.archives)
    ensures CanPublish(state, input) <==> FinalUsable(state, input) && input.final == input.initial
  {
  }

  /**
   The cycle fails and its temporary file stays: an invalid identity, a source or an identity
   that does not read back as it was inventoried, a source that changes until the second
   inventory, or a final name that is invalid or taken.
   */
  ghost predicate LeavesCandidate(state: State, input: CycleInput, setting: Setting, formats: Formats) {
    && input.initial.Success? && input.archiveID.Success? && TemporaryUsable(state, input)
    && var identity := IdentityFor(input, state, setting);
       && StaysBehind(input, identity, formats)
       && !(SourceArchived(input, identity, formats) && FinalUsable(state, input) && input.final == input.initial)
  }

  /**
   The unrecorded entries after a cycle without faults: the temporary file, or the archive
   published but not confirmed.
   */
  ghost predicate LeavesOnly(w: World, end: CycleEnd, stray: Option<string>, published: Option<string>,
                             source: string, setting: Setting)
  {
    && (w.persisted.Some? ==> w.persisted.value.pending.None?)
    && if stray.Some? then Unrecorded(w) == {stray.value} && !end.confirmed && end.candidate == stray
       else Unrecorded(w) == Owned(w, source, setting) == (if published.Some? then {published.value} else {})
            && (published.Some? ==> !end.confirmed && end.candidate.None?)
  }

  /** The archive is made and published, but the record of it would not be valid. */
  ghost predicate LeavesPublished(state: State, input: CycleInput, setting: Setting, formats: Formats) {
    && input.initial.Success? && input.archiveID.Success?
    && TemporaryUsable(state, input) && FinalUsable(state, input) && input.final == input.initial
    && var identity := IdentityFor(input, state, setting);
       && SourceArchived(input, identity, formats)
       && !Confirmable(setting, state, identity, ArchiveName(input),
                       setting.hash(ZipFile(WrittenZip(input.initial.value.entries, identity, input.contents,
                                                       formats))))
  }

  /** With nothing persisted yet, and file digests that are digests, a published archive is always confirmed. */
  lemma FirstIsConfirmed(w: World, input: CycleInput, setting: Setting, formats: Formats)
    requires w.persisted.None? && forall content :: IsDigestText(setting.hash(content))
    ensures !LeavesPublished(AfterGate(w, setting), input, setting, formats)
  {
    if LeavesPublished(AfterGate(w, setting), input, setting, formats) {
      var state := AfterGate(w, setting);
      var identity := IdentityFor(input, state, setting);
      var digest := setting.hash(ZipFile(WrittenZip(input.initial.value.entries, identity, input.contents, formats)));
      assert IsDigestText(digest);
      FirstConfirmable(setting, identity, ArchiveName(input), digest);
      assert false;
    }
  }

  lemma FirstConfirmable(setting: Setting, identity: Identity, name: string, digest: string)
    requires ValidIdentity(identity, "", "", 0, "") && identity.destinationPath == setting.destination
    requires identity.confirmationOrder == 1 && IsDigestText(digest) && HasZipExtension(name)
    ensures Confirmable(setting, FreshState(setting), identity, name, digest)
  {
    var r := RecordFor(identity, name, digest);
    assert name[|name| - 1] == 'p' && name[|name| - 1] in name && !IsSpace('p');
    assert ValidRecord(r);
    assert WithConfirmed(FreshState(setting), r, identity.sourcePath).archives == [r];
  }

  function Published(leaves: bool, input: CycleInput): Option<string> {
    if leaves && input.archiveID.Success? then Some(ArchiveName(input)) else None
  }

  function Stray(leaves: bool, input: CycleInput): Option<string> {
    if leaves && input.archiveID.Success? then Some(CandidateName(input)) else None
  }

  /** A published archive is one of our own. */
  lemma PublishedIsOwned(w: World, input: CycleInput, zip: Zip, identity: Identity, setting: Setting, formats: Formats)
    requires input.initial.Success? && input.archiveID.Success?
    requires identity.sourcePath == input.source && identity.destinationPath == setting.destination
    requires Unrecorded(w) == {ArchiveName(input)} && w.Files()[ArchiveName(input)] == Regular(ZipFile(zip))
    requires Accepts(zip, identity, input.initial.value, formats)
    ensures Unrecorded(w) == Owned(w, input.source, setting)
  {
    var name := ArchiveName(input);
    assert name[|name| - 4..] == ".zip";
    assert name in Unrecorded(w) && IsOwnedCandidate(w.Files(), name, input.source, setting);
  }

  /** Without strays the directory holds exactly the recorded files. */
  lemma ExactlyRecorded(w: World, extra: set<string>, name: string, setting: Setting)
    requires AllPresent(w, setting) && Unrecorded(w) <= extra && name !in extra
    ensures name in w.Files() <==> name in FileNames(Archives(w))
  {
  }

  /** From the source inventory to the published archive. */
  method ArchiveSource(store: BackupStore, state: State, input: CycleInput, formats: Formats) returns (r: CycleEnd)
    requires ReadyToArchive(store, state, input.source) && Unrecorded(store.world) == {}
    requires input.initial.Success? ==> IsBackupInventory(input.initial.value, formats)
    modifies store
    ensures OnlyGrew(old(store.trace), store)
    ensures r.ok ==> r.confirmed && CycleDone(state, store.world, input, store.setting, formats)
    ensures r.ok ==> CanArchive(state, input, store.setting, formats)
    ensures !store.faulted ==> (r.ok <==> CanArchive(state, input, store.setting, formats))
    ensures !r.confirmed ==> store.world.persisted == old(store.world).persisted
    ensures !r.confirmed && r.candidate.Some? ==> !Recorded(store.world, r.candidate.value)
    ensures r.confirmed && !store.faulted && ValidRetention(store.setting.retention) ==> r.ok
    ensures SameSource(store.world, input.source)
    ensures !store.faulted && ValidRetention(store.setting.retention) ==>
      store.world.directory.Some?
      && LeavesOnly(store.world, r, Stray(LeavesCandidate(state, input, store.setting, formats), input),
                    Published(LeavesPublished(state, input, store.setting, formats), input), input.source,
                        store.setting)
    ensures old(store.faulted) ==> store.faulted
  {
    r := CycleEnd(false, false, None);
    if !input.initial.Success? || !input.archiveID.Success? || !PlainID(input.archiveID.value) { return; }
    UsableNames(state, input);
    ExactlyRecorded(store.world, {}, CandidateName(input), store.setting);
    if CandidateName(input) in store.world.Files() { return; }
    r := ArchiveUnderName(store, state, input, formats);
  }

  /** The archive is made under its temporary name, which is free. */
  method ArchiveUnderName(store: BackupStore, state: State, input: CycleInput, formats: Formats) returns (r: CycleEnd)
    requires ReadyToArchive(store, state, input.source) && Unrecorded(store.world) == {}
    requires input.initial.Success? && IsBackupInventory(input.initial.value, formats)
    requires input.archiveID.Success? && TemporaryUsable(state, input)
    requires CandidateName(input) !in store.world.Files()
    modifies store
    ensures OnlyGrew(old(store.trace), store)
    ensures r.ok ==> r.confirmed && CycleDone(state, store.world, input, store.setting, formats)
    ensures r.ok ==> CanArchive(state, input, store.setting, formats)
    ensures !store.faulted ==> (r.ok <==> CanArchive(state, input, store.setting, formats))
    ensures !r.confirmed ==> store.world.persisted == old(store.world).persisted
    ensures !r.confirmed && r.candidate.Some? ==> !Recorded(store.world, r.candidate.value)
    ensures r.confirmed && !store.faulted && ValidRetention(store.setting.retention) ==> r.ok
    ensures SameSource(store.world, input.source)
    ensures !store.faulted && ValidRetention(store.setting.retention) ==>
      store.world.directory.Some?
      && LeavesOnly(store.world, r, Stray(LeavesCandidate(state, input, store.setting, formats), input),
                    Published(LeavesPublished(state, input, store.setting, formats), input), input.source,
                    store.setting)
    ensures old(store.faulted) ==> store.faulted
  {
    var identity := IdentityFor(input, state, store.setting);
    var candidate := CandidateName(input);
    UsableNames(state, input);
    var zip := MakeCandidate(store, state, input, identity, candidate, formats);
    r := CycleEnd(false, false, Some(candidate));
    if zip.Some? {
      r := PublishAndConfirm(store, state, input, identity, candidate, zip.value, formats);
    }
  }

  /** Nothing stands in the way of publishing: the source held still and there is a name, which is free. */
  predicate CanPublish(state: State, input: CycleInput)
    requires input.archiveID.Success?
  {
    && input.final == input.initial && input.archiveID.value != "." && input.archiveID.value != ".."
    && ArchiveName(input) !in FileNames(state.archives)
  }

  /** From the verified temporary file to the applied retention. */
  method PublishAndConfirm(store: BackupStore, state: State, input: CycleInput, identity: Identity, candidate: string,
                           zip: Zip, formats: Formats)
    returns (r: CycleEnd)
    requires ReadyToArchive(store, state, input.source) && HasCandidate(store, candidate)
    requires input.initial.Success? && input.archiveID.Success? && candidate == CandidateName(input)
    requires identity == IdentityFor(input, state, store.setting) && Unrecorded(store.world) == {candidate}
    requires store.world.Files()[candidate] == Regular(ZipFile(zip))
             && Accepts(zip, identity, input.initial.value, formats)
    modifies store
    ensures OnlyGrew(old(store.trace), store)
    ensures r.ok ==> r.confirmed && CycleDone(state, store.world, input, store.setting, formats)
    ensures r.ok ==>
      CanPublish(state, input)
        && Confirmable(store.setting, state, identity, ArchiveName(input), store.setting.hash(ZipFile(zip)))
    ensures !store.faulted ==>
      (r.ok <==> CanPublish(state, input) && ValidRetention(store.setting.retention) &&
                 Confirmable(store.setting, state, identity, ArchiveName(input), store.setting.hash(ZipFile(zip))))
    ensures !r.confirmed ==> store.world.persisted == old(store.world).persisted
    ensures !r.confirmed && r.candidate.Some? ==> !Recorded(store.world, r.candidate.value)
    ensures r.confirmed && !store.faulted && ValidRetention(store.setting.retention) ==> r.ok
    ensures SameSource(store.world, input.source)
    ensures !store.faulted && ValidRetention(store.setting.retention) ==>
      store.world.directory.Some?
      && LeavesOnly(store.world, r, Stray(!CanPublish(state, input), input),
                    Published(CanPublish(state, input) &&
                              !Confirmable(store.setting, state, identity, ArchiveName(input),
                                           store.setting.hash(ZipFile(zip))), input),
                    input.source, store.setting)
    ensures old(store.faulted) ==> store.faulted
  {
    var stable := SourceIsStable(store, input);
    if !stable {
      return CycleEnd(false, false, Some(candidate));
    }
    if input.archiveID.value == "." || input.archiveID.value == ".." {
      return CycleEnd(false, false, Some(candidate));
    }
    var final := ArchiveName(input);
    NamesDiffer(input);
    ExactlyRecorded(store.world, {candidate}, final, store.setting);
    var published := PublishArchive(store, state, input.source, candidate, final);
    if !published {
      return CycleEnd(false, false, Some(candidate));
    }
    PublishedIsOwned(store.world, input, zip, identity, store.setting, formats);
    var ok, confirmed := ConfirmAndRetain(store, state, input, identity, final, zip, formats);
    return CycleEnd(ok, confirmed, None);
  }

  /** The inventory taken after archiving equals the one before. */
  method SourceIsStable(store: BackupStore, input: CycleInput) returns (same: bool)
    requires input.initial.Success?
    modifies store`faulted
    ensures same ==> input.final == input.initial && store.faulted == old(store.faulted)
    ensures !store.faulted ==> (same <==> input.final == input.initial)
    ensures old(store.faulted) ==> store.faulted
  {
    same := store.Attempt();
    if !same || input.final.Failure? { return false; }
    same := InventoriesEqual(input.initial.value, input.final.value);
  }

  /** Remove the temporary file and, if that leaves it empty, the destination made by this cycle. */
  method RollBackFirstCycle(store: BackupStore, candidate: Option<string>)
    requires store.Valid() && (candidate.Some? ==> !Recorded(store.world, candidate.value))
    modifies store
    ensures OnlyGrew(old(store.trace), store) && store.world.persisted == old(store.world).persisted
    ensures !store.faulted && old(store.world).directory.Some?
            && old(store.world).Files().Keys <= (if candidate.Some? then {candidate.value} else {}) ==>
      store.world.directory.None?
    ensures forall name :: name in old(store.world).Files() && Some(name) != candidate ==>
              name in store.world.Files() && store.world.Files()[name] == old(store.world).Files()[name]
    ensures !store.faulted && store.world.directory.Some? ==>
      store.world == Cleared(old(store.world), if candidate.Some? then {candidate.value} else {})
    ensures old(store.faulted) ==> store.faulted
  {
    ghost var names := if candidate.Some? then {candidate.value} else {};
    assert old(store.world).directory.Some? && names !! old(store.world).Files().Keys ==>
      old(store.world).Files() - names == old(store.world).Files();
    if candidate.Some? && candidate.value in store.world.Files() {
      var _ := store.Do(RemoveUnrecorded(candidate.value));
    }
    if store.world.directory == Some(map[]) {
      var _ := store.Do(RemoveDestination);
    }
  }

  function WithDestination(w: World): World {
    if w.directory.None? then w.(directory := Some(map[])) else w
  }

  /** The state the retention gate passes on. */
  function AfterGate(w: World, setting: Setting): State {
    StateOrFresh(w, setting).(archives := Kept(StateOrFresh(w, setting), setting.retention), pending := None)
  }

  /**
   An acceptable destination, and an archive that can be made and confirmed on top of what
   the retention gate keeps.
   */
  ghost predicate CanSucceed(w: World, input: CycleInput, setting: Setting, formats: Formats) {
    && input.sourceUsable && Acceptable(w, input.source, setting)
    && CanArchive(AfterGate(w, setting), input, setting, formats)
  }

  /**
   What a run leaves is acceptable unless a temporary file is left.
   */
  lemma EndAccepted(w: World, end: CycleEnd, state: State, input: CycleInput, setting: Setting, formats: Formats)
    ensures var leaves := LeavesCandidate(state, input, setting, formats);
            var published := LeavesPublished(state, input, setting, formats);
            Invariant(w, setting) && w.directory.Some? && SameSource(w, input.source)
            && LeavesOnly(w, end, Stray(leaves, input), Published(published, input), input.source, setting) ==>
            (Acceptable(w, input.source, setting) <==> !leaves)
  {
    var leaves := LeavesCandidate(state, input, setting, formats);
    var published := LeavesPublished(state, input, setting, formats);
    if Invariant(w, setting) && w.directory.Some?
       && LeavesOnly(w, end, Stray(leaves, input), Published(published, input), input.source, setting) {
      AcceptedIff(w, input.source, setting);
      if leaves {
        TemporaryNames(input);
        assert CandidateName(input) in Unrecorded(w) && CandidateName(input) !in Owned(w, input.source, setting);
      }
    }
  }

  /** The same for a run that began with an acceptable world, the state after the gate being that world's. */
  lemma CycleEndAccepted(trace: seq<World>, start: nat, before: World, w: World, end: CycleEnd, input: CycleInput,
                         setting: Setting, formats: Formats)
    requires start < |trace| && before == trace[start] && w == trace[|trace| - 1]
    ensures var leaves := LeavesCandidate(AfterGate(before, setting), input, setting, formats);
            var published := LeavesPublished(AfterGate(before, setting), input, setting, formats);
            IsRun(trace, setting) && Acceptable(before, input.source, setting) && w.directory.Some?
              && SameSource(w, input.source)
            && LeavesOnly(w, end, Stray(leaves, input), Published(published, input), input.source, setting) ==>
            (Acceptable(w, input.source, setting) <==> !leaves)
  {
    if IsRun(trace, setting) && Acceptable(before, input.source, setting) {
      RunFromAcceptable(trace, start, input.source, setting);
      EndAccepted(w, end, AfterGate(before, setting), input, setting, formats);
    }
  }

  /** From an acceptable world every run keeps the invariant. */
  lemma RunFromAcceptable(trace: seq<World>, start: nat, source: string, setting: Setting)
    requires IsRun(trace, setting) && start < |trace| && Acceptable(trace[start], source, setting)
    ensures Invariant(trace[|trace| - 1], setting)
  {
    AcceptableIsInvariant(trace[start], source, setting);
    LaterRun(trace, start, setting);
    RunKeepsInvariant(trace[start..], setting, |trace| - 1 - start);
  }

  lemma PrefixKeeps(before: seq<World>, after: seq<World>, i: nat)
    requires before <= after && i < |before|
    ensures after[i] == before[i]
  {
  }

  lemma LaterRun(trace: seq<World>, start: nat, setting: Setting)
    requires IsRun(trace, setting) && start < |trace|
    ensures IsRun(trace[start..], setting)
  {
    forall i | 0 <= i < |trace[start..]| - 1 ensures Allowed(trace[start..][i], trace[start..][i + 1], setting) {
      assert Allowed(trace[start + i], trace[start + i + 1], setting);
    }
  }

  /**
   One cycle.  Success leaves the newest archives, this cycle's last, and nothing else in the
   destination; a destination that is not acceptable is left exactly as it was.  A cycle in
   which nothing faults leaves an acceptable destination acceptable, unless its temporary
   file stays behind.
   */
  method RunBackupCycle(store: BackupStore, input: CycleInput, formats: Formats) returns (ok: bool)
    requires store.Valid()
    requires input.initial.Success? ==> IsBackupInventory(input.initial.value, formats)
    modifies store
    ensures OnlyGrew(old(store.trace), store)
    ensures ok ==> CycleDone(StateOrFresh(old(store.world), store.setting), store.world, input, store.setting, formats)
    ensures ok ==> CanSucceed(WithDestination(old(store.world)), input, store.setting, formats)
    ensures !store.faulted ==> (ok <==> CanSucceed(WithDestination(old(store.world)), input, store.setting, formats))
    ensures old(store.world).directory.Some? && !Acceptable(old(store.world), input.source, store.setting) ==>
      !ok && store.world == old(store.world) && store.trace == old(store.trace)
    ensures old(store.world).directory.None?
            && !Acceptable(WithDestination(old(store.world)), input.source, store.setting) ==>
      !ok && store.world.persisted == old(store.world).persisted
      && (store.faulted || store.world == old(store.world))
    ensures !store.faulted && ValidRetention(store.setting.retention)
            && Acceptable(old(store.world), input.source, store.setting) ==>
      (Acceptable(store.world, input.source, store.setting) <==>
       !(input.sourceUsable
         && LeavesCandidate(AfterGate(old(store.world), store.setting), input, store.setting, formats)))
    // spelled out: what is refused stays as it is, whatever fails
    ensures MustRefuse(old(store.world), input.source, store.setting) ==>
      && !ok && store.world.persisted == old(store.world).persisted
      && (old(store.world).directory.Some? ==> store.world == old(store.world) && store.trace == old(store.trace))
    ensures !store.faulted && ValidRetention(store.setting.retention) && old(store.world).directory.Some?
            && Acceptable(old(store.world), input.source, store.setting) && input.sourceUsable
            && LeavesCandidate(AfterGate(old(store.world), store.setting), input, store.setting, formats) ==>
      Unrecorded(store.world) ==
        {".gosync-backup-" + input.archiveID.value + "-" + input.temporarySuffix + ".tmp"}
    ensures ok && old(store.world).persisted.None? ==> IsFirstState(store.world.persisted, input, store.setting)
    ensures !input.sourceUsable ==> !ok && store.world == old(store.world) && store.trace == old(store.trace)
    ensures ok && !store.faulted ==> Acceptable(store.world, input.source, store.setting)
    ensures !ok && !store.faulted && ValidRetention(store.setting.retention) && old(store.world).directory.None?
            && Acceptable(WithDestination(old(store.world)), input.source, store.setting) ==>
      if input.sourceUsable
        && LeavesPublished(AfterGate(old(store.world), store.setting), input, store.setting, formats)
      then Acceptable(store.world, input.source, store.setting)
        && store.world.Files().Keys == {input.createdAtText + "-" + input.archiveID.value + ".zip"}
      else store.world.directory.None?
    ensures SameSource(old(store.world), input.source) ==> SameSource(store.world, input.source)
    ensures old(store.faulted) ==> store.faulted
  {
    RefusedIff(WithDestination(store.world), input.source, store.setting);
    RefusedAlike(store.world, input.source, store.setting);
    if store.world.persisted.None? { FirstStateIs(store.world, input, store.setting, formats); }
    var started := store.Attempt();
    if !started || !input.sourceUsable { return false; }
    if store.world.directory.None? {
      ok := CycleInNewDestination(store, input, formats);
      return;
    }
    var end := CycleInDestination(store, input, formats);
    return end.ok;
  }

  /** The state after a first confirmation: this destination and source, one confirmed archive, order 2 next. */
  ghost predicate IsFirstState(persisted: Option<State>, input: CycleInput, setting: Setting) {
    && persisted.Some? && |persisted.value.archives| == 1 && persisted.value.archives[0].order == 1
    && persisted.value == State(1, setting.destination, input.source, 2, persisted.value.archives, None)
  }

  lemma FirstStateIs(before: World, input: CycleInput, setting: Setting, formats: Formats)
    requires before.persisted.None?
    ensures forall w: World :: CycleDone(StateOrFresh(before, setting), w, input, setting, formats) ==>
                                 IsFirstState(w.persisted, input, setting)
  {
  }

  /** Making the destination does not change whether it is refused. */
  lemma RefusedAlike(w: World, source: string, setting: Setting)
    ensures MustRefuse(w, source, setting) <==> MustRefuse(WithDestination(w), source, setting)
  {
    if w.directory.None? {
      assert WithDestination(w).Files() == w.Files();
      forall name
        ensures !ForeignEntry(w, name, source, setting) && !ForeignEntry(WithDestination(w), name, source, setting)
      {
      }
    }
  }

  /** The destination is made first, and taken back if the cycle confirms nothing. */
  method CycleInNewDestination(store: BackupStore, input: CycleInput, formats: Formats) returns (ok: bool)
    requires store.Valid() && store.world.directory.None? && input.sourceUsable
    requires input.initial.Success? ==> IsBackupInventory(input.initial.value, formats)
    modifies store
    ensures OnlyGrew(old(store.trace), store)
    ensures ok ==> CycleDone(StateOrFresh(old(store.world), store.setting), store.world, input, store.setting, formats)
    ensures ok ==> CanSucceed(WithDestination(old(store.world)), input, store.setting, formats)
    ensures !store.faulted ==> (ok <==> CanSucceed(WithDestination(old(store.world)), input, store.setting, formats))
    ensures !Acceptable(WithDestination(old(store.world)), input.source, store.setting) ==>
      !ok && store.world.persisted == old(store.world).persisted
      && (store.faulted || store.world == old(store.world))
    ensures ok && !store.faulted && ValidRetention(store.setting.retention) ==>
      Acceptable(store.world, input.source, store.setting)
    ensures !ok && !store.faulted && ValidRetention(store.setting.retention)
            && Acceptable(WithDestination(old(store.world)), input.source, store.setting) ==>
      if LeavesPublished(AfterGate(old(store.world), store.setting), input, store.setting, formats)
      then Acceptable(store.world, input.source, store.setting)
        && store.world.Files().Keys == {input.createdAtText + "-" + input.archiveID.value + ".zip"}
      else store.world.directory.None?
    ensures SameSource(old(store.world), input.source) ==> SameSource(store.world, input.source)
    ensures old(store.faulted) ==> store.faulted
  {
    var destinationCreated := store.Do(MakeDestination);
    if !destinationCreated { return false; }
    ghost var made := store.world;
    if Acceptable(made, input.source, store.setting) { NoArchives(made, input.source, store.setting); }
    var end := CycleInDestination(store, input, formats);
    ghost var ended := store.world;
    if !end.ok && !end.confirmed {
      RollBackFirstCycle(store, end.candidate);
      if !store.faulted && ValidRetention(store.setting.retention) && Acceptable(made, input.source, store.setting) {
        var state := AfterGate(made, store.setting);
        FirstCycleEnds(made, ended, store.world, end,
                       Stray(LeavesCandidate(state, input, store.setting, formats), input),
                       Published(LeavesPublished(state, input, store.setting, formats), input), input.source,
                           store.setting);
      }
    }
    return end.ok;
  }

  /** Rolling back a first cycle: the destination goes unless a published archive is in it. */
  lemma FirstCycleEnds(made: World, ended: World, after: World, end: CycleEnd, stray: Option<string>,
                       published: Option<string>,
                       source: string, setting: Setting)
    requires made.directory == Some(map[]) && Acceptable(made, source, setting) && ended.persisted == made.persisted
    requires ended.directory.Some? && (Acceptable(ended, source, setting) <==> stray.None?)
    requires LeavesOnly(ended, end, stray, published, source, setting)
    requires after.directory.None? || after == Cleared(ended, CandidateSet(end))
    requires ended.Files().Keys <= CandidateSet(end) ==> after.directory.None?
    requires forall name :: name in ended.Files() && name !in CandidateSet(end) ==> name in after.Files()
    ensures stray.None? && published.Some? ==>
      Acceptable(after, source, setting) && after.Files().Keys == {published.value}
    ensures stray.Some? || published.None? ==> after.directory.None?
  {
    NoArchives(made, source, setting);
    if stray.None? && published.Some? {
      assert published.value in ended.Files() && ended.directory.value - {} == ended.directory.value;
    }
  }

  function CandidateSet(end: CycleEnd): set<string> {
    if end.candidate.Some? then {end.candidate.value} else {}
  }

  /** In a new destination nothing is recorded. */
  lemma NoArchives(made: World, source: string, setting: Setting)
    requires made.directory == Some(map[]) && Acceptable(made, source, setting)
    ensures Archives(made) == []
  {
    if Archives(made) != [] { FirstIsThere(made, source, setting); }
  }

  lemma FirstIsThere(w: World, source: string, setting: Setting)
    requires Acceptable(w, source, setting) && Archives(w) != []
    ensures Archives(w)[0].fileName in w.Files()
  {
    assert Archives(w)[0] in Archives(w);
  }

  method CycleInDestination(store: BackupStore, input: CycleInput, formats: Formats) returns (end: CycleEnd)
    requires store.Valid() && store.world.directory.Some? && input.sourceUsable
    requires input.initial.Success? ==> IsBackupInventory(input.initial.value, formats)
    modifies store
    ensures OnlyGrew(old(store.trace), store)
    ensures end.ok ==>
      CycleDone(StateOrFresh(old(store.world), store.setting), store.world, input, store.setting, formats)
    ensures !store.faulted ==> (end.ok <==> CanSucceed(old(store.world), input, store.setting, formats))
    ensures end.ok ==> CanSucceed(old(store.world), input, store.setting, formats)
    ensures !Acceptable(old(store.world), input.source, store.setting) ==>
      !end.ok && !end.confirmed && end.candidate.None? && store.world == old(store.world)
      && store.trace == old(store.trace)
    ensures !end.confirmed && end.candidate.Some? ==> !Recorded(store.world, end.candidate.value)
    ensures end.confirmed && !store.faulted && ValidRetention(store.setting.retention) ==> end.ok
    ensures !end.confirmed && Archives(old(store.world)) == [] ==> store.world.persisted == old(store.world).persisted
    ensures SameSource(old(store.world), input.source) ==> SameSource(store.world, input.source)
    ensures !store.faulted && ValidRetention(store.setting.retention)
            && Acceptable(old(store.world), input.source, store.setting) ==>
      var leaves := LeavesCandidate(AfterGate(old(store.world), store.setting), input, store.setting, formats);
      var published := LeavesPublished(AfterGate(old(store.world), store.setting), input, store.setting, formats);
      && LeavesOnly(store.world, end, Stray(leaves, input), Published(published, input), input.source, store.setting)
      && store.world.directory.Some?
      && (Acceptable(store.world, input.source, store.setting) <==> !leaves)
    ensures old(store.faulted) ==> store.faulted
  {
    ghost var start := |store.trace| - 1;
    var loaded := OpenBackupSet(store, input.source);
    if loaded.Failure? { return CycleEnd(false, false, None); }
    var ready := PassRetentionGate(store, loaded.value, input.source);
    if ready.Failure? { return CycleEnd(false, false, None); }
    end := ArchiveSource(store, ready.value, input, formats);
    if end.ok {
      GateKeepsHistory(loaded.value, ready.value, store.world.persisted.value, store.setting.retention);
    }
    PrefixKeeps(old(store.trace), store.trace, start);
    CycleEndAccepted(store.trace, start, old(store.world), store.world, end, input, store.setting, formats);
  }

  lemma NewestOfNewest(all: seq<Record>, r: Record, k: nat)
    ensures Newest(Newest(all, k) + [r], k) == Newest(all + [r], k)
  {
  }

  /** Passing the gate first does not change what the cycle ends with. */
  lemma GateKeepsHistory(before: State, gated: State, after: State, k: nat)
    requires gated == before.(archives := Kept(before, k), pending := None)
    requires Advanced(gated, after, k)
    ensures Advanced(before, after, k)
  {
    AllConfirmed(Kept(before, k));
    NewestOfNewest(ConfirmedOnly(before.archives), after.archives[|after.archives| - 1], k);
  }

  /**
   Cycle after cycle, whatever fails in them: every world on the way is one in which the
   record is missing or valid, every confirmed archive is intact, and the history is at most
   one too long.  With one source throughout, each of these worlds is accepted by a later
   cycle exactly if no pending file is gone and no stray is left; one that is refused stays
   as it is.
   */
  method RunCycles(store: BackupStore, source: string, inputs: seq<CycleInput>, formats: Formats) returns (ok: bool)
    requires store.Valid() && Invariant(store.trace[0], store.setting) && Bounded(store.trace[0], store.setting)
    requires forall input :: input in inputs ==> input.source == source
    requires forall input :: input in inputs && input.initial.Success? ==>
      IsBackupInventory(input.initial.value, formats)
    modifies store
    ensures OnlyGrew(old(store.trace), store)
    ensures forall i :: 0 <= i < |store.trace| ==>
      && Invariant(store.trace[i], store.setting)
      && (store.trace[i].persisted.Some? ==> |store.trace[i].persisted.value.archives| <= store.setting.retention + 1)
    ensures SameSource(old(store.world), source) ==>
      forall i :: 0 <= i < |store.trace| && store.trace[i].directory.Some? ==>
        && (Acceptable(store.trace[i], source, store.setting) <==> !MustRefuse(store.trace[i], source, store.setting))
        && (MustRefuse(store.trace[i], source, store.setting) <==>
            PendingFileGone(store.trace[i]) || exists name :: ForeignEntry(store.trace[i], name, source, store.setting))
    ensures old(store.world).directory.Some? && !Acceptable(old(store.world), source, store.setting) ==>
      (inputs != [] ==> !ok) && store.world == old(store.world) && store.trace == old(store.trace)
    ensures old(store.world).directory.Some? && MustRefuse(old(store.world), source, store.setting) ==>
      (inputs != [] ==> !ok) && store.world == old(store.world) && store.trace == old(store.trace)
  {
    RefusedIff(store.world, source, store.setting);
    ok := true;
    for n := 0 to |inputs|
      invariant OnlyGrew(old(store.trace), store)
      invariant SameSource(old(store.world), source) ==> SameSource(store.world, source)
      invariant old(store.world).directory.Some? && !Acceptable(old(store.world), source, store.setting) ==>
        (n > 0 ==> !ok) && store.world == old(store.world) && store.trace == old(store.trace)
    {
      var done := RunBackupCycle(store, inputs[n], formats);
      ok := ok && done;
    }
    forall i | 0 <= i < |store.trace|
      ensures Invariant(store.trace[i], store.setting) && Bounded(store.trace[i], store.setting)
      ensures SameSource(store.world, source) ==> SameSource(store.trace[i], source)
    {
      RunKeepsInvariant(store.trace, store.setting, i);
      RunFollows(store.trace, store.setting, i, |store.trace| - 1);
    }
    forall i | 0 <= i < |store.trace| && store.trace[i].directory.Some? && SameSource(store.trace[i], source)
      ensures Acceptable(store.trace[i], source, store.setting) <==>
              !MustRefuse(store.trace[i], source, store.setting)
      ensures MustRefuse(store.trace[i], source, store.setting) <==>
              PendingFileGone(store.trace[i])
                || exists name :: ForeignEntry(store.trace[i], name, source, store.setting)
    {
      AcceptedIff(store.trace[i], source, store.setting);
      RefusedIff(store.trace[i], source, store.setting);
    }
  }
}
