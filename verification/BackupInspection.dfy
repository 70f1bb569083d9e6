/** Inspecting the destination, and recovering what an interrupted cycle left there. */
module BackupInspection {
  import opened Common
  import opened BackupIdentity
  import opened BackupState
  import opened BackupWorld
  import opened BackupRetention

  // ----- inspection -----

  datatype EntryClass = ConfirmedClass | PendingClass | OwnedCandidate | ForeignClass

  datatype Inspected = Inspected(name: string, kind: EntryClass)

  datatype InspectionStatus = StatusMissing | StatusEmpty | StatusBound | StatusForeign | StatusDamaged

  /** failed: an error accompanies the inspection. */
  datatype Inspection = Inspection(status: InspectionStatus, entries: seq<Inspected>, failed: bool)

  predicate HasZipExtension(name: string) {
    |name| >= 4 && name[|name| - 4..] == ".zip"
  }

  /** A published archive of this source and destination. */
  predicate IsOwnedCandidate(files: Directory, name: string, source: string, setting: Setting)
    requires name in files
  {
    && HasZipExtension(name)
    && files[name].Regular? && files[name].content.ZipFile? && files[name].content.zip.identity.Some?
    && ValidIdentity(files[name].content.zip.identity.value, source, setting.destination, 0, "")
  }

  function Archives(w: World): seq<Record> {
    if w.persisted.Some? then w.persisted.value.archives else []
  }

  /** The directory entries no record names. */
  function Unrecorded(w: World): set<string> {
    w.Files().Keys - FileNames(Archives(w))
  }

  function Owned(w: World, source: string, setting: Setting): set<string> {
    set name | name in Unrecorded(w) && IsOwnedCandidate(w.Files(), name, source, setting)
  }

  ghost predicate LoadsForSource(w: World, source: string, setting: Setting) {
    w.persisted.Some? ==> ValidState(w.persisted.value) && SavedState(w, setting) && w.persisted.value.source == source
  }

  /** Every record intact, and nothing else there but archives of our own. */
  ghost predicate Acceptable(w: World, source: string, setting: Setting) {
    && w.directory.Some?
    && LoadsForSource(w, source, setting)
    && (forall r :: r in Archives(w) ==> RecordIntact(w.Files(), r, source, setting))
    && Unrecorded(w) == Owned(w, source, setting)
  }

  // ----- what is refused -----

  /** The identity is malformed, or that of another source or destination. */
  ghost predicate StrangeIdentity(identity: Identity, source: string, setting: Setting) {
    || Malformed(identity)
    || (source != "" && identity.sourcePath != source)
    || (setting.destination != "" && identity.destinationPath != setting.destination)
  }

  /** No record has that file name. */
  ghost predicate NamedByNone(w: World, name: string) {
    w.persisted.Some? ==> forall r :: r in w.persisted.value.archives ==> r.fileName != name
  }

  /** Somebody else's entry: no record names it, and it is not a published archive of this source and destination. */
  ghost predicate ForeignEntry(w: World, name: string, source: string, setting: Setting) {
    && name in w.Files() && NamedByNone(w, name)
    && ((forall stem :: name != stem + ".zip") ||
        match w.Files()[name]
        case Irregular => true
        case Regular(OtherFile(_)) => true
        case Regular(ZipFile(zip)) => zip.identity.None? || StrangeIdentity(zip.identity.value, source, setting))
  }

  /** A recorded archive that is missing, altered, or not the one that was recorded. */
  ghost predicate DamagedArchive(files: Directory, r: Record, source: string, setting: Setting) {
    r.fileName !in files ||
    match files[r.fileName]
    case Irregular => true
    case Regular(OtherFile(_)) => true
    case Regular(ZipFile(zip)) =>
      || setting.hash(ZipFile(zip)) != r.wholeDigest
      || zip.identity.None? || StrangeIdentity(zip.identity.value, source, setting)
      || zip.identity.value.archiveID != r.archiveID || zip.identity.value.confirmationOrder != r.order
      || zip.identity.value.inventoryDigest != r.inventoryDigest
  }

  /** What a cycle for this source refuses to touch. */
  ghost predicate MustRefuse(w: World, source: string, setting: Setting) {
    || (w.persisted.Some? &&
        var s := w.persisted.value;
        || FaultyState(s) || s.destination != setting.destination || s.source != source
        || exists r :: r in s.archives && DamagedArchive(w.Files(), r, source, setting))
    || exists name :: ForeignEntry(w, name, source, setting)
  }

  /** Refused is exactly what holds another set's record, a damaged archive, or a foreign entry. */
  lemma RefusedIff(w: World, source: string, setting: Setting)
    ensures w.directory.Some? ==> (Acceptable(w, source, setting) <==> !MustRefuse(w, source, setting))
  {
    ForeignExists(w, source, setting);
    if w.persisted.Some? {
      ValidStateIff(w.persisted.value);
      forall r | r in Archives(w) && ValidRecord(r)
        ensures DamagedArchive(w.Files(), r, source, setting) <==> !RecordIntact(w.Files(), r, source, setting)
      {
        DamagedIff(w.Files(), r, source, setting);
      }
    }
  }

  lemma ForeignIff(w: World, name: string, source: string, setting: Setting)
    requires name in w.Files()
    ensures ForeignEntry(w, name, source, setting) <==> name in Unrecorded(w) - Owned(w, source, setting)
  {
    assert HasZipExtension(name) <==> exists stem :: name == stem + ".zip" by {
      if HasZipExtension(name) { assert name == name[..|name| - 4] + ".zip"; }
    }
    match w.Files()[name]
    case Regular(ZipFile(zip)) =>
      if zip.identity.Some? { ValidIdentityIff(zip.identity.value, source, setting.destination, 0, ""); }
    case _ =>
  }

  lemma ForeignExists(w: World, source: string, setting: Setting)
    ensures Unrecorded(w) != Owned(w, source, setting) <==> exists name :: ForeignEntry(w, name, source, setting)
  {
    forall name | name in w.Files()
      ensures ForeignEntry(w, name, source, setting) <==> name in Unrecorded(w) - Owned(w, source, setting)
    {
      ForeignIff(w, name, source, setting);
    }
    if Unrecorded(w) != Owned(w, source, setting) {
      var name :| name in Unrecorded(w) && name !in Owned(w, source, setting);
      assert ForeignEntry(w, name, source, setting);
    }
  }

  lemma DamagedIff(files: Directory, r: Record, source: string, setting: Setting)
    requires ValidRecord(r)
    ensures DamagedArchive(files, r, source, setting) <==> !RecordIntact(files, r, source, setting)
  {
    if r.fileName in files && files[r.fileName].Regular? && files[r.fileName].content.ZipFile?
      && files[r.fileName].content.zip.identity.Some? {
      ValidIdentityIff(files[r.fileName].content.zip.identity.value, source, setting.destination, r.order,
                       r.inventoryDigest);
    }
  }

  // ----- what is accepted of what a run leaves -----

  /** Whatever is persisted is persisted for the source. */
  predicate SameSource(w: World, source: string) {
    w.persisted.Some? ==> w.persisted.value.source == source
  }

  predicate PendingFileGone(w: World) {
    w.persisted.Some? && w.persisted.value.pending.Some? && w.persisted.value.pending.value.fileName !in w.Files()
  }

  /** Of the worlds a run of the program leaves, those are accepted that lack no pending file and hold no stray. */
  lemma AcceptedIff(w: World, source: string, setting: Setting)
    requires Invariant(w, setting) && w.directory.Some?
    ensures Acceptable(w, source, setting) <==>
            SameSource(w, source) && !PendingFileGone(w) && Unrecorded(w) == Owned(w, source, setting)
    ensures Acceptable(w, source, setting) <==>
            SameSource(w, source) && !PendingFileGone(w) && forall name :: !ForeignEntry(w, name, source, setting)
  {
    ForeignExists(w, source, setting);
    if w.persisted.Some? && SameSource(w, source) {
      var s := w.persisted.value;
      if s.pending.Some? {
        var i :| OnlyPending(s.archives, i) && Names(s.pending.value, s.archives[i]);
        assert s.archives[i] in s.archives;
        forall r | r in s.archives && r.lifecycle.PendingRemoval? ensures r == s.archives[i] {
          var j :| 0 <= j < |s.archives| && s.archives[j] == r;
        }
      }
    }
  }

  lemma AcceptableIsInvariant(w: World, source: string, setting: Setting)
    requires Acceptable(w, source, setting)
    ensures Invariant(w, setting)
  {
  }

  function RecordClass(r: Record): EntryClass {
    if r.lifecycle == PendingRemoval then PendingClass else ConfirmedClass
  }

  function IntactEntries(records: seq<Record>, files: Directory, source: string, setting: Setting): set<Inspected> {
    set r | r in records && RecordIntact(files, r, source, setting) :: Inspected(r.fileName, RecordClass(r))
  }

  function LooseEntries(names: set<string>, files: Directory, source: string, setting: Setting): set<Inspected>
    requires names <= files.Keys
  {
    set name | name in names ::
      Inspected(name, if IsOwnedCandidate(files, name, source, setting) then OwnedCandidate else ForeignClass)
  }

  ghost predicate DistinctlyNamed(entries: seq<Inspected>) {
    forall i, j :: 0 <= i < j < |entries| ==> entries[i].name != entries[j].name
  }

  function EntrySet(entries: seq<Inspected>): set<Inspected> {
    set e | e in entries
  }

  /** Every intact record and every unrecorded entry, under its class, and nothing twice. */
  ghost predicate Classifies(entries: seq<Inspected>, w: World, source: string, setting: Setting) {
    && DistinctlyNamed(entries)
    && EntrySet(entries) == IntactEntries(Archives(w), w.Files(), source, setting)
                            + LooseEntries(Unrecorded(w), w.Files(), source, setting)
  }

  /** Confirmed and pending archives are told apart, and the rest is reported as recoverable. */
  ghost predicate Reports(entries: seq<Inspected>, w: World) {
    && (w.persisted.Some? ==> forall r :: r in w.persisted.value.archives ==>
          Inspected(r.fileName, if r.lifecycle == PendingRemoval then PendingClass else ConfirmedClass) in entries)
    && forall name :: name in w.Files() && NamedByNone(w, name) ==> Inspected(name, OwnedCandidate) in entries
  }

  lemma AcceptedReported(entries: seq<Inspected>, w: World, source: string, setting: Setting)
    requires Classifies(entries, w, source, setting) && Unrecorded(w) == Owned(w, source, setting)
    requires forall r :: r in Archives(w) ==> RecordIntact(w.Files(), r, source, setting)
    ensures Reports(entries, w)
  {
    forall r | r in Archives(w)
      ensures Inspected(r.fileName, if r.lifecycle == PendingRemoval then PendingClass else ConfirmedClass) in entries
    {
      assert Inspected(r.fileName, RecordClass(r)) in EntrySet(entries);
    }
    forall name | name in Unrecorded(w) ensures Inspected(name, OwnedCandidate) in entries {
      assert Inspected(name, OwnedCandidate) in LooseEntries(Unrecorded(w), w.Files(), source, setting);
      assert Inspected(name, OwnedCandidate) in EntrySet(entries);
    }
  }

  lemma ForeignReported(entries: seq<Inspected>, w: World, source: string, setting: Setting)
    requires Classifies(entries, w, source, setting)
    ensures forall name :: ForeignEntry(w, name, source, setting) ==> Inspected(name, ForeignClass) in entries
  {
    forall name | ForeignEntry(w, name, source, setting) ensures Inspected(name, ForeignClass) in entries {
      ForeignIff(w, name, source, setting);
      assert Inspected(name, ForeignClass) in LooseEntries(Unrecorded(w), w.Files(), source, setting);
      assert Inspected(name, ForeignClass) in EntrySet(entries);
    }
  }

  method InspectDestination(store: BackupStore, source: string) returns (r: Inspection)
    modifies store`faulted
    ensures !r.failed ==> r.status in {StatusMissing, StatusEmpty, StatusBound}
    ensures !r.failed && r.status == StatusMissing ==> store.world.directory.None?
    ensures !r.failed && r.status == StatusEmpty ==> store.world.persisted.None? && store.world.directory == Some(map[])
    ensures !r.failed && r.status == StatusEmpty ==> r.entries == []
    ensures !r.failed && r.status != StatusMissing ==> Acceptable(store.world, source, store.setting)
    ensures !r.failed && r.status != StatusMissing ==> Classifies(r.entries, store.world, source, store.setting)
    ensures !r.failed && r.status != StatusMissing ==> !MustRefuse(store.world, source, store.setting)
    ensures r.failed && !store.faulted && store.world.directory.Some? ==>
      MustRefuse(store.world, source, store.setting)
    ensures !r.failed && r.status != StatusMissing ==> Reports(r.entries, store.world)
    ensures r.failed && r.entries != [] ==>
      forall name :: ForeignEntry(store.world, name, source, store.setting) ==>
        Inspected(name, ForeignClass) in r.entries
    ensures r.failed && !store.faulted ==> !Acceptable(store.world, source, store.setting)
    ensures r.failed && r.entries != [] ==> Classifies(r.entries, store.world, source, store.setting)
    ensures !r.failed ==> store.faulted == old(store.faulted)
    ensures old(store.faulted) ==> store.faulted
  {
    var world, setting := store.world, store.setting;
    RefusedIff(world, source, setting);
    var listed := store.Attempt();
    if !listed { return Inspection(StatusDamaged, [], true); }
    if world.directory.None? {
      return Inspection(StatusMissing, [], false);
    }
    var loaded := store.Load();
    if loaded.LoadFailed? {
      return Inspection(StatusDamaged, [], true);
    }
    if loaded.LoadMissing? && world.Files() == map[] {
      return Inspection(StatusEmpty, [], false);
    }
    if loaded.LoadValid? && loaded.state.source != source {
      return Inspection(StatusDamaged, [], true);
    }
    var entries, damaged := InspectRecords(world, source, setting);
    var foreign;
    entries, foreign := InspectUnrecorded(world, source, setting, entries);
    ForeignReported(entries, world, source, setting);
    if !damaged && !foreign { AcceptedReported(entries, world, source, setting); }
    if damaged {
      return Inspection(StatusDamaged, entries, true);
    }
    if foreign {
      return Inspection(StatusForeign, entries, true);
    }
    return Inspection(StatusBound, entries, false);
  }

  lemma AppendEntry(entries: seq<Inspected>, e: Inspected)
    requires DistinctlyNamed(entries) && forall x :: x in EntrySet(entries) ==> x.name != e.name
    ensures DistinctlyNamed(entries + [e]) && EntrySet(entries + [e]) == EntrySet(entries) + {e}
  {
  }

  method InspectRecords(world: World, source: string, setting: Setting) returns (entries: seq<Inspected>, damaged: bool)
    requires OrderedAndDistinct(Archives(world))
    ensures DistinctlyNamed(entries)
    ensures EntrySet(entries) == IntactEntries(Archives(world), world.Files(), source, setting)
    ensures damaged <==> exists r :: r in Archives(world) && !RecordIntact(world.Files(), r, source, setting)
  {
    var archives, files := Archives(world), world.Files();
    entries, damaged := [], false;
    for i := 0 to |archives|
      invariant DistinctlyNamed(entries) && EntrySet(entries) == IntactEntries(archives[..i], files, source, setting)
      invariant damaged <==> exists r :: r in archives[..i] && !RecordIntact(files, r, source, setting)
    {
      var archive := archives[i];
      NextIntact(archives, i, files, source, setting);
      if RecordIntact(files, archive, source, setting) {
        AppendEntry(entries, Inspected(archive.fileName, RecordClass(archive)));
        entries := entries + [Inspected(archive.fileName, RecordClass(archive))];
      } else {
        damaged := true;
      }
    }
    assert archives[..|archives|] == archives;
  }

  lemma NextIntact(archives: seq<Record>, i: nat, files: Directory, source: string, setting: Setting)
    requires i < |archives| && OrderedAndDistinct(archives)
    ensures archives[..i + 1] == archives[..i] + [archives[i]]
    ensures IntactEntries(archives[..i + 1], files, source, setting) ==
            IntactEntries(archives[..i], files, source, setting) +
            if RecordIntact(files, archives[i], source, setting)
              then {Inspected(archives[i].fileName, RecordClass(archives[i]))} else {}
    ensures forall e :: e in IntactEntries(archives[..i], files, source, setting) ==> e.name != archives[i].fileName
  {
    var before, after := archives[..i], archives[..i + 1];
    assert after == before + [archives[i]];
    forall r | r in before ensures r.fileName != archives[i].fileName {
      var j :| 0 <= j < i && archives[j] == r;
      assert Precedes(archives[j], archives[i]);
    }
    assert forall r :: r in after <==> r in before || r == archives[i];
  }

  method InspectUnrecorded(world: World, source: string, setting: Setting, found: seq<Inspected>)
    returns (entries: seq<Inspected>, foreign: bool)
    requires DistinctlyNamed(found)
    requires EntrySet(found) == IntactEntries(Archives(world), world.Files(), source, setting)
    ensures Classifies(entries, world, source, setting)
    ensures foreign <==> Unrecorded(world) != Owned(world, source, setting)
    ensures foreign <==> exists name :: ForeignEntry(world, name, source, setting)
  {
    ForeignExists(world, source, setting);
    var names, files := Unrecorded(world), world.Files();
    entries, foreign := found, false;
    ghost var done: set<string> := {};
    while names != {}
      invariant names + done == Unrecorded(world) && names !! done
      invariant DistinctlyNamed(entries)
      invariant EntrySet(entries) == EntrySet(found) + LooseEntries(done, files, source, setting)
      invariant foreign <==> exists name :: name in done && !IsOwnedCandidate(files, name, source, setting)
    {
      var name :| name in names;
      var owned := IsOwnedCandidate(files, name, source, setting);
      var entry := Inspected(name, if owned then OwnedCandidate else ForeignClass);
      AppendEntry(entries, entry);
      entries := entries + [entry];
      assert LooseEntries(done + {name}, files, source, setting) ==
        LooseEntries(done, files, source, setting) + {entry};
      foreign := foreign || !owned;
      names, done := names - {name}, done + {name};
    }
    assert done == Unrecorded(world);
  }

  // ----- recovery -----

  /** Delete the archives a crashed cycle published but never confirmed; nothing if the inspection fails. */
  method RecoverOwnedCandidates(store: BackupStore, source: string) returns (ok: bool)
    requires store.Valid()
    modifies store
    ensures store.Valid() && old(store.trace) <= store.trace
    ensures store.world.persisted == old(store.world).persisted
    ensures ok && store.world.directory.Some? ==>
      store.world ==
        old(store.world).(directory := Some(old(store.world).Files() - Owned(old(store.world), source, store.setting)))
    ensures ok && store.world.directory.Some? ==> Acceptable(old(store.world), source, store.setting)
    ensures old(store.world).directory.Some? ==> store.world.directory.Some?
    ensures old(store.world).directory.Some? && !Acceptable(old(store.world), source, store.setting) ==>
      !ok && store.world == old(store.world) && store.trace == old(store.trace)
    ensures Owned(old(store.world), source, store.setting) == {} ==> store.world == old(store.world)
    // spelled out: what is not ours stops it before anything is deleted; what is left is recorded, and as it was
    ensures old(store.world).directory.Some? && MustRefuse(old(store.world), source, store.setting) ==>
      !ok && store.world == old(store.world)
    ensures ok && store.world.directory.Some? ==> OnlyRecordedLeft(old(store.world), store.world)
    ensures !store.faulted && old(store.world).directory.Some? ==>
      (ok <==> !MustRefuse(old(store.world), source, store.setting))
    ensures !store.faulted && Acceptable(old(store.world), source, store.setting) ==> ok
    ensures old(store.faulted) ==> store.faulted
  {
    RefusedIff(store.world, source, store.setting);
    if store.world.directory.Some? { OwnedGone(store.world, source, store.setting); }
    var inspection := InspectDestination(store, source);
    if inspection.failed { return false; }
    if inspection.status == StatusMissing { return true; }
    NoneGone(store.world);
    AllOwned(inspection.entries, store.world, source, store.setting);
    ok := RemoveOwned(store, inspection.entries, source);
  }

  /** Of the files there were exactly those a record names are left, as they were. */
  ghost predicate OnlyRecordedLeft(before: World, after: World) {
    && (forall name :: name in after.Files() <==> name in before.Files() && !NamedByNone(before, name))
    && (forall name :: name in after.Files() ==> after.Files()[name] == before.Files()[name])
  }

  lemma OwnedGone(w: World, source: string, setting: Setting)
    requires w.directory.Some?
    ensures Acceptable(w, source, setting) ==>
      OnlyRecordedLeft(w, w.(directory := Some(w.Files() - Owned(w, source, setting))))
  {
    forall name ensures name in Unrecorded(w) <==> name in w.Files() && NamedByNone(w, name) {
    }
  }

  /** The loop over the inspected entries. */
  method RemoveOwned(store: BackupStore, entries: seq<Inspected>, ghost source: string) returns (ok: bool)
    requires store.Valid() && store.world.directory.Some?
    requires Classifies(entries, store.world, source, store.setting)
    modifies store
    ensures store.Valid() && old(store.trace) <= store.trace
    ensures ok ==> store.world == Cleared(old(store.world), OwnedNames(entries)) && store.faulted == old(store.faulted)
    ensures !ok ==> store.faulted && OwnedNames(entries) != {}
    ensures store.world.persisted == old(store.world).persisted && store.world.directory.Some?
    ensures old(store.faulted) ==> store.faulted
  {
    ghost var start := store.world;
    NoneGone(start);
    assert OwnedNames(entries[..0]) == {};
    for i := 0 to |entries|
      invariant store.Valid() && old(store.trace) <= store.trace
      invariant store.world == Cleared(start, OwnedNames(entries[..i]))
      invariant store.faulted == old(store.faulted)
    {
      var entry := entries[i];
      NextOwned(entries, i, start, source, store.setting);
      if entry.kind == OwnedCandidate {
        ClearedNext(start, OwnedNames(entries[..i]), entry.name);
        var removed := store.Do(RemoveUnrecorded(entry.name));
        if !removed { return false; }
      } else {
        assert OwnedNames(entries[..i]) + {} == OwnedNames(entries[..i]);
      }
    }
    assert entries[..|entries|] == entries;
    return true;
  }

  lemma ClearedNext(w: World, gone: set<string>, name: string)
    requires w.directory.Some?
    ensures Cleared(w, gone + {name}) == Cleared(w, gone).(directory := Some(Cleared(w, gone).Files() - {name}))
  {
    assert w.directory.value - (gone + {name}) == w.directory.value - gone - {name};
  }

  function Cleared(w: World, names: set<string>): World {
    w.(directory := if w.directory.None? then None else Some(w.directory.value - names))
  }

  lemma NoneGone(w: World)
    ensures Cleared(w, {}) == w
  {
    if w.directory.Some? { assert w.directory.value - {} == w.directory.value; }
  }

  function OwnedNames(entries: seq<Inspected>): set<string> {
    set e | e in entries && e.kind == OwnedCandidate :: e.name
  }

  lemma NextOwned(entries: seq<Inspected>, i: nat, w: World, source: string, setting: Setting)
    requires i < |entries| && w.directory.Some? && Classifies(entries, w, source, setting)
    ensures OwnedNames(entries[..i + 1]) ==
            OwnedNames(entries[..i]) + if entries[i].kind == OwnedCandidate then {entries[i].name} else {}
    ensures entries[i].kind == OwnedCandidate ==> entries[i].name in OwnedNames(entries)
    ensures entries[i].kind == OwnedCandidate ==>
            Enabled(Cleared(w, OwnedNames(entries[..i])), RemoveUnrecorded(entries[i].name), setting)
  {
    assert entries[..i + 1] == entries[..i] + [entries[i]];
    if entries[i].kind == OwnedCandidate {
      assert entries[i] in EntrySet(entries);
      assert entries[i] in LooseEntries(Unrecorded(w), w.Files(), source, setting);
      forall e | e in entries[..i] ensures e.name != entries[i].name {
        var j :| 0 <= j < i && entries[j] == e;
      }
      assert entries[i].name !in FileNames(Archives(w));
    }
  }

  lemma AllOwned(entries: seq<Inspected>, w: World, source: string, setting: Setting)
    requires Classifies(entries, w, source, setting)
    ensures OwnedNames(entries) == Owned(w, source, setting)
  {
    forall name | name in Owned(w, source, setting) ensures name in OwnedNames(entries) {
      assert Inspected(name, OwnedCandidate) in LooseEntries(Unrecorded(w), w.Files(), source, setting);
      assert Inspected(name, OwnedCandidate) in EntrySet(entries);
    }
    forall name | name in OwnedNames(entries) ensures name in Owned(w, source, setting) {
      var e :| e in entries && e.kind == OwnedCandidate && e.name == name;
      assert e in EntrySet(entries);
      assert e in LooseEntries(Unrecorded(w), w.Files(), source, setting);
    }
  }
}
