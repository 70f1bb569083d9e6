/**
 The files a backup set lives in, as a state machine: the persisted record and the
 destination directory, changed by one file operation at a time.
 */
module BackupWorld {
  import opened Common
  import opened BackupIdentity
  import opened BackupState
  import opened BackupArchives

  datatype FileContent = ZipFile(zip: Zip) | OtherFile(bytes: Bytes)

  datatype DestEntry = Regular(content: FileContent) | Irregular

  type Directory = map<string, DestEntry>

  /** Directory None: the destination does not exist. */
  datatype World = World(persisted: Option<State>, directory: Option<Directory>) {
    function Files(): Directory {
      if directory.Some? then directory.value else map[]
    }
  }

  /** What stays the same for one backup set: where it is, how files hash, how many versions to keep. */
  datatype Setting = Setting(destination: string, hash: FileContent -> string, retention: nat)

  const MINIMUM_RETENTION := 1
  const MAXIMUM_RETENTION := 100

  predicate ValidRetention(k: int) { MINIMUM_RETENTION <= k <= MAXIMUM_RETENTION }

  /** The file is there with exactly the recorded digest. */
  predicate FileMatches(files: Directory, r: Record, hash: FileContent -> string) {
    r.fileName in files && files[r.fileName].Regular? && hash(files[r.fileName].content) == r.wholeDigest
  }

  /** The recorded archive is there, unaltered, and carries the identity of the record. */
  predicate RecordIntact(files: Directory, r: Record, source: string, setting: Setting) {
    && FileMatches(files, r, setting.hash)
    && files[r.fileName].content.ZipFile? && files[r.fileName].content.zip.identity.Some?
    && var identity := files[r.fileName].content.zip.identity.value;
       ValidIdentity(identity, source, setting.destination, r.order, r.inventoryDigest)
         && identity.archiveID == r.archiveID
  }

  predicate Recorded(w: World, name: string) {
    w.persisted.Some? && exists r :: r in w.persisted.value.archives && r.fileName == name
  }

  /** The state a first confirmation starts from. */
  function FreshState(setting: Setting): State {
    State(STATE_SCHEMA_VERSION, setting.destination, "", 1, [], None)
  }

  function StateOrFresh(w: World, setting: Setting): State {
    if w.persisted.Some? then w.persisted.value else FreshState(setting)
  }

  function WithConfirmed(s: State, r: Record, source: string): State {
    s.(source := source, archives := s.archives + [r], nextOrder := Increment(s.nextOrder))
  }

  /** The records that are not on their way out. */
  function ConfirmedOnly(archives: seq<Record>): (kept: seq<Record>)
    ensures forall r :: r in kept <==> r in archives && r.lifecycle.Confirmed?
  {
    if archives == [] then []
    else (if archives[0].lifecycle.Confirmed? then [archives[0]] else []) + ConfirmedOnly(archives[1..])
  }

  function RemovalOf(r: Record): Removal {
    Removal(r.archiveID, r.fileName, r.order)
  }

  function WithMarked(s: State, i: nat): State
    requires i < |s.archives|
  {
    s.(archives := s.archives[i := s.archives[i].(lifecycle := PendingRemoval)],
       pending := Some(RemovalOf(s.archives[i])))
  }

  function WithoutPending(s: State): State {
    s.(archives := ConfirmedOnly(s.archives), pending := None)
  }

  /** One file operation. */
  datatype Step =
    | MakeDestination
    | RemoveDestination
    | WriteUnrecorded(name: string, entry: DestEntry)
    | Publish(candidate: string, final: string)
    | RemoveUnrecorded(name: string)
    | SaveConfirmed(record: Record, source: string)
    | SaveMarked
    | DeletePending
    | SaveDropped

  predicate SavedState(w: World, setting: Setting) {
    w.persisted.Some? && w.persisted.value.destination == setting.destination
  }

  /** When the program performs the operation. */
  ghost predicate Enabled(w: World, step: Step, setting: Setting) {
    match step
    case MakeDestination => w.directory.None?
    case RemoveDestination => w.directory == Some(map[])
    case WriteUnrecorded(name, _) => w.directory.Some? && !Recorded(w, name)
    case Publish(candidate, final) =>
      candidate in w.Files() && !Recorded(w, candidate) && final !in w.Files() && !Recorded(w, final)
    case RemoveUnrecorded(name) => name in w.Files() && !Recorded(w, name)
    case SaveConfirmed(r, source) =>
      var s := StateOrFresh(w, setting);
      && (w.persisted.Some? ==> SavedState(w, setting) && ValidState(s))
      && s.pending.None? && |s.archives| <= setting.retention
      && r.order == s.nextOrder && r.lifecycle.Confirmed? && RecordIntact(w.Files(), r, source, setting)
      && (s.source != "" ==> source == s.source)
      && ValidState(WithConfirmed(s, r, source))
    case SaveMarked =>
      && SavedState(w, setting) && ValidState(w.persisted.value)
      && w.persisted.value.pending.None? && |w.persisted.value.archives| > setting.retention >= 1
    case DeletePending =>
      && SavedState(w, setting) && ValidState(w.persisted.value) && w.persisted.value.pending.Some?
      && w.persisted.value.pending.value.fileName in w.Files()
    case SaveDropped =>
      && SavedState(w, setting) && ValidState(w.persisted.value) && w.persisted.value.pending.Some?
      && w.persisted.value.pending.value.fileName !in w.Files()
  }

  function Apply(w: World, step: Step, setting: Setting): World {
    match step
    case MakeDestination => w.(directory := Some(map[]))
    case RemoveDestination => w.(directory := None)
    case WriteUnrecorded(name, entry) => w.(directory := Some(w.Files()[name := entry]))
    case Publish(candidate, final) =>
      if candidate in w.Files()
      then w.(directory := Some((w.Files() - {candidate})[final := w.Files()[candidate]])) else w
    case RemoveUnrecorded(name) => w.(directory := Some(w.Files() - {name}))
    case SaveConfirmed(r, source) => w.(persisted := Some(WithConfirmed(StateOrFresh(w, setting), r, source)))
    case SaveMarked =>
      if w.persisted.Some? && w.persisted.value.archives != []
      then w.(persisted := Some(WithMarked(w.persisted.value, 0))) else w
    case DeletePending =>
      if w.persisted.Some? && w.persisted.value.pending.Some?
      then w.(directory := Some(w.Files() - {w.persisted.value.pending.value.fileName})) else w
    case SaveDropped =>
      if w.persisted.Some? then w.(persisted := Some(WithoutPending(w.persisted.value))) else w
  }

  ghost predicate Allowed(w: World, w': World, setting: Setting) {
    exists step :: Enabled(w, step, setting) && w' == Apply(w, step, setting)
  }

  /**
   Any sequence of worlds one operation apart.  Cutting it off anywhere (a crash) and going
   on from there (the next cycle) gives such a sequence again.
   */
  ghost predicate IsRun(trace: seq<World>, setting: Setting) {
    trace != [] && forall i :: 0 <= i < |trace| - 1 ==> Allowed(trace[i], trace[i + 1], setting)
  }

  // ----- the invariant -----

  /**
   Nothing persisted, or a valid record of this destination in which every confirmed archive
   is there with the recorded digest and its own identity: only the archive pending removal
   may lack its file.
   */
  ghost predicate Invariant(w: World, setting: Setting) {
    w.persisted.Some? ==>
      && SavedState(w, setting) && ValidState(w.persisted.value)
      && forall r :: r in w.persisted.value.archives && (r.lifecycle.Confirmed? || r.fileName in w.Files()) ==>
           RecordIntact(w.Files(), r, w.persisted.value.source, setting)
  }

  /** The history is never longer than one more than is to be kept. */
  predicate Bounded(w: World, setting: Setting) {
    w.persisted.Some? ==> |w.persisted.value.archives| <= setting.retention + 1
  }

  /** An archive's record whatever became of its lifecycle. */
  function ArchiveOf(r: Record): Record {
    r.(lifecycle := Confirmed)
  }

  function ArchivesOf(s: State): set<Record> {
    set r | r in s.archives :: ArchiveOf(r)
  }

  /**
   What is persisted stays, under the same source, the counter never goes back, and every archive that appears
   takes an order at or above the counter, hence above every order handed out before.
   */
  ghost predicate Follows(w: World, w': World) {
    w.persisted.Some? ==>
      && w'.persisted.Some? && w'.persisted.value.source == w.persisted.value.source
      && w.persisted.value.nextOrder <= w'.persisted.value.nextOrder
      && forall a :: a in ArchivesOf(w'.persisted.value) ==>
           a in ArchivesOf(w.persisted.value) || a.order >= w.persisted.value.nextOrder
  }

  lemma FollowsTransitive(a: World, b: World, c: World)
    requires Follows(a, b) && Follows(b, c)
    ensures Follows(a, c)
  {
  }
}
