/**
 Which worlds an interrupted cycle may leave are accepted by the next one.  The design
 promises recovery from every interruption; the code provides it except in two windows.
 */
module BackupInterruptions {
  import opened Common
  import opened ArchiveComment
  import opened InventoryEncoding
  import opened BackupIdentity
  import opened BackupState
  import opened BackupArchives
  import opened BackupWorld
  import opened BackupRuns
  import opened BackupRetention
  import opened BackupInspection
  import opened BackupCycle

  /**
   Interrupted retention resumes after the mark and after the drop, but not in between: with
   the file deleted and its record still there, every later cycle stops at the inspection.
   */
  lemma RetentionWindow(w: World, source: string, setting: Setting)
    requires Acceptable(w, source, setting) && Enabled(w, SaveMarked, setting)
    ensures var marked := Apply(w, SaveMarked, setting);
            var deleted := Apply(marked, DeletePending, setting);
            var dropped := Apply(deleted, SaveDropped, setting);
            && Enabled(marked, DeletePending, setting) && Enabled(deleted, SaveDropped, setting)
            && Acceptable(marked, source, setting)
            && !Acceptable(deleted, source, setting)
            && Acceptable(dropped, source, setting)
  {
    var marked := Apply(w, SaveMarked, setting);
    MarkedIsAccepted(w, source, setting);
    MarkedIsValid(w.persisted.value);
    var s := marked.persisted.value;
    assert s.archives[0] in Archives(marked) && RecordIntact(marked.Files(), s.archives[0], source, setting);
    var deleted := Apply(marked, DeletePending, setting);
    assert s.archives[0] in Archives(deleted);
    DroppedIsAccepted(marked, source, setting);
  }

  lemma MarkedIsAccepted(w: World, source: string, setting: Setting)
    requires Acceptable(w, source, setting) && Enabled(w, SaveMarked, setting)
    ensures Acceptable(Apply(w, SaveMarked, setting), source, setting)
  {
    var s, marked := w.persisted.value, Apply(w, SaveMarked, setting);
    AcceptableIsInvariant(w, source, setting);
    StepKeepsInvariant(w, SaveMarked, setting);
    SameFileNames(marked.persisted.value.archives, s.archives);
    assert s.archives[0] in Archives(w) && RecordIntact(w.Files(), s.archives[0], source, setting);
    AcceptedIff(marked, source, setting);
  }

  lemma DroppedIsAccepted(w: World, source: string, setting: Setting)
    requires Acceptable(w, source, setting) && Enabled(w, DeletePending, setting)
    ensures Acceptable(Apply(Apply(w, DeletePending, setting), SaveDropped, setting), source, setting)
  {
    var s, deleted := w.persisted.value, Apply(w, DeletePending, setting);
    var w' := Apply(deleted, SaveDropped, setting);
    AcceptableIsInvariant(w, source, setting);
    StepKeepsInvariant(w, DeletePending, setting);
    StepKeepsInvariant(deleted, SaveDropped, setting);
    DroppedNames(s);
    PendingIsExpired(s, 0);
    assert Unrecorded(w') == Unrecorded(w);
    StraysWithout(w.Files(), s.pending.value.fileName, Unrecorded(w), source, setting);
    AcceptedIff(w', source, setting);
  }

  lemma StraysWithout(files: Directory, gone: string, strays: set<string>, source: string, setting: Setting)
    requires strays <= files.Keys - {gone} && forall name :: name in strays ==>
      IsOwnedCandidate(files, name, source, setting)
    ensures forall name :: name in strays ==> IsOwnedCandidate(files - {gone}, name, source, setting)
  {
  }

  /**
   An unfinished or unverified temporary file blocks every later cycle; once published under
   its final name the same archive is recognized and removed.
   */
  lemma CandidateWindow(w: World, source: string, setting: Setting, candidate: string, final: string, zip: Zip)
    requires Acceptable(w, source, setting) && candidate !in w.Files() && final !in w.Files() && candidate != final
    requires !HasZipExtension(candidate) && HasZipExtension(final)
    requires zip.identity.Some? && ValidIdentity(zip.identity.value, source, setting.destination, 0, "")
    ensures var written := Apply(w, WriteUnrecorded(candidate, Regular(ZipFile(zip))), setting);
            var published := Apply(written, Publish(candidate, final), setting);
            && Enabled(w, WriteUnrecorded(candidate, Regular(ZipFile(zip))), setting)
            && Enabled(written, Publish(candidate, final), setting)
            && !Acceptable(written, source, setting)
            && Acceptable(published, source, setting)
  {
    var written := Apply(w, WriteUnrecorded(candidate, Regular(ZipFile(zip))), setting);
    var published := Apply(written, Publish(candidate, final), setting);
    forall r | r in Archives(w) ensures r.fileName in w.Files() && RecordIntact(published.Files(), r, source, setting) {
      assert RecordIntact(w.Files(), r, source, setting);
    }
    assert candidate in Unrecorded(written) && candidate !in Owned(written, source, setting);
    assert Unrecorded(published) == Unrecorded(w) + {final};
    forall name | name in Unrecorded(published) ensures name in Owned(published, source, setting) {
      if name != final { assert name in Owned(w, source, setting); }
    }
  }

  /**
   No crash is needed: a source file edited after its inventory, or an inventory that has
   changed by the end, leaves the temporary file, and so a destination every later cycle refuses.
   */
  lemma EditedSourceLeavesCandidate(state: State, input: CycleInput, setting: Setting, formats: Formats)
    requires input.initial.Success? && input.archiveID.Success? && PlainID(input.archiveID.value)
    requires CandidateName(input) !in FileNames(state.archives)
    requires Writable(input.initial.value, IdentityFor(input, state, setting), input.contents, formats)
    ensures input.final != input.initial || !SourceUnchanged(input.initial.value, input.contents, formats) ==>
            LeavesCandidate(state, input, setting, formats) && !CanArchive(state, input, setting, formats)
  {
  }

  /**
   A first cycle whose record cannot be saved keeps the destination it made: by then there is
   no temporary file to remove, and the published archive is in the way.  The next cycle
   recognizes it.
   */
  lemma UnsavedFirstArchiveStays(setting: Setting, source: string, candidate: string, final: string, zip: Zip)
    requires candidate != final && HasZipExtension(final)
    requires zip.identity.Some? && ValidIdentity(zip.identity.value, source, setting.destination, 0, "")
    ensures var w0 := World(None, None);
            var w1 := Apply(w0, MakeDestination, setting);
            var w2 := Apply(w1, WriteUnrecorded(candidate, Regular(ZipFile(zip))), setting);
            var w3 := Apply(w2, Publish(candidate, final), setting);
            && IsRun([w0, w1, w2, w3], setting)
            && w3 == World(None, Some(map[final := Regular(ZipFile(zip))]))
            && !Enabled(w3, RemoveDestination, setting) && Acceptable(w3, source, setting)
  {
    var w0 := World(None, None);
    var w1 := Apply(w0, MakeDestination, setting);
    var w2 := Apply(w1, WriteUnrecorded(candidate, Regular(ZipFile(zip))), setting);
    var w3 := Apply(w2, Publish(candidate, final), setting);
    assert Enabled(w0, MakeDestination, setting) && Allowed(w0, w1, setting);
    assert Enabled(w1, WriteUnrecorded(candidate, Regular(ZipFile(zip))), setting) && Allowed(w1, w2, setting);
    assert Enabled(w2, Publish(candidate, final), setting) && Allowed(w2, w3, setting);
    assert w3.Files() == map[final := Regular(ZipFile(zip))];
    assert Unrecorded(w3) == {final} && final in Owned(w3, source, setting);
  }

  // ----- a source edited while it is archived -----

  const OLD_DIGEST := seq(64, _ => 'a')
  const NEW_DIGEST := seq(64, _ => 'b')

  /** Two contents tell apart, one text digest, and archives and identities of the simplest form. */
  const SIMPLE_FORMATS := Formats(
    content => if content == [] then OLD_DIGEST else NEW_DIGEST,
    text => OLD_DIGEST,
    members => Archive([], WrittenFields(|members|, 0, 0)),
    identity => [0x7b, 0x7d])

  const SIMPLE_SETTING := Setting("/dst", content => OLD_DIGEST, 1)

  /** "a" was empty when it was inventoried, holds a byte when it is archived, and is empty again at the end. */
  const EDITED_INPUT := CycleInput(
    "/src", true,
    Success(Digested([BackupEntry("a", BackupFile, OLD_DIGEST)], SIMPLE_FORMATS.ofText)),
    path => Some([1]),
    Success(Digested([BackupEntry("a", BackupFile, OLD_DIGEST)], SIMPLE_FORMATS.ofText)),
    Success("1f"), 1, "20240102T030405Z", "0", OtherFile([]))

  /** An empty destination, one file, one edit: the cycle leaves its temporary file, and later cycles are refused. */
  lemma OneEditBlocks()
    ensures var w := World(None, Some(map[]));
            && IsBackupInventory(EDITED_INPUT.initial.value, SIMPLE_FORMATS)
            && Acceptable(w, EDITED_INPUT.source, SIMPLE_SETTING)
            && LeavesCandidate(AfterGate(w, SIMPLE_SETTING), EDITED_INPUT, SIMPLE_SETTING, SIMPLE_FORMATS)
  {
    var w := World(None, Some(map[]));
    EmptyIsAcceptable(w, EDITED_INPUT.source, SIMPLE_SETTING);
    OneEditLeaves(AfterGate(w, SIMPLE_SETTING));
  }

  lemma OneEditLeaves(state: State)
    requires state.nextOrder == 1 && state.archives == []
    ensures LeavesCandidate(state, EDITED_INPUT, SIMPLE_SETTING, SIMPLE_FORMATS)
  {
    OneEditWritable(state);
    OneEditChanges();
    assert PlainID("1f");
    EditedSourceLeavesCandidate(state, EDITED_INPUT, SIMPLE_SETTING, SIMPLE_FORMATS);
  }

  lemma EmptyIsAcceptable(w: World, source: string, setting: Setting)
    requires w == World(None, Some(map[]))
    ensures Acceptable(w, source, setting)
  {
    assert Unrecorded(w) == {} == Owned(w, source, setting);
  }

  lemma OneEditChanges()
    ensures !SourceUnchanged(EDITED_INPUT.initial.value, EDITED_INPUT.contents, SIMPLE_FORMATS)
  {
    var e := BackupEntry("a", BackupFile, OLD_DIGEST);
    assert e in EDITED_INPUT.initial.value.entries;
    assert SIMPLE_FORMATS.ofFile([1]) == NEW_DIGEST && NEW_DIGEST[0] != OLD_DIGEST[0];
  }

  lemma OneEditWritable(state: State)
    requires state.nextOrder == 1
    ensures Writable(EDITED_INPUT.initial.value, IdentityFor(EDITED_INPUT, state, SIMPLE_SETTING),
                     EDITED_INPUT.contents, SIMPLE_FORMATS)
  {
    SimpleIdentityIsValid(state);
    SimpleNameIsSafe();
    SimpleSplice(IdentityFor(EDITED_INPUT, state, SIMPLE_SETTING));
  }

  lemma SimpleSplice(identity: Identity)
    ensures ArchiveBytes(WrittenMembers(EDITED_INPUT.initial.value.entries, EDITED_INPUT.contents), identity,
                         SIMPLE_FORMATS).Some?
  {
    var members := WrittenMembers(EDITED_INPUT.initial.value.entries, EDITED_INPUT.contents);
    assert |members| == 1;
    SpliceRefusedIff([], WrittenFields(1, 0, 0), [0x7b, 0x7d]);
  }

  lemma SimpleIdentityIsValid(state: State)
    requires state.nextOrder == 1
    ensures ValidIdentity(IdentityFor(EDITED_INPUT, state, SIMPLE_SETTING), "", "", 0,
                          EDITED_INPUT.initial.value.digest)
  {
    PlainIdentityIsValid();
    assert IdentityFor(EDITED_INPUT, state, SIMPLE_SETTING) == PLAIN_IDENTITY;
    assert EDITED_INPUT.initial.value.digest == OLD_DIGEST;
  }

  const PLAIN_IDENTITY := Identity(IDENTITY_SCHEMA_VERSION, "1f", "/src", "/dst", 1, 1, OLD_DIGEST)

  lemma PlainIdentityIsValid()
    ensures ValidIdentity(PLAIN_IDENTITY, "", "", 0, OLD_DIGEST)
  {
    NotBlank("1f", 0);
    NotBlank("/src", 0);
    NotBlank("/dst", 0);
    RepeatedIsDigest('a');
  }

  lemma RepeatedIsDigest(c: char)
    requires 'a' <= c <= 'f'
    ensures IsDigestText(seq(64, _ => c))
  {
  }

  lemma NotBlank(text: string, i: nat)
    requires i < |text| && !IsSpace(text[i])
    ensures !Blank(text)
  {
    assert text[i] in text;
  }

  lemma SimpleNameIsSafe()
    ensures ValidEntryName("a", false)
  {
    assert "a"[1..] == "" && Segments("") == [""];
    assert ['a'] + "" == "a";
    assert Segments("a") == ["a"] + [];
    assert WithoutSlash("a") == "a" && forall part :: part in ["a"] ==> part == "a";
  }

  // ----- the two windows at concrete worlds -----

  const PLAIN_ZIP := Zip([], Some(PLAIN_IDENTITY))

  /** In an empty destination, a leftover temporary archive blocks; the same archive published does not. */
  lemma OneCandidateBlocks()
    ensures var w := World(None, Some(map[]));
            var written := Apply(w, WriteUnrecorded("c.tmp", Regular(ZipFile(PLAIN_ZIP))), SIMPLE_SETTING);
            var published := Apply(written, Publish("c.tmp", "a.zip"), SIMPLE_SETTING);
            !Acceptable(written, "/src", SIMPLE_SETTING) && Acceptable(published, "/src", SIMPLE_SETTING)
  {
    var w := World(None, Some(map[]));
    EmptyIsAcceptable(w, "/src", SIMPLE_SETTING);
    PlainIdentityIsValid();
    assert "c.tmp"[1..] == ".tmp" && "a.zip"[1..] == ".zip";
    CandidateWindow(w, "/src", SIMPLE_SETTING, "c.tmp", "a.zip", PLAIN_ZIP);
  }

  const NEXT_IDENTITY := PLAIN_IDENTITY.(archiveID := "2f", confirmationOrder := 2)

  const FIRST_RECORD := RecordFor(PLAIN_IDENTITY, "a.zip", OLD_DIGEST)

  const SECOND_RECORD := RecordFor(NEXT_IDENTITY, "b.zip", OLD_DIGEST)

  /** Two archives where one is to be kept. */
  const TWO_ARCHIVES := World(
    Some(State(STATE_SCHEMA_VERSION, "/dst", "/src", 3, [FIRST_RECORD, SECOND_RECORD], None)),
    Some(map["a.zip" := Regular(ZipFile(PLAIN_ZIP)),
             "b.zip" := Regular(ZipFile(Zip([], Some(NEXT_IDENTITY))))]))

  /** With two archives and room for one, a cycle interrupted between deleting and dropping the older blocks. */
  lemma OneRemovalBlocks()
    ensures var marked := Apply(TWO_ARCHIVES, SaveMarked, SIMPLE_SETTING);
            var deleted := Apply(marked, DeletePending, SIMPLE_SETTING);
            var dropped := Apply(deleted, SaveDropped, SIMPLE_SETTING);
            && Acceptable(TWO_ARCHIVES, "/src", SIMPLE_SETTING) && Acceptable(marked, "/src", SIMPLE_SETTING)
            && !Acceptable(deleted, "/src", SIMPLE_SETTING) && Acceptable(dropped, "/src", SIMPLE_SETTING)
  {
    TwoArchivesAccepted();
    RetentionWindow(TWO_ARCHIVES, "/src", SIMPLE_SETTING);
  }

  lemma TwoArchivesAccepted()
    ensures Acceptable(TWO_ARCHIVES, "/src", SIMPLE_SETTING) && Enabled(TWO_ARCHIVES, SaveMarked, SIMPLE_SETTING)
  {
    TwoArchivesValid();
    TwoArchivesIntact();
    assert Unrecorded(TWO_ARCHIVES) == {} by {
      assert FIRST_RECORD in Archives(TWO_ARCHIVES) && SECOND_RECORD in Archives(TWO_ARCHIVES);
    }
  }

  lemma TwoArchivesIntact()
    ensures RecordIntact(TWO_ARCHIVES.Files(), FIRST_RECORD, "/src", SIMPLE_SETTING)
    ensures RecordIntact(TWO_ARCHIVES.Files(), SECOND_RECORD, "/src", SIMPLE_SETTING)
  {
    PlainIdentityIsValid();
    NotBlank("2f", 0);
  }

  lemma TwoArchivesValid()
    ensures ValidState(TWO_ARCHIVES.persisted.value)
  {
    NotBlank("/src", 0);
    NotBlank("/dst", 0);
    BothRecordsValid();
    TwoRecordsValid(TWO_ARCHIVES.persisted.value, FIRST_RECORD, SECOND_RECORD);
  }

  lemma BothRecordsValid()
    ensures ValidRecord(FIRST_RECORD) && ValidRecord(SECOND_RECORD) && Precedes(FIRST_RECORD, SECOND_RECORD)
  {
    FirstRecordValid();
    SecondRecordValid();
    assert "1f"[0] != "2f"[0] && "a.zip"[0] != "b.zip"[0];
  }

  lemma FirstRecordValid()
    ensures ValidRecord(FIRST_RECORD)
  {
    PlainIdentityIsValid();
    NotBlank("a.zip", 0);
    RecordIsValid(PLAIN_IDENTITY, "a.zip", OLD_DIGEST);
  }

  lemma SecondRecordValid()
    ensures ValidRecord(SECOND_RECORD)
  {
    PlainIdentityIsValid();
    NotBlank("2f", 0);
    NotBlank("b.zip", 0);
    RecordIsValid(NEXT_IDENTITY, "b.zip", OLD_DIGEST);
  }

  lemma RecordIsValid(identity: Identity, name: string, digest: string)
    requires ValidIdentity(identity, "", "", 0, "") && !Blank(name) && IsDigestText(digest)
    ensures ValidRecord(RecordFor(identity, name, digest))
  {
  }

  lemma TwoRecordsValid(s: State, a: Record, b: Record)
    requires s.schemaVersion == STATE_SCHEMA_VERSION && !Blank(s.destination) && !Blank(s.source)
    requires s.archives == [a, b] && s.pending == None && a.lifecycle.Confirmed? && b.lifecycle.Confirmed?
    requires ValidRecord(a) && ValidRecord(b) && Precedes(a, b) && b.order < s.nextOrder
    ensures ValidState(s)
  {
  }
}
