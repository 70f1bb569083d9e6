/** Writing a backup archive from an inventory and verifying it against that inventory. */
module BackupArchives {
  import opened Common
  import opened Sorting
  import opened Paths
  import opened BackupIdentity
  import opened InventoryEncoding
  import opened ArchiveComment

  /** One member of a ZIP file; isDirectory is what its mode bits say. */
  datatype ZipEntry = ZipEntry(name: string, isDirectory: bool, contents: Bytes)

  /** An archive as a reader sees it; identity None: no identity can be decoded from its comment. */
  datatype Zip = Zip(entries: seq<ZipEntry>, identity: Option<Identity>)

  /**
   What libraries make of values: digests of contents and of text, the bytes of an archive
   without a comment, and the text of an identity.
   */
  datatype Formats = Formats(
    ofFile: Bytes -> string,
    ofText: string -> string,
    container: seq<ZipEntry> -> Bytes,
    identityText: Identity -> Bytes)

  // ----- names -----

  predicate Contains(s: string, c: char) { c in s }

  predicate EndsWithSlash(s: string) { s != "" && s[|s| - 1] == '/' }

  function WithoutSlash(s: string): string {
    if EndsWithSlash(s) then s[..|s| - 1] else s
  }

  /** The segments between slashes. */
  function Segments(s: string): (parts: seq<string>)
    ensures parts != []
    ensures forall part :: part in parts ==> '/' !in part
  {
    if s == "" then [""]
    else if s[0] == '/' then [""] + Segments(s[1..])
    else
      var rest := Segments(s[1..]);
      [[s[0]] + rest[0]] + rest[1..]
  }

  /** path.Clean leaves a relative name alone, and the name does not climb out of its root. */
  predicate IsCleanBelowRoot(s: string) {
    forall part :: part in Segments(s) ==> part != "" && part != "." && part != ".."
  }

  predicate ValidEntryName(name: string, directory: bool) {
    && name != "" && !Contains(name, '\\') && name[0] != '/'
    && directory == EndsWithSlash(name) && WithoutSlash(name) != ""
    && IsCleanBelowRoot(WithoutSlash(name))
  }

  function EntryName(e: BackupEntry): string {
    if e.kind.BackupDirectory? then e.relativePath + "/" else e.relativePath
  }

  predicate SafeName(e: BackupEntry) {
    ValidEntryName(EntryName(e), e.kind.BackupDirectory?)
  }

  /** As the inventory builder leaves it: sorted, each path once; directories carry no digest. */
  ghost predicate IsBackupInventory(inventory: BackupInventory, formats: Formats) {
    && StrictlyByPath(inventory.entries)
    && (forall e :: e in inventory.entries && e.kind.BackupDirectory? ==> e.contentDigest == "")
    && inventory == Digested(inventory.entries, formats.ofText)
  }

  // ----- sorting by path -----

  predicate PathNotAfter(a: BackupEntry, b: BackupEntry) { NotAfter(a.relativePath, b.relativePath) }

  lemma PathNotAfterIsOrder()
    ensures IsOrder(PathNotAfter)
  {
    NotAfterIsOrder();
  }

  function Without<T>(a: seq<T>, i: nat): (r: seq<T>)
    requires i < |a|
    ensures |r| == |a| - 1
  {
    a[..i] + a[i + 1..]
  }

  lemma WithoutElement<T>(a: seq<T>, i: nat)
    requires i < |a|
    ensures multiset(Without(a, i)) == multiset(a) - multiset{a[i]}
    ensures multiset(a) == multiset(Without(a, i)) + multiset{a[i]}
  {
    var left, right := a[..i], a[i + 1..];
    assert a == left + [a[i]] + right;
    assert multiset(a) == multiset(left) + multiset{a[i]} + multiset(right);
    assert multiset(Without(a, i)) == multiset(left) + multiset(right);
  }

  ghost predicate StrictlyByPath(entries: seq<BackupEntry>) {
    forall i, j :: 0 <= i < j < |entries| ==> Less(entries[i].relativePath, entries[j].relativePath)
  }

  lemma StrictlyByPathIsOrdered(entries: seq<BackupEntry>)
    requires StrictlyByPath(entries)
    ensures StrictlyOrdered(entries, PathNotAfter)
  {
  }

  // ----- writing -----

  /** source: what opening and reading a source file gives at the moment it is archived. */
  function WrittenEntry(e: BackupEntry, source: string -> Option<Bytes>): ZipEntry {
    match e.kind
    case BackupDirectory => ZipEntry(e.relativePath + "/", true, [])
    case BackupFile =>
      ZipEntry(e.relativePath, false, if source(e.relativePath).Some? then source(e.relativePath).value else [])
  }

  function WrittenMembers(entries: seq<BackupEntry>, source: string -> Option<Bytes>): (members: seq<ZipEntry>)
    ensures |members| == |entries| && forall i :: 0 <= i < |entries| ==> members[i] == WrittenEntry(entries[i], source)
  {
    seq(|entries|, i requires 0 <= i < |entries| => WrittenEntry(entries[i], source))
  }

  /** The finished file, None where the identity cannot be spliced into it. */
  ghost function ArchiveBytes(members: seq<ZipEntry>, identity: Identity, formats: Formats): Option<Bytes> {
    WithComment(formats.container(members), formats.identityText(identity))
  }

  /** The spliced identity is what a reader finds as the comment. */
  ghost predicate IdentityReadable(members: seq<ZipEntry>, identity: Identity, formats: Formats) {
    && ArchiveBytes(members, identity, formats).Some?
    && CommentOf(ArchiveBytes(members, identity, formats).value) == Some(formats.identityText(identity))
  }

  /**
   A reader that lands on another end record finds some tail of the identity's text, or
   nothing, and decodes no identity.
   */
  ghost function FinishedZip(members: seq<ZipEntry>, identity: Identity, formats: Formats): Zip {
    Zip(members, if IdentityReadable(members, identity, formats) then Some(identity) else None)
  }

  /** The archive written when every entry is archivable. */
  ghost function WrittenZip(entries: seq<BackupEntry>, identity: Identity, source: string -> Option<Bytes>,
                            formats: Formats): (zip: Zip)
    ensures zip.identity.Some? <==> IdentityReadable(zip.entries, identity, formats)
    ensures zip.entries == WrittenMembers(entries, source)
  {
    FinishedZip(WrittenMembers(entries, source), identity, formats)
  }

  predicate Archivable(e: BackupEntry, source: string -> Option<Bytes>) {
    SafeName(e) && (e.kind.BackupFile? ==> source(e.relativePath).Some?)
  }

  /** The writer sorts a copy of its own; an inventory is sorted already. */
  method SortedCopy(inventory: BackupInventory, ghost formats: Formats) returns (entries: seq<BackupEntry>)
    requires IsBackupInventory(inventory, formats)
    ensures entries == inventory.entries
  {
    PathNotAfterIsOrder();
    entries := Sort(inventory.entries, PathNotAfter);
    SortedUniquely(entries, inventory.entries, PathNotAfter);
  }

  /** What the writer needs to finish: a valid identity that fits, safe names and readable files. */
  ghost predicate Writable(inventory: BackupInventory, identity: Identity, source: string -> Option<Bytes>,
                           formats: Formats) {
    && ValidIdentity(identity, "", "", 0, inventory.digest)
    && (forall e :: e in inventory.entries ==> Archivable(e, source))
    && ArchiveBytes(WrittenMembers(inventory.entries, source), identity, formats).Some?
  }

  method WriteArchive(inventory: BackupInventory, identity: Identity, source: string -> Option<Bytes>, formats: Formats)
    returns (r: Result<Zip>)
    requires IsBackupInventory(inventory, formats)
    ensures r.Success? <==> Writable(inventory, identity, source, formats)
    ensures r.Success? ==> r.value == WrittenZip(inventory.entries, identity, source, formats)
  {
    if !ValidIdentity(identity, "", "", 0, inventory.digest) {
      return Failure("backup archive identity is invalid");
    }
    var entries := SortedCopy(inventory, formats);
    var written := WriteMembers(entries, source);
    if written.Failure? {
      return Failure(written.error);
    }
    r := FinishArchive(written.value, identity, formats);
  }

  /** The loop over the entries, which the first that cannot be archived ends. */
  method WriteMembers(entries: seq<BackupEntry>, source: string -> Option<Bytes>) returns (r: Result<seq<ZipEntry>>)
    ensures r.Success? <==> forall e :: e in entries ==> Archivable(e, source)
    ensures r.Success? ==> r.value == WrittenMembers(entries, source)
  {
    var written: seq<ZipEntry> := [];
    for i := 0 to |entries|
      invariant |written| == i
      invariant forall j :: 0 <= j < i ==>
        Archivable(entries[j], source) && written[j] == WrittenEntry(entries[j], source)
    {
      var one := WriteEntry(entries[i], source);
      if one.Failure? {
        assert entries[i] in entries;
        return Failure(one.error);
      }
      written := written + [one.value];
    }
    assert written == WrittenMembers(entries, source);
    return Success(written);
  }

  /** Splice the identity into the members' archive. */
  method FinishArchive(members: seq<ZipEntry>, identity: Identity, formats: Formats) returns (r: Result<Zip>)
    ensures r.Success? <==> ArchiveBytes(members, identity, formats).Some?
    ensures r.Success? ==> r.value == FinishedZip(members, identity, formats)
  {
    var text := formats.identityText(identity);
    var spliced, _ := SetComment(formats.container(members), text);
    if spliced.Failure? {
      return Failure(spliced.error);
    }
    var found := ReadComment(spliced.value);
    return Success(Zip(members, if found == Some(text) then Some(identity) else None));
  }

  method WriteEntry(e: BackupEntry, source: string -> Option<Bytes>) returns (r: Result<ZipEntry>)
    ensures r.Success? <==> Archivable(e, source)
    ensures r.Success? ==> r.value == WrittenEntry(e, source)
  {
    var entryName := e.relativePath;
    if e.kind == BackupDirectory {
      entryName := entryName + "/";
    }
    if !ValidEntryName(entryName, e.kind == BackupDirectory) {
      return Failure("unsafe backup archive entry name");
    }
    if e.kind == BackupDirectory {
      return Success(ZipEntry(entryName, true, []));
    }
    var content := source(e.relativePath);
    if content.None? {
      return Failure("open backup source file");
    }
    return Success(ZipEntry(e.relativePath, false, content.value));
  }

  // ----- verifying -----

  function DecodedEntry(z: ZipEntry, formats: Formats): BackupEntry {
    if EndsWithSlash(z.name) then BackupEntry(WithoutSlash(z.name), BackupDirectory, "")
    else BackupEntry(z.name, BackupFile, formats.ofFile(z.contents))
  }

  function Decoded(zs: seq<ZipEntry>, formats: Formats): (es: seq<BackupEntry>)
    ensures |es| == |zs| && forall i :: 0 <= i < |zs| ==> es[i] == DecodedEntry(zs[i], formats)
  {
    seq(|zs|, i requires 0 <= i < |zs| => DecodedEntry(zs[i], formats))
  }

  predicate WellFormedEntry(z: ZipEntry) {
    ValidEntryName(z.name, EndsWithSlash(z.name)) && z.isDirectory == EndsWithSlash(z.name)
  }

  predicate IsExpectedIdentity(found: Identity, expected: Identity) {
    && ValidIdentity(found, expected.sourcePath, expected.destinationPath, expected.confirmationOrder,
                     expected.inventoryDigest)
    && found.archiveID == expected.archiveID && found.createdAt == expected.createdAt
  }

  ghost predicate DistinctNames(zs: seq<ZipEntry>) {
    forall i, j :: 0 <= i < j < |zs| ==> zs[i].name != zs[j].name
  }

  function NamesOf(zs: seq<ZipEntry>): set<string> {
    set z | z in zs :: z.name
  }

  /** Right identity, safe distinct names, and the decoded members are the inventory in some order. */
  ghost predicate Accepts(zip: Zip, expected: Identity, inventory: BackupInventory, formats: Formats) {
    && zip.identity.Some? && IsExpectedIdentity(zip.identity.value, expected)
    && (forall z :: z in zip.entries ==> WellFormedEntry(z))
    && DistinctNames(zip.entries)
    && multiset(Decoded(zip.entries, formats)) == multiset(inventory.entries)
  }

  method VerifyArchive(zip: Zip, expected: Identity, inventory: BackupInventory, formats: Formats) returns (ok: bool)
    requires IsBackupInventory(inventory, formats)
    ensures ok <==> Accepts(zip, expected, inventory, formats)
  {
    if zip.identity.None? || !IsExpectedIdentity(zip.identity.value, expected) {
      return false;
    }
    var decoded := DecodeMembers(zip.entries, formats);
    if decoded.None? {
      return false;
    }
    PathNotAfterIsOrder();
    var sorted := Sort(decoded.value, PathNotAfter);
    ok := InventoriesEqual(Digested(sorted, formats.ofText), inventory);
    if multiset(decoded.value) == multiset(inventory.entries) {
      SortedUniquely(sorted, inventory.entries, PathNotAfter);
    }
  }

  /** The loop over the members, remembering the names seen. */
  method DecodeMembers(files: seq<ZipEntry>, formats: Formats) returns (r: Option<seq<BackupEntry>>)
    ensures r.Some? <==> (forall z :: z in files ==> WellFormedEntry(z)) && DistinctNames(files)
    ensures r.Some? ==> r.value == Decoded(files, formats)
  {
    var entries: seq<BackupEntry> := [];
    var seen: set<string> := {};
    for i := 0 to |files|
      invariant entries == Decoded(files[..i], formats)
      invariant forall z :: z in files[..i] ==> WellFormedEntry(z)
      invariant DistinctNames(files[..i]) && seen == NamesOf(files[..i])
    {
      var file := files[i];
      NextName(files, i);
      var isDirectory := EndsWithSlash(file.name);
      if !ValidEntryName(file.name, isDirectory) || file.name in seen {
        return None;
      }
      seen := seen + {file.name};
      if isDirectory && file.isDirectory {
        entries := entries + [BackupEntry(WithoutSlash(file.name), BackupDirectory, "")];
      } else if !isDirectory && !file.isDirectory {
        entries := entries + [BackupEntry(file.name, BackupFile, formats.ofFile(file.contents))];
      } else {
        return None;
      }
    }
    assert files[..|files|] == files;
    return Some(entries);
  }

  lemma NextName(files: seq<ZipEntry>, i: nat)
    requires i < |files|
    ensures files[i] in files && files[..i + 1] == files[..i] + [files[i]]
    ensures NamesOf(files[..i + 1]) == NamesOf(files[..i]) + {files[i].name}
    ensures DistinctNames(files[..i + 1]) <==> DistinctNames(files[..i]) && files[i].name !in NamesOf(files[..i])
    ensures DistinctNames(files) ==> DistinctNames(files[..i + 1])
  {
  }

  // ----- properties -----

  /** Every file still had its inventoried contents when it was archived. */
  ghost predicate SourceUnchanged(inventory: BackupInventory, source: string -> Option<Bytes>, formats: Formats) {
    forall e :: e in inventory.entries && e.kind.BackupFile? ==>
      source(e.relativePath).Some? && formats.ofFile(source(e.relativePath).value) == e.contentDigest
  }

  lemma WrittenDecodes(e: BackupEntry, source: string -> Option<Bytes>, formats: Formats)
    requires Archivable(e, source) && (e.kind.BackupDirectory? ==> e.contentDigest == "")
    ensures WellFormedEntry(WrittenEntry(e, source))
    ensures WrittenEntry(e, source).name == EntryName(e)
    ensures DecodedEntry(WrittenEntry(e, source), formats).relativePath == e.relativePath
    ensures DecodedEntry(WrittenEntry(e, source), formats) == e <==>
            e.kind.BackupDirectory? || formats.ofFile(source(e.relativePath).value) == e.contentDigest
  {
  }

  /** zip holds what the writer wrote for each entry, in the inventory's order. */
  ghost predicate WrittenFrom(zip: Zip, inventory: BackupInventory, source: string -> Option<Bytes>) {
    && |zip.entries| == |inventory.entries|
    && forall i :: 0 <= i < |zip.entries| ==>
         Archivable(inventory.entries[i], source) && zip.entries[i] == WrittenEntry(inventory.entries[i], source)
  }

  lemma WrittenIsWellFormed(inventory: BackupInventory, source: string -> Option<Bytes>, formats: Formats, zip: Zip)
    requires IsBackupInventory(inventory, formats) && WrittenFrom(zip, inventory, source)
    ensures forall i :: 0 <= i < |zip.entries| ==> WellFormedEntry(zip.entries[i])
    ensures forall i, j :: 0 <= i < j < |zip.entries| ==> zip.entries[i].name != zip.entries[j].name
    ensures Sorted(Decoded(zip.entries, formats), PathNotAfter)
    ensures forall i :: 0 <= i < |zip.entries| ==>
      var e := inventory.entries[i];
      Decoded(zip.entries, formats)[i] == e <==>
      e.kind.BackupDirectory? || formats.ofFile(source(e.relativePath).value) == e.contentDigest
  {
    var es, ds := inventory.entries, Decoded(zip.entries, formats);
    forall i | 0 <= i < |es|
      ensures WellFormedEntry(zip.entries[i]) && zip.entries[i].name == EntryName(es[i])
      ensures ds[i].relativePath == es[i].relativePath
      ensures ds[i] == es[i] <==>
              es[i].kind.BackupDirectory? || formats.ofFile(source(es[i].relativePath).value) == es[i].contentDigest
    {
      assert es[i] in es;
      WrittenDecodes(es[i], source, formats);
    }
    forall i, j | 0 <= i < j < |es|
      ensures zip.entries[i].name != zip.entries[j].name
      ensures !Less(ds[j].relativePath, ds[i].relativePath)
    {
      NamesDistinct(es[i], es[j]);
      LessAsymmetric(es[i].relativePath, es[j].relativePath);
    }
  }

  /** A fresh archive is accepted exactly if the source did not change under the writer and its identity reads back. */
  lemma WriteThenVerify(inventory: BackupInventory, identity: Identity, source: string -> Option<Bytes>,
                        formats: Formats)
    requires IsBackupInventory(inventory, formats) && Writable(inventory, identity, source, formats)
    ensures Accepts(WrittenZip(inventory.entries, identity, source, formats), identity, inventory, formats) <==>
            SourceUnchanged(inventory, source, formats) &&
            IdentityReadable(WrittenMembers(inventory.entries, source), identity, formats)
  {
    var zip := WrittenZip(inventory.entries, identity, source, formats);
    assert IsExpectedIdentity(identity, identity);
    WritableIsWritten(inventory, identity, source, formats);
    ContentsAccepted(inventory, source, formats, zip);
  }

  lemma WritableIsWritten(inventory: BackupInventory, identity: Identity, source: string -> Option<Bytes>,
                          formats: Formats)
    requires Writable(inventory, identity, source, formats)
    ensures WrittenFrom(WrittenZip(inventory.entries, identity, source, formats), inventory, source)
  {
    forall i | 0 <= i < |inventory.entries| ensures Archivable(inventory.entries[i], source) {
      assert inventory.entries[i] in inventory.entries;
    }
  }

  lemma ContentsAccepted(inventory: BackupInventory, source: string -> Option<Bytes>, formats: Formats, zip: Zip)
    requires IsBackupInventory(inventory, formats) && WrittenFrom(zip, inventory, source)
    ensures (forall z :: z in zip.entries ==> WellFormedEntry(z)) && DistinctNames(zip.entries)
    ensures multiset(Decoded(zip.entries, formats)) == multiset(inventory.entries) <==>
            SourceUnchanged(inventory, source, formats)
  {
    var es, ds := inventory.entries, Decoded(zip.entries, formats);
    WrittenIsWellFormed(inventory, source, formats, zip);
    StrictlyByPathIsOrdered(es);
    if multiset(ds) == multiset(es) {
      SortedUniquely(ds, es, PathNotAfter);
    }
    DecodedIffUnchanged(inventory, source, formats, zip);
  }

  /** When an identity fits and reads back, in terms of what the archive's end record says. */
  lemma ReadableByPosition(members: seq<ZipEntry>, identity: Identity, formats: Formats, before: Bytes, f: Fields)
    requires formats.container(members) == Archive(before, f) && FieldsFit(f)
    requires NoControlBytes(formats.identityText(identity))
    ensures var n := |formats.identityText(identity)|;
            && (ArchiveBytes(members, identity, formats).Some? <==> n <= 65535 && !FieldsSpellSignature(f))
            && (IdentityReadable(members, identity, formats) <==>
                n <= 65535 && !FieldsSpellSignature(f) && (n == 6 || !PositionSpellsSignature(f.offset, n)))
  {
    SpliceRefusedIff(before, f, formats.identityText(identity));
    WrittenArchiveReadBack(before, f, formats.identityText(identity));
  }

  lemma DecodedIffUnchanged(inventory: BackupInventory, source: string -> Option<Bytes>, formats: Formats, zip: Zip)
    requires IsBackupInventory(inventory, formats) && WrittenFrom(zip, inventory, source)
    ensures Decoded(zip.entries, formats) == inventory.entries <==> SourceUnchanged(inventory, source, formats)
  {
    var es, ds := inventory.entries, Decoded(zip.entries, formats);
    WrittenIsWellFormed(inventory, source, formats, zip);
    if ds == es {
      forall e | e in es && e.kind.BackupFile?
        ensures source(e.relativePath).Some? && formats.ofFile(source(e.relativePath).value) == e.contentDigest
      {
        var i :| 0 <= i < |es| && es[i] == e;
        assert ds[i] == es[i] && Archivable(es[i], source);
      }
    }
    if SourceUnchanged(inventory, source, formats) {
      forall i | 0 <= i < |es| ensures ds[i] == es[i] {
        assert es[i] in es;
      }
    }
  }

  lemma NamesDistinct(a: BackupEntry, b: BackupEntry)
    requires Less(a.relativePath, b.relativePath) && SafeName(a) && SafeName(b)
    ensures EntryName(a) != EntryName(b)
  {
    LessIrreflexive(a.relativePath);
    if a.kind.BackupDirectory? && b.kind.BackupDirectory? {
      assert WithoutSlash(a.relativePath + "/") == a.relativePath;
      assert WithoutSlash(b.relativePath + "/") == b.relativePath;
    }
  }

  /** The order of the members does not matter. */
  lemma AcceptsAnyOrder(a: Zip, b: Zip, expected: Identity, inventory: BackupInventory, formats: Formats)
    requires a.identity == b.identity && multiset(a.entries) == multiset(b.entries)
    requires Accepts(a, expected, inventory, formats)
    ensures Accepts(b, expected, inventory, formats)
  {
    DecodedMultiset(a.entries, b.entries, formats);
    forall z | z in b.entries ensures WellFormedEntry(z) {
      assert z in multiset(a.entries);
      assert z in a.entries;
    }
    forall i, j | 0 <= i < j < |b.entries| ensures b.entries[i].name != b.entries[j].name {
      DistinctNamesInMultiset(a.entries, b.entries, i, j);
    }
  }

  lemma DecodedWithout(b: seq<ZipEntry>, i: nat, formats: Formats)
    requires i < |b|
    ensures multiset(Decoded(b, formats)) ==
            multiset(Decoded(Without(b, i), formats)) + multiset{DecodedEntry(b[i], formats)}
  {
    var ds := Decoded(b, formats);
    WithoutElement(ds, i);
    assert Decoded(Without(b, i), formats) == Without(ds, i);
  }

  lemma {:induction false} DecodedMultiset(a: seq<ZipEntry>, b: seq<ZipEntry>, formats: Formats)
    requires multiset(a) == multiset(b)
    ensures multiset(Decoded(a, formats)) == multiset(Decoded(b, formats))
    decreases |a|
  {
    if a == [] {
      assert |multiset(b)| == 0;
    } else {
      assert a[0] in multiset(b);
      var i :| 0 <= i < |b| && b[i] == a[0];
      WithoutElement(a, 0);
      WithoutElement(b, i);
      DecodedWithout(a, 0, formats);
      DecodedWithout(b, i, formats);
      DecodedMultiset(Without(a, 0), Without(b, i), formats);
    }
  }

  lemma DistinctNamesInMultiset(a: seq<ZipEntry>, b: seq<ZipEntry>, i: nat, j: nat)
    requires multiset(a) == multiset(b) && i < j < |b|
    requires forall k, l :: 0 <= k < l < |a| ==> a[k].name != a[l].name
    ensures b[i].name != b[j].name
  {
    assert b[i] in multiset(a) && b[j] in multiset(a);
    assert b[i] in a && b[j] in a;
    if b[i] == b[j] {
      assert b == b[..i] + [b[i]] + b[i + 1..j] + [b[j]] + b[j + 1..];
      assert multiset(b)[b[i]] >= 2;
      OnceOnly(a, b[i]);
    }
  }

  // ----- which names are safe, and which identity is expected -----

  /** Segments put together again with slashes between them. */
  function Joined(parts: seq<string>): string
    requires parts != []
  {
    if |parts| == 1 then parts[0] else parts[0] + "/" + Joined(parts[1..])
  }

  lemma {:induction false} SegmentsFirst(part: string, rest: string)
    requires '/' !in part
    ensures Segments(part) == [part]
    ensures Segments(part + "/" + rest) == [part] + Segments(rest)
  {
    if part == "" {
      assert part + "/" + rest == "/" + rest;
      assert ("/" + rest)[1..] == rest;
    } else {
      SegmentsFirst(part[1..], rest);
      var whole := part + "/" + rest;
      assert whole[1..] == part[1..] + "/" + rest && whole[0] == part[0];
      assert part == [part[0]] + part[1..];
    }
  }

  lemma {:induction false} SegmentsOfJoined(parts: seq<string>)
    requires parts != [] && forall part :: part in parts ==> '/' !in part
    ensures Segments(Joined(parts)) == parts
  {
    assert parts[0] in parts;
    if |parts| == 1 {
      SegmentsFirst(parts[0], "");
    } else {
      SegmentsOfJoined(parts[1..]);
      SegmentsFirst(parts[0], Joined(parts[1..]));
      assert parts == [parts[0]] + parts[1..];
    }
  }

  /** A path is safe to archive exactly if no segment is empty, a dot or a double dot, or holds a backslash. */
  lemma SafeNameIff(parts: seq<string>, kind: BackupKind, digest: string)
    requires parts != [] && forall part :: part in parts ==> '/' !in part
    ensures SafeName(BackupEntry(Joined(parts), kind, digest)) <==>
            forall part :: part in parts ==> part != "" && part != "." && part != ".." && '\\' !in part
  {
    var path := Joined(parts);
    SegmentsOfJoined(parts);
    BackslashInJoined(parts);
    EndsOfJoined(parts);
    if kind.BackupDirectory? { assert WithoutSlash(path + "/") == path; }
  }

  lemma {:induction false} BackslashInJoined(parts: seq<string>)
    requires parts != []
    ensures '\\' in Joined(parts) <==> exists part :: part in parts && '\\' in part
  {
    if |parts| == 1 {
    } else {
      BackslashInJoined(parts[1..]);
      assert parts == [parts[0]] + parts[1..];
    }
  }

  /** A slash at either end comes from an empty segment there. */
  lemma {:induction false} EndsOfJoined(parts: seq<string>)
    requires parts != [] && forall part :: part in parts ==> '/' !in part
    ensures Joined(parts) == "" ==> "" in parts
    ensures Joined(parts) != "" && Joined(parts)[0] == '/' ==> "" in parts
    ensures EndsWithSlash(Joined(parts)) ==> "" in parts
  {
    assert parts[0] in parts;
    assert parts[0] != "" ==> parts[0][0] in parts[0] && parts[0][|parts[0]| - 1] in parts[0];
    if |parts| == 1 {
    } else {
      EndsOfJoined(parts[1..]);
      assert parts == [parts[0]] + parts[1..];
    }
  }

  /** Of all identities only the expected one itself is accepted. */
  lemma ExpectedIsTheOne(found: Identity, expected: Identity)
    requires !Malformed(expected)
    ensures IsExpectedIdentity(found, expected) <==> found == expected
  {
    ValidIdentityIff(found, expected.sourcePath, expected.destinationPath, expected.confirmationOrder,
                     expected.inventoryDigest);
  }
}
