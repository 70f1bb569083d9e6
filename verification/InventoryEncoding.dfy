/**
 Backup inventories and the text their digest is computed from: one
 "path NUL kind NUL digest LF" group per entry.
 */
module InventoryEncoding {

  datatype BackupKind = BackupFile | BackupDirectory {
    function Text(): string {
      if BackupFile? then "file" else "directory"
    }
  }

  datatype BackupEntry = BackupEntry(relativePath: string, kind: BackupKind, contentDigest: string)

  datatype BackupInventory = BackupInventory(entries: seq<BackupEntry>, digest: string)

  const NUL: char := '\0'
  const LF: char := '\n'

  function Group(e: BackupEntry): string {
    e.relativePath + [NUL] + (e.kind.Text() + [NUL] + (e.contentDigest + [LF]))
  }

  function Preimage(entries: seq<BackupEntry>): string {
    if entries == [] then [] else Group(entries[0]) + Preimage(entries[1..])
  }

  /** The loop that feeds the hash writes the pre-image and nothing else. */
  method WriteGroups(entries: seq<BackupEntry>) returns (written: string)
    ensures written == Preimage(entries)
  {
    written := [];
    for i := 0 to |entries|
      invariant written + Preimage(entries[i..]) == Preimage(entries)
    {
      assert entries[i..][1..] == entries[i + 1..];
      assert Preimage(entries[i..]) == Group(entries[i]) + Preimage(entries[i + 1..]);
      assert written + Preimage(entries[i..]) == (written + Group(entries[i])) + Preimage(entries[i + 1..]);
      written := written + Group(entries[i]);
    }
  }

  /** What paths and digests look like: no NUL in a path, no line feed in a digest. */
  predicate Encodable(entries: seq<BackupEntry>) {
    forall e :: e in entries ==> NUL !in e.relativePath && LF !in e.contentDigest
  }

  lemma SplitAtFirst(c: char, a: string, restA: string, b: string, restB: string)
    requires c !in a && c !in b
    requires a + ([c] + restA) == b + ([c] + restB)
    ensures a == b && restA == restB
  {
    var whole := a + ([c] + restA);
    assert whole[|a|] == c && whole[|b|] == c;
    assert a == whole[..|a|] && b == whole[..|b|];
    assert [c] + restA == whole[|a|..] && [c] + restB == whole[|b|..];
    assert restA == ([c] + restA)[1..] && restB == ([c] + restB)[1..];
  }

  function GroupTail(e: BackupEntry, rest: string): string {
    e.kind.Text() + ([NUL] + DigestTail(e, rest))
  }

  function DigestTail(e: BackupEntry, rest: string): string {
    e.contentDigest + ([LF] + rest)
  }

  lemma GroupShape(e: BackupEntry, rest: string)
    ensures Group(e) + rest == e.relativePath + ([NUL] + GroupTail(e, rest))
  {
  }

  lemma KindTexts(a: BackupKind, b: BackupKind)
    ensures NUL !in a.Text()
    ensures a.Text() == b.Text() ==> a == b
  {
  }

  lemma GroupParses(a: BackupEntry, restA: string, b: BackupEntry, restB: string)
    requires NUL !in a.relativePath && LF !in a.contentDigest
    requires NUL !in b.relativePath && LF !in b.contentDigest
    requires Group(a) + restA == Group(b) + restB
    ensures a == b && restA == restB
  {
    GroupShape(a, restA);
    GroupShape(b, restB);
    KindTexts(a.kind, b.kind);
    KindTexts(b.kind, a.kind);
    SplitAtFirst(NUL, a.relativePath, GroupTail(a, restA), b.relativePath, GroupTail(b, restB));
    SplitAtFirst(NUL, a.kind.Text(), DigestTail(a, restA), b.kind.Text(), DigestTail(b, restB));
    SplitAtFirst(LF, a.contentDigest, restA, b.contentDigest, restB);
  }

  /** Different inventories have different pre-images. */
  lemma {:induction false} PreimageInjective(a: seq<BackupEntry>, b: seq<BackupEntry>)
    requires Encodable(a) && Encodable(b) && Preimage(a) == Preimage(b)
    ensures a == b
  {
    if a == [] || b == [] {
    } else {
      assert a[0] in a && b[0] in b;
      GroupParses(a[0], Preimage(a[1..]), b[0], Preimage(b[1..]));
      assert Encodable(a[1..]) && Encodable(b[1..]);
      PreimageInjective(a[1..], b[1..]);
      assert a == [a[0]] + a[1..] && b == [b[0]] + b[1..];
    }
  }

  /** A path holding a NUL byte would break it. */
  lemma PreimageCollidesWithNul()
    ensures Preimage([BackupEntry("a", BackupFile, "x"), BackupEntry("b", BackupFile, "y")])
         == Preimage([BackupEntry("a\0file\0x\nb", BackupFile, "y")])
  {
    var first, second := BackupEntry("a", BackupFile, "x"), BackupEntry("b", BackupFile, "y");
    var forged := BackupEntry("a\0file\0x\nb", BackupFile, "y");
    assert [first, second][1..] == [second] && [second][1..] == [] && [forged][1..] == [];
    assert Preimage([second]) == Group(second) + Preimage([second][1..]) && Group(second) + [] == Group(second);
    assert Preimage([forged]) == Group(forged) + Preimage([forged][1..]) && Group(forged) + [] == Group(forged);
    assert Preimage([first, second]) == Group(first) + Preimage([second]);
  }

  /** The text of an inventory of one directory and one file in it. */
  lemma PreimageOfTwo(directory: string, name: string, digest: string)
    ensures Preimage([BackupEntry(directory, BackupDirectory, ""),
                      BackupEntry(directory + "/" + name, BackupFile, digest)])
         == directory + "\0directory\0\n" + (directory + "/" + name + "\0file\0" + digest + "\n")
  {
    var first, second := BackupEntry(directory, BackupDirectory, ""),
      BackupEntry(directory + "/" + name, BackupFile, digest);
    assert [first, second][1..] == [second] && [second][1..] == [];
    assert Preimage([second]) == Group(second) + Preimage([]);
    assert Group(first) == directory + "\0directory\0\n";
    assert Group(second) == directory + "/" + name + "\0file\0" + digest + "\n";
  }

  function Digested(entries: seq<BackupEntry>, hash: string -> string): BackupInventory {
    BackupInventory(entries, hash(Preimage(entries)))
  }

  /** The digest first, then entry by entry. */
  method InventoriesEqual(first: BackupInventory, second: BackupInventory) returns (same: bool)
    ensures same <==> first == second
  {
    if first.digest != second.digest || |first.entries| != |second.entries| {
      return false;
    }
    for i := 0 to |first.entries|
      invariant forall j :: 0 <= j < i ==> first.entries[j] == second.entries[j]
    {
      if first.entries[i] != second.entries[i] {
        return false;
      }
    }
    return true;
  }

  /** Comparing digests alone decides as the element-by-element comparison does. */
  lemma DigestDecides(a: seq<BackupEntry>, b: seq<BackupEntry>, hash: string -> string)
    requires Encodable(a) && Encodable(b)
    requires hash(Preimage(a)) == hash(Preimage(b)) ==> Preimage(a) == Preimage(b)
    ensures Digested(a, hash).digest == Digested(b, hash).digest <==> a == b
  {
    if hash(Preimage(a)) == hash(Preimage(b)) { PreimageInjective(a, b); }
  }
}
