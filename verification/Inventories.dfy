/** Inventories of a directory tree and their comparison. */
module Inventories {
  import opened Common
  import opened Sorting
  import opened Paths
  import opened FileTrees
  import opened SyncDomain

  type Inventory = map<string, Entry>

  /** Every entry is filed under its own path. */
  ghost predicate IsInventory(inventory: Inventory) {
    forall p :: p in inventory ==> inventory[p].relativePath == p
  }

  function EntryOf(path: string, node: Node, modificationTime: int): Entry {
    match node
    case Directory => Entry(path, DirectoryEntry, None, modificationTime)
    case File(content) => Entry(path, FileEntry, Some(Sha256(content)), modificationTime)
  }

  /** The inventory of a tree whose entries carry the given modification times. */
  function InventoryOf(tree: Tree, times: string -> int): (inventory: Inventory)
    ensures inventory.Keys == tree.Keys
  {
    map p | p in tree :: EntryOf(p, tree[p], times(p))
  }

  function InventoryEntry(inventory: Inventory, path: string): Option<Entry> {
    if path in inventory then Some(inventory[path]) else None
  }

  predicate EntriesMatch(a: Entry, b: Entry) {
    && a.relativePath == b.relativePath
    && a.kind == b.kind
    && (a.kind.FileEntry? ==> a.contentDigest == b.contentDigest)
  }

  ghost predicate Equivalent(first: Inventory, second: Inventory) {
    first.Keys == second.Keys && forall p :: p in first ==> EntriesMatch(first[p], second[p])
  }

  /** Equal sizes, and every entry of the first has a matching one in the second. */
  method HaveEquivalentContents(first: Inventory, second: Inventory) returns (same: bool)
    ensures same <==> Equivalent(first, second)
  {
    if |first| != |second| {
      return false;
    }
    var remaining := first.Keys;
    while remaining != {}
      invariant remaining <= first.Keys
      invariant forall p :: p in first && p !in remaining ==> p in second && EntriesMatch(first[p], second[p])
    {
      var p :| p in remaining;
      if p !in second || !EntriesMatch(first[p], second[p]) {
        return false;
      }
      remaining := remaining - {p};
    }
    SameSizeSubset(first.Keys, second.Keys);
    return true;
  }

  /** The one-sided test is reflexive, symmetric and transitive. */
  lemma EquivalentIsEquivalence(a: Inventory, b: Inventory, c: Inventory)
    ensures Equivalent(a, a)
    ensures Equivalent(a, b) ==> Equivalent(b, a)
    ensures Equivalent(a, b) && Equivalent(b, c) ==> Equivalent(a, c)
  {
  }

  /** Digests are collision free, so equivalent inventories come from equal trees. */
  lemma EquivalentIffSameTree(a: Tree, b: Tree, timesA: string -> int, timesB: string -> int)
    ensures Equivalent(InventoryOf(a, timesA), InventoryOf(b, timesB)) <==> a == b
  {
    var ia, ib := InventoryOf(a, timesA), InventoryOf(b, timesB);
    if Equivalent(ia, ib) {
      forall p ensures At(a, p) == At(b, p) {
        if p in a {
          assert p in ia.Keys && p in ib.Keys && EntriesMatch(ia[p], ib[p]);
        } else {
          assert p !in ia.Keys && p !in ib.Keys;
        }
      }
      SameEverywhere(a, b);
    }
  }

  /** The comparison of one path. */
  function CompareAt(first: Inventory, second: Inventory, path: string): Comparison {
    Comparison(path, InventoryEntry(first, path), InventoryEntry(second, path), None)
  }

  function CompareAll(first: Inventory, second: Inventory, paths: seq<string>): (cs: seq<Comparison>)
    ensures |cs| == |paths|
    ensures forall i :: 0 <= i < |cs| ==> cs[i] == CompareAt(first, second, paths[i])
  {
    seq(|paths|, i requires 0 <= i < |paths| => CompareAt(first, second, paths[i]))
  }

  /** paths lists exactly the given paths, in order, once. */
  ghost predicate Enumerates(paths: seq<string>, keys: set<string>) {
    StrictlySorted(paths) && forall p :: p in paths <==> p in keys
  }

  /** The keys are collected in any order and sorted. */
  method SortPaths(keys: set<string>) returns (sorted: seq<string>)
    ensures Enumerates(sorted, keys)
  {
    var listed: seq<string> := [];
    var remaining := keys;
    while remaining != {}
      invariant remaining <= keys
      invariant forall p :: p in listed <==> p in keys - remaining
      invariant forall i, j :: 0 <= i < j < |listed| ==> listed[i] != listed[j]
    {
      var p :| p in remaining;
      ghost var before := listed;
      listed := listed + [p];
      remaining := remaining - {p};
      assert forall q :: q in listed <==> q in before || q == p;
      assert keys - remaining == keys - (remaining + {p}) + {p};
    }
    NotAfterIsOrder();
    sorted := Sort(listed, NotAfter);
    SortedWithoutRepeats(listed, sorted);
  }

  lemma SortedWithoutRepeats(listed: seq<string>, sorted: seq<string>)
    requires multiset(sorted) == multiset(listed) && Sorted(sorted, NotAfter)
    requires forall i, j :: 0 <= i < j < |listed| ==> listed[i] != listed[j]
    ensures StrictlySorted(sorted) && forall p :: p in sorted <==> p in listed
  {
    forall p ensures p in sorted <==> p in listed {
      assert p in sorted <==> p in multiset(sorted);
    }
    forall i, j | 0 <= i < j < |sorted| ensures Less(sorted[i], sorted[j]) {
      if sorted[i] == sorted[j] {
        assert sorted == sorted[..i] + [sorted[i]] + sorted[i + 1..j] + [sorted[j]] + sorted[j + 1..];
        OnceOnly(listed, sorted[i]);
      }
      LessTotal(sorted[i], sorted[j]);
    }
  }

  /** Every path of either side exactly once, in sorted order, with what each side has there. */
  method CompareInventories(first: Inventory, second: Inventory) returns (comparisons: seq<Comparison>)
    ensures Enumerates(PathsOf(comparisons), first.Keys + second.Keys)
    ensures comparisons == CompareAll(first, second, PathsOf(comparisons))
    ensures forall c :: c in comparisons ==>
      && c.first == (if c.relativePath in first then Some(first[c.relativePath]) else None)
      && c.second == (if c.relativePath in second then Some(second[c.relativePath]) else None)
      && c.confirmed == None
  {
    var sortedPaths := SortPaths(first.Keys + second.Keys);
    comparisons := [];
    for i := 0 to |sortedPaths|
      invariant |comparisons| == i
      invariant forall j :: 0 <= j < i ==> comparisons[j] == CompareAt(first, second, sortedPaths[j])
    {
      comparisons := comparisons + [CompareAt(first, second, sortedPaths[i])];
    }
    assert PathsOf(comparisons) == sortedPaths;
  }

  function PathsOf(comparisons: seq<Comparison>): seq<string> {
    seq(|comparisons|, i requires 0 <= i < |comparisons| => comparisons[i].relativePath)
  }

  /** The recorded entries by path, as the map a record is turned into. */
  function RecordedEntries(entries: seq<Entry>): (m: map<string, Entry>)
    ensures forall p :: p in m <==> exists i :: 0 <= i < |entries| && entries[i].relativePath == p
    ensures forall p :: p in m ==> m[p] in entries && m[p].relativePath == p
  {
    if entries == [] then map[]
    else
      var rest := RecordedEntries(entries[..|entries| - 1]);
      rest[entries[|entries| - 1].relativePath := entries[|entries| - 1]]
  }

  /** Entry j is the last one recorded for the path. */
  ghost predicate LastOf(entries: seq<Entry>, path: string, j: int) {
    && 0 <= j < |entries| && entries[j].relativePath == path
    && forall k :: j < k < |entries| ==> entries[k].relativePath != path
  }

  lemma {:induction false} LastRecordWins(entries: seq<Entry>)
    ensures forall path, j :: LastOf(entries, path, j) ==>
      path in RecordedEntries(entries) && RecordedEntries(entries)[path] == entries[j]
    decreases |entries|
  {
    if entries == [] {
    } else {
      var n := |entries| - 1;
      var rest := entries[..n];
      LastRecordWins(rest);
      forall path, j | LastOf(entries, path, j)
        ensures path in RecordedEntries(entries) && RecordedEntries(entries)[path] == entries[j]
      {
        if j < n { assert LastOf(rest, path, j); }
      }
    }
  }

  function Attach(c: Comparison, recorded: Inventory): Comparison {
    if c.relativePath in recorded then c.(confirmed := Some(recorded[c.relativePath])) else c
  }

  /** Mark the comparisons whose path is in the confirmed record; later records win. */
  method AttachConfirmedEntries(comparisons: seq<Comparison>, entries: seq<Entry>, found: bool)
    returns (attached: seq<Comparison>)
    ensures !found ==> attached == comparisons
    ensures |attached| == |comparisons|
    ensures forall i :: found && 0 <= i < |comparisons| ==>
      attached[i] == Attach(comparisons[i], RecordedEntries(entries))
    ensures forall i, j :: found && 0 <= i < |comparisons| && LastOf(entries, comparisons[i].relativePath, j) ==>
      attached[i] == comparisons[i].(confirmed := Some(entries[j]))
    ensures forall i :: found && 0 <= i < |comparisons|
                        && (forall e :: e in entries ==> e.relativePath != comparisons[i].relativePath) ==>
      attached[i] == comparisons[i]
  {
    LastRecordWins(entries);
    if !found {
      return comparisons;
    }
    var recorded: map<string, Entry> := map[];
    for i := 0 to |entries|
      invariant recorded == RecordedEntries(entries[..i])
    {
      recorded := recorded[entries[i].relativePath := entries[i]];
      assert entries[..i + 1][..i] == entries[..i];
    }
    assert entries[..|entries|] == entries;
    attached := comparisons;
    for i := 0 to |comparisons|
      invariant |attached| == |comparisons|
      invariant forall j :: 0 <= j < i ==> attached[j] == Attach(comparisons[j], recorded)
      invariant forall j :: i <= j < |comparisons| ==> attached[j] == comparisons[j]
    {
      attached := attached[i := Attach(comparisons[i], recorded)];
    }
  }
}
