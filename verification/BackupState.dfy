/** The persisted record of a backup set and when it is valid. */
module BackupState {
  import opened Common
  import opened BackupIdentity

  datatype Lifecycle = Confirmed | PendingRemoval | UnknownLifecycle(text: string)

  datatype Record = Record(
    archiveID: string,
    fileName: string,
    order: Uint64,
    createdAt: int,
    wholeDigest: string,
    inventoryDigest: string,
    lifecycle: Lifecycle)

  datatype Removal = Removal(archiveID: string, fileName: string, order: Uint64)

  datatype State = State(
    schemaVersion: int,
    destination: string,
    source: string,
    nextOrder: Uint64,
    archives: seq<Record>,
    pending: Option<Removal>)

  const STATE_SCHEMA_VERSION := 1

  predicate ValidRecord(r: Record) {
    && !Blank(r.archiveID) && !Blank(r.fileName) && r.order != 0 && r.createdAt != 0
    && IsDigestText(r.wholeDigest) && IsDigestText(r.inventoryDigest)
    && !r.lifecycle.UnknownLifecycle?
  }

  /** Strictly increasing orders, and no identifier or file name twice. */
  ghost predicate OrderedAndDistinct(archives: seq<Record>) {
    forall i, j :: 0 <= i < j < |archives| ==> Precedes(archives[i], archives[j])
  }

  predicate Precedes(a: Record, b: Record) {
    a.order < b.order && a.archiveID != b.archiveID && a.fileName != b.fileName
  }

  predicate Names(removal: Removal, r: Record) {
    r.archiveID == removal.archiveID && r.fileName == removal.fileName && r.order == removal.order
  }

  /** The pending removal names the one pending record, or there is neither. */
  ghost predicate PendingMatches(archives: seq<Record>, pending: Option<Removal>) {
    match pending
    case None => forall r :: r in archives ==> !r.lifecycle.PendingRemoval?
    case Some(removal) =>
      exists i :: OnlyPending(archives, i) && Names(removal, archives[i])
  }

  ghost predicate ValidState(s: State) {
    && s.schemaVersion == STATE_SCHEMA_VERSION
    && !Blank(s.destination) && !Blank(s.source) && s.nextOrder != 0
    && (forall r :: r in s.archives ==> ValidRecord(r) && r.order < s.nextOrder)
    && OrderedAndDistinct(s.archives)
    && PendingMatches(s.archives, s.pending)
  }

  method ValidateState(s: State) returns (ok: bool)
    ensures ok <==> ValidState(s)
  {
    if s.schemaVersion != STATE_SCHEMA_VERSION || Blank(s.destination) || Blank(s.source) || s.nextOrder == 0 {
      return false;
    }
    var recordsOk, maximumOrder, pendingCount := ValidateRecords(s.archives);
    if recordsOk {
      LastIsHighest(s.archives);
    }
    if !recordsOk || s.nextOrder <= maximumOrder {
      return false;
    }
    CountedPending(s.archives);
    if s.pending.None? {
      return pendingCount == 0;
    }
    if pendingCount != 1 {
      return false;
    }
    ghost var only :| OnlyPending(s.archives, only);
    for i := 0 to |s.archives|
      invariant i <= only || !Names(s.pending.value, s.archives[only])
    {
      if s.archives[i].lifecycle == PendingRemoval && Names(s.pending.value, s.archives[i]) {
        return true;
      }
    }
    return false;
  }

  /** What the validation pass has seen so far. */
  datatype Seen = Seen(archiveIDs: set<string>, fileNames: set<string>, orders: set<nat>, maximumOrder: nat,
                       pendingCount: nat)

  ghost predicate HasSeen(seen: Seen, archives: seq<Record>) {
    && ValidRecords(archives)
    && seen.archiveIDs == IDs(archives) && seen.fileNames == FileNames(archives)
    && (forall o :: o in seen.orders ==> o <= seen.maximumOrder)
    && seen.maximumOrder == LastOrder(archives)
    && seen.pendingCount == PendingCount(archives)
  }

  function Note(seen: Seen, r: Record): Seen {
    Seen(seen.archiveIDs + {r.archiveID}, seen.fileNames + {r.fileName}, seen.orders + {r.order}, r.order,
         seen.pendingCount + if r.lifecycle == PendingRemoval then 1 else 0)
  }

  lemma NoteNext(seen: Seen, before: seq<Record>, r: Record)
    requires HasSeen(seen, before)
    ensures ValidRecords(before + [r]) <==>
            ValidRecord(r) && seen.maximumOrder < r.order && r.archiveID !in seen.archiveIDs
              && r.fileName !in seen.fileNames
    ensures ValidRecords(before + [r]) ==> HasSeen(Note(seen, r), before + [r])
  {
    AppendValid(before, r);
    if ValidRecords(before + [r]) {
      var next := Note(seen, r);
      PendingCountAppend(before, r);
      assert next.archiveIDs == IDs(before + [r]);
      assert next.fileNames == FileNames(before + [r]);
      assert next.pendingCount == PendingCount(before + [r]);
    }
  }

  /** One record: accepted with the sets and counters brought up to date, or rejected. */
  method ScanRecord(seen: Seen, archive: Record, ghost before: seq<Record>) returns (r: Option<Seen>)
    requires HasSeen(seen, before)
    ensures r.Some? ==> HasSeen(r.value, before + [archive])
    ensures r.None? ==> !ValidRecords(before + [archive])
  {
    NoteNext(seen, before, archive);
    assert archive.order in seen.orders ==> archive.order <= seen.maximumOrder;
    var valid := ValidRecord(archive) && seen.maximumOrder < archive.order;
    var unseen := archive.archiveID !in seen.archiveIDs && archive.fileName !in seen.fileNames
      && archive.order !in seen.orders;
    r := if valid && unseen then Some(Note(seen, archive)) else None;
  }

  /** One pass over the records, filling sets of what was seen and counting pending ones. */
  method ValidateRecords(archives: seq<Record>) returns (ok: bool, maximumOrder: nat, pendingCount: nat)
    ensures ok <==> ValidRecords(archives)
    ensures ok ==> maximumOrder == LastOrder(archives)
    ensures ok ==> pendingCount == PendingCount(archives)
  {
    var seen := Seen({}, {}, {}, 0, 0);
    for i := 0 to |archives|
      invariant HasSeen(seen, archives[..i])
    {
      assert archives[..i + 1] == archives[..i] + [archives[i]];
      var next := ScanRecord(seen, archives[i], archives[..i]);
      if next.None? {
        PrefixValid(archives, i + 1);
        return false, 0, 0;
      }
      seen := next.value;
    }
    assert archives[..|archives|] == archives;
    return true, seen.maximumOrder, seen.pendingCount;
  }

  ghost predicate ValidRecords(archives: seq<Record>) {
    (forall r :: r in archives ==> ValidRecord(r)) && OrderedAndDistinct(archives)
  }

  function LastOrder(archives: seq<Record>): nat {
    if archives == [] then 0 else archives[|archives| - 1].order
  }

  lemma AppendValid(archives: seq<Record>, r: Record)
    ensures ValidRecords(archives + [r]) <==>
            && ValidRecords(archives) && ValidRecord(r) && LastOrder(archives) < r.order
            && r.archiveID !in IDs(archives) && r.fileName !in FileNames(archives)
    ensures IDs(archives + [r]) == IDs(archives) + {r.archiveID}
    ensures FileNames(archives + [r]) == FileNames(archives) + {r.fileName}
    ensures LastOrder(archives + [r]) == r.order
  {
    AppendOrdered(archives, r);
    assert r in archives + [r];
    if ValidRecords(archives + [r]) {
      forall x | x in archives ensures ValidRecord(x) {
        assert x in archives + [r];
      }
    }
  }

  lemma PrefixValid(archives: seq<Record>, n: nat)
    requires n <= |archives|
    ensures ValidRecords(archives) ==> ValidRecords(archives[..n])
  {
  }

  /** In a valid list no record is above the last one. */
  lemma LastIsHighest(archives: seq<Record>)
    requires OrderedAndDistinct(archives)
    ensures forall r :: r in archives ==> r.order <= LastOrder(archives)
  {
  }

  function IDs(archives: seq<Record>): set<string> {
    set r | r in archives :: r.archiveID
  }

  function FileNames(archives: seq<Record>): set<string> {
    set r | r in archives :: r.fileName
  }

  lemma AppendOrdered(archives: seq<Record>, r: Record)
    ensures OrderedAndDistinct(archives + [r]) <==>
            && OrderedAndDistinct(archives)
            && (archives != [] ==> archives[|archives| - 1].order < r.order)
            && r.archiveID !in IDs(archives) && r.fileName !in FileNames(archives)
    ensures IDs(archives + [r]) == IDs(archives) + {r.archiveID}
    ensures FileNames(archives + [r]) == FileNames(archives) + {r.fileName}
  {
    var all, n := archives + [r], |archives|;
    if OrderedAndDistinct(all) {
      forall i, j | 0 <= i < j < n
        ensures Precedes(archives[i], archives[j])
      {
        assert all[i] == archives[i] && all[j] == archives[j];
      }
      forall i | 0 <= i < n
        ensures Precedes(archives[i], r)
      {
        assert all[i] == archives[i] && all[n] == r;
      }
    }
  }

  function PendingCount(archives: seq<Record>): nat {
    if archives == [] then 0
    else PendingCount(archives[..|archives| - 1]) + if archives[|archives| - 1].lifecycle.PendingRemoval? then 1 else 0
  }

  lemma PendingCountAppend(archives: seq<Record>, r: Record)
    ensures PendingCount(archives + [r]) == PendingCount(archives) + if r.lifecycle.PendingRemoval? then 1 else 0
  {
  }

  /** A count of zero or one says there is none, or exactly one. */
  lemma {:induction false} CountedPending(archives: seq<Record>)
    ensures PendingCount(archives) == 0 <==> forall i :: 0 <= i < |archives| ==> !archives[i].lifecycle.PendingRemoval?
    ensures PendingCount(archives) == 1 <==> exists i :: OnlyPending(archives, i)
  {
    if archives == [] {
    } else {
      var n := |archives| - 1;
      var rest := archives[..n];
      CountedPending(rest);
      if archives[n].lifecycle.PendingRemoval? {
        if PendingCount(rest) == 0 {
          assert forall i :: 0 <= i < n ==> !rest[i].lifecycle.PendingRemoval?;
          assert OnlyPending(archives, n);
        } else {
          var i :| 0 <= i < n && rest[i].lifecycle.PendingRemoval?;
          assert archives[i].lifecycle.PendingRemoval?;
        }
      } else {
        forall i | 0 <= i < n ensures OnlyPending(rest, i) <==> OnlyPending(archives, i) {
          assert forall j :: 0 <= j < n ==> rest[j] == archives[j];
        }
      }
    }
  }

  ghost predicate OnlyPending(archives: seq<Record>, i: int) {
    && 0 <= i < |archives| && archives[i].lifecycle.PendingRemoval?
    && forall j :: 0 <= j < |archives| && j != i ==> !archives[j].lifecycle.PendingRemoval?
  }

  // ----- what makes a state invalid -----

  ghost predicate FaultyRecord(r: Record) {
    || Blank(r.archiveID) || Blank(r.fileName) || r.order == 0 || r.createdAt == 0
    || !IsDigestText(r.wholeDigest) || !IsDigestText(r.inventoryDigest)
    || (r.lifecycle != Confirmed && r.lifecycle != PendingRemoval)
  }

  /** Two records out of order, or sharing an identifier or a file name. */
  ghost predicate Clash(a: Record, b: Record) {
    a.order >= b.order || a.archiveID == b.archiveID || a.fileName == b.fileName
  }

  /** The removal names r by identifier, file name and order, and r alone is pending. */
  ghost predicate NamesOnlyPending(removal: Removal, archives: seq<Record>, r: Record) {
    && r in archives && r.lifecycle == PendingRemoval
    && removal == Removal(r.archiveID, r.fileName, r.order)
    && forall x :: x in archives && x.lifecycle == PendingRemoval ==> x == r
  }

  ghost predicate FaultyState(s: State) {
    || s.schemaVersion != 1 || Blank(s.destination) || Blank(s.source) || s.nextOrder == 0
    || (exists r :: r in s.archives && (FaultyRecord(r) || r.order >= s.nextOrder))
    || (exists i, j :: 0 <= i < j < |s.archives| && Clash(s.archives[i], s.archives[j]))
    || (s.pending.None? && exists r :: r in s.archives && r.lifecycle == PendingRemoval)
    || (s.pending.Some? && !exists r :: NamesOnlyPending(s.pending.value, s.archives, r))
  }

  /** A state is valid exactly if none of these faults is in it. */
  lemma ValidStateIff(s: State)
    ensures ValidState(s) <==> !FaultyState(s)
  {
    RecordsFaultless(s);
    OrderFaultless(s.archives);
    if OrderedAndDistinct(s.archives) { PendingFaultless(s.archives, s.pending); }
  }

  lemma RecordsFaultless(s: State)
    ensures (forall r :: r in s.archives ==> ValidRecord(r) && r.order < s.nextOrder) <==>
            !exists r :: r in s.archives && (FaultyRecord(r) || r.order >= s.nextOrder)
  {
    forall r: Record ensures ValidRecord(r) <==> !FaultyRecord(r) {
    }
  }

  lemma OrderFaultless(archives: seq<Record>)
    ensures OrderedAndDistinct(archives) <==>
            !exists i, j :: 0 <= i < j < |archives| && Clash(archives[i], archives[j])
  {
    forall a, b ensures Precedes(a, b) <==> !Clash(a, b) {
    }
  }

  lemma PendingFaultless(archives: seq<Record>, pending: Option<Removal>)
    requires OrderedAndDistinct(archives)
    ensures PendingMatches(archives, pending) <==>
            if pending.None? then !exists r :: r in archives && r.lifecycle == PendingRemoval
            else exists r :: NamesOnlyPending(pending.value, archives, r)
  {
    if pending.Some? {
      if i :| OnlyPending(archives, i) && Names(pending.value, archives[i]) {
        assert NamesOnlyPending(pending.value, archives, archives[i]);
      }
      if r :| NamesOnlyPending(pending.value, archives, r) {
        var i :| 0 <= i < |archives| && archives[i] == r;
        forall j | 0 <= j < |archives| && j != i ensures !archives[j].lifecycle.PendingRemoval? {
          assert if j < i then Precedes(archives[j], archives[i]) else Precedes(archives[i], archives[j]);
          assert archives[j] in archives;
        }
        assert OnlyPending(archives, i) && Names(pending.value, archives[i]);
      }
    }
  }
}
