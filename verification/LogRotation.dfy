/**
 The rotating log: an active file and four archives, shifted by renames.  The ghost trace
 records the files after every operation, so what holds throughout it survives a crash.
 */
module LogRotation {
  import opened Common

  const MAXIMUM_SIZE: nat := 10_000_000
  const MAXIMUM_ARCHIVES: nat := 4

  /** The non-empty pieces appended to a file, in order: whole records, or part of one after a failed write. */
  type Pieces = seq<Bytes>

  /** File 0 is the active one, file n the archive of generation n. */
  type LogFiles = map<nat, Pieces>

  function Size(pieces: Pieces): nat {
    if pieces == [] then 0 else Size(pieces[..|pieces| - 1]) + |pieces[|pieces| - 1]|
  }

  function PiecesOf(files: LogFiles, n: nat): Pieces {
    if n in files then files[n] else []
  }

  /** Generation n and everything younger, oldest first. */
  function UpTo(files: LogFiles, n: nat): Pieces {
    if n == 0 then PiecesOf(files, 0) else PiecesOf(files, n) + UpTo(files, n - 1)
  }

  function Content(files: LogFiles): Pieces {
    UpTo(files, MAXIMUM_ARCHIVES)
  }

  predicate IsSuffix(part: Pieces, whole: Pieces) {
    |part| <= |whole| && part == whole[|whole| - |part|..]
  }

  /** Small enough, or holding a single piece that was too large to begin with. */
  predicate WellSized(pieces: Pieces) {
    Size(pieces) <= MAXIMUM_SIZE || |pieces| == 1
  }

  /** What is on disk is the end of what was written, in order, in at most five well-sized files. */
  ghost predicate Consistent(files: LogFiles, written: Pieces) {
    && (forall n :: n in files ==> n <= MAXIMUM_ARCHIVES && WellSized(files[n]))
    && (forall n :: n in files ==> forall piece :: piece in files[n] ==> piece != [])
    && IsSuffix(Content(files), written)
  }

  /** The same written out: which files there are, how large they are, and what they hold together. */
  lemma ConsistentIff(files: LogFiles, written: Pieces)
    ensures Consistent(files, written) <==>
            && (forall n :: n in files ==> n <= 4 && (|files[n]| == 1 || Size(files[n]) <= 10_000_000))
            && (forall n :: n in files ==> forall piece :: piece in files[n] ==> piece != [])
            && exists lost :: written ==
                 lost + (PiecesOf(files, 4) + (PiecesOf(files, 3) + (PiecesOf(files, 2) +
                         (PiecesOf(files, 1) + PiecesOf(files, 0)))))
  {
    var kept := PiecesOf(files, 4) + (PiecesOf(files, 3) + (PiecesOf(files, 2) +
                (PiecesOf(files, 1) + PiecesOf(files, 0))));
    assert Content(files) == kept by {
      assert UpTo(files, 0) == PiecesOf(files, 0);
      assert UpTo(files, 1) == PiecesOf(files, 1) + UpTo(files, 0);
      assert UpTo(files, 2) == PiecesOf(files, 2) + UpTo(files, 1);
      assert UpTo(files, 3) == PiecesOf(files, 3) + UpTo(files, 2);
    }
    assert IsSuffix(kept, written) <==> exists lost :: written == lost + kept by {
      if IsSuffix(kept, written) { assert written == written[..|written| - |kept|] + kept; }
    }
  }

  function Slot(files: LogFiles, n: nat): Option<Pieces> {
    if n in files then Some(files[n]) else None
  }

  /** The files after a rotation in which nothing fails. */
  function Rotated(files: LogFiles): (r: LogFiles)
    ensures forall n: nat :: Slot(r, n) == if 1 <= n <= MAXIMUM_ARCHIVES then Slot(files, n - 1) else None
  {
    var keys := set m | m in files.Keys && m < MAXIMUM_ARCHIVES :: m + 1;
    var r := map n: nat | n in keys :: files[n - 1];
    forall n: nat ensures Slot(r, n) == if 1 <= n <= MAXIMUM_ARCHIVES then Slot(files, n - 1) else None {
      if 1 <= n <= MAXIMUM_ARCHIVES && n - 1 in files { assert n in keys; }
    }
    r
  }

  datatype Snapshot = Snapshot(files: LogFiles, written: Pieces)

  class RotatingLog {
    var files: LogFiles
    /** Every piece ever appended. */
    ghost var written: Pieces
    ghost var trace: seq<Snapshot>
    var faulted: bool

    constructor ()
      ensures Valid() && files == map[] && written == [] && !faulted
    {
      files, written, trace, faulted := map[], [], [Snapshot(map[], [])], false;
      new;
      assert UpTo(files, 0) == [] && UpTo(files, 1) == [] && UpTo(files, 2) == [] && UpTo(files, 3) == [];
    }

    ghost predicate Valid()
      reads this`files, this`written, this`trace
    {
      && trace != [] && trace[|trace| - 1] == Snapshot(files, written)
      && forall i :: 0 <= i < |trace| ==> Consistent(trace[i].files, trace[i].written)
    }

    method Attempt() returns (ok: bool)
      modifies this`faulted
      ensures if ok then faulted == old(faulted) else faulted
    {
      ok := true;
      if * { faulted, ok := true, false; }
    }

    /** os.Remove; a missing file is fine. */
    method Remove(n: nat) returns (ok: bool)
      requires Valid() && n == MAXIMUM_ARCHIVES
      modifies this
      ensures Valid() && old(trace) <= trace && written == old(written)
      ensures ok ==> files == old(files) - {n} && faulted == old(faulted)
      ensures !ok ==> files == old(files) && faulted
    {
      ok := Attempt();
      if ok {
        RemoveOldestConsistent(files, written);
        files := files - {n};
        trace := trace + [Snapshot(files, written)];
      }
    }

    /** os.Rename of one generation to the next, which must be free; a missing source is reported. */
    method Rename(n: nat) returns (ok: bool, missing: bool)
      requires Valid() && n < MAXIMUM_ARCHIVES && n + 1 !in files
      modifies this
      ensures Valid() && old(trace) <= trace && written == old(written)
      ensures missing ==> !ok && n !in files && files == old(files) && faulted == old(faulted)
      ensures ok ==> n in old(files) && files == Moved(old(files), n) && faulted == old(faulted)
      ensures !ok && !missing ==> files == old(files) && faulted
    {
      missing := false;
      ok := Attempt();
      if !ok { return; }
      if n !in files { return false, true; }
      MoveConsistent(files, n, written);
      files := Moved(files, n);
      trace := trace + [Snapshot(files, written)];
    }

    /** Shift every archive up by one, oldest first, and make the active file the first archive. */
    method Rotate() returns (ok: bool)
      requires Valid()
      modifies this
      ensures Valid() && old(trace) <= trace && written == old(written)
      ensures ok ==> files == Rotated(old(files)) && 0 in old(files)
      ensures !faulted ==> (ok <==> 0 in old(files))
      ensures old(faulted) ==> faulted
    {
      ghost var start := files;
      ok := Remove(MAXIMUM_ARCHIVES);
      if !ok { return; }
      ShiftBegins(start);
      var generation := MAXIMUM_ARCHIVES - 1;
      while generation >= 1
        invariant 0 <= generation <= MAXIMUM_ARCHIVES - 1
        invariant Valid() && old(trace) <= trace && written == old(written) && faulted == old(faulted)
        invariant Shifted(start, files, generation)
      {
        ShiftNext(start, files, generation);
        var renamed, missing := Rename(generation);
        if !renamed && !missing { return false; }
        generation := generation - 1;
      }
      ShiftLast(start, files);
      var archived, _ := Rename(0);
      ok := archived;
    }

    /** Append to the active file; a failed append has written some of the record. */
    method Append(record: Bytes) returns (ok: bool)
      requires Valid()
      requires Size(PiecesOf(files, 0)) + |record| <= MAXIMUM_SIZE || PiecesOf(files, 0) == []
      modifies this
      ensures Valid() && old(trace) <= trace
      ensures ok ==> files == old(files)[0 := PiecesOf(old(files), 0) + Piece(record)]
      ensures ok ==> written == old(written) + Piece(record) && faulted == old(faulted)
      ensures !ok ==> faulted && exists n :: 0 <= n <= |record| && written == old(written) + Piece(record[..n])
      ensures forall n :: n != 0 && n in old(files) ==> n in files && files[n] == old(files)[n]
    {
      ok := Attempt();
      if ok {
        assert record == record[..|record|];
        Extend(record, |record|);
      } else if * {
        assert Piece(record[..0]) == [] && written == written + [];
      } else {
        var n: int := *;
        Extend(record, if 0 <= n <= |record| then n else |record|);
      }
    }

    /** The first n bytes of the record reach the active file. */
    method Extend(record: Bytes, n: nat)
      requires Valid() && n <= |record|
      requires Size(PiecesOf(files, 0)) + |record| <= MAXIMUM_SIZE || PiecesOf(files, 0) == []
      modifies this`files, this`written, this`trace
      ensures Valid() && old(trace) <= trace
      ensures files == old(files)[0 := PiecesOf(old(files), 0) + Piece(record[..n])]
      ensures written == old(written) + Piece(record[..n])
    {
      AppendConsistent(files, record[..n], record, written);
      files := files[0 := PiecesOf(files, 0) + Piece(record[..n])];
      written := written + Piece(record[..n]);
      trace := trace + [Snapshot(files, written)];
    }

    /** One log record: rotate first if it would not fit behind what is there. */
    method Write(record: Bytes) returns (ok: bool)
      requires Valid()
      modifies this
      ensures Valid() && old(trace) <= trace
      ensures ok ==> written == old(written) + if record == [] then [] else [record]
      ensures ok && (PiecesOf(old(files), 0) == [] || Size(PiecesOf(old(files), 0)) + |record| <= 10_000_000) ==>
        && files == old(files)[0 := PiecesOf(old(files), 0) + if record == [] then [] else [record]]
        && Content(files) == Content(old(files)) + if record == [] then [] else [record]
      ensures ok && PiecesOf(old(files), 0) != [] && Size(PiecesOf(old(files), 0)) + |record| > 10_000_000 ==>
        && 0 in files && files[0] == (if record == [] then [] else [record])
        && OneOn(old(files), files, 1) && OneOn(old(files), files, 2)
        && OneOn(old(files), files, 3) && OneOn(old(files), files, 4)
        && forall n :: n in files ==> n <= 4
      ensures !faulted ==> ok
      ensures old(faulted) ==> faulted
    {
      var reachable := Attempt();
      if !reachable { return false; }
      RecordFits(files, record);
      RecordAlone(files, record);
      if Overflows(files, record) {
        var rotated := Rotate();
        if !rotated { return false; }
      }
      ok := Append(record);
    }
  }

  /** The active file is not empty and the record would take it over the limit. */
  predicate Overflows(files: LogFiles, record: Bytes) {
    Size(PiecesOf(files, 0)) > 0 && Size(PiecesOf(files, 0)) + |record| > MAXIMUM_SIZE
  }

  /** Appending to the active file appends to all there is. */
  lemma RecordFits(files: LogFiles, record: Bytes)
    requires forall n :: n in files ==> forall piece :: piece in files[n] ==> piece != []
    ensures Overflows(files, record) <==>
            PiecesOf(files, 0) != [] && Size(PiecesOf(files, 0)) + |record| > 10_000_000
    ensures Content(files[0 := PiecesOf(files, 0) + Piece(record)]) == Content(files) + Piece(record)
  {
    NoEmptyPieces(files);
    AppendedUpTo(files, Piece(record), MAXIMUM_ARCHIVES);
  }

  /** After a rotation the record is alone in the active file. */
  lemma RecordAlone(files: LogFiles, record: Bytes)
    ensures PiecesOf(Rotated(files), 0) == [] && [] + Piece(record) == Piece(record)
    ensures var after := Rotated(files)[0 := Piece(record)];
            OneOn(files, after, 1) && OneOn(files, after, 2) && OneOn(files, after, 3) && OneOn(files, after, 4)
  {
    assert Slot(Rotated(files), 0) == None;
    RotatedOneOn(files, Piece(record), 1);
    RotatedOneOn(files, Piece(record), 2);
    RotatedOneOn(files, Piece(record), 3);
    RotatedOneOn(files, Piece(record), 4);
  }

  /** Generation n is what the one below it was before. */
  ghost predicate OneOn(before: LogFiles, after: LogFiles, n: nat)
    requires n > 0
  {
    (n in after <==> n - 1 in before) && (n in after ==> after[n] == before[n - 1])
  }

  lemma RotatedOneOn(files: LogFiles, active: Pieces, n: nat)
    requires 1 <= n <= 4
    ensures OneOn(files, Rotated(files)[0 := active], n)
  {
    assert Slot(Rotated(files), n) == Slot(files, n - 1);
  }

  /** A file of size zero holds no pieces. */
  lemma NoEmptyPieces(files: LogFiles)
    requires forall n :: n in files ==> forall piece :: piece in files[n] ==> piece != []
    ensures Size(PiecesOf(files, 0)) == 0 ==> PiecesOf(files, 0) == []
  {
    var pieces := PiecesOf(files, 0);
    if pieces != [] { assert pieces[|pieces| - 1] in pieces; }
  }

  function Piece(text: Bytes): Pieces {
    if text == [] then [] else [text]
  }

  function Moved(files: LogFiles, n: nat): LogFiles {
    if n in files then (files - {n})[n + 1 := files[n]] else files
  }

  /** Generation n while generations above g have been shifted: g + 1 is free. */
  ghost predicate ShiftedSlot(start: LogFiles, now: LogFiles, g: nat, n: nat) {
    Slot(now, n) ==
    if n > MAXIMUM_ARCHIVES || n == g + 1 then None else if n > g then Slot(start, n - 1) else Slot(start, n)
  }

  ghost predicate Shifted(start: LogFiles, now: LogFiles, g: nat) {
    forall n: nat :: ShiftedSlot(start, now, g, n)
  }

  lemma ShiftBegins(start: LogFiles)
    requires forall n :: n in start ==> n <= MAXIMUM_ARCHIVES
    ensures Shifted(start, start - {MAXIMUM_ARCHIVES}, MAXIMUM_ARCHIVES - 1)
  {
  }

  lemma MovedSlot(files: LogFiles, g: nat, n: nat)
    requires g + 1 !in files
    ensures Slot(Moved(files, g), n) == if n == g + 1 then Slot(files, g) else if n == g then None else Slot(files, n)
  {
  }

  lemma ShiftNext(start: LogFiles, now: LogFiles, g: nat)
    requires Shifted(start, now, g) && 1 <= g < MAXIMUM_ARCHIVES
    ensures g + 1 !in now && Shifted(start, Moved(now, g), g - 1)
  {
    assert ShiftedSlot(start, now, g, g + 1) && ShiftedSlot(start, now, g, g);
    var after, lower := Moved(now, g), g - 1;
    forall n: nat ensures ShiftedSlot(start, after, lower, n) {
      assert ShiftedSlot(start, now, g, n);
      MovedSlot(now, g, n);
    }
  }

  lemma ShiftLast(start: LogFiles, now: LogFiles)
    requires Shifted(start, now, 0)
    ensures 1 !in now && (0 in now <==> 0 in start)
    ensures 0 in now ==> Moved(now, 0) == Rotated(start)
  {
    assert ShiftedSlot(start, now, 0, 1) && ShiftedSlot(start, now, 0, 0);
    var after, r := Moved(now, 0), Rotated(start);
    if 0 in now {
      forall n: nat ensures Slot(after, n) == Slot(r, n) {
        assert ShiftedSlot(start, now, 0, n);
        MovedSlot(now, 0, n);
      }
      SameSlots(after, r);
    }
  }

  lemma SameSlots(a: LogFiles, b: LogFiles)
    requires forall n: nat :: Slot(a, n) == Slot(b, n)
    ensures a == b
  {
    forall n: nat ensures n in a <==> n in b { assert Slot(a, n) == Slot(b, n); }
    forall n: nat | n in a ensures a[n] == b[n] { assert Slot(a, n) == Slot(b, n); }
  }

  lemma {:induction false} SizeAppend(pieces: Pieces, piece: Bytes)
    ensures Size(pieces + [piece]) == Size(pieces) + |piece|
  {
  }

  lemma FitsWhenAppended(pieces: Pieces, record: Bytes)
    requires WellSized(pieces) && (Size(pieces) + |record| <= MAXIMUM_SIZE || pieces == [])
    ensures WellSized(pieces + Piece(record))
  {
    if record != [] { SizeAppend(pieces, record); } else { assert pieces + Piece(record) == pieces; }
  }

  lemma RemoveOldestConsistent(files: LogFiles, written: Pieces)
    requires Consistent(files, written)
    ensures Consistent(files - {MAXIMUM_ARCHIVES}, written)
  {
    var after := files - {MAXIMUM_ARCHIVES};
    SameUpTo(files, after, 3);
    assert Content(files) == PiecesOf(files, 4) + UpTo(files, 3);
    assert Content(after) == [] + UpTo(after, 3);
  }

  lemma {:induction false} SameUpTo(a: LogFiles, b: LogFiles, n: nat)
    requires forall k: nat :: k <= n ==> PiecesOf(a, k) == PiecesOf(b, k)
    ensures UpTo(a, n) == UpTo(b, n)
  {
    if n == 0 {
    } else {
      SameUpTo(a, b, n - 1);
    }
  }

  /** Moving a file to the free name above it changes nothing in the order of what is kept. */
  lemma {:induction false} MovedUpTo(files: LogFiles, n: nat, m: nat)
    requires n + 1 !in files && m >= n + 1
    ensures UpTo(Moved(files, n), m) == UpTo(files, m)
  {
    var after := Moved(files, n);
    if m == n + 1 {
      if n > 0 { SameUpTo(files, after, n - 1); }
      assert PiecesOf(after, n + 1) == PiecesOf(files, n) && PiecesOf(after, n) == [] && PiecesOf(files, n + 1) == [];
    } else {
      MovedUpTo(files, n, m - 1);
    }
  }

  lemma MoveConsistent(files: LogFiles, n: nat, written: Pieces)
    requires Consistent(files, written) && n < MAXIMUM_ARCHIVES && n in files && n + 1 !in files
    ensures Consistent(Moved(files, n), written)
  {
    MovedUpTo(files, n, MAXIMUM_ARCHIVES);
  }

  lemma {:induction false} AppendedUpTo(files: LogFiles, more: Pieces, n: nat)
    ensures UpTo(files[0 := PiecesOf(files, 0) + more], n) == UpTo(files, n) + more
  {
    var after := files[0 := PiecesOf(files, 0) + more];
    if n == 0 {
    } else {
      AppendedUpTo(files, more, n - 1);
      assert PiecesOf(files, n) + (UpTo(files, n - 1) + more) == PiecesOf(files, n) + UpTo(files, n - 1) + more;
    }
  }

  lemma SuffixGrows(part: Pieces, whole: Pieces, more: Pieces)
    requires IsSuffix(part, whole)
    ensures IsSuffix(part + more, whole + more)
  {
  }

  lemma AppendConsistent(files: LogFiles, part: Bytes, record: Bytes, written: Pieces)
    requires Consistent(files, written) && |part| <= |record|
    requires Size(PiecesOf(files, 0)) + |record| <= MAXIMUM_SIZE || PiecesOf(files, 0) == []
    ensures Consistent(files[0 := PiecesOf(files, 0) + Piece(part)], written + Piece(part))
  {
    FitsWhenAppended(PiecesOf(files, 0), part);
    AppendedUpTo(files, Piece(part), MAXIMUM_ARCHIVES);
    SuffixGrows(Content(files), written, Piece(part));
  }
}
