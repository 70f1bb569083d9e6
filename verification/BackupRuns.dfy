/**
 What every run of file operations keeps, whichever cycles they belong to and wherever
 those cycles failed or crashed.
 */
module BackupRuns {
  import opened Common
  import opened Sorting
  import opened BackupIdentity
  import opened BackupState
  import opened BackupWorld

  // ----- states stay valid -----

  lemma OrderedTail(archives: seq<Record>)
    requires archives != []
    ensures OrderedAndDistinct(archives) <==>
            OrderedAndDistinct(archives[1..]) && forall r :: r in archives[1..] ==> Precedes(archives[0], r)
  {
  }

  lemma {:induction false} ConfirmedOnlyOrdered(archives: seq<Record>)
    requires OrderedAndDistinct(archives)
    ensures OrderedAndDistinct(ConfirmedOnly(archives))
  {
    if archives == [] {
    } else {
      OrderedTail(archives);
      ConfirmedOnlyOrdered(archives[1..]);
      var kept := ConfirmedOnly(archives);
      if archives[0].lifecycle.Confirmed? {
        assert kept[0] == archives[0] && kept[1..] == ConfirmedOnly(archives[1..]);
        OrderedTail(kept);
      } else {
        assert kept == ConfirmedOnly(archives[1..]);
      }
    }
  }

  lemma {:induction false} ConfirmedOnlyAppend(archives: seq<Record>, r: Record)
    ensures ConfirmedOnly(archives + [r]) == ConfirmedOnly(archives) + if r.lifecycle.Confirmed? then [r] else []
  {
    if archives == [] {
      assert [r][1..] == [];
    } else {
      ConfirmedOnlyAppend(archives[1..], r);
      AppendedTail(archives, r);
      Associative(if archives[0].lifecycle.Confirmed? then [archives[0]] else [], ConfirmedOnly(archives[1..]),
                  if r.lifecycle.Confirmed? then [r] else []);
    }
  }

  lemma Associative<T>(a: seq<T>, b: seq<T>, c: seq<T>)
    ensures a + (b + c) == a + b + c
  {
  }

  lemma AppendedTail(archives: seq<Record>, r: Record)
    requires archives != []
    ensures ConfirmedOnly(archives + [r])
         == (if archives[0].lifecycle.Confirmed? then [archives[0]] else []) + ConfirmedOnly(archives[1..] + [r])
  {
    assert (archives + [r])[1..] == archives[1..] + [r];
  }

  lemma DroppedIsValid(s: State)
    requires ValidState(s)
    ensures ValidState(WithoutPending(s))
  {
    ConfirmedOnlyOrdered(s.archives);
  }

  lemma MarkedIsValid(s: State)
    requires ValidState(s) && s.pending.None? && s.archives != []
    ensures ValidState(WithMarked(s, 0))
  {
    var marked := WithMarked(s, 0);
    forall r | r in marked.archives ensures ValidRecord(r) && r.order < s.nextOrder {
      var i :| 0 <= i < |marked.archives| && marked.archives[i] == r;
      assert s.archives[i] in s.archives;
    }
    forall j | 0 < j < |s.archives| ensures !marked.archives[j].lifecycle.PendingRemoval? {
      assert s.archives[j] in s.archives;
    }
    assert OnlyPending(marked.archives, 0) && Names(marked.pending.value, marked.archives[0]);
  }

  /** The archive pending removal is nobody else's file. */
  lemma PendingFileIsItsOwn(s: State, r: Record)
    requires ValidState(s) && s.pending.Some? && r in s.archives && r.lifecycle.Confirmed?
    ensures r.fileName != s.pending.value.fileName && r.archiveID != s.pending.value.archiveID
  {
  }

  // ----- one operation -----

  lemma StepKeepsInvariant(w: World, step: Step, setting: Setting)
    requires Invariant(w, setting) && Enabled(w, step, setting)
    ensures Invariant(Apply(w, step, setting), setting)
  {
    match step
    case SaveConfirmed(r, source) => ConfirmKeepsInvariant(w, r, source, setting);
    case SaveMarked => MarkKeepsInvariant(w, setting);
    case DeletePending => DeleteKeepsInvariant(w, setting);
    case SaveDropped => DroppedIsValid(w.persisted.value);
    case _ =>
  }

  lemma ConfirmKeepsInvariant(w: World, r: Record, source: string, setting: Setting)
    requires Invariant(w, setting) && Enabled(w, SaveConfirmed(r, source), setting)
    ensures Invariant(Apply(w, SaveConfirmed(r, source), setting), setting)
  {
    var before, after := StateOrFresh(w, setting), WithConfirmed(StateOrFresh(w, setting), r, source);
    forall x | x in after.archives && (x.lifecycle.Confirmed? || x.fileName in w.Files())
      ensures RecordIntact(w.Files(), x, source, setting)
    {
      if x != r { assert x in before.archives; }
    }
  }

  lemma MarkKeepsInvariant(w: World, setting: Setting)
    requires Invariant(w, setting) && Enabled(w, SaveMarked, setting)
    ensures Invariant(Apply(w, SaveMarked, setting), setting)
  {
    var s := w.persisted.value;
    MarkedIsValid(s);
    forall x | x in WithMarked(s, 0).archives && (x.lifecycle.Confirmed? || x.fileName in w.Files())
      ensures RecordIntact(w.Files(), x, s.source, setting)
    {
      var i :| 0 <= i < |s.archives| && WithMarked(s, 0).archives[i] == x;
      assert s.archives[i] in s.archives && s.archives[i].lifecycle.Confirmed?;
    }
  }

  lemma DeleteKeepsInvariant(w: World, setting: Setting)
    requires Invariant(w, setting) && Enabled(w, DeletePending, setting)
    ensures Invariant(Apply(w, DeletePending, setting), setting)
  {
    var s, files := w.persisted.value, Apply(w, DeletePending, setting).Files();
    forall x | x in s.archives && (x.lifecycle.Confirmed? || x.fileName in files)
      ensures RecordIntact(files, x, s.source, setting)
    {
      if x.lifecycle.Confirmed? { PendingFileIsItsOwn(s, x); }
    }
  }

  lemma MarkKeepsArchives(s: State)
    requires s.archives != []
    ensures ArchivesOf(WithMarked(s, 0)) == ArchivesOf(s)
  {
    var marked := WithMarked(s, 0);
    forall a | a in ArchivesOf(marked) ensures a in ArchivesOf(s) {
      var i :| 0 <= i < |s.archives| && ArchiveOf(marked.archives[i]) == a;
      assert s.archives[i] in s.archives && ArchiveOf(s.archives[i]) == a;
    }
    forall a | a in ArchivesOf(s) ensures a in ArchivesOf(marked) {
      var i :| 0 <= i < |s.archives| && ArchiveOf(s.archives[i]) == a;
      assert marked.archives[i] in marked.archives && ArchiveOf(marked.archives[i]) == a;
    }
  }

  lemma StepFollows(w: World, step: Step, setting: Setting)
    requires Enabled(w, step, setting)
    ensures Follows(w, Apply(w, step, setting))
  {
    if w.persisted.Some? {
      if step.SaveMarked? { MarkKeepsArchives(w.persisted.value); }
      if step.SaveConfirmed? {
        var before, after := w.persisted.value, WithConfirmed(w.persisted.value, step.record, step.source);
        forall a | a in ArchivesOf(after) ensures a in ArchivesOf(before) || a == ArchiveOf(step.record) {
          var r :| r in after.archives && ArchiveOf(r) == a;
          assert r in before.archives || r == step.record;
        }
      }
    }
  }

  lemma {:induction false} ConfirmedOnlyShorter(archives: seq<Record>)
    ensures |ConfirmedOnly(archives)| <= |archives|
  {
    if archives == [] {
    } else {
      ConfirmedOnlyShorter(archives[1..]);
    }
  }

  lemma StepKeepsBounded(w: World, step: Step, setting: Setting)
    requires Bounded(w, setting) && Enabled(w, step, setting)
    ensures Bounded(Apply(w, step, setting), setting)
  {
    if step.SaveDropped? { ConfirmedOnlyShorter(w.persisted.value.archives); }
  }

  // ----- whole runs -----

  /** The invariant and the bound hold after every operation of every run. */
  lemma AllowedKeeps(w: World, w': World, setting: Setting)
    requires Allowed(w, w', setting)
    ensures Invariant(w, setting) ==> Invariant(w', setting)
    ensures Bounded(w, setting) ==> Bounded(w', setting)
    ensures Follows(w, w')
  {
    var step :| Enabled(w, step, setting) && w' == Apply(w, step, setting);
    if Invariant(w, setting) { StepKeepsInvariant(w, step, setting); }
    if Bounded(w, setting) { StepKeepsBounded(w, step, setting); }
    StepFollows(w, step, setting);
  }

  lemma RunKeepsInvariant(trace: seq<World>, setting: Setting, i: nat)
    requires IsRun(trace, setting) && i < |trace|
    requires Invariant(trace[0], setting)
    ensures Invariant(trace[i], setting)
    ensures Bounded(trace[0], setting) ==> Bounded(trace[i], setting)
  {
    forall k: nat | k < i
      ensures Invariant(trace[k], setting) ==> Invariant(trace[k + 1], setting)
      ensures Bounded(trace[k], setting) ==> Bounded(trace[k + 1], setting)
    {
      AllowedKeeps(trace[k], trace[k + 1], setting);
    }
    Throughout(trace, w => Invariant(w, setting), 0, i);
    if Bounded(trace[0], setting) { Throughout(trace, w => Bounded(w, setting), 0, i); }
  }

  lemma RunFollows(trace: seq<World>, setting: Setting, i: nat, j: nat)
    requires IsRun(trace, setting) && i <= j < |trace|
    ensures Follows(trace[i], trace[j])
  {
    var first := trace[i];
    forall k: nat | i <= k < j && Follows(first, trace[k]) ensures Follows(first, trace[k + 1]) {
      AllowedKeeps(trace[k], trace[k + 1], setting);
      FollowsTransitive(first, trace[k], trace[k + 1]);
    }
    Throughout(trace, w => Follows(first, w), i, j);
  }

  /**
   An archive that appears anywhere in a run has an order strictly above every order any
   earlier world of the run held, the ones deleted since included.
   */
  lemma OrdersNeverReused(trace: seq<World>, setting: Setting, j: nat, i: nat, older: Record, newer: Record)
    requires IsRun(trace, setting) && Invariant(trace[0], setting) && j <= i && i + 1 < |trace|
    requires trace[j].persisted.Some? && older in trace[j].persisted.value.archives
    requires trace[i + 1].persisted.Some? && newer in trace[i + 1].persisted.value.archives
    requires trace[i].persisted.Some? ==> ArchiveOf(newer) !in ArchivesOf(trace[i].persisted.value)
    ensures older.order < newer.order
  {
    RunKeepsInvariant(trace, setting, j);
    RunFollows(trace, setting, j, i);
    RunFollows(trace, setting, i, i + 1);
    assert ArchiveOf(newer) in ArchivesOf(trace[i + 1].persisted.value);
  }

  /** A run cut off anywhere and continued from where it was cut off is a run. */
  lemma CrashAndContinue(before: seq<World>, crashAt: nat, after: seq<World>, setting: Setting)
    requires IsRun(before, setting) && IsRun(after, setting) && crashAt < |before|
    requires after[0] == before[crashAt]
    ensures IsRun(before[..crashAt] + after, setting)
  {
    var whole := before[..crashAt] + after;
    forall i | 0 <= i < |whole| - 1 ensures Allowed(whole[i], whole[i + 1], setting) {
      if i + 1 < crashAt {
        assert Allowed(before[i], before[i + 1], setting);
      } else if i + 1 == crashAt {
        assert Allowed(before[i], before[i + 1], setting);
        assert whole[i + 1] == after[0];
      } else {
        assert Allowed(after[i - crashAt], after[i - crashAt + 1], setting);
      }
    }
  }

  /** At the end of the counter's range no confirmation can be saved. */
  lemma CounterNeverWraps(s: State, r: Record, source: string)
    requires s.nextOrder == MAXIMUM_UINT64
    ensures !ValidState(WithConfirmed(s, r, source))
  {
  }

  // ----- what retention is heading for -----

  function Newest(archives: seq<Record>, k: nat): seq<Record> {
    if |archives| <= k then archives else archives[|archives| - k..]
  }

  /** The newest k records that are not on their way out. */
  function Kept(s: State, k: nat): seq<Record> {
    Newest(ConfirmedOnly(s.archives), k)
  }

  function Expired(s: State, k: nat): set<string> {
    FileNames(s.archives) - FileNames(Kept(s, k))
  }

  /** Only the newest k records are left, and of the recorded files only theirs. */
  function RetentionGoal(w: World, k: nat): World {
    if w.persisted.None? then w
    else
      var s := w.persisted.value;
      World(Some(s.(archives := Kept(s, k), pending := None)),
            if w.directory.None? then None else Some(w.directory.value - Expired(s, k)))
  }

  lemma {:induction false} AllConfirmed(archives: seq<Record>)
    requires forall r :: r in archives ==> r.lifecycle.Confirmed?
    ensures ConfirmedOnly(archives) == archives
  {
    if archives == [] {
    } else {
      AllConfirmed(archives[1..]);
    }
  }

  lemma ValidUnlessPending(s: State)
    requires ValidState(s) && s.pending.None?
    ensures ConfirmedOnly(s.archives) == s.archives
  {
    AllConfirmed(s.archives);
  }

  lemma {:induction false} ConfirmedOnlyIdempotent(archives: seq<Record>)
    ensures ConfirmedOnly(ConfirmedOnly(archives)) == ConfirmedOnly(archives)
  {
    AllConfirmed(ConfirmedOnly(archives));
  }

  lemma SameGoal(a: World, b: World, k: nat)
    requires a.persisted.Some? && b.persisted.Some? && (a.directory.Some? <==> b.directory.Some?)
    requires a.persisted.value.(archives := [], pending := None) == b.persisted.value.(archives := [], pending := None)
    requires Kept(a.persisted.value, k) == Kept(b.persisted.value, k)
    requires a.Files() - Expired(a.persisted.value, k) == b.Files() - Expired(b.persisted.value, k)
    ensures RetentionGoal(a, k) == RetentionGoal(b, k)
  {
  }

  /** Nothing pending and nothing too many: the goal is reached. */
  lemma GoalReached(w: World, k: nat)
    requires w.persisted.Some? && ValidState(w.persisted.value) && w.persisted.value.pending.None?
    requires |w.persisted.value.archives| <= k
    ensures RetentionGoal(w, k) == w
  {
    ValidUnlessPending(w.persisted.value);
    assert Expired(w.persisted.value, k) == {};
    assert w.Files() - {} == w.Files();
  }

  lemma NewestOfTail(archives: seq<Record>, k: nat)
    requires |archives| > k
    ensures Newest(archives[1..], k) == Newest(archives, k)
  {
  }

  lemma MarkedConfirmed(s: State)
    requires ValidState(s) && s.pending.None? && s.archives != []
    ensures ConfirmedOnly(WithMarked(s, 0).archives) == s.archives[1..]
  {
    assert forall r :: r in s.archives[1..] ==> r in s.archives;
    AllConfirmed(s.archives[1..]);
    assert WithMarked(s, 0).archives[1..] == s.archives[1..];
  }

  lemma MarkKeepsKept(s: State, k: nat)
    requires ValidState(s) && s.pending.None? && |s.archives| > k
    ensures Kept(WithMarked(s, 0), k) == Kept(s, k)
  {
    ValidUnlessPending(s);
    MarkedConfirmed(s);
    NewestOfTail(s.archives, k);
  }

  lemma MarkKeepsGoal(w: World, setting: Setting)
    requires Enabled(w, SaveMarked, setting)
    ensures RetentionGoal(Apply(w, SaveMarked, setting), setting.retention) == RetentionGoal(w, setting.retention)
  {
    var s, k := w.persisted.value, setting.retention;
    MarkKeepsKept(s, k);
    SameFileNames(s.archives, WithMarked(s, 0).archives);
    SameGoal(Apply(w, SaveMarked, setting), w, k);
  }

  lemma SameFileNames(a: seq<Record>, b: seq<Record>)
    requires |a| == |b| && forall i :: 0 <= i < |a| ==> a[i].fileName == b[i].fileName
    ensures FileNames(a) == FileNames(b)
  {
  }

  lemma DeleteKeepsGoal(w: World, setting: Setting, k: nat)
    requires Enabled(w, DeletePending, setting)
    ensures RetentionGoal(Apply(w, DeletePending, setting), k) == RetentionGoal(w, k)
  {
    var s := w.persisted.value;
    PendingIsExpired(s, k);
    assert w.Files() - {s.pending.value.fileName} - Expired(s, k) == w.Files() - Expired(s, k);
    SameGoal(Apply(w, DeletePending, setting), w, k);
  }

  lemma PendingIsExpired(s: State, k: nat)
    requires ValidState(s) && s.pending.Some?
    ensures s.pending.value.fileName in Expired(s, k)
  {
    var i :| OnlyPending(s.archives, i) && Names(s.pending.value, s.archives[i]);
    assert s.archives[i] in s.archives;
    forall r | r in Kept(s, k) ensures r.fileName != s.pending.value.fileName {
      assert r in ConfirmedOnly(s.archives);
      PendingFileIsItsOwn(s, r);
    }
  }

  lemma DroppedNames(s: State)
    requires ValidState(s) && s.pending.Some?
    ensures FileNames(s.archives) == FileNames(ConfirmedOnly(s.archives)) + {s.pending.value.fileName}
  {
    var i :| OnlyPending(s.archives, i) && Names(s.pending.value, s.archives[i]);
    assert s.archives[i] in s.archives;
    forall x | x in FileNames(s.archives)
      ensures x in FileNames(ConfirmedOnly(s.archives)) || x == s.pending.value.fileName
    {
      var j :| 0 <= j < |s.archives| && s.archives[j].fileName == x;
      assert s.archives[j] in s.archives && ValidRecord(s.archives[j]);
      if j != i { assert s.archives[j] in ConfirmedOnly(s.archives); }
    }
  }

  lemma ExpiredAfterDrop(s: State, k: nat)
    requires ValidState(s) && s.pending.Some?
    ensures Kept(WithoutPending(s), k) == Kept(s, k)
    ensures Expired(s, k) == Expired(WithoutPending(s), k) + {s.pending.value.fileName}
  {
    ConfirmedOnlyIdempotent(s.archives);
    DroppedNames(s);
    PendingIsExpired(s, k);
  }

  lemma DropKeepsGoal(w: World, setting: Setting, k: nat)
    requires Enabled(w, SaveDropped, setting)
    ensures RetentionGoal(Apply(w, SaveDropped, setting), k) == RetentionGoal(w, k)
  {
    var s := w.persisted.value;
    ExpiredAfterDrop(s, k);
    assert w.Files() - Expired(s, k) == w.Files() - Expired(WithoutPending(s), k);
    SameGoal(Apply(w, SaveDropped, setting), w, k);
  }

  /** What is to be kept is recorded now, and its file is as the goal has it. */
  lemma KeptIsIntact(w: World, k: nat, r: Record)
    requires w.persisted.Some? && r in RetentionGoal(w, k).persisted.value.archives
    ensures r in w.persisted.value.archives
    ensures r.fileName in w.Files() <==> r.fileName in RetentionGoal(w, k).Files()
    ensures r.fileName in w.Files() ==> w.Files()[r.fileName] == RetentionGoal(w, k).Files()[r.fileName]
  {
  }

  // ----- what failures can cost -----

  /** k archives newer than r are confirmed. */
  ghost predicate Outlived(r: Record, s: State, k: nat) {
    |Kept(s, k)| == k && forall x :: x in Kept(s, k) ==> r.order < x.order
  }

  /** Every archive confirmed in w is still confirmed in w', unless k newer ones are. */
  ghost predicate KeepsHistory(w: World, w': World, k: nat) {
    w.persisted.Some? ==>
      && w'.persisted.Some?
      && forall r :: r in w.persisted.value.archives && r.lifecycle.Confirmed? ==>
           r in w'.persisted.value.archives || Outlived(r, w'.persisted.value, k)
  }

  /** Confirming one more archive shifts the newest k by one at most. */
  lemma ConfirmKeepsOutlived(s: State, added: Record, source: string, r: Record, k: nat)
    requires added.lifecycle.Confirmed? && forall x :: x in s.archives ==> x.order < added.order
    requires Outlived(r, s, k)
    ensures Outlived(r, WithConfirmed(s, added, source), k)
  {
    ConfirmedOnlyAppend(s.archives, added);
    var all := ConfirmedOnly(s.archives);
    assert Kept(WithConfirmed(s, added, source), k) == Newest(all + [added], k);
    NewestShifts(all, added, k);
    if k > 0 { assert Kept(s, k)[0] in Kept(s, k) && Kept(s, k)[0] in s.archives; }
  }

  /** Appending one moves the newest k on by one. */
  lemma NewestShifts(all: seq<Record>, added: Record, k: nat)
    requires |Newest(all, k)| == k
    ensures |Newest(all + [added], k)| == k
    ensures forall x :: x in Newest(all + [added], k) ==> x == added || x in Newest(all, k)
  {
    var n := |all| - k;
    assert Newest(all, k) == all[n..];
    if k > 0 {
      assert Newest(all + [added], k) == all[n + 1..] + [added];
      assert all[n + 1..] == all[n..][1..];
    }
  }

  /** The archive marked for removal has k newer ones. */
  lemma MarkedIsOutlived(s: State, k: nat)
    requires ValidState(s) && s.pending.None? && |s.archives| > k
    ensures Outlived(s.archives[0], WithMarked(s, 0), k)
  {
    MarkKeepsKept(s, k);
    ValidUnlessPending(s);
    OldestIsOlder(s.archives, k);
  }

  lemma OldestIsOlder(archives: seq<Record>, k: nat)
    requires OrderedAndDistinct(archives) && |archives| > k
    ensures forall x :: x in Newest(archives, k) ==> archives[0].order < x.order
  {
    forall x | x in Newest(archives, k) ensures archives[0].order < x.order {
      var i :| 0 <= i < k && archives[|archives| - k..][i] == x;
      assert Precedes(archives[0], archives[|archives| - k + i]);
    }
  }

  lemma StepKeepsHistory(w: World, step: Step, setting: Setting)
    requires Enabled(w, step, setting)
    ensures KeepsHistory(w, Apply(w, step, setting), setting.retention)
  {
    if w.persisted.Some? && step.SaveMarked? {
      var s := w.persisted.value;
      MarkedIsOutlived(s, setting.retention);
      forall r | r in s.archives && r != s.archives[0] ensures r in WithMarked(s, 0).archives {
        var i :| 0 < i < |s.archives| && s.archives[i] == r;
        assert WithMarked(s, 0).archives[i] == r;
      }
    }
  }

  lemma StepKeepsOutlived(w: World, step: Step, setting: Setting, r: Record)
    requires Enabled(w, step, setting) && w.persisted.Some? && Outlived(r, w.persisted.value, setting.retention)
    ensures Outlived(r, Apply(w, step, setting).persisted.value, setting.retention)
  {
    var s, k := w.persisted.value, setting.retention;
    match step
    case SaveConfirmed(added, source) => ConfirmKeepsOutlived(s, added, source, r, k);
    case SaveMarked => MarkKeepsKept(s, k);
    case SaveDropped => ExpiredAfterDrop(s, k);
    case _ =>
  }

  /**
   Whatever fails and wherever it crashes, a run costs no archive but those that k newer
   confirmed ones replace.
   */
  lemma RunKeepsHistory(trace: seq<World>, setting: Setting, i: nat, j: nat)
    requires IsRun(trace, setting) && i <= j < |trace|
    ensures KeepsHistory(trace[i], trace[j], setting.retention)
  {
    var first := trace[i];
    forall k: nat | i <= k < j && KeepsHistory(first, trace[k], setting.retention)
      ensures KeepsHistory(first, trace[k + 1], setting.retention)
    {
      NextKeepsHistory(first, trace[k], trace[k + 1], setting);
    }
    Throughout(trace, w => KeepsHistory(first, w, setting.retention), i, j);
  }

  lemma NextKeepsHistory(w: World, w': World, w'': World, setting: Setting)
    requires KeepsHistory(w, w', setting.retention) && Allowed(w', w'', setting)
    ensures KeepsHistory(w, w'', setting.retention)
  {
    if w.persisted.None? { return; }
    var step :| Enabled(w', step, setting) && w'' == Apply(w', step, setting);
    StepKeepsHistory(w', step, setting);
    var s, s', s'' := w.persisted.value, w'.persisted.value, w''.persisted.value;
    forall r | r in s.archives && r.lifecycle.Confirmed?
      ensures r in s''.archives || Outlived(r, s'', setting.retention)
    {
      if r !in s'.archives { StepKeepsOutlived(w', step, setting, r); }
    }
  }

  /** An archive no longer recorded has k newer ones, all of them confirmed. */
  lemma ReplacedByNewer(trace: seq<World>, setting: Setting, i: nat, j: nat, r: Record)
    requires IsRun(trace, setting) && i <= j < |trace| && trace[i].persisted.Some?
    requires r in trace[i].persisted.value.archives && r.lifecycle == Confirmed
    ensures trace[j].persisted.Some?
    ensures var confirmed, k := ConfirmedOnly(trace[j].persisted.value.archives), setting.retention;
            r !in trace[j].persisted.value.archives ==>
              k <= |confirmed| && forall n :: |confirmed| - k <= n < |confirmed| ==> r.order < confirmed[n].order
  {
    RunKeepsHistory(trace, setting, i, j);
    var confirmed, k := ConfirmedOnly(trace[j].persisted.value.archives), setting.retention;
    if r !in trace[j].persisted.value.archives {
      forall n | |confirmed| - k <= n < |confirmed| ensures r.order < confirmed[n].order {
        assert confirmed[|confirmed| - k..][n - (|confirmed| - k)] == confirmed[n];
        assert confirmed[n] in Newest(confirmed, k);
      }
    }
  }

  /** So min(n, k) of n confirmed archives are the least that is ever left. */
  lemma RunKeepsCount(trace: seq<World>, setting: Setting, i: nat, j: nat)
    requires IsRun(trace, setting) && Invariant(trace[0], setting) && i <= j < |trace| && trace[i].persisted.Some?
    ensures trace[j].persisted.Some?
    ensures var n, k := |ConfirmedOnly(trace[i].persisted.value.archives)|, setting.retention;
            |ConfirmedOnly(trace[j].persisted.value.archives)| >= if n < k then n else k
  {
    RunKeepsHistory(trace, setting, i, j);
    RunKeepsInvariant(trace, setting, i);
    var before, after := trace[i].persisted.value, trace[j].persisted.value;
    if r :| r in ConfirmedOnly(before.archives) && r !in ConfirmedOnly(after.archives) {
      assert Outlived(r, after, setting.retention) || r in after.archives;
    } else {
      ConfirmedOnlyOrdered(before.archives);
      NoMoreThan(ConfirmedOnly(before.archives), ConfirmedOnly(after.archives));
    }
  }

  lemma NoMoreThan(a: seq<Record>, b: seq<Record>)
    requires OrderedAndDistinct(a) && forall r :: r in a ==> r in b
    ensures |a| <= |b|
  {
    forall x ensures multiset(a)[x] <= multiset(b)[x] {
      OnceOnly(a, x);
      assert x in a ==> x in multiset(b);
    }
    assert multiset(b) == multiset(a) + (multiset(b) - multiset(a));
  }
}
