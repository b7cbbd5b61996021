/**
 What survives a power cut during a publication or a recovery of the SD card, for one publication and
 for whole histories of uploads.
 */
module BookCrashSafety {
  import opened Common
  import opened UploadJournal
  import opened BookPublication

  /** The journals a crashed publication or recovery leaves behind. */
  ghost predicate Recoverable(j: Journal) {
    && Placed(j)
    && match Newest(j)
       case None => true
       case Some(r) =>
         && r.phase != Receiving
         && (r.phase == OldMoved ==>
               var other := Get(j, Other(SlotOf(r)));
               other == None || other == Some(r.(phase := Verified)))
  }

  /** No publication is pending. */
  ghost predicate Quiet(j: Journal) {
    Placed(j) && (Newest(j).None? || Newest(j).value.phase == Clear)
  }

  /** Room for `n` more generations below the wrap of the 32-bit counter. */
  ghost predicate Headroom(d: Disk, n: nat) {
    && (d.journal.a.Some? ==> d.journal.a.value.generation + n < U32_LIMIT)
    && (d.journal.b.Some? ==> d.journal.b.value.generation + n < U32_LIMIT)
  }

  /** The books after one recovery: only a journal in phase OldMoved brings a backup back. */
  function Restored(d: Disk): map<string, Bytes> {
    match Newest(d.journal)
    case None => d.books
    case Some(r) =>
      var backup := BackupName(r.generation);
      if r.phase == OldMoved && r.target !in d.books && backup in d.tmp
      then d.books[r.target := d.tmp[backup]] else d.books
  }

  /** Recovery's steps up to its journal write: they leave the journal alone and do not change what is restored. */
  lemma TidyingKeepsTheRecord(d: Disk, k: nat)
    requires Newest(d.journal).Some?
    requires k < |RecoverySteps(d)|
    ensures var e := After(d, RecoverySteps(d), k);
            && e.journal == d.journal
            && Restored(e) == Restored(d)
            && (k == |RecoverySteps(d)| - 1 ==> e.books == Restored(d))
  {
    var steps := RecoverySteps(d);
    if k > 0 {
      TidyingKeepsTheRecord(d, k - 1);
      if k > 1 { TidyingKeepsTheRecord(d, k - 2); if k > 2 { TidyingKeepsTheRecord(d, k - 3); }}
      var before := After(d, steps, k - 1);
      assert After(d, steps, k) == Apply(before, steps[k - 1]);
    }
  }

  /** Clearing writes over the current record only in phase OldMoved; otherwise the other slot keeps it. */
  lemma ClearingSlot(j: Journal, r: Record)
    requires Placed(j) && Newest(j) == Some(r) && r.phase != Receiving
    requires r.generation + 1 < U32_LIMIT
    ensures ClearRecord(r).generation == r.generation + 1
    ensures var kept := Get(j, Other(SlotOf(ClearRecord(r))));
            if r.phase == OldMoved then kept == Get(j, Other(SlotOf(r))) else kept == Some(r)
  {
    NewestIsLatest(j);
  }

  lemma ClearedJournalIsQuiet(d: Disk)
    requires Recoverable(d.journal) && Headroom(d, 2) && Newest(d.journal).Some?
    ensures var clear := ClearRecord(Newest(d.journal).value);
            var j := Put(d.journal, SlotOf(clear), Some(clear));
            Placed(j) && Newest(j) == Some(clear)
  {
    NewestIsLatest(d.journal);
    var r := Newest(d.journal).value;
    ClearingSlot(d.journal, r);
    CompletedWriteIsNewest(d.journal, ClearRecord(r));
  }

  lemma TornClearIsHarmless(d: Disk, e: Disk)
    requires Recoverable(d.journal) && Headroom(d, 2) && Newest(d.journal).Some?
    requires e.journal == d.journal && e.books == Restored(d) && Restored(e) == Restored(d)
    ensures var torn := Tear(e, WriteJournal(ClearRecord(Newest(d.journal).value)));
            Recoverable(torn.journal) && Restored(torn) == Restored(d)
  {
    var r := Newest(d.journal).value;
    NewestIsLatest(d.journal);
    ClearingSlot(d.journal, r);
    TornWriteKeepsTheOtherSlot(d.journal, ClearRecord(r));
  }

  /** A recovery stopped anywhere leaves a disk that the next recovery takes to the same books. */
  lemma RecoveryIsRestartable(d: Disk, cut: Cut)
    requires Recoverable(d.journal) && Headroom(d, 2)
    ensures var e := Interrupted(d, RecoverySteps(d), cut);
            && Recoverable(e.journal)
            && Restored(e) == Restored(d)
            && (forall n: nat :: Headroom(d, n + 1) ==> Headroom(e, n))
            && (cut.done >= |RecoverySteps(d)| ==> e.books == Restored(d) && Quiet(e.journal))
  {
    if Newest(d.journal).Some? {
      if cut.done < |RecoverySteps(d)| { CutRecovery(d, cut); } else { CompletedRecovery(d); }
    }
  }

  lemma CutRecovery(d: Disk, cut: Cut)
    requires Recoverable(d.journal) && Headroom(d, 2) && Newest(d.journal).Some? && cut.done < |RecoverySteps(d)|
    ensures var e := Interrupted(d, RecoverySteps(d), cut);
            && Recoverable(e.journal) && Restored(e) == Restored(d)
            && (forall n: nat :: Headroom(d, n + 1) ==> Headroom(e, n))
  {
    hide Restored, Newest;
    TidyingKeepsTheRecord(d, cut.done);
    if cut.done == |RecoverySteps(d)| - 1 {
      TornClearIsHarmless(d, After(d, RecoverySteps(d), cut.done));
    }
  }

  lemma CompletedRecovery(d: Disk)
    requires Recoverable(d.journal) && Headroom(d, 2) && Newest(d.journal).Some?
    ensures var e := After(d, RecoverySteps(d), |RecoverySteps(d)|);
            && Recoverable(e.journal) && Restored(e) == Restored(d) && e.books == Restored(d) && Quiet(e.journal)
            && (forall n: nat :: Headroom(d, n + 1) ==> Headroom(e, n))
  {
    var steps, clear := RecoverySteps(d), ClearRecord(Newest(d.journal).value);
    var k := |steps| - 1;
    TidyingKeepsTheRecord(d, k);
    ClearedJournalIsQuiet(d);
    var e := Apply(After(d, steps, k), steps[k]);
    LastStepClears(d);
    hide RecoverySteps, Restored, Newest, Headroom, Placed;
    ClearKeepsHeadroom(d, e);
    NothingToRestore(e);
  }

  lemma ClearKeepsHeadroom(d: Disk, e: Disk)
    requires Headroom(d, 2) && Newest(d.journal).Some? && Placed(d.journal)
    requires var clear := ClearRecord(Newest(d.journal).value); e.journal == Put(d.journal, SlotOf(clear), Some(clear))
    ensures forall n: nat :: Headroom(d, n + 1) ==> Headroom(e, n)
  {
  }

  lemma LastStepClears(d: Disk)
    requires Newest(d.journal).Some?
    ensures var steps := RecoverySteps(d);
            && steps != [] && steps[|steps| - 1] == WriteJournal(ClearRecord(Newest(d.journal).value))
            && After(d, steps, |steps|) == Apply(After(d, steps, |steps| - 1), steps[|steps| - 1])
  {
  }

  lemma NothingToRestore(e: Disk)
    requires Newest(e.journal).Some? && Newest(e.journal).value.phase == Clear
    ensures Restored(e) == e.books
  {
  }

  /** Any number of interrupted recoveries, then one that completes, restores what the first would have. */
  lemma RebootsAreIdempotent(d: Disk, cuts: seq<Cut>, spare: nat)
    requires Recoverable(d.journal) && Headroom(d, |cuts| + 2 + spare)
    ensures var e := Reboots(d, cuts);
            && Recoverable(e.journal) && Headroom(e, 2 + spare)
            && Restored(e) == Restored(d)
            && Recovered(e).books == Restored(d)
            && Quiet(Recovered(e).journal)
            && Headroom(Recovered(e), 1 + spare)
    decreases |cuts|
  {
    if cuts == [] {
      RecoveryIsRestartable(d, Cut(|RecoverySteps(d)|, false));
    } else {
      var e := Interrupted(d, RecoverySteps(d), cuts[0]);
      RecoveryIsRestartable(d, cuts[0]);
      assert Headroom(e, |cuts[1..]| + 2 + spare);
      RebootsAreIdempotent(e, cuts[1..], spare);
    }
  }

  // ---- The journal of one publication ----

  /**
   The record of a publication that begins on a quiet journal. Uploads take every second generation
   (firmware/crates/binbook-fw/src/storage_owner.rs:1124-1125) and clearing takes the one between, so that a new
   upload always lies an odd number of generations after the last record, and its first record goes to the slot
   that does not hold it.
   */
  ghost predicate Fresh(j: Journal, r: Record) {
    && Quiet(j)
    && r.phase == Receiving
    && 0 < r.generation && r.generation + 1 < U32_LIMIT
    && MakeRecord(Verified, r.generation, r.expectedSize, r.expectedCrc, r.target).Some?
    && (Newest(j).Some? ==>
          var gap := r.generation - Newest(j).value.generation;
          0 < gap < HALF_RANGE && gap % 2 == 1)
  }

  function Entered(j: Journal, r: Record, phase: Phase): Journal {
    var written := r.(phase := phase);
    Put(j, SlotOf(written), Some(written))
  }

  function TornOut(j: Journal, r: Record, phase: Phase): Journal {
    Put(j, SlotOf(r.(phase := phase)), None)
  }

  ghost predicate Holds(j: Journal, r: Record, phase: Phase) {
    Placed(j) && Newest(j) == Some(r.(phase := phase))
  }

  lemma EnteringVerified(j: Journal, r: Record)
    requires Fresh(j, r)
    ensures Holds(Entered(j, r, Verified), r, Verified)
    ensures Recoverable(Entered(j, r, Verified))
    ensures Get(Entered(j, r, Verified), Other(SlotOf(r.(phase := Verified)))) == Newest(j)
    ensures Quiet(TornOut(j, r, Verified)) && Newest(TornOut(j, r, Verified)) == Newest(j)
  {
    NewestIsLatest(j);
    CompletedWriteIsNewest(j, r.(phase := Verified));
    TornWriteKeepsTheOtherSlot(j, r.(phase := Verified));
  }

  lemma EnteringOldMoved(j: Journal, r: Record)
    requires Fresh(j, r)
    ensures var v := Entered(j, r, Verified);
            && Holds(Entered(v, r, OldMoved), r, OldMoved)
            && Get(Entered(v, r, OldMoved), Other(SlotOf(r.(phase := OldMoved)))) == Some(r.(phase := Verified))
            && Recoverable(Entered(v, r, OldMoved))
            && Holds(TornOut(v, r, OldMoved), r, Verified)
            && Recoverable(TornOut(v, r, OldMoved))
  {
    EnteringVerified(j, r);
    var v := Entered(j, r, Verified);
    CompletedWriteIsNewest(v, r.(phase := OldMoved));
    TornWriteKeepsTheOtherSlot(v, r.(phase := OldMoved));
  }

  /** Publishing over Verified tears into the quiet journal before it; publishing over OldMoved leaves OldMoved. */
  lemma EnteringPublished(j: Journal, r: Record, hadOld: bool)
    requires Fresh(j, r)
    ensures var v := Entered(j, r, Verified);
            var w := if hadOld then Entered(v, r, OldMoved) else v;
            && Holds(Entered(w, r, Published), r, Published)
            && Get(Entered(w, r, Published), Other(SlotOf(r.(phase := Published)))) ==
                 (if hadOld then Some(r.(phase := OldMoved)) else Newest(j))
            && (hadOld ==> Holds(TornOut(w, r, Published), r, OldMoved)
                           && Get(TornOut(w, r, Published), Other(SlotOf(r.(phase := OldMoved)))) == None)
            && (!hadOld ==> Quiet(TornOut(w, r, Published)))
            && Recoverable(Entered(w, r, Published)) && Recoverable(TornOut(w, r, Published))
  {
    EnteringVerified(j, r);
    EnteringOldMoved(j, r);
    NewestIsLatest(j);
    var v := Entered(j, r, Verified);
    var w := if hadOld then Entered(v, r, OldMoved) else v;
    CompletedWriteIsNewest(w, r.(phase := Published));
    TornWriteKeepsTheOtherSlot(w, r.(phase := Published));
  }

  lemma EnteringClear(j: Journal, r: Record, hadOld: bool)
    requires Fresh(j, r)
    ensures var v := Entered(j, r, Verified);
            var w := Entered(if hadOld then Entered(v, r, OldMoved) else v, r, Published);
            var clear := ClearRecord(r);
            var cleared := Put(w, SlotOf(clear), Some(clear));
            && Placed(cleared) && Newest(cleared) == Some(clear)
            && Holds(Put(w, SlotOf(clear), None), r, Published)
            && Recoverable(Put(w, SlotOf(clear), None))
  {
    hide Newest, Entered, Fresh;
    EnteringPublished(j, r, hadOld);
    assert 0 < r.generation && r.generation + 1 < U32_LIMIT by { FreshGeneration(j, r); }
    var v := Entered(j, r, Verified);
    ClearingPublished(Entered(if hadOld then Entered(v, r, OldMoved) else v, r, Published), r);
  }

  lemma FreshGeneration(j: Journal, r: Record)
    requires Fresh(j, r)
    ensures 0 < r.generation && r.generation + 1 < U32_LIMIT
  {
  }

  lemma ClearingPublished(w: Journal, r: Record)
    requires Holds(w, r, Published) && 0 < r.generation && r.generation + 1 < U32_LIMIT
    ensures var clear := ClearRecord(r);
            var cleared := Put(w, SlotOf(clear), Some(clear));
            && Placed(cleared) && Newest(cleared) == Some(clear)
            && Holds(Put(w, SlotOf(clear), None), r, Published)
            && Recoverable(Put(w, SlotOf(clear), None))
  {
    var published := r.(phase := Published);
    ClearingSlot(w, published);
    assert ClearRecord(published) == ClearRecord(r);
    CompletedWriteIsNewest(w, ClearRecord(r));
    TornWriteKeepsTheOtherSlot(w, ClearRecord(r));
  }

  // ---- One publication, cut anywhere ----

  ghost predicate Staged(d: Disk, r: Record) {
    StageName(r.generation) in d.tmp && Named(r.target) !in d.tmp
  }

  /** Number of durable steps after which the new file stands under its name in BOOKS. */
  function LandingStep(hadOld: bool): nat {
    if hadOld then 6 else 3
  }

  /** The old file has left BOOKS and the journal does not say so yet. */
  predicate InLossWindow(hadOld: bool, done: nat) {
    hadOld && done == 4
  }

  /** The books after an upload of `bytes` whose publication performed `done` durable steps. */
  function AfterUpload(books: map<string, Bytes>, target: string, bytes: Bytes, done: nat): map<string, Bytes> {
    var hadOld := target in books;
    if LandingStep(hadOld) <= done then books[target := bytes]
    else if InLossWindow(hadOld, done) then books - {target}
    else books
  }

  function ExpectedBooks(d: Disk, r: Record, done: nat): map<string, Bytes>
    requires Staged(d, r)
  {
    AfterUpload(d.books, r.target, d.tmp[StageName(r.generation)], done)
  }

  lemma ReplacingSteps(d: Disk, r: Record)
    requires Fresh(d.journal, r) && Staged(d, r) && r.target in d.books
    ensures var backup := BackupName(r.generation);
            PublishSteps(d, r) == [
              WriteJournal(r.(phase := Verified)),
              RenameInTmp(StageName(r.generation), Named(r.target)),
              RemoveTmp(backup),
              RenameToTmp(r.target, backup),
              WriteJournal(r.(phase := OldMoved)),
              RenameToBooks(Named(r.target), r.target),
              WriteJournal(r.(phase := Published)),
              RemoveTmp(backup),
              WriteJournal(ClearRecord(r))]
  {
    var backup := BackupName(r.generation);
    var prepared := [WriteJournal(r.(phase := Verified)), RenameInTmp(StageName(r.generation), Named(r.target))]
      + MoveAsideSteps(r);
    var e1 := After(d, prepared, 1);
    assert After(d, prepared, 0) == d;
    assert e1 == Apply(d, prepared[0]);
    var e2 := After(d, prepared, 2);
    assert e2 == Apply(e1, prepared[1]);
    var e3 := After(d, prepared, 3);
    assert e2.books == d.books && Named(r.target) in e2.tmp;
    var e4 := After(d, prepared, 4);
    assert r.target !in e4.books && Named(r.target) in e4.tmp;
    var e5 := After(d, prepared, 5);
    assert Renames(e5, RenameToBooks(Named(r.target), r.target));
  }

  lemma AddingSteps(d: Disk, r: Record)
    requires Fresh(d.journal, r) && Staged(d, r) && r.target !in d.books
    ensures var backup := BackupName(r.generation);
            PublishSteps(d, r) == [
              WriteJournal(r.(phase := Verified)),
              RenameInTmp(StageName(r.generation), Named(r.target)),
              RenameToBooks(Named(r.target), r.target),
              WriteJournal(r.(phase := Published)),
              RemoveTmp(backup),
              WriteJournal(ClearRecord(r))]
  {
    var prepared := [WriteJournal(r.(phase := Verified)), RenameInTmp(StageName(r.generation), Named(r.target))] + [];
    var e1 := After(d, prepared, 1);
    assert After(d, prepared, 0) == d;
    assert e1 == Apply(d, prepared[0]);
    var e2 := After(d, prepared, 2);
    assert e2 == Apply(e1, prepared[1]);
    assert Renames(e2, RenameToBooks(Named(r.target), r.target));
  }

  /** The disk while an existing book is being replaced, after each step. */
  lemma ReplacingStages(d: Disk, r: Record, k: nat)
    requires Fresh(d.journal, r) && Staged(d, r) && r.target in d.books && k <= 9
    ensures |PublishSteps(d, r)| == 9
    ensures var e := After(d, PublishSteps(d, r), k);
            var was, staged, backup := d.books[r.target], d.tmp[StageName(r.generation)], BackupName(r.generation);
            var v := Entered(d.journal, r, Verified);
            var w := Entered(v, r, OldMoved);
            var p := Entered(w, r, Published);
            && e.journal == (if k == 0 then d.journal else if k <= 4 then v else if k <= 6 then w
                             else if k <= 8 then p else Put(p, SlotOf(ClearRecord(r)), Some(ClearRecord(r))))
            && e.books == (if k <= 3 then d.books else if k <= 5 then d.books - {r.target}
                           else d.books[r.target := staged])
            && (2 <= k <= 5 ==> Named(r.target) in e.tmp && e.tmp[Named(r.target)] == staged)
            && (k < 2 || 6 <= k ==> Named(r.target) !in e.tmp)
            && (forall b :: Named(b) in e.tmp ==> b == r.target || Named(b) in d.tmp)
            && (k == 3 ==> backup !in e.tmp)
            && (4 <= k <= 7 ==> backup in e.tmp && e.tmp[backup] == was)
  {
    ReplacingSteps(d, r);
    if k > 0 {
      ReplacingStages(d, r, k - 1);
      var before, step := After(d, PublishSteps(d, r), k - 1), PublishSteps(d, r)[k - 1];
      assert After(d, PublishSteps(d, r), k) == Apply(before, step);
    }
  }

  /** The disk while a new book is being added, after each step. */
  lemma AddingStages(d: Disk, r: Record, k: nat)
    requires Fresh(d.journal, r) && Staged(d, r) && r.target !in d.books && k <= 6
    ensures |PublishSteps(d, r)| == 6
    ensures var e := After(d, PublishSteps(d, r), k);
            var staged := d.tmp[StageName(r.generation)];
            var v := Entered(d.journal, r, Verified);
            var p := Entered(v, r, Published);
            && e.journal == (if k == 0 then d.journal else if k <= 3 then v
                             else if k <= 5 then p else Put(p, SlotOf(ClearRecord(r)), Some(ClearRecord(r))))
            && e.books == (if k <= 2 then d.books else d.books[r.target := staged])
            && (k == 2 ==> Named(r.target) in e.tmp && e.tmp[Named(r.target)] == staged)
            && (k != 2 ==> Named(r.target) !in e.tmp)
            && (forall b :: Named(b) in e.tmp ==> b == r.target || Named(b) in d.tmp)
  {
    AddingSteps(d, r);
    if k > 0 {
      AddingStages(d, r, k - 1);
      var before, step := After(d, PublishSteps(d, r), k - 1), PublishSteps(d, r)[k - 1];
      assert After(d, PublishSteps(d, r), k) == Apply(before, step);
    }
  }

  /** Named files wait in TMP only for the book whose publication the journal records as under way. */
  ghost predicate NamedPending(d: Disk) {
    forall b :: Named(b) in d.tmp ==>
                  && Newest(d.journal).Some?
                  && Newest(d.journal).value.phase in {Verified, OldMoved}
                  && Newest(d.journal).value.target == b
  }

  ghost predicate NoneNamed(d: Disk) {
    forall b :: Named(b) !in d.tmp
  }

  lemma CutReplacement(d: Disk, r: Record, cut: Cut)
    requires Fresh(d.journal, r) && Staged(d, r) && r.target in d.books
    ensures var e := Interrupted(d, PublishSteps(d, r), cut);
            && Recoverable(e.journal)
            && Restored(e) == ExpectedBooks(d, r, cut.done)
            && (cut.done >= 9 ==> Quiet(e.journal) && e.books == Restored(e))
  {
    EnteringVerified(d.journal, r);
    EnteringOldMoved(d.journal, r);
    EnteringPublished(d.journal, r, true);
    EnteringClear(d.journal, r, true);
    ReplacingSteps(d, r);
    ReplacingStages(d, r, Min(cut.done, 9));
    if cut.done == 5 {
      assert (d.books - {r.target})[r.target := d.books[r.target]] == d.books;
    }
  }

  lemma CutAddition(d: Disk, r: Record, cut: Cut)
    requires Fresh(d.journal, r) && Staged(d, r) && r.target !in d.books
    ensures var e := Interrupted(d, PublishSteps(d, r), cut);
            && Recoverable(e.journal)
            && Restored(e) == ExpectedBooks(d, r, cut.done)
            && (cut.done >= 6 ==> Quiet(e.journal) && e.books == Restored(e))
  {
    EnteringVerified(d.journal, r);
    EnteringPublished(d.journal, r, false);
    EnteringClear(d.journal, r, false);
    AddingSteps(d, r);
    AddingStages(d, r, Min(cut.done, 6));
  }

  lemma CutPublicationNames(d: Disk, r: Record, cut: Cut)
    requires Fresh(d.journal, r) && Staged(d, r) && NoneNamed(d)
    ensures NamedPending(Interrupted(d, PublishSteps(d, r), cut))
  {
    var e := Interrupted(d, PublishSteps(d, r), cut);
    if r.target in d.books {
      ReplacingSteps(d, r);
      ReplacingStages(d, r, Min(cut.done, 9));
      if 2 <= cut.done <= 5 {
        EnteringVerified(d.journal, r);
        EnteringOldMoved(d.journal, r);
        assert Holds(e.journal, r, Verified) || Holds(e.journal, r, OldMoved);
      }
    } else {
      AddingSteps(d, r);
      AddingStages(d, r, Min(cut.done, 6));
      if cut.done == 2 {
        EnteringVerified(d.journal, r);
      }
    }
  }

  /** In the loss window the backup holds the old file, under a journal that recovery takes for Verified. */
  lemma LossWindowKeepsBackup(d: Disk, r: Record, cut: Cut)
    requires Fresh(d.journal, r) && Staged(d, r) && InLossWindow(r.target in d.books, cut.done)
    ensures var e := Interrupted(d, PublishSteps(d, r), cut);
            && Holds(e.journal, r, Verified)
            && BackupName(r.generation) in e.tmp
            && e.tmp[BackupName(r.generation)] == d.books[r.target]
  {
    ReplacingSteps(d, r);
    ReplacingStages(d, r, 4);
    EnteringVerified(d.journal, r);
    EnteringOldMoved(d.journal, r);
  }

  lemma AfterHeadroom(d: Disk, steps: seq<Step>, k: nat, top: nat, n: nat)
    requires k <= |steps| && Headroom(d, n) && top + n < U32_LIMIT
    requires forall i :: 0 <= i < |steps| && steps[i].WriteJournal? ==> steps[i].record.generation <= top
    ensures Headroom(After(d, steps, k), n)
  {
    if k > 0 { AfterHeadroom(d, steps, k - 1, top, n); }
  }

  lemma CutPublicationHeadroom(d: Disk, r: Record, cut: Cut, n: nat)
    requires Fresh(d.journal, r) && Staged(d, r) && Headroom(d, n) && r.generation + 1 + n < U32_LIMIT
    ensures Headroom(Interrupted(d, PublishSteps(d, r), cut), n)
  {
    if r.target in d.books { ReplacingSteps(d, r); } else { AddingSteps(d, r); }
    AfterHeadroom(d, PublishSteps(d, r), Min(cut.done, |PublishSteps(d, r)|), r.generation + 1, n);
  }

  /** A publication whose staged file is missing, or whose name is taken in TMP, never changes a book. */
  lemma RefusedPublicationKeepsBooks(d: Disk, r: Record, cut: Cut)
    requires Fresh(d.journal, r) && !Staged(d, r)
    ensures var e := Interrupted(d, PublishSteps(d, r), cut);
            Recoverable(e.journal) && e.books == d.books && Restored(e) == d.books
  {
    EnteringVerified(d.journal, r);
    var steps, k := PublishSteps(d, r), Min(cut.done, 2);
    var head := WriteJournal(r.(phase := Verified));
    assert |steps| == 2 && steps[0] == head;
    assert After(d, steps, 0) == d;
    assert After(d, steps, 1) == Apply(d, head);
    assert k == 2 ==> After(d, steps, 2) == Apply(After(d, steps, 1), steps[1]);
  }
}
