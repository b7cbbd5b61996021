/** What a recovery removes from TMP, and what a publication leaves there, however both are cut. */
module BookLeftovers {
  import opened Common
  import opened UploadJournal
  import opened BookPublication
  import opened BookCrashSafety

  /** A recovery stopped anywhere leaves to the next one exactly what it has not removed itself. */
  lemma CutRecoveryLeaves(d: Disk, cut: Cut)
    requires Recoverable(d.journal) && Headroom(d, 2)
    ensures var e := Interrupted(d, RecoverySteps(d), cut);
            e.tmp - Leftovers(e.journal) == d.tmp - Leftovers(d.journal)
  {
    if Newest(d.journal).Some? {
      var steps := RecoverySteps(d);
      var k := Min(cut.done, |steps| - 1);
      TidyingKeepsTheRecord(d, k);
      TidyingLeaves(d, k);
      LastStepClears(d);
      if k == |steps| - 1 {
        hide RecoverySteps;
        ClearedJournalIsQuiet(d);
        TornClearLeaves(d, After(d, steps, k));
      }
    }
  }

  lemma TornClearLeaves(d: Disk, e: Disk)
    requires Recoverable(d.journal) && Headroom(d, 2) && Newest(d.journal).Some?
    requires e.journal == d.journal && e.tmp == d.tmp - Leftovers(d.journal)
    ensures var torn := Tear(e, WriteJournal(ClearRecord(Newest(d.journal).value)));
            torn.tmp - Leftovers(torn.journal) == e.tmp
  {
    var r := Newest(d.journal).value;
    NewestIsLatest(d.journal);
    ClearingSlot(d.journal, r);
    TornWriteKeepsTheOtherSlot(d.journal, ClearRecord(r));
  }

  /** Any number of interrupted recoveries, then a complete one. */
  lemma RebootsRemoveLeftovers(d: Disk, cuts: seq<Cut>)
    requires Recoverable(d.journal) && Headroom(d, |cuts| + 2)
    ensures Recovered(Reboots(d, cuts)).tmp == d.tmp - Leftovers(d.journal)
    decreases |cuts|
  {
    if cuts == [] {
      RecoveryRemovesLeftovers(d);
    } else {
      CutRecoveryLeaves(d, cuts[0]);
      RecoveryIsRestartable(d, cuts[0]);
      RebootsRemoveLeftovers(Interrupted(d, RecoverySteps(d), cuts[0]), cuts[1..]);
    }
  }

  // ---- What a publication leaves ----

  /** TMP while an existing book is being replaced, after each step. */
  function ReplacingTmp(d: Disk, r: Record, k: nat): map<TmpName, Bytes>
    requires Staged(d, r) && r.target in d.books
  {
    var stage, named, backup := StageName(r.generation), Named(r.target), BackupName(r.generation);
    var renamed := (d.tmp - {stage})[named := d.tmp[stage]];
    if k < 2 then d.tmp
    else if k < 3 then renamed
    else if k < 4 then renamed - {backup}
    else if k < 6 then renamed[backup := d.books[r.target]]
    else if k < 8 then (d.tmp - {stage})[backup := d.books[r.target]]
    else d.tmp - {stage, backup}
  }

  lemma {:induction false} ReplacingLeaves(d: Disk, r: Record, k: nat)
    requires Fresh(d.journal, r) && Staged(d, r) && r.target in d.books && k <= 9
    ensures |PublishSteps(d, r)| == 9
    ensures After(d, PublishSteps(d, r), k).tmp == ReplacingTmp(d, r, k)
  {
    hide Fresh;
    ReplacingSteps(d, r);
    if k > 0 {
      ReplacingLeaves(d, r, k - 1);
      ReplacingStages(d, r, k - 1);
      var before, step := After(d, PublishSteps(d, r), k - 1), PublishSteps(d, r)[k - 1];
      assert After(d, PublishSteps(d, r), k) == Apply(before, step);
    }
  }

  /** TMP while a new book is being added, after each step. */
  function AddingTmp(d: Disk, r: Record, k: nat): map<TmpName, Bytes>
    requires Staged(d, r)
  {
    var stage, named, backup := StageName(r.generation), Named(r.target), BackupName(r.generation);
    if k < 2 then d.tmp
    else if k < 3 then (d.tmp - {stage})[named := d.tmp[stage]]
    else if k < 5 then d.tmp - {stage}
    else d.tmp - {stage, backup}
  }

  lemma {:induction false} AddingLeaves(d: Disk, r: Record, k: nat)
    requires Fresh(d.journal, r) && Staged(d, r) && r.target !in d.books && k <= 6
    ensures |PublishSteps(d, r)| == 6
    ensures After(d, PublishSteps(d, r), k).tmp == AddingTmp(d, r, k)
  {
    hide Fresh;
    AddingSteps(d, r);
    if k > 0 {
      AddingLeaves(d, r, k - 1);
      AddingStages(d, r, k - 1);
      var before, step := After(d, PublishSteps(d, r), k - 1), PublishSteps(d, r)[k - 1];
      assert After(d, PublishSteps(d, r), k) == Apply(before, step);
    }
  }

  /** The publication has got as far as the removal of what went by its backup's name before, or its record did. */
  predicate BackupGoes(hadOld: bool, done: nat) {
    done >= if hadOld then 3 else 4
  }

  /**
   What of TMP outlasts a publication stopped after `done` steps and the recoveries after it. The staged file goes
   as soon as there is a record of it, and the old book's bytes stay as a backup in the loss window only.
   */
  function TmpAfterUpload(tmp: map<TmpName, Bytes>, books: map<string, Bytes>, r: Record, done: nat)
    : map<TmpName, Bytes>
  {
    var backup, hadOld := BackupName(r.generation), r.target in books;
    if done == 0 then tmp
    else if InLossWindow(hadOld, done) then (tmp - {StageName(r.generation)})[backup := books[r.target]]
    else tmp - ({StageName(r.generation)} + if BackupGoes(hadOld, done) then {backup} else {})
  }

  /** What the journal gives up after a replacement cut anywhere. */
  lemma CutReplacementLeftovers(d: Disk, r: Record, cut: Cut)
    requires Fresh(d.journal, r) && Staged(d, r) && r.target in d.books
    ensures Leftovers(Interrupted(d, PublishSteps(d, r), cut).journal) ==
            if cut.done == 0 || 9 <= cut.done then {}
            else
              {StageName(r.generation), Named(r.target)} +
              if cut.done < 5 then {} else {BackupName(r.generation)}
  {
    EnteringVerified(d.journal, r);
    EnteringOldMoved(d.journal, r);
    EnteringPublished(d.journal, r, true);
    EnteringClear(d.journal, r, true);
    ReplacingSteps(d, r);
    ReplacingStages(d, r, Min(cut.done, 9));
  }

  lemma TearKeepsTmp(d: Disk, steps: seq<Step>, cut: Cut)
    ensures Interrupted(d, steps, cut).tmp == After(d, steps, Min(cut.done, |steps|)).tmp
  {
  }

  lemma CutReplacementLeaves(d: Disk, r: Record, cut: Cut)
    requires Fresh(d.journal, r) && Staged(d, r) && r.target in d.books
    ensures var e := Interrupted(d, PublishSteps(d, r), cut);
            e.tmp - Leftovers(e.journal) == TmpAfterUpload(d.tmp, d.books, r, cut.done)
  {
    hide Fresh, Leftovers, PublishSteps, Interrupted, After;
    CutReplacementLeftovers(d, r, cut);
    TearKeepsTmp(d, PublishSteps(d, r), cut);
    ReplacingLeaves(d, r, Min(cut.done, 9));
  }

  lemma CutAdditionLeaves(d: Disk, r: Record, cut: Cut)
    requires Fresh(d.journal, r) && Staged(d, r) && r.target !in d.books
    ensures var e := Interrupted(d, PublishSteps(d, r), cut);
            e.tmp - Leftovers(e.journal) == TmpAfterUpload(d.tmp, d.books, r, cut.done)
  {
    EnteringVerified(d.journal, r);
    EnteringPublished(d.journal, r, false);
    EnteringClear(d.journal, r, false);
    AddingSteps(d, r);
    AddingStages(d, r, Min(cut.done, 6));
    AddingLeaves(d, r, Min(cut.done, 6));
  }

  lemma CutPublicationLeaves(d: Disk, r: Record, cut: Cut)
    requires Fresh(d.journal, r) && Staged(d, r)
    ensures var e := Interrupted(d, PublishSteps(d, r), cut);
            e.tmp - Leftovers(e.journal) == TmpAfterUpload(d.tmp, d.books, r, cut.done)
  {
    if r.target in d.books { CutReplacementLeaves(d, r, cut); } else { CutAdditionLeaves(d, r, cut); }
  }
}
