/** One upload through its crash and its reboots, and whole histories of uploads. */
module BookHistory {
  import opened Common
  import opened UploadJournal
  import opened BookPublication
  import opened BookCrashSafety
  import opened BookLeftovers

  /** The newest record, if any, is one whose recovery touches no backup. */
  ghost predicate LeavesBackups(j: Journal) {
    Newest(j).Some? ==> Newest(j).value.phase in {Clear, Verified}
  }

  /** Recovery removes the pending named file before it clears, and leaves backups that are not its own. */
  lemma TidyingNames(d: Disk, k: nat)
    requires Newest(d.journal).Some? && k < |RecoverySteps(d)|
    ensures var e := After(d, RecoverySteps(d), k);
            && (forall b :: Named(b) in e.tmp ==> Named(b) in d.tmp)
            && (k == |RecoverySteps(d)| - 1 && Newest(d.journal).value.phase != Clear ==>
                  Named(Newest(d.journal).value.target) !in e.tmp)
            && (LeavesBackups(d.journal) ==>
                  forall id :: Backup(id) in d.tmp ==> Backup(id) in e.tmp && e.tmp[Backup(id)] == d.tmp[Backup(id)])
  {
    var steps := RecoverySteps(d);
    if k > 0 {
      TidyingNames(d, k - 1);
      if k > 1 { TidyingNames(d, k - 2); }
      if k > 2 { TidyingNames(d, k - 3); }
      assert After(d, steps, k) == Apply(After(d, steps, k - 1), steps[k - 1]);
    }
  }

  lemma RecoveryNames(d: Disk, cut: Cut)
    requires Recoverable(d.journal) && Headroom(d, 2) && NamedPending(d)
    ensures var e := Interrupted(d, RecoverySteps(d), cut);
            && NamedPending(e)
            && (cut.done >= |RecoverySteps(d)| ==> NoneNamed(e))
            && (LeavesBackups(d.journal) ==>
                  && LeavesBackups(e.journal)
                  && forall id :: Backup(id) in d.tmp ==> Backup(id) in e.tmp && e.tmp[Backup(id)] == d.tmp[Backup(id)])
  {
    if Newest(d.journal).Some? {
      var r, steps := Newest(d.journal).value, RecoverySteps(d);
      var k := Min(cut.done, |steps| - 1);
      TidyingKeepsTheRecord(d, k);
      TidyingNames(d, k);
      if k == |steps| - 1 {
        ClearingSlot(d.journal, r);
        ClearedJournalIsQuiet(d);
        TornWriteKeepsTheOtherSlot(d.journal, ClearRecord(r));
        if cut.done >= |steps| {
          assert After(d, steps, |steps|) == Apply(After(d, steps, k), steps[k]);
        }
      }
    }
  }

  lemma RebootNames(d: Disk, cuts: seq<Cut>)
    requires Recoverable(d.journal) && Headroom(d, |cuts| + 2) && NamedPending(d)
    ensures var e := Recovered(Reboots(d, cuts));
            && NoneNamed(e)
            && (LeavesBackups(d.journal) ==>
                  forall id :: Backup(id) in d.tmp ==> Backup(id) in e.tmp && e.tmp[Backup(id)] == d.tmp[Backup(id)])
    decreases |cuts|
  {
    if cuts == [] {
      RecoveryNames(d, Cut(|RecoverySteps(d)|, false));
    } else {
      RecoveryNames(d, cuts[0]);
      RecoveryIsRestartable(d, cuts[0]);
      RebootNames(Interrupted(d, RecoverySteps(d), cuts[0]), cuts[1..]);
    }
  }

  /** The card after publishing `r` up to `cut`, any number of interrupted recoveries, and one complete recovery. */
  function Survived(d: Disk, r: Record, cut: Cut, cuts: seq<Cut>): Disk {
    Recovered(Reboots(Interrupted(d, PublishSteps(d, r), cut), cuts))
  }

  /**
   Crash anywhere in a publication, then anywhere in any number of recoveries. Exactly the uploaded book can
   change; it is the old file or the new file, or it is gone; and it is gone although it was there before
   exactly when the crash fell between the move of the old file and the journal record of that move, in which
   case the backup in TMP still holds the old file.
   */
  lemma PublicationSurvivesPowerCuts(d: Disk, r: Record, cut: Cut, cuts: seq<Cut>, spare: nat)
    requires Fresh(d.journal, r) && Staged(d, r) && NoneNamed(d)
    requires Headroom(d, |cuts| + 2 + spare) && r.generation + |cuts| + 3 + spare < U32_LIMIT
    ensures var e := Survived(d, r, cut, cuts);
            var hadOld := r.target in d.books;
            && (forall b :: b != r.target ==>
                  (b in e.books <==> b in d.books) && (b in d.books ==> e.books[b] == d.books[b]))
            && (r.target in e.books <==>
                  LandingStep(hadOld) <= cut.done || (hadOld && !InLossWindow(hadOld, cut.done)))
            && (r.target in e.books ==>
                  e.books[r.target] ==
                  if LandingStep(hadOld) <= cut.done then d.tmp[StageName(r.generation)] else d.books[r.target])
            && (InLossWindow(hadOld, cut.done) ==>
                  && BackupName(r.generation) in e.tmp
                  && e.tmp[BackupName(r.generation)] == d.books[r.target])
    ensures var e := Survived(d, r, cut, cuts);
            e.books == ExpectedBooks(d, r, cut.done) && Quiet(e.journal) && NoneNamed(e) && Headroom(e, 1 + spare)
    ensures Survived(d, r, cut, cuts).tmp == TmpAfterUpload(d.tmp, d.books, r, cut.done)
  {
    var crashed := Interrupted(d, PublishSteps(d, r), cut);
    if r.target in d.books { CutReplacement(d, r, cut); } else { CutAddition(d, r, cut); }
    CutPublicationHeadroom(d, r, cut, |cuts| + 2 + spare);
    CutPublicationNames(d, r, cut);
    RebootsAreIdempotent(crashed, cuts, spare);
    RebootNames(crashed, cuts);
    CutPublicationLeaves(d, r, cut);
    RebootsRemoveLeftovers(crashed, cuts);
    if InLossWindow(r.target in d.books, cut.done) {
      LossWindowKeepsBackup(d, r, cut);
    }
  }

  // ---- Sessions ----

  /** An upload of a session, before which `skipped` others were begun and abandoned. */
  datatype Upload = Upload(target: string, size: nat, crc: nat, bytes: Bytes, skipped: nat)

  /**
   What happens between two mounts: uploads that are published completely, then one whose publication the power
   cut meets (or leaves alone, if it comes later), then recoveries at the following mounts, all but the last cut.
   */
  datatype Session = Session(uploads: seq<Upload>, last: Upload, cut: Cut, reboots: seq<Cut>)

  predicate Publishable(u: Upload) {
    MakeRecord(Receiving, 1, u.size, u.crc, u.target).Some?
  }

  function RecordOf(u: Upload, generation: nat): Record {
    Record(Receiving, generation, u.size, u.crc, u.target)
  }

  function StagedOn(d: Disk, u: Upload, generation: nat): Disk {
    d.(tmp := d.tmp[StageName(generation) := u.bytes])
  }

  /** The disk after an upload whose publication nothing interrupts. */
  function Published(d: Disk, u: Upload, generation: nat): Disk {
    var staged := StagedOn(d, u, generation);
    var steps := PublishSteps(staged, RecordOf(u, generation));
    After(staged, steps, |steps|)
  }

  /** The disk after complete uploads, and the next generation: each upload begun takes two. */
  function InSession(d: Disk, next: nat, uploads: seq<Upload>): (Disk, nat) {
    if uploads == [] then (d, next)
    else
      var (e, n) := InSession(d, next, uploads[..|uploads| - 1]);
      var u := uploads[|uploads| - 1];
      (Published(e, u, n + 2 * u.skipped), n + 2 * u.skipped + 2)
  }

  /** The card at the end of a session and its recoveries. The first generation is the one the journal gives. */
  function Ended(d: Disk, s: Session): Disk {
    var (e, n) := InSession(d, NextGeneration(d.journal), s.uploads);
    var generation := n + 2 * s.last.skipped;
    Survived(StagedOn(e, s.last, generation), RecordOf(s.last, generation), s.cut, s.reboots)
  }

  function History(d: Disk, sessions: seq<Session>): Disk
    decreases |sessions|
  {
    if sessions == [] then d else History(Ended(d, sessions[0]), sessions[1..])
  }

  // ---- What becomes of the books ----

  function WithUploads(books: map<string, Bytes>, uploads: seq<Upload>): map<string, Bytes> {
    if uploads == [] then books
    else
      var u := uploads[|uploads| - 1];
      WithUploads(books, uploads[..|uploads| - 1])[u.target := u.bytes]
  }

  /** TMP after complete uploads, which leave neither their staged files nor anything by their backups' names. */
  function TmpWithUploads(tmp: map<TmpName, Bytes>, next: nat, uploads: seq<Upload>): map<TmpName, Bytes> {
    if uploads == [] then tmp
    else
      var front := uploads[..|uploads| - 1];
      var g := next + Taken(front) + 2 * uploads[|uploads| - 1].skipped;
      TmpWithUploads(tmp, next, front) - {StageName(g), BackupName(g)}
  }

  function TmpAfterSession(d: Disk, s: Session): map<TmpName, Bytes> {
    var next := NextGeneration(d.journal);
    var g := next + Taken(s.uploads) + 2 * s.last.skipped;
    var staged := TmpWithUploads(d.tmp, next, s.uploads)[StageName(g) := s.last.bytes];
    TmpAfterUpload(staged, WithUploads(d.books, s.uploads), RecordOf(s.last, g), s.cut.done)
  }

  /** The cut neither comes before the first journal record nor falls in the loss window of a replacement. */
  predicate CutsClean(s: Session) {
    s.cut.done != 0 && s.cut.done != 4
  }

  function AfterSession(books: map<string, Bytes>, s: Session): map<string, Bytes> {
    AfterUpload(WithUploads(books, s.uploads), s.last.target, s.last.bytes, s.cut.done)
  }

  function ExpectedHistory(books: map<string, Bytes>, sessions: seq<Session>): map<string, Bytes>
    decreases |sessions|
  {
    if sessions == [] then books else ExpectedHistory(AfterSession(books, sessions[0]), sessions[1..])
  }

  /** Generations used up. */
  function Taken(uploads: seq<Upload>): nat {
    if uploads == [] then 0
    else Taken(uploads[..|uploads| - 1]) + 2 * uploads[|uploads| - 1].skipped + 2
  }

  function Spent(s: Session): nat {
    Taken(s.uploads) + 2 * s.last.skipped + |s.reboots| + 5
  }

  function TotalSpent(sessions: seq<Session>): nat {
    if sessions == [] then 0 else Spent(sessions[0]) + TotalSpent(sessions[1..])
  }

  /** Between uploads: nothing pending, and the next generation an odd number behind the last, with room for more. */
  ghost predicate Ready(d: Disk, next: nat, first: nat) {
    && Quiet(d.journal) && NoneNamed(d) && 0 < next
    && (d.journal.a.Some? ==> 0 < next - d.journal.a.value.generation)
    && (d.journal.b.Some? ==> 0 < next - d.journal.b.value.generation)
    && (Newest(d.journal).Some? ==>
          var gap := next - Newest(d.journal).value.generation;
          gap % 2 == 1 && gap <= 1 + next - first)
  }

  lemma ReadyIsFresh(d: Disk, u: Upload, next: nat, first: nat)
    requires Ready(d, next, first) && Publishable(u) && first <= next
    requires next + 2 * u.skipped - first + 1 < HALF_RANGE && next + 2 * u.skipped + 1 < U32_LIMIT
    ensures var g := next + 2 * u.skipped;
            && Fresh(StagedOn(d, u, g).journal, RecordOf(u, g)) && Staged(StagedOn(d, u, g), RecordOf(u, g))
            && NoneNamed(StagedOn(d, u, g))
  {
  }

  /** A complete publication: the new book is there, and the journal ends with its clearing record. */
  lemma CompletePublication(d: Disk, r: Record)
    requires Fresh(d.journal, r) && Staged(d, r) && NoneNamed(d)
    ensures var e := After(d, PublishSteps(d, r), |PublishSteps(d, r)|);
            && e.books == d.books[r.target := d.tmp[StageName(r.generation)]]
            && Quiet(e.journal) && NoneNamed(e) && Newest(e.journal) == Some(ClearRecord(r))
            && e.tmp == d.tmp - {StageName(r.generation), BackupName(r.generation)}
  {
    var hadOld := r.target in d.books;
    var n := if hadOld then 9 else 6;
    var cut := Cut(n, false);
    CutPublicationNames(d, r, cut);
    EnteringClear(d.journal, r, hadOld);
    if hadOld {
      ReplacingStages(d, r, 9);
      ReplacingLeaves(d, r, 9);
    } else {
      AddingStages(d, r, 6);
      AddingLeaves(d, r, 6);
    }
  }

  /** Complete uploads in one session, one after the other without a recovery between them. */
  lemma {:induction false} SessionUploads(d: Disk, next: nat, uploads: seq<Upload>, first: nat)
    requires Ready(d, next, first) && first <= next && (forall u :: u in uploads ==> Publishable(u))
    requires next + Taken(uploads) - first < HALF_RANGE && next + Taken(uploads) < U32_LIMIT
    ensures var (e, n) := InSession(d, next, uploads);
            && n == next + Taken(uploads) && Ready(e, n, first) && e.books == WithUploads(d.books, uploads)
            && e.tmp == TmpWithUploads(d.tmp, next, uploads)
  {
    if uploads != [] {
      var front, u := uploads[..|uploads| - 1], uploads[|uploads| - 1];
      SessionUploads(d, next, front, first);
      var (e, n) := InSession(d, next, front);
      ReadyIsFresh(e, u, n, first);
      PublishedIsReady(e, u, n + 2 * u.skipped, first);
    }
  }

  lemma PublishedIsReady(d: Disk, u: Upload, g: nat, first: nat)
    requires Fresh(StagedOn(d, u, g).journal, RecordOf(u, g)) && Staged(StagedOn(d, u, g), RecordOf(u, g))
    requires NoneNamed(StagedOn(d, u, g)) && first <= g
    ensures Ready(Published(d, u, g), g + 2, first)
    ensures Published(d, u, g).books == d.books[u.target := u.bytes]
    ensures Published(d, u, g).tmp == d.tmp - {StageName(g), BackupName(g)}
  {
    var staged, r := StagedOn(d, u, g), RecordOf(u, g);
    CompletePublication(staged, r);
    var e := Published(d, u, g);
    NewestIsLatest(e.journal);
    assert ClearRecord(r).generation == g + 1;
  }

  lemma {:induction false} UploadsAddNothing(tmp: map<TmpName, Bytes>, next: nat, uploads: seq<Upload>)
    ensures TmpWithUploads(tmp, next, uploads).Items <= tmp.Items
  {
    if uploads != [] { UploadsAddNothing(tmp, next, uploads[..|uploads| - 1]); }
  }

  lemma CleanSessionAddsNothing(d: Disk, s: Session)
    requires CutsClean(s)
    ensures TmpAfterSession(d, s).Items <= d.tmp.Items
  {
    UploadsAddNothing(d.tmp, NextGeneration(d.journal), s.uploads);
  }

  lemma SessionOutcome(d: Disk, s: Session, rest: nat)
    requires Quiet(d.journal) && NoneNamed(d) && Publishable(s.last) && (forall u :: u in s.uploads ==> Publishable(u))
    requires Headroom(d, Spent(s) + rest) && Spent(s) + rest < HALF_RANGE
    ensures var e := Ended(d, s);
            && e.books == AfterSession(d.books, s) && e.tmp == TmpAfterSession(d, s)
            && Quiet(e.journal) && NoneNamed(e) && Headroom(e, rest)
  {
    hide Ready, Survived, Publishable, Taken, InSession;
    hide WithUploads, TmpWithUploads, TmpAfterUpload, AfterUpload, Quiet, NoneNamed, Headroom, NextGeneration;
    var first := NextGeneration(d.journal);
    FirstHasRoom(d, Spent(s) + rest);
    StartsReady(d);
    SessionUploads(d, first, s.uploads, first);
    var (e, n) := InSession(d, first, s.uploads);
    LastUpload(e, n, first, s.last, s.cut, s.reboots, rest);
  }

  /** The upload of a session that the power cut meets. */
  lemma LastUpload(d: Disk, next: nat, first: nat, u: Upload, cut: Cut, reboots: seq<Cut>, rest: nat)
    requires Ready(d, next, first) && first <= next && Publishable(u)
    requires next - first + 2 * u.skipped + |reboots| + 5 + rest < HALF_RANGE
    requires next + 2 * u.skipped + |reboots| + 5 + rest <= U32_LIMIT
    ensures var g := next + 2 * u.skipped;
            var e := Survived(StagedOn(d, u, g), RecordOf(u, g), cut, reboots);
            && e.books == AfterUpload(d.books, u.target, u.bytes, cut.done)
            && e.tmp == TmpAfterUpload(d.tmp[StageName(g) := u.bytes], d.books, RecordOf(u, g), cut.done)
            && Quiet(e.journal) && NoneNamed(e) && Headroom(e, rest)
  {
    hide Survived, Fresh, Quiet, NoneNamed, Publishable, TmpAfterUpload;
    var g := next + 2 * u.skipped;
    ReadyIsFresh(d, u, next, first);
    ReadyHasRoom(d, next, |reboots| + 2 + rest);
    PublicationSurvivesPowerCuts(StagedOn(d, u, g), RecordOf(u, g), cut, reboots, rest);
  }

  lemma StartsReady(d: Disk)
    requires Quiet(d.journal) && NoneNamed(d) && Headroom(d, 1)
    ensures Ready(d, NextGeneration(d.journal), NextGeneration(d.journal))
  {
    NewestIsLatest(d.journal);
  }

  lemma FirstHasRoom(d: Disk, n: nat)
    requires Quiet(d.journal) && Headroom(d, n) && 0 < n < HALF_RANGE
    ensures NextGeneration(d.journal) + n <= U32_LIMIT && Headroom(d, 1)
  {
    NewestIsLatest(d.journal);
  }

  lemma ReadyHasRoom(d: Disk, next: nat, n: nat)
    requires next + n <= U32_LIMIT
    requires d.journal.a.Some? ==> d.journal.a.value.generation < next
    requires d.journal.b.Some? ==> d.journal.b.value.generation < next
    ensures Headroom(d, n)
  {
  }

  /**
   Over every history of sessions, each with any number of uploads, a power cut and interrupted recoveries, BOOKS is
   exactly the fold of the single outcomes; and TMP never gains a file if all cuts are clean.
   */
  lemma {:induction false} HistoryOutcome(d: Disk, sessions: seq<Session>)
    requires Quiet(d.journal) && NoneNamed(d)
    requires forall s :: s in sessions ==> Publishable(s.last) && forall u :: u in s.uploads ==> Publishable(u)
    requires Headroom(d, TotalSpent(sessions)) && TotalSpent(sessions) < HALF_RANGE
    ensures var e := History(d, sessions);
            && e.books == ExpectedHistory(d.books, sessions) && Quiet(e.journal) && NoneNamed(e)
            && ((forall s :: s in sessions ==> CutsClean(s)) ==> e.tmp.Items <= d.tmp.Items)
    decreases |sessions|
  {
    if sessions != [] {
      SessionOutcome(d, sessions[0], TotalSpent(sessions[1..]));
      HistoryOutcome(Ended(d, sessions[0]), sessions[1..]);
      if CutsClean(sessions[0]) { CleanSessionAddsNothing(d, sessions[0]); }
    }
  }
}
