/**
 Publication of an uploaded book on the SD card, and its recovery, as sequences of durable steps that
 a power cut can stop after any number of steps, or in the middle of a journal write.
 */
module BookPublication {
  import opened Common
  import opened UploadJournal

  const NAME_MASK: nat := 0x10_0000

  /** Names in TMP: the staged upload and the backup of a generation, and book names. */
  datatype TmpName = Stage(id: nat) | Backup(id: nat) | Named(book: string)

  datatype Disk = Disk(books: map<string, Bytes>, tmp: map<TmpName, Bytes>, journal: Journal)

  /** One durable step: a rename or removal is atomic, a journal write can be torn. */
  datatype Step =
    | RenameInTmp(from: TmpName, to: TmpName)
    | RenameToTmp(book: string, to: TmpName)
    | RenameToBooks(from: TmpName, book: string)
    | RemoveTmp(name: TmpName)
    | WriteJournal(record: Record)

  /** A power cut after `done` durable steps; `torn` says it falls inside the next one. */
  datatype Cut = Cut(done: nat, torn: bool)

  function StageName(generation: nat): TmpName {
    Stage(generation % NAME_MASK)
  }

  function BackupName(generation: nat): TmpName {
    Backup(generation % NAME_MASK)
  }

  /** A rename needs its source and refuses to replace an existing entry. */
  predicate Renames(d: Disk, s: Step) {
    match s
    case RenameInTmp(from, to) => from in d.tmp && to !in d.tmp
    case RenameToTmp(book, to) => book in d.books && to !in d.tmp
    case RenameToBooks(from, book) => from in d.tmp && book !in d.books
    case _ => false
  }

  function Apply(d: Disk, s: Step): Disk {
    match s
    case RenameInTmp(from, to) =>
      if Renames(d, s) then d.(tmp := (d.tmp - {from})[to := d.tmp[from]]) else d
    case RenameToTmp(book, to) =>
      if Renames(d, s) then d.(books := d.books - {book}, tmp := d.tmp[to := d.books[book]]) else d
    case RenameToBooks(from, book) =>
      if Renames(d, s) then d.(books := d.books[book := d.tmp[from]], tmp := d.tmp - {from}) else d
    case RemoveTmp(name) => d.(tmp := d.tmp - {name})
    case WriteJournal(r) => d.(journal := Put(d.journal, SlotOf(r), Some(r)))
  }

  /** A torn journal write leaves a slot that does not decode; other steps happen entirely or not at all. */
  function Tear(d: Disk, s: Step): Disk {
    if s.WriteJournal? then d.(journal := Put(d.journal, SlotOf(s.record), None)) else d
  }

  /** The disk after the first `k` of `steps`. */
  function After(d: Disk, steps: seq<Step>, k: nat): Disk
    requires k <= |steps|
  {
    if k == 0 then d else Apply(After(d, steps, k - 1), steps[k - 1])
  }

  /** The disk left when `steps` are run from `d` until the power cut. */
  function Interrupted(d: Disk, steps: seq<Step>, cut: Cut): Disk {
    if |steps| <= cut.done then After(d, steps, |steps|)
    else if cut.torn then Tear(After(d, steps, cut.done), steps[cut.done])
    else After(d, steps, cut.done)
  }

  function ClearGeneration(generation: nat): nat {
    var next := (generation + 1) % U32_LIMIT;
    if next == 0 then 1 else next
  }

  function NextGeneration(j: Journal): nat {
    match Newest(j)
    case None => 1
    case Some(r) => ClearGeneration(r.generation)
  }

  /** Generations count up from 1; after the last 32-bit number 1 comes again, never 0. */
  lemma GenerationsFollow(j: Journal)
    requires Newest(j).Some? ==> 0 < Newest(j).value.generation < U32_LIMIT
    ensures 0 < NextGeneration(j) < U32_LIMIT
    ensures Newest(j).None? ==> NextGeneration(j) == 1
    ensures Newest(j).Some? ==>
              if Newest(j).value.generation == 0xffff_ffff then NextGeneration(j) == 1
              else NextGeneration(j) == Newest(j).value.generation + 1
  {
  }

  function ClearRecord(r: Record): Record {
    Record(Clear, ClearGeneration(r.generation), 0, 0, r.target)
  }

  /** The old file of a replaced book is moved aside, and the journal says so. */
  function MoveAsideSteps(r: Record): seq<Step> {
    var backup := BackupName(r.generation);
    [RemoveTmp(backup), RenameToTmp(r.target, backup), WriteJournal(r.(phase := OldMoved))]
  }

  /** The new file takes its place; if that rename is refused, the old file is put back when its place is free. */
  function InstallSteps(d: Disk, r: Record): seq<Step> {
    var backup := BackupName(r.generation);
    var install := RenameToBooks(Named(r.target), r.target);
    if Renames(d, install) then
      [install, WriteJournal(r.(phase := Published)), RemoveTmp(backup), WriteJournal(ClearRecord(r))]
    else if r.target !in d.books then [install, RenameToBooks(backup, r.target)]
    else [install]
  }

  /** The durable steps publishing `r` performs from `d` when nothing interrupts it. */
  function PublishSteps(d: Disk, r: Record): seq<Step> {
    if r.phase != Receiving
       || MakeRecord(Verified, r.generation, r.expectedSize, r.expectedCrc, r.target).None?
    then []
    else
      var stageRename := RenameInTmp(StageName(r.generation), Named(r.target));
      var head := [WriteJournal(r.(phase := Verified)), stageRename];
      if !Renames(d, stageRename) then head
      else
        var prepared := head + if r.target in d.books then MoveAsideSteps(r) else [];
        prepared + InstallSteps(After(d, prepared, |prepared|), r)
  }

  /** The durable steps of one recovery from `d`. */
  function RecoverySteps(d: Disk): seq<Step> {
    match Newest(d.journal)
    case None => []
    case Some(r) =>
      var stage, backup := RemoveTmp(StageName(r.generation)), BackupName(r.generation);
      var named := RemoveTmp(Named(r.target));
      (match r.phase
       case Clear => []
       case Receiving => [stage, named]
       case Verified => [stage, named]
       case OldMoved =>
         [if r.target !in d.books then RenameToBooks(backup, r.target) else RemoveTmp(backup), stage, named]
       case Published => [stage, named, RemoveTmp(backup)])
      + [WriteJournal(ClearRecord(r))]
  }

  function Recovered(d: Disk): Disk {
    var steps := RecoverySteps(d);
    After(d, steps, |steps|)
  }

  /** Reboots one after the other, the recovery of each interrupted by its own power cut. */
  function Reboots(d: Disk, cuts: seq<Cut>): Disk
    decreases |cuts|
  {
    if cuts == [] then d
    else Reboots(Interrupted(d, RecoverySteps(d), cuts[0]), cuts[1..])
  }

  lemma AfterPrefix(d: Disk, p: seq<Step>, q: seq<Step>, k: nat)
    requires k <= |p|
    ensures After(d, p + q, k) == After(d, p, k)
  {
    if k > 0 { AfterPrefix(d, p, q, k - 1); }
  }

  /** The stages of a publication, located inside its step sequence. */
  lemma PublishStepsAreStaged(d: Disk, r: Record)
    requires |PublishSteps(d, r)| > 2
    ensures var steps, hadOld := PublishSteps(d, r), r.target in d.books;
            var k := if hadOld then 5 else 2;
            && k <= |steps|
            && (hadOld ==> steps[2..5] == MoveAsideSteps(r))
            && steps[k..] == InstallSteps(After(d, steps, k), r)
  {
    var steps, hadOld := PublishSteps(d, r), r.target in d.books;
    var stageRename := RenameInTmp(StageName(r.generation), Named(r.target));
    var prepared := [WriteJournal(r.(phase := Verified)), stageRename]
      + if hadOld then MoveAsideSteps(r) else [];
    AfterPrefix(d, prepared, InstallSteps(After(d, prepared, |prepared|), r), |prepared|);
  }

  /** The files in TMP that the newest record of a journal gives up. */
  function Leftovers(j: Journal): set<TmpName> {
    match Newest(j)
    case None => {}
    case Some(r) =>
      if r.phase == Clear then {}
      else
        {StageName(r.generation), Named(r.target)} +
        if r.phase == OldMoved || r.phase == Published then {BackupName(r.generation)} else {}
  }

  lemma TidyingLeaves(d: Disk, k: nat)
    requires Newest(d.journal).Some? && k < |RecoverySteps(d)|
    ensures var e, gone := After(d, RecoverySteps(d), k), Leftovers(d.journal);
            && e.tmp - gone == d.tmp - gone
            && (k == |RecoverySteps(d)| - 1 ==> e.tmp == d.tmp - gone)
  {
    var steps := RecoverySteps(d);
    if k > 0 {
      TidyingLeaves(d, k - 1);
      if k > 1 { TidyingLeaves(d, k - 2); if k > 2 { TidyingLeaves(d, k - 3); }}
      assert After(d, steps, k) == Apply(After(d, steps, k - 1), steps[k - 1]);
    }
  }

  /** A complete recovery, from any disk at all, removes exactly the leftovers. */
  lemma RecoveryRemovesLeftovers(d: Disk)
    ensures Recovered(d).tmp == d.tmp - Leftovers(d.journal)
  {
    if Newest(d.journal).Some? {
      var steps := RecoverySteps(d);
      TidyingLeaves(d, |steps| - 1);
      assert Recovered(d) == Apply(After(d, steps, |steps| - 1), steps[|steps| - 1]);
    }
  }

  datatype Outcome = Done | Refused | PowerCut

  /**
   The mounted card. `power` is the number of durable steps left before the power cut and `tears`
   whether the cut falls inside the step it stops.
   */
  class MountedStorage {
    var books: map<string, Bytes>
    var tmp: map<TmpName, Bytes>
    var journal: Journal
    var power: nat
    var tears: bool

    function Snapshot(): Disk
      reads this
    {
      Disk(books, tmp, journal)
    }

    constructor (d: Disk, cut: Cut)
      ensures Snapshot() == d && power == cut.done && tears == cut.torn
    {
      books, tmp, journal := d.books, d.tmp, d.journal;
      power, tears := cut.done, cut.torn;
    }

    /** Performs one durable step, or is stopped by the power cut. */
    method Perform(s: Step) returns (alive: bool, renamed: bool)
      modifies this
      ensures alive <==> old(power) > 0
      ensures alive ==> Snapshot() == Apply(old(Snapshot()), s) && power == old(power) - 1 && tears == old(tears)
      ensures !alive ==> Snapshot() == if old(tears) then Tear(old(Snapshot()), s) else old(Snapshot())
      ensures renamed == (alive && Renames(old(Snapshot()), s))
    {
      alive := power > 0;
      renamed := alive && Renames(Snapshot(), s);
      if !alive {
        if tears && s.WriteJournal? {
          journal := Put(journal, SlotOf(s.record), None);
        }
        return;
      }
      power := power - 1;
      match s {
        case RenameInTmp(from, to) =>
          if renamed { tmp := (tmp - {from})[to := tmp[from]]; }
        case RenameToTmp(book, to) =>
          if renamed { books, tmp := books - {book}, tmp[to := books[book]]; }
        case RenameToBooks(from, book) =>
          if renamed { books, tmp := books[book := tmp[from]], tmp - {from}; }
        case RemoveTmp(name) =>
          tmp := tmp - {name};
        case WriteJournal(r) =>
          journal := Put(journal, SlotOf(r), Some(r));
      }
    }

    /** `k` of `steps` have been performed since `d`, when the power was still good for `cut`. */
    ghost predicate Performed(d: Disk, steps: seq<Step>, k: nat, cut: Cut)
      reads this
    {
      && k <= |steps|
      && k <= cut.done
      && Snapshot() == After(d, steps, k)
      && power == cut.done - k
      && tears == cut.torn
    }

    /** Performs the next step of a fixed sequence. */
    method Next(s: Step, ghost d: Disk, ghost steps: seq<Step>, ghost k: nat, ghost cut: Cut)
      returns (alive: bool, renamed: bool)
      requires Performed(d, steps, k, cut)
      requires k < |steps| && steps[k] == s
      modifies this
      ensures alive ==> Performed(d, steps, k + 1, cut)
      ensures !alive ==> cut.done < |steps| && Snapshot() == Interrupted(d, steps, cut)
      ensures renamed == (alive && Renames(After(d, steps, k), s))
    {
      alive, renamed := Perform(s);
    }

    /** Scans the two slots in order, keeping the newer record. */
    method ReadUploadJournal() returns (selected: Option<Record>)
      ensures selected == Newest(journal)
    {
      selected := None;
      var slots := [journal.a, journal.b];
      for i := 0 to 2
        invariant i == 0 ==> selected == None
        invariant i == 1 ==> selected == journal.a
        invariant i == 2 ==> selected == Newest(journal)
      {
        var candidate := slots[i];
        if candidate.Some? && (selected.None? || IsNewer(candidate.value, selected.value)) {
          selected := candidate;
        }
      }
    }

    method NextUploadGeneration() returns (g: nat)
      ensures g == NextGeneration(journal)
    {
      var newest := ReadUploadJournal();
      g := if newest.None? then 1 else ClearGeneration(newest.value.generation);
    }

    method MoveOldTarget(r: Record, ghost d: Disk, ghost steps: seq<Step>, ghost k: nat, ghost cut: Cut)
      returns (alive: bool)
      requires Performed(d, steps, k, cut)
      requires k + 3 <= |steps| && steps[k..k + 3] == MoveAsideSteps(r)
      modifies this
      ensures alive ==> Performed(d, steps, k + 3, cut)
      ensures !alive ==> cut.done < |steps| && Snapshot() == Interrupted(d, steps, cut)
    {
      var backup, renamed := BackupName(r.generation), true;
      ghost var own := steps[k..k + 3];
      assert own[0] == steps[k] && own[1] == steps[k + 1] && own[2] == steps[k + 2];
      alive, renamed := Next(RemoveTmp(backup), d, steps, k, cut);
      if !alive { return; }
      alive, renamed := Next(RenameToTmp(r.target, backup), d, steps, k + 1, cut);
      if !alive { return; }
      alive, renamed := Next(WriteJournal(r.(phase := OldMoved)), d, steps, k + 2, cut);
    }

    method Install(r: Record, ghost d: Disk, ghost steps: seq<Step>, ghost k: nat, ghost cut: Cut)
      returns (outcome: Outcome)
      requires Performed(d, steps, k, cut)
      requires steps[k..] == InstallSteps(After(d, steps, k), r)
      modifies this
      ensures Snapshot() == Interrupted(d, steps, cut)
      ensures outcome == PowerCut <==> cut.done < |steps|
    {
      var backup := BackupName(r.generation);
      ghost var last := InstallSteps(After(d, steps, k), r);
      assert forall i :: 0 <= i < |last| ==> steps[k..][i] == steps[k + i];
      var alive, renamed := Next(RenameToBooks(Named(r.target), r.target), d, steps, k, cut);
      if !alive { return PowerCut; }
      if !renamed {
        if r.target !in books {
          alive, renamed := Next(RenameToBooks(backup, r.target), d, steps, k + 1, cut);
        }
        return if alive then Refused else PowerCut;
      }
      alive, renamed := Next(WriteJournal(r.(phase := Published)), d, steps, k + 1, cut);
      if !alive { return PowerCut; }
      alive, renamed := Next(RemoveTmp(backup), d, steps, k + 2, cut);
      if !alive { return PowerCut; }
      alive, renamed := Next(WriteJournal(ClearRecord(r)), d, steps, k + 3, cut);
      return if alive then Done else PowerCut;
    }

    method PublishBookUpload(r: Record) returns (outcome: Outcome)
      modifies this
      ensures Snapshot() ==
              Interrupted(old(Snapshot()), PublishSteps(old(Snapshot()), r), Cut(old(power), old(tears)))
      ensures outcome == PowerCut <==> old(power) < |PublishSteps(old(Snapshot()), r)|
    {
      if r.phase != Receiving { return Refused; }
      var made := MakeRecord(Verified, r.generation, r.expectedSize, r.expectedCrc, r.target);
      if made.None? { return Refused; }
      ghost var d, cut := Snapshot(), Cut(power, tears);
      ghost var steps := PublishSteps(d, r);
      var alive, renamed := Next(WriteJournal(r.(phase := Verified)), d, steps, 0, cut);
      if !alive { return PowerCut; }
      alive, renamed := Next(RenameInTmp(StageName(r.generation), Named(r.target)), d, steps, 1, cut);
      if !alive { return PowerCut; }
      if !renamed { return Refused; }
      PublishStepsAreStaged(d, r);
      var oldTargetMoved := r.target in books;
      if oldTargetMoved {
        alive := MoveOldTarget(r, d, steps, 2, cut);
        if !alive { return PowerCut; }
      }
      outcome := Install(r, d, steps, if oldTargetMoved then 5 else 2, cut);
    }

    method RemoveBoth(first: TmpName, second: TmpName,
                      ghost d: Disk, ghost steps: seq<Step>, ghost k: nat, ghost cut: Cut)
      returns (alive: bool)
      requires Performed(d, steps, k, cut)
      requires k + 2 <= |steps| && steps[k] == RemoveTmp(first) && steps[k + 1] == RemoveTmp(second)
      modifies this
      ensures alive ==> Performed(d, steps, k + 2, cut)
      ensures !alive ==> cut.done < |steps| && Snapshot() == Interrupted(d, steps, cut)
    {
      var renamed;
      alive, renamed := Next(RemoveTmp(first), d, steps, k, cut);
      if !alive { return; }
      alive, renamed := Next(RemoveTmp(second), d, steps, k + 1, cut);
    }

    method RecoverBookUpload() returns (alive: bool)
      modifies this
      ensures Snapshot() ==
              Interrupted(old(Snapshot()), RecoverySteps(old(Snapshot())), Cut(old(power), old(tears)))
      ensures alive <==> old(power) >= |RecoverySteps(old(Snapshot()))|
      ensures alive ==> tmp == old(tmp) - Leftovers(old(journal))
    {
      RecoveryRemovesLeftovers(Snapshot());
      var record := ReadUploadJournal();
      if record.None? { return true; }
      var r := record.value;
      var stage, backup := StageName(r.generation), BackupName(r.generation);
      ghost var d, cut := Snapshot(), Cut(power, tears);
      ghost var steps := RecoverySteps(d);
      var renamed;
      alive := true;
      match r.phase {
        case Clear =>
        case Receiving | Verified =>
          alive := RemoveBoth(stage, Named(r.target), d, steps, 0, cut);
        case OldMoved =>
          if r.target !in books {
            alive, renamed := Next(RenameToBooks(backup, r.target), d, steps, 0, cut);
          } else {
            alive, renamed := Next(RemoveTmp(backup), d, steps, 0, cut);
          }
          if !alive { return; }
          alive := RemoveBoth(stage, Named(r.target), d, steps, 1, cut);
        case Published =>
          alive := RemoveBoth(stage, Named(r.target), d, steps, 0, cut);
          if !alive { return; }
          alive, renamed := Next(RemoveTmp(backup), d, steps, 2, cut);
      }
      if !alive { return; }
      alive, renamed := Next(WriteJournal(ClearRecord(r)), d, steps, |steps| - 1, cut);
    }
  }
}
