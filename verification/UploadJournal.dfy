/**
 The two-slot upload journal of the SD card: record values, the slot each record is written to,
 and the choice of the newest surviving record.
 */
module UploadJournal {
  import opened Common
  import opened Utf8Text

  const HALF_RANGE: nat := 0x8000_0000
  const TARGET_NAME_BYTES: nat := 121

  datatype Phase = Clear | Receiving | Verified | OldMoved | Published {
    function Code(): nat {
      match this
      case Clear => 0
      case Receiving => 1
      case Verified => 2
      case OldMoved => 3
      case Published => 4
    }
  }

  datatype Record = Record(
    phase: Phase, generation: nat, expectedSize: nat, expectedCrc: nat, target: string)

  datatype Slot = SlotA | SlotB

  /** What the card holds in the two journal files; `None` is a missing, short or undecodable file. */
  datatype Journal = Journal(a: Option<Record>, b: Option<Record>)

  /** Construction of a record, with the checks the constructor makes. */
  function MakeRecord(phase: Phase, generation: nat, size: nat, crc: nat, target: string): Option<Record> {
    if generation == 0
       || (phase != Clear && size == 0)
       || target == ""
       || |Utf8(target)| > TARGET_NAME_BYTES
       || '/' in target
       || '\\' in target
    then None
    else Some(Record(phase, generation, size, crc, target))
  }

  function SlotOf(r: Record): Slot {
    if (r.generation + r.phase.Code()) % 2 == 0 then SlotA else SlotB
  }

  function Get(j: Journal, s: Slot): Option<Record> {
    match s
    case SlotA => j.a
    case SlotB => j.b
  }

  function Put(j: Journal, s: Slot, r: Option<Record>): Journal {
    match s
    case SlotA => j.(a := r)
    case SlotB => j.(b := r)
  }

  function Other(s: Slot): Slot {
    match s
    case SlotA => SlotB
    case SlotB => SlotA
  }

  /** Serial-number comparison of 32-bit generations, then of phases. */
  predicate IsNewer(candidate: Record, current: Record) {
    var delta := (candidate.generation - current.generation) % U32_LIMIT;
    || (delta != 0 && delta < HALF_RANGE)
    || (candidate.generation == current.generation && candidate.phase.Code() > current.phase.Code())
  }

  function Newest(j: Journal): Option<Record> {
    if j.a.None? then j.b
    else if j.b.None? then j.a
    else if IsNewer(j.b.value, j.a.value) then j.b
    else j.a
  }

  /** (generation, phase) in plain lexicographic order. */
  predicate Before(r: Record, s: Record) {
    || r.generation < s.generation
    || (r.generation == s.generation && r.phase.Code() < s.phase.Code())
  }

  function Distance(r: Record, s: Record): nat {
    if r.generation <= s.generation then s.generation - r.generation else r.generation - s.generation
  }

  /** Every record sits in the slot its own parity selects, and two records are close in generation. */
  ghost predicate Placed(j: Journal) {
    && (j.a.Some? ==> SlotOf(j.a.value) == SlotA && 0 < j.a.value.generation < U32_LIMIT)
    && (j.b.Some? ==> SlotOf(j.b.value) == SlotB && 0 < j.b.value.generation < U32_LIMIT)
    && (j.a.Some? && j.b.Some? ==> Distance(j.a.value, j.b.value) < HALF_RANGE)
  }

  /** Below the wrap of the generation counter the serial comparison is the plain order. */
  lemma SerialOrderIsPlainOrder(r: Record, s: Record)
    requires r.generation < U32_LIMIT && s.generation < U32_LIMIT
    requires Distance(r, s) < HALF_RANGE
    ensures IsNewer(s, r) <==> Before(r, s)
  {
    if s.generation < r.generation {
      assert (s.generation - r.generation) % U32_LIMIT == s.generation - r.generation + U32_LIMIT;
    }
  }

  /** The selected record is one of the two, and no surviving record is later than it. */
  lemma NewestIsLatest(j: Journal)
    requires Placed(j)
    ensures Newest(j).None? <==> j.a.None? && j.b.None?
    ensures Newest(j).Some? ==>
              && Get(j, SlotOf(Newest(j).value)) == Newest(j)
              && var other := Get(j, Other(SlotOf(Newest(j).value)));
                 other.Some? ==> Before(other.value, Newest(j).value)
  {
    if j.a.Some? && j.b.Some? {
      SerialOrderIsPlainOrder(j.a.value, j.b.value);
      SerialOrderIsPlainOrder(j.b.value, j.a.value);
      assert j.a.value.generation == j.b.value.generation ==> j.a.value.phase != j.b.value.phase;
    }
  }

  /** A write to the slot of `r` that is torn by a power cut never hides a record kept in the other slot. */
  lemma TornWriteKeepsTheOtherSlot(j: Journal, r: Record)
    requires Placed(j)
    ensures Newest(Put(j, SlotOf(r), None)) == Get(j, Other(SlotOf(r)))
  {
  }

  /** A completed write of a later record is what the next reader selects. */
  lemma CompletedWriteIsNewest(j: Journal, r: Record)
    requires Placed(j) && 0 < r.generation < U32_LIMIT
    requires var other := Get(j, Other(SlotOf(r)));
             other.Some? ==> Before(other.value, r) && Distance(other.value, r) < HALF_RANGE
    ensures Placed(Put(j, SlotOf(r), Some(r)))
    ensures Newest(Put(j, SlotOf(r), Some(r))) == Some(r)
  {
    var other := Get(j, Other(SlotOf(r)));
    if other.Some? {
      SerialOrderIsPlainOrder(other.value, r);
      SerialOrderIsPlainOrder(r, other.value);
    }
  }
}
