/** The book file's header and section table: how they are written and what the strict reader makes of them. */
module SectionTable {
  import opened Common
  import opened Wire

  const HEADER_SIZE: nat := 256
  const ENTRY_SIZE: nat := 40

  const MAGIC: Bytes := [66, 73, 78, 66, 79, 79, 75, 0]

  datatype FormatError =
    | InvalidHeader | InvalidMagic | UnsupportedVersion | FileOutOfBounds
    | InvalidSection | DuplicateSection(id: nat) | MissingSection(id: nat) | InvalidPage
    | ReadFailed  // the source ends too early

  datatype FileHeader = FileHeader(
    fileSize: nat, sectionTableOffset: nat, sectionTableLength: nat, sectionCount: nat,
    pageDataOffset: nat, pageDataLength: nat)

  datatype Section = Section(
    id: nat, flags: nat, offset: nat, length: nat, entrySize: nat, recordCount: nat, crc32: nat)

  // ---- Writing ----

  predicate HeaderFits(h: FileHeader) {
    && h.fileSize < U64_LIMIT && h.sectionTableOffset < U64_LIMIT && h.sectionTableLength < U32_LIMIT
    && h.sectionCount < 0x1_0000 && h.pageDataOffset < U64_LIMIT && h.pageDataLength < U64_LIMIT
  }

  /** The flags and both checksums of the header are written as zero. */
  function HeaderFields(h: FileHeader): (fields: seq<Field>)
    ensures InOrder(HEADER_SIZE, fields)
  {
    [Field(0, MAGIC), Number(12, 256, 2), Number(14, 0, 2), Number(16, h.fileSize, 8),
     Number(24, h.sectionTableOffset, 8), Number(32, h.sectionTableLength, 4), Number(36, 40, 2),
     Number(38, h.sectionCount, 2), Number(40, 128, 2), Number(42, 48, 2), Number(44, h.pageDataOffset, 8),
     Number(52, h.pageDataLength, 8), Number(60, 0, 4), Number(64, 0, 4)]
  }

  predicate SectionFits(s: Section) {
    && s.id < 0x1_0000 && s.flags < 0x1_0000 && s.offset < U64_LIMIT && s.length < U64_LIMIT
    && s.entrySize < U32_LIMIT && s.recordCount < U32_LIMIT && s.crc32 < U32_LIMIT
  }

  function EntryFields(s: Section): (fields: seq<Field>)
    ensures InOrder(ENTRY_SIZE, fields)
  {
    [Number(0, s.id, 2), Number(2, s.flags, 2), Number(4, s.offset, 8), Number(12, s.length, 8),
     Number(20, s.entrySize, 4), Number(24, s.recordCount, 4), Number(28, s.crc32, 4)]
  }

  function HeaderRecord(h: FileHeader): (record: Bytes)
    ensures |record| == HEADER_SIZE
  {
    Laid(HEADER_SIZE, HeaderFields(h))
  }

  function EntryRecord(s: Section): (record: Bytes)
    ensures |record| == ENTRY_SIZE
  {
    Laid(ENTRY_SIZE, EntryFields(s))
  }

  // ---- Reading ----

  function ReadHeader(bytes: Bytes): FileHeader
    requires |bytes| >= HEADER_SIZE
  {
    FileHeader(Read(bytes, 16, 8), Read(bytes, 24, 8), Read(bytes, 32, 4), Read(bytes, 38, 2),
               Read(bytes, 44, 8), Read(bytes, 52, 8))
  }

  /** A file size of zero stands for the length of what is read. */
  function ParseHeader(bytes: Bytes, sourceLength: nat): Result<FileHeader, FormatError> {
    if |bytes| < HEADER_SIZE then Err(InvalidHeader)
    else if bytes[..8] != MAGIC then Err(InvalidMagic)
    else if Read(bytes, 12, 2) != 256 || Read(bytes, 36, 2) != 40 || Read(bytes, 40, 2) != 128 ||
        Read(bytes, 42, 2) != 48 then
      Err(UnsupportedVersion)
    else
      var h := ReadHeader(bytes);
      if h.fileSize > sourceLength then Err(FileOutOfBounds)
      else if h.sectionCount == 0 || h.sectionTableOffset < 256 || h.sectionTableLength < 40 * h.sectionCount then
        Err(InvalidHeader)
      else Ok(h.(fileSize := if h.fileSize == 0 then sourceLength else h.fileSize))
  }

  function ReadEntry(bytes: Bytes): Section
    requires |bytes| == ENTRY_SIZE
  {
    Section(Read(bytes, 0, 2), Read(bytes, 2, 2), Read(bytes, 4, 8), Read(bytes, 12, 8),
            Read(bytes, 20, 4), Read(bytes, 24, 4), Read(bytes, 28, 4))
  }

  lemma HeaderReadsBack(h: FileHeader)
    requires HeaderFits(h)
    ensures ReadHeader(HeaderRecord(h)) == h && HeaderRecord(h)[..8] == MAGIC
    ensures Read(HeaderRecord(h), 12, 2) == 256 && Read(HeaderRecord(h), 36, 2) == 40
    ensures Read(HeaderRecord(h), 40, 2) == 128 && Read(HeaderRecord(h), 42, 2) == 48
  {
    hide Laid, LittleEndian, Read, Room;
    var fields := HeaderFields(h);
    Rooms();
    FieldStands(HEADER_SIZE, fields, 0);
    assert HeaderRecord(h)[fields[0].at..End(fields[0])] == MAGIC;
    NumberReads(HEADER_SIZE, fields, 1, 12, 256, 2);
    NumberReads(HEADER_SIZE, fields, 3, 16, h.fileSize, 8);
    NumberReads(HEADER_SIZE, fields, 4, 24, h.sectionTableOffset, 8);
    NumberReads(HEADER_SIZE, fields, 5, 32, h.sectionTableLength, 4);
    NumberReads(HEADER_SIZE, fields, 6, 36, 40, 2);
    NumberReads(HEADER_SIZE, fields, 7, 38, h.sectionCount, 2);
    NumberReads(HEADER_SIZE, fields, 8, 40, 128, 2);
    NumberReads(HEADER_SIZE, fields, 9, 42, 48, 2);
    NumberReads(HEADER_SIZE, fields, 10, 44, h.pageDataOffset, 8);
    NumberReads(HEADER_SIZE, fields, 11, 52, h.pageDataLength, 8);
  }

  lemma EntryReadsBack(s: Section)
    requires SectionFits(s)
    ensures ReadEntry(EntryRecord(s)) == s
  {
    hide Laid, LittleEndian, Read, Room;
    var fields := EntryFields(s);
    Rooms();
    NumberReads(ENTRY_SIZE, fields, 0, 0, s.id, 2);
    NumberReads(ENTRY_SIZE, fields, 1, 2, s.flags, 2);
    NumberReads(ENTRY_SIZE, fields, 2, 4, s.offset, 8);
    NumberReads(ENTRY_SIZE, fields, 3, 12, s.length, 8);
    NumberReads(ENTRY_SIZE, fields, 4, 20, s.entrySize, 4);
    NumberReads(ENTRY_SIZE, fields, 5, 24, s.recordCount, 4);
    NumberReads(ENTRY_SIZE, fields, 6, 28, s.crc32, 4);
  }

  // ---- The section table ----

  const REQUIRED: seq<nat> := [1, 10, 11, 12, 20, 21, 22, 30, 31, 32, 33, 34, 35, 40, 41, 43, 44, 45, 50]

  const PAGE_INDEX_SLOT: nat := 13
  const PAGE_DATA_SLOT: nat := 18

  function SlotFrom(id: nat, slot: nat): (found: Option<nat>)
    requires slot <= 19
    ensures found.Some? ==> slot <= found.value < 19 && REQUIRED[found.value] == id
    ensures found.None? ==> forall i :: slot <= i < 19 ==> REQUIRED[i] != id
    decreases 19 - slot
  {
    if slot == 19 then None else if REQUIRED[slot] == id then Some(slot) else SlotFrom(id, slot + 1)
  }

  /** The slot of a required section. */
  function RequiredSlot(id: nat): Option<nat> {
    SlotFrom(id, 0)
  }

  lemma SlotsAreDistinct(slot: nat)
    requires slot < 19
    ensures RequiredSlot(REQUIRED[slot]) == Some(slot) && REQUIRED[slot] != 0
  {
    assert forall i, j :: 0 <= i < j < 19 ==> REQUIRED[i] < REQUIRED[j];
  }

  const EMPTY := Section(0, 0, 0, 0, 0, 0, 0)

  predicate InFile(s: Section, fileLength: nat) {
    s.offset + s.length <= fileLength
  }

  predicate RecordsFit(s: Section) {
    s.entrySize * s.recordCount <= s.length
  }

  type Slots = s: seq<Section> | |s| == 19 witness seq(19, _ => EMPTY)

  function WithEntry(slots: Slots, s: Section, fileLength: nat): Result<Slots, FormatError> {
    if !InFile(s, fileLength) then Err(FileOutOfBounds)
    else if s.entrySize != 0 && !RecordsFit(s) then Err(InvalidSection)
    else
      match RequiredSlot(s.id)
      case None => Ok(slots)
      case Some(slot) => if slots[slot].id != 0 then Err(DuplicateSection(s.id)) else Ok(slots[slot := s])
  }

  /** The slots after the first `k` entries of the table. */
  function Scanned(table: Bytes, fileLength: nat, k: nat): Result<Slots, FormatError> {
    if k == 0 then Ok(seq(19, _ => EMPTY))
    else
      match Scanned(table, fileLength, k - 1)
      case Err(e) => Err(e)
      case Ok(slots) =>
        if 40 * k > |table| then Err(InvalidSection)
        else WithEntry(slots, ReadEntry(table[40 * (k - 1)..40 * k]), fileLength)
  }

  function FirstMissing(slots: Slots, slot: nat): (missing: Option<nat>)
    requires slot <= 19
    ensures missing.None? <==> forall i :: slot <= i < 19 ==> slots[i].id == REQUIRED[i]
    decreases 19 - slot
  {
    if slot == 19 then None
    else if slots[slot].id != REQUIRED[slot] then Some(REQUIRED[slot])
    else FirstMissing(slots, slot + 1)
  }

  function Checked(slots: Slots, h: FileHeader): Result<Slots, FormatError> {
    if FirstMissing(slots, 0).Some? then Err(MissingSection(FirstMissing(slots, 0).value))
    else if slots[12].entrySize != 80 || slots[13].entrySize != 128 || slots[14].entrySize != 48
            || slots[15].entrySize != 32 || slots[16].entrySize != 24 || slots[17].entrySize != 24 then
      Err(InvalidSection)
    else if slots[18].entrySize != 0 || slots[18].recordCount != 0
            || slots[18].offset != h.pageDataOffset || slots[18].length != h.pageDataLength then
      Err(InvalidSection)
    else if slots[13].recordCount == 0 then Err(InvalidPage)
    else Ok(slots)
  }

  function Directory(table: Bytes, h: FileHeader): Result<Slots, FormatError> {
    match Scanned(table, h.fileSize, h.sectionCount)
    case Err(e) => Err(e)
    case Ok(slots) => Checked(slots, h)
  }

  method ParseDirectory(table: Bytes, h: FileHeader) returns (r: Result<Slots, FormatError>)
    ensures r == Directory(table, h)
    ensures r.Ok? ==> WellFormed(r.value, h)
  {
    hide Scanned, WithEntry, ReadEntry, Checked, WellFormed;
    var slots: Slots := seq(19, _ => EMPTY);
    ScanStep(table, h.fileSize, 0);
    for index := 0 to h.sectionCount
      invariant Scanned(table, h.fileSize, index) == Ok(slots)
    {
      ScanStep(table, h.fileSize, index);
      if 40 * (index + 1) > |table| {
        ScanFailed(table, h.fileSize, index + 1, h.sectionCount);
        return Err(InvalidSection);
      }
      var section := ReadEntry(table[40 * index..40 * (index + 1)]);
      var next := WithEntry(slots, section, h.fileSize);
      if next.Err? {
        ScanFailed(table, h.fileSize, index + 1, h.sectionCount);
        return next;
      }
      slots := next.value;
    }
    r := Checked(slots, h);
    if r.Ok? { AcceptedIsWellFormed(table, h); }
  }

  lemma ScanStep(table: Bytes, fileLength: nat, k: nat)
    ensures Scanned(table, fileLength, 0) == Ok(seq(19, _ => EMPTY))
    ensures Scanned(table, fileLength, k).Ok? ==>
            Scanned(table, fileLength, k + 1) ==
            if 40 * (k + 1) > |table| then Err(InvalidSection)
            else WithEntry(Scanned(table, fileLength, k).value, ReadEntry(table[40 * k..40 * (k + 1)]), fileLength)
  {
  }

  /** Whatever the bytes: what is accepted is well formed. */
  lemma AcceptedIsWellFormed(table: Bytes, h: FileHeader)
    requires Directory(table, h).Ok?
    ensures WellFormed(Directory(table, h).value, h)
  {
    hide Scanned, SlotFrom;
    var slots := Directory(table, h).value;
    ScanKeepsInFile(table, h.fileSize, h.sectionCount);
    forall i | 0 <= i < 19
      ensures slots[i].id == REQUIRED[i] != 0
    {
      SlotsAreDistinct(i);
    }
  }

  lemma {:induction false} ScanFailed(table: Bytes, fileLength: nat, k: nat, n: nat)
    requires k <= n && Scanned(table, fileLength, k).Err?
    ensures Scanned(table, fileLength, n) == Scanned(table, fileLength, k)
    decreases n
  {
    if k < n { ScanFailed(table, fileLength, k, n - 1); }
  }

  /** What a reader may rely on: all sections there, in the file, with records of the right size in them. */
  predicate WellFormed(slots: Slots, h: FileHeader) {
    && (forall i :: 0 <= i < 19 ==> slots[i].id == REQUIRED[i] && InFile(slots[i], h.fileSize))
    && (forall i :: 0 <= i < 19 && slots[i].entrySize != 0 ==> RecordsFit(slots[i]))
    && slots[18].offset == h.pageDataOffset && slots[18].length == h.pageDataLength
    && slots[13].recordCount > 0
    && slots[12].entrySize == 80 && slots[13].entrySize == 128 && slots[14].entrySize == 48
    && slots[15].entrySize == 32 && slots[16].entrySize == 24 && slots[17].entrySize == 24
  }

  lemma {:induction false} ScanKeepsInFile(table: Bytes, fileLength: nat, k: nat)
    ensures var r := Scanned(table, fileLength, k);
            r.Ok? ==> forall i :: 0 <= i < 19 && r.value[i].id != 0 ==>
                        InFile(r.value[i], fileLength) && (r.value[i].entrySize != 0 ==> RecordsFit(r.value[i]))
  {
    if k > 0 { ScanKeepsInFile(table, fileLength, k - 1); }
  }

  /** Opening a file: its header, then its section table. */
  datatype Book = Book(header: FileHeader, sections: Slots)

  function Open(file: Bytes): Result<Book, FormatError> {
    if |file| < HEADER_SIZE then Err(ReadFailed)
    else
      match ParseHeader(file[..HEADER_SIZE], |file|)
      case Err(e) => Err(e)
      case Ok(h) =>
        var end := h.sectionTableOffset + 40 * h.sectionCount;
        if end > |file| then Err(ReadFailed)
        else
          match Directory(file[h.sectionTableOffset..end], h)
          case Err(e) => Err(e)
          case Ok(sections) => Ok(Book(h, sections))
  }
}
