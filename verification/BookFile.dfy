/** Putting the 19 sections of a book into one file, and the strict reader finding them again. */
module BookFile {
  import opened Common
  import opened Wire
  import opened SectionTable
  import opened Crc32

  datatype SectionData = SectionData(id: nat, data: Bytes, entrySize: nat, recordCount: nat)

  datatype WriteError = LengthOverflow | TooManyRecords

  const PAGE_ALIGNMENT: nat := 65536

  const FIRST_SECTION: nat := 1016  // the header and 19 entries

  /** The record size the reader demands of the section in a slot; zero where it is not made of records. */
  function RecordSize(slot: nat): nat {
    match slot
    case 12 => 80
    case 13 => 128
    case 14 => 48
    case 15 => 32
    case 16 => 24
    case 17 => 24
    case _ => 0
  }

  predicate Complete(sections: seq<SectionData>) {
    && |sections| == 19
    && forall i :: 0 <= i < 19 ==>
         && sections[i].id == REQUIRED[i] && sections[i].entrySize == RecordSize(i)
         && (if RecordSize(i) == 0 then sections[i].recordCount == 0
             else RecordSize(i) * sections[i].recordCount == |sections[i].data| && sections[i].recordCount < U32_LIMIT)
  }

  /** The first `k` sections' bytes, one after the other. */
  function SectionsJoined(sections: seq<SectionData>, k: nat): Bytes
    requires k <= |sections|
  {
    if k == 0 then [] else SectionsJoined(sections, k - 1) + sections[k - 1].data
  }

  function Start(sections: seq<SectionData>, pageDataOffset: nat, i: nat): nat
    requires i < 19 == |sections|
  {
    if i == PAGE_DATA_SLOT then pageDataOffset else FIRST_SECTION + |SectionsJoined(sections, i)|
  }

  function EntryOf(sections: seq<SectionData>, pageDataOffset: nat, i: nat): Section
    requires i < 19 == |sections|
  {
    var s := sections[i];
    Section(s.id, 0, Start(sections, pageDataOffset, i), |s.data|, s.entrySize, s.recordCount, Checksum(s.data))
  }

  function Table(sections: seq<SectionData>, pageDataOffset: nat, k: nat): (table: Bytes)
    requires k <= 19 == |sections|
    ensures |table| == 40 * k
  {
    if k == 0 then []
    else Table(sections, pageDataOffset, k - 1) + EntryRecord(EntryOf(sections, pageDataOffset, k - 1))
  }

  function HeaderOf(pageData: Bytes, pageDataOffset: nat): FileHeader {
    FileHeader(pageDataOffset + |pageData|, HEADER_SIZE, 760, 19, pageDataOffset, |pageData|)
  }

  /** Cut or padded with zeros to a length. */
  function Resized(b: Bytes, n: nat): (r: Bytes)
    ensures |r| == n
  {
    if n <= |b| then b[..n] else b + seq(n - |b|, _ => 0)
  }

  function FileBytes(sections: seq<SectionData>, pageDataOffset: nat): Bytes
    requires |sections| == 19
  {
    var pageData := sections[PAGE_DATA_SLOT].data;
    var front :=
      HeaderRecord(HeaderOf(pageData, pageDataOffset)) + Table(sections, pageDataOffset, 19)
      + SectionsJoined(sections, PAGE_DATA_SLOT);
    Resized(front, pageDataOffset) + pageData
  }

  function AlignUp(value: nat, alignment: nat): nat
    requires alignment > 0
  {
    (value + (alignment - 1)) / alignment * alignment
  }

  lemma AlignUpIsNextMultiple(value: nat)
    ensures AlignUp(value, PAGE_ALIGNMENT) % PAGE_ALIGNMENT == 0
    ensures value <= AlignUp(value, PAGE_ALIGNMENT) < value + PAGE_ALIGNMENT
  {
  }

  method Assemble(sections: seq<SectionData>, pageDataOffset: nat) returns (r: Result<Bytes, WriteError>)
    requires Complete(sections)
    ensures r.Ok? <==> pageDataOffset + |sections[PAGE_DATA_SLOT].data| < U64_LIMIT
    ensures r.Ok? ==> r.value == FileBytes(sections, pageDataOffset)
  {
    hide EntryRecord, HeaderRecord, Complete, SectionsJoined, Table, Resized, Checksum;
    var cursor := HEADER_SIZE + 19 * ENTRY_SIZE;
    var entries: Bytes, metadata: Bytes, pageData: Bytes := [], [], [];
    CompleteIds(sections);
    SoFar(sections, pageDataOffset, 0);
    for i := 0 to 19
      invariant entries == Table(sections, pageDataOffset, i)
      invariant metadata == SectionsJoined(sections, Min(i, PAGE_DATA_SLOT)) && cursor == FIRST_SECTION + |metadata|
      invariant i == 19 ==> pageData == sections[PAGE_DATA_SLOT].data
    {
      SoFar(sections, pageDataOffset, i);
      var section := sections[i];
      var isPageData := section.id == 50;
      var offset := if isPageData then pageDataOffset else cursor;
      var entry := Section(section.id, 0, offset, |section.data|, section.entrySize, section.recordCount,
                           Checksum(section.data));
      entries := entries + EntryRecord(entry);
      if isPageData {
        pageData := section.data;
      } else {
        cursor := cursor + |section.data|;
        metadata := metadata + section.data;
      }
    }
    var fileSize := pageDataOffset + |pageData|;
    if fileSize >= U64_LIMIT { return Err(LengthOverflow); }
    var header := FileHeader(fileSize, HEADER_SIZE, |entries|, |entries| / ENTRY_SIZE, pageDataOffset, |pageData|);
    var output := HeaderRecord(header) + entries + metadata;
    output := Resized(output, pageDataOffset);
    return Ok(output + pageData);
  }

  lemma SoFar(sections: seq<SectionData>, pageDataOffset: nat, i: nat)
    requires i < |sections| == 19 && forall k :: 0 <= k < 19 ==> sections[k].id == REQUIRED[k]
    ensures SectionsJoined(sections, 0) == [] == Table(sections, pageDataOffset, 0)
    ensures SectionsJoined(sections, i + 1) == SectionsJoined(sections, i) + sections[i].data
    ensures Table(sections, pageDataOffset, i + 1) ==
            Table(sections, pageDataOffset, i) + EntryRecord(EntryOf(sections, pageDataOffset, i))
    ensures sections[i].id == 50 <==> i == PAGE_DATA_SLOT
  {
    hide EntryRecord;
  }

  lemma CompleteIds(sections: seq<SectionData>)
    requires Complete(sections)
    ensures |sections| == 19 && forall i :: 0 <= i < 19 ==> sections[i].id == REQUIRED[i]
  {
  }

  // ---- The reader finds what was written ----

  /** Page data after everything else, and the whole short enough. */
  predicate Roomy(sections: seq<SectionData>, pageDataOffset: nat) {
    && Complete(sections)
    && FIRST_SECTION + |SectionsJoined(sections, PAGE_DATA_SLOT)| <= pageDataOffset
    && pageDataOffset + |sections[PAGE_DATA_SLOT].data| < U64_LIMIT
  }

  lemma {:induction false} JoinedAt(sections: seq<SectionData>, i: nat, k: nat)
    requires i < k <= |sections|
    ensures |SectionsJoined(sections, i)| + |sections[i].data| <= |SectionsJoined(sections, k)|
    ensures var at := |SectionsJoined(sections, i)|;
            SectionsJoined(sections, k)[at..at + |sections[i].data|] == sections[i].data
  {
    if i < k - 1 { JoinedAt(sections, i, k - 1); }
  }

  /** The range of every entry holds exactly that section's bytes. */
  lemma SectionStands(sections: seq<SectionData>, pageDataOffset: nat, i: nat)
    requires Roomy(sections, pageDataOffset) && i < 19
    ensures var file, start := FileBytes(sections, pageDataOffset), Start(sections, pageDataOffset, i);
            start + |sections[i].data| <= |file| && file[start..start + |sections[i].data|] == sections[i].data
  {
    hide SectionsJoined, Table, HeaderRecord;
    var file := FileBytes(sections, pageDataOffset);
    var data := sections[i].data;
    if i == PAGE_DATA_SLOT {
      assert file[pageDataOffset..] == data;
    } else {
      JoinedAt(sections, i, PAGE_DATA_SLOT);
      var all := SectionsJoined(sections, PAGE_DATA_SLOT);
      var at := |SectionsJoined(sections, i)|;
      assert file[FIRST_SECTION..FIRST_SECTION + |all|] == all;
      SliceOfSlice(file, FIRST_SECTION, FIRST_SECTION + |all|, at, at + |data|);
    }
  }

  /** Sections lie one after the other, behind the table, page data last. */
  lemma SectionsAreApart(sections: seq<SectionData>, pageDataOffset: nat, i: nat, k: nat)
    requires Roomy(sections, pageDataOffset) && i < k < 19
    ensures FIRST_SECTION <= Start(sections, pageDataOffset, i)
    ensures Start(sections, pageDataOffset, i) + |sections[i].data| <= Start(sections, pageDataOffset, k)
  {
    JoinedAt(sections, i, if k == PAGE_DATA_SLOT then PAGE_DATA_SLOT else k);
  }

  lemma {:induction false} TableAt(sections: seq<SectionData>, pageDataOffset: nat, i: nat, k: nat)
    requires i < k <= 19 == |sections|
    ensures Table(sections, pageDataOffset, k)[40 * i..40 * (i + 1)] ==
            EntryRecord(EntryOf(sections, pageDataOffset, i))
  {
    hide EntryRecord;
    if i < k - 1 { TableAt(sections, pageDataOffset, i, k - 1); }
  }

  lemma EntryIsSound(sections: seq<SectionData>, pageDataOffset: nat, i: nat)
    requires Roomy(sections, pageDataOffset) && i < 19
    ensures var e := EntryOf(sections, pageDataOffset, i);
            && SectionFits(e) && e.id == REQUIRED[i] && e.entrySize == RecordSize(i)
            && InFile(e, |FileBytes(sections, pageDataOffset)|)
            && (e.entrySize != 0 ==> RecordsFit(e) && e.recordCount == |sections[i].data| / RecordSize(i))
            && (e.entrySize == 0 ==> e.recordCount == 0)
  {
    hide SectionsJoined, Table, HeaderRecord, FileBytes, Checksum;
    SectionStands(sections, pageDataOffset, i);
    assert |FileBytes(sections, pageDataOffset)| < U64_LIMIT by { FileLength(sections, pageDataOffset); }
    assert REQUIRED[i] < 0x1_0000;
  }

  lemma FileLength(sections: seq<SectionData>, pageDataOffset: nat)
    requires |sections| == 19
    ensures |FileBytes(sections, pageDataOffset)| == pageDataOffset + |sections[PAGE_DATA_SLOT].data|
  {
  }

  /** The reader's slots when `k` of the entries have been read. */
  ghost predicate HasRead(sections: seq<SectionData>, pageDataOffset: nat, slots: Slots, k: nat)
    requires |sections| == 19
  {
    && forall i :: 0 <= i < 19 ==> slots[i] == if i < k then EntryOf(sections, pageDataOffset, i) else EMPTY
  }

  lemma {:induction false} TableScans(sections: seq<SectionData>, pageDataOffset: nat, k: nat)
    requires Roomy(sections, pageDataOffset) && k <= 19
    ensures var r := Scanned(Table(sections, pageDataOffset, 19), |FileBytes(sections, pageDataOffset)|, k);
            r.Ok? && HasRead(sections, pageDataOffset, r.value, k)
  {
    RoomyLength(sections, pageDataOffset);
    hide Table, EntryOf, EntryRecord, FileBytes, Scanned, SlotFrom, ReadEntry, Roomy, Checksum;
    var table, length := Table(sections, pageDataOffset, 19), |FileBytes(sections, pageDataOffset)|;
    ScanStep(table, length, 0);
    if k > 0 {
      var i := k - 1;
      TableScans(sections, pageDataOffset, i);
      ScanStep(table, length, i);
      TableAt(sections, pageDataOffset, i, 19);
      EntryIsSound(sections, pageDataOffset, i);
      EntryReadsBack(EntryOf(sections, pageDataOffset, i));
      SlotsAreDistinct(i);
    }
  }

  lemma RoomyLength(sections: seq<SectionData>, pageDataOffset: nat)
    requires Roomy(sections, pageDataOffset)
    ensures |sections| == 19
  {
  }

  lemma FrontOfFile(sections: seq<SectionData>, pageDataOffset: nat)
    requires Roomy(sections, pageDataOffset)
    ensures var file, h := FileBytes(sections, pageDataOffset), HeaderOf(sections[PAGE_DATA_SLOT].data, pageDataOffset);
            && |file| >= FIRST_SECTION && file[..HEADER_SIZE] == HeaderRecord(h)
            && file[HEADER_SIZE..FIRST_SECTION] == Table(sections, pageDataOffset, 19)
  {
    hide SectionsJoined, Table, HeaderRecord;
  }

  /** The strict reader accepts the file of any 19 sections with a page among them, and finds each where it is. */
  lemma BookOpens(sections: seq<SectionData>, pageDataOffset: nat)
    requires Roomy(sections, pageDataOffset)
    ensures var r := Open(FileBytes(sections, pageDataOffset));
            if sections[PAGE_INDEX_SLOT].data == [] then r == Err(InvalidPage)
            else
              && r.Ok? && r.value.header == HeaderOf(sections[PAGE_DATA_SLOT].data, pageDataOffset)
              && HasRead(sections, pageDataOffset, r.value.sections, 19)
  {
    var file, h := FileBytes(sections, pageDataOffset), HeaderOf(sections[PAGE_DATA_SLOT].data, pageDataOffset);
    FrontOfFile(sections, pageDataOffset);
    FileLength(sections, pageDataOffset);
    HeaderReadsBack(h);
    assert ParseHeader(file[..HEADER_SIZE], |file|) == Ok(h) by { hide Table, SectionsJoined, FileBytes, HeaderRecord; }
    TableScans(sections, pageDataOffset, 19);
    TableIsAccepted(sections, pageDataOffset, h);
  }

  lemma TableIsAccepted(sections: seq<SectionData>, pageDataOffset: nat, h: FileHeader)
    requires Roomy(sections, pageDataOffset) && h == HeaderOf(sections[PAGE_DATA_SLOT].data, pageDataOffset)
    ensures var r := Directory(Table(sections, pageDataOffset, 19), h);
            if sections[PAGE_INDEX_SLOT].data == [] then r == Err(InvalidPage)
            else r.Ok? && HasRead(sections, pageDataOffset, r.value, 19)
  {
    hide Table, SectionsJoined, FileBytes, Scanned;
    FileLength(sections, pageDataOffset);
    TableScans(sections, pageDataOffset, 19);
    var slots := Scanned(Table(sections, pageDataOffset, 19), h.fileSize, 19).value;
    forall i | 0 <= i < 19
      ensures slots[i] == EntryOf(sections, pageDataOffset, i)
      ensures slots[i].id == REQUIRED[i] && slots[i].entrySize == RecordSize(i)
    {
      EntryIsSound(sections, pageDataOffset, i);
    }
    assert slots[PAGE_DATA_SLOT].recordCount == 0;
    assert slots[PAGE_INDEX_SLOT].recordCount == 0 <==> sections[PAGE_INDEX_SLOT].data == [] by {
      assert 128 * slots[PAGE_INDEX_SLOT].recordCount == |sections[PAGE_INDEX_SLOT].data|;
    }
    CheckedAccepts(slots, h);
  }

  lemma CheckedAccepts(slots: Slots, h: FileHeader)
    requires forall i :: 0 <= i < 19 ==> slots[i].id == REQUIRED[i] && slots[i].entrySize == RecordSize(i)
    requires slots[PAGE_DATA_SLOT].recordCount == 0
    requires slots[PAGE_DATA_SLOT].offset == h.pageDataOffset && slots[PAGE_DATA_SLOT].length == h.pageDataLength
    ensures Checked(slots, h) == if slots[PAGE_INDEX_SLOT].recordCount == 0 then Err(InvalidPage) else Ok(slots)
  {
  }

  // ---- From section contents to a file ----

  /** Record sections hold whole records, no more than can be counted. */
  predicate RecordsDivide(datas: seq<Bytes>)
    requires |datas| == 19
  {
    forall i :: 0 <= i < 19 && RecordSize(i) != 0 ==>
      |datas[i]| % RecordSize(i) == 0 && |datas[i]| / RecordSize(i) < U32_LIMIT
  }

  function PageDataStart(datas: seq<Bytes>): nat
    requires |datas| == 19
  {
    AlignUp(FIRST_SECTION + TotalLength(datas[..PAGE_DATA_SLOT]), PAGE_ALIGNMENT)
  }

  /** The data of the 19 sections, in the reader's order, with their records counted. */
  method PrepareSections(datas: seq<Bytes>) returns (r: Result<seq<SectionData>, WriteError>)
    requires |datas| == 19
    ensures r.Ok? <==> RecordsDivide(datas)
    ensures r.Ok? ==> Complete(r.value) && forall i :: 0 <= i < 19 ==> r.value[i].data == datas[i]
  {
    var sections: seq<SectionData> := [];
    for i := 0 to 19
      invariant |sections| == i && forall k :: 0 <= k < i ==> Prepared(sections[k], datas, k)
    {
      var size, data := RecordSize(i), datas[i];
      if size == 0 {
        sections := sections + [SectionData(REQUIRED[i], data, 0, 0)];
      } else if |data| % size != 0 {
        return Err(LengthOverflow);
      } else if |data| / size >= U32_LIMIT {
        return Err(TooManyRecords);
      } else {
        assert size * (|data| / size) == |data|;
        sections := sections + [SectionData(REQUIRED[i], data, size, |data| / size)];
      }
    }
    PreparedIsComplete(sections, datas);
    return Ok(sections);
  }

  /**
   Builds the book's file. Where it succeeds the reader finds every section's bytes in its range, page data
   beginning at a multiple of 65,536, and nothing of the other sections is cut off in front of it.
   */
  method BuildBytes(datas: seq<Bytes>) returns (r: Result<Bytes, WriteError>)
    requires |datas| == 19
    ensures r.Ok? <==> RecordsDivide(datas) && PageDataStart(datas) + |datas[PAGE_DATA_SLOT]| < U64_LIMIT
    ensures r.Ok? ==> if datas[PAGE_INDEX_SLOT] == [] then Open(r.value) == Err(InvalidPage)
                      else Open(r.value).Ok? && Finds(Open(r.value).value, r.value, datas)
  {
    hide RecordsDivide, Complete, Open, Finds, FileBytes;
    var prepared := PrepareSections(datas);
    if prepared.Err? { return Err(prepared.error); }
    var sections := prepared.value;
    CompleteIds(sections);
    var metadataLength := |SectionsJoined(sections, PAGE_DATA_SLOT)|;
    JoinedIsTotal(sections, datas, PAGE_DATA_SLOT);
    AlignUpIsNextMultiple(FIRST_SECTION + metadataLength);
    if FIRST_SECTION + metadataLength + (PAGE_ALIGNMENT - 1) >= U64_LIMIT { return Err(LengthOverflow); }
    var pageDataOffset := AlignUp(FIRST_SECTION + metadataLength, PAGE_ALIGNMENT);
    r := Assemble(sections, pageDataOffset);
    if r.Ok? { BuiltBookIsFound(sections, datas, pageDataOffset); }
  }

  lemma BuiltBookIsFound(sections: seq<SectionData>, datas: seq<Bytes>, pageDataOffset: nat)
    requires Roomy(sections, pageDataOffset) && |datas| == 19 && pageDataOffset % PAGE_ALIGNMENT == 0
    requires forall i :: 0 <= i < 19 ==> sections[i].data == datas[i]
    ensures var file := FileBytes(sections, pageDataOffset);
            if datas[PAGE_INDEX_SLOT] == [] then Open(file) == Err(InvalidPage)
            else Open(file).Ok? && Finds(Open(file).value, file, datas)
  {
    hide SectionsJoined, Table, HeaderRecord, FileBytes, Open;
    FileLength(sections, pageDataOffset);
    BookOpens(sections, pageDataOffset);
    forall i | 0 <= i < 19
      ensures RangeHolds(FileBytes(sections, pageDataOffset), EntryOf(sections, pageDataOffset, i), datas[i])
      ensures RecordSize(i) != 0 ==> EntryOf(sections, pageDataOffset, i).recordCount == |datas[i]| / RecordSize(i)
    {
      SectionStands(sections, pageDataOffset, i);
      EntryIsSound(sections, pageDataOffset, i);
    }
  }

  function TotalLength(datas: seq<Bytes>): nat {
    if datas == [] then 0 else TotalLength(datas[..|datas| - 1]) + |datas[|datas| - 1]|
  }

  predicate Prepared(section: SectionData, datas: seq<Bytes>, i: nat)
    requires i < |datas| == 19
  {
    && section.id == REQUIRED[i] && section.data == datas[i] && section.entrySize == RecordSize(i)
    && (if RecordSize(i) == 0 then section.recordCount == 0
        else RecordSize(i) * section.recordCount == |datas[i]| && section.recordCount < U32_LIMIT)
  }

  lemma PreparedIsComplete(sections: seq<SectionData>, datas: seq<Bytes>)
    requires |sections| == |datas| == 19 && forall i :: 0 <= i < 19 ==> Prepared(sections[i], datas, i)
    ensures Complete(sections) && RecordsDivide(datas)
  {
    forall i | 0 <= i < 19 && RecordSize(i) != 0
      ensures |datas[i]| % RecordSize(i) == 0 && |datas[i]| / RecordSize(i) < U32_LIMIT
    {
      assert Prepared(sections[i], datas, i);
    }
  }

  predicate RangeHolds(file: Bytes, entry: Section, data: Bytes) {
    entry.offset + entry.length <= |file| && file[entry.offset..entry.offset + entry.length] == data
  }

  /** The opened book's entries give each section's bytes, records counted, page data aligned. */
  ghost predicate Finds(book: Book, file: Bytes, datas: seq<Bytes>)
    requires |datas| == 19
  {
    && book.header.pageDataOffset % PAGE_ALIGNMENT == 0 && book.header.fileSize == |file|
    && book.sections[PAGE_DATA_SLOT].offset == book.header.pageDataOffset
    && forall i :: 0 <= i < 19 ==>
         && RangeHolds(file, book.sections[i], datas[i])
         && book.sections[i].crc32 == Checksum(datas[i])
         && (RecordSize(i) != 0 ==> book.sections[i].recordCount == |datas[i]| / RecordSize(i))
  }

  lemma {:induction false} JoinedIsTotal(sections: seq<SectionData>, datas: seq<Bytes>, k: nat)
    requires k <= |sections| == |datas| && forall i :: 0 <= i < |datas| ==> sections[i].data == datas[i]
    ensures |SectionsJoined(sections, k)| == TotalLength(datas[..k])
  {
    if k > 0 {
      JoinedIsTotal(sections, datas, k - 1);
      assert datas[..k][..k - 1] == datas[..k - 1];
    }
  }
}
