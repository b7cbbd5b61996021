/** From a compiled plane to the bytes of the finished file and back. */
module StoredBook {
  import opened Common
  import opened PageRecords
  import opened PackBitsDecoder
  import opened PackBitsEncoder
  import opened PageIndices
  import opened BuiltPages
  import opened SectionTable
  import opened BookFile

  /** The bytes of the file that hold the record of page `n`. */
  function PageRecordIn(book: Book, file: Bytes, n: nat): Bytes {
    var at := book.sections[PAGE_INDEX_SLOT].offset + 128 * n;
    if at + 128 <= |file| then file[at..at + 128] else []
  }

  /** The bytes of the file a plane's directory entry points at. */
  function PlaneIn(book: Book, file: Bytes, plane: Plane): Bytes {
    var at := book.header.pageDataOffset + plane.offset;
    if at + plane.length <= |file| then file[at..at + plane.length] else []
  }

  /**
   A reader that opens the file, reads the record of page `n` and fetches the plane it names in a slot, gets a
   code that decodes to the very plane that was compiled.
   */
  lemma PlaneComesBack(
    book: Book, file: Bytes, datas: seq<Bytes>, pages: seq<CompiledPage>, built: PageSections, n: nat, j: nat,
        plane: Bytes)
    requires |datas| == 19 && Finds(book, file, datas)
    requires datas[PAGE_INDEX_SLOT] == built.pageIndex && datas[PAGE_DATA_SLOT] == built.pageData
    requires Built(pages, built) && n < |pages| <= U32_LIMIT && j < |pages[n].planes|
    requires Typed(pages[n]) && FormatOf(pages[n].format).Some?
    requires Expanded(Joined(pages[n].planes[j].chunks)) == Some(plane)
    ensures var info := ParsePage(PageRecordIn(book, file, n), n, |built.pageData|);
            && info.Some? && info.value.planes[pages[n].planes[j].slot].Some?
            && var stored := info.value.planes[pages[n].planes[j].slot].value;
               Expanded(PlaneIn(book, file, stored)) == Some(plane)
  {
    hide Joined, Expanded, ParsePage, PageRecordIn, InfoOf, ValidPage, Typed, FormatOf, Built;
    RecordComesBack(book, file, datas, pages, built, n);
    var slot := HeldPlane(pages, built, n, j);
    var stored := InfoOf(pages, n).planes[slot].value;
    var entry := book.sections[PAGE_DATA_SLOT];
    assert RangeHolds(file, entry, built.pageData);
    PartComesBack(file, entry, built.pageData, stored.offset, stored.length);
  }

  lemma HeldPlane(pages: seq<CompiledPage>, built: PageSections, n: nat, j: nat) returns (slot: nat)
    requires Built(pages, built) && n < |pages| <= U32_LIMIT && j < |pages[n].planes|
    requires Typed(pages[n]) && FormatOf(pages[n].format).Some?
    ensures ValidPage(pages[n]) && slot == pages[n].planes[j].slot < 4
    ensures var held := InfoOf(pages, n).planes[slot];
            && held.Some? && held.value.offset + held.value.length <= |built.pageData|
            && built.pageData[held.value.offset..held.value.offset + held.value.length]
            == Joined(pages[n].planes[j].chunks)
  {
    hide Joined, InfoOf, FormatOf, PagesData, ChunkIndex, PageIndex, AllRecs, Typed, PageFitsData, PlaneIsAt;
    PlanesAreHeld(pages, built, n);
    hide Built;
    slot := pages[n].planes[j].slot;
    var stored := InfoOf(pages, n).planes[slot].value;
    assert PlaneHeld(stored, built.pageData, pages[n].planes[j]);
  }

  lemma PartComesBack(file: Bytes, entry: Section, data: Bytes, offset: nat, length: nat)
    requires RangeHolds(file, entry, data) && offset + length <= |data|
    ensures var at := entry.offset + offset;
            at + length <= |file| && file[at..at + length] == data[offset..offset + length]
  {
    SliceOfSlice(file, entry.offset, entry.offset + entry.length, offset, offset + length);
  }

  lemma RecordComesBack(
    book: Book, file: Bytes, datas: seq<Bytes>, pages: seq<CompiledPage>, built: PageSections, n: nat)
    requires |datas| == 19 && Finds(book, file, datas) && datas[PAGE_INDEX_SLOT] == built.pageIndex
    requires Built(pages, built) && n < |pages| <= U32_LIMIT && Typed(pages[n]) && FormatOf(pages[n].format).Some?
    ensures ParsePage(PageRecordIn(book, file, n), n, |built.pageData|) == Some(InfoOf(pages, n))
  {
    hide ParsePage, PagesData, ChunkIndex, AllRecs, Typed, FormatOf, PageFitsData, PageRec, PageBytes, ValidPage;
    var entry := book.sections[PAGE_INDEX_SLOT];
    assert RangeHolds(file, entry, built.pageIndex);
    PartComesBack(file, entry, built.pageIndex, 128 * n, 128);
    PageIndexAt(pages, n, |pages|);
    RecordIsSound(pages, built, n);
    RecordReadsBack(pages, built, n);
  }
}
