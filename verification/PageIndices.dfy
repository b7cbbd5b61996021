/** Laying compiled pages out: page data, and the indices of pages and chunks that point into it. */
module PageIndices {
  import opened Common
  import opened Crc32
  import opened Bits
  import opened PageRecords
  import opened PackBitsEncoder

  datatype CompressionMethod = Stored | RlePackBits | Lz4

  datatype CompiledPlane = CompiledPlane(slot: nat, compression: CompressionMethod, chunks: seq<CompiledChunk>)

  datatype CompiledPage = CompiledPage(
    kind: nat, format: nat, width: nat, height: nat, spine: nat, chapter: nat, planes: seq<CompiledPlane>)

  datatype ModelError =
    NoPages | EmptyPlane | InvalidPlaneSlot | DuplicatePlaneSlot | EmptyChunk | LengthOverflow | TooManyRecords

  /** The widths of the page's and the chunks' numbers. */
  predicate Typed(page: CompiledPage) {
    && page.kind < U16_LIMIT && page.format < U16_LIMIT && page.width < U16_LIMIT && page.height < U16_LIMIT
    && page.spine < U32_LIMIT && page.chapter < U32_LIMIT
    && forall k :: 0 <= k < |page.planes| ==> page.planes[k].slot < 256 && ChunksTyped(page.planes[k].chunks)
  }

  predicate ChunksTyped(chunks: seq<CompiledChunk>) {
    forall c :: 0 <= c < |chunks| ==>
      chunks[c].rowStart < U16_LIMIT && chunks[c].rowCount < U16_LIMIT && chunks[c].uncompressedSize < U32_LIMIT
  }

  predicate NoEmptyChunk(chunks: seq<CompiledChunk>) {
    chunks != [] && forall c :: 0 <= c < |chunks| ==> chunks[c].compressed != []
  }

  /** What a page needs: planes, each with chunks, none of them empty, in slots of their own. */
  predicate ValidPage(page: CompiledPage) {
    page.planes != [] && ValidPlanes(page.planes)
  }

  predicate ValidPlanes(planes: seq<CompiledPlane>) {
    && (forall k :: 0 <= k < |planes| ==> planes[k].slot < 4 && NoEmptyChunk(planes[k].chunks))
    && forall j, k :: 0 <= j < k < |planes| ==> planes[j].slot != planes[k].slot
  }

  /** An error names something that is wrong with the page. */
  predicate Blames(page: CompiledPage, error: ModelError) {
    match error
    case EmptyPlane => page.planes == [] || exists k :: 0 <= k < |page.planes| && page.planes[k].chunks == []
    case InvalidPlaneSlot => exists k :: 0 <= k < |page.planes| && page.planes[k].slot >= 4
    case DuplicatePlaneSlot =>
      exists j, k :: 0 <= j < k < |page.planes| && page.planes[j].slot == page.planes[k].slot
    case EmptyChunk => exists k :: 0 <= k < |page.planes| && HasEmptyChunk(page.planes[k].chunks)
    case _ => false
  }

  predicate HasEmptyChunk(chunks: seq<CompiledChunk>) {
    exists c :: 0 <= c < |chunks| && chunks[c].compressed == []
  }

  method ValidatePage(page: CompiledPage) returns (r: Result<(), ModelError>)
    ensures r.Ok? <==> ValidPage(page)
    ensures r.Err? ==> Blames(page, r.error)
  {
    if page.planes == [] { return Err(EmptyPlane); }
    var bitmap: nat := 0;
    forall slot: nat
      ensures !HasBit(0, slot)
    {
      NoBits(slot);
    }
    for k := 0 to |page.planes|
      invariant ValidPlanes(page.planes[..k]) && bitmap < 16
      invariant forall slot :: 0 <= slot < 4 ==> (HasBit(bitmap, slot) <==> SlotUsed(page.planes, k, slot))
    {
      var plane := page.planes[k];
      if plane.slot >= 4 { return Err(InvalidPlaneSlot); }
      if HasBit(bitmap, plane.slot) { return Err(DuplicatePlaneSlot); }
      if plane.chunks == [] { return Err(EmptyPlane); }
      if HasEmptyChunk(plane.chunks) { return Err(EmptyChunk); }
      WithSlot(bitmap, plane.slot);
      bitmap := SetBit(bitmap, plane.slot);
      assert page.planes[..k + 1] == page.planes[..k] + [plane];
    }
    assert page.planes[..|page.planes|] == page.planes;
    return Ok(());
  }

  /** One of the first `k` planes is in the slot. */
  predicate SlotUsed(planes: seq<CompiledPlane>, k: nat, slot: nat)
    requires k <= |planes|
  {
    exists j :: 0 <= j < k && planes[j].slot == slot
  }

  // ---- The layout ----

  /** Padded with zeros to a multiple of four. */
  function Aligned(data: Bytes): (r: Bytes)
    ensures |r| % 4 == 0 && |data| <= |r| < |data| + 4 && r[..|data|] == data
  {
    data + seq((|data| + 3) / 4 * 4 - |data|, _ => 0)
  }

  /** Page data after the first `k` planes. */
  function PlanesData(data: Bytes, planes: seq<CompiledPlane>, k: nat): Bytes
    requires k <= |planes|
  {
    if k == 0 then data else Aligned(PlanesData(data, planes, k - 1)) + Joined(planes[k - 1].chunks)
  }

  function PlaneStart(data: Bytes, planes: seq<CompiledPlane>, k: nat): nat
    requires k < |planes|
  {
    |Aligned(PlanesData(data, planes, k))|
  }

  /** Page data after the first `n` pages. */
  function PagesData(pages: seq<CompiledPage>, n: nat): Bytes
    requires n <= |pages|
  {
    if n == 0 then [] else PlanesData(PagesData(pages, n - 1), pages[n - 1].planes, |pages[n - 1].planes|)
  }

  function ChunkRec(number: nat, plane: CompiledPlane, start: nat, c: nat): ChunkRecord
    requires c < |plane.chunks|
  {
    var chunk := plane.chunks[c];
    ChunkRecord(number, plane.slot, c, chunk.rowStart, chunk.rowCount, start + |Joined(plane.chunks[..c])|,
                |chunk.compressed|, chunk.uncompressedSize)
  }

  function PlaneRecs(number: nat, plane: CompiledPlane, start: nat, c: nat): seq<ChunkRecord>
    requires c <= |plane.chunks|
  {
    if c == 0 then [] else PlaneRecs(number, plane, start, c - 1) + [ChunkRec(number, plane, start, c - 1)]
  }

  function PageRecs(number: nat, data: Bytes, planes: seq<CompiledPlane>, k: nat): seq<ChunkRecord>
    requires k <= |planes|
  {
    if k == 0 then []
    else
      PageRecs(number, data, planes, k - 1)
      + PlaneRecs(number, planes[k - 1], PlaneStart(data, planes, k - 1), |planes[k - 1].chunks|)
  }

  function AllRecs(pages: seq<CompiledPage>, n: nat): seq<ChunkRecord>
    requires n <= |pages|
  {
    if n == 0 then []
    else AllRecs(pages, n - 1) + PageRecs(n - 1, PagesData(pages, n - 1), pages[n - 1].planes, |pages[n - 1].planes|)
  }

  datatype Directory = Directory(bitmap: nat, compressions: BySlot, offsets: BySlot, sizes: BySlot)

  function CompressionCode(c: CompressionMethod): nat {
    match c
    case Stored => 0
    case RlePackBits => 1
    case Lz4 => 2
  }

  function WithPlane(d: Directory, plane: CompiledPlane, offset: nat, size: nat): Directory
    requires plane.slot < 4
  {
    Directory(SetBit(d.bitmap, plane.slot), d.compressions[plane.slot := CompressionCode(plane.compression)],
              d.offsets[plane.slot := offset], d.sizes[plane.slot := size])
  }

  function DirectoryOf(data: Bytes, planes: seq<CompiledPlane>, k: nat): Directory
    requires k <= |planes| && forall j :: 0 <= j < |planes| ==> planes[j].slot < 4
  {
    if k == 0 then Directory(0, [0, 0, 0, 0], [0, 0, 0, 0], [0, 0, 0, 0])
    else
      WithPlane(DirectoryOf(data, planes, k - 1), planes[k - 1], PlaneStart(data, planes, k - 1),
                |Joined(planes[k - 1].chunks)|)
  }

  /** The chunks of the first `k` planes without padding between them. */
  function PlaneBytes(planes: seq<CompiledPlane>, k: nat): Bytes
    requires k <= |planes|
  {
    if k == 0 then [] else PlaneBytes(planes, k - 1) + Joined(planes[k - 1].chunks)
  }

  /** How far through the book page `n` of `total` begins, in millionths. */
  function Progress(n: nat, total: nat): nat
    requires total > 0
  {
    n * 1_000_000 / total
  }

  function PageRec(pages: seq<CompiledPage>, n: nat): PageRecord
    requires n < |pages| && ValidPage(pages[n])
  {
    var page := pages[n];
    var d := DirectoryOf(PagesData(pages, n), page.planes, |page.planes|);
    PageRecord(n, page.kind, page.format, CompressionCode(page.planes[0].compression), 1,
               Checksum(PlaneBytes(page.planes, |page.planes|)), page.width, page.height, page.spine, page.chapter,
               Progress(n, |pages|), Progress(n + 1, |pages|), d.bitmap, d.compressions, d.offsets, d.sizes)
  }

  function PageIndex(pages: seq<CompiledPage>, n: nat): (index: Bytes)
    requires n <= |pages| && forall i :: 0 <= i < n ==> ValidPage(pages[i])
    ensures |index| == 128 * n
  {
    if n == 0 then [] else PageIndex(pages, n - 1) + PageBytes(PageRec(pages, n - 1))
  }

  function ChunkIndex(recs: seq<ChunkRecord>): (index: Bytes)
    ensures |index| == 24 * |recs|
  {
    if recs == [] then [] else ChunkIndex(recs[..|recs| - 1]) + ChunkBytes(recs[|recs| - 1])
  }

  // ---- Building it ----

  lemma {:induction false} ChunkIndexJoin(x: seq<ChunkRecord>, y: seq<ChunkRecord>)
    ensures ChunkIndex(x + y) == ChunkIndex(x) + ChunkIndex(y)
  {
    hide ChunkBytes;
    if y == [] {
      assert x + y == x;
    } else {
      ChunkIndexJoin(x, y[..|y| - 1]);
      assert (x + y)[..|x + y| - 1] == x + y[..|y| - 1];
    }
  }

  lemma JoinedSnoc(chunks: seq<CompiledChunk>, c: nat)
    requires c < |chunks|
    ensures Joined(chunks[..c + 1]) == Joined(chunks[..c]) + chunks[c].compressed
    ensures Joined(chunks[..0]) == []
  {
    assert chunks[..c + 1][..c] == chunks[..c];
  }

  /** Everything about a plane fits the widths of the indices. */
  predicate PlaneFits(number: nat, plane: CompiledPlane, start: nat) {
    && number < U32_LIMIT && start < U32_LIMIT && |plane.chunks| <= 256 && |Joined(plane.chunks)| < U32_LIMIT
    && forall c :: 0 <= c < |plane.chunks| ==> ChunkFits(ChunkRec(number, plane, start, c))
  }

  method AppendPlane(number: nat, plane: CompiledPlane, data: Bytes) returns (r: Result<(Bytes, Bytes), ModelError>)
    requires ChunksTyped(plane.chunks) && plane.slot < 4 && NoEmptyChunk(plane.chunks)
    ensures r.Ok? ==> PlaneFits(number, plane, |Aligned(data)|)
    ensures r.Ok? ==> r.value.0 == Aligned(data) + Joined(plane.chunks)
    ensures r.Ok? ==> r.value.1 == ChunkIndex(PlaneRecs(number, plane, |Aligned(data)|, |plane.chunks|))
    ensures r.Err? ==>
              |Aligned(data) + Joined(plane.chunks)| >= U32_LIMIT || |plane.chunks| > 256 || number >= U32_LIMIT
  {
    hide Joined, ChunkBytes, ChunkIndex;
    var start := Aligned(data);
    var pageData, chunkIndex: Bytes := start, [];
    ghost var recs: seq<ChunkRecord> := [];
    NothingJoined();
    assert plane.chunks[..0] == [];
    for c := 0 to |plane.chunks|
      invariant pageData == start + Joined(plane.chunks[..c])
      invariant recs == PlaneRecs(number, plane, |start|, c) && chunkIndex == ChunkIndex(recs)
      invariant c <= 256 && (c > 0 ==> |start| < U32_LIMIT && number < U32_LIMIT)
      invariant forall i :: 0 <= i < c ==> ChunkFits(ChunkRec(number, plane, |start|, i))
    {
      var chunk := plane.chunks[c];
      JoinedSnoc(plane.chunks, c);
      JoinedGrows(plane.chunks, c);
      JoinedGrows(plane.chunks, c + 1);
      if |pageData| >= U32_LIMIT { return Err(LengthOverflow); }
      if number >= U32_LIMIT || c > 255 { return Err(TooManyRecords); }
      if |chunk.compressed| >= U32_LIMIT { return Err(LengthOverflow); }
      var record := ChunkRecord(number, plane.slot, c, chunk.rowStart, chunk.rowCount, |pageData|,
                                |chunk.compressed|, chunk.uncompressedSize);
      ChunkIndexSnoc(recs, record);
      recs := recs + [record];
      pageData, chunkIndex := pageData + chunk.compressed, chunkIndex + ChunkBytes(record);
    }
    assert plane.chunks[..|plane.chunks|] == plane.chunks;
    if |pageData| - |start| >= U32_LIMIT { return Err(LengthOverflow); }
    return Ok((pageData, chunkIndex));
  }

  lemma NothingJoined()
    ensures Joined([]) == [] && ChunkIndex([]) == []
  {
  }

  lemma ChunkIndexSnoc(recs: seq<ChunkRecord>, record: ChunkRecord)
    ensures ChunkIndex(recs + [record]) == ChunkIndex(recs) + ChunkBytes(record)
  {
    hide ChunkBytes;
    assert (recs + [record])[..|recs|] == recs;
  }

  lemma {:induction false} JoinedGrows(chunks: seq<CompiledChunk>, c: nat)
    requires c <= |chunks|
    ensures |Joined(chunks[..c])| <= |Joined(chunks)| && Joined(chunks)[..|Joined(chunks[..c])|] == Joined(chunks[..c])
    decreases |chunks|
  {
    if c == |chunks| {
      assert chunks[..c] == chunks;
    } else {
      JoinedGrows(chunks[..|chunks| - 1], c);
      assert chunks[..|chunks| - 1][..c] == chunks[..c];
    }
  }

  datatype PageSections = PageSections(pageIndex: Bytes, chunkIndex: Bytes, pageData: Bytes)

  predicate PageFitsData(number: nat, page: CompiledPage, data: Bytes) {
    forall k :: 0 <= k < |page.planes| ==> PlaneFits(number, page.planes[k], PlaneStart(data, page.planes, k))
  }

  /** The layout goes beyond what the indices can say. */
  predicate TooLarge(pages: seq<CompiledPage>) {
    || |PagesData(pages, |pages|)| >= U32_LIMIT || |pages| > U32_LIMIT
    || exists n :: 0 <= n < |pages| && HasLongPlane(pages[n].planes)
  }

  predicate HasLongPlane(planes: seq<CompiledPlane>) {
    exists k :: 0 <= k < |planes| && |planes[k].chunks| > 256
  }

  method AppendPage(pages: seq<CompiledPage>, n: nat, data: Bytes)
    returns (r: Result<PageSections, ModelError>)
    requires n < |pages| && Typed(pages[n]) && ValidPage(pages[n]) && data == PagesData(pages, n)
    ensures r.Ok? ==> PageFitsData(n, pages[n], data)
    ensures r.Ok? ==> r.value.pageIndex == PageBytes(PageRec(pages, n))
    ensures r.Ok? ==> r.value.chunkIndex == ChunkIndex(PageRecs(n, data, pages[n].planes, |pages[n].planes|))
    ensures r.Ok? ==> r.value.pageData == PagesData(pages, n + 1)
    ensures r.Err? ==> |PagesData(pages, n + 1)| >= U32_LIMIT || HasLongPlane(pages[n].planes) || n >= U32_LIMIT
  {
    hide Joined, PageBytes, ChunkIndex, PlaneFits, Checksum, PlaneRecs, Aligned;
    hide PlanesData, PageRecs, PlaneBytes, DirectoryOf, WithPlane, NoEmptyChunk, ChunksTyped, ChunkBytes;
    var page := pages[n];
    var pageData, chunkIndex, crcBytes: Bytes := data, [], [];
    var directory := Directory(0, [0, 0, 0, 0], [0, 0, 0, 0], [0, 0, 0, 0]);
    NothingJoined();
    NoPlanes(n, data, page.planes);
    for k := 0 to |page.planes|
      invariant pageData == PlanesData(data, page.planes, k) && crcBytes == PlaneBytes(page.planes, k)
      invariant chunkIndex == ChunkIndex(PageRecs(n, data, page.planes, k))
      invariant directory == DirectoryOf(data, page.planes, k)
      invariant forall j :: 0 <= j < k ==> PlaneFits(n, page.planes[j], PlaneStart(data, page.planes, j))
    {
      var plane := page.planes[k];
      NextPlane(n, data, page.planes, k);
      PlanesDataGrows(data, page.planes, k + 1, |page.planes|);
      var appended := AppendPlane(n, plane, pageData);
      if appended.Err? { return Err(appended.error); }
      var start := |Aligned(pageData)|;
      ChunkIndexJoin(PageRecs(n, data, page.planes, k), PlaneRecs(n, plane, start, |plane.chunks|));
      pageData, chunkIndex := appended.value.0, chunkIndex + appended.value.1;
      crcBytes := crcBytes + Joined(plane.chunks);
      directory := WithPlane(directory, plane, start, |pageData| - start);
    }
    var record := PageRecord(
      n, page.kind, page.format, CompressionCode(page.planes[0].compression), 1, Checksum(crcBytes),
      page.width, page.height, page.spine, page.chapter, Progress(n, |pages|), Progress(n + 1, |pages|),
      directory.bitmap, directory.compressions, directory.offsets, directory.sizes);
    return Ok(PageSections(PageBytes(record), chunkIndex, pageData));
  }

  lemma NoPlanes(n: nat, data: Bytes, planes: seq<CompiledPlane>)
    requires forall j :: 0 <= j < |planes| ==> planes[j].slot < 4
    ensures PlanesData(data, planes, 0) == data && PlaneBytes(planes, 0) == [] && PageRecs(n, data, planes, 0) == []
    ensures DirectoryOf(data, planes, 0) == Directory(0, [0, 0, 0, 0], [0, 0, 0, 0], [0, 0, 0, 0])
  {
  }

  lemma NextPlane(n: nat, data: Bytes, planes: seq<CompiledPlane>, k: nat)
    requires k < |planes| && forall j :: 0 <= j < |planes| ==> planes[j].slot < 4
    ensures PlanesData(data, planes, k + 1) == Aligned(PlanesData(data, planes, k)) + Joined(planes[k].chunks)
    ensures PlaneBytes(planes, k + 1) == PlaneBytes(planes, k) + Joined(planes[k].chunks)
    ensures PageRecs(n, data, planes, k + 1) ==
            PageRecs(n, data, planes, k) + PlaneRecs(n, planes[k], PlaneStart(data, planes, k), |planes[k].chunks|)
    ensures DirectoryOf(data, planes, k + 1) ==
            WithPlane(DirectoryOf(data, planes, k), planes[k], PlaneStart(data, planes, k), |Joined(planes[k].chunks)|)
  {
    hide Joined, Aligned, PlaneRecs, WithPlane;
  }

  lemma {:induction false} PlanesDataGrows(data: Bytes, planes: seq<CompiledPlane>, j: nat, k: nat)
    requires j <= k <= |planes|
    ensures |PlanesData(data, planes, j)| <= |PlanesData(data, planes, k)|
    ensures PlanesData(data, planes, k)[..|PlanesData(data, planes, j)|] == PlanesData(data, planes, j)
  {
    hide Joined;
    if j < k { PlanesDataGrows(data, planes, j, k - 1); }
  }

  lemma {:induction false} PagesDataGrows(pages: seq<CompiledPage>, m: nat, n: nat)
    requires m <= n <= |pages|
    ensures |PagesData(pages, m)| <= |PagesData(pages, n)|
    ensures PagesData(pages, n)[..|PagesData(pages, m)|] == PagesData(pages, m)
  {
    if m < n {
      PagesDataGrows(pages, m, n - 1);
      var planes := pages[n - 1].planes;
      PlanesDataGrows(PagesData(pages, n - 1), planes, 0, |planes|);
      assert PagesData(pages, n)[..|PagesData(pages, n - 1)|][..|PagesData(pages, m)|] == PagesData(pages, m);
    }
  }

  /** All pages are valid and fit, and these are their sections. */
  predicate Built(pages: seq<CompiledPage>, sections: PageSections) {
    && pages != [] && (forall n :: 0 <= n < |pages| ==> ValidPage(pages[n]))
    && (forall n :: 0 <= n < |pages| ==> PageFitsData(n, pages[n], PagesData(pages, n)))
    && sections.pageIndex == PageIndex(pages, |pages|)
    && sections.chunkIndex == ChunkIndex(AllRecs(pages, |pages|))
    && sections.pageData == PagesData(pages, |pages|)
  }

  method BuildPages(pages: seq<CompiledPage>) returns (r: Result<PageSections, ModelError>)
    requires forall n :: 0 <= n < |pages| ==> Typed(pages[n])
    ensures r.Ok? ==> Built(pages, r.value)
    ensures r.Err? ==> pages == [] || TooLarge(pages) || exists n :: 0 <= n < |pages| && !ValidPage(pages[n])
  {
    hide Typed, ValidPage, PagesData, ChunkIndex, PageBytes, PageFitsData, PageRec;
    if pages == [] { return Err(NoPages); }
    var pageIndex, chunkIndex, pageData: Bytes := [], [], [];
    StartOfPages(pages);
    for n := 0 to |pages|
      invariant forall i :: 0 <= i < n ==> ValidPage(pages[i])
      invariant forall i :: 0 <= i < n ==> PageFitsData(i, pages[i], PagesData(pages, i))
      invariant pageIndex == PageIndex(pages, n) && chunkIndex == ChunkIndex(AllRecs(pages, n))
      invariant pageData == PagesData(pages, n)
    {
      var valid := ValidatePage(pages[n]);
      if valid.Err? { return Err(valid.error); }
      PagesDataGrows(pages, n + 1, |pages|);
      var appended := AppendPage(pages, n, pageData);
      if appended.Err? { return Err(appended.error); }
      ChunkIndexJoin(AllRecs(pages, n), PageRecs(n, pageData, pages[n].planes, |pages[n].planes|));
      pageIndex, chunkIndex := pageIndex + appended.value.pageIndex, chunkIndex + appended.value.chunkIndex;
      pageData := appended.value.pageData;
    }
    return Ok(PageSections(pageIndex, chunkIndex, pageData));
  }

  lemma StartOfPages(pages: seq<CompiledPage>)
    ensures PagesData(pages, 0) == [] && ChunkIndex(AllRecs(pages, 0)) == []
  {
  }
}
