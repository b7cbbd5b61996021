/** The pages the validator finds nothing in are the presentable ones and no others. */
module BuiltPagesExactly {
  import opened Common
  import opened Wire
  import opened PageRecords
  import opened PackBitsEncoder
  import opened PageIndices
  import opened PageValidation
  import opened BuiltPages

  lemma {:induction false} NothingFoundInAny(pageIndex: Bytes, data: Bytes, i: nat, n: nat)
    requires i < n && 128 * n <= |pageIndex| && PagesFound(pageIndex, data, n).0 == []
    ensures exists previous: nat :: PageFound(PageAt(pageIndex, i), i, data, previous).0 == []
  {
    hide PageFound;
    var before := PagesFound(pageIndex, data, n - 1);
    var here := PageFound(PageAt(pageIndex, n - 1), n - 1, data, before.1);
    assert before.0 + here.0 == [];
    if i < n - 1 { NothingFoundInAny(pageIndex, data, i, n - 1); }
  }

  lemma NothingFoundMeans(record: Bytes, raw: nat, data: Bytes, previous: nat)
    requires |record| == 128 && PageFound(record, raw, data, previous).0 == []
    ensures var page := ParsePage(record, raw, |data|);
            page.Some? && page.value.kind != 3 && DirectoryOk(page.value)
  {
    hide ParsePage, DirectoryOk, CrcOk, HasReserved;
  }

  lemma ParsedHasFormat(record: Bytes, raw: nat, dataLength: nat)
    requires |record| == 128 && ParsePage(record, raw, dataLength).Some?
    ensures FormatOf(Read(record, 6, 2)).Some?
  {
    hide Read, PlaneAt, FormatOf;
  }

  /** A page record without findings comes from a page with the planes its format asks for. */
  lemma PassingPage(pages: seq<CompiledPage>, sections: PageSections, n: nat)
    requires Built(pages, sections) && n < |pages| <= U32_LIMIT && Typed(pages[n])
    requires PagesFound(sections.pageIndex, sections.pageData, |pages|).0 == []
    ensures pages[n].kind != 3 && FormatOf(pages[n].format).Some? && FormatOf(pages[n].format) != Some(Gray4Packed)
    ensures forall s :: 0 <= s < 4 ==>
              (HasBit(ExpectedBitmap(FormatOf(pages[n].format).value), s) <==>
                  SlotUsed(pages[n].planes, |pages[n].planes|, s))
  {
    hide PlanesData, PagesData, PlaneBytes, HasBit, Progress;
    hide PageIndex, ChunkIndex, AllRecs, FormatOf, ParsePage, PageBytes;
    hide PageFound, PageFits, Read, DirectoryOf, PageFitsData, Typed, PagesFound;
    var data := sections.pageData;
    var record := PageBytes(PageRec(pages, n));
    NothingFoundInAny(sections.pageIndex, data, n, |pages|);
    PageIndexAt(pages, n, |pages|);
    var previous: nat :| PageFound(record, n, data, previous).0 == [];
    NothingFoundMeans(record, n, data, previous);
    ParsedHasFormat(record, n, |data|);
    RecordFits(pages, sections, n);
    PageNumbersReadBack(PageRec(pages, n));
    RecordReadsBack(pages, sections, n);
    DirectoryEntries(PagesData(pages, n), pages[n].planes, |pages[n].planes|);
    Gray4IsReserved();
  }

  /** Every page in four grays asks for the reserved plane and is found wanting. */
  lemma Gray4IsReserved()
    ensures HasBit(ExpectedBitmap(Gray4Packed), 3)
  {
  }

  // ---- Chunks ----

  lemma {:induction false} NothingFoundInAnyChunk(
    chunkIndex: Bytes, i: nat, n: nat, pageIndex: Bytes, count: nat, data: Bytes)
    requires i < n && 24 * n <= |chunkIndex| && |pageIndex| == 128 * count
    requires ChunksFound(chunkIndex, n, pageIndex, count, data) == []
    ensures ChunkOk(ShortRecordAt(chunkIndex, i), PreviousKey(chunkIndex, i), pageIndex, count, data)
  {
    hide ChunkOk;
    var before := ChunksFound(chunkIndex, n - 1, pageIndex, count, data);
    assert before == [];
    if i < n - 1 { NothingFoundInAnyChunk(chunkIndex, i, n - 1, pageIndex, count, data); }
  }

  lemma PartsRise(x: seq<ChunkRecord>, y: seq<ChunkRecord>)
    requires KeysRise(x + y)
    ensures KeysRise(x) && KeysRise(y)
    ensures x != [] && y != [] ==> KeyLess(KeyOf(x[|x| - 1]), KeyOf(y[0]))
  {
    hide KeyLess;
    var z := x + y;
    forall i | 0 < i < |x|
      ensures KeyLess(KeyOf(x[i - 1]), KeyOf(x[i]))
    {
      assert z[i] == x[i] && z[i - 1] == x[i - 1];
    }
    forall i | 0 < i < |y|
      ensures KeyLess(KeyOf(y[i - 1]), KeyOf(y[i]))
    {
      assert z[|x| + i] == y[i] && z[|x| + i - 1] == y[i - 1];
    }
    if x != [] && y != [] { assert z[|x|] == y[0] && z[|x| - 1] == x[|x| - 1]; }
  }

  /** All records of a page are in the chunk index, in a row. */
  lemma {:induction false} PageRecsRiseToo(pages: seq<CompiledPage>, i: nat, n: nat)
    requires i < n <= |pages| && KeysRise(AllRecs(pages, n))
    ensures KeysRise(PageRecs(i, PagesData(pages, i), pages[i].planes, |pages[i].planes|))
    ensures forall r :: r in PageRecs(i, PagesData(pages, i), pages[i].planes, |pages[i].planes|) ==>
            r in AllRecs(pages, n)
  {
    hide PagesData, PageRecs, KeysRise;
    var last := PageRecs(n - 1, PagesData(pages, n - 1), pages[n - 1].planes, |pages[n - 1].planes|);
    PartsRise(AllRecs(pages, n - 1), last);
    if i < n - 1 { PageRecsRiseToo(pages, i, n - 1); }
  }

  /** Rising keys mean rising slots. */
  lemma {:induction false} SlotsRiseToo(pages: seq<CompiledPage>, n: nat, k: nat)
    requires n < |pages| && k <= |pages[n].planes| && ValidPlanes(pages[n].planes)
    requires KeysRise(PageRecs(n, PagesData(pages, n), pages[n].planes, k))
    ensures SlotsRise(pages[n].planes[..k])
    ensures k > 0 ==>
              var recs := PageRecs(n, PagesData(pages, n), pages[n].planes, k);
              recs != [] && recs[|recs| - 1].page == n && recs[|recs| - 1].slot == pages[n].planes[k - 1].slot
    ensures forall j :: 0 <= j < k ==> PlaneRecsIn(pages, n, j, k)
  {
    hide PagesData, PlanesData, KeysRise, Joined, Aligned;
    var planes, data := pages[n].planes, PagesData(pages, n);
    if k > 0 {
      var before, plane := PageRecs(n, data, planes, k - 1), planes[k - 1];
      var here := PlaneRecs(n, plane, PlaneStart(data, planes, k - 1), |plane.chunks|);
      PartsRise(before, here);
      SlotsRiseToo(pages, n, k - 1);
      PlaneRecsRise(n, plane, PlaneStart(data, planes, k - 1), |plane.chunks|);
      if k > 1 { assert planes[k - 2].slot < plane.slot; }
      assert planes[..k] == planes[..k - 1] + [plane];
      forall j | 0 <= j < k
        ensures PlaneRecsIn(pages, n, j, k)
      {
        if j < k - 1 { assert PlaneRecsIn(pages, n, j, k - 1); }
      }
    }
  }

  ghost predicate PlaneRecsIn(pages: seq<CompiledPage>, n: nat, j: nat, k: nat)
    requires n < |pages| && j < k <= |pages[n].planes|
  {
    var data, planes := PagesData(pages, n), pages[n].planes;
    forall c :: 0 <= c < |planes[j].chunks| ==>
      ChunkRec(n, planes[j], PlaneStart(data, planes, j), c) in PageRecs(n, data, planes, k)
  }

  lemma {:induction false} PageRecsAre(pages: seq<CompiledPage>, n: nat, k: nat)
    requires n < |pages| && k <= |pages[n].planes|
    ensures forall r :: r in PageRecs(n, PagesData(pages, n), pages[n].planes, k) ==> IsRec(pages, r)
  {
    hide Joined, PagesData, PlanesData, Aligned, ChunkRec, PlaneRecs, KeysRise;
    if k > 0 {
      PageRecsAre(pages, n, k - 1);
      var planes, start := pages[n].planes, PlaneStart(PagesData(pages, n), pages[n].planes, k - 1);
      PlaneRecsRise(n, planes[k - 1], start, |planes[k - 1].chunks|);
      forall r | r in PlaneRecs(n, planes[k - 1], start, |planes[k - 1].chunks|)
        ensures IsRec(pages, r)
      {
        var i: nat :| i < |planes[k - 1].chunks| && r == ChunkRec(n, planes[k - 1], start, i);
        RecNames(n, planes[k - 1], start, i);
        assert IsRecOf(pages, r, k - 1);
      }
    }
  }

  lemma {:induction false} AllRecsAre(pages: seq<CompiledPage>, n: nat)
    requires n <= |pages|
    ensures forall r :: r in AllRecs(pages, n) ==> IsRec(pages, r)
  {
    hide PagesData, PageRecs, IsRec;
    if n > 0 {
      AllRecsAre(pages, n - 1);
      PageRecsAre(pages, n - 1, |pages[n - 1].planes|);
    }
  }

  lemma RecFits(pages: seq<CompiledPage>, sections: PageSections, r: ChunkRecord)
    requires Built(pages, sections) && IsRec(pages, r)
    ensures ChunkFits(r) && ChunkKey(ChunkBytes(r)) == KeyOf(r)
  {
    hide PagesData, Joined, PlanesData, Aligned, ChunkIndex, PageIndex, AllRecs, ChunkBytes, Read;
    var j: nat :| j < |pages[r.page].planes| && IsRecOf(pages, r, j);
    var start := PlaneStart(PagesData(pages, r.page), pages[r.page].planes, j);
    assert PlaneFits(r.page, pages[r.page].planes[j], start);
    ChunkKeyReadsBack(r);
  }

  /** No findings among the chunks: the keys rise. */
  lemma PassingKeysRise(pages: seq<CompiledPage>, sections: PageSections)
    requires Built(pages, sections)
    requires var n := |AllRecs(pages, |pages|)|;
             ChunksFound(sections.chunkIndex, n, sections.pageIndex, |pages|, sections.pageData) == []
    ensures KeysRise(AllRecs(pages, |pages|))
  {
    hide PagesData, PageIndex, AllRecs, IsRec, ChunkBytes;
    hide ChunkKey, KeyLess, ValidPage, PageFitsData, ChunkIndex, ChunksFound;
    var recs := AllRecs(pages, |pages|);
    AllRecsAre(pages, |pages|);
    forall i | 0 < i < |recs|
      ensures KeyLess(KeyOf(recs[i - 1]), KeyOf(recs[i]))
    {
      NothingFoundInAnyChunk(sections.chunkIndex, i, |recs|, sections.pageIndex, |pages|, sections.pageData);
      ChunkIndexAt(recs, i - 1);
      ChunkIndexAt(recs, i);
      assert IsRec(pages, recs[i - 1]) && IsRec(pages, recs[i]);
      RecFits(pages, sections, recs[i - 1]);
      RecFits(pages, sections, recs[i]);
    }
  }

  /** A chunk record without a finding is one of few enough, and of the X4's shape on an X4 page. */
  lemma PassingChunk(pages: seq<CompiledPage>, sections: PageSections, i: nat)
    requires Built(pages, sections) && |pages| <= U32_LIMIT && i < |AllRecs(pages, |pages|)|
    requires forall n :: 0 <= n < |pages| ==> Typed(pages[n]) && FormatOf(pages[n].format).Some?
    requires var n := |AllRecs(pages, |pages|)|;
             ChunksFound(sections.chunkIndex, n, sections.pageIndex, |pages|, sections.pageData) == []
    ensures var r := AllRecs(pages, |pages|)[i];
            && r.page < |pages| && r.index < 32
            && (IsX4(pages[r.page]) ==> r.rowCount == 16 && r.uncompressed == 1600 && r.index < 30)
  {
    hide PagesData, PageIndex, AllRecs, ChunkBytes, KeyLess, ChunkIndex, ChunksFound, ParsePage, ChunkKey, PageRec;
    hide ParseChunk, Typed, PageFitsData, ValidPage, PageIsSound, PageBytes;
    var recs := AllRecs(pages, |pages|);
    AllRecsAre(pages, |pages|);
    var r := recs[i];
    RecFits(pages, sections, r);
    NothingFoundInAnyChunk(sections.chunkIndex, i, |recs|, sections.pageIndex, |pages|, sections.pageData);
    ChunkIndexAt(recs, i);
    ChunkKeyReadsBack(r);
    ParsedIsNumbers(r, |pages|, |sections.pageData|);
    RecordIsSound(pages, sections, r.page);
    RecordReadsBack(pages, sections, r.page);
    PageIndexAt(pages, r.page, |pages|);
    Gray2IsTwo(pages[r.page].format);
    InfoMeasures(pages, r.page);
  }

  lemma InfoMeasures(pages: seq<CompiledPage>, n: nat)
    requires n < |pages| && ValidPage(pages[n]) && FormatOf(pages[n].format).Some?
    ensures InfoOf(pages, n).width == pages[n].width && InfoOf(pages, n).height == pages[n].height
    ensures Some(InfoOf(pages, n).format) == FormatOf(pages[n].format)
  {
  }

  lemma ParsedIsNumbers(r: ChunkRecord, pageCount: nat, dataLength: nat)
    requires ChunkFits(r) && ParseChunk(ChunkBytes(r), pageCount, dataLength).Some?
    ensures r.index < 32
    ensures ParseChunk(ChunkBytes(r), pageCount, dataLength).value ==
            ChunkInfo(r.page, r.slot, r.index, r.rowStart, r.rowCount, r.offset, r.compressed, r.uncompressed)
  {
    hide Read, ChunkBytes;
    ChunkKeyReadsBack(r);
    ChunkNumbersReadBack(r);
  }

  /** The validator finds nothing in the built sections exactly if all pages are presentable. */
  lemma PassesExactlyIfPresentable(pages: seq<CompiledPage>, sections: PageSections)
    requires Built(pages, sections) && |pages| <= U32_LIMIT && forall n :: 0 <= n < |pages| ==> Typed(pages[n])
    ensures var n := |AllRecs(pages, |pages|)|;
            && PagesFound(sections.pageIndex, sections.pageData, |pages|).0 == []
            && ChunksFound(sections.chunkIndex, n, sections.pageIndex, |pages|, sections.pageData) == []
            <==> forall n :: 0 <= n < |pages| ==> Presentable(pages[n])
  {
    hide Typed, Presentable, PagesFound, ChunksFound, AllRecs, ChunkIndex, PageIndex, PageFitsData, ValidPage;
    var count := |AllRecs(pages, |pages|)|;
    if forall n :: 0 <= n < |pages| ==> Presentable(pages[n]) {
      PagesPass(pages, sections, |pages|);
      ChunksPass(pages, sections, count);
    }
    if PagesFound(sections.pageIndex, sections.pageData, |pages|).0 == []
       && ChunksFound(sections.chunkIndex, count, sections.pageIndex, |pages|, sections.pageData) == [] {
      forall n | 0 <= n < |pages|
        ensures Presentable(pages[n])
      {
        PassingIsPresentable(pages, sections, n);
      }
    }
  }

  lemma PassingIsPresentable(pages: seq<CompiledPage>, sections: PageSections, n: nat)
    requires Built(pages, sections) && n < |pages| <= U32_LIMIT && forall i :: 0 <= i < |pages| ==> Typed(pages[i])
    requires PagesFound(sections.pageIndex, sections.pageData, |pages|).0 == []
    requires ChunksFound(sections.chunkIndex, |AllRecs(pages, |pages|)|, sections.pageIndex, |pages|,
             sections.pageData) == []
    ensures Presentable(pages[n])
  {
    hide PagesFound, ChunksFound, AllRecs, PageRecs, PagesData;
    hide ChunkIndex, PageIndex, KeysRise, HasBit, FormatOf, PageFitsData;
    hide Typed;
    var planes := pages[n].planes;
    forall i | 0 <= i < |pages|
      ensures FormatOf(pages[i].format).Some?
    {
      PassingPage(pages, sections, i);
    }
    PassingPage(pages, sections, n);
    PassingKeysRise(pages, sections);
    PageRecsRiseToo(pages, n, |pages|);
    SlotsRiseToo(pages, n, |planes|);
    assert planes[..|planes|] == planes;
    forall j | 0 <= j < |planes|
      ensures ChunksPresentable(pages[n], planes[j].chunks)
    {
      assert PlaneRecsIn(pages, n, j, |planes|);
      PassingChunks(pages, sections, n, j);
    }
  }

  lemma PassingChunks(pages: seq<CompiledPage>, sections: PageSections, n: nat, j: nat)
    requires Built(pages, sections) && n < |pages| <= U32_LIMIT && j < |pages[n].planes|
    requires forall i :: 0 <= i < |pages| ==> Typed(pages[i]) && FormatOf(pages[i].format).Some?
    requires ChunksFound(sections.chunkIndex, |AllRecs(pages, |pages|)|, sections.pageIndex, |pages|,
             sections.pageData) == []
    requires PlaneRecsIn(pages, n, j, |pages[n].planes|)
    requires var mine := PageRecs(n, PagesData(pages, n), pages[n].planes, |pages[n].planes|);
             forall r :: r in mine ==> r in AllRecs(pages, |pages|)
    ensures ChunksPresentable(pages[n], pages[n].planes[j].chunks)
  {
    hide ChunksFound, AllRecs, PageRecs, PagesData, ChunkIndex;
    hide PageIndex, FormatOf, PageFitsData, Typed, Joined, ValidPage;
    hide PlaneRecsIn;
    var chunks := pages[n].planes[j].chunks;
    forall c | 0 <= c < |chunks|
      ensures IsX4(pages[n]) ==> chunks[c].rowCount == 16 && chunks[c].uncompressedSize == 1600
    {
      PassingAt(pages, sections, n, j, c);
    }
    if chunks != [] { PassingAt(pages, sections, n, j, |chunks| - 1); }
  }

  lemma PassingAt(pages: seq<CompiledPage>, sections: PageSections, n: nat, j: nat, c: nat)
    requires Built(pages, sections) && n < |pages| <= U32_LIMIT && j < |pages[n].planes|
    requires c < |pages[n].planes[j].chunks|
    requires forall i :: 0 <= i < |pages| ==> Typed(pages[i]) && FormatOf(pages[i].format).Some?
    requires ChunksFound(sections.chunkIndex, |AllRecs(pages, |pages|)|, sections.pageIndex, |pages|,
             sections.pageData) == []
    requires PlaneRecsIn(pages, n, j, |pages[n].planes|)
    requires var mine := PageRecs(n, PagesData(pages, n), pages[n].planes, |pages[n].planes|);
             forall r :: r in mine ==> r in AllRecs(pages, |pages|)
    ensures c < 32
    ensures var chunk := pages[n].planes[j].chunks[c];
            IsX4(pages[n]) ==> chunk.rowCount == 16 && chunk.uncompressedSize == 1600 && c < 30
  {
    hide ChunksFound, AllRecs, PageRecs, PagesData, ChunkIndex, PageIndex, FormatOf, PageFitsData, Typed, Joined, Built;
    var recs := AllRecs(pages, |pages|);
    var r := ChunkRec(n, pages[n].planes[j], PlaneStart(PagesData(pages, n), pages[n].planes, j), c);
    assert r in recs;
    var i: nat :| i < |recs| && recs[i] == r;
    PassingChunk(pages, sections, i);
  }
}
