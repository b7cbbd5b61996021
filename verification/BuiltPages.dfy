/** What the layout of pages is worth to a reader: the validator finds nothing in it. */
module BuiltPages {
  import opened Common
  import opened Crc32
  import opened Wire
  import opened Bits
  import opened PageRecords
  import opened PackBitsEncoder
  import opened PageIndices
  import opened PageValidation

  /** What a page must be like, beyond what the builder asks, for the validator to find nothing. */
  predicate Presentable(page: CompiledPage) {
    && page.kind != 3 && FormatOf(page.format).Some? && FormatOf(page.format) != Some(Gray4Packed)
    && SlotsRise(page.planes)
    && (forall s :: 0 <= s < 4 ==>
          (HasBit(ExpectedBitmap(FormatOf(page.format).value), s) <==> SlotUsed(page.planes, |page.planes|, s)))
    && forall k :: 0 <= k < |page.planes| ==> ChunksPresentable(page, page.planes[k].chunks)
  }

  predicate IsX4(page: CompiledPage) {
    page.width == 800 && page.height == 480 && page.format == 2
  }

  predicate ChunksPresentable(page: CompiledPage, chunks: seq<CompiledChunk>) {
    && |chunks| <= 32
    && (IsX4(page) ==>
          |chunks| <= 30 && forall c :: 0 <= c < |chunks| ==>
              chunks[c].rowCount == 16 && chunks[c].uncompressedSize == 1600)
  }

  // ---- Where planes lie ----

  /** Each plane has its own entry in the directory, and no other slot has one. */
  lemma {:induction false} DirectoryEntries(data: Bytes, planes: seq<CompiledPlane>, k: nat)
    requires k <= |planes| && ValidPlanes(planes)
    ensures var d := DirectoryOf(data, planes, k);
            && d.bitmap < 16
            && (forall s :: 0 <= s < 4 ==> (HasBit(d.bitmap, s) <==> SlotUsed(planes, k, s)))
            && forall j :: 0 <= j < k ==> EntryStands(d, data, planes, j)
  {
    hide SetBit, HasBit, PlanesData, Aligned, Joined, NoEmptyChunk;
    if k == 0 {
      NoSlots();
    } else {
      DirectoryEntries(data, planes, k - 1);
      var before := DirectoryOf(data, planes, k - 1);
      WithSlot(before.bitmap, planes[k - 1].slot);
      forall j | 0 <= j < k
        ensures EntryStands(DirectoryOf(data, planes, k), data, planes, j)
      {
        if j < k - 1 { assert EntryStands(before, data, planes, j); }
      }
    }
  }

  lemma NoSlots()
    ensures forall s: nat :: !HasBit(0, s)
  {
    forall s: nat
      ensures !HasBit(0, s)
    {
      NoBits(s);
    }
  }

  predicate EntryStands(d: Directory, data: Bytes, planes: seq<CompiledPlane>, j: nat)
    requires j < |planes| && planes[j].slot < 4
  {
    && d.offsets[planes[j].slot] == PlaneStart(data, planes, j)
    && d.sizes[planes[j].slot] == |Joined(planes[j].chunks)|
    && d.compressions[planes[j].slot] == CompressionCode(planes[j].compression)
  }

  /** A plane begins at a multiple of four, behind all before it, and its bytes are its chunks. */
  lemma PlaneStands(data: Bytes, planes: seq<CompiledPlane>, j: nat, k: nat)
    requires j < k <= |planes|
    ensures var start, size := PlaneStart(data, planes, j), |Joined(planes[j].chunks)|;
            && start % 4 == 0 && |data| <= start && start + size <= |PlanesData(data, planes, k)|
            && PlanesData(data, planes, k)[start..start + size] == Joined(planes[j].chunks)
            && (k < |planes| ==> start + size <= PlaneStart(data, planes, k))
  {
    hide Joined;
    PlanesDataGrows(data, planes, 0, j);
    PlanesDataGrows(data, planes, j + 1, k);
    var upto, whole := PlanesData(data, planes, j + 1), PlanesData(data, planes, k);
    var start := PlaneStart(data, planes, j);
    assert upto == Aligned(PlanesData(data, planes, j)) + Joined(planes[j].chunks);
    assert whole[start..|upto|] == whole[..|upto|][start..] == Joined(planes[j].chunks);
  }

  /** In the whole book's page data, too. */
  lemma PlaneStandsInBook(pages: seq<CompiledPage>, n: nat, j: nat)
    requires n < |pages| && j < |pages[n].planes|
    ensures var planes, data, all := pages[n].planes, PagesData(pages, n), PagesData(pages, |pages|);
            var start, size := PlaneStart(data, planes, j), |Joined(planes[j].chunks)|;
            start + size <= |all| && all[start..start + size] == Joined(planes[j].chunks)
  {
    hide Joined, PlanesData;
    var planes, data, all := pages[n].planes, PagesData(pages, n), PagesData(pages, |pages|);
    var start, size := PlaneStart(data, planes, j), |Joined(planes[j].chunks)|;
    PlaneStands(data, planes, j, |planes|);
    PagesDataGrows(pages, n + 1, |pages|);
    var upto := PagesData(pages, n + 1);
    assert all[0..|upto|] == upto;
    SliceOfSlice(all, 0, |upto|, start, start + size);
  }

  lemma {:induction false} JoinedIsNotEmpty(chunks: seq<CompiledChunk>)
    requires NoEmptyChunk(chunks)
    ensures |Joined(chunks)| > 0
  {
  }

  /** Progress goes from nothing to a million without going back, and page `n` is less than one millionth off. */
  lemma ProgressIsFair(n: nat, total: nat)
    requires n < total
    ensures Progress(0, total) == 0 && Progress(total, total) == 1_000_000
    ensures Progress(n, total) <= Progress(n + 1, total) <= 1_000_000
    ensures n * 1_000_000 - total < Progress(n, total) * total <= n * 1_000_000
  {
    DivideGrows(n * 1_000_000, (n + 1) * 1_000_000, total);
    DivideGrows((n + 1) * 1_000_000, total * 1_000_000, total);
    MultipleDivides(1_000_000, total);
  }

  lemma MultipleDivides(a: nat, d: nat)
    requires d > 0
    ensures d * a / d == a
  {
    var q := d * a / d;
    assert d * q + d * a % d == d * a;
    Cancel(d, q, a + 1);
    Cancel(d, a, q + 1);
  }

  lemma DivideGrows(a: nat, b: nat, d: nat)
    requires a <= b && d > 0
    ensures a / d <= b / d
  {
    Cancel(d, a / d, b / d + 1);
  }

  lemma Cancel(d: nat, x: nat, y: nat)
    requires d > 0 && d * x < d * y
    ensures x < y
  {
  }

  // ---- Page records ----

  /** The numbers of a built page's record fit their fields, and its planes lie in the page data. */
  lemma RecordFits(pages: seq<CompiledPage>, sections: PageSections, n: nat)
    requires Built(pages, sections) && n < |pages| <= U32_LIMIT && Typed(pages[n])
    ensures PageFits(PageRec(pages, n))
    ensures FormatOf(pages[n].format).Some? ==> PageIsSound(PageRec(pages, n), |sections.pageData|)
  {
    hide PlanesData, PagesData, Aligned, Joined, DirectoryOf;
    hide PlaneBytes, HasBit, Checksum, Progress, PageIndex, ChunkIndex;
    hide AllRecs, FormatOf;
    var planes, data := pages[n].planes, PagesData(pages, n);
    var r := PageRec(pages, n);
    ProgressIsFair(n, |pages|);
    DirectoryEntries(data, planes, |planes|);
    forall s | 0 <= s < 4 && HasBit(r.bitmap, s)
      ensures 0 < r.sizes[s] < U32_LIMIT && r.offsets[s] < U32_LIMIT && KnownCompression(r.compressions[s])
      ensures r.offsets[s] + r.sizes[s] <= |sections.pageData|
    {
      var j: nat :| j < |planes| && planes[j].slot == s;
      assert EntryStands(DirectoryOf(data, planes, |planes|), data, planes, j);
      assert PlaneFits(n, planes[j], PlaneStart(data, planes, j));
      PlaneStandsInBook(pages, n, j);
      JoinedIsNotEmpty(planes[j].chunks);
    }
    UnusedIsZero(data, planes, |planes|);
  }

  lemma RecordIsSound(pages: seq<CompiledPage>, sections: PageSections, n: nat)
    requires Built(pages, sections) && n < |pages| <= U32_LIMIT && Typed(pages[n]) && FormatOf(pages[n].format).Some?
    ensures PageIsSound(PageRec(pages, n), |sections.pageData|)
  {
    RecordFits(pages, sections, n);
  }

  lemma {:induction false} UnusedIsZero(data: Bytes, planes: seq<CompiledPlane>, k: nat)
    requires k <= |planes| && ValidPlanes(planes)
    ensures var d := DirectoryOf(data, planes, k);
            forall s :: 0 <= s < 4 && !SlotUsed(planes, k, s) ==> d.offsets[s] == d.sizes[s] == d.compressions[s] == 0
  {
    hide SetBit, HasBit, PlanesData, Aligned, Joined, NoEmptyChunk;
    if k > 0 {
      UnusedIsZero(data, planes, k - 1);
      forall s | 0 <= s < 4 && !SlotUsed(planes, k, s)
        ensures !SlotUsed(planes, k - 1, s) && s != planes[k - 1].slot
      {
      }
    }
  }

  /** The reader's planes are the page's planes: each slot in use holds its plane's bytes. */
  predicate PlanesHeld(planes: seq<Option<Plane>>, data: Bytes, source: seq<CompiledPlane>)
    requires |planes| == 4 && InData(planes, data) && ValidPlanes(source)
  {
    && (forall s :: 0 <= s < 4 ==> (planes[s].Some? <==> SlotUsed(source, |source|, s)))
    && forall j :: 0 <= j < |source| ==>
         planes[source[j].slot].Some? && PlaneHeld(planes[source[j].slot].value, data, source[j])
  }

  predicate PlaneHeld(plane: Plane, data: Bytes, source: CompiledPlane)
    requires PlaneEnd(plane) <= |data|
  {
    data[plane.offset..PlaneEnd(plane)] == Joined(source.chunks)
  }

  /** Slot by slot is plane by plane, for planes in the order of their slots. */
  lemma {:induction false} SlotBytesArePlaneBytes(
    planes: seq<Option<Plane>>, data: Bytes, source: seq<CompiledPlane>, s: nat, k: nat)
    requires |planes| == 4 && InData(planes, data) && ValidPlanes(source) && PlanesHeld(planes, data, source)
    requires s <= 4 && k <= |source|
    requires SlotsRise(source)
    requires forall j :: 0 <= j < |source| ==> (source[j].slot < s <==> j < k)
    ensures SlotBytes(planes, data, s) == PlaneBytes(source, k)
  {
    hide Joined;
    if s > 0 {
      if k > 0 && source[k - 1].slot == s - 1 {
        SlotBytesArePlaneBytes(planes, data, source, s - 1, k - 1);
        assert PlaneHeld(planes[s - 1].value, data, source[k - 1]);
      } else {
        SlotBytesArePlaneBytes(planes, data, source, s - 1, k);
        assert !SlotUsed(source, |source|, s - 1);
      }
    }
  }

  /** What the reader makes of the record of page `n`. */
  ghost function InfoOf(pages: seq<CompiledPage>, n: nat): (info: PageInfo)
    requires n < |pages| && ValidPage(pages[n]) && FormatOf(pages[n].format).Some?
    ensures |info.planes| == 4
  {
    var r := PageRec(pages, n);
    PageInfo(r.number, r.kind, FormatOf(r.format).value, 1, r.crc, r.width, r.height, r.progressStart, r.progressEnd,
             r.bitmap, [PlaneIn(r, 0), PlaneIn(r, 1), PlaneIn(r, 2), PlaneIn(r, 3)])
  }

  lemma PlanesAreHeld(pages: seq<CompiledPage>, sections: PageSections, n: nat)
    requires Built(pages, sections) && n < |pages| <= U32_LIMIT && Typed(pages[n]) && FormatOf(pages[n].format).Some?
    ensures InData(InfoOf(pages, n).planes, sections.pageData)
    ensures PlanesHeld(InfoOf(pages, n).planes, sections.pageData, pages[n].planes)
    ensures forall j :: 0 <= j < |pages[n].planes| ==>
              PlaneIsAt(InfoOf(pages, n).planes[pages[n].planes[j].slot], pages, n, j)
  {
    hide PlanesData, PagesData, Aligned, Joined, DirectoryOf;
    hide PlaneBytes, HasBit, Checksum, Progress, PageIndex, ChunkIndex;
    hide AllRecs, FormatOf;
    var planes, data := pages[n].planes, PagesData(pages, n);
    RecordIsSound(pages, sections, n);
    DirectoryEntries(data, planes, |planes|);
    forall j | 0 <= j < |planes|
      ensures PlaneIsAt(InfoOf(pages, n).planes[planes[j].slot], pages, n, j)
      ensures PlaneHeld(InfoOf(pages, n).planes[planes[j].slot].value, sections.pageData, planes[j])
    {
      assert EntryStands(DirectoryOf(data, planes, |planes|), data, planes, j);
      PlaneStandsInBook(pages, n, j);
    }
  }

  predicate PlaneIsAt(plane: Option<Plane>, pages: seq<CompiledPage>, n: nat, j: nat)
    requires n < |pages| && j < |pages[n].planes|
  {
    && plane.Some?
    && plane.value.offset == PlaneStart(PagesData(pages, n), pages[n].planes, j)
    && plane.value.length == |Joined(pages[n].planes[j].chunks)|
  }

  lemma DirectoryPasses(pages: seq<CompiledPage>, sections: PageSections, n: nat)
    requires Built(pages, sections) && n < |pages| <= U32_LIMIT && Typed(pages[n]) && Presentable(pages[n])
    ensures DirectoryOk(InfoOf(pages, n))
  {
    hide PlanesData, PagesData, Aligned, Joined, DirectoryOf;
    hide PlaneBytes, HasBit, Checksum, Progress, PageIndex, ChunkIndex;
    hide AllRecs, FormatOf;
    var planes, data, info := pages[n].planes, PagesData(pages, n), InfoOf(pages, n);
    PlanesAreHeld(pages, sections, n);
    DirectoryEntries(data, planes, |planes|);
    SameSlots(info.bitmap, ExpectedBitmap(info.format));
    assert !HasBit(info.bitmap, 3) by { ReservedSlotIsFree(info.format); }
    forall s | 0 <= s < 4 && info.planes[s].Some?
      ensures info.planes[s].value.offset % 4 == 0
    {
      var j: nat :| j < |planes| && planes[j].slot == s;
      PlaneStands(data, planes, j, |planes|);
    }
    forall s, t | 0 <= s < t < 4 && info.planes[s].Some? && info.planes[t].Some?
      ensures !Overlap(info.planes[s].value, info.planes[t].value)
    {
      var j: nat :| j < |planes| && planes[j].slot == s;
      var k: nat :| k < |planes| && planes[k].slot == t;
      if j < k { PlaneStands(data, planes, j, k); } else { PlaneStands(data, planes, k, j); }
    }
  }

  lemma ReservedSlotIsFree(format: PixelFormat)
    requires format != Gray4Packed
    ensures !HasBit(ExpectedBitmap(format), 3)
  {
    var m := ExpectedBitmap(format);
    assert Bit(m, 3) == Bit(m / 2, 2) == Bit(m / 4, 1) == Bit(m / 8, 0);
  }

  lemma CrcPasses(pages: seq<CompiledPage>, sections: PageSections, n: nat)
    requires Built(pages, sections) && n < |pages| <= U32_LIMIT && Typed(pages[n]) && Presentable(pages[n])
    ensures InData(InfoOf(pages, n).planes, sections.pageData) && CrcOk(InfoOf(pages, n), sections.pageData)
  {
    hide PlanesData, PagesData, Aligned, Joined, DirectoryOf, HasBit, Checksum, Progress, PageIndex, ChunkIndex;
    hide AllRecs, FormatOf;
    var planes := pages[n].planes;
    PlanesAreHeld(pages, sections, n);
    SlotBytesArePlaneBytes(InfoOf(pages, n).planes, sections.pageData, planes, 4, |planes|);
  }

  /** The validator finds nothing in a page record and goes on from the page's end. */
  lemma PagePasses(pages: seq<CompiledPage>, sections: PageSections, n: nat)
    requires Built(pages, sections) && n < |pages| <= U32_LIMIT && Typed(pages[n]) && Presentable(pages[n])
    ensures PageFound(PageBytes(PageRec(pages, n)), n, sections.pageData, Progress(n, |pages|))
            == ([], Progress(n + 1, |pages|))
    ensures ParsePage(PageBytes(PageRec(pages, n)), n, |sections.pageData|) == Some(InfoOf(pages, n))
  {
    hide ParsePage, DirectoryOk, CrcOk, Progress, PageBytes, Typed, PageIsSound, HasReserved, PageRec, InfoOf;
    FormatsAgree(pages, n);
    RecordIsSound(pages, sections, n);
    RecordReadsBack(pages, sections, n);
    DirectoryPasses(pages, sections, n);
    CrcPasses(pages, sections, n);
    NothingFound(PageBytes(PageRec(pages, n)), n, sections.pageData, InfoOf(pages, n));
  }

  lemma FormatsAgree(pages: seq<CompiledPage>, n: nat)
    requires n < |pages| && ValidPage(pages[n]) && Presentable(pages[n])
    ensures FormatOf(pages[n].format).Some? && InfoOf(pages, n).kind != 3
    ensures InfoOf(pages, n).progressStart == Progress(n, |pages|)
    ensures InfoOf(pages, n).progressEnd == Progress(n + 1, |pages|)
  {
  }

  lemma RecordReadsBack(pages: seq<CompiledPage>, sections: PageSections, n: nat)
    requires n < |pages| && ValidPage(pages[n]) && FormatOf(pages[n].format).Some?
    requires PageIsSound(PageRec(pages, n), |sections.pageData|)
    ensures ParsePage(PageBytes(PageRec(pages, n)), n, |sections.pageData|) == Some(InfoOf(pages, n))
    ensures !HasReserved(PageBytes(PageRec(pages, n)))
  {
    hide PageBytes, ParsePage, Read;
    PageReadsBack(PageRec(pages, n), |sections.pageData|);
  }

  lemma NothingFound(record: Bytes, raw: nat, data: Bytes, page: PageInfo)
    requires |record| == 128 && |page.planes| == 4 && InData(page.planes, data)
    requires !HasReserved(record) && ParsePage(record, raw, |data|) == Some(page)
    requires page.kind != 3 && DirectoryOk(page) && CrcOk(page, data)
    ensures PageFound(record, raw, data, page.progressStart) == ([], page.progressEnd)
  {
    hide ParsePage, DirectoryOk, CrcOk, HasReserved;
    NoReport(raw);
  }

  lemma {:induction false} PageIndexAt(pages: seq<CompiledPage>, i: nat, n: nat)
    requires i < n <= |pages| && forall j :: 0 <= j < n ==> ValidPage(pages[j])
    ensures PageAt(PageIndex(pages, n), i) == PageBytes(PageRec(pages, i))
  {
    hide PageBytes, PageRec, ValidPage;
    if i < n - 1 { PageIndexAt(pages, i, n - 1); }
  }

  /** The validator's pass over the pages finds nothing. */
  lemma {:induction false} PagesPass(pages: seq<CompiledPage>, sections: PageSections, n: nat)
    requires Built(pages, sections) && n <= |pages| <= U32_LIMIT
    requires forall i :: 0 <= i < |pages| ==> Typed(pages[i]) && Presentable(pages[i])
    ensures PagesFound(sections.pageIndex, sections.pageData, n) == ([], Progress(n, |pages|))
  {
    hide PageBytes, PageRec, PageFound, Presentable, PageFitsData, PagesData, ChunkIndex, AllRecs, ValidPage, Typed;
    var none: seq<Finding> := [];
    assert none + none == none;
    if n > 0 {
      PagesPass(pages, sections, n - 1);
      PageIndexAt(pages, n - 1, |pages|);
      PagePasses(pages, sections, n - 1);
    } else {
      ProgressIsFair(0, |pages|);
    }
  }

  // ---- Chunk records ----

  function KeyOf(r: ChunkRecord): Key {
    Key(r.page, r.slot, r.index)
  }

  predicate KeysRise(recs: seq<ChunkRecord>) {
    forall i :: 0 < i < |recs| ==> KeyLess(KeyOf(recs[i - 1]), KeyOf(recs[i]))
  }

  /** `r` is the record of a chunk of page `n`'s plane `j`. */
  predicate IsRecOf(pages: seq<CompiledPage>, r: ChunkRecord, j: nat) {
    && r.page < |pages| && j < |pages[r.page].planes| && r.index < |pages[r.page].planes[j].chunks|
    && r == ChunkRec(r.page, pages[r.page].planes[j], PlaneStart(PagesData(pages, r.page), pages[r.page].planes, j),
        r.index)
  }

  predicate IsRec(pages: seq<CompiledPage>, r: ChunkRecord) {
    r.page < |pages| && exists j: nat :: j < |pages[r.page].planes| && IsRecOf(pages, r, j)
  }

  lemma {:induction false} PlaneRecsRise(number: nat, plane: CompiledPlane, start: nat, c: nat)
    requires c <= |plane.chunks|
    ensures var recs := PlaneRecs(number, plane, start, c);
            && |recs| == c && KeysRise(recs)
            && forall i :: 0 <= i < c ==> recs[i] == ChunkRec(number, plane, start, i)
  {
    hide Joined;
    if c > 0 { PlaneRecsRise(number, plane, start, c - 1); }
  }

  lemma JoinRises(x: seq<ChunkRecord>, y: seq<ChunkRecord>)
    requires KeysRise(x) && KeysRise(y)
    requires forall i, j :: 0 <= i < |x| && 0 <= j < |y| ==> KeyLess(KeyOf(x[i]), KeyOf(y[j]))
    ensures KeysRise(x + y)
  {
    hide KeyLess;
    var z := x + y;
    forall i | 0 < i < |z|
      ensures KeyLess(KeyOf(z[i - 1]), KeyOf(z[i]))
    {
      if i < |x| {
        assert z[i - 1] == x[i - 1] && z[i] == x[i];
      } else if i == |x| {
        assert z[i - 1] == x[i - 1] && z[i] == y[0];
      } else {
        assert z[i - 1] == y[i - 1 - |x|] && z[i] == y[i - |x|];
      }
    }
  }

  predicate SlotsRise(planes: seq<CompiledPlane>) {
    forall j, k :: 0 <= j < k < |planes| ==> planes[j].slot < planes[k].slot
  }

  lemma {:induction false} PageRecsRise(pages: seq<CompiledPage>, n: nat, k: nat)
    requires n < |pages| && k <= |pages[n].planes| && SlotsRise(pages[n].planes)
    ensures var recs := PageRecs(n, PagesData(pages, n), pages[n].planes, k);
            && KeysRise(recs)
            && forall i :: 0 <= i < |recs| ==>
                 recs[i].page == n && IsRec(pages, recs[i]) && k > 0 && recs[i].slot <= pages[n].planes[k - 1].slot
  {
    hide Joined, PagesData, PlanesData, Aligned, ChunkRec, PlaneRecs, KeysRise;
    var planes, data := pages[n].planes, PagesData(pages, n);
    if k > 0 {
      PageRecsRise(pages, n, k - 1);
      var before, start := PageRecs(n, data, planes, k - 1), PlaneStart(data, planes, k - 1);
      var here := PlaneRecs(n, planes[k - 1], start, |planes[k - 1].chunks|);
      PlaneRecsRise(n, planes[k - 1], start, |planes[k - 1].chunks|);
      forall i | 0 <= i < |here|
        ensures here[i].page == n && here[i].slot == planes[k - 1].slot && IsRecOf(pages, here[i], k - 1)
      {
        RecNames(n, planes[k - 1], start, i);
      }
      JoinRises(before, here);
    } else {
      NoRecsRise();
    }
  }

  lemma NoRecsRise()
    ensures KeysRise([])
  {
  }

  lemma RecNames(number: nat, plane: CompiledPlane, start: nat, c: nat)
    requires c < |plane.chunks|
    ensures var r := ChunkRec(number, plane, start, c); r.page == number && r.slot == plane.slot && r.index == c
  {
  }

  lemma {:induction false} AllRecsRise(pages: seq<CompiledPage>, n: nat)
    requires n <= |pages| && forall i :: 0 <= i < |pages| ==> SlotsRise(pages[i].planes)
    ensures var recs := AllRecs(pages, n);
            KeysRise(recs) && forall i :: 0 <= i < |recs| ==> IsRec(pages, recs[i]) && recs[i].page < n
  {
    hide PagesData, PageRecs, IsRec, KeysRise, SlotsRise;
    if n > 0 {
      AllRecsRise(pages, n - 1);
      PageRecsRise(pages, n - 1, |pages[n - 1].planes|);
      JoinRises(AllRecs(pages, n - 1),
          PageRecs(n - 1, PagesData(pages, n - 1), pages[n - 1].planes, |pages[n - 1].planes|));
    } else {
      NoRecsRise();
    }
  }

  /** A chunk lies in its plane, behind the chunks before it. */
  lemma ChunkStands(chunks: seq<CompiledChunk>, c: nat)
    requires c < |chunks|
    ensures |Joined(chunks[..c])| + |chunks[c].compressed| <= |Joined(chunks)|
    ensures Joined(chunks)[|Joined(chunks[..c])|..|Joined(chunks[..c])| + |chunks[c].compressed|] ==
            chunks[c].compressed
  {
    hide Joined;
    JoinedSnoc(chunks, c);
    JoinedGrows(chunks, c + 1);
    var upto := Joined(chunks[..c + 1]);
    assert Joined(chunks)[|Joined(chunks[..c])|..|upto|] == Joined(chunks)[..|upto|][|Joined(chunks[..c])|..];
  }

  lemma ChunkPasses(pages: seq<CompiledPage>, sections: PageSections, r: ChunkRecord)
    requires Built(pages, sections) && |pages| <= U32_LIMIT && IsRec(pages, r)
    requires Typed(pages[r.page]) && Presentable(pages[r.page])
    ensures var parsed := ParseChunk(ChunkBytes(r), |pages|, |sections.pageData|);
            parsed.Some? && parsed.value.page == r.page && ChunkInPage(parsed.value, InfoOf(pages, r.page))
    ensures ChunkKey(ChunkBytes(r)) == KeyOf(r)
  {
    hide PlanesData, PagesData, Aligned, Joined, DirectoryOf;
    hide PlaneBytes, HasBit, Checksum, Progress, PageIndex, ChunkIndex;
    hide AllRecs, FormatOf, ParseChunk, ChunkBytes, Read;
    var j: nat :| j < |pages[r.page].planes| && IsRecOf(pages, r, j);
    var plane := pages[r.page].planes[j];
    var start := PlaneStart(PagesData(pages, r.page), pages[r.page].planes, j);
    assert PlaneFits(r.page, plane, start) && ChunkFits(ChunkRec(r.page, plane, start, r.index));
    ChunkStands(plane.chunks, r.index);
    PlanesAreHeld(pages, sections, r.page);
    assert PlaneIsAt(InfoOf(pages, r.page).planes[plane.slot], pages, r.page, j);
    assert ChunksPresentable(pages[r.page], plane.chunks);
    PlaneStandsInBook(pages, r.page, j);
    ChunkReadsBack(r, |pages|, |sections.pageData|);
    ChunkKeyReadsBack(r);
    Gray2IsTwo(pages[r.page].format);
  }

  lemma Gray2IsTwo(code: nat)
    ensures FormatOf(code) == Some(Gray2Packed) <==> code == 2
  {
  }

  lemma {:induction false} ChunkIndexAt(recs: seq<ChunkRecord>, i: nat)
    requires i < |recs|
    ensures ShortRecordAt(ChunkIndex(recs), i) == ChunkBytes(recs[i])
  {
    hide ChunkBytes;
    if i < |recs| - 1 { ChunkIndexAt(recs[..|recs| - 1], i); }
  }

  /** The validator's pass over the chunks finds nothing. */
  lemma {:induction false} ChunksPass(pages: seq<CompiledPage>, sections: PageSections, n: nat)
    requires Built(pages, sections) && |pages| <= U32_LIMIT && n <= |AllRecs(pages, |pages|)|
    requires forall i :: 0 <= i < |pages| ==> Typed(pages[i]) && Presentable(pages[i])
    ensures ChunksFound(sections.chunkIndex, n, sections.pageIndex, |pages|, sections.pageData) == []
  {
    hide Typed, Presentable, PageRec, PageBytes, PagesData;
    hide AllRecs, ChunkIndex, IsRec, ParseChunk, ParsePage, ChunkBytes;
    hide ChunkKey, KeyLess, ChunkInPage, PageFitsData, ValidPage, InfoOf, PageIndex;
    if n > 0 {
      ChunksPass(pages, sections, n - 1);
      var recs := AllRecs(pages, |pages|);
      forall i | 0 <= i < |pages|
        ensures SlotsRise(pages[i].planes)
      {
        PresentableRises(pages[i]);
      }
      AllRecsRise(pages, |pages|);
      var r := recs[n - 1];
      ChunkPasses(pages, sections, r);
      ChunkIndexAt(recs, n - 1);
      PagePasses(pages, sections, r.page);
      PageIndexAt(pages, r.page, |pages|);
      if n > 1 {
        ChunkIndexAt(recs, n - 2);
        assert IsRec(pages, recs[n - 2]);
        ChunkPasses(pages, sections, recs[n - 2]);
        assert KeyLess(KeyOf(recs[n - 2]), KeyOf(recs[n - 1]));
      }
    }
  }

  lemma PresentableRises(page: CompiledPage)
    requires Presentable(page)
    ensures SlotsRise(page.planes)
  {
  }
}
