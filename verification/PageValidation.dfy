/** The validator's passes over page and chunk records. */
module PageValidation {
  import opened Common
  import opened Crc32
  import opened PageRecords
  import Wire

  datatype Code = ReservedBytes | PlaneCode | Ordering | PageCrc | ChunkCode | TransitionCode

  datatype Finding = Finding(code: Code, record: nat)

  // ---- Plane directories ----

  function ExpectedBitmap(format: PixelFormat): nat {
    match format
    case Gray1Packed => 0x04
    case Gray2Packed => 0x07
    case Gray4Packed => 0x0f
    case _ => 0x01
  }

  function PlaneEnd(p: Plane): nat {
    p.offset + p.length
  }

  /** Two planes have a byte in common. */
  predicate Overlap(a: Plane, b: Plane) {
    a.offset < PlaneEnd(b) && b.offset < PlaneEnd(a)
  }

  /** The planes the format asks for, at multiples of four, apart from each other; never the reserved slot. */
  predicate DirectoryOk(page: PageInfo)
    requires |page.planes| == 4
  {
    && page.bitmap == ExpectedBitmap(page.format) && !HasBit(page.bitmap, 3)
    && (forall s :: 0 <= s < 4 && page.planes[s].Some? ==> page.planes[s].value.offset % 4 == 0)
    && forall s, t :: 0 <= s < t < 4 && page.planes[s].Some? && page.planes[t].Some? ==>
         !Overlap(page.planes[s].value, page.planes[t].value)
  }

  function Range(plane: Option<Plane>): (nat, nat) {
    if plane.Some? then (plane.value.offset, PlaneEnd(plane.value)) else (0, 0)
  }

  method InvalidPlaneDirectory(page: PageInfo) returns (invalid: bool)
    requires |page.planes| == 4 && forall s :: 0 <= s < 4 && page.planes[s].Some? ==> page.planes[s].value.length > 0
    ensures invalid <==> !DirectoryOk(page)
  {
    if page.bitmap != ExpectedBitmap(page.format) || HasBit(page.bitmap, 3) { return true; }
    var ranges: array<(nat, nat)> := new (nat, nat)[4](_ => (0, 0));
    for slot := 0 to 4
      invariant forall s :: 0 <= s < slot && page.planes[s].Some? ==> page.planes[s].value.offset % 4 == 0
      invariant forall s, t :: 0 <= s < t < slot && page.planes[s].Some? && page.planes[t].Some? ==>
                  !Overlap(page.planes[s].value, page.planes[t].value)
      invariant forall s :: 0 <= s < 4 ==> ranges[s] == if s < slot then Range(page.planes[s]) else (0, 0)
    {
      if page.planes[slot].Some? {
        var plane := page.planes[slot].value;
        assert Range(page.planes[slot]) == (plane.offset, PlaneEnd(plane));
        var start, end := plane.offset, PlaneEnd(plane);
        if start % 4 != 0 { return true; }
        for prior := 0 to slot
          invariant forall s :: 0 <= s < prior && page.planes[s].Some? ==> !Overlap(page.planes[s].value, plane)
        {
          if ranges[prior].1 != 0 && start < ranges[prior].1 && ranges[prior].0 < end {
            assert Overlap(page.planes[prior].value, plane);
            return true;
          }
        }
        ranges[slot] := (start, end);
      }
    }
    return false;
  }

  // ---- Page checksums ----

  predicate InData(planes: seq<Option<Plane>>, data: Bytes) {
    forall s :: 0 <= s < |planes| && planes[s].Some? ==> PlaneEnd(planes[s].value) <= |data|
  }

  /** The bytes of the planes in the first `s` slots. */
  function SlotBytes(planes: seq<Option<Plane>>, data: Bytes, s: nat): Bytes
    requires s <= |planes| && InData(planes, data)
  {
    if s == 0 then []
    else
      SlotBytes(planes, data, s - 1) +
      if planes[s - 1].Some? then data[planes[s - 1].value.offset..PlaneEnd(planes[s - 1].value)] else []
  }

  /** A checksum of zero is not looked at. */
  predicate CrcOk(page: PageInfo, data: Bytes)
    requires InData(page.planes, data)
  {
    page.crc == 0 || Checksum(SlotBytes(page.planes, data, |page.planes|)) == page.crc
  }

  method ValidatePageCrc(page: PageInfo, data: Bytes, scratch: nat) returns (ok: bool)
    requires InData(page.planes, data) && scratch > 0
    ensures ok <==> CrcOk(page, data)
  {
    hide Update;
    if page.crc == 0 { return true; }
    var register := new Register();
    NothingFed();
    for s := 0 to |page.planes|
      invariant fresh(register) && register.crc == Update(START, SlotBytes(page.planes, data, s))
    {
      assert SlotBytes(page.planes, data, s) + [] == SlotBytes(page.planes, data, s);
      if page.planes[s].Some? {
        var plane := page.planes[s].value;
        UpdateAppend(START, SlotBytes(page.planes, data, s), data[plane.offset..PlaneEnd(plane)]);
        var _ := register.UpdateRange(data, plane.offset, plane.length, scratch);
        assert plane.length == 0 ==> data[plane.offset..PlaneEnd(plane)] == [];
      }
    }
    return Number(Finished(register.crc)) == page.crc;
  }

  lemma NothingFed()
    ensures Update(START, []) == START
  {
  }

  // ---- The passes ----

  /** What is found in one page record, and the progress the next one must not fall behind. */
  function PageFound(record: Bytes, raw: nat, data: Bytes, previous: nat): (found: (seq<Finding>, nat))
    requires |record| == 128
  {
    var reserved := Report(HasReserved(record), ReservedBytes, raw);
    match ParsePage(record, raw, |data|)
    case None => (reserved + [Finding(PlaneCode, raw)], previous)
    case Some(page) =>
      PlanesInData(record, raw, data);
      (reserved
       + Report(page.progressStart < previous || page.kind == 3, Ordering, raw)
       + Report(!DirectoryOk(page), PlaneCode, raw)
       + Report(!CrcOk(page, data), PageCrc, raw),
       page.progressEnd)
  }

  function Report(wrong: bool, code: Code, raw: nat): seq<Finding> {
    if wrong then [Finding(code, raw)] else []
  }

  lemma NoReport(raw: nat)
    ensures Report(false, ReservedBytes, raw) + Report(false, Ordering, raw) + Report(false, PlaneCode, raw)
            + Report(false, PageCrc, raw) == []
  {
  }

  predicate HasReserved(record: Bytes)
    requires |record| == 128
  {
    || (exists p :: 49 <= p < 52 && record[p] != 0)
    || (exists p :: 84 <= p < 128 && record[p] != 0)
    || Wire.Read(record, 12, 4) > 1
  }

  lemma PlanesInData(record: Bytes, raw: nat, data: Bytes)
    requires ParsePage(record, raw, |data|).Some?
    ensures InData(ParsePage(record, raw, |data|).value.planes, data)
    ensures forall s :: 0 <= s < 4 && ParsePage(record, raw, |data|).value.planes[s].Some? ==>
              ParsePage(record, raw, |data|).value.planes[s].value.length > 0
  {
  }

  function PageAt(pageIndex: Bytes, n: nat): (record: Bytes)
    requires 128 * (n + 1) <= |pageIndex|
    ensures |record| == 128
  {
    pageIndex[128 * n..128 * (n + 1)]
  }

  function PagesFound(pageIndex: Bytes, data: Bytes, n: nat): (found: (seq<Finding>, nat))
    requires 128 * n <= |pageIndex|
  {
    if n == 0 then ([], 0)
    else
      var before := PagesFound(pageIndex, data, n - 1);
      var here := PageFound(PageAt(pageIndex, n - 1), n - 1, data, before.1);
      (before.0 + here.0, here.1)
  }

  method ValidatePages(pageIndex: Bytes, count: nat, data: Bytes, scratch: nat) returns (found: seq<Finding>)
    requires |pageIndex| == 128 * count && scratch >= 128
    ensures found == PagesFound(pageIndex, data, count).0
  {
    hide HasReserved, DirectoryOk, CrcOk, ParsePage;
    found := [];
    var previous: nat := 0;
    for raw := 0 to count
      invariant (found, previous) == PagesFound(pageIndex, data, raw)
    {
      var record := PageAt(pageIndex, raw);
      var here := Report(HasReserved(record), ReservedBytes, raw);
      var parsed := ParsePage(record, raw, |data|);
      if parsed.None? {
        found := found + (here + [Finding(PlaneCode, raw)]);
        continue;
      }
      var page := parsed.value;
      PlanesInData(record, raw, data);
      here := here + Report(page.progressStart < previous || page.kind == 3, Ordering, raw);
      previous := page.progressEnd;
      var invalid := InvalidPlaneDirectory(page);
      here := here + Report(invalid, PlaneCode, raw);
      var ok := ValidatePageCrc(page, data, scratch);
      here := here + Report(!ok, PageCrc, raw);
      found := found + here;
    }
  }

  datatype Key = Key(page: nat, slot: nat, index: nat)

  predicate KeyLess(a: Key, b: Key) {
    a.page < b.page || (a.page == b.page && (a.slot < b.slot || (a.slot == b.slot && a.index < b.index)))
  }

  function ChunkKey(record: Bytes): Key
    requires |record| == 24
  {
    Key(Wire.Read(record, 0, 4), record[4], record[5])
  }

  predicate IsX4Page(page: PageInfo) {
    page.width == 800 && page.height == 480 && page.format == Gray2Packed
  }

  /** The chunk lies in the plane its page has in that slot, and has the shape the X4 wants. */
  predicate ChunkInPage(chunk: ChunkInfo, page: PageInfo)
    requires |page.planes| == 4 && chunk.slot < 4
  {
    && page.planes[chunk.slot].Some?
    && page.planes[chunk.slot].value.offset <= chunk.offset
    && chunk.offset + chunk.compressed <= PlaneEnd(page.planes[chunk.slot].value)
    && (IsX4Page(page) ==> chunk.rowCount == 16 && chunk.uncompressed == 1600 && chunk.index < 30)
  }

  predicate ChunkOk(record: Bytes, previous: Option<Key>, pageIndex: Bytes, count: nat, data: Bytes)
    requires |record| == 24 && |pageIndex| == 128 * count
  {
    && (previous.Some? ==> KeyLess(previous.value, ChunkKey(record)))
    && var parsed := ParseChunk(record, count, |data|);
       parsed.Some?
       && var page := ParsePage(PageAt(pageIndex, parsed.value.page), parsed.value.page, |data|);
          page.Some? && ChunkInPage(parsed.value, page.value)
  }

  /** Record `n` of an index of 24-byte records. */
  function ShortRecordAt(index: Bytes, n: nat): (record: Bytes)
    requires 24 * (n + 1) <= |index|
    ensures |record| == 24
  {
    index[24 * n..24 * (n + 1)]
  }

  function PreviousKey(chunkIndex: Bytes, n: nat): Option<Key>
    requires 24 * n <= |chunkIndex|
  {
    if n == 0 then None else Some(ChunkKey(ShortRecordAt(chunkIndex, n - 1)))
  }

  /** One finding for each chunk record that is not in order. */
  function ChunksFound(chunkIndex: Bytes, n: nat, pageIndex: Bytes, count: nat, data: Bytes): seq<Finding>
    requires 24 * n <= |chunkIndex| && |pageIndex| == 128 * count
  {
    if n == 0 then []
    else
      ChunksFound(chunkIndex, n - 1, pageIndex, count, data) +
      if ChunkOk(ShortRecordAt(chunkIndex, n - 1), PreviousKey(chunkIndex, n - 1), pageIndex, count, data) then []
      else [Finding(ChunkCode, n - 1)]
  }

  method ValidateChunks(chunkIndex: Bytes, n: nat, pageIndex: Bytes, count: nat, data: Bytes)
    returns (found: seq<Finding>)
    requires |chunkIndex| == 24 * n && |pageIndex| == 128 * count
    ensures found == ChunksFound(chunkIndex, n, pageIndex, count, data)
  {
    hide ParsePage, ParseChunk, ChunkKey, KeyLess;
    found := [];
    var previous: Option<Key> := None;
    for raw := 0 to n
      invariant found == ChunksFound(chunkIndex, raw, pageIndex, count, data)
      invariant previous == PreviousKey(chunkIndex, raw)
    {
      var record := ShortRecordAt(chunkIndex, raw);
      var key := ChunkKey(record);
      var parsed := ParseChunk(record, count, |data|);
      var invalid := parsed.None? || (previous.Some? && !KeyLess(previous.value, key));
      if parsed.Some? {
        var chunk := parsed.value;
        ParsedChunk(record, count, |data|);
        var page := ParsePage(PageAt(pageIndex, chunk.page), chunk.page, |data|);
        if page.None? {
          found, previous := found + [Finding(ChunkCode, raw)], Some(key);
          continue;
        }
        var parent := page.value.planes[chunk.slot];
        var chunkEnd := chunk.offset + chunk.compressed;
        invalid := invalid || parent.None? || chunk.offset < parent.value.offset || chunkEnd > PlaneEnd(parent.value);
        if page.value.width == 800 && page.value.height == 480 && page.value.format == Gray2Packed {
          invalid := invalid || chunk.rowCount != 16 || chunk.uncompressed != 1600 || chunk.index >= 30;
        }
      }
      if invalid { found := found + [Finding(ChunkCode, raw)]; }
      previous := Some(key);
    }
  }

  lemma ParsedChunk(record: Bytes, count: nat, dataLength: nat)
    requires ParseChunk(record, count, dataLength).Some?
    ensures var chunk := ParseChunk(record, count, dataLength).value; chunk.page < count && chunk.slot < 4
  {
  }
}
