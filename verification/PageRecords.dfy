/** Page, chunk and transition records: how they are written, and what the reader takes from them. */
module PageRecords {
  import opened Common
  import opened Wire
  import opened Bits

  /** A number for each plane slot. */
  type BySlot = s: seq<nat> | |s| == 4 witness [0, 0, 0, 0]

  // ---- The plane bitmap ----

  predicate HasBit(bitmap: nat, slot: nat) {
    Bit(bitmap, slot)
  }

  lemma WithSlot(bitmap: nat, slot: nat)
    requires bitmap < 16 && slot < 4
    ensures SetBit(bitmap, slot) < 16
    ensures forall other: nat :: HasBit(SetBit(bitmap, slot), other) <==> other == slot || HasBit(bitmap, other)
  {
    Powers();
    BitsStayBelow(bitmap, slot, 4);
    forall other: nat
      ensures HasBit(SetBit(bitmap, slot), other) <==> other == slot || HasBit(bitmap, other)
    {
      SetBitSets(bitmap, slot, other);
    }
  }

  lemma SameSlots(x: nat, y: nat)
    requires x < 16 && y < 16 && forall slot :: 0 <= slot < 4 ==> (HasBit(x, slot) <==> HasBit(y, slot))
    ensures x == y
  {
    Powers();
    forall i | 0 <= i < 4
      ensures Bit(x, i) <==> Bit(y, i)
    {
      assert HasBit(x, i) <==> HasBit(y, i);
    }
    SameBits(x, y, 4);
  }

  // ---- Records ----

  datatype PageRecord = PageRecord(
    number: nat, kind: nat, format: nat, compression: nat, flags: nat, crc: nat, width: nat, height: nat,
    spine: nat, chapter: nat, progressStart: nat, progressEnd: nat,
    bitmap: nat, compressions: BySlot, offsets: BySlot, sizes: BySlot)

  datatype ChunkRecord = ChunkRecord(
    page: nat, slot: nat, index: nat, rowStart: nat, rowCount: nat, offset: nat, compressed: nat, uncompressed: nat)

  datatype TransitionRecord = TransitionRecord(from: nat, to: nat, mask: nat, first: nat, count: nat)

  predicate PageFits(r: PageRecord) {
    && r.number < U32_LIMIT && r.kind < U16_LIMIT && r.format < U16_LIMIT && r.compression < U16_LIMIT
    && r.flags < U32_LIMIT && r.crc < U32_LIMIT && r.width < U16_LIMIT && r.height < U16_LIMIT
    && r.progressStart < U32_LIMIT && r.progressEnd < U32_LIMIT && r.bitmap < 256
    && forall slot :: 0 <= slot < 4 ==>
         r.compressions[slot] < 256 && r.offsets[slot] < U32_LIMIT && r.sizes[slot] < U32_LIMIT
  }

  predicate ChunkFits(r: ChunkRecord) {
    && r.page < U32_LIMIT && r.slot < 256 && r.index < 256 && r.rowStart < U16_LIMIT && r.rowCount < U16_LIMIT
    && r.offset < U32_LIMIT && r.compressed < U32_LIMIT && r.uncompressed < U32_LIMIT
  }

  predicate TransitionFits(r: TransitionRecord) {
    && r.from < U32_LIMIT && r.to < U32_LIMIT && r.mask < U32_LIMIT && r.first < U16_LIMIT && r.count < U16_LIMIT
  }

  function HeadFields(r: PageRecord): (fields: seq<Field>)
    ensures InOrder(44, fields) && |fields| == 15
  {
    [Number(0, r.number, 4), Number(4, r.kind, 2), Number(6, r.format, 2), Number(8, r.compression, 2),
     Number(10, 0, 2),
     Number(12, r.flags, 4), Number(16, r.crc, 4), Number(20, r.width, 2), Number(22, r.height, 2), Number(24, 0, 2),
     Number(26, 0, 2), Number(28, r.spine, 4), Number(32, r.chapter, 4), Number(36, r.progressStart, 4),
     Number(40, r.progressEnd, 4)]
  }

  function DirectoryFields(r: PageRecord): (fields: seq<Field>)
    ensures InOrder(128, fields) && |fields| == 13 && fields[0].at == 44
  {
    [Number(44, r.bitmap, 1), Number(45, r.compressions[0], 1), Number(46, r.compressions[1], 1),
     Number(47, r.compressions[2], 1), Number(48, r.compressions[3], 1), Number(52, r.offsets[0], 4),
     Number(56, r.offsets[1], 4),
     Number(60, r.offsets[2], 4), Number(64, r.offsets[3], 4), Number(68, r.sizes[0], 4), Number(72, r.sizes[1], 4),
     Number(76, r.sizes[2], 4), Number(80, r.sizes[3], 4)]
  }

  /** The update hint and both placements are written as zero. */
  function PageFields(r: PageRecord): (fields: seq<Field>)
    ensures InOrder(128, fields)
  {
    HeadFields(r) + DirectoryFields(r)
  }

  function ChunkFields(r: ChunkRecord): (fields: seq<Field>)
    ensures InOrder(24, fields)
  {
    [Number(0, r.page, 4), Number(4, r.slot, 1), Number(5, r.index, 1), Number(6, r.rowStart, 2),
     Number(8, r.rowCount, 2),
     Number(12, r.offset, 4), Number(16, r.compressed, 4), Number(20, r.uncompressed, 4)]
  }

  function TransitionFields(r: TransitionRecord): (fields: seq<Field>)
    ensures InOrder(24, fields)
  {
    [Number(0, r.from, 4), Number(4, r.to, 4), Number(8, r.mask, 4), Number(12, r.first, 2), Number(14, r.count, 2),
     Number(16, 0, 2)]
  }

  function PageBytes(r: PageRecord): (b: Bytes)
    ensures |b| == 128
  {
    Laid(128, PageFields(r))
  }

  function ChunkBytes(r: ChunkRecord): (b: Bytes)
    ensures |b| == 24
  {
    Laid(24, ChunkFields(r))
  }

  function TransitionBytes(r: TransitionRecord): (b: Bytes)
    ensures |b| == 24
  {
    Laid(24, TransitionFields(r))
  }

  // ---- What the reader takes from the bytes ----

  datatype PixelFormat = Gray1Packed | Gray2Packed | Gray4Packed | Rgb565 | Rgb888 | Rgba8888

  function FormatOf(code: nat): Option<PixelFormat> {
    match code
    case 1 => Some(Gray1Packed)
    case 2 => Some(Gray2Packed)
    case 4 => Some(Gray4Packed)
    case 8 => Some(Rgb565)
    case 16 => Some(Rgb888)
    case 32 => Some(Rgba8888)
    case _ => None
  }

  predicate KnownCompression(code: nat) {
    code <= 2
  }

  datatype Plane = Plane(compression: nat, offset: nat, length: nat)

  datatype PageInfo = PageInfo(
    number: nat, kind: nat, format: PixelFormat, flags: nat, crc: nat, width: nat, height: nat,
    progressStart: nat, progressEnd: nat, bitmap: nat,
    planes: seq<Option<Plane>>)

  /** The plane in a slot; `None` inside where the bitmap has none, `None` outside where it is not acceptable. */
  function PlaneAt(bytes: Bytes, slot: nat, dataLength: nat): Option<Option<Plane>>
    requires slot < 4 && |bytes| >= 128
  {
    if !HasBit(bytes[44], slot) then Some(None)
    else
      var offset, length := Read(bytes, 52 + slot * 4, 4), Read(bytes, 68 + slot * 4, 4);
      var compression := if Read(bytes, 12, 4) % 2 == 0 then Read(bytes, 8, 2) else bytes[45 + slot];
      if length == 0 || offset + length > dataLength || !KnownCompression(compression) then None
      else Some(Some(Plane(compression, offset, length)))
  }

  function ParsePage(bytes: Bytes, expected: nat, dataLength: nat): (r: Option<PageInfo>)
    ensures r.Some? ==> |r.value.planes| == 4
  {
    if |bytes| < 128 || Read(bytes, 0, 4) != expected || !KnownCompression(Read(bytes, 8, 2)) ||
        bytes[44] >= 16 then None
    else
      var p0, p1 := PlaneAt(bytes, 0, dataLength), PlaneAt(bytes, 1, dataLength);
      var p2, p3 := PlaneAt(bytes, 2, dataLength), PlaneAt(bytes, 3, dataLength);
      var start, end := Read(bytes, 36, 4), Read(bytes, 40, 4);
      var format := FormatOf(Read(bytes, 6, 2));
      if p0.None? || p1.None? || p2.None? || p3.None? || start > end || end > 1_000_000 || format.None? then None
      else
        Some(PageInfo(expected, Read(bytes, 4, 2), format.value, Read(bytes, 12, 4), Read(bytes, 16, 4),
                      Read(bytes, 20, 2), Read(bytes, 22, 2), start, end, bytes[44],
                      [p0.value, p1.value, p2.value, p3.value]))
  }

  datatype ChunkInfo = ChunkInfo(
    page: nat, slot: nat, index: nat, rowStart: nat, rowCount: nat, offset: nat, compressed: nat, uncompressed: nat)

  function ParseChunk(bytes: Bytes, pageCount: nat, dataLength: nat): Option<ChunkInfo> {
    if |bytes| < 24 || Read(bytes, 0, 4) >= pageCount || bytes[5] >= 32 || bytes[4] >= 4 then None
    else
      var offset, compressed := Read(bytes, 12, 4), Read(bytes, 16, 4);
      if compressed == 0 || offset + compressed > dataLength || Read(bytes, 10, 2) != 0 then None
      else
        Some(ChunkInfo(Read(bytes, 0, 4), bytes[4], bytes[5], Read(bytes, 6, 2), Read(bytes, 8, 2), offset, compressed,
                       Read(bytes, 20, 4)))
  }

  datatype TransitionInfo = TransitionInfo(from: nat, to: nat, mask: nat, first: nat, count: nat)

  function ParseTransition(bytes: Bytes, pageCount: nat): Option<TransitionInfo> {
    if |bytes| < 24 then None
    else
      var t := TransitionInfo(Read(bytes, 0, 4), Read(bytes, 4, 4), Read(bytes, 8, 4), Read(bytes, 12, 2),
          Read(bytes, 14, 2));
      if t.from >= pageCount || t.to >= pageCount || Read(bytes, 16, 2) != 0 || Read(bytes, 18, 2) != 0
         || Read(bytes, 20, 4) != 0 || (t.mask == 0 && (t.first != 0 || t.count != 0)) then None
      else Some(t)
  }

  // ---- Round trips ----

  lemma ZeroReads(b: Bytes, at: nat, n: nat)
    requires at + n <= |b| && forall p :: at <= p < at + n ==> b[p] == 0
    ensures Read(b, at, n) == 0
    decreases n
  {
    if n > 0 {
      ZeroReads(b, at + 1, n - 1);
      assert b[at..at + n][1..] == b[at + 1..at + 1 + (n - 1)];
    }
  }

  lemma ByteReads(b: Bytes, at: nat)
    requires at < |b|
    ensures Read(b, at, 1) == b[at]
  {
    assert b[at..at + 1] == [b[at]] && [b[at]][1..] == [];
    assert Value([b[at]]) == b[at] + 256 * Value([]);
  }

  /** What a reader should take from a record in one of the plane slots. */
  function PlaneIn(r: PageRecord, slot: nat): Option<Plane>
    requires slot < 4
  {
    if HasBit(r.bitmap, slot) then Some(Plane(r.compressions[slot], r.offsets[slot], r.sizes[slot])) else None
  }

  /** A record as the writer makes it. */
  predicate PageIsSound(r: PageRecord, dataLength: nat) {
    && PageFits(r) && KnownCompression(r.compression) && r.bitmap < 16 && r.flags == 1 && FormatOf(r.format).Some?
    && r.progressStart <= r.progressEnd <= 1_000_000
    && forall slot :: 0 <= slot < 4 && HasBit(r.bitmap, slot) ==>
         && r.sizes[slot] > 0 && r.offsets[slot] + r.sizes[slot] <= dataLength && KnownCompression(r.compressions[slot])
  }

  lemma PlaneReadsBack(r: PageRecord, slot: nat, dataLength: nat)
    requires slot < 4 && r.flags == 1 && PageFits(r)
    requires HasBit(r.bitmap, slot) ==>
               r.sizes[slot] > 0 && r.offsets[slot] + r.sizes[slot] <= dataLength &&
                   KnownCompression(r.compressions[slot])
    ensures PlaneAt(PageBytes(r), slot, dataLength) == Some(PlaneIn(r, slot))
    ensures PageBytes(r)[44] == r.bitmap
  {
    hide Laid, LittleEndian, Read, Room;
    var fields, b := PageFields(r), PageBytes(r);
    Rooms();
    NumberReads(128, fields, 5, 12, r.flags, 4);
    NumberReads(128, fields, 15, 44, r.bitmap, 1);
    NumberReads(128, fields, 16 + slot, 45 + slot, r.compressions[slot], 1);
    NumberReads(128, fields, 20 + slot, 52 + slot * 4, r.offsets[slot], 4);
    NumberReads(128, fields, 24 + slot, 68 + slot * 4, r.sizes[slot], 4);
    ByteReads(b, 44);
    ByteReads(b, 45 + slot);
  }

  lemma PageNumbersReadBack(r: PageRecord)
    requires PageFits(r)
    ensures var b := PageBytes(r);
            && Read(b, 0, 4) == r.number && Read(b, 4, 2) == r.kind && Read(b, 6, 2) == r.format
            && Read(b, 8, 2) == r.compression && Read(b, 12, 4) == r.flags
  {
    hide Laid, LittleEndian, Read, Room;
    var fields := PageFields(r);
    Rooms();
    NumberReads(128, fields, 0, 0, r.number, 4);
    NumberReads(128, fields, 1, 4, r.kind, 2);
    NumberReads(128, fields, 2, 6, r.format, 2);
    NumberReads(128, fields, 3, 8, r.compression, 2);
    NumberReads(128, fields, 5, 12, r.flags, 4);
  }

  lemma PageMeasuresReadBack(r: PageRecord)
    requires PageFits(r)
    ensures var b := PageBytes(r);
            && Read(b, 16, 4) == r.crc && Read(b, 20, 2) == r.width && Read(b, 22, 2) == r.height
            && Read(b, 36, 4) == r.progressStart && Read(b, 40, 4) == r.progressEnd
  {
    hide Laid, LittleEndian, Read, Room;
    var fields := PageFields(r);
    Rooms();
    NumberReads(128, fields, 6, 16, r.crc, 4);
    NumberReads(128, fields, 7, 20, r.width, 2);
    NumberReads(128, fields, 8, 22, r.height, 2);
    NumberReads(128, fields, 13, 36, r.progressStart, 4);
    NumberReads(128, fields, 14, 40, r.progressEnd, 4);
  }

  /** A sound record reads back, plane by plane, and the bytes no field covers are zero. */
  lemma PageReadsBack(r: PageRecord, dataLength: nat)
    requires PageIsSound(r, dataLength)
    ensures ParsePage(PageBytes(r), r.number, dataLength) ==
            Some(PageInfo(r.number, r.kind, FormatOf(r.format).value, 1, r.crc, r.width, r.height,
                          r.progressStart, r.progressEnd, r.bitmap,
                          [PlaneIn(r, 0), PlaneIn(r, 1), PlaneIn(r, 2), PlaneIn(r, 3)]))
    ensures Read(PageBytes(r), 12, 4) == 1
    ensures forall p :: 49 <= p < 52 || 84 <= p < 128 ==> PageBytes(r)[p] == 0
  {
    hide Laid, LittleEndian, Read, Room, PlaneAt, FormatOf;
    PageNumbersReadBack(r);
    PageMeasuresReadBack(r);
    PlaneReadsBack(r, 0, dataLength);
    PlaneReadsBack(r, 1, dataLength);
    PlaneReadsBack(r, 2, dataLength);
    PlaneReadsBack(r, 3, dataLength);
    forall p | 49 <= p < 52 || 84 <= p < 128
      ensures PageBytes(r)[p] == 0
    {
      NothingBeside(128, PageFields(r), p);
    }
  }

  lemma ChunkKeyReadsBack(r: ChunkRecord)
    requires ChunkFits(r)
    ensures Read(ChunkBytes(r), 0, 4) == r.page && ChunkBytes(r)[4] == r.slot && ChunkBytes(r)[5] == r.index
  {
    hide Laid, LittleEndian, Read, Room;
    var fields, b := ChunkFields(r), ChunkBytes(r);
    Rooms();
    NumberReads(24, fields, 0, 0, r.page, 4);
    NumberReads(24, fields, 1, 4, r.slot, 1);
    NumberReads(24, fields, 2, 5, r.index, 1);
    ByteReads(b, 4);
    ByteReads(b, 5);
  }

  lemma ChunkNumbersReadBack(r: ChunkRecord)
    requires ChunkFits(r)
    ensures var b := ChunkBytes(r);
            && Read(b, 6, 2) == r.rowStart && Read(b, 8, 2) == r.rowCount && Read(b, 10, 2) == 0
            && Read(b, 12, 4) == r.offset && Read(b, 16, 4) == r.compressed && Read(b, 20, 4) == r.uncompressed
  {
    hide Laid, LittleEndian, Read, Room;
    var fields := ChunkFields(r);
    Rooms();
    NumberReads(24, fields, 3, 6, r.rowStart, 2);
    NumberReads(24, fields, 4, 8, r.rowCount, 2);
    NumberReads(24, fields, 5, 12, r.offset, 4);
    NumberReads(24, fields, 6, 16, r.compressed, 4);
    NumberReads(24, fields, 7, 20, r.uncompressed, 4);
    NothingBeside(24, fields, 10);
    NothingBeside(24, fields, 11);
    ZeroReads(ChunkBytes(r), 10, 2);
  }

  lemma ChunkReadsBack(r: ChunkRecord, pageCount: nat, dataLength: nat)
    requires ChunkFits(r) && r.page < pageCount && r.slot < 4 && r.index < 32
    requires r.compressed > 0 && r.offset + r.compressed <= dataLength
    ensures ParseChunk(ChunkBytes(r), pageCount, dataLength) ==
            Some(ChunkInfo(r.page, r.slot, r.index, r.rowStart, r.rowCount, r.offset, r.compressed, r.uncompressed))
  {
    hide Read, ChunkBytes;
    ChunkKeyReadsBack(r);
    ChunkNumbersReadBack(r);
  }

  lemma TransitionReadsBack(r: TransitionRecord, pageCount: nat)
    requires TransitionFits(r) && r.from < pageCount && r.to < pageCount && (r.mask == 0 ==> r.first == r.count == 0)
    ensures ParseTransition(TransitionBytes(r), pageCount) ==
            Some(TransitionInfo(r.from, r.to, r.mask, r.first, r.count))
  {
    hide Laid, LittleEndian, Read, Room;
    var fields, b := TransitionFields(r), TransitionBytes(r);
    Rooms();
    NumberReads(24, fields, 0, 0, r.from, 4);
    NumberReads(24, fields, 1, 4, r.to, 4);
    NumberReads(24, fields, 2, 8, r.mask, 4);
    NumberReads(24, fields, 3, 12, r.first, 2);
    NumberReads(24, fields, 4, 14, r.count, 2);
    NumberReads(24, fields, 5, 16, 0, 2);
    forall p | 18 <= p < 24
      ensures b[p] == 0
    {
      NothingBeside(24, fields, p);
    }
    ZeroReads(b, 18, 2);
    ZeroReads(b, 20, 4);
  }
}
