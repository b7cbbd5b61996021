/** Pages of four grays: packing and unpacking, turning upright pages to the panel, and joining planes again. */
module GrayPages {
  import opened Common
  import opened Bits
  import opened GrayPlanes

  // ---- Joining planes ----

  function LevelAt(planes: Planes, q: nat): Gray
    requires q < 8 * Min(|planes.msb|, Min(|planes.lsb|, |planes.base|))
  {
    if BitAt(planes.base, q) then 3
    else if !BitAt(planes.msb, q) then 0
    else if BitAt(planes.lsb, q) then 1
    else 2
  }

  predicate PlanesFit(planes: Planes, width: nat, height: nat) {
    && width > 0 && width % 8 == 0
    && |planes.msb| == |planes.lsb| == |planes.base| == height * (width / 8)
  }

  predicate PixelIsJoined(packed: Bytes, planes: Planes, width: nat, height: nat, p: nat, done: nat)
    requires PlanesFit(planes, width, height) && |packed| == height * (width / 4) && p < height * width
  {
    Sizes(width, height);
    MirrorTwice(width, height, p);
    GrayAt(packed, p) == if p < done then LevelAt(planes, Mirror(width, p)) else 0
  }

  /** The first `done` pixels are joined, the others are zero. */
  ghost predicate JoinedUpTo(packed: Bytes, planes: Planes, width: nat, height: nat, done: nat) {
    && PlanesFit(planes, width, height) && |packed| == height * (width / 4) && done <= height * width
    && forall p :: 0 <= p < height * width ==> PixelIsJoined(packed, planes, width, height, p, done)
  }

  lemma NothingIsJoined(packed: Bytes, planes: Planes, width: nat, height: nat)
    requires PlanesFit(planes, width, height) && |packed| == height * (width / 4)
    requires forall i :: 0 <= i < |packed| ==> packed[i] == 0
    ensures JoinedUpTo(packed, planes, width, height, 0 * width)
  {
    Sizes(width, height);
    forall p | 0 <= p < height * width
      ensures PixelIsJoined(packed, planes, width, height, p, 0)
    {
      BlankByte(p % 4);
    }
  }

  lemma NextIsJoined(packed: Bytes, planes: Planes, width: nat, height: nat, done: nat)
    requires JoinedUpTo(packed, planes, width, height, done) && done < height * width
    ensures done < 4 * |packed| && Mirror(width, done) < 8 * |planes.msb|
    ensures JoinedUpTo(WithGrayAt(packed, done, LevelAt(planes, Mirror(width, done))), planes, width, height, done + 1)
  {
    hide GrayAt, WithGrayAt, LevelAt, Mirror;
    Sizes(width, height);
    MirrorTwice(width, height, done);
    assert PixelIsJoined(packed, planes, width, height, done, done);
    var level, next := LevelAt(planes, Mirror(width, done)), done + 1;
    var after := WithGrayAt(packed, done, level);
    forall p | 0 <= p < height * width
      ensures PixelIsJoined(after, planes, width, height, p, next)
    {
      assert PixelIsJoined(packed, planes, width, height, p, done);
      WithGrayAtIs(packed, done, level, p);
    }
  }

  lemma JoinAt(packed: Bytes, planes: Planes, width: nat, height: nat, row: nat, x: nat)
    requires x < width && row < height && JoinedUpTo(packed, planes, width, height, row * width + x)
    ensures var ramX, p := width - 1 - x, row * width + x;
            && Mirror(width, p) == 8 * PlaneByte(row, ramX, width) + ramX % 8 < 8 * |planes.msb|
            && PlanesFit(planes, width, height)
            && p == 4 * PackedByte(row, x, width) + x % 4 < 4 * |packed|
            && JoinedUpTo(WithGrayAt(packed, p, LevelAt(planes, Mirror(width, p))), planes, width, height, p + 1)
  {
    hide PackedByte, PlaneByte, Mirror, PixelIsJoined;
    assert row * width + x < height * width by { Apart(height, row, width); }
    Addresses(row, x, width);
    NextIsJoined(packed, planes, width, height, row * width + x);
  }

  /** Puts a page together from its three planes. */
  method JoinPlanes(planes: Planes, width: nat, height: nat) returns (packed: Bytes)
    requires width % 8 == 0 && |planes.msb| == |planes.lsb| == |planes.base| == height * (width / 8)
    ensures if width == 0 then packed == [] else JoinedUpTo(packed, planes, width, height, height * width)
  {
    if width == 0 { return []; }
    hide JoinedUpTo, LevelAt, PackedByte, PlaneByte, Mirror, WithGrayAt;
    packed := seq(height * (width / 4), _ => 0);
    NothingIsJoined(packed, planes, width, height);
    for row := 0 to height
      invariant JoinedUpTo(packed, planes, width, height, row * width)
    {
      for x := 0 to width
        invariant JoinedUpTo(packed, planes, width, height, row * width + x)
      {
        JoinAt(packed, planes, width, height, row, x);
        var ramX := width - 1 - x;
        var level := LevelAt(planes, 8 * PlaneByte(row, ramX, width) + ramX % 8);
        packed := WithGrayAt(packed, 4 * PackedByte(row, x, width) + x % 4, level);
      }
      assert (row + 1) * width == row * width + width;
    }
  }

  /** Other widths end in an index out of bounds: the first pixel of the last row lies behind the end of its plane. */
  lemma OtherWidthsOverrun(width: nat, height: nat)
    requires width % 8 != 0 && height > 0
    ensures PlaneByte(height - 1, width - 1, width) >= height * (width / 8)
  {
    assert (width - 1) / 8 >= width / 8;
    var w := width / 8;
    assert (height - 1) * w + w == height * w;
  }

  /** Splitting a page into planes loses nothing: joining them gives the page back. */
  lemma JoiningUndoesSplitting(packed: Bytes, planes: Planes, joined: Bytes, width: nat, height: nat)
    requires Staged(packed, planes, width, height, height * width)
    requires JoinedUpTo(joined, planes, width, height, height * width)
    ensures joined == packed
  {
    Sizes(width, height);
    var n := height * width;
    forall p | 0 <= p < n
      ensures GrayAt(joined, p) == GrayAt(packed, p)
    {
      assert PixelIsStaged(packed, planes.msb, planes.lsb, planes.base, width, height, p, n);
      assert PixelIsJoined(joined, planes, width, height, p, n);
    }
    SamePixels(joined, packed);
  }

  // ---- Lists of pixels ----

  datatype ValueError = WrongLength | GrayOutOfRange

  function RowBytes(width: nat): nat {
    (width + 3) / 4
  }

  /** Pixel `k` of byte `b`: one of the row's, or padding at its end. */
  function PixelFor(pixels: seq<int>, width: nat, height: nat, b: nat, k: nat): int
    requires |pixels| == height * width && b < height * RowBytes(width) && k < 4
  {
    var rowBytes := RowBytes(width);
    var y, x := b / rowBytes, 4 * (b % rowBytes) + k;
    if x < width then
      RowFits(y, rowBytes, height, b);
      InRow(y, x, width, height);
      pixels[y * width + x]
    else 0
  }

  lemma InRow(y: nat, x: nat, width: nat, height: nat)
    requires x < width && y < height
    ensures y * width + x < height * width
  {
    Apart(height, y, width);
  }

  predicate IsPackedByte(byte: Byte, pixels: seq<int>, width: nat, height: nat, b: nat)
    requires |pixels| == height * width && b < height * RowBytes(width)
  {
    forall k :: 0 <= k < 4 ==> Field(byte, k) == PixelFor(pixels, width, height, b, k)
  }

  /** Rows of packed pixels, each filled up with zeros to a whole byte. */
  ghost predicate IsPacked(data: Bytes, pixels: seq<int>, width: nat, height: nat) {
    && |pixels| == height * width && |data| == height * RowBytes(width)
    && forall b :: 0 <= b < |data| ==> IsPackedByte(data[b], pixels, width, height, b)
  }

  predicate GraysIn(pixels: seq<int>, from: nat, end: nat)
    requires end <= |pixels|
  {
    forall p :: from <= p < end ==> 0 <= pixels[p] <= 3
  }

  /** The bytes so far are those the pixels want. */
  ghost predicate PackedFront(data: Bytes, pixels: seq<int>, width: nat, height: nat) {
    && |pixels| == height * width && |data| <= height * RowBytes(width)
    && forall b :: 0 <= b < |data| ==> IsPackedByte(data[b], pixels, width, height, b)
  }

  method PackGray2(pixels: seq<int>, width: nat, height: nat) returns (r: Result<Bytes, ValueError>)
    ensures r.Ok? <==> |pixels| == height * width && GraysIn(pixels, 0, |pixels|)
    ensures r.Ok? ==> IsPacked(r.value, pixels, width, height)
    ensures r.Err? ==> (r.error == WrongLength <==> |pixels| != height * width)
  {
    hide IsPackedByte;
    if |pixels| != height * width { return Err(WrongLength); }
    var output: Bytes := [];
    for y := 0 to height
      invariant |output| == y * RowBytes(width) && y * width <= |pixels|
      invariant PackedFront(output, pixels, width, height) && GraysIn(pixels, 0, y * width)
    {
      RowWithin(y, width, height);
      var packed := PackRow(pixels, width, height, y, output);
      if packed.Err? { return Err(GrayOutOfRange); }
      output := packed.value;
    }
    return Ok(output);
  }

  lemma RowWithin(y: nat, width: nat, height: nat)
    requires y < height
    ensures (y + 1) * width == y * width + width <= height * width
  {
    Apart(height, y, width);
  }

  method PackRow(pixels: seq<int>, width: nat, height: nat, y: nat, front: Bytes) returns (r: Result<Bytes, ValueError>)
    requires y < height && |pixels| == height * width && |front| == y * RowBytes(width)
    requires PackedFront(front, pixels, width, height) && y * width + width <= |pixels|
    ensures r.Ok? <==> GraysIn(pixels, y * width, y * width + width)
    ensures r.Ok? ==> |r.value| == (y + 1) * RowBytes(width) && PackedFront(r.value, pixels, width, height)
  {
    hide IsPackedByte;
    var output, index: nat := front, y * width;
    for xb := 0 to RowBytes(width)
      invariant |output| == y * RowBytes(width) + xb && index == y * width + Min(4 * xb, width)
      invariant PackedFront(output, pixels, width, height) && GraysIn(pixels, y * width, index)
    {
      var count := Min(4, width - 4 * xb);
      var packed := PackByte(pixels, width, height, y, xb, index);
      if packed.Err? { return Err(GrayOutOfRange); }
      output, index := output + [packed.value], index + count;
    }
    RowWithin(y, RowBytes(width), height);
    return Ok(output);
  }

  /** Pixel `k` of the byte `xb` in row `y`, or padding. */
  lemma PixelForIs(pixels: seq<int>, width: nat, height: nat, y: nat, xb: nat, k: nat)
    requires |pixels| == height * width && y < height && xb < RowBytes(width) && k < 4
    ensures var b := y * RowBytes(width) + xb;
            && b < height * RowBytes(width) && (4 * xb + k < width ==> y * width + (4 * xb + k) < |pixels|)
            && PixelFor(pixels, width, height, b, k) ==
               if 4 * xb + k < width then pixels[y * width + (4 * xb + k)] else 0
  {
    RowAndColumn(y, xb, RowBytes(width));
    InRow(y, xb, RowBytes(width), height);
    if 4 * xb + k < width { InRow(y, 4 * xb + k, width, height); }
  }

  /** The first `slot` pixels of a byte are in place, the others blank. */
  predicate PackedSoFar(byte: Byte, pixels: seq<int>, width: nat, height: nat, b: nat, slot: nat)
    requires |pixels| == height * width && b < height * RowBytes(width)
  {
    forall k :: 0 <= k < 4 ==> Field(byte, k) == if k < slot then PixelFor(pixels, width, height, b, k) else 0
  }

  lemma PackNext(byte: Byte, pixels: seq<int>, width: nat, height: nat, b: nat, slot: nat)
    requires |pixels| == height * width && b < height * RowBytes(width) && slot < 4
    requires PackedSoFar(byte, pixels, width, height, b, slot) && 0 <= PixelFor(pixels, width, height, b, slot) <= 3
    ensures PackedSoFar(WithField(byte, slot, PixelFor(pixels, width, height, b, slot)), pixels, width, height, b,
            slot + 1)
  {
    hide Field, WithField, PixelFor;
    forall k | 0 <= k < 4
      ensures Field(WithField(byte, slot, PixelFor(pixels, width, height, b, slot)), k) ==
              if k <= slot then PixelFor(pixels, width, height, b, k) else 0
    {
      WithFieldIs(byte, slot, PixelFor(pixels, width, height, b, slot), k);
    }
  }

  method PackByte(pixels: seq<int>, width: nat, height: nat, y: nat, xb: nat, index: nat)
    returns (r: Result<Byte, ValueError>)
    requires |pixels| == height * width && y < height && xb < RowBytes(width)
    requires index == y * width + 4 * xb && y * width + width <= |pixels|
    ensures y * RowBytes(width) + xb < height * RowBytes(width)
    ensures r.Ok? ==> IsPackedByte(r.value, pixels, width, height, y * RowBytes(width) + xb)
    ensures r.Ok? <==> GraysIn(pixels, index, index + Min(4, width - 4 * xb))
  {
    hide PixelFor, Field, WithField;
    PixelForIs(pixels, width, height, y, xb, 0);
    ghost var b := y * RowBytes(width) + xb;
    var byte: Byte := 0;
    forall k | 0 <= k < 4
      ensures Field(0, k) == 0
    {
      BlankByte(k);
    }
    for slot := 0 to 4
      invariant PackedSoFar(byte, pixels, width, height, b, slot)
      invariant GraysIn(pixels, index, index + Min(slot, width - 4 * xb))
    {
      PixelForIs(pixels, width, height, y, xb, slot);
      var value := if 4 * xb + slot < width then pixels[index + slot] else 0;
      if value < 0 || value > 3 { return Err(GrayOutOfRange); }
      PackNext(byte, pixels, width, height, b, slot);
      byte := WithField(byte, slot, value);
    }
    return Ok(byte);
  }

  /** The pixels are those of the packed rows, without the padding. */
  ghost predicate IsUnpacked(pixels: seq<int>, data: Bytes, width: nat, height: nat) {
    && |pixels| == height * width && |data| == height * RowBytes(width)
    && forall y, x :: 0 <= y < height && 0 <= x < width ==> IsPixel(pixels, data, width, height, y, x)
  }

  predicate IsPixel(pixels: seq<int>, data: Bytes, width: nat, height: nat, y: nat, x: nat)
    requires y < height && x < width && |pixels| == height * width && |data| == height * RowBytes(width)
  {
    InRow(y, x, width, height);
    InRow(y, x / 4, RowBytes(width), height);
    pixels[y * width + x] == Field(data[y * RowBytes(width) + x / 4], x % 4)
  }

  method UnpackGray2(data: Bytes, width: nat, height: nat) returns (r: Result<seq<int>, ValueError>)
    ensures r.Ok? <==> |data| == height * RowBytes(width)
    ensures r.Ok? ==> IsUnpacked(r.value, data, width, height)
  {
    hide PixelIn;
    if |data| != height * RowBytes(width) { return Err(WrongLength); }
    var pixels: seq<int> := [];
    for y := 0 to height
      invariant |pixels| == y * width && UnpackedFront(pixels, data, width, height)
    {
      RowWithin(y, width, height);
      for x := 0 to width
        invariant |pixels| == y * width + x && UnpackedFront(pixels, data, width, height)
      {
        PixelInIs(data, width, height, y, x);
        pixels := pixels + [Field(data[y * RowBytes(width) + x / 4], x % 4)];
      }
    }
    UnpackedWhole(pixels, data, width, height);
    return Ok(pixels);
  }

  predicate UnpackedFront(pixels: seq<int>, data: Bytes, width: nat, height: nat)
    requires |data| == height * RowBytes(width)
  {
    forall p :: 0 <= p < |pixels| ==> pixels[p] == PixelIn(data, width, height, p)
  }

  lemma UnpackedWhole(pixels: seq<int>, data: Bytes, width: nat, height: nat)
    requires |data| == height * RowBytes(width) && |pixels| == height * width
    requires UnpackedFront(pixels, data, width, height)
    ensures IsUnpacked(pixels, data, width, height)
  {
    hide PixelIn;
    forall y, x | 0 <= y < height && 0 <= x < width
      ensures IsPixel(pixels, data, width, height, y, x)
    {
      PixelInIs(data, width, height, y, x);
    }
  }

  /** Pixel `p` of packed rows. */
  function PixelIn(data: Bytes, width: nat, height: nat, p: nat): int
    requires |data| == height * RowBytes(width)
  {
    if width == 0 || p >= height * width then 0
    else
      RowFits(p / width, width, height, p);
      InRow(p / width, p % width / 4, RowBytes(width), height);
      Field(data[p / width * RowBytes(width) + p % width / 4], p % width % 4)
  }

  lemma PixelInIs(data: Bytes, width: nat, height: nat, y: nat, x: nat)
    requires y < height && x < width && |data| == height * RowBytes(width)
    ensures y * RowBytes(width) + x / 4 < |data| && y * width + x < height * width
    ensures PixelIn(data, width, height, y * width + x) == Field(data[y * RowBytes(width) + x / 4], x % 4)
  {
    RowAndColumn(y, x, width);
    InRow(y, x, width, height);
    InRow(y, x / 4, RowBytes(width), height);
  }

  /** Unpacking undoes packing, for pages of any size. */
  lemma UnpackingUndoesPacking(pixels: seq<int>, data: Bytes, unpacked: seq<int>, width: nat, height: nat)
    requires IsPacked(data, pixels, width, height) && IsUnpacked(unpacked, data, width, height)
    ensures unpacked == pixels
  {
    forall p | 0 <= p < height * width
      ensures unpacked[p] == pixels[p]
    {
      var y, x := PixelsRow(p, width, height), p % width;
      assert IsPixel(unpacked, data, width, height, y, x);
      PixelForIs(pixels, width, height, y, x / 4, x % 4);
      assert IsPackedByte(data[y * RowBytes(width) + x / 4], pixels, width, height, y * RowBytes(width) + x / 4);
    }
  }

  function PixelsRow(p: nat, width: nat, height: nat): (y: nat)
    requires p < height * width
    ensures y < height && width > 0 && p == y * width + p % width
  {
    RowFits(p / width, width, height, p);
    p / width
  }

  /** The padding at the ends of the rows is blank. */
  ghost predicate PaddingIsBlank(data: Bytes, width: nat, height: nat)
    requires |data| == height * RowBytes(width)
  {
    forall b, k :: 0 <= b < |data| && 0 <= k < 4 && 4 * (b % RowBytes(width)) + k >= width ==> Field(data[b], k) == 0
  }

  /** Packing what was unpacked gives the same bytes exactly if there was nothing in the padding. */
  lemma PackingUndoesUnpacking(data: Bytes, pixels: seq<int>, packed: Bytes, width: nat, height: nat)
    requires IsUnpacked(pixels, data, width, height) && IsPacked(packed, pixels, width, height)
    ensures packed == data <==> PaddingIsBlank(data, width, height)
  {
    forall b, k | 0 <= b < |data| && 0 <= k < 4
      ensures 4 * (b % RowBytes(width)) + k >= width ==> Field(packed[b], k) == 0
      ensures 4 * (b % RowBytes(width)) + k < width ==> Field(packed[b], k) == Field(data[b], k)
    {
      PackedField(data, pixels, packed, width, height, b, k);
    }
    if PaddingIsBlank(data, width, height) {
      forall b | 0 <= b < |data|
        ensures packed[b] == data[b]
      {
        assert forall k :: 0 <= k < 4 ==> Field(packed[b], k) == Field(data[b], k);
        SameFields(packed[b], data[b]);
      }
    }
  }

  lemma PackedField(data: Bytes, pixels: seq<int>, packed: Bytes, width: nat, height: nat, b: nat, k: nat)
    requires IsUnpacked(pixels, data, width, height) && IsPacked(packed, pixels, width, height)
    requires b < |data| && k < 4
    ensures var x := 4 * (b % RowBytes(width)) + k;
            Field(packed[b], k) == if x < width then Field(data[b], k) else 0
  {
    var y, xb := PixelsRow(b, RowBytes(width), height), b % RowBytes(width);
    var x := 4 * xb + k;
    assert IsPackedByte(packed[b], pixels, width, height, b);
    PixelForIs(pixels, width, height, y, xb, k);
    if x < width { assert IsPixel(pixels, data, width, height, y, x); }
  }

  // ---- The second decoder: a list of pixels, then packing ----

  method DecodePixels(planes: Planes, width: nat, height: nat) returns (pixels: seq<int>)
    requires PlanesFit(planes, width, height)
    ensures |pixels| == height * width
    ensures forall p :: 0 <= p < |pixels| ==> PixelIsDecoded(pixels[p], planes, width, height, p)
  {
    hide PixelIsDecoded, LevelAt, PlaneByte, Mirror;
    pixels := [];
    for y := 0 to height
      invariant |pixels| == y * width <= height * width
      invariant forall p :: 0 <= p < |pixels| ==> PixelIsDecoded(pixels[p], planes, width, height, p)
    {
      RowWithin(y, width, height);
      for x := 0 to width
        invariant |pixels| == y * width + x
        invariant forall p :: 0 <= p < |pixels| ==> PixelIsDecoded(pixels[p], planes, width, height, p)
      {
        var ramX := width - 1 - x;
        DecodedIs(planes, width, height, y, x);
        pixels := pixels + [LevelAt(planes, 8 * PlaneByte(y, ramX, width) + ramX % 8)];
      }
    }
  }

  predicate PixelIsDecoded(pixel: int, planes: Planes, width: nat, height: nat, p: nat)
    requires PlanesFit(planes, width, height) && p < height * width
  {
    Sizes(width, height);
    MirrorTwice(width, height, p);
    pixel == LevelAt(planes, Mirror(width, p))
  }

  lemma DecodedIs(planes: Planes, width: nat, height: nat, y: nat, x: nat)
    requires PlanesFit(planes, width, height) && y < height && x < width
    ensures y * width + x < height * width
    ensures var ramX := width - 1 - x;
            var q := 8 * PlaneByte(y, ramX, width) + ramX % 8;
            && q < 8 * |planes.msb| && PixelIsDecoded(LevelAt(planes, q), planes, width, height, y * width + x)
  {
    InRow(y, x, width, height);
    Addresses(y, x, width);
    Sizes(width, height);
    MirrorTwice(width, height, y * width + x);
  }

  /** Both decoders give the same packed page. */
  lemma DecodersAgree(planes: Planes, joined: Bytes, pixels: seq<int>, packed: Bytes, width: nat, height: nat)
    requires JoinedUpTo(joined, planes, width, height, height * width)
    requires |pixels| == height * width
    requires forall p :: 0 <= p < |pixels| ==> PixelIsDecoded(pixels[p], planes, width, height, p)
    requires IsPacked(packed, pixels, width, height)
    ensures packed == joined
  {
    hide PixelIsJoined, PixelIsDecoded, IsPackedByte;
    Sizes(width, height);
    forall p | 0 <= p < 4 * |joined|
      ensures GrayAt(packed, p) == GrayAt(joined, p)
    {
      var n := height * width;
      assert PixelIsJoined(joined, planes, width, height, p, n);
      assert PixelIsDecoded(pixels[p], planes, width, height, p);
      LevelsAgree(planes, joined, pixels[p], width, height, p);
      PackedAt(packed, pixels, width, height, p);
    }
    SamePixels(packed, joined);
  }

  lemma LevelsAgree(planes: Planes, joined: Bytes, pixel: int, width: nat, height: nat, p: nat)
    requires PlanesFit(planes, width, height) && |joined| == height * (width / 4) && p < height * width
    requires PixelIsJoined(joined, planes, width, height, p, height * width)
    requires PixelIsDecoded(pixel, planes, width, height, p)
    ensures p < 4 * |joined| && GrayAt(joined, p) == pixel
  {
    hide GrayAt, LevelAt, Mirror;
    Sizes(width, height);
  }

  lemma PackedAt(packed: Bytes, pixels: seq<int>, width: nat, height: nat, p: nat)
    requires IsPacked(packed, pixels, width, height) && p < height * width && width % 8 == 0
    ensures p < 4 * |packed| && GrayAt(packed, p) == pixels[p]
  {
    hide Field, PixelFor, PackedByte;
    var y, x := PixelsRow(p, width, height), p % width;
    PixelForIs(pixels, width, height, y, x / 4, x % 4);
    var b := y * RowBytes(width) + x / 4;
    assert p == 4 * b + x % 4 by {
      Addresses(y, x, width);
      WholeRow(y, x, width);
    }
    assert IsPackedByte(packed[b], pixels, width, height, b);
  }

  lemma WholeRow(y: nat, x: nat, width: nat)
    requires width % 8 == 0
    ensures PackedByte(y, x, width) == y * RowBytes(width) + x / 4
  {
    WholeBytes(width);
  }

  lemma WholeBytes(width: nat)
    requires width % 8 == 0
    ensures RowBytes(width) == width / 4
  {
    EightTimes(width / 8);
    assert 8 * (width / 8) == width;
  }

  lemma {:induction false} EightTimes(w: nat)
    ensures (8 * w + 3) / 4 == 2 * w == 8 * w / 4
  {
    if w > 0 { EightTimes(w - 1); }
  }

  // ---- Upright pages on the sideways panel ----

  const LOGICAL_PIXELS: nat := 384000

  const PANEL_BYTES: nat := 96000

  /** Where the pixel of an upright page (480 by 800) lies on the panel (800 by 480). */
  function PhysicalIndex(logicalX: nat, logicalY: nat): nat
    requires logicalX < 480 && logicalY < 800
  {
    logicalX * 800 + (799 - logicalY)
  }

  /** The pixel of the upright page that lies at `p` on the panel. */
  function LogicalIndex(p: nat): (i: nat)
    requires p < LOGICAL_PIXELS
    ensures i < LOGICAL_PIXELS
  {
    (799 - p % 800) * 480 + p / 800
  }

  /** Turning is one to one. */
  lemma TurningIsOneToOne(logicalX: nat, logicalY: nat, p: nat)
    requires logicalX < 480 && logicalY < 800 && p < LOGICAL_PIXELS
    ensures PhysicalIndex(logicalX, logicalY) < LOGICAL_PIXELS
    ensures p == PhysicalIndex(logicalX, logicalY) <==> LogicalIndex(p) == logicalY * 480 + logicalX
  {
  }

  datatype ImageError = InvalidDimensions | Format

  /** The pixels turned so far are in place, the others blank. */
  ghost predicate TurnedUpTo(packed: Bytes, logical: Bytes, done: nat) {
    && |packed| == PANEL_BYTES && |logical| == LOGICAL_PIXELS
    && forall p :: 0 <= p < LOGICAL_PIXELS ==>
         GrayAt(packed, p) as int == if LogicalIndex(p) < done then logical[LogicalIndex(p)] else 0
  }

  lemma NothingTurned(packed: Bytes, logical: Bytes)
    requires |packed| == PANEL_BYTES && |logical| == LOGICAL_PIXELS
    requires forall i :: 0 <= i < PANEL_BYTES ==> packed[i] == 0
    ensures TurnedUpTo(packed, logical, 0)
  {
    forall p | 0 <= p < LOGICAL_PIXELS
      ensures GrayAt(packed, p) == 0
    {
      BlankByte(p % 4);
    }
  }

  lemma TurnNext(packed: Bytes, logical: Bytes, logicalX: nat, logicalY: nat)
    requires logicalX < 480 && logicalY < 800
    requires TurnedUpTo(packed, logical, logicalY * 480 + logicalX) && logical[logicalY * 480 + logicalX] <= 3
    ensures var done, q := logicalY * 480 + logicalX, PhysicalIndex(logicalX, logicalY);
            q < LOGICAL_PIXELS && TurnedUpTo(WithGrayAt(packed, q, logical[done]), logical, done + 1)
  {
    hide GrayAt, WithGrayAt, LogicalIndex, PhysicalIndex;
    var done, q := logicalY * 480 + logicalX, PhysicalIndex(logicalX, logicalY);
    TurningIsOneToOne(logicalX, logicalY, 0);
    TurningIsOneToOne(logicalX, logicalY, q);
    forall p | 0 <= p < LOGICAL_PIXELS
      ensures GrayAt(WithGrayAt(packed, q, logical[done]), p) ==
              if LogicalIndex(p) < done + 1 then logical[LogicalIndex(p)] else 0
    {
      TurningIsOneToOne(logicalX, logicalY, p);
      WithGrayAtIs(packed, q, logical[done], p);
    }
  }

  /** Packs an upright page of one pixel a byte for the panel; every two-bit place is written once. */
  method TurnPage(logical: Bytes, output: array<Byte>) returns (r: Result<(), ImageError>)
    modifies output
    ensures r.Ok? <==>
            && |logical| == LOGICAL_PIXELS && output.Length >= PANEL_BYTES
            && forall i :: 0 <= i < |logical| ==> logical[i] <= 3
    ensures r.Ok? ==> TurnedUpTo(output[..PANEL_BYTES], logical, LOGICAL_PIXELS)
    ensures r.Ok? ==> output[PANEL_BYTES..] == old(output[PANEL_BYTES..])
    ensures r.Err? ==> output[..] == old(output[..])
    ensures r.Err? ==> (r.error == Format <==> |logical| == LOGICAL_PIXELS && output.Length >= PANEL_BYTES)
  {
    hide TurnedUpTo, WithGrayAt, GrayAt;
    if |logical| != LOGICAL_PIXELS { return Err(ImageError.InvalidDimensions); }
    if output.Length < PANEL_BYTES { return Err(ImageError.InvalidDimensions); }
    if exists i :: 0 <= i < |logical| && logical[i] > 3 { return Err(Format); }
    forall i | 0 <= i < PANEL_BYTES { output[i] := 0; }
    NothingTurned(output[..PANEL_BYTES], logical);
    for logicalY := 0 to 800
      invariant TurnedUpTo(output[..PANEL_BYTES], logical, logicalY * 480)
      invariant output[PANEL_BYTES..] == old(output[PANEL_BYTES..])
    {
      for logicalX := 0 to 480
        invariant TurnedUpTo(output[..PANEL_BYTES], logical, logicalY * 480 + logicalX)
        invariant output[PANEL_BYTES..] == old(output[PANEL_BYTES..])
      {
        TurnNext(output[..PANEL_BYTES], logical, logicalX, logicalY);
        OrPixel(output, PhysicalIndex(logicalX, logicalY), logical[logicalY * 480 + logicalX]);
      }
    }
    return Ok(());
  }

  method OrPixel(output: array<Byte>, p: nat, value: Gray)
    requires p < LOGICAL_PIXELS && output.Length >= PANEL_BYTES
    modifies output
    ensures output[..PANEL_BYTES] == WithGrayAt(old(output[..PANEL_BYTES]), p, value)
    ensures output[PANEL_BYTES..] == old(output[PANEL_BYTES..])
  {
    output[p / 4] := WithField(output[p / 4], p % 4, value);
  }

  /** Turned, split, joined: each pixel of the upright page is at its place on the panel. */
  lemma PanelShowsThePage(logical: Bytes, packed: Bytes, planes: Planes, joined: Bytes, logicalX: nat, logicalY: nat)
    requires TurnedUpTo(packed, logical, LOGICAL_PIXELS) && logicalX < 480 && logicalY < 800
    requires Staged(packed, planes, 800, 480, LOGICAL_PIXELS) && JoinedUpTo(joined, planes, 800, 480, LOGICAL_PIXELS)
    ensures joined == packed && PhysicalIndex(logicalX, logicalY) < LOGICAL_PIXELS
    ensures GrayAt(joined, PhysicalIndex(logicalX, logicalY)) as int == logical[logicalY * 480 + logicalX]
  {
    JoiningUndoesSplitting(packed, planes, joined, 800, 480);
    TurningIsOneToOne(logicalX, logicalY, 0);
    TurningIsOneToOne(logicalX, logicalY, PhysicalIndex(logicalX, logicalY));
  }

  // ---- The second splitter: unpacked pixels, bit by bit ----

  /** Splits a packed page of the panel's size. */
  method SplitPixels(data: Bytes, width: nat, height: nat) returns (r: Result<Planes, ValueError>)
    ensures r.Ok? <==> width == 800 && height == 480 && |data| == PANEL_BYTES
    ensures r.Ok? ==> Staged(data, r.value, 800, 480, LOGICAL_PIXELS)
  {
    hide Staged, StagedUpTo, WithBitAt, PackedByte, PlaneByte, IsUnpacked;
    if width != 800 || height != 480 { return Err(WrongLength); }
    var unpacked := UnpackGray2(data, 800, 480);
    if unpacked.Err? { return Err(WrongLength); }
    var pixels := unpacked.value;
    var planes := Planes(seq(48000, _ => 0), seq(48000, _ => 0), seq(48000, _ => 255));
    NothingStaged(data, 800, 480, planes);
    for y := 0 to 480
      invariant Staged(data, planes, 800, 480, 800 * y)
    {
      for x := 0 to 800
        invariant Staged(data, planes, 800, 480, 800 * y + x)
      {
        var ramX := 799 - x;
        NextPixel(data, pixels, planes, y, x);
        var gray := pixels[y * 800 + x];
        var q := 8 * PlaneByte(y, ramX, 800) + ramX % 8;
        ghost var next := WithPixel(planes, q, gray);
        if gray == 1 || gray == 2 { planes := planes.(msb := WithBitAt(planes.msb, q, true)); }
        if gray == 1 { planes := planes.(lsb := WithBitAt(planes.lsb, q, true)); }
        if gray != 3 { planes := planes.(base := WithBitAt(planes.base, q, false)); }
        assert planes == next;
      }
    }
    return Ok(planes);
  }

  lemma NextPixel(data: Bytes, pixels: seq<int>, planes: Planes, y: nat, x: nat)
    requires y < 480 && x < 800 && IsUnpacked(pixels, data, 800, 480)
    requires Staged(data, planes, 800, 480, 800 * y + x)
    ensures |pixels| == 384000 && 0 <= pixels[y * 800 + x] < 4
    ensures var ramX := 799 - x;
            var q := 8 * PlaneByte(y, ramX, 800) + ramX % 8;
            && q < 8 * |planes.msb| && |planes.msb| == |planes.lsb| == |planes.base|
            && Staged(data, WithPixel(planes, q, pixels[y * 800 + x]), 800, 480, 800 * y + x + 1)
  {
    hide Staged, WithPixel;
    assert IsPixel(pixels, data, 800, 480, y, x);
    StageNext(data, planes, 800, 480, y, x);
  }
}
