/** Four-gray pages: packed two bits a pixel, split into three mirrored bit planes, and put together again. */
module GrayPlanes {
  import opened Common
  import opened Bits

  /** Pixel `k` of a byte, from the high end. */
  function Field(b: Byte, k: nat): Gray
    requires k < 4
  {
    Digit(b, 3 - k)
  }

  /** The byte with a pixel or-ed into its place. */
  function WithField(b: Byte, k: nat, v: Gray): (r: Byte)
    requires k < 4
  {
    Quads();
    DigitsStayBelow(b, 3 - k, v, 4);
    OrDigit(b, 3 - k, v)
  }

  lemma WithFieldIs(b: Byte, k: nat, v: Gray, j: nat)
    requires k < 4 && j < 4
    ensures Field(WithField(b, k, v), j) == if j == k then OrGray(Field(b, k), v) else Field(b, j)
  {
    OrDigitOrs(b, 3 - k, v, 3 - j);
  }

  lemma BlankByte(k: nat)
    requires k < 4
    ensures Field(0, k) == 0
  {
    NoDigits(3 - k);
  }

  /** Pixel `p` of packed bytes, four to a byte. */
  function GrayAt(packed: Bytes, p: nat): Gray
    requires p < 4 * |packed|
  {
    Field(packed[p / 4], p % 4)
  }

  /** Bit `q` of a plane, eight to a byte from the high end. */
  predicate BitAt(plane: Bytes, q: nat)
    requires q < 8 * |plane|
  {
    Bit(plane[q / 8], 7 - q % 8)
  }

  // ---- Changing one bit or pixel of a buffer ----

  function ByteWithBit(b: Byte, k: nat, on: bool): (r: Byte)
    requires k < 8
  {
    Powers();
    BitsStayBelow(b, k, 8);
    if on then SetBit(b, k) else ClearBit(b, k)
  }

  function WithBitAt(plane: Bytes, q: nat, on: bool): (r: Bytes)
    requires q < 8 * |plane|
    ensures |r| == |plane|
  {
    plane[q / 8 := ByteWithBit(plane[q / 8], 7 - q % 8, on)]
  }

  lemma WithBitAtIs(plane: Bytes, q: nat, on: bool, r: nat)
    requires q < 8 * |plane| && r < 8 * |plane|
    ensures BitAt(WithBitAt(plane, q, on), r) <==> if r == q then on else BitAt(plane, r)
  {
    var b := plane[q / 8];
    SetBitSets(b, 7 - q % 8, 7 - r % 8);
    ClearBitClears(b, 7 - q % 8, 7 - r % 8);
  }

  function WithGrayAt(packed: Bytes, p: nat, v: Gray): (r: Bytes)
    requires p < 4 * |packed|
    ensures |r| == |packed|
  {
    packed[p / 4 := WithField(packed[p / 4], p % 4, v)]
  }

  lemma WithGrayAtIs(packed: Bytes, p: nat, v: Gray, r: nat)
    requires p < 4 * |packed| && r < 4 * |packed|
    ensures GrayAt(WithGrayAt(packed, p, v), r) == if r == p then OrGray(GrayAt(packed, p), v) else GrayAt(packed, r)
  {
    hide Field, WithField;
    WithFieldIs(packed[p / 4], p % 4, v, r % 4);
  }

  lemma SameFields(x: Byte, y: Byte)
    requires forall k :: 0 <= k < 4 ==> Field(x, k) == Field(y, k)
    ensures x == y
  {
    forall i | 0 <= i < 4
      ensures Digit(x, i) == Digit(y, i)
    {
      assert Field(x, 3 - i) == Field(y, 3 - i);
    }
    Quads();
    SameDigits(x, y, 4);
  }

  lemma SamePixels(x: Bytes, y: Bytes)
    requires |x| == |y| && forall p :: 0 <= p < 4 * |x| ==> GrayAt(x, p) == GrayAt(y, p)
    ensures x == y
  {
    forall i | 0 <= i < |x|
      ensures x[i] == y[i]
    {
      forall k | 0 <= k < 4
        ensures Field(x[i], k) == Field(y[i], k)
      {
        assert GrayAt(x, 4 * i + k) == GrayAt(y, 4 * i + k);
      }
      SameFields(x[i], y[i]);
    }
  }

  // ---- Rows are mirrored in the planes ----

  lemma RowAndColumn(y: nat, x: nat, width: nat)
    requires x < width
    ensures (y * width + x) / width == y && (y * width + x) % width == x
  {
    var p := y * width + x;
    assert p == p / width * width + p % width;
    Between(p / width, y, width);
    Between(y, p / width, width);
  }

  lemma Between(a: nat, b: nat, width: nat)
    requires a * width < b * width + width
    ensures a <= b
  {
    Apart(a, b, width);
  }

  lemma {:induction false} Apart(a: nat, b: nat, width: nat)
    ensures a > b ==> a * width >= b * width + width
  {
    if a > b {
      assert a * width == (a - 1) * width + width;
      Apart(a - 1, b, width);
    }
  }

  /** Where pixel `p` goes: the same row, from the other end. */
  function Mirror(width: nat, p: nat): nat
    requires width > 0
  {
    p / width * width + (width - 1 - p % width)
  }

  lemma MirrorTwice(width: nat, height: nat, p: nat)
    requires width > 0 && p < height * width
    ensures Mirror(width, p) < height * width && Mirror(width, Mirror(width, p)) == p
  {
    var y, x := p / width, p % width;
    RowAndColumn(y, width - 1 - x, width);
    RowFits(y, width, height, p);
  }

  lemma RowFits(y: nat, width: nat, height: nat, p: nat)
    requires width > 0 && y == p / width && p < height * width
    ensures y < height && (y + 1) * width <= height * width
  {
    assert p == y * width + p % width;
    Apart(y + 1, height, width);
    Apart(height, y, width);
  }

  lemma MirrorOfRow(y: nat, x: nat, width: nat)
    requires x < width
    ensures Mirror(width, y * width + x) == y * width + (width - 1 - x)
  {
    RowAndColumn(y, x, width);
  }

  // ---- Staged planes ----

  /** The most significant plane marks the two middle grays, the least significant the darker one, the base white. */
  predicate StagedAs(gray: Gray, msb: bool, lsb: bool, base: bool) {
    (msb <==> gray == 1 || gray == 2) && (lsb <==> gray == 1) && (base <==> gray == 3)
  }

  /** The planes hold pixel `p`. */
  predicate Stages(packed: Bytes, msb: Bytes, lsb: Bytes, base: Bytes, width: nat, p: nat)
    requires width > 0 && p < 4 * |packed| && Mirror(width, p) < 8 * Min(|msb|, Min(|lsb|, |base|))
  {
    var q := Mirror(width, p);
    StagedAs(GrayAt(packed, p), BitAt(msb, q), BitAt(lsb, q), BitAt(base, q))
  }

  /** Nothing is in the planes at bit `q`. */
  predicate Cleared(msb: Bytes, lsb: Bytes, base: Bytes, q: nat)
    requires q < 8 * Min(|msb|, Min(|lsb|, |base|))
  {
    !BitAt(msb, q) && !BitAt(lsb, q) && BitAt(base, q)
  }

  /** The planes hold the first `done` pixels and nothing else. */
  ghost predicate StagedUpTo(
    packed: Bytes, msb: Bytes, lsb: Bytes, base: Bytes, width: nat, height: nat, done: nat)
  {
    && width > 0 && width % 8 == 0 && |packed| == height * (width / 4)
    && |msb| == |lsb| == |base| == height * (width / 8)
    && done <= height * width
    && forall p :: 0 <= p < height * width ==> PixelIsStaged(packed, msb, lsb, base, width, height, p, done)
  }

  predicate PixelIsStaged(
    packed: Bytes, msb: Bytes, lsb: Bytes, base: Bytes, width: nat, height: nat, p: nat, done: nat)
    requires width > 0 && width % 8 == 0 && |packed| == height * (width / 4) && p < height * width
    requires |msb| == |lsb| == |base| == height * (width / 8)
  {
    Sizes(width, height);
    MirrorTwice(width, height, p);
    if p < done then Stages(packed, msb, lsb, base, width, p) else Cleared(msb, lsb, base, Mirror(width, p))
  }

  lemma Sizes(width: nat, height: nat)
    requires width % 8 == 0
    ensures 4 * (height * (width / 4)) == height * width == 8 * (height * (width / 8))
  {
    var w := width / 8;
    assert width == 8 * w && width / 4 == 2 * w;
    assert height * (8 * w) == 8 * (height * w) && height * (2 * w) == 2 * (height * w);
  }

  datatype RenderError = InvalidDimensions | BufferTooSmall(required: nat, provided: nat)

  datatype Planes = Planes(msb: Bytes, lsb: Bytes, base: Bytes)

  /** The three planes with one pixel put at bit `q`. */
  function WithPixel(planes: Planes, q: nat, gray: Gray): (r: Planes)
    requires q < 8 * Min(|planes.msb|, Min(|planes.lsb|, |planes.base|))
    ensures |r.msb| == |planes.msb| && |r.lsb| == |planes.lsb| && |r.base| == |planes.base|
  {
    match gray
    case 0 => planes.(base := WithBitAt(planes.base, q, false))
    case 1 =>
      Planes(WithBitAt(planes.msb, q, true), WithBitAt(planes.lsb, q, true), WithBitAt(planes.base, q, false))
    case 2 => planes.(msb := WithBitAt(planes.msb, q, true), base := WithBitAt(planes.base, q, false))
    case 3 => planes
  }

  lemma WithPixelIs(planes: Planes, q: nat, gray: Gray, r: nat)
    requires q < 8 * Min(|planes.msb|, Min(|planes.lsb|, |planes.base|))
    requires r < 8 * Min(|planes.msb|, Min(|planes.lsb|, |planes.base|))
    requires Cleared(planes.msb, planes.lsb, planes.base, q)
    ensures var after := WithPixel(planes, q, gray);
            if r == q then StagedAs(gray, BitAt(after.msb, r), BitAt(after.lsb, r), BitAt(after.base, r))
            else
              (BitAt(after.msb, r) <==> BitAt(planes.msb, r)) && (BitAt(after.lsb, r) <==> BitAt(planes.lsb, r))
              && (BitAt(after.base, r) <==> BitAt(planes.base, r))
  {
    hide BitAt, WithBitAt;
    WithBitAtIs(planes.msb, q, true, r);
    WithBitAtIs(planes.lsb, q, true, r);
    WithBitAtIs(planes.base, q, false, r);
  }

  /** Staging the next pixel. */
  lemma NextIsStaged(packed: Bytes, planes: Planes, width: nat, height: nat, done: nat)
    requires done < height * width && StagedUpTo(packed, planes.msb, planes.lsb, planes.base, width, height, done)
    ensures done < 4 * |packed| && Mirror(width, done) < 8 * |planes.msb|
    ensures var after := WithPixel(planes, Mirror(width, done), GrayAt(packed, done));
            StagedUpTo(packed, after.msb, after.lsb, after.base, width, height, done + 1)
  {
    hide BitAt, WithBitAt, GrayAt, WithPixel, Mirror;
    Sizes(width, height);
    MirrorTwice(width, height, done);
    var q := Mirror(width, done);
    assert PixelIsStaged(packed, planes.msb, planes.lsb, planes.base, width, height, done, done);
    var after := WithPixel(planes, q, GrayAt(packed, done));
    var next := done + 1;
    forall p | 0 <= p < height * width
      ensures PixelIsStaged(packed, after.msb, after.lsb, after.base, width, height, p, next)
    {
      MirrorTwice(width, height, p);
      assert PixelIsStaged(packed, planes.msb, planes.lsb, planes.base, width, height, p, done);
      WithPixelIs(planes, q, GrayAt(packed, done), Mirror(width, p));
    }
  }

  lemma NothingIsStaged(packed: Bytes, width: nat, height: nat, planes: Planes)
    requires width > 0 && width % 8 == 0 && |packed| == height * (width / 4)
    requires |planes.msb| == |planes.lsb| == |planes.base| == height * (width / 8)
    requires forall i :: 0 <= i < |planes.msb| ==> planes.msb[i] == planes.lsb[i] == 0 && planes.base[i] == 255
    ensures StagedUpTo(packed, planes.msb, planes.lsb, planes.base, width, height, 0)
  {
    hide Mirror;
    Sizes(width, height);
    forall p | 0 <= p < height * width
      ensures PixelIsStaged(packed, planes.msb, planes.lsb, planes.base, width, height, p, 0)
    {
      MirrorTwice(width, height, p);
      var q := Mirror(width, p);
      NoBits(7 - q % 8);
      Powers();
      AllBits(8, 7 - q % 8);
    }
  }

  lemma {:induction false} AllBits(n: nat, k: nat)
    requires k < n
    ensures Bit(Power(n) - 1, k)
  {
    if k > 0 { AllBits(n - 1, k - 1); }
  }

  /** The packed byte that holds column `x` of a row. */
  function PackedByte(row: nat, x: nat, width: nat): nat {
    row * (width / 4) + x / 4
  }

  /** The byte of a plane that holds bit `ram_x` of a row. */
  function PlaneByte(row: nat, ramX: nat, width: nat): nat {
    row * (width / 8) + ramX / 8
  }

  lemma Addresses(row: nat, x: nat, width: nat)
    requires width % 8 == 0 && x < width
    ensures row * width + x == 4 * PackedByte(row, x, width) + x % 4
    ensures Mirror(width, row * width + x) == 8 * PlaneByte(row, width - 1 - x, width) + (width - 1 - x) % 8
  {
    MirrorOfRow(row, x, width);
    var w := width / 8;
    assert row * width == 8 * (row * w) by { assert width == 8 * w; }
    assert row * (width / 4) == 2 * (row * w) by { assert width / 4 == 2 * w; }
  }

  method PutBit(plane: array<Byte>, at: nat, bit: nat, on: bool, ghost n: nat)
    requires at < n <= plane.Length && bit < 8
    modifies plane
    ensures plane[..n] == WithBitAt(old(plane[..n]), 8 * at + bit, on) && plane[n..] == old(plane[n..])
  {
    plane[at] := ByteWithBit(plane[at], 7 - bit, on);
  }

  /** The first `n` bytes of three buffers. */
  ghost function Fronts(msb: array<Byte>, lsb: array<Byte>, base: array<Byte>, n: nat): Planes
    requires n <= Min(msb.Length, Min(lsb.Length, base.Length))
    reads msb, lsb, base
  {
    Planes(msb[..n], lsb[..n], base[..n])
  }

  /** The rest of three buffers. */
  ghost function Backs(msb: array<Byte>, lsb: array<Byte>, base: array<Byte>, n: nat): Planes
    requires n <= Min(msb.Length, Min(lsb.Length, base.Length))
    reads msb, lsb, base
  {
    Planes(msb[n..], lsb[n..], base[n..])
  }

  method PutPixel(gray: Gray, at: nat, bit: nat, msb: array<Byte>, lsb: array<Byte>, base: array<Byte>, ghost n: nat)
    requires msb != lsb && lsb != base && msb != base
    requires at < n <= Min(msb.Length, Min(lsb.Length, base.Length)) && bit < 8
    modifies msb, lsb, base
    ensures Fronts(msb, lsb, base, n) == WithPixel(old(Fronts(msb, lsb, base, n)), 8 * at + bit, gray)
    ensures Backs(msb, lsb, base, n) == old(Backs(msb, lsb, base, n))
  {
    hide WithBitAt;
    match gray {
      case 0 => PutBit(base, at, bit, false, n);
      case 1 =>
        PutBit(msb, at, bit, true, n);
        PutBit(lsb, at, bit, true, n);
        PutBit(base, at, bit, false, n);
      case 2 =>
        PutBit(msb, at, bit, true, n);
        PutBit(base, at, bit, false, n);
      case 3 =>
    }
  }

  ghost predicate Staged(packed: Bytes, planes: Planes, width: nat, height: nat, done: nat) {
    StagedUpTo(packed, planes.msb, planes.lsb, planes.base, width, height, done)
  }

  /** Splits a packed page into three planes, row by row, each row mirrored. */
  method SplitPage(packed: Bytes, width: nat, height: nat, msb: array<Byte>, lsb: array<Byte>, base: array<Byte>)
    returns (r: Result<(), RenderError>)
    requires msb != lsb && lsb != base && msb != base
    modifies msb, lsb, base
    ensures r.Ok? <==>
            && width > 0 && height > 0 && width % 8 == 0 && |packed| == height * (width / 4)
            && height * (width / 8) <= Min(msb.Length, Min(lsb.Length, base.Length))
    ensures r.Ok? ==>
              var n := height * (width / 8);
              && Staged(packed, Fronts(msb, lsb, base, n), width, height, height * width)
              && Backs(msb, lsb, base, n) == old(Backs(msb, lsb, base, n))
    ensures r.Err? ==> msb[..] == old(msb[..]) && lsb[..] == old(lsb[..]) && base[..] == old(base[..])
  {
    hide Staged, StagedUpTo;
    if width == 0 || height == 0 || width % 8 != 0 { return Err(InvalidDimensions); }
    var packedRow, planeRow := width / 4, width / 8;
    var required := height * planeRow;
    if |packed| != height * packedRow { return Err(InvalidDimensions); }
    if msb.Length < required { return Err(BufferTooSmall(required, msb.Length)); }
    if lsb.Length < required { return Err(BufferTooSmall(required, lsb.Length)); }
    if base.Length < required { return Err(BufferTooSmall(required, base.Length)); }
    ghost var backs := Backs(msb, lsb, base, required);
    Clear(msb, lsb, base, required);
    NothingStaged(packed, width, height, Fronts(msb, lsb, base, required));
    for row := 0 to height
      invariant Staged(packed, Fronts(msb, lsb, base, required), width, height, row * width)
      invariant Backs(msb, lsb, base, required) == backs
    {
      SplitRow(packed, width, height, row, msb, lsb, base, required);
    }
    return Ok(());
  }

  method Clear(msb: array<Byte>, lsb: array<Byte>, base: array<Byte>, n: nat)
    requires msb != lsb && lsb != base && msb != base
    requires n <= Min(msb.Length, Min(lsb.Length, base.Length))
    modifies msb, lsb, base
    ensures forall i :: 0 <= i < n ==> msb[i] == lsb[i] == 0 && base[i] == 255
    ensures Backs(msb, lsb, base, n) == old(Backs(msb, lsb, base, n))
  {
    forall i | 0 <= i < n { msb[i] := 0; }
    forall i | 0 <= i < n { lsb[i] := 0; }
    forall i | 0 <= i < n { base[i] := 255; }
  }

  lemma NothingStaged(packed: Bytes, width: nat, height: nat, planes: Planes)
    requires width > 0 && width % 8 == 0 && |packed| == height * (width / 4)
    requires |planes.msb| == |planes.lsb| == |planes.base| == height * (width / 8)
    requires forall i :: 0 <= i < |planes.msb| ==> planes.msb[i] == planes.lsb[i] == 0 && planes.base[i] == 255
    ensures Staged(packed, planes, width, height, 0 * width)
  {
    NothingIsStaged(packed, width, height, planes);
  }

  method SplitRow(
    packed: Bytes, width: nat, height: nat, row: nat, msb: array<Byte>, lsb: array<Byte>, base: array<Byte>, n: nat)
    requires msb != lsb && lsb != base && msb != base
    requires width % 8 == 0 && row < height && |packed| == height * (width / 4)
    requires n == height * (width / 8) <= Min(msb.Length, Min(lsb.Length, base.Length))
    requires Staged(packed, Fronts(msb, lsb, base, n), width, height, row * width)
    modifies msb, lsb, base
    ensures Staged(packed, Fronts(msb, lsb, base, n), width, height, (row + 1) * width)
    ensures Backs(msb, lsb, base, n) == old(Backs(msb, lsb, base, n))
  {
    hide Staged, StagedUpTo, Fronts, Backs, PackedByte, PlaneByte, WithPixel;
    ghost var backs := Backs(msb, lsb, base, n);
    for x := 0 to width
      invariant Staged(packed, Fronts(msb, lsb, base, n), width, height, row * width + x)
      invariant Backs(msb, lsb, base, n) == backs
    {
      var ramX := width - 1 - x;
      FrontSizes(msb, lsb, base, n);
      StageNext(packed, Fronts(msb, lsb, base, n), width, height, row, x);
      var gray := Field(packed[PackedByte(row, x, width)], x % 4);
      PutPixel(gray, PlaneByte(row, ramX, width), ramX % 8, msb, lsb, base, n);
    }
    assert (row + 1) * width == row * width + width;
  }

  lemma FrontSizes(msb: array<Byte>, lsb: array<Byte>, base: array<Byte>, n: nat)
    requires n <= Min(msb.Length, Min(lsb.Length, base.Length))
    ensures var planes := Fronts(msb, lsb, base, n); |planes.msb| == |planes.lsb| == |planes.base| == n
  {
  }

  lemma StageNext(packed: Bytes, planes: Planes, width: nat, height: nat, row: nat, x: nat)
    requires x < width && row < height && Staged(packed, planes, width, height, row * width + x)
    ensures var ramX := width - 1 - x;
            var at := PlaneByte(row, ramX, width);
            && PackedByte(row, x, width) < |packed| && at < |planes.msb| == |planes.lsb| == |planes.base|
            && Staged(packed, WithPixel(planes, 8 * at + ramX % 8, Field(packed[PackedByte(row, x, width)], x % 4)),
                      width, height, row * width + x + 1)
  {
    hide PackedByte, PlaneByte, WithPixel, Mirror, PixelIsStaged;
    var p := row * width + x;
    assert p < height * width by { Apart(height, row, width); }
    Addresses(row, x, width);
    NextIsStaged(packed, planes, width, height, p);
    var at := PackedByte(row, x, width);
    assert p / 4 == at && p % 4 == x % 4;
    assert GrayAt(packed, p) == Field(packed[at], x % 4);
  }
}
