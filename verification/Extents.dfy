/** Reading and writing a file that is scattered over extents of a block device. */
module Extents {
  import opened Common
  import opened BlockDevice
  import opened BlockStream

  const READ_BATCH_BLOCKS: nat := 8

  datatype Extent = Extent(offset: nat, size: nat)

  datatype StorageError = DeviceFailed | BadUploadOffset

  /** Length of the file part held by the first `k` extents. */
  function Start(extents: seq<Extent>, k: nat): nat
    requires k <= |extents|
  {
    if k == 0 then 0 else Start(extents, k - 1) + extents[k - 1].size
  }

  function FileLength(extents: seq<Extent>): nat {
    Start(extents, |extents|)
  }

  /** Where byte `p` of the file lies, relative to the file system's base. */
  function Locate(extents: seq<Extent>, k: nat, p: nat): nat
    requires k <= |extents| && p < Start(extents, k)
  {
    if Start(extents, k - 1) <= p then extents[k - 1].offset + (p - Start(extents, k - 1))
    else Locate(extents, k - 1, p)
  }

  predicate DisjointExtents(x: Extent, y: Extent) {
    x.offset + x.size <= y.offset || y.offset + y.size <= x.offset
  }

  predicate PairwiseDisjoint(extents: seq<Extent>) {
    forall i, j :: 0 <= i < j < |extents| ==> DisjointExtents(extents[i], extents[j])
  }

  predicate Within(extents: seq<Extent>, base: nat, limit: nat) {
    forall i :: 0 <= i < |extents| ==> base + extents[i].offset + extents[i].size <= limit
  }

  lemma StartMonotone(extents: seq<Extent>, j: nat, k: nat)
    requires j <= k <= |extents|
    ensures Start(extents, j) <= Start(extents, k)
  {
    if j < k { StartMonotone(extents, j, k - 1); }
  }

  lemma LocateInExtent(extents: seq<Extent>, j: nat, k: nat, p: nat)
    requires j < k <= |extents| && Start(extents, j) <= p < Start(extents, j + 1)
    ensures p < Start(extents, k)
    ensures Locate(extents, k, p) == extents[j].offset + (p - Start(extents, j))
  {
    StartMonotone(extents, j + 1, k);
    if j + 1 < k {
      StartMonotone(extents, j + 1, k - 1);
      LocateInExtent(extents, j, k - 1, p);
    }
  }

  /** The extent that holds byte `p`. */
  lemma ExtentOf(extents: seq<Extent>, k: nat, p: nat) returns (j: nat)
    requires k <= |extents| && p < Start(extents, k)
    ensures j < k && Start(extents, j) <= p < Start(extents, j + 1)
    ensures Locate(extents, k, p) == extents[j].offset + (p - Start(extents, j))
  {
    if Start(extents, k - 1) <= p { j := k - 1; } else { j := ExtentOf(extents, k - 1, p); }
  }

  lemma LocateBounded(extents: seq<Extent>, base: nat, limit: nat, p: nat)
    requires Within(extents, base, limit) && p < FileLength(extents)
    ensures base + Locate(extents, |extents|, p) < limit
  {
    var j := ExtentOf(extents, |extents|, p);
  }

  /** Distinct file bytes lie at distinct places. */
  lemma LocateInjective(extents: seq<Extent>, p: nat, q: nat)
    requires PairwiseDisjoint(extents) && p < FileLength(extents) && q < FileLength(extents) && p != q
    ensures Locate(extents, |extents|, p) != Locate(extents, |extents|, q)
  {
    var i := ExtentOf(extents, |extents|, p);
    var j := ExtentOf(extents, |extents|, q);
    if i < j {
      assert DisjointExtents(extents[i], extents[j]);
    } else if j < i {
      assert DisjointExtents(extents[j], extents[i]);
    }
  }

  /** The file as the extents hold it. */
  function FileBytes(data: Bytes, base: nat, extents: seq<Extent>): (file: Bytes)
    requires Within(extents, base, |data|)
    ensures |file| == FileLength(extents)
    ensures forall p {:trigger file[p]} :: 0 <= p < |file| ==>
                          && base + Locate(extents, |extents|, p) < |data|
                          && file[p] == data[base + Locate(extents, |extents|, p)]
  {
    BytesBounded(data, base, extents);
    seq(FileLength(extents), p requires 0 <= p < FileLength(extents)
      => (LocateBounded(extents, base, |data|, p); data[base + Locate(extents, |extents|, p)]))
  }

  lemma BytesBounded(data: Bytes, base: nat, extents: seq<Extent>)
    requires Within(extents, base, |data|)
    ensures forall p :: 0 <= p < FileLength(extents) ==> base + Locate(extents, |extents|, p) < |data|
  {
    forall p | 0 <= p < FileLength(extents)
      ensures base + Locate(extents, |extents|, p) < |data|
    {
      LocateBounded(extents, base, |data|, p);
    }
  }

  function BlockFloor(i: nat): nat {
    i / 512 * 512
  }

  /** Reads, patches and writes back each block the range touches. */
  method WriteAbsolute(device: Device, absolute: nat, data: Bytes) returns (error: Option<StorageError>)
    requires absolute + |data| <= |device.data| <= ADDRESSABLE && |device.data| % 512 == 0
    modifies device
    ensures |device.data| == old(|device.data|)
    ensures error.None? ==> device.data == Splice(old(device.data), absolute, data)
    ensures device.failures >= old(device.failures)
    ensures error == if device.failures == old(device.failures) then None else Some(DeviceFailed)
    ensures error.Some? ==>
              forall i :: 0 <= i < |device.data| && OutsideBlocks(absolute, |data|, i) ==>
                  device.data[i] == old(device.data)[i]
  {
    hide BlockFloor;
    var done := 0;
    ghost var before := device.data;
    while done < |data|
      invariant done <= |data| && |device.data| == |before|
      invariant forall i :: 0 <= i < |before| ==>
                              device.data[i] == if absolute <= i < absolute + done then data[i - absolute]
                                  else before[i]
      invariant device.failures == old(device.failures)
    {
      error := WriteBlock(device, absolute + done, data[done..]);
      if error.Some? {
        forall i | 0 <= i < |before| && OutsideBlocks(absolute, |data|, i)
          ensures device.data[i] == before[i]
        {
          NotInRange(absolute, |data|, i);
          assert BlockFloor(absolute + done) != BlockFloor(i);
        }
        return;
      }
      done := done + Min(|data| - done, 512 - (absolute + done) % 512);
    }
    return None;
  }

  /** Byte `i` lies in none of the blocks that a range touches. */
  ghost predicate OutsideBlocks(absolute: nat, len: nat, i: nat) {
    forall x :: absolute <= x < absolute + len ==> BlockFloor(x) != BlockFloor(i)
  }

  lemma NotInRange(absolute: nat, len: nat, i: nat)
    requires OutsideBlocks(absolute, len, i)
    ensures !(absolute <= i < absolute + len)
  {
    var floor := BlockFloor(i);
  }

  /** The part of a write that falls in the block of its first byte. */
  method WriteBlock(device: Device, absolute: nat, data: Bytes) returns (error: Option<StorageError>)
    requires |data| > 0
    requires absolute + |data| <= |device.data| <= ADDRESSABLE && |device.data| % 512 == 0
    modifies device
    ensures |device.data| == old(|device.data|)
    ensures var len := Min(|data|, 512 - absolute % 512);
            error.None? ==> device.data == Splice(old(device.data), absolute, data[..len])
    ensures device.failures >= old(device.failures)
    ensures error == if device.failures == old(device.failures) then None else Some(DeviceFailed)
    ensures error.Some? ==>
              forall i :: 0 <= i < |device.data| && BlockFloor(i) != BlockFloor(absolute) ==>
                            device.data[i] == old(device.data)[i]
  {
    var block, within := BlockNumber(absolute), absolute % 512;
    BlockParts(absolute, |device.data|);
    hide BlockNumber, BlockFloor;
    var scratch := device.Read(block, 1);
    if scratch.None? { return Some(DeviceFailed); }
    var len := Min(|data|, 512 - within);
    ghost var before := device.data;
    SpliceWithin(before, 512 * block, scratch.value, within, data[..len]);
    var ok := device.Write(block, Splice(scratch.value, within, data[..len]));
    if !ok {
      OtherBlocksKept(before, device.data, absolute);
      return Some(DeviceFailed);
    }
    return None;
  }

  lemma OtherBlocksKept(before: Bytes, now: Bytes, absolute: nat)
    requires |before| == |now| && absolute < ADDRESSABLE
    requires var block := BlockNumber(absolute);
             forall i :: 0 <= i < |now| && !(512 * block <= i < 512 * block + 512) ==> now[i] == before[i]
    ensures forall i :: 0 <= i < |now| && BlockFloor(i) != BlockFloor(absolute) ==> now[i] == before[i]
  {
    forall i | 0 <= i < |now| && BlockFloor(i) != BlockFloor(absolute)
      ensures now[i] == before[i]
    {
      SameBlock(absolute, i);
    }
  }

  lemma SameBlock(absolute: nat, i: nat)
    requires absolute < ADDRESSABLE
    ensures BlockFloor(i) == BlockFloor(absolute) <==>
            512 * BlockNumber(absolute) <= i < 512 * BlockNumber(absolute) + 512
  {
  }

  lemma BlockParts(absolute: nat, length: nat)
    requires absolute < length <= ADDRESSABLE && length % 512 == 0
    ensures BlockFloor(absolute) == 512 * BlockNumber(absolute) == absolute - absolute % 512
    ensures 512 * (BlockNumber(absolute) + 1) <= length
  {
  }

  /** Changing part of a copied stretch and putting it back changes that part. */
  lemma SpliceWithin(s: Bytes, at: nat, copy: Bytes, within: nat, data: Bytes)
    requires at + |copy| <= |s| && copy == s[at..at + |copy|] && within + |data| <= |copy|
    ensures Splice(s, at, Splice(copy, within, data)) == Splice(s, at + within, data)
  {
  }

  /** Reference write: the first `n` bytes of `data` are put in their places one by one. */
  ghost function Patched(before: Bytes, base: nat, extents: seq<Extent>, offset: nat, data: Bytes, n: nat): (now: Bytes)
    requires Within(extents, base, |before|) && n <= |data| && (n > 0 ==> offset + n <= FileLength(extents))
    ensures |now| == |before|
  {
    if n == 0 then before
    else
      LocateBounded(extents, base, |before|, offset + n - 1);
      Patched(before, base, extents, offset, data, n - 1)
      [base + Locate(extents, |extents|, offset + n - 1) := data[n - 1]]
  }

  lemma PatchedStep(before: Bytes, base: nat, extents: seq<Extent>, offset: nat, data: Bytes, n: nat)
    requires Within(extents, base, |before|) && 0 < n <= |data| && offset + n <= FileLength(extents)
    ensures base + Locate(extents, |extents|, offset + n - 1) < |before|
    ensures Patched(before, base, extents, offset, data, n)
         == Patched(before, base, extents, offset, data, n - 1)
            [base + Locate(extents, |extents|, offset + n - 1) := data[n - 1]]
  {
    LocateBounded(extents, base, |before|, offset + n - 1);
  }

  /** A run of bytes inside one extent is one contiguous splice. */
  lemma {:induction false} PatchedRun(before: Bytes, base: nat, extents: seq<Extent>, offset: nat, data: Bytes,
      done: nat, k: nat, n: nat)
    requires Within(extents, base, |before|) && k < |extents| && done + n <= |data|
    requires Start(extents, k) <= offset + done && offset + done + n <= Start(extents, k + 1) <= FileLength(extents)
    ensures var at := base + extents[k].offset + (offset + done - Start(extents, k));
            && at + n <= |before|
            && Patched(before, base, extents, offset, data, done + n)
            == Splice(Patched(before, base, extents, offset, data, done), at, data[done..done + n])
  {
    hide Patched, Locate, Splice;
    var at := base + extents[k].offset + (offset + done - Start(extents, k));
    StartStep(extents, k);
    var middle := Patched(before, base, extents, offset, data, done);
    if n == 0 {
      assert Splice(middle, at, data[done..done]) == middle;
    } else {
      PatchedRun(before, base, extents, offset, data, done, k, n - 1);
      LocateInExtent(extents, k, |extents|, offset + done + n - 1);
      PatchedStep(before, base, extents, offset, data, done + n);
      SpliceSnoc(middle, at, data[done..done + n - 1], data[done + n - 1]);
      assert data[done..done + n - 1] + [data[done + n - 1]] == data[done..done + n];
    }
  }

  /** Byte `i` of the device holds no file byte of the range. */
  ghost predicate OutsideImage(extents: seq<Extent>, base: nat, from: nat, to: nat, i: nat) {
    forall p :: from <= p < to && p < FileLength(extents) ==> i != base + Locate(extents, |extents|, p)
  }

  /** Byte `i` of the device lies in no block that holds a file byte of the range. */
  ghost predicate OutsideTouched(extents: seq<Extent>, base: nat, from: nat, to: nat, i: nat) {
    forall p :: from <= p < to && p < FileLength(extents) ==>
      BlockFloor(base + Locate(extents, |extents|, p)) != BlockFloor(i)
  }

  /** No block holds bytes of both files. */
  ghost predicate ShareNoBlock(base: nat, x: seq<Extent>, y: seq<Extent>) {
    forall q :: 0 <= q < FileLength(y) ==>
      OutsideTouched(x, base, 0, FileLength(x), base + Locate(y, |y|, q))
  }

  /** A write that keeps to the blocks of its range does not show in a file that has no block in common with it. */
  lemma TouchedElsewhere(before: Bytes, now: Bytes, base: nat, extents: seq<Extent>, other: seq<Extent>, offset: nat,
      len: nat)
    requires |before| == |now| && Within(other, base, |before|) && ShareNoBlock(base, extents, other)
    requires forall i :: 0 <= i < |before| && OutsideTouched(extents, base, offset, offset + len, i) ==>
             now[i] == before[i]
    ensures FileBytes(now, base, other) == FileBytes(before, base, other)
  {
    forall q | 0 <= q < FileLength(other)
      ensures FileBytes(now, base, other)[q] == FileBytes(before, base, other)[q]
    {
      LocateBounded(other, base, |before|, q);
      var i := base + Locate(other, |other|, q);
      assert OutsideTouched(extents, base, 0, FileLength(extents), i);
      assert OutsideTouched(extents, base, offset, offset + len, i);
    }
  }

  lemma TouchedIsImage(extents: seq<Extent>, base: nat, from: nat, to: nat, to': nat, i: nat)
    requires OutsideTouched(extents, base, from, to, i) && to' <= to
    ensures OutsideImage(extents, base, from, to', i)
  {
  }

  /** The blocks of a run inside one extent are blocks of the file range. */
  lemma RunTouches(extents: seq<Extent>, base: nat, k: nat, local: nat, n: nat, from: nat, to: nat, i: nat)
    requires k < |extents| && local + n <= extents[k].size && from <= Start(extents, k) + local
    requires Start(extents, k) + local + n <= to && OutsideTouched(extents, base, from, to, i)
    ensures OutsideBlocks(base + extents[k].offset + local, n, i)
  {
    hide BlockFloor, Locate, Start;
    forall x | base + extents[k].offset + local <= x < base + extents[k].offset + local + n
      ensures BlockFloor(x) != BlockFloor(i)
    {
      var q := x - base - extents[k].offset;
      StartStep(extents, k);
      LocateInExtent(extents, k, |extents|, Start(extents, k) + q);
    }
  }

  lemma StartStep(extents: seq<Extent>, k: nat)
    requires k < |extents|
    ensures Start(extents, k + 1) == Start(extents, k) + extents[k].size
    ensures FileLength(extents) == Start(extents, |extents|)
  {
  }

  /** The reference write changes no device byte outside the range's image. */
  lemma PatchedOutside(before: Bytes, base: nat, extents: seq<Extent>, offset: nat, data: Bytes, n: nat, i: nat)
    requires Within(extents, base, |before|) && n <= |data| && (n > 0 ==> offset + n <= FileLength(extents))
    requires i < |before| && OutsideImage(extents, base, offset, offset + n, i)
    ensures Patched(before, base, extents, offset, data, n)[i] == before[i]
  {
    if n > 0 {
      assert i != base + Locate(extents, |extents|, offset + n - 1);
      assert OutsideImage(extents, base, offset, offset + n - 1, i);
      PatchedOutside(before, base, extents, offset, data, n - 1, i);
    }
  }

  lemma PokeIsUpdate(data: Bytes, base: nat, extents: seq<Extent>, p: nat, b: Byte)
    requires Within(extents, base, |data|) && PairwiseDisjoint(extents) && p < FileLength(extents)
    ensures base + Locate(extents, |extents|, p) < |data|
    ensures FileBytes(data[base + Locate(extents, |extents|, p) := b], base, extents)
         == FileBytes(data, base, extents)[p := b]
  {
    LocateBounded(extents, base, |data|, p);
    var now := data[base + Locate(extents, |extents|, p) := b];
    forall q | 0 <= q < FileLength(extents) && q != p
      ensures FileBytes(now, base, extents)[q] == FileBytes(data, base, extents)[q]
    {
      LocateInjective(extents, p, q);
    }
  }

  /** The reference write is a splice of the file, as every later read sees it. */
  lemma {:induction false} PatchedIsSplice(before: Bytes, base: nat, extents: seq<Extent>, offset: nat, data: Bytes,
      n: nat)
    requires Within(extents, base, |before|) && PairwiseDisjoint(extents)
    requires n <= |data| && offset + n <= FileLength(extents)
    ensures FileBytes(Patched(before, base, extents, offset, data, n), base, extents)
         == Splice(FileBytes(before, base, extents), offset, data[..n])
  {
    var file := FileBytes(before, base, extents);
    if n == 0 {
      assert Splice(file, offset, data[..0]) == file;
    } else {
      PatchedIsSplice(before, base, extents, offset, data, n - 1);
      PokeIsUpdate(Patched(before, base, extents, offset, data, n - 1), base, extents, offset + n - 1, data[n - 1]);
      SpliceSnoc(file, offset, data[..n - 1], data[n - 1]);
      assert data[..n - 1] + [data[n - 1]] == data[..n];
    }
  }

  /** A write to one file does not show in another whose extents are disjoint from it. */
  lemma {:induction false} OtherFileUnchanged(before: Bytes, base: nat, extents: seq<Extent>, other: seq<Extent>,
                                              offset: nat, data: Bytes, n: nat)
    requires Within(extents, base, |before|) && Within(other, base, |before|)
    requires n <= |data| && (n > 0 ==> offset + n <= FileLength(extents))
    requires forall i, j :: 0 <= i < |extents| && 0 <= j < |other| ==> DisjointExtents(extents[i], other[j])
    ensures FileBytes(Patched(before, base, extents, offset, data, n), base, other) == FileBytes(before, base, other)
  {
    if n > 0 {
      OtherFileUnchanged(before, base, extents, other, offset, data, n - 1);
      var i := ExtentOf(extents, |extents|, offset + n - 1);
      forall p | 0 <= p < FileLength(other)
        ensures Locate(other, |other|, p) != Locate(extents, |extents|, offset + n - 1)
      {
        var j := ExtentOf(other, |other|, p);
        assert DisjointExtents(extents[i], other[j]);
      }
    }
  }

  /**
   Writes `data` at `offset` of the file. Success means the whole range lies in the file; whatever part of it
   does is then written as the reference write would.
   */
  method WriteExtents(device: Device, base: nat, extents: seq<Extent>, offset: nat, data: Bytes)
    returns (error: Option<StorageError>)
    requires |device.data| <= ADDRESSABLE && |device.data| % 512 == 0
    requires Within(extents, base, |device.data|)
    modifies device
    ensures |device.data| == old(|device.data|)
    ensures error.None? ==> InFile(extents, offset, |data|)
    ensures device.failures >= old(device.failures)
    ensures error == if device.failures != old(device.failures) then Some(DeviceFailed)
                     else if InFile(extents, offset, |data|) then None else Some(BadUploadOffset)
    ensures error != Some(DeviceFailed) ==>
              device.data == Patched(old(device.data), base, extents, offset, data, Reaching(extents, offset, |data|))
    ensures error == Some(DeviceFailed) ==>
              forall i :: 0 <= i < |device.data| && OutsideTouched(extents, base, offset, offset + |data|, i) ==>
                            device.data[i] == old(device.data)[i]
  {
    hide Patched;
    var done: nat, fileCursor: nat := 0, 0;
    ghost var before := device.data;
    NothingPatched(before, base, extents, offset, data);
    for k := 0 to |extents|
      invariant |device.data| == |before|
      invariant fileCursor == Start(extents, k) <= offset + done
      invariant done > 0 ==> offset + done == fileCursor <= FileLength(extents) && done < |data|
      invariant device.data == Patched(before, base, extents, offset, data, done)
      invariant device.failures == old(device.failures)
    {
      var extentEnd := fileCursor + extents[k].size;
      StartMonotone(extents, k + 1, |extents|);
      if extentEnd <= offset + done {
        fileCursor := extentEnd;
        continue;
      }
      var local := offset + done - fileCursor;
      var writable := Min(|data| - done, extents[k].size - local);
      PatchedRun(before, base, extents, offset, data, done, k, writable);
      error := WriteAbsolute(device, base + extents[k].offset + local, data[done..done + writable]);
      if error.Some? {
        forall i | 0 <= i < |before| && OutsideTouched(extents, base, offset, offset + |data|, i)
          ensures device.data[i] == before[i]
        {
          TouchedIsImage(extents, base, offset, offset + |data|, offset + done, i);
          PatchedOutside(before, base, extents, offset, data, done, i);
          RunTouches(extents, base, k, local, writable, offset, offset + |data|, i);
        }
        return;
      }
      done := done + writable;
      if done == |data| { return None; }
      fileCursor := extentEnd;
    }
    return Some(BadUploadOffset);
  }

  lemma NothingPatched(before: Bytes, base: nat, extents: seq<Extent>, offset: nat, data: Bytes)
    requires Within(extents, base, |before|)
    ensures Patched(before, base, extents, offset, data, 0) == before
  {
  }

  predicate InFile(extents: seq<Extent>, offset: nat, len: nat) {
    offset < FileLength(extents) && offset + len <= FileLength(extents)
  }

  /** How much of a transfer lies in the file. */
  function Reaching(extents: seq<Extent>, offset: nat, len: nat): (n: nat)
    ensures n <= len
  {
    if offset < FileLength(extents) then Min(len, FileLength(extents) - offset) else 0
  }

  /** Up to eight whole blocks in one transfer, or the wanted part of one block. */
  method ReadBatch(device: Device, absolute: nat, wanted: nat) returns (piece: Bytes, error: Option<StorageError>)
    requires absolute + wanted <= |device.data| <= ADDRESSABLE && wanted > 0
    requires |device.data| % 512 == 0
    modifies device`failures
    ensures error.None? ==> 0 < |piece| <= wanted && piece == device.data[absolute..absolute + |piece|]
    ensures device.failures >= old(device.failures)
    ensures error == if device.failures == old(device.failures) then None else Some(DeviceFailed)
  {
    var block, within := BlockNumber(absolute), absolute % 512;
    var fullBlocks := if within == 0 then Min(wanted / 512, READ_BATCH_BLOCKS) else 0;
    if fullBlocks > 0 {
      var batch := device.Read(block, fullBlocks);
      if batch.None? { return [], Some(DeviceFailed); }
      return batch.value, None;
    }
    var scratch := device.Read(block, 1);
    if scratch.None? { return [], Some(DeviceFailed); }
    var count := Min(wanted, 512 - within);
    SliceOfSlice(device.data, 512 * block, 512 * (block + 1), within, within + count);
    piece := scratch.value[within..within + count];
    return piece, None;
  }

  method ReadAbsolute(device: Device, absolute: nat, len: nat) returns (out: Bytes, error: Option<StorageError>)
    requires absolute + len <= |device.data| <= ADDRESSABLE
    requires |device.data| % 512 == 0
    modifies device`failures
    ensures error.None? ==> out == device.data[absolute..absolute + len]
    ensures device.failures >= old(device.failures)
    ensures error == if device.failures == old(device.failures) then None else Some(DeviceFailed)
  {
    out := [];
    while |out| < len
      invariant |out| <= len && out == device.data[absolute..absolute + |out|]
      invariant device.failures == old(device.failures)
      decreases len - |out|
    {
      var piece;
      piece, error := ReadBatch(device, absolute + |out|, len - |out|);
      if error.Some? { return; }
      out := out + piece;
    }
    return out, None;
  }

  /** The part of a read, of which `done` bytes have been delivered, that falls in extent `k`. */
  method ReadInExtent(device: Device, base: nat, extents: seq<Extent>, k: nat, from: nat, wanted: nat)
    returns (piece: Bytes, error: Option<StorageError>)
    requires |device.data| <= ADDRESSABLE && Within(extents, base, |device.data|)
    requires k < |extents| && Start(extents, k) <= from < Start(extents, k + 1) <= FileLength(extents)
    requires |device.data| % 512 == 0
    modifies device`failures
    ensures device.failures >= old(device.failures)
    ensures error == if device.failures == old(device.failures) then None else Some(DeviceFailed)
    ensures error.None? ==>
              && |piece| == Min(wanted, Start(extents, k + 1) - from)
              && piece == FileBytes(device.data, base, extents)[from..from + |piece|]
  {
    var local := from - Start(extents, k);
    var readable := Min(wanted, extents[k].size - local);
    piece, error := ReadAbsolute(device, base + extents[k].offset + local, readable);
    RunIsFileSlice(device.data, base, extents, k, from, readable);
  }

  /** Reads a range of the file: success means the range lies in it, and delivers exactly its bytes. */
  method ReadExtents(device: Device, base: nat, extents: seq<Extent>, offset: nat, len: nat)
    returns (out: Bytes, error: Option<StorageError>)
    requires |device.data| <= ADDRESSABLE && Within(extents, base, |device.data|)
    requires |device.data| % 512 == 0
    modifies device`failures
    ensures error.None? ==>
              && InFile(extents, offset, len)
              && out == FileBytes(device.data, base, extents)[offset..offset + len]
    ensures device.failures >= old(device.failures)
    ensures error == if device.failures != old(device.failures) then Some(DeviceFailed)
                     else if InFile(extents, offset, len) then None else Some(BadUploadOffset)
  {
    out := [];
    var at, fileCursor: nat := offset, 0;
    ghost var file := FileBytes(device.data, base, extents);
    for k := 0 to |extents|
      invariant fileCursor == Start(extents, k) <= at == offset + |out|
      invariant at > offset ==> |out| < len && at == fileCursor
      invariant Delivered(file, offset, out)
      invariant device.failures == old(device.failures)
    {
      var extentEnd := fileCursor + extents[k].size;
      StartMonotone(extents, k + 1, |extents|);
      if extentEnd <= at {
        fileCursor := extentEnd;
        continue;
      }
      var piece;
      piece, error := ReadInExtent(device, base, extents, k, at, len - |out|);
      if error.Some? { return; }
      DeliveredMore(file, offset, out, piece);
      out, at := out + piece, at + |piece|;
      if |out| == len { return out, None; }
      fileCursor := extentEnd;
    }
    return out, Some(BadUploadOffset);
  }

  ghost predicate Delivered(file: Bytes, offset: nat, out: Bytes) {
    out == [] || (offset + |out| <= |file| && out == file[offset..offset + |out|])
  }

  lemma DeliveredMore(file: Bytes, offset: nat, out: Bytes, piece: Bytes)
    requires Delivered(file, offset, out)
    requires offset + |out| + |piece| <= |file| && piece == file[offset + |out|..offset + |out| + |piece|]
    ensures Delivered(file, offset, out + piece)
  {
    var middle := offset + |out|;
    if out != [] {
      assert file[offset..middle] + file[middle..middle + |piece|] == file[offset..middle + |piece|];
    } else {
      assert out + piece == piece;
    }
  }

  /** A run inside one extent is a slice of the file. */
  lemma RunIsFileSlice(data: Bytes, base: nat, extents: seq<Extent>, k: nat, from: nat, len: nat)
    requires Within(extents, base, |data|) && k < |extents|
    requires Start(extents, k) <= from && from + len <= Start(extents, k + 1) <= FileLength(extents)
    ensures var at := base + extents[k].offset + (from - Start(extents, k));
            at + len <= |data| && data[at..at + len] == FileBytes(data, base, extents)[from..from + len]
  {
    var file, at := FileBytes(data, base, extents), base + extents[k].offset + (from - Start(extents, k));
    var run, slice := data[at..at + len], file[from..from + len];
    forall j | 0 <= j < len
      ensures run[j] == slice[j]
    {
      LocateInExtent(extents, k, |extents|, from + j);
      assert file[from + j] == data[at + j];
    }
    assert run == slice;
  }
}
