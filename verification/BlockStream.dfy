/** The seekable byte stream over a block device: a two-slot write-back cache beside direct block transfers. */
module BlockStream {
  import opened Common
  import opened BlockDevice

  const SLOTS: nat := 2

  datatype StreamError = DeviceError | InvalidSeek | NoScratch

  datatype SeekFrom = Start(offset: nat) | Current(delta: int) | End(distance: int)

  // ---- The flat disk that the cache and the device represent together ----

  predicate Covers(index: Option<nat>, i: nat) {
    index.Some? && 512 * index.value <= i < 512 * index.value + 512
  }

  function ByteAt(data: Bytes, indices: seq<Option<nat>>, blocks: seq<Bytes>, i: nat): Byte
    requires |indices| == SLOTS && |blocks| == SLOTS && |blocks[0]| == 512 && |blocks[1]| == 512
    requires i < |data|
  {
    if Covers(indices[0], i) then blocks[0][i - 512 * indices[0].value]
    else if Covers(indices[1], i) then blocks[1][i - 512 * indices[1].value]
    else data[i]
  }

  function Overlaid(data: Bytes, indices: seq<Option<nat>>, blocks: seq<Bytes>): (view: Bytes)
    requires |indices| == SLOTS && |blocks| == SLOTS && |blocks[0]| == 512 && |blocks[1]| == 512
    ensures |view| == |data|
    ensures forall i :: 0 <= i < |data| ==> view[i] == ByteAt(data, indices, blocks, i)
  {
    seq(|data|, i requires 0 <= i < |data| => ByteAt(data, indices, blocks, i))
  }

  predicate SlotAgrees(data: Bytes, index: Option<nat>, block: Bytes, dirty: bool) {
    && |block| == 512
    && (dirty ==> index.Some?)
    && (index.Some? ==> 512 * index.value + 512 <= |data|)
    && (index.Some? && !dirty ==> block == data[512 * index.value..512 * index.value + 512])
  }

  predicate Overlaps(index: Option<nat>, start: nat, count: nat) {
    index.Some? && start <= index.value < start + count
  }

  /** A clean slot can be given another block, as the device holds it, without changing the disk. */
  lemma RefillKeepsView(data: Bytes, indices: seq<Option<nat>>, blocks: seq<Bytes>, dirty: seq<bool>,
                        slot: nat, block: nat)
    requires |indices| == SLOTS && |blocks| == SLOTS && |dirty| == SLOTS && slot < SLOTS
    requires SlotAgrees(data, indices[0], blocks[0], dirty[0]) && SlotAgrees(data, indices[1], blocks[1], dirty[1])
    requires !dirty[slot] && Some(block) != indices[1 - slot] && 512 * block + 512 <= |data|
    requires indices[0].Some? ==> indices[0] != indices[1]
    ensures var fetched := data[512 * block..512 * block + 512];
            Overlaid(data, indices[slot := Some(block)], blocks[slot := fetched]) == Overlaid(data, indices, blocks)
  {
    var indices', blocks' := indices[slot := Some(block)], blocks[slot := data[512 * block..512 * block + 512]];
    forall i | 0 <= i < |data|
      ensures ByteAt(data, indices', blocks', i) == ByteAt(data, indices, blocks, i)
    {
      assert !(Covers(indices[0], i) && Covers(indices[1], i));
      assert !(Covers(indices'[0], i) && Covers(indices'[1], i));
    }
  }

  lemma DroppingKeepsView(data: Bytes, indices: seq<Option<nat>>, blocks: seq<Bytes>, dirty: seq<bool>, slot: nat)
    requires |indices| == SLOTS && |blocks| == SLOTS && |dirty| == SLOTS && slot < SLOTS
    requires SlotAgrees(data, indices[0], blocks[0], dirty[0]) && SlotAgrees(data, indices[1], blocks[1], dirty[1])
    requires !dirty[slot]
    requires indices[0].Some? ==> indices[0] != indices[1]
    ensures Overlaid(data, indices[slot := None], blocks) == Overlaid(data, indices, blocks)
  {
    forall i | 0 <= i < |data|
      ensures ByteAt(data, indices[slot := None], blocks, i) == ByteAt(data, indices, blocks, i)
    {
      assert !(Covers(indices[0], i) && Covers(indices[1], i));
    }
  }

  /** A change of the device inside the block of a slot does not show. */
  lemma WriteBackKeepsView(now: Bytes, before: Bytes, indices: seq<Option<nat>>, blocks: seq<Bytes>, slot: nat)
    requires |now| == |before| && slot < SLOTS
    requires |indices| == SLOTS && |blocks| == SLOTS && |blocks[0]| == 512 && |blocks[1]| == 512
    requires forall i :: 0 <= i < |now| && !Covers(indices[slot], i) ==> now[i] == before[i]
    ensures Overlaid(now, indices, blocks) == Overlaid(before, indices, blocks)
  {
    forall i | 0 <= i < |now|
      ensures ByteAt(now, indices, blocks, i) == ByteAt(before, indices, blocks, i)
    {
    }
  }

  lemma OtherSlotAgrees(now: Bytes, before: Bytes, written: Option<nat>, index: Option<nat>, block: Bytes, dirty: bool)
    requires |now| == |before| && written.Some? && written != index
    requires forall i :: 0 <= i < |now| && !Covers(written, i) ==> now[i] == before[i]
    requires SlotAgrees(before, index, block, dirty)
    ensures SlotAgrees(now, index, block, dirty)
  {
    if index.Some? && !dirty {
      forall i | 512 * index.value <= i < 512 * index.value + 512
        ensures now[i] == before[i]
      {
        assert !Covers(written, i);
      }
    }
  }

  /** The shape of the two slots over a disk of the given content. */
  ghost predicate Fits(data: Bytes, indices: seq<Option<nat>>, blocks: seq<Bytes>) {
    && |indices| == SLOTS && |blocks| == SLOTS && |blocks[0]| == 512 && |blocks[1]| == 512
    && (indices[0].Some? ==> indices[0] != indices[1] && 512 * indices[0].value + 512 <= |data|)
    && (indices[1].Some? ==> 512 * indices[1].value + 512 <= |data|)
  }

  lemma SlotShowsView(data: Bytes, indices: seq<Option<nat>>, blocks: seq<Bytes>, slot: nat)
    requires Fits(data, indices, blocks) && slot < SLOTS && indices[slot].Some?
    ensures var at := 512 * indices[slot].value;
            blocks[slot] == Overlaid(data, indices, blocks)[at..at + 512]
  {
    var at := 512 * indices[slot].value;
    forall i | 0 <= i < 512
      ensures blocks[slot][i] == ByteAt(data, indices, blocks, at + i)
    {
      assert Covers(indices[slot], at + i);
    }
  }

  /** Blocks that no slot holds are read from the device as the view shows them. */
  lemma UncachedShowsView(data: Bytes, indices: seq<Option<nat>>, blocks: seq<Bytes>, start: nat, count: nat)
    requires Fits(data, indices, blocks) && 512 * (start + count) <= |data|
    requires !Overlaps(indices[0], start, count) && !Overlaps(indices[1], start, count)
    ensures data[512 * start..512 * (start + count)]
         == Overlaid(data, indices, blocks)[512 * start..512 * (start + count)]
  {
    forall i | 512 * start <= i < 512 * (start + count)
      ensures data[i] == ByteAt(data, indices, blocks, i)
    {
    }
  }

  lemma DirectWriteUpdatesView(data: Bytes, indices: seq<Option<nat>>, blocks: seq<Bytes>, start: nat, payload: Bytes)
    requires Fits(data, indices, blocks) && 512 * start + |payload| <= |data| && |payload| % 512 == 0
    requires !Overlaps(indices[0], start, |payload| / 512) && !Overlaps(indices[1], start, |payload| / 512)
    ensures Overlaid(Splice(data, 512 * start, payload), indices, blocks)
         == Splice(Overlaid(data, indices, blocks), 512 * start, payload)
  {
  }

  lemma CachedWriteUpdatesView(data: Bytes, indices: seq<Option<nat>>, blocks: seq<Bytes>,
                               slot: nat, within: nat, payload: Bytes)
    requires Fits(data, indices, blocks) && slot < SLOTS && indices[slot].Some? && within + |payload| <= 512
    ensures Overlaid(data, indices, blocks[slot := Splice(blocks[slot], within, payload)])
         == Splice(Overlaid(data, indices, blocks), 512 * indices[slot].value + within, payload)
  {
    var blocks' := blocks[slot := Splice(blocks[slot], within, payload)];
    forall i | 0 <= i < |data|
      ensures ByteAt(data, indices, blocks', i)
           == Splice(Overlaid(data, indices, blocks), 512 * indices[slot].value + within, payload)[i]
    {
      assert !(Covers(indices[0], i) && Covers(indices[1], i));
    }
  }

  /** The 32-bit number of the block holding a byte; within the addressable range it is not truncated. */
  function BlockNumber(absolute: nat): (block: nat)
    ensures absolute < ADDRESSABLE ==> 512 * block <= absolute < 512 * block + 512
    ensures absolute < ADDRESSABLE ==> 512 * block + absolute % 512 == absolute
  {
    (absolute / 512) % 0x1_0000_0000
  }

  predicate UnchangedOutside(now: Bytes, before: Bytes, start: nat, len: nat)
    requires |now| == |before|
  {
    forall i :: 0 <= i < |now| && !(start <= i < start + len) ==> now[i] == before[i]
  }

  lemma UntouchedSlotAgrees(now: Bytes, before: Bytes, start: nat, payload: Bytes,
                            index: Option<nat>, block: Bytes, dirty: bool)
    requires |now| == |before| && |payload| % 512 == 0
    requires UnchangedOutside(now, before, 512 * start, |payload|)
    requires !Overlaps(index, start, |payload| / 512)
    requires SlotAgrees(before, index, block, dirty)
    ensures SlotAgrees(now, index, block, dirty)
  {
    if index.Some? && !dirty {
      forall i | 512 * index.value <= i < 512 * index.value + 512
        ensures now[i] == before[i]
      {
      }
    }
  }

  lemma FailedWriteStaysInside(now: Bytes, before: Bytes, indices: seq<Option<nat>>, blocks: seq<Bytes>,
                               start: nat, len: nat)
    requires |now| == |before| && UnchangedOutside(now, before, start, len)
    requires |indices| == SLOTS && |blocks| == SLOTS && |blocks[0]| == 512 && |blocks[1]| == 512
    ensures UnchangedOutside(Overlaid(now, indices, blocks), Overlaid(before, indices, blocks), start, len)
  {
  }

  function SeekResult(position: nat, target: SeekFrom): Result<nat, StreamError> {
    match target
    case Start(offset) => Ok(offset)
    case Current(delta) =>
      if 0 <= position + delta < U64_LIMIT then Ok(position + delta) else Err(InvalidSeek)
    case End(_) => Err(InvalidSeek)
  }

  class BlockDeviceStream {
    const device: Device
    const baseOffset: nat
    const scratchBlocks: nat
    var position: nat
    var cachedBlocks: seq<Bytes>
    var cachedIndices: seq<Option<nat>>
    var cachedDirty: seq<bool>
    var nextVictim: nat

    /** Slots never hold the same block twice, clean slots equal the device, dirty slots have a block. */
    ghost predicate Valid()
      reads this, device`data
    {
      && |cachedBlocks| == SLOTS && |cachedIndices| == SLOTS && |cachedDirty| == SLOTS
      && nextVictim < SLOTS
      && |device.data| % 512 == 0
      && SlotAgrees(device.data, cachedIndices[0], cachedBlocks[0], cachedDirty[0])
      && SlotAgrees(device.data, cachedIndices[1], cachedBlocks[1], cachedDirty[1])
      && (cachedIndices[0].Some? ==> cachedIndices[0] != cachedIndices[1])
    }

    /** The disk as the file system sees it. */
    ghost function View(): (view: Bytes)
      requires Valid()
      reads this, device`data
    {
      Overlaid(device.data, cachedIndices, cachedBlocks)
    }

    constructor (device: Device, baseOffset: nat, scratchBlocks: nat)
      requires |device.data| % 512 == 0
      ensures Valid() && View() == device.data && position == 0
      ensures this.device == device && this.baseOffset == baseOffset && this.scratchBlocks == scratchBlocks
    {
      this.device, this.baseOffset, this.scratchBlocks := device, baseOffset, scratchBlocks;
      var zero := seq(512, _ => 0);
      position, cachedBlocks, cachedIndices := 0, [zero, zero], [None, None];
      cachedDirty, nextVictim := [false, false], 0;
      new;
      assert View() == device.data;
    }

    method FlushCacheSlot(slot: nat) returns (error: Option<StreamError>)
      requires Valid() && slot < SLOTS
      modifies this`cachedDirty, device
      ensures Valid() && View() == old(View()) && |device.data| == old(|device.data|)
      ensures cachedDirty == if error.None? then old(cachedDirty)[slot := false] else old(cachedDirty)
      ensures device.failures >= old(device.failures)
      ensures error == if device.failures == old(device.failures) then None else Some(DeviceError)
    {
      error := None;
      if cachedDirty[slot] {
        if cachedIndices[slot].None? { return Some(InvalidSeek); }
        ghost var before := device.data;
        var ok := device.Write(cachedIndices[slot].value, cachedBlocks[slot]);
        WriteBackKeepsView(device.data, before, cachedIndices, cachedBlocks, slot);
        OtherSlotAgrees(device.data, before, cachedIndices[slot], cachedIndices[1 - slot],
                        cachedBlocks[1 - slot], cachedDirty[1 - slot]);
        if !ok { return Some(DeviceError); }
        cachedDirty := cachedDirty[slot := false];
      }
    }

    /** After a successful flush the device is the view. */
    method FlushCachedBlocks() returns (error: Option<StreamError>)
      requires Valid()
      modifies this`cachedDirty, device
      ensures Valid() && View() == old(View())
      ensures error.None? ==> device.data == View() && cachedDirty == [false, false]
      ensures device.failures >= old(device.failures)
      ensures error == if device.failures == old(device.failures) then None else Some(DeviceError)
    {
      for slot := 0 to SLOTS
        invariant Valid() && View() == old(View())
        invariant forall s :: 0 <= s < slot ==> !cachedDirty[s]
        invariant device.failures == old(device.failures)
      {
        error := FlushCacheSlot(slot);
        if error.Some? { return; }
      }
      assert forall i :: 0 <= i < |device.data| ==> View()[i] == device.data[i];
      return None;
    }

    /** Writes the victim back, then fetches `block` into its place. */
    method FillSlot(slot: nat, block: nat) returns (error: Option<StreamError>)
      requires Valid() && slot < SLOTS
      requires cachedIndices[0] != Some(block) && cachedIndices[1] != Some(block)
      modifies this`cachedDirty, this`cachedBlocks, this`cachedIndices, device
      ensures Valid() && View() == old(View())
      ensures error.None? ==> cachedIndices[slot] == Some(block) && 512 * block + 512 <= |device.data|
      ensures device.failures >= old(device.failures)
      ensures error == if device.failures == old(device.failures) && 512 * block + 512 <= |View()| then None
                       else Some(DeviceError)
    {
      error := FlushCacheSlot(slot);
      if error.Some? { return; }
      var fetched := device.Read(block, 1);
      if fetched.None? { return Some(DeviceError); }
      RefillKeepsView(device.data, cachedIndices, cachedBlocks, cachedDirty, slot, block);
      cachedBlocks := cachedBlocks[slot := fetched.value];
      cachedIndices := cachedIndices[slot := Some(block)];
    }

    /** A free slot, or else the next victim in turn. */
    method PickSlot() returns (slot: nat)
      requires Valid()
      modifies this`nextVictim
      ensures Valid() && slot < SLOTS
      ensures cachedIndices[slot].None? || (cachedIndices[0].Some? && cachedIndices[1].Some? && slot == old(nextVictim))
    {
      if cachedIndices[0].None? { return 0; }
      if cachedIndices[1].None? { return 1; }
      slot := nextVictim;
      nextVictim := (nextVictim + 1) % SLOTS;
    }

    /** Finds or fetches a block. */
    method LoadCachedBlock(block: nat) returns (slot: nat, error: Option<StreamError>)
      requires Valid()
      modifies this`cachedDirty, this`cachedBlocks, this`cachedIndices, this`nextVictim, device
      ensures Valid() && View() == old(View())
      ensures error.None? ==>
                && slot < SLOTS && cachedIndices[slot] == Some(block)
                && 512 * block + 512 <= |device.data|
                && cachedBlocks[slot] == View()[512 * block..512 * block + 512]
      ensures device.failures >= old(device.failures)
      ensures error == if device.failures == old(device.failures) && 512 * block + 512 <= |View()| then None
                       else Some(DeviceError)
    {
      error := None;
      if cachedIndices[0] == Some(block) {
        slot := 0;
      } else if cachedIndices[1] == Some(block) {
        slot := 1;
      } else {
        slot := PickSlot();
        error := FillSlot(slot, block);
      }
      if error.None? { SlotShowsView(device.data, cachedIndices, cachedBlocks, slot); }
    }

    /** Writes a slot back and forgets its block. */
    method DropSlot(slot: nat) returns (error: Option<StreamError>)
      requires Valid() && slot < SLOTS
      modifies this`cachedDirty, this`cachedIndices, device
      ensures Valid() && View() == old(View())
      ensures cachedIndices == if error.None? then old(cachedIndices)[slot := None] else old(cachedIndices)
      ensures device.failures >= old(device.failures)
      ensures error == if device.failures == old(device.failures) then None else Some(DeviceError)
    {
      error := FlushCacheSlot(slot);
      if error.Some? { return; }
      DroppingKeepsView(device.data, cachedIndices, cachedBlocks, cachedDirty, slot);
      cachedIndices := cachedIndices[slot := None];
    }

    /** Before blocks are moved directly, their cached copies are written back and dropped. */
    method PrepareDirectIo(start: nat, count: nat) returns (error: Option<StreamError>)
      requires Valid()
      modifies this`cachedDirty, this`cachedIndices, device
      ensures Valid() && View() == old(View())
      ensures error.None? ==>
                !Overlaps(cachedIndices[0], start, count) && !Overlaps(cachedIndices[1], start, count)
      ensures device.failures >= old(device.failures)
      ensures error == if device.failures == old(device.failures) then None else Some(DeviceError)
    {
      error := None;
      for slot := 0 to SLOTS
        invariant Valid() && View() == old(View())
        invariant slot > 0 ==> !Overlaps(cachedIndices[0], start, count)
        invariant slot > 1 ==> !Overlaps(cachedIndices[1], start, count)
        invariant error.None? && device.failures == old(device.failures)
      {
        if Overlaps(cachedIndices[slot], start, count) {
          error := DropSlot(slot);
          if error.Some? { return; }
        }
      }
    }

    method ReadDirect(block: nat, count: nat) returns (piece: Bytes, error: Option<StreamError>)
      requires Valid()
      modifies this`cachedDirty, this`cachedIndices, device
      ensures Valid() && View() == old(View())
      ensures error.None? ==>
                && 512 * (block + count) <= |View()|
                && piece == View()[512 * block..512 * (block + count)]
      ensures device.failures >= old(device.failures)
      ensures error == if device.failures == old(device.failures) && 512 * (block + count) <= |View()| then None
                       else Some(DeviceError)
    {
      piece := [];
      error := PrepareDirectIo(block, count);
      if error.Some? { return; }
      var fetched := device.Read(block, count);
      if fetched.None? { return [], Some(DeviceError); }
      UncachedShowsView(device.data, cachedIndices, cachedBlocks, block, count);
      piece := fetched.value;
    }

    method ReadCached(block: nat, within: nat, len: nat) returns (piece: Bytes, error: Option<StreamError>)
      requires Valid() && within + len <= 512
      modifies this`cachedDirty, this`cachedBlocks, this`cachedIndices, this`nextVictim, device
      ensures Valid() && View() == old(View())
      ensures error.None? ==>
                && 512 * block + within + len <= |View()|
                && piece == View()[512 * block + within..512 * block + within + len]
      ensures device.failures >= old(device.failures)
      ensures error == if device.failures == old(device.failures) && 512 * block + 512 <= |View()| then None
                       else Some(DeviceError)
    {
      piece := [];
      var slot;
      slot, error := LoadCachedBlock(block);
      if error.Some? { return; }
      SliceOfSlice(View(), 512 * block, 512 * block + 512, within, within + len);
      piece := cachedBlocks[slot][within..within + len];
    }

    /** One step of a read of `wanted` bytes: whole blocks directly, or part of one block through the cache. */
    method ReadPiece(wanted: nat) returns (piece: Bytes, error: Option<StreamError>)
      requires Valid() && wanted > 0 && baseOffset + position + wanted <= ADDRESSABLE
      modifies this`position, this`cachedDirty, this`cachedBlocks, this`cachedIndices, this`nextVictim, device
      ensures Valid() && View() == old(View())
      ensures error.Some? ==> position == old(position)
      ensures error.None? ==>
                && 0 < |piece| <= wanted
                && position == old(position) + |piece|
                && baseOffset + position <= |View()|
                && piece == View()[baseOffset + old(position)..baseOffset + position]
      ensures device.failures >= old(device.failures)
      ensures error.None? ==> scratchBlocks > 0 && device.failures == old(device.failures)
      ensures error.Some? ==>
                || (error == Some(NoScratch) && scratchBlocks == 0 && device.failures == old(device.failures))
                || (error == Some(DeviceError) && scratchBlocks > 0 && device.failures > old(device.failures))
                || (error == Some(DeviceError) && scratchBlocks > 0 && baseOffset + position + wanted > |View()|)
    {
      piece := [];
      hide Overlaid;
      var absolute := baseOffset + position;
      var block := BlockNumber(absolute);
      var within := absolute % 512;
      if scratchBlocks == 0 { return [], Some(NoScratch); }
      var count := Min(if within == 0 then wanted / 512 else 0, scratchBlocks);
      if count > 0 {
        piece, error := ReadDirect(block, count);
        if error.Some? { return; }
      } else {
        piece, error := ReadCached(block, within, Min(wanted, 512 - within));
        if error.Some? { return; }
      }
      position := position + |piece|;
    }

    /**
     Fills `out` from the disk. It fails exactly where there is no scratch, the device fails or the range leaves the
     disk. The bytes already delivered are right then, the position stands after them, and the rest of `out` is as
     it was.
     */
    method ReadBytes(out: array<Byte>) returns (error: Option<StreamError>)
      requires Valid() && baseOffset + position + out.Length <= ADDRESSABLE
      modifies this`position, this`cachedDirty, this`cachedBlocks, this`cachedIndices, this`nextVictim, device, out
      ensures Valid() && View() == old(View())
      ensures old(position) <= position <= old(position) + out.Length
      ensures position > old(position) ==> baseOffset + position <= |View()|
      ensures var done := position - old(position);
              && (done > 0 ==> out[..done] == View()[baseOffset + old(position)..baseOffset + position])
              && out[done..] == old(out[..])[done..]
      ensures error.None? ==> position == old(position) + out.Length
      ensures device.failures >= old(device.failures)
      ensures error.None? <==>
                && device.failures == old(device.failures)
                && (out.Length == 0 || (scratchBlocks > 0 && baseOffset + old(position) + out.Length <= |View()|))
      ensures error.Some? ==> error == Some(if scratchBlocks == 0 then NoScratch else DeviceError)
    {
      hide Valid, View;
      var done := 0;
      error := None;
      ghost var start := position;
      while done < out.Length
        invariant Valid() && View() == old(View())
        invariant done <= out.Length && position == start + done
        invariant done > 0 ==> baseOffset + position <= |View()|
        invariant forall i :: 0 <= i < done ==> out[i] == View()[baseOffset + start + i]
        invariant forall i :: done <= i < out.Length ==> out[i] == old(out[i])
        invariant error.None? && device.failures == old(device.failures) && (done > 0 ==> scratchBlocks > 0)
      {
        var piece;
        piece, error := ReadPiece(out.Length - done);
        if error.Some? { return; }
        forall i | 0 <= i < |piece| {
          out[done + i] := piece[i];
        }
        done := done + |piece|;
      }
    }

    method WriteDirect(block: nat, payload: Bytes) returns (error: Option<StreamError>)
      requires Valid() && |payload| % 512 == 0
      modifies this`cachedDirty, this`cachedIndices, device
      ensures Valid() && |View()| == |old(View())|
      ensures error.None? ==>
                512 * block + |payload| <= |View()| && View() == Splice(old(View()), 512 * block, payload)
      ensures error.Some? ==> UnchangedOutside(View(), old(View()), 512 * block, |payload|)
      ensures device.failures >= old(device.failures)
      ensures error == if device.failures == old(device.failures) && 512 * block + |payload| <= |View()| then None
                       else Some(DeviceError)
    {
      error := PrepareDirectIo(block, |payload| / 512);
      if error.Some? { return; }
      ghost var data := device.data;
      var ok := device.Write(block, payload);
      UntouchedSlotAgrees(device.data, data, block, payload, cachedIndices[0], cachedBlocks[0], cachedDirty[0]);
      UntouchedSlotAgrees(device.data, data, block, payload, cachedIndices[1], cachedBlocks[1], cachedDirty[1]);
      if ok {
        DirectWriteUpdatesView(data, cachedIndices, cachedBlocks, block, payload);
      } else {
        FailedWriteStaysInside(device.data, data, cachedIndices, cachedBlocks, 512 * block, |payload|);
        error := Some(DeviceError);
      }
    }

    method WriteCached(block: nat, within: nat, payload: Bytes) returns (error: Option<StreamError>)
      requires Valid() && within + |payload| <= 512
      modifies this`cachedDirty, this`cachedBlocks, this`cachedIndices, this`nextVictim, device
      ensures Valid() && |View()| == |old(View())|
      ensures error.None? ==>
                && 512 * block + within + |payload| <= |View()|
                && View() == Splice(old(View()), 512 * block + within, payload)
      ensures error.Some? ==> View() == old(View())
      ensures device.failures >= old(device.failures)
      ensures error == if device.failures == old(device.failures) && 512 * block + 512 <= |View()| then None
                       else Some(DeviceError)
    {
      var slot;
      slot, error := LoadCachedBlock(block);
      if error.Some? { return; }
      CachedWriteUpdatesView(device.data, cachedIndices, cachedBlocks, slot, within, payload);
      cachedBlocks := cachedBlocks[slot := Splice(cachedBlocks[slot], within, payload)];
      cachedDirty := cachedDirty[slot := true];
    }

    /** One step of a write: whole blocks directly, or part of one block in the cache. */
    method WritePiece(input: Bytes) returns (len: nat, error: Option<StreamError>)
      requires Valid() && |input| > 0 && baseOffset + position + |input| <= ADDRESSABLE
      modifies this`position, this`cachedDirty, this`cachedBlocks, this`cachedIndices, this`nextVictim, device
      ensures Valid() && |View()| == |old(View())|
      ensures error.None? ==>
                && 0 < len <= |input|
                && position == old(position) + len
                && baseOffset + position <= |View()|
                && View() == Splice(old(View()), baseOffset + old(position), input[..len])
      ensures error.Some? ==>
                && position == old(position)
                && UnchangedOutside(View(), old(View()), baseOffset + position, |input|)
      ensures device.failures >= old(device.failures)
      ensures error.None? ==> scratchBlocks > 0 && device.failures == old(device.failures)
      ensures error.Some? ==>
                || (error == Some(NoScratch) && scratchBlocks == 0 && device.failures == old(device.failures))
                || (error == Some(DeviceError) && scratchBlocks > 0 && device.failures > old(device.failures))
                || (error == Some(DeviceError) && scratchBlocks > 0 && baseOffset + position + |input| > |View()|)
    {
      hide Overlaid;
      var absolute := baseOffset + position;
      var block := BlockNumber(absolute);
      var within := absolute % 512;
      len := Min(|input|, 512 - within);
      if scratchBlocks == 0 { return 0, Some(NoScratch); }
      var count := Min(if within == 0 then |input| / 512 else 0, scratchBlocks);
      if count > 0 {
        len := 512 * count;
        error := WriteDirect(block, input[..len]);
      } else {
        error := WriteCached(block, within, input[..len]);
      }
      if error.None? { position := position + len; }
    }

    /**
     Writes `input` at the position. It fails exactly where there is no scratch, the device fails or the range leaves
     the disk. A prefix has been written then, the position stands after it, and no byte outside the range of the
     write has changed.
     */
    method WriteBytes(input: Bytes) returns (error: Option<StreamError>)
      requires Valid() && baseOffset + position + |input| <= ADDRESSABLE
      modifies this`position, this`cachedDirty, this`cachedBlocks, this`cachedIndices, this`nextVictim, device
      ensures Valid() && |View()| == |old(View())|
      ensures old(position) <= position <= old(position) + |input|
      ensures position > old(position) ==> baseOffset + position <= |View()|
      ensures forall i :: baseOffset + old(position) <= i < baseOffset + position && i < |View()| ==>
                            View()[i] == input[i - baseOffset - old(position)]
      ensures UnchangedOutside(View(), old(View()), baseOffset + old(position), |input|)
      ensures error.None? ==> position == old(position) + |input|
      ensures device.failures >= old(device.failures)
      ensures error.None? <==>
                && device.failures == old(device.failures)
                && (input == [] || (scratchBlocks > 0 && baseOffset + old(position) + |input| <= |View()|))
      ensures error.Some? ==> error == Some(if scratchBlocks == 0 then NoScratch else DeviceError)
    {
      hide Valid, View;
      var done := 0;
      error := None;
      ghost var start, before := baseOffset + position, View();
      while done < |input|
        invariant Valid() && |View()| == |before|
        invariant done <= |input| && baseOffset + position == start + done
        invariant done > 0 ==> start + done <= |before|
        invariant forall i :: start <= i < start + done && i < |before| ==> View()[i] == input[i - start]
        invariant UnchangedOutside(View(), before, start, |input|)
        invariant error.None? && device.failures == old(device.failures) && (done > 0 ==> scratchBlocks > 0)
      {
        var len;
        len, error := WritePiece(input[done..]);
        if error.Some? { return; }
        done := done + len;
      }
    }

    /** Only Start and Current move the position; Current refuses to leave the 64-bit range. */
    method Seek(target: SeekFrom) returns (r: Result<nat, StreamError>)
      requires target.Start? ==> target.offset < U64_LIMIT
      modifies this`position
      ensures r == SeekResult(old(position), target)
      ensures target.Start? ==> r == Ok(target.offset)
      ensures target.Current? && 0 <= old(position) + target.delta < U64_LIMIT ==> r == Ok(old(position) + target.delta)
      ensures target.Current? && !(0 <= old(position) + target.delta < U64_LIMIT) ==> r == Err(InvalidSeek)
      ensures target.End? ==> r == Err(InvalidSeek)
      ensures position == if r.Ok? then r.value else old(position)
      ensures old(Valid()) ==> Valid() && View() == old(View())
    {
      r := SeekResult(position, target);
      if r.Ok? { position := r.value; }
    }
  }
}
