/** Any interleaving of reads, writes, seeks and flushes of a block stream, against one flat byte array. */
module BlockStreamRuns {
  import opened Common
  import opened BlockDevice
  import opened BlockStream

  datatype StreamOp = ReadOp(len: nat) | WriteOp(data: Bytes) | SeekOp(target: SeekFrom) | FlushOp

  /** A flat disk, a position in it, and everything read so far. */
  datatype Flat = Flat(disk: Bytes, position: nat, outputs: seq<Bytes>)

  predicate InDisk(f: Flat, base: nat, len: nat) {
    len == 0 || base + f.position + len <= |f.disk|
  }

  /** What one operation does to a flat disk; `None` when it cannot succeed. */
  function FlatStep(f: Flat, base: nat, op: StreamOp): Option<Flat> {
    match op
    case ReadOp(len) =>
      if !InDisk(f, base, len) then None
      else
        var output := if len == 0 then [] else f.disk[base + f.position..base + f.position + len];
        Some(f.(position := f.position + len, outputs := f.outputs + [output]))
    case WriteOp(data) =>
      if !InDisk(f, base, |data|) then None
      else
        var disk := if data == [] then f.disk else Splice(f.disk, base + f.position, data);
        Some(f.(disk := disk, position := f.position + |data|))
    case SeekOp(target) =>
      (match SeekResult(f.position, target)
       case Ok(position) => Some(f.(position := position))
       case Err(_) => None)
    case FlushOp => Some(f)
  }

  function FlatAfter(f: Flat, base: nat, ops: seq<StreamOp>, k: nat): Option<Flat>
    requires k <= |ops|
  {
    if k == 0 then Some(f)
    else
      match FlatAfter(f, base, ops, k - 1)
      case None => None
      case Some(g) => FlatStep(g, base, ops[k - 1])
  }

  predicate MovesBytes(op: StreamOp) {
    (op.ReadOp? && op.len > 0) || (op.WriteOp? && op.data != [])
  }

  /** The flat disk allows the operation, and there is scratch to move bytes with. */
  predicate CanStep(f: Flat, base: nat, scratchBlocks: nat, op: StreamOp) {
    FlatStep(f, base, op).Some? && (scratchBlocks == 0 ==> !MovesBytes(op))
  }

  predicate CanRun(f: Flat, base: nat, scratchBlocks: nat, ops: seq<StreamOp>) {
    && FlatAfter(f, base, ops, |ops|).Some?
    && (scratchBlocks == 0 ==> forall op :: op in ops ==> !MovesBytes(op))
  }

  lemma {:induction false} CannotRecover(f: Flat, base: nat, ops: seq<StreamOp>, j: nat, k: nat)
    requires j <= k <= |ops| && FlatAfter(f, base, ops, j).None?
    ensures FlatAfter(f, base, ops, k).None?
  {
    if j < k { CannotRecover(f, base, ops, j, k - 1); }
  }

  /** The flat disk that a stream stands for. */
  ghost function Abstract(stream: BlockDeviceStream, outputs: seq<Bytes>): Flat
    requires stream.Valid()
    reads stream, stream.device
  {
    Flat(stream.View(), stream.position, outputs)
  }

  ghost predicate OpAddressable(f: Flat, base: nat, op: StreamOp) {
    match op
    case ReadOp(len) => base + f.position + len <= ADDRESSABLE
    case WriteOp(data) => base + f.position + |data| <= ADDRESSABLE
    case SeekOp(target) => target.Start? ==> target.offset < U64_LIMIT
    case FlushOp => true
  }

  /** No operation of the run reaches a byte whose block number needs more than 32 bits. */
  ghost predicate Addressable(f: Flat, base: nat, ops: seq<StreamOp>) {
    forall k :: 0 <= k < |ops| && FlatAfter(f, base, ops, k).Some? ==>
                  OpAddressable(FlatAfter(f, base, ops, k).value, base, ops[k])
  }

  /**
   One operation on the cached stream does what it does on the flat disk. It reports an error exactly if a device
   transfer failed meanwhile, or the flat disk does not allow it, or there is no scratch.
   */
  method Perform(stream: BlockDeviceStream, op: StreamOp, outputs: seq<Bytes>)
    returns (outputs': seq<Bytes>, failed: bool)
    requires stream.Valid()
    requires OpAddressable(Abstract(stream, outputs), stream.baseOffset, op)
    modifies stream, stream.device
    ensures stream.Valid()
    ensures !failed ==>
              FlatStep(old(Abstract(stream, outputs)), stream.baseOffset, op) == Some(Abstract(stream, outputs'))
    ensures !failed && op.FlushOp? ==> stream.device.data == stream.View()
    ensures stream.device.failures >= old(stream.device.failures)
    ensures failed <==>
              || stream.device.failures > old(stream.device.failures)
              || !CanStep(old(Abstract(stream, outputs)), stream.baseOffset, stream.scratchBlocks, op)
  {
    hide BlockDeviceStream.Valid, BlockDeviceStream.View;
    outputs', failed := outputs, false;
    ghost var f := Abstract(stream, outputs);
    match op {
      case ReadOp(len) =>
        var buffer := new Byte[len];
        var error := stream.ReadBytes(buffer);
        failed := error.Some?;
        outputs' := outputs + [buffer[..]];
        if !failed {
          assert buffer[..] == buffer[..len];
          assert len == 0 ==> buffer[..] == [];
          assert FlatStep(f, stream.baseOffset, op) == Some(Abstract(stream, outputs'));
        }
      case WriteOp(data) =>
        var error := stream.WriteBytes(data);
        failed := error.Some?;
        if !failed {
          if data == [] {
            assert stream.View() == f.disk;
          } else {
            assert stream.View() == Splice(f.disk, stream.baseOffset + f.position, data);
          }
          assert FlatStep(f, stream.baseOffset, op) == Some(Abstract(stream, outputs'));
        }
      case SeekOp(target) =>
        var r := stream.Seek(target);
        failed := r.Err?;
      case FlushOp =>
        var error := stream.FlushCachedBlocks();
        failed := error.Some?;
    }
  }

  /**
   A run that reports no error has read, written and left exactly what the flat disk would. It reports one exactly if
   a device transfer failed meanwhile, or the flat disk does not allow the run, or there is no scratch for it.
   */
  method RunAll(stream: BlockDeviceStream, ops: seq<StreamOp>) returns (outputs: seq<Bytes>, failed: bool)
    requires stream.Valid()
    requires Addressable(Abstract(stream, []), stream.baseOffset, ops)
    modifies stream, stream.device
    ensures stream.Valid()
    ensures !failed ==>
              FlatAfter(old(Abstract(stream, [])), stream.baseOffset, ops, |ops|) == Some(Abstract(stream, outputs))
    ensures !failed && ops != [] && ops[|ops| - 1].FlushOp? ==> stream.device.data == stream.View()
    ensures failed <==>
              || stream.device.failures > old(stream.device.failures)
              || !CanRun(old(Abstract(stream, [])), stream.baseOffset, stream.scratchBlocks, ops)
  {
    hide FlatStep, BlockDeviceStream.Valid, BlockDeviceStream.View;
    outputs, failed := [], false;
    ghost var f := Abstract(stream, []);
    for k := 0 to |ops|
      invariant stream.Valid() && !failed
      invariant FlatAfter(f, stream.baseOffset, ops, k) == Some(Abstract(stream, outputs))
      invariant k > 0 && ops[k - 1].FlushOp? ==> stream.device.data == stream.View()
      invariant stream.device.failures == old(stream.device.failures)
      invariant stream.scratchBlocks == 0 ==> forall i :: 0 <= i < k ==> !MovesBytes(ops[i])
    {
      outputs, failed := Perform(stream, ops[k], outputs);
      if failed {
        if FlatAfter(f, stream.baseOffset, ops, k + 1).None? {
          CannotRecover(f, stream.baseOffset, ops, k + 1, |ops|);
        }
        return;
      }
    }
  }
}
