/** A card addressed in 512-byte blocks, held as one flat byte string. Any transfer may fail. */
module BlockDevice {
  import opened Common

  /** Bytes addressable by 32-bit block numbers. */
  const ADDRESSABLE: nat := 0x200_0000_0000

  /** `failures` counts the transfers inside the card that went wrong. One that leaves the card is refused. */
  class Device {
    var data: Bytes
    ghost var failures: nat

    constructor (data: Bytes)
      ensures this.data == data
    {
      this.data := data;
    }

    /** A failed read delivers nothing. */
    method Read(start: nat, count: nat) returns (r: Option<Bytes>)
      modifies this`failures
      ensures r.Some? ==> 512 * (start + count) <= |data| && r.value == data[512 * start..512 * (start + count)]
      ensures failures >= old(failures)
      ensures failures == old(failures) <==> r.Some? || 512 * (start + count) > |data|
    {
      r := None;
      if 512 * (start + count) <= |data| {
        if * {
          r := Some(data[512 * start..512 * (start + count)]);
        } else {
          failures := failures + 1;
        }
      }
    }

    /** A failed write may leave anything in the blocks it addresses, and nothing elsewhere. */
    method Write(start: nat, payload: Bytes) returns (ok: bool)
      modifies this
      ensures |data| == |old(data)|
      ensures ok ==> 512 * start + |payload| <= |data| && data == Splice(old(data), 512 * start, payload)
      ensures forall i :: 0 <= i < |data| && !(512 * start <= i < 512 * start + |payload|) ==> data[i] == old(data)[i]
      ensures failures >= old(failures)
      ensures failures == old(failures) <==> ok || 512 * start + |payload| > |data|
    {
      ok := false;
      if 512 * start + |payload| <= |data| {
        if * {
          ok := true;
          data := Splice(data, 512 * start, payload);
        } else {
          var junk: Bytes :| |junk| == |payload|;
          data := Splice(data, 512 * start, junk);
          failures := failures + 1;
        }
      }
    }
  }
}
