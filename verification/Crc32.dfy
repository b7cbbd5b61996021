/** CRC-32 (section 8 of RFC 1952), bit by bit, in the two forms the repository uses. */
module Crc32 {
  import opened Common
  import opened Bits

  const POLYNOMIAL: bv32 := 0xedb8_8320
  const START: bv32 := 0xffff_ffff

  /** One bit with a branch on the low bit. */
  function Round(crc: bv32): bv32 {
    if crc & 1 == 0 then crc >> 1 else (crc >> 1) ^ POLYNOMIAL
  }

  /** One bit with a mask made from the low bit. */
  function MaskedRound(crc: bv32): bv32 {
    (crc >> 1) ^ (POLYNOMIAL & (0 - (crc & 1)))
  }

  lemma RoundsAgree(crc: bv32)
    ensures MaskedRound(crc) == Round(crc)
  {
    assert crc & 1 == 0 || crc & 1 == 1;
  }

  function Rounds(crc: bv32, n: nat): bv32 {
    if n == 0 then crc else Round(Rounds(crc, n - 1))
  }

  /** A byte as a 32-bit word, from its high bits to its low. */
  function Widened(byte: Byte): bv32 {
    if byte == 0 then 0 else (Widened(byte / 2) << 1) | if byte % 2 == 1 then 1 else 0
  }

  function ByteUpdate(crc: bv32, byte: Byte): bv32 {
    Rounds(crc ^ Widened(byte), 8)
  }

  /** The register after `bytes`. */
  function Update(crc: bv32, bytes: Bytes): bv32 {
    if bytes == [] then crc else ByteUpdate(Update(crc, bytes[..|bytes| - 1]), bytes[|bytes| - 1])
  }

  function Finished(crc: bv32): bv32 {
    crc ^ 0xffff_ffff
  }

  /** The low `n` bits of a word as a number. */
  function LowBits(word: bv32, n: nat): nat {
    if n == 0 then 0 else (if word & 1 == 1 then 1 else 0) + 2 * LowBits(word >> 1, n - 1)
  }

  lemma {:induction false} LowBitsBounded(word: bv32, n: nat)
    ensures LowBits(word, n) < Power(n)
    decreases n
  {
    if n > 0 { LowBitsBounded(word >> 1, n - 1); }
  }

  function Number(word: bv32): (r: nat)
    ensures r < U32_LIMIT
  {
    Powers();
    LowBitsBounded(word, 32);
    LowBits(word, 32)
  }

  function Checksum(data: Bytes): (crc: nat)
    ensures crc < U32_LIMIT
  {
    Number(Finished(Update(START, data)))
  }

  /** Bytes may be fed in any pieces. */
  lemma {:induction false} UpdateAppend(crc: bv32, x: Bytes, y: Bytes)
    ensures Update(crc, x + y) == Update(Update(crc, x), y)
  {
    if y == [] {
      assert x + y == x;
    } else {
      var n := |y| - 1;
      UpdateAppend(crc, x, y[..n]);
      assert (x + y)[..|x + y| - 1] == x + y[..n];
    }
  }

  lemma UpdateSnoc(crc: bv32, bytes: Bytes, i: nat)
    requires i < |bytes|
    ensures Update(crc, bytes[..i + 1]) == ByteUpdate(Update(crc, bytes[..i]), bytes[i])
  {
    assert bytes[..i + 1][..i] == bytes[..i];
  }

  /** Eight rounds, as the transfer tools write them. */
  method BranchingByte(crc: bv32) returns (r: bv32)
    ensures r == Rounds(crc, 8)
  {
    r := crc;
    for bit := 0 to 8
      invariant r == Rounds(crc, bit)
    {
      r := if r & 1 == 0 then r >> 1 else (r >> 1) ^ POLYNOMIAL;
    }
  }

  /** Eight rounds, as the validator writes them. */
  method MaskedByte(crc: bv32) returns (r: bv32)
    ensures r == Rounds(crc, 8)
  {
    r := crc;
    for bit := 0 to 8
      invariant r == Rounds(crc, bit)
    {
      RoundsAgree(r);
      r := MaskedRound(r);
    }
  }

  /** The byte loop of the transfer tools. */
  method UpdateLoop(crc: bv32, bytes: Bytes) returns (r: bv32)
    ensures r == Update(crc, bytes)
  {
    r := crc;
    for i := 0 to |bytes|
      invariant r == Update(crc, bytes[..i])
    {
      UpdateSnoc(crc, bytes, i);
      r := BranchingByte(r ^ Widened(bytes[i]));
    }
    assert bytes[..|bytes|] == bytes;
  }

  /** The validator's register, fed from a file in pieces of its scratch buffer. */
  class Register {
    var crc: bv32

    constructor ()
      ensures crc == START
    {
      crc := START;
    }

    method Feed(bytes: Bytes)
      modifies this
      ensures crc == Update(old(crc), bytes)
    {
      ghost var start := crc;
      for i := 0 to |bytes|
        invariant crc == Update(start, bytes[..i])
      {
        UpdateSnoc(start, bytes, i);
        crc := MaskedByte(crc ^ Widened(bytes[i]));
      }
      assert bytes[..|bytes|] == bytes;
    }

    /** Fails without scratch, and when the file ends before the range does. */
    method UpdateRange(source: Bytes, offset: nat, length: nat, scratch: nat) returns (ok: bool)
      modifies this
      ensures ok <==> scratch > 0 && (length == 0 || offset + length <= |source|)
      ensures ok && length > 0 ==> crc == Update(old(crc), source[offset..offset + length])
      ensures ok && length == 0 ==> crc == old(crc)
    {
      if scratch == 0 { return false; }
      var at: nat, left: nat := offset, length;
      ghost var start := crc;
      while left != 0
        invariant at == offset + (length - left) && left <= length
        invariant at > offset ==> at <= |source|
        invariant crc == if at > offset then Update(start, source[offset..at]) else start
      {
        var count := Min(left, scratch);
        if at + count > |source| { return false; }
        Feed(source[at..at + count]);
        if at > offset {
          UpdateAppend(start, source[offset..at], source[at..at + count]);
          assert source[offset..at] + source[at..at + count] == source[offset..at + count];
        }
        at, left := at + count, left - count;
      }
      return true;
    }
  }
}
