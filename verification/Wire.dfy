/** Fixed-size records: little-endian fields at fixed offsets, all else zero. */
module Wire {
  import opened Common

  /** `v` in `n` little-endian bytes. */
  function LittleEndian(v: nat, n: nat): (b: Bytes)
    ensures |b| == n
  {
    if n == 0 then [] else [v % 256] + LittleEndian(v / 256, n - 1)
  }

  function Value(b: Bytes): nat {
    if b == [] then 0 else b[0] + 256 * Value(b[1..])
  }

  function Room(n: nat): nat {
    if n == 0 then 1 else 256 * Room(n - 1)
  }

  lemma Rooms()
    ensures Room(1) == 0x100 && Room(2) == 0x1_0000 && Room(4) == U32_LIMIT && Room(8) == U64_LIMIT
  {
    assert Room(3) == 256 * Room(2) && Room(5) == 256 * Room(4) && Room(6) == 256 * Room(5) && Room(7) == 256 * Room(6);
  }

  /** A number that fits its field reads back. */
  lemma {:induction false} ValueOfLittleEndian(v: nat, n: nat)
    requires v < Room(n)
    ensures Value(LittleEndian(v, n)) == v
  {
    if n > 0 {
      ValueOfLittleEndian(v / 256, n - 1);
      assert LittleEndian(v, n)[1..] == LittleEndian(v / 256, n - 1);
    }
  }

  datatype Field = Field(at: nat, data: Bytes)

  function End(f: Field): nat {
    f.at + |f.data|
  }

  predicate InOrder(size: nat, fields: seq<Field>) {
    && (forall i :: 0 <= i < |fields| ==> End(fields[i]) <= size)
    && forall i :: 0 < i < |fields| ==> End(fields[i - 1]) <= fields[i].at
  }

  lemma {:induction false} EarlierEndsBefore(size: nat, fields: seq<Field>, i: nat, j: nat)
    requires InOrder(size, fields) && i < j < |fields|
    ensures End(fields[i]) <= fields[j].at
  {
    if i < j - 1 { EarlierEndsBefore(size, fields, i, j - 1); }
  }

  /** A record of `size` bytes with these fields. */
  function Laid(size: nat, fields: seq<Field>): (record: Bytes)
    requires InOrder(size, fields)
    ensures |record| == size
  {
    if fields == [] then seq(size, _ => 0)
    else
      var n := |fields| - 1;
      Splice(Laid(size, fields[..n]), fields[n].at, fields[n].data)
  }

  /** Every field is where it was put. */
  lemma {:induction false} FieldStands(size: nat, fields: seq<Field>, i: nat)
    requires InOrder(size, fields) && i < |fields|
    ensures Laid(size, fields)[fields[i].at..End(fields[i])] == fields[i].data
  {
    var n := |fields| - 1;
    if i < n {
      FieldStands(size, fields[..n], i);
      EarlierEndsBefore(size, fields, i, n);
      assert Laid(size, fields)[fields[i].at..End(fields[i])] == Laid(size, fields[..n])[fields[i].at..End(fields[i])];
    }
  }

  /** There is nothing beside the fields. */
  lemma {:induction false} NothingBeside(size: nat, fields: seq<Field>, p: nat)
    requires InOrder(size, fields) && p < size
    requires forall i :: 0 <= i < |fields| ==> !(fields[i].at <= p < End(fields[i]))
    ensures Laid(size, fields)[p] == 0
  {
    if fields != [] { NothingBeside(size, fields[..|fields| - 1], p); }
  }

  /** The number in the `n` bytes at `at`. */
  function Read(record: Bytes, at: nat, n: nat): nat
    requires at + n <= |record|
  {
    Value(record[at..at + n])
  }

  function Number(at: nat, v: nat, n: nat): (f: Field)
    ensures f.at == at && End(f) == at + n
  {
    Field(at, LittleEndian(v, n))
  }

  lemma NumberReads(size: nat, fields: seq<Field>, i: nat, at: nat, v: nat, n: nat)
    requires InOrder(size, fields) && i < |fields| && fields[i] == Number(at, v, n) && v < Room(n)
    ensures at + n <= size && Read(Laid(size, fields), at, n) == v
  {
    FieldStands(size, fields, i);
    ValueOfLittleEndian(v, n);
  }
}
