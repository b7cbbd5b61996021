/** Values shared by every part of the model: bytes, results and the splice of a byte string. */
module Common {

  type Byte = b: int | 0 <= b < 256

  type Bytes = seq<Byte>

  datatype Option<+T> = None | Some(value: T)

  datatype Result<+T, +E> = Ok(value: T) | Err(error: E)

  const U16_LIMIT: nat := 0x1_0000

  const U32_LIMIT: nat := 0x1_0000_0000

  const U64_LIMIT: nat := 0x1_0000_0000_0000_0000

  function Min(a: nat, b: nat): nat {
    if a <= b then a else b
  }

  /** `s` with the bytes from `at` on replaced by `data`. */
  function Splice<T>(s: seq<T>, at: nat, data: seq<T>): (r: seq<T>)
    requires at + |data| <= |s|
    ensures |r| == |s|
    ensures forall i {:trigger r[i]} :: 0 <= i < |s| ==> r[i] == if at <= i < at + |data| then data[i - at] else s[i]
  {
    s[..at] + data + s[at + |data|..]
  }

  lemma SpliceSnoc<T>(s: seq<T>, at: nat, data: seq<T>, last: T)
    requires at + |data| < |s|
    ensures Splice(s, at, data)[at + |data| := last] == Splice(s, at, data + [last])
  {
    var shorter, longer := Splice(s, at, data), Splice(s, at, data + [last]);
    forall i | 0 <= i < |s|
      ensures shorter[at + |data| := last][i] == longer[i]
    {
      assert i != at + |data| ==> shorter[at + |data| := last][i] == shorter[i];
    }
  }

  lemma SliceOfSlice<T>(s: seq<T>, a: nat, b: nat, c: nat, d: nat)
    requires a <= b <= |s| && c <= d <= b - a
    ensures s[a..b][c..d] == s[a + c..a + d]
  {
    var outer, inner := s[a..b], s[a + c..a + d];
    forall i | 0 <= i < d - c
      ensures outer[c..d][i] == inner[i]
    {
      assert outer[c..d][i] == outer[c + i] == s[a + (c + i)];
    }
    assert |outer[c..d]| == |inner|;
    assert outer[c..d] == inner;
  }

  lemma TailOfTail<T>(s: seq<T>, a: nat, b: nat)
    requires a + b <= |s|
    ensures s[a..][b..] == s[a + b..]
  {
  }
}
