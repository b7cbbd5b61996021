/** Text as bytes: the encoding of a string and the places where it may be cut (section 3 of RFC 3629). */
module Utf8Text {
  import opened Common

  function EncodedChar(c: char): (b: Bytes)
    ensures 1 <= |b| <= 4 && !IsContinuation(b[0])
    ensures forall i :: 1 <= i < |b| ==> IsContinuation(b[i])
  {
    var n := c as int;
    if n < 0x80 then [n]
    else if n < 0x800 then [0xc0 + n / 64, 0x80 + n % 64]
    else if n < 0x1_0000 then [0xe0 + n / 4096, 0x80 + n / 64 % 64, 0x80 + n % 64]
    else [0xf0 + n / 26_2144, 0x80 + n / 4096 % 64, 0x80 + n / 64 % 64, 0x80 + n % 64]
  }

  /** The bits of byte `i` below `size`. */
  function Low(b: Bytes, i: nat, size: nat): nat
    requires size > 0
  {
    if i < |b| then b[i] % size else 0
  }

  /** The first code point of a text, by the bit layout of the code: 7, 5 + 6, 4 + 6 + 6 or 3 + 6 + 6 + 6 bits. */
  function CodePoint(b: Bytes): nat
    requires b != []
  {
    if b[0] < 0x80 then b[0]
    else if b[0] < 0xe0 then Low(b, 0, 32) * 64 + Low(b, 1, 64)
    else if b[0] < 0xf0 then Low(b, 0, 16) * 4096 + Low(b, 1, 64) * 64 + Low(b, 2, 64)
    else Low(b, 0, 8) * 26_2144 + Low(b, 1, 64) * 4096 + Low(b, 2, 64) * 64 + Low(b, 3, 64)
  }

  /** A character's bytes hold its code point, in the least number of bytes that can. */
  lemma EncodedHolds(c: char)
    ensures CodePoint(EncodedChar(c)) == c as int
    ensures |EncodedChar(c)| ==
            if c as int < 0x80 then 1 else if c as int < 0x800 then 2 else if c as int < 0x1_0000 then 3 else 4
  {
    var n := c as int;
    SplitSix(n);
    SplitSix(n / 64);
    SplitSix(n / 4096);
    Sixes(n);
    if n < 0x80 {
    } else if n < 0x800 {
      assert Low(EncodedChar(c), 0, 32) == n / 64 && Low(EncodedChar(c), 1, 64) == n % 64;
    } else if n < 0x1_0000 {
      assert Low(EncodedChar(c), 0, 16) == n / 4096 && Low(EncodedChar(c), 1, 64) == n / 64 % 64;
      assert Low(EncodedChar(c), 2, 64) == n % 64;
    } else {
      assert Low(EncodedChar(c), 0, 8) == n / 26_2144 && Low(EncodedChar(c), 1, 64) == n / 4096 % 64;
      assert Low(EncodedChar(c), 2, 64) == n / 64 % 64 && Low(EncodedChar(c), 3, 64) == n % 64;
    }
  }

  lemma SplitSix(n: nat)
    ensures n == n / 64 * 64 + n % 64 && (0x80 + n % 64) % 64 == n % 64
  {
  }

  lemma Sixes(n: nat)
    ensures n / 64 / 64 == n / 4096 && n / 4096 / 64 == n / 26_2144
  {
  }

  /** Different texts have different bytes. */
  lemma {:induction false} Utf8IsOneToOne(x: string, y: string)
    requires Utf8(x) == Utf8(y)
    ensures x == y
    decreases x
  {
    hide EncodedChar;
    if x != "" && y != "" {
      Utf8Step(x);
      Utf8Step(y);
      FirstCharacter(x);
      FirstCharacter(y);
      var first := EncodedChar(x[0]);
      assert Utf8(x)[|first|..] == Utf8(x[1..]) && Utf8(y)[|first|..] == Utf8(y[1..]);
      Utf8IsOneToOne(x[1..], y[1..]);
    }
  }

  lemma FirstCharacter(s: string)
    requires s != ""
    ensures CodePoint(Utf8(s)) == s[0] as int
  {
    hide Utf8;
    Utf8Step(s);
    EncodedHolds(s[0]);
  }

  predicate IsContinuation(b: Byte) {
    0x80 <= b < 0xc0
  }

  function Utf8(s: string): (b: Bytes)
    ensures |s| <= |b| && (b == [] <==> s == "")
  {
    if s == "" then [] else EncodedChar(s[0]) + Utf8(s[1..])
  }

  predicate IsCharBoundary(value: Bytes, i: nat) {
    i == 0 || i == |value| || (i < |value| && !IsContinuation(value[i]))
  }

  /** A cut at a boundary is a cut between characters. */
  lemma {:induction false} BoundarySplits(s: string, i: nat) returns (m: nat)
    requires i <= |Utf8(s)| && IsCharBoundary(Utf8(s), i)
    ensures m <= |s| && Utf8(s[..m]) == Utf8(s)[..i] && Utf8(s[m..]) == Utf8(s)[i..]
    decreases s
  {
    hide EncodedChar;
    if i == 0 {
      m := 0;
      assert s[0..] == s && s[..0] == "";
    } else {
      var first := EncodedChar(s[0]);
      assert Utf8(s)[..|first|] == first;
      assert forall j :: 1 <= j < |first| ==> Utf8(s)[j] == first[j];
      var k := BoundarySplits(s[1..], i - |first|) by {
        if i < |Utf8(s)| { assert Utf8(s)[i] == Utf8(s[1..])[i - |first|]; }
      }
      m := k + 1;
      assert s[..m] == [s[0]] + s[1..][..k] && s[m..] == s[1..][k..];
    }
  }

  /** Among the first four bytes there is a place to cut, unless the text is empty. */
  lemma FirstBoundary(s: string)
    requires s != ""
    ensures exists i :: 1 <= i <= 4 && i <= |Utf8(s)| && IsCharBoundary(Utf8(s), i)
  {
    var i := |EncodedChar(s[0])|;
    if i < |Utf8(s)| {
      assert Utf8(s)[i] == Utf8(s[1..])[0] == EncodedChar(s[1])[0];
    }
    assert IsCharBoundary(Utf8(s), i);
  }

  lemma {:induction false} Utf8Join(x: string, y: string)
    ensures Utf8(x + y) == Utf8(x) + Utf8(y)
  {
    hide Utf8;
    if x == "" {
      assert x + y == y;
      assert Utf8("") == [];
    } else {
      Utf8Join(x[1..], y);
      assert (x + y)[1..] == x[1..] + y;
      Utf8Step(x);
      Utf8Step(x + y);
    }
  }

  lemma Utf8Step(s: string)
    requires s != ""
    ensures Utf8(s) == EncodedChar(s[0]) + Utf8(s[1..])
  {
  }

  /** Continuation bytes at the front. */
  function Continuations(value: Bytes): (n: nat)
    ensures n <= |value| && (n < |value| ==> !IsContinuation(value[n]))
    ensures forall j :: 0 <= j < n ==> IsContinuation(value[j])
  {
    if value == [] || !IsContinuation(value[0]) then 0 else 1 + Continuations(value[1..])
  }

  /** How many bytes the first character takes. */
  function FirstWidth(value: Bytes): (n: nat)
    ensures n <= |value|
  {
    if value == [] then 0 else 1 + Continuations(value[1..])
  }

  /** The first place to cut is behind the first character, and a piece that is cut off keeps that whole. */
  lemma FirstWidthIsFirstCut(value: Bytes, i: nat)
    requires 0 < i <= |value| && IsCharBoundary(value, i)
    ensures 0 < FirstWidth(value) <= i && FirstWidth(value[..i]) == FirstWidth(value)
    ensures IsCharBoundary(value, FirstWidth(value))
  {
    var n := Continuations(value[1..]);
    assert i < |value| ==> value[1..][i - 1] == value[i];
    var m := Continuations(value[..i][1..]);
    assert value[..i][1..] == value[1..i];
    if m < n {
      assert IsContinuation(value[1..][m]);
    } else if n < m {
      assert IsContinuation(value[..i][1..][n]);
    }
  }

  /** The last place to cut at or before `index`. */
  method FloorCharBoundary(value: Bytes, index: nat) returns (i: nat)
    requires index <= |value|
    ensures i <= index && IsCharBoundary(value, i)
    ensures forall j :: i < j <= index ==> !IsCharBoundary(value, j)
  {
    i := index;
    while i > 0 && !IsCharBoundary(value, i)
      invariant i <= index && forall j :: i < j <= index ==> !IsCharBoundary(value, j)
    {
      i := i - 1;
    }
  }
}
