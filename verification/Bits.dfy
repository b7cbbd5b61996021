/** Bits and two-bit digits of numbers, counted from the low end. */
module Bits {
  import opened Common

  function Bit(m: nat, i: nat): bool {
    if i == 0 then m % 2 == 1 else Bit(m / 2, i - 1)
  }

  /** `m | 1 << i` */
  function SetBit(m: nat, i: nat): nat {
    if i == 0 then m / 2 * 2 + 1 else SetBit(m / 2, i - 1) * 2 + m % 2
  }

  /** `m & !(1 << i)` */
  function ClearBit(m: nat, i: nat): nat {
    if i == 0 then m / 2 * 2 else ClearBit(m / 2, i - 1) * 2 + m % 2
  }

  function Power(i: nat): (p: nat)
    ensures p > 0
  {
    if i == 0 then 1 else 2 * Power(i - 1)
  }

  lemma {:induction false} SetBitSets(m: nat, i: nat, j: nat)
    ensures Bit(SetBit(m, i), j) <==> j == i || Bit(m, j)
    decreases i
  {
    if i > 0 {
      assert SetBit(m, i) / 2 == SetBit(m / 2, i - 1);
      if j > 0 { SetBitSets(m / 2, i - 1, j - 1); }
    }
  }

  lemma {:induction false} ClearBitClears(m: nat, i: nat, j: nat)
    ensures Bit(ClearBit(m, i), j) <==> j != i && Bit(m, j)
    decreases i
  {
    if i > 0 {
      assert ClearBit(m, i) / 2 == ClearBit(m / 2, i - 1);
      if j > 0 { ClearBitClears(m / 2, i - 1, j - 1); }
    }
  }

  lemma {:induction false} BitsStayBelow(m: nat, i: nat, n: nat)
    requires m < Power(n) && i < n
    ensures SetBit(m, i) < Power(n) && ClearBit(m, i) < Power(n)
  {
    if i > 0 { BitsStayBelow(m / 2, i - 1, n - 1); }
  }

  lemma {:induction false} NoBits(j: nat)
    ensures !Bit(0, j)
  {
    if j > 0 { NoBits(j - 1); }
  }

  /** A number is its bits. */
  lemma {:induction false} SameBits(x: nat, y: nat, n: nat)
    requires x < Power(n) && y < Power(n) && forall i :: 0 <= i < n ==> (Bit(x, i) <==> Bit(y, i))
    ensures x == y
  {
    if n > 0 {
      forall i | 0 <= i < n - 1
        ensures Bit(x / 2, i) <==> Bit(y / 2, i)
      {
        assert Bit(x, i + 1) <==> Bit(y, i + 1);
      }
      SameBits(x / 2, y / 2, n - 1);
      assert Bit(x, 0) <==> Bit(y, 0);
    }
  }

  lemma Powers()
    ensures Power(4) == 16 && Power(8) == 256 && Power(32) == U32_LIMIT
  {
    assert Power(12) == 0x1000 && Power(16) == 0x1_0000 && Power(20) == 0x10_0000;
    assert Power(24) == 0x100_0000 && Power(28) == 0x1000_0000;
  }

  function TrailingZeros(m: nat): (n: nat)
    requires m > 0
    ensures Bit(m, n) && forall j :: 0 <= j < n ==> !Bit(m, j)
  {
    if m % 2 == 1 then 0 else 1 + TrailingZeros(m / 2)
  }

  /** For a 32-bit word, 31 less its leading zeros. */
  function HighestBit(m: nat): (n: nat)
    requires m > 0
    ensures Bit(m, n) && forall j :: j > n ==> !Bit(m, j)
  {
    if m == 1 then NothingAboveOne(); 0 else 1 + HighestBit(m / 2)
  }

  lemma NothingAboveOne()
    ensures forall j :: j > 0 ==> !Bit(1, j)
  {
    forall j | j > 0
      ensures !Bit(1, j)
    {
      NoBits(j - 1);
    }
  }

  // ---- Two-bit digits ----

  type Gray = n: int | 0 <= n < 4

  function OrGray(a: Gray, b: Gray): Gray {
    if a == b || b == 0 then a else if a == 0 then b else 3
  }

  function Digit(m: nat, i: nat): Gray {
    if i == 0 then m % 4 else Digit(m / 4, i - 1)
  }

  /** `m | v << 2 * i` */
  function OrDigit(m: nat, i: nat, v: Gray): nat {
    if i == 0 then m / 4 * 4 + OrGray(m % 4, v) else OrDigit(m / 4, i - 1, v) * 4 + m % 4
  }

  lemma {:induction false} OrDigitOrs(m: nat, i: nat, v: Gray, j: nat)
    ensures Digit(OrDigit(m, i, v), j) == if j == i then OrGray(Digit(m, i), v) else Digit(m, j)
    decreases i
  {
    if i > 0 {
      assert OrDigit(m, i, v) / 4 == OrDigit(m / 4, i - 1, v);
      if j > 0 { OrDigitOrs(m / 4, i - 1, v, j - 1); }
    }
  }

  lemma {:induction false} NoDigits(i: nat)
    ensures Digit(0, i) == 0
  {
    if i > 0 { NoDigits(i - 1); }
  }

  function Quad(n: nat): (p: nat)
    ensures p > 0
  {
    if n == 0 then 1 else 4 * Quad(n - 1)
  }

  lemma {:induction false} DigitsStayBelow(m: nat, i: nat, v: Gray, n: nat)
    requires m < Quad(n) && i < n
    ensures OrDigit(m, i, v) < Quad(n)
  {
    hide OrGray;
    assert Quad(n) == 4 * Quad(n - 1) && m / 4 < Quad(n - 1);
    if i > 0 { DigitsStayBelow(m / 4, i - 1, v, n - 1); }
  }

  lemma Quads()
    ensures Quad(4) == 256
  {
    assert Quad(2) == 16;
  }

  lemma {:induction false} SameDigits(x: nat, y: nat, n: nat)
    requires x < Quad(n) && y < Quad(n) && forall i :: 0 <= i < n ==> Digit(x, i) == Digit(y, i)
    ensures x == y
  {
    if n > 0 {
      forall i | 0 <= i < n - 1
        ensures Digit(x / 4, i) == Digit(y / 4, i)
      {
        assert Digit(x, i + 1) == Digit(y, i + 1);
      }
      SameDigits(x / 4, y / 4, n - 1);
      assert Digit(x, 0) == Digit(y, 0);
    }
  }
}
