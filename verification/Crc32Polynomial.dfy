/**
 The register of `Crc32` against the definition of the code: the remainder of a division of polynomials over the
 field of two elements (section 8 of RFC 1952, which refers to ISO 3309). Bytes and words give their bits from the
 lowest on.
 */
module Crc32Polynomial {
  import opened Common
  import opened Bits
  import opened Crc32

  /** Coefficients, that of the highest power first. */
  type Poly = seq<bool>

  const EXPONENTS: set<nat> := {32, 26, 23, 22, 16, 12, 11, 10, 8, 7, 5, 4, 2, 1, 0}

  function Generator(): (g: Poly)
    ensures |g| == 33
  {
    seq(33, i requires 0 <= i < 33 => 32 - i in EXPONENTS)
  }

  /** `p` with `q` subtracted from its highest coefficients. */
  function Minus(p: Poly, q: Poly): (r: Poly)
    requires |q| <= |p|
    ensures |r| == |p|
  {
    seq(|p|, i requires 0 <= i < |p| => if i < |q| then p[i] != q[i] else p[i])
  }

  /** What a long division by the generator leaves. */
  function Remainder(dividend: Poly): (r: Poly)
    ensures |dividend| >= 32 ==> |r| == 32
    decreases |dividend|
  {
    if |dividend| <= 32 then dividend
    else if dividend[0] then Remainder(Minus(dividend, Generator())[1..])
    else Remainder(dividend[1..])
  }

  function Repeated(bit: bool, n: nat): (p: Poly)
    ensures |p| == n
  {
    seq(n, i requires 0 <= i < n => bit)
  }

  function Complement(p: Poly): (r: Poly)
    ensures |r| == |p|
  {
    Minus(p, Repeated(true, |p|))
  }

  /**
   The code by its definition: the message with 32 zeros behind it and its first 32 bits complemented, divided by
   the generator; the remainder complemented.
   */
  function CodeOf(message: Poly): (code: Poly)
    ensures |code| == 32
  {
    Complement(Remainder(Minus(message + Repeated(false, 32), Repeated(true, 32))))
  }

  // ---- Bytes and words as bits, the lowest first ----

  function ByteBits(byte: Byte): (bits: Poly)
    ensures |bits| == 8
  {
    seq(8, i requires 0 <= i < 8 => Bit(byte, i))
  }

  function MessageBits(data: Bytes): (bits: Poly)
    ensures |bits| == 8 * |data|
  {
    if data == [] then [] else MessageBits(data[..|data| - 1]) + ByteBits(data[|data| - 1])
  }

  function Half(c: bv32): bv32 {
    c >> 1
  }

  function Odd(c: bv32): bool {
    c & 1 == 1
  }

  function Sum(c: bv32, d: bv32): bv32 {
    c ^ d
  }

  function WordBit(c: bv32, i: nat): bool {
    if i == 0 then Odd(c) else WordBit(Half(c), i - 1)
  }

  function WordBits(c: bv32, n: nat): (bits: Poly)
    ensures |bits| == n
  {
    seq(n, i requires 0 <= i < n => WordBit(c, i))
  }

  function ValueOf(bits: Poly): nat {
    if bits == [] then 0 else (if bits[0] then 1 else 0) + 2 * ValueOf(bits[1..])
  }

  // ---- Bits of words ----

  lemma HalfOfSum(c: bv32, d: bv32)
    ensures Half(Sum(c, d)) == Sum(Half(c), Half(d))
    ensures Odd(Sum(c, d)) == (Odd(c) != Odd(d))
  {
  }

  lemma {:induction false} BitOfSum(c: bv32, d: bv32, i: nat)
    ensures WordBit(Sum(c, d), i) == (WordBit(c, i) != WordBit(d, i))
    decreases i
  {
    hide Half, Odd, Sum;
    HalfOfSum(c, d);
    if i > 0 { BitOfSum(Half(c), Half(d), i - 1); }
  }

  lemma NextBit(c: bv32, i: nat)
    ensures WordBit(c, i + 1) == WordBit(Half(c), i)
  {
  }

  function DropDigit(c: bv32): bv32 {
    c >> 4
  }

  /** The word without its low `n` hexadecimal digits. */
  function Without(c: bv32, n: nat): bv32 {
    if n == 0 then c else DropDigit(Without(c, n - 1))
  }

  lemma FourHalves(c: bv32)
    ensures Half(Half(Half(Half(c)))) == DropDigit(c)
  {
  }

  lemma FourOn(c: bv32, i: nat)
    ensures WordBit(c, i + 4) == WordBit(DropDigit(c), i)
  {
    hide WordBit, Half, DropDigit;
    NextBit(c, i + 3);
    NextBit(Half(c), i + 2);
    NextBit(Half(Half(c)), i + 1);
    NextBit(Half(Half(Half(c))), i);
    FourHalves(c);
  }

  lemma {:induction false} DigitBit(c: bv32, n: nat, i: nat)
    ensures WordBit(c, 4 * n + i) == WordBit(Without(c, n), i)
    decreases n
  {
    hide WordBit, DropDigit;
    if n > 0 {
      DigitBit(c, n - 1, i + 4);
      FourOn(Without(c, n - 1), i);
    }
  }

  lemma LowOdds(c: bv32)
    ensures Odd(c) == (c & 1 != 0) && Odd(Half(c)) == (c & 2 != 0)
    ensures Odd(Half(Half(c))) == (c & 4 != 0) && Odd(Half(Half(Half(c)))) == (c & 8 != 0)
  {
  }

  lemma LowFour(c: bv32)
    ensures WordBit(c, 0) == (c & 1 != 0) && WordBit(c, 1) == (c & 2 != 0)
    ensures WordBit(c, 2) == (c & 4 != 0) && WordBit(c, 3) == (c & 8 != 0)
  {
    hide Half, Odd;
    LowOdds(c);
    NextBit(c, 2); NextBit(c, 1); NextBit(c, 0);
    NextBit(Half(c), 1); NextBit(Half(c), 0);
    NextBit(Half(Half(c)), 0);
  }

  lemma TwoDigits(c: bv32, n: nat)
    ensures Without(c, n + 2) == DropDigit(DropDigit(Without(c, n)))
  {
    hide DropDigit;
    assert Without(c, n + 2) == DropDigit(Without(c, n + 1));
  }

  lemma AllDropped(c: bv32)
    ensures DropDigit(DropDigit(DropDigit(DropDigit(DropDigit(DropDigit(DropDigit(DropDigit(c)))))))) == 0
    ensures !Odd(0)
  {
  }

  lemma NoBitAbove(c: bv32)
    ensures !WordBit(c, 32)
  {
    hide DropDigit, Without, Odd;
    DigitBit(c, 8, 0);
    TwoDigits(c, 6);
    TwoDigits(c, 4);
    TwoDigits(c, 2);
    TwoDigits(c, 0);
    NothingDropped(c);
    AllDropped(c);
  }

  lemma NothingDropped(c: bv32)
    ensures Without(c, 0) == c
  {
  }

  lemma PolynomialDigits()
    ensures Without(POLYNOMIAL, 0) == 0xedb8_8320 && Without(POLYNOMIAL, 1) == 0x0edb_8832
    ensures Without(POLYNOMIAL, 2) == 0xed_b883 && Without(POLYNOMIAL, 3) == 0xe_db88
    ensures Without(POLYNOMIAL, 4) == 0xedb8 && Without(POLYNOMIAL, 5) == 0xedb
    ensures Without(POLYNOMIAL, 6) == 0xed && Without(POLYNOMIAL, 7) == 0xe
  {
  }

  /** The constant of the register is the generator without its highest coefficient, in reverse. */
  lemma PolynomialIsGenerator(i: nat)
    requires i < 32
    ensures WordBit(POLYNOMIAL, i) == Generator()[i + 1]
  {
    var c := Without(POLYNOMIAL, i / 4);
    DigitBit(POLYNOMIAL, i / 4, i % 4);
    PolynomialDigits();
    LowFour(c);
    assert c in [0xedb8_8320, 0x0edb_8832, 0xed_b883, 0xe_db88, 0xedb8, 0xedb, 0xed, 0xe];
  }

  lemma OnesDigits()
    ensures Without(0xffff_ffff, 0) == 0xffff_ffff && Without(0xffff_ffff, 1) == 0x0fff_ffff
    ensures Without(0xffff_ffff, 2) == 0xff_ffff && Without(0xffff_ffff, 3) == 0xf_ffff
    ensures Without(0xffff_ffff, 4) == 0xffff && Without(0xffff_ffff, 5) == 0xfff
    ensures Without(0xffff_ffff, 6) == 0xff && Without(0xffff_ffff, 7) == 0xf
  {
  }

  lemma AllOnes(i: nat)
    requires i < 32
    ensures WordBit(0xffff_ffff, i)
  {
    var c := Without(0xffff_ffff, i / 4);
    DigitBit(0xffff_ffff, i / 4, i % 4);
    OnesDigits();
    LowFour(c);
  }

  // ---- The register fed bit by bit ----

  function Fed(c: bv32, bit: bool): bv32 {
    Round(Sum(c, if bit then 1 else 0))
  }

  function FedAll(c: bv32, bits: Poly): bv32
    decreases |bits|
  {
    if bits == [] then c else FedAll(Fed(c, bits[0]), bits[1..])
  }

  lemma RoundHalf(c: bv32)
    ensures Round(c) == if Odd(c) then Sum(Half(c), POLYNOMIAL) else Half(c)
  {
  }

  lemma BitOfOne(bit: bool)
    ensures var w: bv32 := if bit then 1 else 0; Odd(w) == bit && Half(w) == 0
  {
  }

  lemma NothingSummed(c: bv32)
    ensures Sum(c, 0) == c
  {
  }

  /** What one bit does to the register: the division step of its highest coefficient. */
  lemma FedBit(c: bv32, bit: bool, i: nat)
    requires i < 32
    ensures WordBit(Fed(c, bit), i) ==
            ((i < 31 && WordBit(c, i + 1)) != ((WordBit(c, 0) != bit) && Generator()[i + 1]))
  {
    hide Half, Odd, Sum, Round, Generator;
    var w := Sum(c, if bit then 1 else 0);
    RoundHalf(w);
    HalfOfSum(c, if bit then 1 else 0);
    BitOfOne(bit);
    NothingSummed(Half(c));
    BitOfSum(Half(w), POLYNOMIAL, i);
    PolynomialIsGenerator(i);
    NextBit(c, i);
    if i == 31 { NoBitAbove(c); }
  }

  /** Dividing a message into which the register has been added leaves the register fed with the message. */
  lemma {:induction false} FeedingDivides(c: bv32, message: Poly)
    ensures Remainder(Minus(message + Repeated(false, 32), WordBits(c, 32))) == WordBits(FedAll(c, message), 32)
    decreases |message|
  {
    hide Generator;
    var dividend := Minus(message + Repeated(false, 32), WordBits(c, 32));
    if message == [] {
      assert dividend == WordBits(c, 32);
    } else {
      var rest, next := message[1..], Fed(c, message[0]);
      var after := if dividend[0] then Minus(dividend, Generator())[1..] else dividend[1..];
      var expected := Minus(rest + Repeated(false, 32), WordBits(next, 32));
      forall j | 0 <= j < |after|
        ensures after[j] == expected[j]
      {
        if j < 32 { FedBit(c, message[0], j); }
      }
      assert after == expected;
      FeedingDivides(next, rest);
    }
  }

  lemma {:induction false} FedAppend(c: bv32, x: Poly, y: Poly)
    ensures FedAll(c, x + y) == FedAll(FedAll(c, x), y)
    decreases |x|
  {
    hide Fed;
    if x == [] {
      assert x + y == y;
    } else {
      assert (x + y)[1..] == x[1..] + y;
      FedAppend(Fed(c, x[0]), x[1..], y);
    }
  }

  function Halved(x: bv32, n: nat): bv32
    decreases n
  {
    if n == 0 then x else Halved(Half(x), n - 1)
  }

  lemma {:induction false} RoundsFromFront(c: bv32, n: nat)
    requires n > 0
    ensures Rounds(c, n) == Rounds(Round(c), n - 1)
    decreases n
  {
    hide Round;
    if n > 1 { RoundsFromFront(c, n - 1); }
  }

  lemma SumSwap(a: bv32, b: bv32, c: bv32)
    ensures Sum(Sum(a, b), c) == Sum(Sum(a, c), b)
  {
    XorSwap(a, b, c);
    assert Sum(a, b) == a ^ b && Sum(a, c) == a ^ c;
  }

  lemma XorSwap(a: bv32, b: bv32, c: bv32)
    ensures (a ^ b) ^ c == (a ^ c) ^ b
  {
  }

  lemma RoundOfSum(c: bv32, x: bv32)
    ensures Round(Sum(c, x)) == Sum(Fed(c, Odd(x)), Half(x))
  {
    hide Half, Odd, Sum, Round;
    var w := if Odd(x) then 1 else 0;
    RoundHalf(Sum(c, x));
    RoundHalf(Sum(c, w));
    HalfOfSum(c, x);
    HalfOfSum(c, w);
    BitOfOne(Odd(x));
    NothingSummed(Half(c));
    SumSwap(Half(c), Half(x), POLYNOMIAL);
  }

  /** Bits that are added to the register at once are fed one after the other. */
  lemma {:induction false} RoundsFeed(c: bv32, x: bv32, n: nat)
    ensures Rounds(Sum(c, x), n) == Sum(FedAll(c, WordBits(x, n)), Halved(x, n))
    decreases n
  {
    hide Half, Odd, Sum, Round, Fed;
    if n > 0 {
      RoundsFromFront(Sum(c, x), n);
      RoundOfSum(c, x);
      RoundsFeed(Fed(c, Odd(x)), Half(x), n - 1);
      assert WordBits(x, n)[0] == Odd(x);
      assert WordBits(x, n)[1..] == WordBits(Half(x), n - 1);
    }
  }

  // ---- Bytes ----

  function Mask(n: nat): bv32 {
    if n == 0 then 0xffff_ffff else Mask(n - 1) << 1
  }

  function Doubled(w: bv32, bit: bool): bv32 {
    (w << 1) | if bit then 1 else 0
  }

  lemma DoubledStep(w: bv32, bit: bool, mask: bv32)
    requires w & mask == 0
    ensures Doubled(w, bit) & (mask << 1) == 0
    ensures w & 0x8000_0000 == 0 ==> Half(Doubled(w, bit)) == w && Odd(Doubled(w, bit)) == bit
  {
  }

  lemma WidenedDoubles(byte: Byte)
    ensures Widened(byte) == Doubled(Widened(byte / 2), byte % 2 == 1)
  {
    if byte == 0 { ZeroDoubled(); }
  }

  lemma ZeroDoubled()
    ensures Doubled(0, false) == 0
  {
  }

  lemma {:induction false} WidenedMask(byte: Byte, n: nat)
    requires byte < Power(n)
    ensures Widened(byte) & Mask(n) == 0
    decreases n
  {
    if n == 0 {
      NoneMasked();
    } else {
      hide Widened;
      WidenedMask(byte / 2, n - 1);
      WidenedDoubles(byte);
      DoubledStep(Widened(byte / 2), byte % 2 == 1, Mask(n - 1));
    }
  }

  lemma NoneMasked()
    ensures Widened(0) & 0xffff_ffff == 0
  {
  }

  lemma MaskedTop(w: bv32)
    requires w & 0xffff_ff00 == 0
    ensures w & 0x8000_0000 == 0
  {
  }

  lemma MaskOfByte()
    ensures Mask(8) == 0xffff_ff00
  {
    assert Mask(4) == 0xffff_fff0;
  }

  lemma WidenedHalf(byte: Byte)
    ensures Half(Widened(byte)) == Widened(byte / 2) && Odd(Widened(byte)) == (byte % 2 == 1)
  {
    hide Widened, Half, Odd, Doubled, Mask;
    Powers();
    WidenedMask(byte / 2, 8);
    MaskOfByte();
    MaskedTop(Widened(byte / 2));
    WidenedDoubles(byte);
    DoubledStep(Widened(byte / 2), byte % 2 == 1, Mask(8));
  }

  lemma {:induction false} WidenedBits(byte: Byte, n: nat)
    requires byte < Power(n)
    ensures Halved(Widened(byte), n) == 0
    ensures forall i :: 0 <= i < n ==> WordBit(Widened(byte), i) == Bit(byte, i)
    decreases n
  {
    hide Half, Odd;
    if n > 0 {
      hide Widened;
      WidenedHalf(byte);
      WidenedBits(byte / 2, n - 1);
      forall i | 0 < i < n
        ensures WordBit(Widened(byte), i) == Bit(byte, i)
      {
        assert WordBit(Widened(byte / 2), i - 1) == Bit(byte / 2, i - 1);
      }
    }
  }

  lemma ByteFeeds(c: bv32, byte: Byte)
    ensures ByteUpdate(c, byte) == FedAll(c, ByteBits(byte))
  {
    hide Sum, Widened, Rounds, Halved, FedAll;
    Powers();
    WidenedBits(byte, 8);
    RoundsFeed(c, Widened(byte), 8);
    assert WordBits(Widened(byte), 8) == ByteBits(byte);
    NothingSummed(FedAll(c, ByteBits(byte)));
    UpdateSums(c, byte);
  }

  lemma UpdateSums(c: bv32, byte: Byte)
    ensures ByteUpdate(c, byte) == Rounds(Sum(c, Widened(byte)), 8)
  {
    hide Rounds, Widened;
  }

  lemma {:induction false} MessageFeeds(c: bv32, data: Bytes)
    ensures Update(c, data) == FedAll(c, MessageBits(data))
    decreases |data|
  {
    hide ByteUpdate;
    if data != [] {
      var front, last := data[..|data| - 1], data[|data| - 1];
      MessageFeeds(c, front);
      ByteFeeds(Update(c, front), last);
      FedAppend(c, MessageBits(front), ByteBits(last));
    }
  }

  // ---- The checksum ----

  lemma FinishedBits(c: bv32)
    ensures WordBits(Finished(c), 32) == Complement(WordBits(c, 32))
  {
    hide Sum;
    forall i | 0 <= i < 32
      ensures WordBit(Finished(c), i) == !WordBit(c, i)
    {
      FinishedSums(c);
      BitOfSum(c, 0xffff_ffff, i);
      AllOnes(i);
    }
  }

  lemma FinishedSums(c: bv32)
    ensures Finished(c) == Sum(c, 0xffff_ffff)
  {
  }

  lemma {:induction false} LowBitsAreValue(c: bv32, n: nat)
    ensures LowBits(c, n) == ValueOf(WordBits(c, n))
    decreases n
  {
    if n > 0 {
      LowBitsHalve(c, n);
      hide LowBits, Half, Odd;
      assert WordBits(c, n)[1..] == WordBits(Half(c), n - 1);
      LowBitsAreValue(Half(c), n - 1);
    }
  }

  lemma LowBitsHalve(c: bv32, n: nat)
    requires n > 0
    ensures LowBits(c, n) == (if Odd(c) then 1 else 0) + 2 * LowBits(Half(c), n - 1)
  {
  }

  /** For every message, the checksum is the code by its definition: as a word, and as a number. */
  lemma ChecksumIsRemainder(data: Bytes)
    ensures WordBits(Finished(Update(START, data)), 32) == CodeOf(MessageBits(data))
    ensures Checksum(data) == ValueOf(CodeOf(MessageBits(data)))
  {
    hide Update, FedAll, Remainder, MessageBits, Finished, LowBits, ValueOf;
    MessageFeeds(START, data);
    FeedingDivides(START, MessageBits(data));
    assert WordBits(START, 32) == Repeated(true, 32) by {
      forall i | 0 <= i < 32
        ensures WordBit(START, i)
      {
        AllOnes(i);
      }
    }
    FinishedBits(Update(START, data));
    LowBitsAreValue(Finished(Update(START, data)), 32);
  }

  // ---- What the checksum detects ----

  ghost predicate Alike(c: bv32, d: bv32) {
    forall i :: 0 <= i < 32 ==> WordBit(c, i) == WordBit(d, i)
  }

  /** Registers that end alike after up to 32 bits began apart exactly where those bits differ. */
  lemma {:induction false} BurstShows(c: bv32, d: bv32, x: Poly, y: Poly)
    requires |x| == |y| <= 32 && Alike(FedAll(c, x), FedAll(d, y))
    ensures forall i :: 0 <= i < 32 ==> (WordBit(c, i) != WordBit(d, i) <==> i < |x| && x[i] != y[i])
    decreases |x|
  {
    hide Fed, WordBit;
    if x != [] {
      BurstShows(Fed(c, x[0]), Fed(d, y[0]), x[1..], y[1..]);
      assert Generator()[32];
      FedBit(c, x[0], 31);
      FedBit(d, y[0], 31);
      forall i | 0 < i < 32
        ensures WordBit(c, i) != WordBit(d, i) <==> i < |x| && x[i] != y[i]
      {
        FedBit(c, x[0], i - 1);
        FedBit(d, y[0], i - 1);
      }
    }
  }

  lemma {:induction false} SuffixShows(c: bv32, d: bv32, bits: Poly)
    requires Alike(FedAll(c, bits), FedAll(d, bits))
    ensures Alike(c, d)
    decreases |bits|
  {
    hide Fed, WordBit;
    if bits != [] {
      SuffixShows(Fed(c, bits[0]), Fed(d, bits[0]), bits[1..]);
      assert [bits[0]][1..] == [];
      BurstShows(c, d, [bits[0]], [bits[0]]);
    }
  }

  lemma FedInThree(c: bv32, bits: Poly, a: nat, b: nat)
    requires a <= b <= |bits|
    ensures FedAll(c, bits) == FedAll(FedAll(FedAll(c, bits[..a]), bits[a..b]), bits[b..])
  {
    hide FedAll;
    assert bits[..b] == bits[..a] + bits[a..b];
    assert bits == bits[..b] + bits[b..];
    FedAppend(c, bits[..b], bits[b..]);
    FedAppend(c, bits[..a], bits[a..b]);
  }

  lemma BurstIsSeen(c: bv32, x: Poly, y: Poly, at: nat)
    requires |x| == |y| && forall i :: 0 <= i < |x| && !(at <= i < at + 32) ==> x[i] == y[i]
    requires Alike(FedAll(c, x), FedAll(c, y))
    ensures x == y
  {
    hide FedAll, Alike;
    var a, b := Min(at, |x|), Min(at + 32, |x|);
    assert x[..a] == y[..a] && x[b..] == y[b..];
    FedInThree(c, x, a, b);
    FedInThree(c, y, a, b);
    var middle := FedAll(c, x[..a]);
    SuffixShows(FedAll(middle, x[a..b]), FedAll(middle, y[a..b]), x[b..]);
    BurstShows(middle, middle, x[a..b], y[a..b]);
    forall i | 0 <= i < |x|
      ensures x[i] == y[i]
    {
      if a <= i < b { assert x[a..b][i - a] == y[a..b][i - a]; }
    }
  }

  lemma {:induction false} LowBitsBit(c: bv32, n: nat, i: nat)
    requires i < n
    ensures Bit(LowBits(c, n), i) == WordBit(c, i)
    decreases n
  {
    LowBitsHalve(c, n);
    hide LowBits, Half, Odd;
    if i > 0 { LowBitsBit(Half(c), n - 1, i - 1); }
  }

  lemma {:induction false} MessageOfBits(x: Bytes, y: Bytes)
    requires |x| == |y| && MessageBits(x) == MessageBits(y)
    ensures x == y
    decreases |x|
  {
    if x != [] {
      var n := |x| - 1;
      assert MessageBits(x)[..8 * n] == MessageBits(x[..n]) && MessageBits(y)[..8 * n] == MessageBits(y[..n]);
      MessageOfBits(x[..n], y[..n]);
      assert MessageBits(x)[8 * n..] == ByteBits(x[n]) && MessageBits(y)[8 * n..] == ByteBits(y[n]);
      assert forall i :: 0 <= i < 8 ==> ByteBits(x[n])[i] == Bit(x[n], i) && ByteBits(y[n])[i] == Bit(y[n], i);
      Powers();
      SameBits(x[n], y[n], 8);
    }
  }

  /** Two messages of one length that differ, but only inside 32 neighbouring bits, have different checksums. */
  lemma BurstIsDetected(x: Bytes, y: Bytes, at: nat)
    requires |x| == |y| && x != y
    requires forall i :: 0 <= i < 8 * |x| && !(at <= i < at + 32) ==> MessageBits(x)[i] == MessageBits(y)[i]
    ensures Checksum(x) != Checksum(y)
  {
    hide Update, FedAll, MessageBits, Finished, LowBits;
    if Checksum(x) == Checksum(y) {
      var c, d := Update(START, x), Update(START, y);
      forall i | 0 <= i < 32
        ensures WordBit(c, i) == WordBit(d, i)
      {
        LowBitsBit(Finished(c), 32, i);
        LowBitsBit(Finished(d), 32, i);
        FinishedBits(c);
        FinishedBits(d);
        assert WordBits(Finished(c), 32)[i] == !WordBit(c, i) && WordBits(Finished(d), 32)[i] == !WordBit(d, i);
      }
      MessageFeeds(START, x);
      MessageFeeds(START, y);
      BurstIsSeen(START, MessageBits(x), MessageBits(y), at);
      MessageOfBits(x, y);
    }
  }
}
