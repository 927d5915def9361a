/** The number behind the residue: thirty-two clocks of an all-ones register,
    worked out digit by digit. */
module ResidueValue {
  import opened Bits
  import opened Crc32

  function Differ(p: nat, q: nat): nat {
    if p == q then 0 else 1
  }

  // Exclusive or of two hexadecimal digits.
  function Digit(x: nat, y: nat): nat {
    8 * Differ(x / 8, y / 8) + 4 * Differ(x / 4 % 2, y / 4 % 2)
      + 2 * Differ(x / 2 % 2, y / 2 % 2) + Differ(x % 2, y % 2)
  }

  // The same with the generator's digits, without division: 0xE is 15 - (x ^ 1),
  // 0xD is 15 - (x ^ 2) and 0xB is (x ^ 3) ^ 8.
  function One(x: int): int {
    if x == 0 || x == 2 || x == 4 || x == 6 || x == 8 || x == 10 || x == 12 || x == 14 then x + 1 else x - 1
  }

  function Two(x: int): int {
    if x < 2 || 4 <= x < 6 || 8 <= x < 10 || 12 <= x < 14 then x + 2 else x - 2
  }

  function Three(x: int): int {
    if x < 4 then 3 - x else if x < 8 then 11 - x else if x < 12 then 19 - x else 27 - x
  }

  function Eight(x: int): int {
    if x < 8 then x + 8 else x - 8
  }

  lemma DigitBits(x: nat, x3: nat, x2: nat, x1: nat, x0: nat, y: nat, y3: nat, y2: nat, y1: nat, y0: nat)
    requires x3 < 2 && x2 < 2 && x1 < 2 && x0 < 2 && y3 < 2 && y2 < 2 && y1 < 2 && y0 < 2
    requires x == 8 * x3 + 4 * x2 + 2 * x1 + x0
    requires y == 8 * y3 + 4 * y2 + 2 * y1 + y0
    ensures Digit(x, y) == 8 * Differ(x3, y3) + 4 * Differ(x2, y2) + 2 * Differ(x1, y1) + Differ(x0, y0)
  {
    hide Differ;
    assert x / 2 == 4 * x3 + 2 * x2 + x1 && y / 2 == 4 * y3 + 2 * y2 + y1;
    assert x / 4 == 2 * x3 + x2 && y / 4 == 2 * y3 + y2;
    assert x / 8 == x3 && y / 8 == y3;
  }

  lemma DifferBit(b: nat)
    requires b < 2
    ensures Differ(b, 0) == b && Differ(b, 1) == 1 - b
  {
  }

  lemma FourBits(x: nat) returns (b3: nat, b2: nat, b1: nat, b0: nat)
    requires x < 16
    ensures b3 < 2 && b2 < 2 && b1 < 2 && b0 < 2
    ensures x == 8 * b3 + 4 * b2 + 2 * b1 + b0
  {
    b3, b2, b1, b0 := x / 8, x / 4 % 2, x / 2 % 2, x % 2;
  }

  lemma DigitsOfPoly(x: nat)
    requires x < 16
    ensures Digit(x, 0xE) == 15 - One(x)
    ensures Digit(x, 0xD) == 15 - Two(x)
    ensures Digit(x, 0xB) == Eight(Three(x))
    ensures Digit(x, 0x8) == Eight(x)
    ensures Digit(x, 0x3) == Three(x)
    ensures Digit(x, 0x2) == Two(x)
    ensures Digit(x, 0x0) == x
  {
    hide *;
    var b3, b2, b1, b0 := FourBits(x);
    DifferBit(b3);
    DifferBit(b2);
    DifferBit(b1);
    DifferBit(b0);
    DigitBits(x, b3, b2, b1, b0, 0xE, 1, 1, 1, 0);
    DigitBits(x, b3, b2, b1, b0, 0xD, 1, 1, 0, 1);
    DigitBits(x, b3, b2, b1, b0, 0xB, 1, 0, 1, 1);
    DigitBits(x, b3, b2, b1, b0, 0x8, 1, 0, 0, 0);
    DigitBits(x, b3, b2, b1, b0, 0x3, 0, 0, 1, 1);
    DigitBits(x, b3, b2, b1, b0, 0x2, 0, 0, 1, 0);
    DigitBits(x, b3, b2, b1, b0, 0x0, 0, 0, 0, 0);
    Flips(b3, b2, b1, b0);
  }

  lemma Flips(b3: nat, b2: nat, b1: nat, b0: nat)
    requires b3 < 2 && b2 < 2 && b1 < 2 && b0 < 2
    ensures var x := 8 * b3 + 4 * b2 + 2 * b1 + b0;
      && One(x) == 8 * b3 + 4 * b2 + 2 * b1 + (1 - b0)
      && Two(x) == 8 * b3 + 4 * b2 + 2 * (1 - b1) + b0
      && Three(x) == 8 * b3 + 4 * b2 + 2 * (1 - b1) + (1 - b0)
      && Eight(x) == 8 * (1 - b3) + 4 * b2 + 2 * b1 + b0
      && Eight(Three(x)) == 8 * (1 - b3) + 4 * b2 + 2 * (1 - b1) + (1 - b0)
  {
  }

  lemma XorBit(a: nat, b: nat, x: nat, y: nat)
    requires x < 2 && y < 2
    ensures Xor(2 * a + x, 2 * b + y) == 2 * Xor(a, b) + Differ(x, y)
  {
    XorHalf(2 * a + x, 2 * b + y);
  }

  lemma XorDigit(a: nat, b: nat, x: nat, y: nat)
    requires x < 16 && y < 16
    ensures Xor(16 * a + x, 16 * b + y) == 16 * Xor(a, b) + Digit(x, y)
  {
    hide *;
    var x3, x2, x1, x0 := FourBits(x);
    var y3, y2, y1, y0 := FourBits(y);
    XorBit(a, b, x3, y3);
    XorBit(2 * a + x3, 2 * b + y3, x2, y2);
    XorBit(4 * a + 2 * x3 + x2, 4 * b + 2 * y3 + y2, x1, y1);
    XorBit(8 * a + 4 * x3 + 2 * x2 + x1, 8 * b + 4 * y3 + 2 * y2 + y1, x0, y0);
    DigitBits(x, x3, x2, x1, x0, y, y3, y2, y1, y0);
  }

  // Two digits onto what is above them.
  lemma XorDigitPair(u: nat, v: nat, a: nat, b: nat, x1: nat, x0: nat, y1: nat, y0: nat)
    requires x1 < 16 && x0 < 16 && y1 < 16 && y0 < 16
    requires u == 0x100 * a + 0x10 * x1 + x0
    requires v == 0x100 * b + 0x10 * y1 + y0
    ensures Xor(u, v) == 0x100 * Xor(a, b) + 0x10 * Digit(x1, y1) + Digit(x0, y0)
  {
    hide *;
    XorDigit(a, b, x1, y1);
    XorDigit(16 * a + x1, 16 * b + y1, x0, y0);
  }

  lemma XorDigits(u: nat, v: nat, a: nat, b: nat, x3: nat, x2: nat, x1: nat, x0: nat,
                  y3: nat, y2: nat, y1: nat, y0: nat)
    requires x3 < 16 && x2 < 16 && x1 < 16 && x0 < 16 && y3 < 16 && y2 < 16 && y1 < 16 && y0 < 16
    requires u == 0x1_0000 * a + 0x1000 * x3 + 0x100 * x2 + 0x10 * x1 + x0
    requires v == 0x1_0000 * b + 0x1000 * y3 + 0x100 * y2 + 0x10 * y1 + y0
    ensures Xor(u, v) == 0x1_0000 * Xor(a, b)
      + 0x1000 * Digit(x3, y3) + 0x100 * Digit(x2, y2) + 0x10 * Digit(x1, y1) + Digit(x0, y0)
  {
    hide *;
    var p, q := 0x100 * a + 0x10 * x3 + x2, 0x100 * b + 0x10 * y3 + y2;
    XorDigitPair(p, q, a, b, x3, x2, y3, y2);
    XorDigitPair(u, v, p, q, x1, x0, y1, y0);
  }

  lemma XorUpper(u: nat, d7: nat, d6: nat, d5: nat, d4: nat)
    requires d7 < 16 && d6 < 16 && d5 < 16 && d4 < 16
    requires u == 0x1000 * d7 + 0x100 * d6 + 0x10 * d5 + d4
    ensures Xor(u, 0xEDB8) == 0x1000 * Digit(d7, 0xE) + 0x100 * Digit(d6, 0xD) + 0x10 * Digit(d5, 0xB) + Digit(d4, 0x8)
  {
    XorOfZeros();
    hide *;
    XorDigits(u, 0xEDB8, 0, 0, d7, d6, d5, d4, 0xE, 0xD, 0xB, 0x8);
  }

  lemma UpperDigits(u: nat, d7: nat, d6: nat, d5: nat, d4: nat)
    requires d7 < 16 && d6 < 16 && d5 < 16 && d4 < 16
    requires u == 0x1000 * d7 + 0x100 * d6 + 0x10 * d5 + d4
    ensures Xor(u, 0xEDB8) == 0x1000 * (15 - One(d7)) + 0x100 * (15 - Two(d6)) + 0x10 * Eight(Three(d5)) + Eight(d4)
  {
    hide *;
    XorUpper(u, d7, d6, d5, d4);
    DigitsOfPoly(d7);
    DigitsOfPoly(d6);
    DigitsOfPoly(d5);
    DigitsOfPoly(d4);
  }

  lemma XorPoly(h: nat, d3: nat, d2: nat, d1: nat, d0: nat)
    requires d3 < 16 && d2 < 16 && d1 < 16 && d0 < 16
    ensures Xor(0x1_0000 * h + 0x1000 * d3 + 0x100 * d2 + 0x10 * d1 + d0, 0xEDB8_8320)
      == 0x1_0000 * Xor(h, 0xEDB8) + 0x1000 * Eight(d3) + 0x100 * Three(d2) + 0x10 * Two(d1) + d0
  {
    hide *;
    XorDigits(0x1_0000 * h + 0x1000 * d3 + 0x100 * d2 + 0x10 * d1 + d0, 0xEDB8_8320, h, 0xEDB8,
      d3, d2, d1, d0, 0x8, 0x3, 0x2, 0x0);
    DigitsOfPoly(d3);
    DigitsOfPoly(d2);
    DigitsOfPoly(d1);
    DigitsOfPoly(d0);
  }

  // One clock of an odd register whose half has the given digits.
  lemma OddClock(c: u32, d7: nat, d6: nat, d5: nat, d4: nat, d3: nat, d2: nat, d1: nat, d0: nat)
    requires d7 < 16 && d6 < 16 && d5 < 16 && d4 < 16 && d3 < 16 && d2 < 16 && d1 < 16 && d0 < 16
    requires c as int == 1 + 2 * (0x1000_0000 * d7 + 0x100_0000 * d6 + 0x10_0000 * d5 + 0x1_0000 * d4
      + 0x1000 * d3 + 0x100 * d2 + 0x10 * d1 + d0)
    ensures Shift(c) as int == 0x1000_0000 * (15 - One(d7)) + 0x100_0000 * (15 - Two(d6))
      + 0x10_0000 * Eight(Three(d5)) + 0x1_0000 * Eight(d4)
      + 0x1000 * Eight(d3) + 0x100 * Three(d2) + 0x10 * Two(d1) + d0
  {
    OddHalf(c);
    hide *;
    var h := 0x1000 * d7 + 0x100 * d6 + 0x10 * d5 + d4;
    assert c / 2 == 0x1_0000 * h + 0x1000 * d3 + 0x100 * d2 + 0x10 * d1 + d0;
    XorPoly(h, d3, d2, d1, d0);
    UpperDigits(h, d7, d6, d5, d4);
  }

  lemma XorOfZeros()
    ensures Xor(0, 0) == 0
  {
  }

  lemma OddHalf(c: u32)
    requires c % 2 == 1
    ensures Shift(c) == Xor(c / 2, POLY)
  {
  }

  lemma EvenClock(c: u32)
    requires c % 2 == 0
    ensures Shift(c) == c / 2
  {
    XorZero(c / 2);
  }

  lemma Clocks0()
    ensures Steps(0xFFFFFFFF, 4) == 0xB2420DE3
  {
    hide Shift;
    OddClock(0xFFFFFFFF, 0x7, 0xF, 0xF, 0xF, 0xF, 0xF, 0xF, 0xF);
    OddClock(0x92477CDF, 0x4, 0x9, 0x2, 0x3, 0xB, 0xE, 0x6, 0xF);
    OddClock(0xA49B3D4F, 0x5, 0x2, 0x4, 0xD, 0x9, 0xE, 0xA, 0x7);
    OddClock(0xBFF51D87, 0x5, 0xF, 0xF, 0xA, 0x8, 0xE, 0xC, 0x3);
  }

  lemma Clocks1()
    ensures Steps(0xB2420DE3, 4) == 0x2DFD1072
  {
    hide Shift;
    OddClock(0xB2420DE3, 0x5, 0x9, 0x2, 0x1, 0x0, 0x6, 0xF, 0x1);
    OddClock(0xB49985D1, 0x5, 0xA, 0x4, 0xC, 0xC, 0x2, 0xE, 0x8);
    EvenClock(0xB7F441C8);
    EvenClock(0x5BFA20E4);
  }

  lemma Clocks2()
    ensures Steps(0x2DFD1072, 4) == 0x39B1F1CF
  {
    hide Shift;
    EvenClock(0x2DFD1072);
    OddClock(0x16FE8839, 0x0, 0xB, 0x7, 0xF, 0x4, 0x4, 0x1, 0xC);
    EvenClock(0xE6C7C73C);
    EvenClock(0x7363E39E);
  }

  lemma Clocks3()
    ensures Steps(0x39B1F1CF, 4) == 0xBE26ED00
  {
    hide Shift;
    OddClock(0x39B1F1CF, 0x1, 0xC, 0xD, 0x8, 0xF, 0x8, 0xE, 0x7);
    OddClock(0xF1607BC7, 0x7, 0x8, 0xB, 0x0, 0x3, 0xD, 0xE, 0x3);
    OddClock(0x9508BEC3, 0x4, 0xA, 0x8, 0x4, 0x5, 0xF, 0x6, 0x1);
    OddClock(0xA73CDC41, 0x5, 0x3, 0x9, 0xE, 0x6, 0xE, 0x2, 0x0);
  }

  lemma Clocks4()
    ensures Steps(0xBE26ED00, 4) == 0xBE26ED0
  {
    hide Shift;
    EvenClock(0xBE26ED00);
    EvenClock(0x5F137680);
    EvenClock(0x2F89BB40);
    EvenClock(0x17C4DDA0);
  }

  lemma Clocks5()
    ensures Steps(0xBE26ED0, 4) == 0xBE26ED
  {
    hide Shift;
    EvenClock(0xBE26ED0);
    EvenClock(0x5F13768);
    EvenClock(0x2F89BB4);
    EvenClock(0x17C4DDA);
  }

  lemma Clocks6()
    ensures Steps(0xBE26ED, 4) == 0x86D830BA
  {
    hide Shift;
    OddClock(0xBE26ED, 0x0, 0x0, 0x5, 0xF, 0x1, 0x3, 0x7, 0x6);
    EvenClock(0xEDE79056);
    OddClock(0x76F3C82B, 0x3, 0xB, 0x7, 0x9, 0xE, 0x4, 0x1, 0x5);
    OddClock(0xD6C16735, 0x6, 0xB, 0x6, 0x0, 0xB, 0x3, 0x9, 0xA);
  }

  lemma Clocks7()
    ensures Steps(0x86D830BA, 4) == 0xDEBB20E3
  {
    hide Shift;
    EvenClock(0x86D830BA);
    OddClock(0x436C185D, 0x2, 0x1, 0xB, 0x6, 0x0, 0xC, 0x2, 0xE);
    EvenClock(0xCC0E8F0E);
    OddClock(0x66074787, 0x3, 0x3, 0x0, 0x3, 0xA, 0x3, 0xC, 0x3);
  }

  lemma {:induction false} StepsAdd(c: u32, m: nat, n: nat)
    ensures Steps(c, m + n) == Steps(Steps(c, m), n)
    decreases n
  {
    if n > 0 {
      StepsAdd(c, m, n - 1);
    }
  }

  lemma ThirtyTwoClocks()
    ensures Steps(0xFFFFFFFF, 32) == 0xDEBB20E3
  {
    Clocks0();
    Clocks1();
    Clocks2();
    Clocks3();
    Clocks4();
    Clocks5();
    Clocks6();
    Clocks7();
    hide *;
    StepsAdd(0xFFFFFFFF, 4, 28);
    StepsAdd(0xB2420DE3, 4, 24);
    StepsAdd(0x2DFD1072, 4, 20);
    StepsAdd(0x39B1F1CF, 4, 16);
    StepsAdd(0xBE26ED00, 4, 12);
    StepsAdd(0xBE26ED0, 4, 8);
    StepsAdd(0xBE26ED, 4, 4);
  }

  lemma {:induction false} XorOfOnes(c: nat, n: nat)
    requires c < Pow2(n)
    ensures Xor(c, Pow2(n) - 1) == Pow2(n) - 1 - c
    decreases n
  {
    if n > 0 {
      XorOfOnes(c / 2, n - 1);
      XorHalf(c, Pow2(n) - 1);
      assert (Pow2(n) - 1) / 2 == Pow2(n - 1) - 1;
    }
  }

  lemma ZerosAfterInit()
    ensures Feed(INIT, [0, 0, 0, 0]) == Steps(0xFFFFFFFF, 32)
  {
    assert LittleEndian32(0) == [0, 0, 0, 0];
    hide *;
    FeedWord(INIT, 0);
    XorZero(INIT);
  }

  lemma ComplementOf(c: u32)
    ensures Xor32(c, 0xFFFF_FFFF) as int == 0xFFFF_FFFF - c
  {
    Pow2Of32();
    hide Xor;
    hide Pow2;
    XorOfOnes(c, 32);
  }

  /** The residue, as a number. */
  lemma ResidueIsTheConstant()
    ensures Residue() == 0x2144DF1C
  {
    assert Residue() == Xor32(Feed(INIT, [0, 0, 0, 0]), 0xFFFF_FFFF);
    hide *;
    ZerosAfterInit();
    ThirtyTwoClocks();
    ComplementOf(0xDEBB20E3);
  }

  /** A string followed by four bytes has the CRC 0x2144DF1C exactly when those
      bytes are the string's own CRC, low byte first. */
  lemma ResidueIffConstant(m: seq<u8>, tail: seq<u8>)
    requires |tail| == 4
    ensures Crc(m + tail) == 0x2144DF1C <==> tail == LittleEndian32(Crc(m))
  {
    hide *;
    ResidueIff(m, tail);
    ResidueIsTheConstant();
  }
}
