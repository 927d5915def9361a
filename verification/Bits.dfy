/** Unsigned machine words as natural numbers, and their bits.

    A word of n bits is a number below 2^n. Shifts are divisions by two, and
    exclusive or is defined bit by bit. */
module Bits {

  type u8 = x: nat | x < 0x100
  type u32 = x: nat | x < 0x1_0000_0000
  type u64 = x: nat | x < 0x1_0000_0000_0000_0000

  function Pow2(n: nat): (p: nat)
    ensures p >= 1
    decreases n
  {
    if n == 0 then 1 else 2 * Pow2(n - 1)
  }

  function Xor(a: nat, b: nat): nat
    decreases a + b
  {
    if a == 0 && b == 0 then 0 else 2 * Xor(a / 2, b / 2) + (if a % 2 == b % 2 then 0 else 1)
  }

  /** Bit i of a. */
  function Tap(a: nat, i: nat): bool
    decreases i
  {
    if i == 0 then a % 2 == 1 else Tap(a / 2, i - 1)
  }

  /** Two numbers with the same bits are the same number. */
  lemma {:induction false} TapsDetermine(a: nat, b: nat)
    requires forall i: nat :: Tap(a, i) == Tap(b, i)
    ensures a == b
    decreases a + b
  {
    if a != 0 || b != 0 {
      assert Tap(a, 0) == Tap(b, 0);
      forall i: nat ensures Tap(a / 2, i) == Tap(b / 2, i) {
        assert Tap(a, i + 1) == Tap(b, i + 1);
      }
      TapsDetermine(a / 2, b / 2);
    }
  }

  lemma {:induction false} TapZero(i: nat)
    ensures !Tap(0, i)
    decreases i
  {
    if i > 0 {
      TapZero(i - 1);
    }
  }

  lemma XorHalf(a: nat, b: nat)
    ensures Xor(a, b) / 2 == Xor(a / 2, b / 2)
    ensures Xor(a, b) % 2 == if a % 2 == b % 2 then 0 else 1
  {
  }

  lemma {:induction false} TapXor(a: nat, b: nat, i: nat)
    ensures Tap(Xor(a, b), i) == (Tap(a, i) != Tap(b, i))
    decreases i
  {
    XorHalf(a, b);
    if i > 0 {
      TapXor(a / 2, b / 2, i - 1);
    }
  }

  lemma TapEight(a: nat, i: nat)
    ensures Tap(a, i + 8) == Tap(a / 0x100, i)
  {
    TapFour(a, i + 4);
    TapFour(a / 0x10, i);
  }

  lemma TapFour(a: nat, i: nat)
    ensures Tap(a, i + 4) == Tap(a / 0x10, i)
  {
    assert Tap(a, i + 4) == Tap(a / 2, i + 3) == Tap(a / 2 / 2, i + 2);
    assert Tap(a / 2 / 2, i + 2) == Tap(a / 2 / 2 / 2, i + 1) == Tap(a / 2 / 2 / 2 / 2, i);
    assert a / 2 / 2 / 2 / 2 == a / 0x10;
  }

  lemma {:induction false} TapHigh(a: nat, n: nat, i: nat)
    requires a < Pow2(n) && n <= i
    ensures !Tap(a, i)
    decreases n
  {
    if n == 0 {
      TapZero(i);
    } else {
      TapHigh(a / 2, n - 1, i - 1);
    }
  }

  lemma {:induction false} XorBound(a: nat, b: nat, n: nat)
    requires a < Pow2(n) && b < Pow2(n)
    ensures Xor(a, b) < Pow2(n)
    decreases n
  {
    if n > 0 {
      XorBound(a / 2, b / 2, n - 1);
      XorHalf(a, b);
    } else {
      assert a == 0 && b == 0;
    }
  }

  lemma XorCancel(a: nat, b: nat, c: nat)
    requires Xor(a, c) == Xor(b, c)
    ensures a == b
  {
    forall i: nat ensures Tap(a, i) == Tap(b, i) {
      TapXor(a, c, i);
      TapXor(b, c, i);
    }
    TapsDetermine(a, b);
  }

  lemma Pow2Of32()
    ensures Pow2(32) == 0x1_0000_0000
  {
    assert Pow2(8) == 0x100;
    assert Pow2(16) == 0x1_0000;
    assert Pow2(24) == 0x100_0000;
  }

  function Xor32(a: u32, b: u32): u32 {
    Pow2Of32();
    XorBound(a, b, 32);
    Xor(a, b)
  }

  // ----- Words as strings of bits -----

  function Bit(b: bool): nat {
    if b then 1 else 0
  }

  /** The n low bits of w, least significant first. */
  function BitsOf(w: nat, n: nat): (bits: seq<bool>)
    ensures |bits| == n
    decreases n, w
  {
    if n == 0 then [] else [w % 2 == 1] + BitsOf(w / 2, n - 1)
  }

  lemma {:induction false} BitsOfTap(w: nat, n: nat, i: nat)
    requires i < n
    ensures BitsOf(w, n)[i] == Tap(w, i)
    decreases n
  {
    if i > 0 {
      BitsOfTap(w / 2, n - 1, i - 1);
    }
  }

  // ----- Byte order -----

  /** Four bytes, low byte first. */
  function LittleEndian32(w: u32): (bytes: seq<u8>)
    ensures |bytes| == 4
  {
    var n := w as int;
    [n % 0x100, (n / 0x100) % 0x100, (n / 0x1_0000) % 0x100, n / 0x100_0000]
  }

  function FromLittleEndian32(bytes: seq<u8>): u32
    requires |bytes| == 4
  {
    bytes[0] as int + 0x100 * (bytes[1] as int + 0x100 * (bytes[2] as int + 0x100 * bytes[3] as int))
  }

  lemma LittleEndian32Parts(w: u32)
    ensures w == LittleEndian32(w)[0] + 0x100 * (w / 0x100)
    ensures w / 0x100 == LittleEndian32(w)[1] + 0x100 * (w / 0x1_0000)
    ensures w / 0x1_0000 == LittleEndian32(w)[2] + 0x100 * (w / 0x100_0000)
    ensures w / 0x100_0000 == LittleEndian32(w)[3]
  {
  }

  lemma LittleEndian32RoundTrip(w: u32, bytes: seq<u8>)
    requires |bytes| == 4
    ensures FromLittleEndian32(LittleEndian32(w)) == w
    ensures LittleEndian32(FromLittleEndian32(bytes)) == bytes
  {
    LittleEndian32Parts(w);
    LittleEndian32Horner(bytes[0], bytes[1], bytes[2], bytes[3]);
    hide LittleEndian32;
    assert bytes == [bytes[0], bytes[1], bytes[2], bytes[3]];
  }

  lemma LittleEndian32Horner(b0: u8, b1: u8, b2: u8, b3: u8)
    ensures LittleEndian32(FromLittleEndian32([b0, b1, b2, b3])) == [b0, b1, b2, b3]
  {
    var v3 := b2 as int + 0x100 * b3 as int;
    var v2 := b1 as int + 0x100 * v3;
    var v := b0 as int + 0x100 * v2;
    assert v / 0x100 == v2 && v % 0x100 == b0;
    assert v2 / 0x100 == v3 && v2 % 0x100 == b1;
    assert v / 0x1_0000 == v3 && v3 % 0x100 == b2;
    assert v / 0x100_0000 == b3;
  }

  lemma {:induction false} TapLow(b: nat, h: nat, n: nat, i: nat)
    requires i < n
    ensures Tap(b + Pow2(n) * h, i) == Tap(b, i)
    decreases n
  {
    var rest := Pow2(n - 1) * h;
    assert Pow2(n) * h == 2 * rest;
    if i > 0 {
      assert (b + 2 * rest) / 2 == b / 2 + rest;
      TapLow(b / 2, h, n - 1, i - 1);
    }
  }

  lemma BitsOfByteFirst(w: nat, b: u8, h: nat, n: nat)
    requires w == b + 0x100 * h
    ensures BitsOf(w, n + 8) == BitsOf(b, 8) + BitsOf(h, n)
  {
    forall i: nat | i < n + 8
      ensures BitsOf(w, n + 8)[i] == (BitsOf(b, 8) + BitsOf(h, n))[i]
    {
      ByteFirstAt(w, b, h, n, i);
    }
  }

  lemma ByteFirstAt(w: nat, b: u8, h: nat, n: nat, i: nat)
    requires w == b + 0x100 * h && i < n + 8
    ensures BitsOf(w, n + 8)[i] == if i < 8 then BitsOf(b, 8)[i] else BitsOf(h, n)[i - 8]
  {
    hide Tap;
    hide BitsOf;
    BitsOfTap(w, n + 8, i);
    if i < 8 {
      assert Pow2(8) == 0x100;
      TapLow(b, h, 8, i);
      BitsOfTap(b, 8, i);
    } else {
      TapEight(w, i - 8);
      BitsOfTap(h, n, i - 8);
    }
  }
}
