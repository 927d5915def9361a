/** The write-ahead log's CRC-32: the bitwise reflected loop `wal_crc32`, and
    what it guarantees about corrupted data.

    Feeding one byte xors it into the low eight bits of the register and clocks
    the register eight times; the proofs look at the same process one bit at a
    time, least significant bit of each byte first. */
module Crc32 {
  import opened Bits

  const POLY: u32 := 0xEDB8_8320
  const INIT: u32 := 0xFFFF_FFFF

  // ----- The algorithm -----

  /** One clock of the register: divide by x modulo the generator. */
  function Shift(c: u32): u32 {
    Xor32(c / 2, if c % 2 == 1 then POLY else 0)
  }

  function Steps(c: u32, n: nat): u32
    decreases n, c
  {
    if n == 0 then c else Shift(Steps(c, n - 1))
  }

  function FeedByte(c: u32, b: u8): u32 {
    Steps(Xor32(c, b), 8)
  }

  function Feed(c: u32, m: seq<u8>): u32
    decreases m
  {
    if m == [] then c else Feed(FeedByte(c, m[0]), m[1..])
  }

  function Crc(m: seq<u8>): u32 {
    Xor32(Feed(INIT, m), 0xFFFF_FFFF)
  }

  lemma {:induction false} StepsFirst(c: u32, n: nat)
    ensures Steps(c, n + 1) == Steps(Shift(c), n)
    decreases n
  {
    if n > 0 {
      StepsFirst(c, n - 1);
    }
  }

  lemma {:induction false} FeedConcat(c: u32, a: seq<u8>, b: seq<u8>)
    ensures Feed(c, a + b) == Feed(Feed(c, a), b)
    decreases a
  {
    if a == [] {
      assert a + b == b;
    } else {
      assert (a + b)[1..] == a[1..] + b;
      FeedConcat(FeedByte(c, a[0]), a[1..], b);
    }
  }

  lemma FeedLast(c: u32, m: seq<u8>, b: u8)
    ensures Feed(c, m + [b]) == FeedByte(Feed(c, m), b)
  {
    FeedConcat(c, m, [b]);
    assert [b][1..] == [];
  }

  /** The inner loop: mix in one byte, then clock eight times. */
  method ClockByte(c: u32, b: u8) returns (crc: u32)
    ensures crc == FeedByte(c, b)
  {
    crc := Xor32(c, b);
    for j := 0 to 8
      invariant crc == Steps(Xor32(c, b), j)
    {
      crc := Xor32(crc / 2, if crc % 2 == 1 then POLY else 0);
    }
  }

  /** `wal_crc32`: one pass over the data. */
  method WalCrc32(data: array<u8>, len: nat) returns (result: u32)
    requires len <= data.Length
    ensures result == Crc(data[..len])
  {
    var crc: u32 := INIT;
    for i := 0 to len
      invariant crc == Feed(INIT, data[..i])
    {
      FeedLast(INIT, data[..i], data[i]);
      assert data[..i + 1] == data[..i] + [data[i]];
      crc := ClockByte(crc, data[i]);
    }
    result := Xor32(crc, 0xFFFF_FFFF);
  }

  // ----- One bit at a time -----

  function ClockBit(c: u32, b: bool): u32 {
    Shift(Xor32(c, Bit(b)))
  }

  /** Feeds a string of bits, first bit first. */
  function FeedBits(c: u32, bits: seq<bool>): u32
    decreases bits
  {
    if bits == [] then c else FeedBits(ClockBit(c, bits[0]), bits[1..])
  }

  lemma {:induction false} FeedBitsConcat(c: u32, a: seq<bool>, b: seq<bool>)
    ensures FeedBits(c, a + b) == FeedBits(FeedBits(c, a), b)
    decreases a
  {
    if a == [] {
      assert a + b == b;
    } else {
      assert (a + b)[1..] == a[1..] + b;
      FeedBitsConcat(ClockBit(c, a[0]), a[1..], b);
    }
  }

  /** One clock, bit by bit: everything moves down one place, and the bit that
      falls off is added wherever the generator has a coefficient. */
  lemma ShiftTap(c: u32, i: nat)
    ensures Tap(Shift(c), i) == (Tap(c, i + 1) != (Tap(c, 0) && Tap(POLY, i)))
  {
    TapXor(c / 2, if c % 2 == 1 then POLY else 0, i);
    TapZero(i);
  }

  lemma ClockBitTap(c: u32, b: bool, i: nat)
    ensures Tap(ClockBit(c, b), i) == (Tap(c, i + 1) != ((Tap(c, 0) != b) && Tap(POLY, i)))
  {
    ShiftTap(Xor32(c, Bit(b)), i);
    TapXor(c, Bit(b), i + 1);
    TapXor(c, Bit(b), 0);
    TapZero(i);
  }

  lemma TopTaps(c: u32, i: nat)
    ensures Tap(POLY, 31)
    ensures i >= 32 ==> !Tap(c, i)
  {
    hide Tap;
    hide Pow2;
    Pow2Of32();
    if i >= 32 {
      TapHigh(c, 32, i);
    }
    TapEight(POLY, 23);
    TapEight(0xED_B883, 15);
    TapEight(0xEDB8, 7);
    TapOf0xED();
  }

  lemma TapOf0xED()
    ensures Tap(0xED, 7)
  {
    assert Tap(0xED, 7) == Tap(0x76, 6) == Tap(0x3B, 5) == Tap(0x1D, 4);
  }

  // t is s with w mixed in, bit by bit.
  ghost predicate Mixed(s: nat, w: nat, t: nat) {
    forall i: nat :: Tap(t, i) == (Tap(s, i) != Tap(w, i))
  }

  /** Mixing in a word of at most n bits and clocking n times is feeding its
      bits one by one. */
  lemma {:induction false} StepsAreBits(s: u32, w: nat, t: u32, n: nat)
    requires Mixed(s, w, t) && w < Pow2(n)
    ensures Steps(t, n) == FeedBits(s, BitsOf(w, n))
    decreases n
  {
    if n == 0 {
      forall i: nat ensures Tap(t, i) == Tap(s, i) {
        TapZero(i);
      }
      TapsDetermine(s, t);
    } else {
      var b := w % 2 == 1;
      forall i: nat ensures Tap(Shift(t), i) == (Tap(ClockBit(s, b), i) != Tap(w / 2, i)) {
        ShiftTap(t, i);
        ClockBitTap(s, b, i);
        assert Tap(t, 0) == (Tap(s, 0) != Tap(w, 0));
        assert Tap(t, i + 1) == (Tap(s, i + 1) != Tap(w, i + 1));
      }
      StepsAreBits(ClockBit(s, b), w / 2, Shift(t), n - 1);
      StepsFirst(t, n - 1);
      assert BitsOf(w, n)[1..] == BitsOf(w / 2, n - 1);
    }
  }

  /** The bits of a byte string in the order the register sees them. */
  function BitString(m: seq<u8>): (bits: seq<bool>)
    ensures |bits| == 8 * |m|
    decreases m
  {
    if m == [] then [] else BitsOf(m[0], 8) + BitString(m[1..])
  }

  lemma FeedByteIsFeedBits(c: u32, b: u8)
    ensures FeedByte(c, b) == FeedBits(c, BitsOf(b, 8))
  {
    forall i: nat ensures Tap(Xor32(c, b), i) == (Tap(c, i) != Tap(b, i)) {
      TapXor(c, b, i);
    }
    assert Pow2(8) == 0x100;
    StepsAreBits(c, b, Xor32(c, b), 8);
  }

  /** The byte-wise register is the bit-wise one. */
  lemma {:induction false} FeedIsFeedBits(c: u32, m: seq<u8>)
    ensures Feed(c, m) == FeedBits(c, BitString(m))
    decreases m
  {
    if m != [] {
      FeedByteIsFeedBits(c, m[0]);
      FeedIsFeedBits(FeedByte(c, m[0]), m[1..]);
      FeedBitsConcat(c, BitsOf(m[0], 8), BitString(m[1..]));
    }
  }

  // ----- Bursts -----

  // Two registers that differ at bit j or above.
  ghost predicate Apart(a: u32, b: u32, j: nat) {
    exists i: nat :: j <= i < 32 && Tap(a, i) != Tap(b, i)
  }

  /** The highest difference between two registers moves down by at most one
      place per clock, whatever bits are fed to either. */
  lemma ApartStep(a: u32, b: u32, x: bool, y: bool, j: nat)
    requires Apart(a, b, j + 1)
    ensures Apart(ClockBit(a, x), ClockBit(b, y), j)
  {
    var i: nat :| j + 1 <= i < 32 && Tap(a, i) != Tap(b, i);
    ClockBitTap(a, x, i - 1);
    ClockBitTap(b, y, i - 1);
    ClockBitTap(a, x, 31);
    ClockBitTap(b, y, 31);
    TopTaps(a, 32);
    TopTaps(b, 32);
    if (Tap(a, 0) != x) == (Tap(b, 0) != y) {
      assert Tap(ClockBit(a, x), i - 1) != Tap(ClockBit(b, y), i - 1);
    } else {
      assert Tap(ClockBit(a, x), 31) != Tap(ClockBit(b, y), 31);
    }
  }

  lemma {:induction false} ApartRun(a: u32, b: u32, x: seq<bool>, y: seq<bool>, j: nat)
    requires |x| == |y| <= j
    requires Apart(a, b, j)
    ensures FeedBits(a, x) != FeedBits(b, y)
    decreases x
  {
    if x != [] {
      ApartStep(a, b, x[0], y[0], j - 1);
      ApartRun(ClockBit(a, x[0]), ClockBit(b, y[0]), x[1..], y[1..], j - 1);
    }
  }

  /** Feeding the same bit to different registers keeps them different: bit 31
      of the output tells what fell off. */
  lemma ClockBitInjective(a: u32, b: u32, x: bool)
    requires ClockBit(a, x) == ClockBit(b, x)
    ensures a == b
  {
    forall i: nat ensures Tap(a, i) == Tap(b, i) {
      TopTaps(a, 32);
      TopTaps(b, 32);
      ClockBitTap(a, x, 31);
      ClockBitTap(b, x, 31);
      if i > 0 {
        ClockBitTap(a, x, i - 1);
        ClockBitTap(b, x, i - 1);
      }
    }
    TapsDetermine(a, b);
  }

  lemma {:induction false} FeedBitsInjective(a: u32, b: u32, bits: seq<bool>)
    requires a != b
    ensures FeedBits(a, bits) != FeedBits(b, bits)
    decreases bits
  {
    if bits != [] {
      if ClockBit(a, bits[0]) == ClockBit(b, bits[0]) {
        ClockBitInjective(a, b, bits[0]);
      }
      FeedBitsInjective(ClockBit(a, bits[0]), ClockBit(b, bits[0]), bits[1..]);
    }
  }

  /** One register, two strings of at most 32 bits: different strings leave
      different registers. */
  lemma {:induction false} ShortStringsDiffer(c: u32, x: seq<bool>, y: seq<bool>)
    requires |x| == |y| <= 32 && x != y
    ensures FeedBits(c, x) != FeedBits(c, y)
    decreases x
  {
    if x[0] == y[0] {
      assert x == [x[0]] + x[1..] && y == [y[0]] + y[1..];
      ShortStringsDiffer(ClockBit(c, x[0]), x[1..], y[1..]);
    } else {
      ClockBitTap(c, x[0], 31);
      ClockBitTap(c, y[0], 31);
      TopTaps(c, 32);
      ApartRun(ClockBit(c, x[0]), ClockBit(c, y[0]), x[1..], y[1..], 31);
    }
  }

  // Two bit strings that agree everywhere outside the window [at, at + width).
  ghost predicate AgreeOutside(a: seq<bool>, b: seq<bool>, at: nat, width: nat) {
    && |a| == |b|
    && forall i :: 0 <= i < |a| && !(at <= i < at + width) ==> a[i] == b[i]
  }

  lemma BurstChangesRegister(c: u32, a: seq<bool>, b: seq<bool>, at: nat)
    requires AgreeOutside(a, b, at, 32) && a != b
    ensures FeedBits(c, a) != FeedBits(c, b)
  {
    var p := if at <= |a| then at else |a|;
    var q := if at + 32 <= |a| then at + 32 else |a|;
    assert a == a[..p] + a[p..q] + a[q..] && b == b[..p] + b[p..q] + b[q..];
    assert a[..p] == b[..p] && a[q..] == b[q..];
    var s := FeedBits(c, a[..p]);
    ShortStringsDiffer(s, a[p..q], b[p..q]);
    FeedBitsConcat(c, a[..p], a[p..q]);
    FeedBitsConcat(c, b[..p], b[p..q]);
    FeedBitsConcat(c, a[..p] + a[p..q], a[q..]);
    FeedBitsConcat(c, b[..p] + b[p..q], b[q..]);
    FeedBitsInjective(FeedBits(s, a[p..q]), FeedBits(s, b[p..q]), a[q..]);
  }

  lemma {:induction false} BitStringInjective(a: seq<u8>, b: seq<u8>)
    requires BitString(a) == BitString(b)
    ensures a == b
    decreases a
  {
    assert |a| == |b|;
    if a != [] {
      assert BitString(a)[..8] == BitsOf(a[0], 8) && BitString(b)[..8] == BitsOf(b[0], 8);
      assert BitString(a)[8..] == BitString(a[1..]) && BitString(b)[8..] == BitString(b[1..]);
      forall i: nat ensures Tap(a[0], i) == Tap(b[0], i) {
        assert Pow2(8) == 0x100;
        if i < 8 {
          BitsOfTap(a[0], 8, i);
          BitsOfTap(b[0], 8, i);
        } else {
          TapHigh(a[0], 8, i);
          TapHigh(b[0], 8, i);
        }
      }
      TapsDetermine(a[0], b[0]);
      BitStringInjective(a[1..], b[1..]);
      assert a == [a[0]] + a[1..] && b == [b[0]] + b[1..];
    }
  }

  /** Burst detection. Two strings of the same length that differ, but only
      within 32 consecutive bits, never share a CRC. */
  lemma BurstDetected(a: seq<u8>, b: seq<u8>, at: nat)
    requires a != b
    requires AgreeOutside(BitString(a), BitString(b), at, 32)
    ensures Crc(a) != Crc(b)
  {
    if BitString(a) == BitString(b) {
      BitStringInjective(a, b);
    }
    BurstChangesRegister(INIT, BitString(a), BitString(b), at);
    FeedIsFeedBits(INIT, a);
    FeedIsFeedBits(INIT, b);
    if Crc(a) == Crc(b) {
      XorCancel(Feed(INIT, a), Feed(INIT, b), 0xFFFF_FFFF);
    }
  }

  lemma {:induction false} BitStringAt(m: seq<u8>, k: nat, j: nat)
    requires k < |m| && j < 8
    ensures BitString(m)[8 * k + j] == BitsOf(m[k], 8)[j]
    decreases m
  {
    assert BitString(m) == BitsOf(m[0], 8) + BitString(m[1..]);
    if k > 0 {
      BitStringAt(m[1..], k - 1, j);
    }
  }

  lemma BytesAgreeOutside(a: seq<u8>, b: seq<u8>, k: nat)
    requires |a| == |b|
    requires forall i :: 0 <= i < |a| && !(k <= i < k + 4) ==> a[i] == b[i]
    ensures AgreeOutside(BitString(a), BitString(b), 8 * k, 32)
  {
    forall i | 0 <= i < 8 * |a| && !(8 * k <= i < 8 * k + 32)
      ensures BitString(a)[i] == BitString(b)[i]
    {
      var byte, bit := i / 8, i % 8;
      BitStringAt(a, byte, bit);
      BitStringAt(b, byte, bit);
    }
  }

  /** The same for four consecutive bytes. */
  lemma FourByteBurstDetected(a: seq<u8>, b: seq<u8>, k: nat)
    requires |a| == |b| && a != b
    requires forall i :: 0 <= i < |a| && !(k <= i < k + 4) ==> a[i] == b[i]
    ensures Crc(a) != Crc(b)
  {
    BytesAgreeOutside(a, b, k);
    BurstDetected(a, b, 8 * k);
  }

  // ----- The residue -----

  function Residue(): u32 {
    Crc([0, 0, 0, 0])
  }

  lemma {:induction false} StepsInjective(a: u32, b: u32, n: nat)
    requires Steps(a, n) == Steps(b, n)
    ensures a == b
    decreases n
  {
    if n > 0 {
      var x, y := Steps(a, n - 1), Steps(b, n - 1);
      XorZero(x);
      XorZero(y);
      ClockBitInjective(x, y, false);
      StepsInjective(a, b, n - 1);
    }
  }

  lemma XorZero(a: u32)
    ensures Xor32(a, 0) == a
  {
    forall i: nat ensures Tap(Xor32(a, 0), i) == Tap(a, i) {
      TapXor(a, 0, i);
      TapZero(i);
    }
    TapsDetermine(Xor32(a, 0), a);
  }

  lemma BitStringOfWord(w: u32)
    ensures BitString(LittleEndian32(w)) == BitsOf(w, 32)
  {
    hide BitsOf;
    hide BitString;
    var t := LittleEndian32(w);
    LittleEndian32Parts(w);
    hide LittleEndian32;
    assert t == [t[0], t[1], t[2], t[3]];
    BitsOfByteFirst(w, t[0], w / 0x100, 24);
    BitsOfByteFirst(w / 0x100, t[1], w / 0x1_0000, 16);
    BitsOfByteFirst(w / 0x1_0000, t[2], w / 0x100_0000, 8);
    FourByteString(t[0], t[1], t[2], t[3]);
  }

  lemma FourByteString(a: u8, b: u8, c: u8, d: u8)
    ensures BitString([a, b, c, d]) == BitsOf(a, 8) + (BitsOf(b, 8) + (BitsOf(c, 8) + BitsOf(d, 8)))
  {
    assert [a, b, c, d][1..] == [b, c, d] && [b, c, d][1..] == [c, d] && [c, d][1..] == [d];
    assert BitString([d]) == BitsOf(d, 8);
    assert BitString([c, d]) == BitsOf(c, 8) + BitsOf(d, 8);
    assert BitString([b, c, d]) == BitsOf(b, 8) + (BitsOf(c, 8) + BitsOf(d, 8));
  }

  /** Word at a time: four bytes, low byte first, are one xor and 32 clocks. */
  lemma FeedWord(c: u32, w: u32)
    ensures Feed(c, LittleEndian32(w)) == Steps(Xor32(c, w), 32)
  {
    FeedIsFeedBits(c, LittleEndian32(w));
    BitStringOfWord(w);
    forall i: nat ensures Tap(Xor32(c, w), i) == (Tap(c, i) != Tap(w, i)) {
      TapXor(c, w, i);
    }
    Pow2Of32();
    StepsAreBits(c, w, Xor32(c, w), 32);
  }

  /** A string followed by four bytes has the residue as its CRC exactly when
      those bytes are the string's own CRC, low byte first. */
  lemma ResidueIff(m: seq<u8>, tail: seq<u8>)
    requires |tail| == 4
    ensures Crc(m + tail) == Residue() <==> tail == LittleEndian32(Crc(m))
  {
    var s, w := Feed(INIT, m), FromLittleEndian32(tail);
    LittleEndian32RoundTrip(w, tail);
    LittleEndian32RoundTrip(Crc(m), tail);
    FeedConcat(INIT, m, tail);
    FeedWord(s, w);
    FeedWord(INIT, 0);
    XorZero(INIT);
    assert LittleEndian32(0) == [0, 0, 0, 0];
    Complement(s, w);
    if Crc(m + tail) == Residue() {
      XorCancel(Steps(Xor32(s, w), 32), Steps(INIT, 32), 0xFFFF_FFFF);
      StepsInjective(Xor32(s, w), INIT, 32);
    }
  }

  lemma Complement(s: u32, w: u32)
    ensures Xor32(s, w) == 0xFFFF_FFFF <==> w == Xor32(s, 0xFFFF_FFFF)
  {
    if Xor32(s, w) == 0xFFFF_FFFF {
      forall i: nat ensures Tap(w, i) == Tap(Xor32(s, 0xFFFF_FFFF), i) {
        TapXor(s, w, i);
        TapXor(s, 0xFFFF_FFFF, i);
      }
      TapsDetermine(w, Xor32(s, 0xFFFF_FFFF));
    }
    if w == Xor32(s, 0xFFFF_FFFF) {
      forall i: nat ensures Tap(Xor32(s, w), i) == Tap(0xFFFF_FFFF, i) {
        TapXor(s, w, i);
        TapXor(s, 0xFFFF_FFFF, i);
      }
      TapsDetermine(Xor32(s, w), 0xFFFF_FFFF);
    }
  }

  // ----- Linearity -----

  function XorBits(x: seq<bool>, y: seq<bool>): (z: seq<bool>)
    requires |x| == |y|
    ensures |z| == |x|
    ensures forall i :: 0 <= i < |x| ==> z[i] == (x[i] != y[i])
  {
    seq(|x|, i requires 0 <= i < |x| => x[i] != y[i])
  }

  lemma ClockBitLinear(c: u32, d: u32, x: bool, y: bool)
    ensures ClockBit(Xor32(c, d), x != y) == Xor32(ClockBit(c, x), ClockBit(d, y))
  {
    forall i: nat
      ensures Tap(ClockBit(Xor32(c, d), x != y), i) == Tap(Xor32(ClockBit(c, x), ClockBit(d, y)), i)
    {
      ClockBitTap(Xor32(c, d), x != y, i);
      ClockBitTap(c, x, i);
      ClockBitTap(d, y, i);
      TapXor(c, d, i + 1);
      TapXor(c, d, 0);
      TapXor(ClockBit(c, x), ClockBit(d, y), i);
    }
    TapsDetermine(ClockBit(Xor32(c, d), x != y), Xor32(ClockBit(c, x), ClockBit(d, y)));
  }

  /** The register is linear: superposed registers fed superposed strings hold
      the superposition of the results. */
  lemma {:induction false} FeedBitsLinear(c: u32, d: u32, x: seq<bool>, y: seq<bool>)
    requires |x| == |y|
    ensures FeedBits(Xor32(c, d), XorBits(x, y)) == Xor32(FeedBits(c, x), FeedBits(d, y))
    decreases x
  {
    hide ClockBit;
    hide Xor32;
    if x != [] {
      ClockBitLinear(c, d, x[0], y[0]);
      FeedBitsLinear(ClockBit(c, x[0]), ClockBit(d, y[0]), x[1..], y[1..]);
      assert XorBits(x, y)[1..] == XorBits(x[1..], y[1..]);
    }
  }

  lemma XorIsZeroIff(a: nat, b: nat)
    ensures Xor(a, b) == 0 <==> a == b
  {
    if a == b {
      forall i: nat ensures Tap(Xor(a, b), i) == Tap(0, i) {
        TapXor(a, b, i);
        TapZero(i);
      }
      TapsDetermine(Xor(a, b), 0);
    } else if Xor(a, b) == 0 {
      forall i: nat ensures Tap(a, i) == Tap(b, i) {
        TapXor(a, b, i);
        TapZero(i);
      }
      TapsDetermine(a, b);
    }
  }

  /** Which errors go unnoticed: exactly those that leave an empty register
      empty, whatever the message they hit. */
  lemma UndetectedIff(a: seq<u8>, b: seq<u8>)
    requires |a| == |b|
    ensures Crc(a) == Crc(b) <==> FeedBits(0, XorBits(BitString(a), BitString(b))) == 0
  {
    FeedIsFeedBits(INIT, a);
    FeedIsFeedBits(INIT, b);
    FeedBitsLinear(INIT, INIT, BitString(a), BitString(b));
    XorIsZeroIff(INIT, INIT);
    XorIsZeroIff(Feed(INIT, a), Feed(INIT, b));
    if Crc(a) == Crc(b) {
      XorCancel(Feed(INIT, a), Feed(INIT, b), 0xFFFF_FFFF);
    }
  }

  // ----- Thirty-three bits are too many -----

  // The generator with its leading one, as 33 bits.
  function Generator(): (bits: seq<bool>)
    ensures |bits| == 33
  {
    [true] + BitsOf(POLY, 32)
  }

  function Quiet(n: nat): (bits: seq<bool>)
    ensures |bits| == n
  {
    seq(n, i => false)
  }

  lemma {:induction false} QuietKeepsZero(n: nat)
    ensures FeedBits(0, Quiet(n)) == 0
    decreases n
  {
    if n > 0 {
      ZeroStaysZero();
      QuietKeepsZero(n - 1);
      assert Quiet(n)[1..] == Quiet(n - 1);
    }
  }

  lemma ZeroStaysZero()
    ensures ClockBit(0, false) == 0
  {
    forall i: nat ensures Tap(ClockBit(0, false), i) == Tap(0, i) {
      ClockBitTap(0, false, i);
      TapZero(i);
      TapZero(i + 1);
      TapZero(0);
    }
    TapsDetermine(ClockBit(0, false), 0);
  }

  lemma {:induction false} ZeroSteps(n: nat)
    ensures Steps(0, n) == 0
    decreases n
  {
    if n > 0 {
      ZeroSteps(n - 1);
      ZeroStaysZero();
      XorZero(0);
    }
  }

  lemma GeneratorKeepsZero()
    ensures FeedBits(0, Generator()) == 0
  {
    var one := ClockBit(0, true);
    forall i: nat ensures Tap(one, i) == Tap(POLY, i) && !Tap(0, i) {
      ClockBitTap(0, true, i);
      TapZero(i);
      TapZero(i + 1);
      TapZero(0);
    }
    TapsDetermine(one, POLY);
    Pow2Of32();
    StepsAreBits(POLY, POLY, 0, 32);
    ZeroSteps(32);
    assert Generator()[1..] == BitsOf(POLY, 32);
  }

  // The generator at bit offset at of a string of n bits.
  function GeneratorAt(n: nat, at: nat): (bits: seq<bool>)
    requires at + 33 <= n
    ensures |bits| == n
  {
    Quiet(at) + Generator() + Quiet(n - at - 33)
  }

  lemma GeneratorAtKeepsZero(n: nat, at: nat)
    requires at + 33 <= n
    ensures FeedBits(0, GeneratorAt(n, at)) == 0
  {
    hide Generator;
    hide Quiet;
    QuietKeepsZero(at);
    GeneratorKeepsZero();
    QuietKeepsZero(n - at - 33);
    FeedBitsConcat(0, Quiet(at), Generator());
    FeedBitsConcat(0, Quiet(at) + Generator(), Quiet(n - at - 33));
  }

  /** The bound of 32 bits is exact: in every message, at every bit offset, some
      burst of 33 bits, the generator, goes unnoticed. */
  lemma BurstBoundIsTight(m: seq<u8>, at: nat) returns (b: seq<u8>)
    requires at + 33 <= 8 * |m|
    ensures |b| == |m| && b != m && AgreeOutside(BitString(m), BitString(b), at, 33)
    ensures XorBits(BitString(m), BitString(b)) == GeneratorAt(8 * |m|, at)
    ensures Crc(b) == Crc(m)
  {
    var error := GeneratorAt(8 * |m|, at);
    b := BytesWith(XorBits(BitString(m), error), |m|);
    assert XorBits(BitString(m), BitString(b)) == error;
    GeneratorAtKeepsZero(8 * |m|, at);
    UndetectedIff(m, b);
    assert error[at];
  }

  // Every string of whole bytes' worth of bits is the bits of some bytes.
  lemma {:induction false} BytesWith(bits: seq<bool>, n: nat) returns (m: seq<u8>)
    requires |bits| == 8 * n
    ensures |m| == n && BitString(m) == bits
    decreases n
  {
    if n == 0 {
      m := [];
    } else {
      var first := ByteWith(bits[..8]);
      var rest := BytesWith(bits[8..], n - 1);
      m := [first] + rest;
      assert m[1..] == rest;
      assert bits == bits[..8] + bits[8..];
    }
  }

  lemma ByteWith(bits: seq<bool>) returns (b: u8)
    requires |bits| == 8
    ensures BitsOf(b, 8) == bits
  {
    var w := NumberWith(bits);
    assert Pow2(8) == 0x100;
    b := w;
  }

  lemma {:induction false} NumberWith(bits: seq<bool>) returns (w: nat)
    ensures w < Pow2(|bits|) && BitsOf(w, |bits|) == bits
    decreases bits
  {
    if bits == [] {
      w := 0;
    } else {
      var half := NumberWith(bits[1..]);
      w := 2 * half + Bit(bits[0]);
      assert w / 2 == half && (w % 2 == 1) == bits[0];
      assert bits == [bits[0]] + bits[1..];
    }
  }
}
