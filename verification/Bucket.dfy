/** The hash index of key ids: 32-bit FNV-1a reduced to 8192 buckets. */
module Bucket {
  import opened Bits

  const BASIS: u32 := 2166136261
  const PRIME := 16777619
  const BUCKETS := 8192

  function FnvStep(h: u32, c: u8): u32 {
    (Xor32(h, c) * PRIME) % 0x1_0000_0000
  }

  function Fnv(h: u32, id: seq<u8>): u32
    decreases id
  {
    if id == [] then h else Fnv(FnvStep(h, id[0]), id[1..])
  }

  function BucketOf(id: seq<u8>): nat {
    Fnv(BASIS, id) % BUCKETS
  }

  lemma {:induction false} FnvConcat(h: u32, a: seq<u8>, b: seq<u8>)
    ensures Fnv(h, a + b) == Fnv(Fnv(h, a), b)
    decreases a
  {
    if a == [] {
      assert a + b == b;
    } else {
      assert (a + b)[1..] == a[1..] + b;
      FnvConcat(FnvStep(h, a[0]), a[1..], b);
    }
  }

  // The bytes of a C string.
  function Id(memory: seq<u8>): (id: seq<u8>)
    requires 0 in memory
    ensures |id| < |memory| && memory[|id|] == 0 && 0 !in id && id <= memory
    decreases memory
  {
    if memory[0] == 0 then [] else [memory[0]] + Id(memory[1..])
  }

  // ----- Thirteen bits are enough -----

  // The n low bits of a.
  function Low(a: nat, n: nat): nat
    decreases n
  {
    if n == 0 then 0 else 2 * Low(a / 2, n - 1) + a % 2
  }

  function High(a: nat, n: nat): nat
    decreases n
  {
    if n == 0 then a else High(a / 2, n - 1)
  }

  lemma {:induction false} LowHigh(a: nat, n: nat)
    ensures a == Pow2(n) * High(a, n) + Low(a, n)
    ensures Low(a, n) < Pow2(n)
    decreases n
  {
    if n > 0 {
      LowHigh(a / 2, n - 1);
      assert Pow2(n) * High(a, n) == 2 * (Pow2(n - 1) * High(a / 2, n - 1));
    }
  }

  lemma {:induction false} LowXor(a: nat, b: nat, n: nat)
    ensures Low(Xor(a, b), n) == Xor(Low(a, n), Low(b, n))
    decreases n
  {
    if n > 0 {
      XorHalf(a, b);
      XorHalf(Low(a, n), Low(b, n));
      LowXor(a / 2, b / 2, n - 1);
    }
  }

  lemma Pow2Of13()
    ensures Pow2(13) == BUCKETS
  {
    assert Pow2(6) == 64;
  }

  lemma LowIsMod(a: nat)
    ensures a % BUCKETS == Low(a, 13)
  {
    hide Low;
    hide High;
    hide Pow2;
    LowHigh(a, 13);
    Pow2Of13();
  }

  type Small = x: nat | x < BUCKETS

  function XorSmall(h: Small, c: u8): Small {
    Pow2Of13();
    XorBound(h, c, 13);
    Xor(h, c)
  }

  // One step on 13-bit state: the prime is 403 modulo 8192.
  function SmallStep(h: Small, c: u8): Small {
    (XorSmall(h, c) * 403) % BUCKETS
  }

  function SmallFnv(h: Small, id: seq<u8>): Small
    decreases id
  {
    if id == [] then h else SmallFnv(SmallStep(h, id[0]), id[1..])
  }

  lemma PrimeModBuckets(x: nat)
    ensures ((x * PRIME) % 0x1_0000_0000) % BUCKETS == ((x % BUCKETS) * 403) % BUCKETS
  {
    var q, r := x / BUCKETS, (x * PRIME) / 0x1_0000_0000;
    SameResidue(x * PRIME, (x % BUCKETS) * 403, 2048 * x + 403 * q);
    SameResidue(x * PRIME, (x * PRIME) % 0x1_0000_0000, 524288 * r);
  }

  lemma SameResidue(a: nat, b: nat, k: nat)
    requires a == b + BUCKETS * k
    ensures a % BUCKETS == b % BUCKETS
  {
  }

  lemma StepIsSmall(h: u32, c: u8)
    ensures FnvStep(h, c) % BUCKETS == SmallStep(h % BUCKETS, c)
  {
    PrimeModBuckets(Xor32(h, c));
    XorModBuckets(h, c);
    hide Xor32;
    hide XorSmall;
  }

  lemma XorModBuckets(h: u32, c: u8)
    ensures Xor32(h, c) % BUCKETS == XorSmall(h % BUCKETS, c)
  {
    hide Low;
    hide Xor;
    LowIsMod(Xor(h, c));
    LowIsMod(h);
    LowIsMod(c);
    LowXor(h, c, 13);
  }

  /** The loop on 32 bits, reduced at the end, is the loop on 13 bits. */
  lemma {:induction false} BucketNeedsThirteenBits(h: u32, id: seq<u8>)
    ensures Fnv(h, id) % BUCKETS == SmallFnv(h % BUCKETS, id)
    decreases id
  {
    if id != [] {
      StepIsSmall(h, id[0]);
      BucketNeedsThirteenBits(FnvStep(h, id[0]), id[1..]);
    }
  }

  /** A bucket is the loop on 13 bits from 7621, the offset basis reduced. */
  lemma BucketFrom7621(id: seq<u8>)
    ensures BucketOf(id) == SmallFnv(7621, id)
  {
    BucketNeedsThirteenBits(BASIS, id);
  }

  /** For one: the empty id is in bucket 7621, and "a" in 2348. */
  lemma FirstBuckets()
    ensures BucketOf([]) == 7621 && BucketOf([0x61]) == 2348
  {
    assert BUCKETS == 8192;
    hide *;
    BucketFrom7621([]);
    BucketFrom7621([0x61]);
    NoByte(7621);
    OneByte(7621, 0x61);
    StepOfA();
  }

  lemma StepOfA()
    ensures SmallStep(7621, 0x61) == 2348
  {
    XorOfA();
    hide Xor;
  }

  lemma NoByte(h: Small)
    ensures SmallFnv(h, []) == h
  {
  }

  lemma OneByte(h: Small, c: u8)
    ensures SmallFnv(h, [c]) == SmallStep(h, c)
  {
    assert [c][1..] == [];
  }

  lemma XorOfA()
    ensures Xor(7621, 0x61) == 7588
  {
    hide Xor;
    XorHalf(7621, 97);
    XorHalf(3810, 48);
    XorHalf(1905, 24);
    XorHalf(952, 12);
    XorHalf(476, 6);
    XorHalf(238, 3);
    XorHalf(119, 1);
    XorNothing(59);
  }

  lemma XorNothing(a: nat)
    ensures Xor(a, 0) == a
  {
    forall i: nat ensures Tap(Xor(a, 0), i) == Tap(a, i) {
      TapXor(a, 0, i);
      TapZero(i);
    }
    TapsDetermine(Xor(a, 0), a);
  }

  /** `hash_key_id`: walks the string up to its NUL. */
  method HashKeyId(keyId: array<u8>) returns (bucket: nat)
    requires 0 in keyId[..]
    ensures bucket == BucketOf(Id(keyId[..])) == SmallFnv(7621, Id(keyId[..]))
    ensures bucket < 8192
  {
    var h: u32 := BASIS;
    ghost var id := Id(keyId[..]);
    var p := 0;
    while keyId[p] != 0
      invariant p <= |id|
      invariant h == Fnv(BASIS, id[..p])
      decreases |id| - p
    {
      assert keyId[p] == keyId[..][p];
      assert p < |id| && id[p] == keyId[p];
      FnvConcat(BASIS, id[..p], [id[p]]);
      assert id[..p + 1] == id[..p] + [id[p]];
      assert [id[p]][1..] == [];
      h := Xor32(h, keyId[p]);
      h := (h * PRIME) % 0x1_0000_0000;
      p := p + 1;
    }
    assert forall j :: 0 <= j < |id| ==> id[j] != 0 && keyId[..][j] == id[j];
    assert id[..p] == id;
    bucket := h % BUCKETS;
    BucketFrom7621(id);
  }

  // ----- Every step is a bijection -----

  // 403 * 1179 == 1 modulo 8192.
  function SmallUnstep(h: Small, c: u8): Small {
    XorSmall((h * INVERSE) % BUCKETS, c)
  }

  const INVERSE := 1179

  lemma XorTwice(a: nat, c: nat)
    ensures Xor(Xor(a, c), c) == a
  {
    forall i: nat ensures Tap(Xor(Xor(a, c), c), i) == Tap(a, i) {
      TapXor(a, c, i);
      TapXor(Xor(a, c), c, i);
    }
    TapsDetermine(Xor(Xor(a, c), c), a);
  }

  lemma TimesInverse(x: Small)
    ensures ((x * 403) % BUCKETS * INVERSE) % BUCKETS == x
    ensures ((x * INVERSE) % BUCKETS * 403) % BUCKETS == x
  {
    Unscale(x, 403, INVERSE);
    Unscale(x, INVERSE, 403);
  }

  lemma Unscale(x: Small, m: nat, k: nat)
    requires m * k == 1 + BUCKETS * 58
    ensures ((x * m) % BUCKETS * k) % BUCKETS == x
  {
    var y := (x * m) % BUCKETS;
    var q := (x * m) / BUCKETS;
    assert y == x * m - BUCKETS * q;
    assert y * k == (x * m) * k - (BUCKETS * q) * k;
    assert (x * m) * k == x * (m * k) == x + BUCKETS * (58 * x);
    assert (BUCKETS * q) * k == BUCKETS * (q * k);
    Residue(y * k, x, 58 * x - q * k);
  }

  lemma Residue(a: nat, x: Small, t: int)
    requires a == x + BUCKETS * t
    ensures a % BUCKETS == x
  {
  }

  /** For each byte the step is a bijection of the 8192 states: it has a
      two-sided inverse. */
  lemma StepIsBijection(h: Small, c: u8)
    ensures SmallUnstep(SmallStep(h, c), c) == h
    ensures SmallStep(SmallUnstep(h, c), c) == h
  {
    TimesInverse(XorSmall(h, c));
    TimesInverse(h);
    XorTwice(h, c);
    XorTwice((h * INVERSE) % BUCKETS, c);
  }

  lemma StepTellsBytesApart(h: Small, a: u8, b: u8)
    requires SmallStep(h, a) == SmallStep(h, b)
    ensures a == b
  {
    TimesInverse(XorSmall(h, a));
    TimesInverse(XorSmall(h, b));
    assert Xor(h, a) == Xor(h, b);
    XorSwap(h, a);
    XorSwap(h, b);
    XorCancel(a, b, h);
  }

  lemma XorSwap(a: nat, b: nat)
    ensures Xor(a, b) == Xor(b, a)
  {
    forall i: nat ensures Tap(Xor(a, b), i) == Tap(Xor(b, a), i) {
      TapXor(a, b, i);
      TapXor(b, a, i);
    }
    TapsDetermine(Xor(a, b), Xor(b, a));
  }

  lemma {:induction false} SuffixIsInjective(g: Small, h: Small, id: seq<u8>)
    ensures SmallFnv(g, id) == SmallFnv(h, id) <==> g == h
    decreases id
  {
    if id != [] {
      StepIsBijection(g, id[0]);
      StepIsBijection(h, id[0]);
      SuffixIsInjective(SmallStep(g, id[0]), SmallStep(h, id[0]), id[1..]);
    }
  }

  /** Appending the same suffix neither separates nor merges two ids. */
  lemma CommonSuffix(a: seq<u8>, b: seq<u8>, suffix: seq<u8>)
    ensures BucketOf(a + suffix) == BucketOf(b + suffix) <==> BucketOf(a) == BucketOf(b)
  {
    FnvConcat(BASIS, a, suffix);
    FnvConcat(BASIS, b, suffix);
    BucketNeedsThirteenBits(Fnv(BASIS, a), suffix);
    BucketNeedsThirteenBits(Fnv(BASIS, b), suffix);
    SuffixIsInjective(BucketOf(a), BucketOf(b), suffix);
  }

  /** Two ids of the same length that differ in exactly one byte never share a
      bucket. */
  lemma OneByteNeverCollides(prefix: seq<u8>, a: u8, b: u8, suffix: seq<u8>)
    ensures BucketOf(prefix + [a] + suffix) == BucketOf(prefix + [b] + suffix) <==> a == b
  {
    CommonSuffix(prefix + [a], prefix + [b], suffix);
    FnvConcat(BASIS, prefix, [a]);
    FnvConcat(BASIS, prefix, [b]);
    assert [a][1..] == [] && [b][1..] == [];
    var h := Fnv(BASIS, prefix);
    StepIsSmall(h, a);
    StepIsSmall(h, b);
    if BucketOf(prefix + [a]) == BucketOf(prefix + [b]) {
      StepTellsBytesApart(h % BUCKETS, a, b);
    }
  }
}
