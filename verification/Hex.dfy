/** The hexadecimal decoder of the migration engine. */
module Hex {
  import opened Bits
  import opened Wrappers

  predicate IsHexDigit(c: char) {
    '0' <= c <= '9' || 'a' <= c <= 'f' || 'A' <= c <= 'F'
  }

  // The digits in the order of their values.
  const DIGITS: string := "0123456789abcdef"

  function LowerChar(c: char): char {
    if 'A' <= c <= 'F' then (c as int - 'A' as int + 'a' as int) as char else c
  }

  /** `hex_nibble`. */
  function HexNibble(c: char): (v: int)
    ensures if IsHexDigit(c) then 0 <= v < 16 else v == -1
  {
    if '0' <= c <= '9' then c as int - '0' as int
    else if 'a' <= c <= 'f' then c as int - 'a' as int + 10
    else if 'A' <= c <= 'F' then c as int - 'A' as int + 10
    else -1
  }

  // The two digits at position i of hex are both hexadecimal.
  predicate GoodPair(hex: string, i: nat)
    requires 2 * i + 1 < |hex|
  {
    HexNibble(hex[2 * i]) >= 0 && HexNibble(hex[2 * i + 1]) >= 0
  }

  // (hi << 4) | lo, the two not overlapping.
  function PairValue(hex: string, i: nat): u8
    requires 2 * i + 1 < |hex| && GoodPair(hex, i)
  {
    16 * HexNibble(hex[2 * i]) + HexNibble(hex[2 * i + 1])
  }

  // Number of good pairs before the first bad one.
  function GoodPairs(hex: string, from: nat): (n: nat)
    requires |hex| % 2 == 0 && 2 * from <= |hex|
    ensures from <= n && 2 * n <= |hex|
    ensures forall i :: from <= i < n ==> GoodPair(hex, i)
    ensures 2 * n < |hex| ==> !GoodPair(hex, n)
    decreases |hex| - 2 * from
  {
    if 2 * from == |hex| || !GoodPair(hex, from) then from else GoodPairs(hex, from + 1)
  }

  function Decode(hex: string): Option<seq<u8>> {
    if |hex| % 2 != 0 || 2 * GoodPairs(hex, 0) != |hex| then None
    else Some(seq(|hex| / 2, i requires 0 <= i < |hex| / 2 => PairValue(hex, i)))
  }

  // (int) of a size_t.
  function CastInt32(n: nat): int {
    var r := n % 0x1_0000_0000;
    if r < 0x8000_0000 then r else r - 0x1_0000_0000
  }

  /** `mig_hex_to_bin`. On a bad digit the pairs before it have been written. */
  method MigHexToBin(out: array<u8>, outMax: nat, hex: array<char>, hexLen: nat) returns (r: int)
    requires outMax <= out.Length && hexLen <= hex.Length
    modifies out
    ensures hexLen % 2 != 0 || hexLen / 2 > outMax ==> r == -1 && out[..] == old(out[..])
    ensures hexLen % 2 == 0 && hexLen / 2 <= outMax ==>
      var text, n := hex[..hexLen], GoodPairs(hex[..hexLen], 0);
      && r == (if Decode(text).Some? then CastInt32(hexLen / 2) else -1)
      && (forall i :: 0 <= i < n ==> out[i] == PairValue(text, i))
      && out[n..] == old(out[n..])
      && (Decode(text).Some? ==> out[..hexLen / 2] == Decode(text).value)
  {
    if hexLen % 2 != 0 {
      return -1;
    }
    var binLen := hexLen / 2;
    if binLen > outMax {
      return -1;
    }
    ghost var text := hex[..hexLen];
    ghost var n := GoodPairs(text, 0);
    for i := 0 to binLen
      invariant i <= n
      invariant forall k :: 0 <= k < i ==> out[k] == PairValue(text, k)
      invariant forall k :: i <= k < out.Length ==> out[k] == old(out[k])
    {
      var hi, lo := HexNibble(hex[2 * i]), HexNibble(hex[2 * i + 1]);
      assert GoodPair(text, i) <==> hi >= 0 && lo >= 0;
      if hi < 0 || lo < 0 {
        assert n == i;
        assert out[n..] == old(out[n..]);
        return -1;
      }
      out[i] := 16 * hi + lo;
    }
    assert out[n..] == old(out[n..]);
    assert Decode(text).Some? && out[..binLen] == Decode(text).value;
    r := CastInt32(binLen);
  }

  /** The returned length is the length exactly below 2^31 bytes; above, a
      success looks like the failure -1 when it is one short of a multiple of 2^32. */
  lemma LengthFitsInt(n: nat)
    ensures CastInt32(n) == n <==> n < 0x8000_0000
    ensures CastInt32(n) == -1 <==> n % 0x1_0000_0000 == 0xFFFF_FFFF
  {
  }

  // ----- Meaning -----

  lemma DigitChars(c: char)
    ensures IsHexDigit(c) <==> c in "0123456789abcdefABCDEF"
  {
  }

  lemma AcceptsExactly(hex: string)
    ensures Decode(hex).Some? <==> |hex| % 2 == 0 && forall c :: c in hex ==> IsHexDigit(c)
  {
    if |hex| % 2 == 0 {
      var n := GoodPairs(hex, 0);
      if 2 * n == |hex| {
        forall j | 0 <= j < |hex| ensures IsHexDigit(hex[j]) {
          assert GoodPair(hex, j / 2);
          assert j == 2 * (j / 2) || j == 2 * (j / 2) + 1;
        }
      } else {
        assert !GoodPair(hex, n);
        assert hex[2 * n] in hex && hex[2 * n + 1] in hex;
      }
    }
  }

  function Digit(v: nat): (c: char)
    requires v < 16
    ensures HexNibble(c) == v
  {
    DIGITS[v]
  }

  // Base16 printing, in lower case.
  function Print(bytes: seq<u8>): (hex: string)
    ensures |hex| == 2 * |bytes|
    ensures forall i :: 0 <= i < |bytes| ==> hex[2 * i] == Digit(bytes[i] / 16) && hex[2 * i + 1] == Digit(bytes[i] % 16)
    decreases bytes
  {
    if bytes == [] then ""
    else
      var k := |bytes| - 1;
      Print(bytes[..k]) + [Digit(bytes[k] / 16), Digit(bytes[k] % 16)]
  }

  function Lower(hex: string): (s: string)
    ensures |s| == |hex|
  {
    seq(|hex|, i requires 0 <= i < |hex| => LowerChar(hex[i]))
  }

  /** Decoding inverts printing. */
  lemma DecodePrint(bytes: seq<u8>)
    ensures Decode(Print(bytes)) == Some(bytes)
  {
    var hex := Print(bytes);
    hide HexNibble;
    forall i | 0 <= i < |bytes| ensures GoodPair(hex, i) && PairValue(hex, i) == bytes[i] {
      assert hex[2 * i] == Digit(bytes[i] / 16) && hex[2 * i + 1] == Digit(bytes[i] % 16);
    }
    assert Decode(hex).value == bytes;
  }

  /** The value of a digit is its place in "0123456789abcdef", whatever its
      case. */
  lemma NibbleIsDigit(c: char)
    requires IsHexDigit(c)
    ensures 0 <= HexNibble(c) < 16 && LowerChar(c) == Digit(HexNibble(c)) == DIGITS[HexNibble(c)]
  {
  }

  /** Printing what was decoded gives the input back in lower case. */
  lemma PrintDecode(hex: string)
    requires Decode(hex).Some?
    ensures Print(Decode(hex).value) == Lower(hex)
  {
    hide IsHexDigit;
    hide HexNibble;
    hide LowerChar;
    AcceptsExactly(hex);
    var b := Decode(hex).value;
    var p := Print(b);
    forall j | 0 <= j < |hex| ensures p[j] == Lower(hex)[j] {
      var i := j / 2;
      assert GoodPair(hex, i) && hex[2 * i] in hex && hex[2 * i + 1] in hex;
      PairPrints(hex, i);
      assert b[i] == PairValue(hex, i);
      assert p[2 * i] == Digit(b[i] / 16) && p[2 * i + 1] == Digit(b[i] % 16);
      assert j == 2 * i || j == 2 * i + 1;
    }
  }

  lemma HighAndLow(hi: nat, lo: nat)
    requires lo < 16
    ensures (16 * hi + lo) / 16 == hi && (16 * hi + lo) % 16 == lo
  {
  }

  lemma PairPrints(hex: string, i: nat)
    requires 2 * i + 1 < |hex| && GoodPair(hex, i) && IsHexDigit(hex[2 * i]) && IsHexDigit(hex[2 * i + 1])
    ensures Digit(PairValue(hex, i) / 16) == LowerChar(hex[2 * i])
    ensures Digit(PairValue(hex, i) % 16) == LowerChar(hex[2 * i + 1])
  {
    hide HexNibble;
    hide LowerChar;
    hide Digit;
    NibbleIsDigit(hex[2 * i]);
    NibbleIsDigit(hex[2 * i + 1]);
    HighAndLow(HexNibble(hex[2 * i]), HexNibble(hex[2 * i + 1]));
  }

  lemma DigitsText(v: nat)
    requires v < 16
    ensures Digit(v) == "0123456789abcdef"[v]
  {
  }

  /** The first digit of a pair is the high half of its byte. */
  lemma HighDigitFirst(hex: string, i: nat)
    requires Decode(hex).Some? && 2 * i + 1 < |hex|
    ensures
      var b := Decode(hex).value[i] as int;
      LowerChar(hex[2 * i]) == "0123456789abcdef"[b / 16] && LowerChar(hex[2 * i + 1]) == "0123456789abcdef"[b % 16]
  {
    AcceptsExactly(hex);
    assert hex[2 * i] in hex && hex[2 * i + 1] in hex && GoodPair(hex, i);
    var b := Decode(hex).value[i] as int;
    assert b == PairValue(hex, i);
    hide *;
    PairPrints(hex, i);
    DigitsText(b / 16);
    DigitsText(b % 16);
  }

  /** Two accepted inputs decode alike exactly when they differ in letter case
      only. */
  lemma SameUpToCase(a: string, b: string)
    requires Decode(a).Some? && Decode(b).Some?
    ensures Decode(a) == Decode(b) <==> Lower(a) == Lower(b)
  {
    PrintDecode(a);
    PrintDecode(b);
    DecodePrint(Decode(a).value);
    DecodePrint(Decode(b).value);
  }
}
