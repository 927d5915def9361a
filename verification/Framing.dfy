/** Domain-separated framing: what is signed for a (domain, message) pair.

    A frame is the prefix, the domain's length as four big-endian bytes, the
    domain, the message's length as eight big-endian bytes, and the message. */
module Framing {
  import opened Bits
  import opened Wrappers

  // "HIGGAION_DS_V1"
  const PREFIX: seq<u8> := [72, 73, 71, 71, 65, 73, 79, 78, 95, 68, 83, 95, 86, 49]
  const DOMAIN_MAX := 4096
  const MESSAGE_MAX := 104857600
  // Prefix and the two length fields.
  const OVERHEAD := 26

  type Bytes = seq<u8>

  // ----- Big-endian lengths -----

  function Swap4(t: Bytes): (r: Bytes)
    requires |t| == 4
    ensures |r| == 4
  {
    [t[3], t[2], t[1], t[0]]
  }

  function BigEndian32(v: u32): (bytes: Bytes)
    ensures |bytes| == 4
  {
    Swap4(LittleEndian32(v))
  }

  function FromBigEndian32(bytes: Bytes): u32
    requires |bytes| == 4
  {
    FromLittleEndian32(Swap4(bytes))
  }

  function BigEndian64(v: u64): (bytes: Bytes)
    ensures |bytes| == 8
  {
    var n := v as int;
    BigEndian32(n / 0x1_0000_0000) + BigEndian32(n % 0x1_0000_0000)
  }

  function FromBigEndian64(bytes: Bytes): u64
    requires |bytes| == 8
  {
    0x1_0000_0000 * FromBigEndian32(bytes[..4]) as int + FromBigEndian32(bytes[4..]) as int
  }

  lemma BigEndian32RoundTrip(v: u32, bytes: Bytes)
    requires |bytes| == 4
    ensures FromBigEndian32(BigEndian32(v)) == v
    ensures BigEndian32(FromBigEndian32(bytes)) == bytes
  {
    hide LittleEndian32;
    hide FromLittleEndian32;
    LittleEndian32RoundTrip(v, Swap4(bytes));
    assert Swap4(Swap4(LittleEndian32(v))) == LittleEndian32(v);
    assert Swap4(Swap4(bytes)) == bytes;
  }

  lemma BigEndian64RoundTrip(v: u64, bytes: Bytes)
    requires |bytes| == 8
    ensures FromBigEndian64(BigEndian64(v)) == v
    ensures BigEndian64(FromBigEndian64(bytes)) == bytes
  {
    hide BigEndian32;
    hide FromBigEndian32;
    var n := v as int;
    BigEndian32RoundTrip(n / 0x1_0000_0000, bytes[..4]);
    BigEndian32RoundTrip(n % 0x1_0000_0000, bytes[4..]);
    assert BigEndian64(v)[..4] == BigEndian32(n / 0x1_0000_0000);
    assert BigEndian64(v)[4..] == BigEndian32(n % 0x1_0000_0000);
    assert bytes == bytes[..4] + bytes[4..];
  }

  // ----- The encoding and its parser -----

  predicate AcceptedPair(domain: Bytes, message: Bytes) {
    |domain| <= DOMAIN_MAX && 0 !in domain && |message| <= MESSAGE_MAX
  }

  function Encode(domain: Bytes, message: Bytes): (frame: Bytes)
    requires |domain| <= DOMAIN_MAX && |message| <= MESSAGE_MAX
    ensures |frame| == OVERHEAD + |domain| + |message|
  {
    PREFIX + BigEndian32(|domain|) + domain + BigEndian64(|message|) + message
  }

  function Parse(frame: Bytes): Option<(Bytes, Bytes)> {
    if |frame| < OVERHEAD || frame[..14] != PREFIX then None
    else
      var domLen := FromBigEndian32(frame[14..18]);
      if |frame| < OVERHEAD + domLen then None
      else
        var domain := frame[18..18 + domLen];
        var msgLen := FromBigEndian64(frame[18 + domLen..OVERHEAD + domLen]);
        var message := frame[OVERHEAD + domLen..];
        if msgLen == |message| && AcceptedPair(domain, message) then Some((domain, message)) else None
  }

  /** The layout written out: the text of the prefix, and both lengths by the
      place values of their bytes. */
  predicate IsFrame(frame: Bytes, domain: Bytes, message: Bytes) {
    var d := |domain|;
    && |frame| == 26 + d + |message|
    && (forall i :: 0 <= i < 14 ==> frame[i] as int == "HIGGAION_DS_V1"[i] as int)
    && 0x100_0000 * frame[14] as int + 0x1_0000 * frame[15] as int + 0x100 * frame[16] as int + frame[17] as int == d
    && frame[18..18 + d] == domain
    && 0x100_0000_0000_0000 * frame[18 + d] as int + 0x1_0000_0000_0000 * frame[19 + d] as int
       + 0x100_0000_0000 * frame[20 + d] as int
       + 0x1_0000_0000 * frame[21 + d] as int + 0x100_0000 * frame[22 + d] as int + 0x1_0000 * frame[23 + d] as int
       + 0x100 * frame[24 + d] as int + frame[25 + d] as int == |message|
    && frame[26 + d..] == message
  }

  lemma PlaceValues32(t: Bytes)
    requires |t| == 4
    ensures FromBigEndian32(t) as int
      == 0x100_0000 * t[0] as int + 0x1_0000 * t[1] as int + 0x100 * t[2] as int + t[3] as int
  {
  }

  lemma PlaceValues64(t: Bytes)
    requires |t| == 8
    ensures FromBigEndian64(t) as int
      == 0x100_0000_0000_0000 * t[0] as int + 0x1_0000_0000_0000 * t[1] as int
         + 0x100_0000_0000 * t[2] as int + 0x1_0000_0000 * t[3] as int
         + 0x100_0000 * t[4] as int + 0x1_0000 * t[5] as int + 0x100 * t[6] as int + t[7] as int
  {
    PlaceValues32(t[..4]);
    PlaceValues32(t[4..]);
    hide FromBigEndian32;
  }

  lemma PrefixText(f: Bytes)
    requires |f| >= 14
    ensures f[..14] == PREFIX <==> forall i :: 0 <= i < 14 ==> f[i] as int == "HIGGAION_DS_V1"[i] as int
  {
    assert forall i :: 0 <= i < 14 ==> PREFIX[i] as int == "HIGGAION_DS_V1"[i] as int;
    assert |PREFIX| == 14;
  }

  /** The encoding is that layout and nothing else. */
  lemma EncodeIff(frame: Bytes, domain: Bytes, message: Bytes)
    requires |domain| <= 4096 && |message| <= 104857600
    ensures IsFrame(frame, domain, message) <==> frame == Encode(domain, message)
  {
    var d := |domain|;
    if |frame| == 26 + d + |message| {
      var f4, f8 := frame[14..18], frame[18 + d..26 + d];
      PrefixText(frame);
      PlaceValues32(f4);
      PlaceValues64(f8);
      BigEndian32RoundTrip(d, f4);
      BigEndian64RoundTrip(|message|, f8);
      hide BigEndian32;
      hide BigEndian64;
      hide FromBigEndian32;
      hide FromBigEndian64;
      hide *;
      assert f4[0] == frame[14] && f4[1] == frame[15] && f4[2] == frame[16] && f4[3] == frame[17];
      EncodePieces(frame, domain, message);
    }
  }

  lemma EncodePieces(frame: Bytes, domain: Bytes, message: Bytes)
    requires |domain| <= 4096 && |message| <= 104857600 && |frame| == 26 + |domain| + |message|
    ensures frame == Encode(domain, message)
      <==> (&& frame[..14] == PREFIX && frame[14..18] == BigEndian32(|domain|) && frame[18..18 + |domain|] == domain
            && frame[18 + |domain|..26 + |domain|] == BigEndian64(|message|) && frame[26 + |domain|..] == message)
  {
    hide BigEndian32;
    hide BigEndian64;
    var d, e := |domain|, Encode(domain, message);
    assert e[..14] == PREFIX && e[14..18] == BigEndian32(d) && e[18..18 + d] == domain;
    assert e[18 + d..26 + d] == BigEndian64(|message|) && e[26 + d..] == message;
    assert frame == frame[..14] + frame[14..18] + frame[18..18 + d] + frame[18 + d..26 + d] + frame[26 + d..];
  }

  lemma ParseEncode(domain: Bytes, message: Bytes)
    requires AcceptedPair(domain, message)
    ensures Parse(Encode(domain, message)) == Some((domain, message))
  {
    hide BigEndian32;
    hide FromBigEndian32;
    hide BigEndian64;
    hide FromBigEndian64;
    var f, d := Encode(domain, message), |domain|;
    BigEndian32RoundTrip(d, f[..4]);
    BigEndian64RoundTrip(|message|, f[..8]);
    assert f[..14] == PREFIX;
    assert f[14..18] == BigEndian32(d);
    assert f[18..18 + d] == domain;
    assert f[18 + d..OVERHEAD + d] == BigEndian64(|message|);
    assert f[OVERHEAD + d..] == message;
  }

  lemma EncodeParse(frame: Bytes)
    requires Parse(frame).Some?
    ensures AcceptedPair(Parse(frame).value.0, Parse(frame).value.1)
    ensures Encode(Parse(frame).value.0, Parse(frame).value.1) == frame
  {
    hide BigEndian32;
    hide FromBigEndian32;
    hide BigEndian64;
    hide FromBigEndian64;
    var d := |Parse(frame).value.0|;
    BigEndian32RoundTrip(0, frame[14..18]);
    BigEndian64RoundTrip(0, frame[18 + d..OVERHEAD + d]);
    assert frame == frame[..14] + frame[14..18] + frame[18..18 + d] + frame[18 + d..OVERHEAD + d] + frame[OVERHEAD + d..];
  }

  /** The parser inverts the encoding exactly: it accepts the frames of
      accepted pairs, those only, and tells which pair. */
  lemma ParserInverts(frame: Bytes, domain: Bytes, message: Bytes)
    ensures Parse(frame) == Some((domain, message))
      <==> AcceptedPair(domain, message) && frame == Encode(domain, message)
  {
    if AcceptedPair(domain, message) {
      ParseEncode(domain, message);
    }
    if Parse(frame).Some? {
      EncodeParse(frame);
    }
  }

  /** No frame is a proper prefix of another, and equal frames come from equal
      pairs. */
  lemma PrefixFree(d1: Bytes, m1: Bytes, d2: Bytes, m2: Bytes)
    requires AcceptedPair(d1, m1) && AcceptedPair(d2, m2)
    ensures Encode(d1, m1) <= Encode(d2, m2) <==> d1 == d2 && m1 == m2
  {
    hide BigEndian32;
    hide BigEndian64;
    var f1, f2 := Encode(d1, m1), Encode(d2, m2);
    if f1 <= f2 {
      SameLengthField(f1, f2, 14, 18);
      assert f1[14..18] == BigEndian32(|d1|) && f2[14..18] == BigEndian32(|d2|);
      BigEndian32RoundTrip(|d1|, f1[14..18]);
      BigEndian32RoundTrip(|d2|, f1[14..18]);
      var d := |d1|;
      assert |d2| == d;
      SameLengthField(f1, f2, 18 + d, OVERHEAD + d);
      assert f1[18 + d..OVERHEAD + d] == BigEndian64(|m1|) && f2[18 + d..OVERHEAD + d] == BigEndian64(|m2|);
      BigEndian64RoundTrip(|m1|, f1[..8]);
      BigEndian64RoundTrip(|m2|, f1[..8]);
      assert f1 == f2;
      ParseEncode(d1, m1);
      ParseEncode(d2, m2);
    }
  }

  lemma SameLengthField(f1: Bytes, f2: Bytes, i: nat, j: nat)
    requires f1 <= f2 && i <= j <= |f1|
    ensures f1[i..j] == f2[i..j]
  {
  }

  lemma EncodeInjective(d1: Bytes, m1: Bytes, d2: Bytes, m2: Bytes)
    requires AcceptedPair(d1, m1) && AcceptedPair(d2, m2)
    ensures Encode(d1, m1) == Encode(d2, m2) <==> d1 == d2 && m1 == m2
  {
    PrefixFree(d1, m1, d2, m2);
  }

  // ----- The arguments as C passes them -----

  // A NULL pointer, or the readable memory it points to.
  datatype CString = Null | Chars(memory: Bytes)

  // Index of the first NUL, or max if there is none before it (strnlen).
  function StrNLen(memory: Bytes, max: nat): (n: nat)
    requires 0 in memory || |memory| >= max
    ensures n <= max && n <= |memory|
    ensures 0 !in memory[..n]
    ensures n < max ==> n < |memory| && memory[n] == 0
    decreases max
  {
    if max == 0 || memory[0] == 0 then 0
    else
      var n := 1 + StrNLen(memory[1..], max - 1);
      assert memory[..n] == [memory[0]] + memory[1..][..n - 1];
      n
  }

  predicate Readable(domain: CString) {
    domain.Chars? ==> 0 in domain.memory || |domain.memory| > DOMAIN_MAX
  }

  // The domain tag that is framed; longer than DOMAIN_MAX means too long.
  function DomainBytes(domain: CString): Bytes
    requires Readable(domain)
  {
    match domain
    case Null => []
    case Chars(memory) => memory[..StrNLen(memory, DOMAIN_MAX + 1)]
  }

  // d is the string that the pointer stands for.
  predicate Names(domain: CString, d: Bytes) {
    && 0 !in d
    && match domain case Null => d == [] case Chars(memory) => d + [0] <= memory
  }

  /** The bytes framed for a string are all its bytes up to the NUL, and none
      for NULL. */
  lemma DomainIsString(d: Bytes, rest: Bytes)
    requires 0 !in d && |d| <= 4096
    ensures DomainBytes(Chars(d + [0] + rest)) == d
    ensures DomainBytes(Null) == []
  {
    NamesIsDomain(Chars(d + [0] + rest), d);
  }

  lemma NamesIsDomain(domain: CString, d: Bytes)
    requires Readable(domain) && Names(domain, d)
    ensures |d| <= 4096 ==> DomainBytes(domain) == d
    ensures |d| > 4096 ==> |DomainBytes(domain)| > 4096
  {
    if domain.Chars? {
      var memory := domain.memory;
      var n := StrNLen(memory, DOMAIN_MAX + 1);
      assert memory[|d|] == (d + [0])[|d|] == 0;
      assert forall i :: 0 <= i < |d| ==> memory[i] == (d + [0])[i] == d[i] && d[i] != 0;
      assert forall i :: 0 <= i < n ==> memory[..n][i] == memory[i] != 0;
    }
  }

  // accepted is the verdict of the checks, over the string that domain stands
  // for; one of more than 4096 bytes need not end.
  ghost predicate Verdict(messageGiven: bool, msgLen: nat, domain: CString, accepted: bool) {
    && (forall d: Bytes :: Names(domain, d) ==>
          (accepted <==> (msgLen > 0 ==> messageGiven) && msgLen <= 104857600 && |d| <= 4096))
    && (domain.Chars? && |domain.memory| > 4096 && 0 !in domain.memory[..4097] ==> !accepted)
  }

  // frame is the frame of that string and the text.
  ghost predicate Frames(domain: CString, text: Bytes, frame: Bytes) {
    exists d: Bytes :: Names(domain, d) && IsFrame(frame, d, text)
  }

  lemma ArgumentsVerdict(messageGiven: bool, msgLen: nat, domain: CString)
    requires Readable(domain)
    ensures Verdict(messageGiven, msgLen, domain, ArgumentsOk(messageGiven, msgLen, domain))
  {
    forall d: Bytes | Names(domain, d)
      ensures |d| <= 4096 ==> DomainBytes(domain) == d
      ensures |d| > 4096 ==> |DomainBytes(domain)| > 4096
    {
      NamesIsDomain(domain, d);
    }
    if domain.Chars? && |domain.memory| > 4096 {
      var n := StrNLen(domain.memory, DOMAIN_MAX + 1);
      assert n <= 4096 ==> domain.memory[..4097][n] == 0;
    }
  }

  lemma EncodeFrames(domain: CString, text: Bytes)
    requires Readable(domain) && |DomainBytes(domain)| <= 4096 && |text| <= 104857600
    ensures Frames(domain, text, Encode(DomainBytes(domain), text))
  {
    DomainIsNamed(domain);
    EncodeIff(Encode(DomainBytes(domain), text), DomainBytes(domain), text);
  }

  lemma DomainIsNamed(domain: CString)
    requires Readable(domain) && |DomainBytes(domain)| <= 4096
    ensures Names(domain, DomainBytes(domain))
  {
  }

  // Every check before the allocation.
  predicate ArgumentsOk(messageGiven: bool, msgLen: nat, domain: CString)
    requires Readable(domain)
  {
    && (msgLen > 0 ==> messageGiven)
    && msgLen <= MESSAGE_MAX
    && |DomainBytes(domain)| <= DOMAIN_MAX
  }

  // ----- The builder -----

  type Buffer = array?<u8>

  class Ref<T> {
    var value: T

    constructor (value: T)
      ensures this.value == value
    {
      this.value := value;
    }
  }

  /** memcpy into the buffer at an offset. */
  method CopyTo(buf: array<u8>, at: nat, src: Bytes)
    requires at + |src| <= buf.Length
    modifies buf
    ensures buf[..] == old(buf[..at]) + src + old(buf[at + |src|..])
  {
    for i := 0 to |src|
      invariant buf[..at] == old(buf[..at])
      invariant buf[at..at + i] == src[..i]
      invariant buf[at + |src|..] == old(buf[at + |src|..])
    {
      buf[at + i] := src[i];
      assert buf[at..at + i + 1] == buf[at..at + i] + [src[i]];
    }
    assert buf[..] == buf[..at] + buf[at..at + |src|] + buf[at + |src|..];
  }

  /** `write_u32_be`: four shifted and masked bytes. */
  method WriteU32BE(buf: array<u8>, at: nat, v: u32)
    requires at + 4 <= buf.Length
    modifies buf
    ensures buf[..] == old(buf[..at]) + BigEndian32(v) + old(buf[at + 4..])
  {
    var n := v as int;
    buf[at] := (n / 0x100_0000) % 0x100;
    buf[at + 1] := (n / 0x1_0000) % 0x100;
    buf[at + 2] := (n / 0x100) % 0x100;
    buf[at + 3] := n % 0x100;
    assert buf[at..at + 4] == BigEndian32(v);
    assert buf[..] == buf[..at] + buf[at..at + 4] + buf[at + 4..];
  }

  /** `write_u64_be`. */
  method WriteU64BE(buf: array<u8>, at: nat, v: u64)
    requires at + 8 <= buf.Length
    modifies buf
    ensures buf[..] == old(buf[..at]) + BigEndian64(v) + old(buf[at + 8..])
  {
    var n := v as int;
    WriteU32BE(buf, at, n / 0x1_0000_0000);
    WriteU32BE(buf, at + 4, n % 0x1_0000_0000);
  }

  /** The moving cursor: five writes fill the whole buffer, no more. */
  method FillFrame(buf: array<u8>, domain: CString, domLen: nat, message: array?<u8>, msgLen: nat)
    requires Readable(domain) && domLen == |DomainBytes(domain)| <= DOMAIN_MAX
    requires msgLen <= MESSAGE_MAX && (msgLen > 0 ==> message != null)
    requires message != null ==> msgLen <= message.Length && message != buf
    requires buf.Length == OVERHEAD + domLen + msgLen
    modifies buf
    ensures buf[..] == Encode(DomainBytes(domain), if message == null then [] else message[..msgLen])
  {
    ghost var dom := DomainBytes(domain);
    ghost var text := if message == null then [] else message[..msgLen];
    var p := 0;
    CopyTo(buf, p, PREFIX);
    p := p + |PREFIX|;
    assert buf[..p] == PREFIX;
    WriteU32BE(buf, p, domLen);
    p := p + 4;
    ghost var head := PREFIX + BigEndian32(domLen);
    assert buf[..p] == head;
    if domLen > 0 {
      CopyTo(buf, p, domain.memory[..domLen]);
      p := p + domLen;
    }
    assert buf[..p] == head + dom;
    WriteU64BE(buf, p, msgLen);
    p := p + 8;
    assert buf[..p] == head + dom + BigEndian64(msgLen);
    if msgLen > 0 {
      CopyTo(buf, p, message[..msgLen]);
    }
    assert buf[..] == head + dom + BigEndian64(msgLen) + text;
  }

  /** The checks in front: the message pointer, its size, the domain's length. */
  method CheckArguments(messageGiven: bool, msgLen: nat, domain: CString) returns (accepted: bool, domLen: nat)
    requires Readable(domain)
    ensures accepted <==> ArgumentsOk(messageGiven, msgLen, domain)
    ensures accepted ==> domLen == |DomainBytes(domain)|
    ensures Verdict(messageGiven, msgLen, domain, accepted)
  {
    ArgumentsVerdict(messageGiven, msgLen, domain);
    hide Verdict;
    domLen := 0;
    if msgLen > 0 && !messageGiven {
      return false, domLen;
    }
    if msgLen > MESSAGE_MAX {
      return false, domLen;
    }
    if domain.Chars? {
      domLen := StrNLen(domain.memory, DOMAIN_MAX + 1);
      if domLen > DOMAIN_MAX {
        return false, domLen;
      }
    }
    accepted := true;
  }

  /** The length with its overflow guards, none of which fires. */
  method FrameLength(domLen: nat, msgLen: nat, sizeMax: nat) returns (fits: bool, total: nat)
    requires domLen <= DOMAIN_MAX && msgLen <= MESSAGE_MAX && sizeMax >= 0xFFFF_FFFF
    ensures fits && total == 26 + domLen + msgLen
  {
    total := |PREFIX|;
    if sizeMax - total < 4 { return false, total; }
    total := total + 4;
    if sizeMax - total < domLen { return false, total; }
    total := total + domLen;
    if sizeMax - total < 8 { return false, total; }
    total := total + 8;
    if sizeMax - total < msgLen { return false, total; }
    total := total + msgLen;
    fits := true;
  }

  /** `build_domain_separated_message`. The allocation's outcome and the largest
      size_t are parameters; the latter is at least that of 32 bits. */
  method BuildFrame(out: Ref?<Buffer>, outLen: Ref?<nat>, message: array?<u8>, msgLen: nat, domain: CString,
                    sizeMax: nat, mallocOk: bool)
    returns (ok: bool)
    requires Readable(domain)
    requires message != null && msgLen <= MESSAGE_MAX ==> msgLen <= message.Length
    requires sizeMax >= 0xFFFF_FFFF
    modifies if out == null || outLen == null then {} else {out, outLen}
    ensures ok <==> out != null && outLen != null && mallocOk && ArgumentsOk(message != null, msgLen, domain)
    ensures ok ==> out.value != null && fresh(out.value)
    ensures ok ==> outLen.value == out.value.Length == OVERHEAD + |DomainBytes(domain)| + msgLen
    ensures ok ==> out.value[..] == Encode(DomainBytes(domain), if message == null then [] else message[..msgLen])
    ensures !ok && out != null && outLen != null ==> out.value == null && outLen.value == 0
    // The same over the string that domain stands for.
    ensures out != null && outLen != null && mallocOk ==> Verdict(message != null, msgLen, domain, ok)
    ensures ok ==> Frames(domain, if message == null then [] else message[..msgLen], out.value[..])
  {
    hide Verdict;
    hide Frames;
    hide Encode;
    hide DomainBytes;
    if out == null || outLen == null {
      return false;
    }
    out.value := null;
    outLen.value := 0;
    var accepted, domLen := CheckArguments(message != null, msgLen, domain);
    if !accepted {
      return false;
    }
    var fits, total := FrameLength(domLen, msgLen, sizeMax);
    if !fits {
      return false;
    }
    if !mallocOk {
      return false;
    }
    var buf := new u8[total];
    FillFrame(buf, domain, domLen, message, msgLen);
    EncodeFrames(domain, if message == null then [] else message[..msgLen]);
    out.value := buf;
    outLen.value := total;
    return true;
  }

  /** Two accepted calls build the same frame exactly when they name the same
      domain bytes and the same message; NULL and "" name the same domain. */
  lemma FramesBindArguments(a: CString, m1: Bytes, b: CString, m2: Bytes)
    requires Readable(a) && Readable(b)
    requires ArgumentsOk(true, |m1|, a) && ArgumentsOk(true, |m2|, b)
    ensures Encode(DomainBytes(a), m1) == Encode(DomainBytes(b), m2) <==> DomainBytes(a) == DomainBytes(b) && m1 == m2
    ensures a == Null && b.Chars? ==> (DomainBytes(a) == DomainBytes(b) <==> b.memory[0] == 0)
  {
    EncodeInjective(DomainBytes(a), m1, DomainBytes(b), m2);
  }
}
