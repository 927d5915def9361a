/** The packed 101-byte log record: field offsets, byte order, the CRC field
    and the validators. */
module WalRecordLayout {
  import opened Bits
  import opened Crc32
  import opened ResidueValue

  const RECORD_SIZE := 101
  // The CRC covers everything before its own field.
  const CRC_OFFSET := 97
  const KEY_ID_LEN := 65
  const MAGIC: u64 := 0x0047_494D_5F47_4948
  const VERSION: u8 := 2

  datatype PackedRecord = PackedRecord(
    magic: u64, version: u8, operation: u8, keyId: seq<u8>, newState: u8, seqNo: u64,
    peerState: u8, peerShardId: u32, peerUpdatedAt: u64, crc32: u32)
  {
    predicate Fits() {
      |keyId| == KEY_ID_LEN
    }
  }

  function LittleEndian64(w: u64): (bytes: seq<u8>)
    ensures |bytes| == 8
  {
    var n := w as int;
    LittleEndian32(n % 0x1_0000_0000) + LittleEndian32(n / 0x1_0000_0000)
  }

  function FromLittleEndian64(bytes: seq<u8>): u64
    requires |bytes| == 8
  {
    FromLittleEndian32(bytes[..4]) as int + 0x1_0000_0000 * FromLittleEndian32(bytes[4..]) as int
  }

  lemma LittleEndian64RoundTrip(w: u64, bytes: seq<u8>)
    requires |bytes| == 8
    ensures FromLittleEndian64(LittleEndian64(w)) == w
    ensures LittleEndian64(FromLittleEndian64(bytes)) == bytes
  {
    hide LittleEndian32;
    hide FromLittleEndian32;
    var n := w as int;
    LittleEndian32RoundTrip(n % 0x1_0000_0000, bytes[..4]);
    LittleEndian32RoundTrip(n / 0x1_0000_0000, bytes[4..]);
    assert LittleEndian64(w)[..4] == LittleEndian32(n % 0x1_0000_0000);
    assert LittleEndian64(w)[4..] == LittleEndian32(n / 0x1_0000_0000);
    assert bytes == bytes[..4] + bytes[4..];
  }

  /** The record as it lies in memory and on disk. */
  function Pack(r: PackedRecord): (bytes: seq<u8>)
    requires r.Fits()
    ensures |bytes| == RECORD_SIZE
  {
    LittleEndian64(r.magic) + [r.version, r.operation] + r.keyId + [r.newState] + LittleEndian64(r.seqNo)
    + [r.peerState] + LittleEndian32(r.peerShardId) + LittleEndian64(r.peerUpdatedAt) + LittleEndian32(r.crc32)
  }

  function Unpack(bytes: seq<u8>): (r: PackedRecord)
    requires |bytes| == RECORD_SIZE
    ensures r.Fits()
  {
    PackedRecord(
      FromLittleEndian64(bytes[0..8]), bytes[8], bytes[9], bytes[10..75], bytes[75],
      FromLittleEndian64(bytes[76..84]), bytes[84], FromLittleEndian32(bytes[85..89]),
      FromLittleEndian64(bytes[89..97]), FromLittleEndian32(bytes[CRC_OFFSET..RECORD_SIZE]))
  }

  // The number that bytes stand for, low byte first.
  function LowFirst(bytes: seq<u8>): nat
    decreases bytes
  {
    if bytes == [] then 0 else bytes[0] as int + 0x100 * LowFirst(bytes[1..])
  }

  lemma ByteMore(b: u8, t: seq<u8>)
    ensures LowFirst([b] + t) == b as int + 0x100 * LowFirst(t)
  {
    assert ([b] + t)[1..] == t;
  }

  lemma WordMore(w: u32, t: seq<u8>)
    ensures LowFirst(LittleEndian32(w) + t) == w as int + 0x1_0000_0000 * LowFirst(t)
  {
    LittleEndian32Parts(w);
    var b := LittleEndian32(w);
    hide LittleEndian32;
    hide LowFirst;
    ByteMore(b[3], t);
    ByteMore(b[2], [b[3]] + t);
    ByteMore(b[1], [b[2]] + ([b[3]] + t));
    ByteMore(b[0], [b[1]] + ([b[2]] + ([b[3]] + t)));
    assert b + t == [b[0]] + ([b[1]] + ([b[2]] + ([b[3]] + t)));
  }

  lemma LowFirst32(w: u32)
    ensures LowFirst(LittleEndian32(w)) == w
  {
    WordMore(w, []);
    hide LittleEndian32;
    assert LittleEndian32(w) + [] == LittleEndian32(w);
  }

  lemma LowFirst64(w: u64)
    ensures LowFirst(LittleEndian64(w)) == w
  {
    var n := w as int;
    LowFirst32(n / 0x1_0000_0000);
    WordMore(n % 0x1_0000_0000, LittleEndian32(n / 0x1_0000_0000));
    hide LittleEndian32;
    hide LowFirst;
  }

  /** Where each field lies, numbers by their place values: no padding, machine
      order low byte first. */
  lemma PackedFields(r: PackedRecord)
    requires |r.keyId| == 65
    ensures
      var b := Pack(r);
      && |b| == 101
      && LowFirst(b[0..8]) == r.magic && b[8] == r.version && b[9] == r.operation
      && b[10..75] == r.keyId && b[75] == r.newState
      && LowFirst(b[76..84]) == r.seqNo && b[84] == r.peerState
      && LowFirst(b[85..89]) == r.peerShardId && LowFirst(b[89..97]) == r.peerUpdatedAt
      && LowFirst(b[97..101]) == r.crc32
  {
    LowFirst64(r.magic);
    LowFirst64(r.seqNo);
    LowFirst64(r.peerUpdatedAt);
    LowFirst32(r.peerShardId);
    LowFirst32(r.crc32);
    hide LittleEndian32;
    hide LittleEndian64;
    hide LowFirst;
    var b := Pack(r);
    assert b[0..8] == LittleEndian64(r.magic);
    assert b[76..84] == LittleEndian64(r.seqNo);
    assert b[85..89] == LittleEndian32(r.peerShardId);
    assert b[89..97] == LittleEndian64(r.peerUpdatedAt);
    assert b[97..101] == LittleEndian32(r.crc32);
  }

  lemma UnpackPack(r: PackedRecord)
    requires r.Fits()
    ensures Unpack(Pack(r)) == r
  {
    hide LittleEndian32;
    hide FromLittleEndian32;
    hide LittleEndian64;
    hide FromLittleEndian64;
    var b := Pack(r);
    LittleEndian64RoundTrip(r.magic, b[0..8]);
    LittleEndian64RoundTrip(r.seqNo, b[0..8]);
    LittleEndian64RoundTrip(r.peerUpdatedAt, b[0..8]);
    LittleEndian32RoundTrip(r.peerShardId, b[0..4]);
    LittleEndian32RoundTrip(r.crc32, b[0..4]);
    assert b[0..8] == LittleEndian64(r.magic);
    assert b[10..75] == r.keyId;
    assert b[76..84] == LittleEndian64(r.seqNo);
    assert b[85..89] == LittleEndian32(r.peerShardId);
    assert b[89..97] == LittleEndian64(r.peerUpdatedAt);
    assert b[97..101] == LittleEndian32(r.crc32);
  }

  lemma PackUnpack(b: seq<u8>)
    requires |b| == RECORD_SIZE
    ensures Pack(Unpack(b)) == b
  {
    hide LittleEndian32;
    hide FromLittleEndian32;
    hide LittleEndian64;
    hide FromLittleEndian64;
    LittleEndian64RoundTrip(0, b[0..8]);
    LittleEndian64RoundTrip(0, b[76..84]);
    LittleEndian64RoundTrip(0, b[89..97]);
    LittleEndian32RoundTrip(0, b[85..89]);
    LittleEndian32RoundTrip(0, b[97..101]);
    assert b == b[0..8] + [b[8], b[9]] + b[10..75] + [b[75]] + b[76..84] + [b[84]] + b[85..89] + b[89..97] + b[97..101];
  }

  // ----- Integrity -----

  /** The stored CRC is the CRC of the bytes before it. */
  predicate CrcOk(bytes: seq<u8>)
    requires |bytes| == RECORD_SIZE
  {
    Unpack(bytes).crc32 == Crc(bytes[..CRC_OFFSET])
  }

  /** Writing a record fills in its CRC field. */
  function Seal(r: PackedRecord): PackedRecord
    requires r.Fits()
  {
    r.(crc32 := Crc(Pack(r)[..CRC_OFFSET]))
  }

  lemma SealedRecordIsValid(r: PackedRecord)
    requires r.Fits()
    ensures CrcOk(Pack(Seal(r)))
    ensures Unpack(Pack(Seal(r))) == Seal(r)
  {
    hide Crc;
    UnpackPack(Seal(r));
    assert Pack(r)[..CRC_OFFSET] == Pack(Seal(r))[..CRC_OFFSET];
  }

  /** Checking the field is the same as checking the CRC of all 101 bytes
      against one constant. */
  lemma CrcOkIsResidue(bytes: seq<u8>)
    requires |bytes| == RECORD_SIZE
    ensures CrcOk(bytes) <==> Crc(bytes) == 0x2144DF1C
  {
    hide Crc;
    hide LittleEndian32;
    hide FromLittleEndian32;
    var body, tail := bytes[..CRC_OFFSET], bytes[CRC_OFFSET..RECORD_SIZE];
    assert bytes == body + tail;
    ResidueIffConstant(body, tail);
    LittleEndian32RoundTrip(Crc(body), tail);
  }

  /** One burst of at most 32 bits anywhere in a valid record, its CRC field
      included, makes it invalid. */
  lemma BurstInvalidates(good: seq<u8>, bad: seq<u8>, at: nat)
    requires |good| == |bad| == RECORD_SIZE && good != bad
    requires CrcOk(good) && AgreeOutside(BitString(good), BitString(bad), at, 32)
    ensures !CrcOk(bad)
  {
    CrcOkIsResidue(good);
    CrcOkIsResidue(bad);
    BurstDetected(good, bad, at);
  }

  // ----- Validators -----

  predicate ValidMagic(magic: u64) {
    magic == MAGIC
  }

  predicate ValidVersion(version: u8) {
    version == VERSION
  }

  predicate ValidOperation(op: u8) {
    op <= 5
  }

  predicate ValidState(state: u8) {
    state <= 3
  }

  predicate Accepted(r: PackedRecord) {
    ValidMagic(r.magic) && ValidVersion(r.version) && ValidOperation(r.operation) && ValidState(r.newState)
  }
}
