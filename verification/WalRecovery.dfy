/** Recovery from the bytes of the log: the computed CRC check, the packed
    layout and the state machine together. */
module WalRecovery {
  import opened Bits
  import opened Crc32
  import opened WalRecordLayout
  import opened Migration
  import opened Wrappers

  type RawRecord = b: seq<u8> | |b| == RECORD_SIZE witness seq(RECORD_SIZE, i => 0)

  function StateOf(code: u8): MigrationState
    requires ValidState(code)
  {
    if code == 0 then Classical else if code == 1 then Hybrid else if code == 2 then Finalizing else PqcOnly
  }

  // Codes 4 and 5 are valid but have no replay action of their own.
  function OpOf(code: u8): Option<WalOp> {
    if code == 0 then Some(Import)
    else if code == 1 then Some(Begin)
    else if code == 2 then Some(Finalize)
    else if code == 3 then Some(Undo)
    else None
  }

  /** What replay sees of one record of the file. */
  function Decode(b: RawRecord): Option<WalRecord> {
    var r := Unpack(b);
    if !Accepted(r) then None
    else
      match OpOf(r.operation)
      case None => None
      case Some(op) => Some(WalRecord(op, r.keyId, StateOf(r.newState), r.seqNo, CrcOk(b)))
  }

  function DecodeLog(log: seq<RawRecord>): seq<WalRecord>
    decreases log
  {
    if log == [] then []
    else
      match Decode(log[0])
      case None => DecodeLog(log[1..])
      case Some(w) => [w] + DecodeLog(log[1..])
  }

  function Recover(r: MigrationRecord, log: seq<RawRecord>): MigrationRecord {
    WalReplay(r, DecodeLog(log))
  }

  lemma {:induction false} RecoverConcat(r: MigrationRecord, a: seq<RawRecord>, b: seq<RawRecord>)
    ensures Recover(r, a + b) == Recover(Recover(r, a), b)
    decreases a
  {
    if a == [] {
      assert a + b == b;
    } else {
      assert (a + b)[1..] == a[1..] + b;
      var r' := match Decode(a[0]) case None => r case Some(w) => ApplyWalRecord(r, w);
      RecoverConcat(r', a[1..], b);
      RecoverFirst(r, a);
      RecoverFirst(r, a + b);
    }
  }

  lemma RecoverFirst(r: MigrationRecord, log: seq<RawRecord>)
    requires log != []
    ensures Recover(r, log)
      == Recover(match Decode(log[0]) case None => r case Some(w) => ApplyWalRecord(r, w), log[1..])
  {
    hide Decode;
    match Decode(log[0])
    case None =>
    case Some(w) => assert ([w] + DecodeLog(log[1..]))[1..] == DecodeLog(log[1..]);
  }

  lemma InvalidRecordIsNoOp(r: MigrationRecord, b: RawRecord)
    requires !CrcOk(b)
    ensures Recover(r, [b]) == r
  {
    hide CrcOk;
    RecoverFirst(r, [b]);
  }

  /** End to end: damage one valid record of any log by a burst of at most 32
      bits, and recovery behaves as if that record had never been written. */
  lemma DamagedRecordIsSkipped(r: MigrationRecord, before: seq<RawRecord>, good: RawRecord, bad: RawRecord,
      after: seq<RawRecord>, at: nat)
    requires CrcOk(good) && good != bad
    requires AgreeOutside(BitString(good), BitString(bad), at, 32)
    ensures Recover(r, before + [bad] + after) == Recover(r, before + after)
  {
    hide Recover;
    BurstInvalidates(good, bad, at);
    RecoverConcat(r, before + [bad], after);
    RecoverConcat(r, before, [bad]);
    RecoverConcat(r, before, after);
    InvalidRecordIsNoOp(Recover(r, before), bad);
  }

  /** The same for damage within four consecutive bytes. */
  lemma DamagedBytesAreSkipped(r: MigrationRecord, before: seq<RawRecord>, good: RawRecord, bad: RawRecord,
      after: seq<RawRecord>, k: nat)
    requires CrcOk(good) && good != bad
    requires forall i :: 0 <= i < RECORD_SIZE && !(k <= i < k + 4) ==> good[i] == bad[i]
    ensures Recover(r, before + [bad] + after) == Recover(r, before + after)
  {
    BytesAgreeOutside(good, bad, k);
    DamagedRecordIsSkipped(r, before, good, bad, after, 8 * k);
  }

  // found is written, unchanged or damaged by one burst of at most 32 bits.
  ghost predicate AtMostOneBurst(written: RawRecord, found: RawRecord) {
    written == found || exists at: nat :: AgreeOutside(BitString(written), BitString(found), at, 32)
  }

  // The records that were found as they were written.
  function Intact(written: seq<RawRecord>, found: seq<RawRecord>): seq<RawRecord>
    requires |written| == |found|
    decreases found
  {
    if found == [] then []
    else (if written[0] == found[0] then [found[0]] else []) + Intact(written[1..], found[1..])
  }

  /** Any number of records may be damaged, each by its own burst: recovery is
      that of the records left intact, in their order. */
  lemma {:induction false} DamagedLogRecoversIntact(r: MigrationRecord, written: seq<RawRecord>, found: seq<RawRecord>)
    requires |written| == |found|
    requires forall i :: 0 <= i < |written| ==> CrcOk(written[i]) && AtMostOneBurst(written[i], found[i])
    ensures Recover(r, found) == Recover(r, Intact(written, found))
    decreases found
  {
    hide Recover;
    hide CrcOk;
    if found != [] {
      var w, f := written[0], found[0];
      var rest, intact := found[1..], Intact(written[1..], found[1..]);
      var r' := Recover(r, [f]);
      DamagedLogRecoversIntact(r', written[1..], rest);
      assert found == [f] + rest;
      RecoverConcat(r, [f], rest);
      if w == f {
        RecoverConcat(r, [f], intact);
      } else {
        var at: nat :| AgreeOutside(BitString(w), BitString(f), at, 32);
        BurstInvalidates(w, f, at);
        InvalidRecordIsNoOp(r, f);
        assert Intact(written, found) == intact;
      }
    }
  }

  /** What the writer seals, recovery reads back and applies: the code numbers
      of operations and states written out. */
  lemma WrittenRecordIsApplied(r: MigrationRecord, p: PackedRecord)
    requires |p.keyId| == 65 && p.magic == 0x0047_494D_5F47_4948 && p.version == 2
    requires p.operation <= 3 && p.newState <= 3
    ensures
      var w := WalRecord([Import, Begin, Finalize, Undo][p.operation], p.keyId,
                         [Classical, Hybrid, Finalizing, PqcOnly][p.newState], p.seqNo, true);
      Decode(Pack(Seal(p))) == Some(w) && Recover(r, [Pack(Seal(p))]) == ApplyWalRecord(r, w)
  {
    hide Unpack;
    hide Pack;
    hide CrcOk;
    hide Crc;
    SealedRecordIsValid(p);
    var b: RawRecord := Pack(Seal(p));
    assert Unpack(b) == Seal(p) && Accepted(Seal(p));
    RecoverFirst(r, [b]);
    hide Decode;
    assert [b][1..] == [];
  }

  /** A sealed record with another magic number or version, an operation or a
      state without replay, might as well not be there. */
  lemma RejectedRecordIsSkipped(r: MigrationRecord, before: seq<RawRecord>, p: PackedRecord, after: seq<RawRecord>)
    requires |p.keyId| == 65
    requires p.magic != 0x0047_494D_5F47_4948 || p.version != 2 || p.operation > 3 || p.newState > 3
    ensures Recover(r, before + [Pack(Seal(p))] + after) == Recover(r, before + after)
  {
    hide Unpack;
    hide Pack;
    hide CrcOk;
    hide Crc;
    SealedRecordIsValid(p);
    var b: RawRecord := Pack(Seal(p));
    assert Unpack(b) == Seal(p) && Decode(b).None?;
    RecoverFirst(Recover(r, before), [b]);
    hide Decode;
    RecoverConcat(r, before + [b], after);
    RecoverConcat(r, before, [b]);
    RecoverConcat(r, before, after);
    assert [b][1..] == [];
  }
}
