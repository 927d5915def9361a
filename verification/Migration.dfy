/** The key migration state machine and its replay from a write-ahead log. */
module Migration {
  import opened Wrappers

  datatype MigrationState = Classical | Hybrid | Finalizing | PqcOnly

  datatype MigrationRecord = MigrationRecord(state: MigrationState, hasClassical: bool, hasPqc: bool, generation: nat)

  predicate WellFormed(r: MigrationRecord) {
    match r.state
    case Classical => r.hasClassical && !r.hasPqc
    case Hybrid => r.hasClassical && r.hasPqc
    case Finalizing => r.hasClassical && r.hasPqc
    case PqcOnly => !r.hasClassical && r.hasPqc
  }

  // ----- Transitions; None is the validation error -----

  const IMPORTED: MigrationRecord := MigrationRecord(Classical, true, false, 0)

  function BeginMigration(r: MigrationRecord): Option<MigrationRecord> {
    if r.state.Classical? then Some(MigrationRecord(Hybrid, true, true, r.generation + 1)) else None
  }

  function EnterFinalizing(r: MigrationRecord): Option<MigrationRecord> {
    if r.state.Hybrid? then Some(MigrationRecord(Finalizing, true, true, r.generation)) else None
  }

  function CompleteFinalization(r: MigrationRecord): Option<MigrationRecord> {
    if r.state.Finalizing? then Some(MigrationRecord(PqcOnly, false, true, r.generation)) else None
  }

  function Rollback(r: MigrationRecord): Option<MigrationRecord> {
    if r.state.Hybrid? || r.state.Finalizing? then Some(MigrationRecord(Classical, true, false, r.generation)) else None
  }

  // ----- The write-ahead log -----

  datatype WalOp = Import | Begin | Finalize | Undo

  datatype WalRecord = WalRecord(op: WalOp, keyId: seq<nat>, state: MigrationState, seqNo: nat, crcOk: bool)

  function ApplyWalRecord(r: MigrationRecord, w: WalRecord): MigrationRecord {
    if !w.crcOk then r
    else
      match w.op
      case Import => IMPORTED
      case Begin => (match BeginMigration(r) case Some(r') => r' case None => r)
      case Finalize =>
        (match EnterFinalizing(r)
         case Some(r1) => (match CompleteFinalization(r1) case Some(r2) => r2 case None => r1)
         case None => (match CompleteFinalization(r) case Some(r2) => r2 case None => r))
      case Undo => (match Rollback(r) case Some(r') => r' case None => r)
  }

  function WalReplay(r: MigrationRecord, log: seq<WalRecord>): MigrationRecord
    decreases log
  {
    if log == [] then r else WalReplay(ApplyWalRecord(r, log[0]), log[1..])
  }

  /** What each operation makes of a record in each state; an operation that
      does not apply leaves it alone. */
  lemma OperationOutcomes(r: MigrationRecord, w: WalRecord)
    requires w.crcOk
    ensures w.op == Import ==> ApplyWalRecord(r, w) == MigrationRecord(Classical, true, false, 0)
    ensures w.op == Begin ==>
      ApplyWalRecord(r, w) == if r.state == Classical then MigrationRecord(Hybrid, true, true, r.generation + 1) else r
    ensures w.op == Finalize ==>
      ApplyWalRecord(r, w)
      == if r.state in {Hybrid, Finalizing} then MigrationRecord(PqcOnly, false, true, r.generation) else r
    ensures w.op == Undo ==>
      ApplyWalRecord(r, w)
      == if r.state in {Hybrid, Finalizing} then MigrationRecord(Classical, true, false, r.generation) else r
  {
  }

  lemma {:induction false} WalReplayConcat(r: MigrationRecord, a: seq<WalRecord>, b: seq<WalRecord>)
    ensures WalReplay(r, a + b) == WalReplay(WalReplay(r, a), b)
    decreases a
  {
    if a == [] {
      assert a + b == b;
    } else {
      assert (a + b)[1..] == a[1..] + b;
      WalReplayConcat(ApplyWalRecord(r, a[0]), a[1..], b);
    }
  }

  lemma {:induction false} ReplayKeepsWellFormed(r: MigrationRecord, log: seq<WalRecord>)
    requires WellFormed(r)
    ensures WellFormed(WalReplay(r, log))
    decreases log
  {
    if log != [] {
      ReplayKeepsWellFormed(ApplyWalRecord(r, log[0]), log[1..]);
    }
  }

  function ValidOnly(log: seq<WalRecord>): (valid: seq<WalRecord>)
    ensures forall w :: w in valid <==> w in log && w.crcOk
    decreases log
  {
    if log == [] then []
    else
      assert log == [log[0]] + log[1..];
      if log[0].crcOk then [log[0]] + ValidOnly(log[1..]) else ValidOnly(log[1..])
  }

  /** Records with a bad CRC might as well not be there. */
  lemma {:induction false} ReplayIgnoresInvalid(r: MigrationRecord, log: seq<WalRecord>)
    ensures WalReplay(r, log) == WalReplay(r, ValidOnly(log))
    decreases log
  {
    if log != [] {
      ReplayIgnoresInvalid(ApplyWalRecord(r, log[0]), log[1..]);
    }
  }

  // ----- Replaying twice -----

  predicate HasImport(log: seq<WalRecord>) {
    exists w :: w in log && w.crcOk && w.op.Import?
  }

  /** After a valid import the past is forgotten. */
  lemma {:induction false} ImportForgets(r: MigrationRecord, s: MigrationRecord, log: seq<WalRecord>)
    requires HasImport(log)
    ensures WalReplay(r, log) == WalReplay(s, log)
    decreases log
  {
    if !(log[0].crcOk && log[0].op.Import?) {
      assert log == [log[0]] + log[1..];
      ImportForgets(ApplyWalRecord(r, log[0]), ApplyWalRecord(s, log[0]), log[1..]);
    }
  }

  // The operation would change a record in state s.
  predicate Effective(s: MigrationState, op: WalOp) {
    match op
    case Import => true
    case Begin => s.Classical?
    case Finalize => s.Hybrid? || s.Finalizing?
    case Undo => s.Hybrid? || s.Finalizing?
  }

  // No valid record of the log applies to a record in state s.
  predicate Stuck(s: MigrationState, log: seq<WalRecord>) {
    forall w :: w in log && w.crcOk ==> !Effective(s, w.op)
  }

  // Every effective operation other than an import moves this up.
  function Rank(r: MigrationRecord): nat {
    3 * r.generation + match r.state case Hybrid => 0 case Finalizing => 0 case Classical => 1 case PqcOnly => 2
  }

  lemma {:induction false} RankGrows(r: MigrationRecord, log: seq<WalRecord>)
    requires !HasImport(log)
    ensures Rank(WalReplay(r, log)) >= Rank(r)
    ensures Stuck(r.state, log) ==> WalReplay(r, log) == r
    ensures !Stuck(r.state, log) ==> Rank(WalReplay(r, log)) > Rank(r)
    decreases log
  {
    if log != [] {
      assert log == [log[0]] + log[1..];
      RankGrows(ApplyWalRecord(r, log[0]), log[1..]);
    }
  }

  // A second replay changes nothing exactly when the first ended stuck.
  lemma StuckWhenRepeated(r: MigrationRecord, log: seq<WalRecord>)
    ensures WalReplay(WalReplay(r, log), log) == WalReplay(r, log)
      <==> HasImport(log) || Stuck(WalReplay(r, log).state, log)
  {
    if HasImport(log) {
      ImportForgets(WalReplay(r, log), r, log);
    } else {
      RankGrows(WalReplay(r, log), log);
    }
  }

  predicate Under(s: MigrationState) {
    s.Hybrid? || s.Finalizing?
  }

  predicate Occurs(log: seq<WalRecord>, ops: set<WalOp>) {
    exists w :: w in log && w.crcOk && w.op in ops
  }

  lemma OccursLater(log: seq<WalRecord>, ops: set<WalOp>)
    requires log != []
    ensures Occurs(log, ops) <==> (log[0].crcOk && log[0].op in ops) || Occurs(log[1..], ops)
  {
    assert log == [log[0]] + log[1..];
    if w :| w in log[1..] && w.crcOk && w.op in ops {
      assert w in log;
    }
  }

  // A log of valid records finalizes a record that starts in state s: it is
  // finalized already, a Finalize directly follows a Begin, or a Finalize comes
  // first while a migration is under way.
  predicate Finalizes(s: MigrationState, valid: seq<WalRecord>) {
    || s.PqcOnly?
    || (exists i {:trigger valid[i]} :: 0 < i < |valid| && valid[i - 1].op.Begin? && valid[i].op.Finalize?)
    || (valid != [] && valid[0].op.Finalize? && Under(s))
  }

  lemma {:induction false} EndsPqcOnlyIff(r: MigrationRecord, valid: seq<WalRecord>)
    requires forall w :: w in valid ==> w.crcOk && !w.op.Import?
    ensures WalReplay(r, valid).state.PqcOnly? <==> Finalizes(r.state, valid)
    decreases valid
  {
    if valid != [] {
      var r', rest := ApplyWalRecord(r, valid[0]), valid[1..];
      assert valid == [valid[0]] + rest;
      EndsPqcOnlyIff(r', rest);
      FinalizesFirst(r, valid);
    }
  }

  lemma FinalizesFirst(r: MigrationRecord, valid: seq<WalRecord>)
    requires valid != [] && valid[0].crcOk && !valid[0].op.Import?
    ensures Finalizes(r.state, valid) <==> Finalizes(ApplyWalRecord(r, valid[0]).state, valid[1..])
  {
    var s, rest := ApplyWalRecord(r, valid[0]).state, valid[1..];
    if i :| 0 < i < |valid| && valid[i - 1].op.Begin? && valid[i].op.Finalize? {
      assert rest[i - 1] == valid[i];
      if i > 1 {
        assert rest[i - 2] == valid[i - 1];
      }
    }
    if i :| 0 < i < |rest| && rest[i - 1].op.Begin? && rest[i].op.Finalize? {
      assert valid[i + 1] == rest[i] && valid[i] == rest[i - 1];
    }
    if rest != [] && rest[0].op.Finalize? && Under(s) {
      assert valid[1] == rest[0] && valid[0].op.Begin?;
    }
  }

  // Without a Begin, or without anything that leaves a migration under way, a
  // log ends where it no longer applies.
  lemma {:induction false} OneWayLogEndsStuck(r: MigrationRecord, log: seq<WalRecord>)
    requires !HasImport(log)
    requires !Occurs(log, {Begin}) || !Occurs(log, {Finalize, Undo})
    ensures Stuck(WalReplay(r, log).state, log)
    decreases log
  {
    if log != [] {
      var r' := ApplyWalRecord(r, log[0]);
      assert log == [log[0]] + log[1..];
      OccursLater(log, {Begin});
      OccursLater(log, {Finalize, Undo});
      OneWayLogEndsStuck(r', log[1..]);
      if log[0].crcOk {
        StaysStuck(r', log[1..], log[0].op);
      }
    }
  }

  // An operation of a one-way log that has been applied does not apply again.
  lemma {:induction false} StaysStuck(r: MigrationRecord, log: seq<WalRecord>, op: WalOp)
    requires !HasImport(log) && !op.Import? && !Effective(r.state, op)
    requires op.Begin? ==> !Occurs(log, {Finalize, Undo})
    requires !op.Begin? ==> !Occurs(log, {Begin})
    ensures !Effective(WalReplay(r, log).state, op)
    decreases log
  {
    if log != [] {
      assert log == [log[0]] + log[1..];
      OccursLater(log, {Begin});
      OccursLater(log, {Finalize, Undo});
      StaysStuck(ApplyWalRecord(r, log[0]), log[1..], op);
    }
  }

  /** Recovery can be repeated safely exactly when the log imports the key, has
      no Begin, has neither Finalize nor Rollback, or its valid records finalize
      the migration. */
  lemma ReplayTwice(r: MigrationRecord, log: seq<WalRecord>)
    ensures WalReplay(WalReplay(r, log), log) == WalReplay(r, log)
      <==> (HasImport(log) || !Occurs(log, {Begin}) || !Occurs(log, {Finalize, Undo})
            || Finalizes(r.state, ValidOnly(log)))
  {
    StuckWhenRepeated(r, log);
    if !HasImport(log) {
      ReplayIgnoresInvalid(r, log);
      EndsPqcOnlyIff(r, ValidOnly(log));
      if !Occurs(log, {Begin}) || !Occurs(log, {Finalize, Undo}) {
        OneWayLogEndsStuck(r, log);
      }
    }
  }

  lemma ReplayPair(r: MigrationRecord, a: WalRecord, b: WalRecord)
    ensures WalReplay(r, [a, b]) == ApplyWalRecord(ApplyWalRecord(r, a), b)
  {
    assert [a, b][1..] == [b] && [b][1..] == [];
    assert WalReplay(ApplyWalRecord(r, a), [b]) == ApplyWalRecord(ApplyWalRecord(r, a), b);
  }

  /** It is not always safe: this log leaves a fresh import HYBRID the first
      time and PQC-only the second. */
  lemma ReplayTwiceDiffers(keyId: seq<nat>)
    ensures
      var log := [WalRecord(Finalize, keyId, PqcOnly, 1, true), WalRecord(Begin, keyId, Hybrid, 2, true)];
      && WalReplay(IMPORTED, log).state.Hybrid?
      && WalReplay(WalReplay(IMPORTED, log), log).state.PqcOnly?
  {
    var f, b := WalRecord(Finalize, keyId, PqcOnly, 1, true), WalRecord(Begin, keyId, Hybrid, 2, true);
    ReplayPair(IMPORTED, f, b);
    ReplayPair(MigrationRecord(Hybrid, true, true, 1), f, b);
  }

  // ----- Logs that do not import -----

  // How many Begin (Undo) records took effect.
  function Begins(r: MigrationRecord, log: seq<WalRecord>): nat
    decreases log
  {
    if log == [] then 0
    else
      (if log[0].crcOk && log[0].op.Begin? && BeginMigration(r).Some? then 1 else 0)
      + Begins(ApplyWalRecord(r, log[0]), log[1..])
  }

  function Rollbacks(r: MigrationRecord, log: seq<WalRecord>): nat
    decreases log
  {
    if log == [] then 0
    else
      (if log[0].crcOk && log[0].op.Undo? && Rollback(r).Some? then 1 else 0)
      + Rollbacks(ApplyWalRecord(r, log[0]), log[1..])
  }

  function Started(s: MigrationState): nat {
    if s.Classical? then 0 else 1
  }

  /** The generation counts the migrations begun, and every migration begun is
      either under way, finished, or was rolled back. */
  lemma {:induction false} GenerationConserved(r: MigrationRecord, log: seq<WalRecord>)
    requires !HasImport(log)
    ensures WalReplay(r, log).generation == r.generation + Begins(r, log)
    ensures Begins(r, log) + Started(r.state) == Rollbacks(r, log) + Started(WalReplay(r, log).state)
    decreases log
  {
    if log != [] {
      assert log == [log[0]] + log[1..];
      GenerationConserved(ApplyWalRecord(r, log[0]), log[1..]);
    }
  }

  /** With an import, the generation counts the migrations begun after the last
      one. */
  lemma GenerationSinceImport(r: MigrationRecord, before: seq<WalRecord>, w: WalRecord, after: seq<WalRecord>)
    requires w.crcOk && w.op.Import? && !HasImport(after)
    ensures
      var imported := MigrationRecord(Classical, true, false, 0);
      && WalReplay(r, before + [w] + after) == WalReplay(imported, after)
      && WalReplay(r, before + [w] + after).generation == Begins(imported, after)
  {
    var imported := MigrationRecord(Classical, true, false, 0);
    WalReplayConcat(r, before + [w], after);
    WalReplayConcat(r, before, [w]);
    assert [w][1..] == [];
    assert WalReplay(WalReplay(r, before), [w]) == imported;
    GenerationConserved(imported, after);
  }

  /** At most one migration more was begun than was rolled back. */
  lemma BeginsAtMostOneAhead(r: MigrationRecord, log: seq<WalRecord>)
    requires !HasImport(log)
    ensures Begins(r, log) <= Rollbacks(r, log) + 1
  {
    GenerationConserved(r, log);
  }

  /** PQC-only is final, and an erased classical key stays erased. */
  lemma {:induction false} PqcOnlyAbsorbs(r: MigrationRecord, log: seq<WalRecord>)
    requires !HasImport(log)
    ensures r.state.PqcOnly? ==> WalReplay(r, log) == r
    ensures WellFormed(r) && !r.hasClassical ==> !WalReplay(r, log).hasClassical
    decreases log
  {
    if log != [] {
      assert log == [log[0]] + log[1..];
      PqcOnlyAbsorbs(ApplyWalRecord(r, log[0]), log[1..]);
    }
  }
}
