/** The crash-recovery specification: finalization with durable erasure markers
    and a crash at any point. */
module CrashSpec {

  datatype Marker = NoMarker | Erasing | Erased

  datatype Stage = Hybrid | Finalizing | PqcOnly

  datatype Spec = Spec(
    memState: Stage, memClassical: bool, walLastState: Stage, marker: Marker, finalizeStep: nat,
    crashed: bool, crashCount: nat, recovered: bool)

  const INIT := Spec(Hybrid, true, Hybrid, NoMarker, 0, false, 0, false)

  predicate EnterFinalizing(s: Spec, t: Spec) {
    && !s.crashed && s.finalizeStep == 0 && s.memState == Hybrid
    && t == s.(memState := Finalizing, walLastState := Finalizing, finalizeStep := 1)
  }

  predicate WriteErasingMarker(s: Spec, t: Spec) {
    && !s.crashed && s.finalizeStep == 1
    && t == s.(marker := Erasing, finalizeStep := 2)
  }

  predicate EraseClassical(s: Spec, t: Spec) {
    && !s.crashed && s.finalizeStep == 2
    && t == s.(memClassical := false, finalizeStep := 3)
  }

  predicate ConfirmErasure(s: Spec, t: Spec) {
    && !s.crashed && s.finalizeStep == 3
    && t == s.(marker := Erased, finalizeStep := 4)
  }

  predicate Crash(s: Spec, t: Spec, maxCrashes: nat) {
    && !s.crashed && s.crashCount < maxCrashes && 0 < s.finalizeStep < 6
    && t == s.(crashed := true, crashCount := s.crashCount + 1)
  }

  predicate Recover(s: Spec, t: Spec) {
    && s.crashed && !s.recovered
    && t == s.(memState := s.walLastState, memClassical := s.marker == NoMarker, recovered := true,
               finalizeStep := 0, crashed := false)
  }

  // One of the erasure steps, or nothing.
  predicate MarkerStep(s: Spec, t: Spec) {
    s == t || WriteErasingMarker(s, t) || EraseClassical(s, t) || ConfirmErasure(s, t)
  }
}
