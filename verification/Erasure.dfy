/** Durable erasure: the steps of `higgaion_key_erase_durable`, with a crash
    allowed before, after and in the middle of each of them and after the call. */
module Erasure {
  import opened CrashSpec
  import opened Wrappers
  import O = Ownership
  import KeyLifecycle

  const ERASING: string := "ERASING"
  const ERASED: string := "ERASED "

  // The temporary file and the file at wal_path.
  datatype Disk = Disk(tmp: Option<string>, wal: Option<string>)

  // How far the call has come.
  datatype Point =
    | Start // nothing done
    | Opened // the temporary file is empty
    | Marked // "ERASING" written and synced
    | Released // the key reference is gone
    | Confirmed // "ERASED " written and synced
    | Renamed // the temporary file moved to wal_path, perhaps not yet durably
    | Synced // the parent directory synced

  datatype Status = Running | Returned(ok: bool) | Crashed

  // disk: what the files show. older: what they showed before directory changes,
  // of this call or of earlier ones, that are not yet known to have reached the
  // disk. held: key->pkey is not NULL. After a crash, disk is what it left, and
  // point and held tell when it happened.
  datatype State = State(point: Point, status: Status, disk: Disk, older: set<Disk>, held: bool)

  // What an interrupted write of text at offset 0 of before may leave: any
  // mixture of old and new bytes, and zero bytes where the file grew.
  predicate Torn(before: string, text: string, c: string) {
    && |before| <= |c| <= (if |before| < |text| then |text| else |before|)
    && forall i :: 0 <= i < |c| ==>
         || (i < |before| && c[i] == before[i])
         || (i < |text| && c[i] == text[i])
         || (i >= |before| && c[i] == '\0')
  }

  // ----- The steps -----

  predicate RunningAt(c: State, p: Point) {
    c.status.Running? && c.point == p
  }

  predicate Refuse(c: State, d: State) {
    RunningAt(c, Start) && d == c.(status := Returned(false))
  }

  // Changing the directory leaves a way back to what it was.
  predicate Open(c: State, d: State) {
    && RunningAt(c, Start) && c.held
    && d == c.(point := Opened, disk := c.disk.(tmp := Some("")),
               older := if c.disk.tmp.None? then c.older + {c.disk} else c.older)
  }

  predicate WriteErasing(c: State, d: State) {
    RunningAt(c, Opened) && d == c.(point := Marked, disk := c.disk.(tmp := Some(ERASING)))
  }

  predicate WriteErasingFails(c: State, d: State) {
    && RunningAt(c, Opened)
    && d.disk.tmp.Some? && Torn("", ERASING, d.disk.tmp.value)
    && d == c.(status := Returned(false), disk := c.disk.(tmp := d.disk.tmp))
  }

  predicate Release(c: State, d: State) {
    RunningAt(c, Marked) && d == c.(point := Released, held := false)
  }

  predicate WriteErased(c: State, d: State) {
    RunningAt(c, Released) && d == c.(point := Confirmed, disk := c.disk.(tmp := Some(ERASED)))
  }

  predicate WriteErasedFails(c: State, d: State) {
    && RunningAt(c, Released)
    && d.disk.tmp.Some? && Torn(ERASING, ERASED, d.disk.tmp.value)
    && d == c.(status := Returned(false), disk := c.disk.(tmp := d.disk.tmp))
  }

  predicate Rename(c: State, d: State) {
    && RunningAt(c, Confirmed)
    && d == c.(point := Renamed, disk := Disk(None, c.disk.tmp), older := c.older + {c.disk})
  }

  predicate RenameFails(c: State, d: State) {
    RunningAt(c, Confirmed) && d == c.(status := Returned(false))
  }

  predicate SyncParent(c: State, d: State) {
    RunningAt(c, Renamed) && d == c.(point := Synced, older := {})
  }

  // With the parent directory synced or not.
  predicate Succeed(c: State, d: State) {
    (RunningAt(c, Renamed) || RunningAt(c, Synced)) && d == c.(status := Returned(true))
  }

  predicate Advance(c: State, d: State) {
    || Refuse(c, d) || Open(c, d)
    || WriteErasing(c, d) || WriteErasingFails(c, d)
    || Release(c, d)
    || WriteErased(c, d) || WriteErasedFails(c, d)
    || Rename(c, d) || RenameFails(c, d)
    || SyncParent(c, d) || Succeed(c, d)
  }

  // ----- Crashes -----

  // What of the work in progress reached the disk: the truncation or creation
  // of the temporary file, the text of the write under way and the rename under
  // way; or, going back: Some, the older directory that is left instead.
  datatype Kept = Kept(truncated: bool, text: string, renamed: bool, back: Option<Disk>)

  // What a failed write left is settled when the call returns.
  predicate Possible(c: State, k: Kept) {
    && (c.point.Start? && !(c.status.Running? && c.held) ==> !k.truncated)
    && (c.point.Opened? && c.status.Running? ==> Torn("", ERASING, k.text))
    && (c.point.Opened? && !c.status.Running? ==> k.truncated && Some(k.text) == c.disk.tmp)
    && (c.point.Released? && c.status.Running? ==> Torn(ERASING, ERASED, k.text))
    && (c.point.Released? && !c.status.Running? ==> Some(k.text) == c.disk.tmp)
    && (k.renamed ==> c.point.Renamed? || c.point.Synced? || RunningAt(c, Confirmed))
    && (c.point.Renamed? || c.point.Synced? ==> k.renamed)
    && (k.back.Some? ==> k.back.value in c.older)
  }

  // before: the disk at the call. A truncation of a file that existed then may
  // be lost until the first marker is synced.
  function Surviving(before: Disk, c: State, k: Kept): Disk {
    if k.back.Some? then k.back.value
    else
      match c.point
      case Start => if k.truncated then c.disk.(tmp := Some("")) else c.disk
      case Opened =>
        if before.tmp.Some? && !k.truncated then c.disk.(tmp := before.tmp) else c.disk.(tmp := Some(k.text))
      case Released => c.disk.(tmp := Some(k.text))
      case Confirmed => if k.renamed then Disk(None, c.disk.tmp) else c.disk
      case _ => c.disk
  }

  // After a crash what is left is all there is.
  predicate CrashAt(before: Disk, c: State, d: State, k: Kept) {
    && !c.status.Crashed? && Possible(c, k)
    && d == c.(status := Crashed, disk := Surviving(before, c, k), older := {})
  }

  ghost predicate Next(before: Disk, c: State, d: State) {
    Advance(c, d) || exists k: Kept :: CrashAt(before, c, d, k)
  }

  ghost predicate IsRun(run: seq<State>) {
    && |run| > 0 && RunningAt(run[0], Start)
    && forall i :: 0 <= i < |run| - 1 ==> Next(run[0].disk, run[i], run[i + 1])
  }

  // ----- Safety -----

  // The file's bytes are a mixture of the two complete markers.
  predicate InProgress(c: string) {
    |c| == 7 && forall i :: 0 <= i < 7 ==> c[i] == ERASING[i] || c[i] == ERASED[i]
  }

  // What the files may go back to.
  function OlderAt(start: State, p: Point): set<Disk> {
    var created := if start.disk.tmp.None? then start.older + {start.disk} else start.older;
    match p
    case Start => start.older
    case Renamed => created + {Disk(Some(ERASED), start.disk.wal)}
    case Synced => {}
    case _ => created
  }

  // Every directory change before the call has reached the disk.
  predicate Settled(start: State) {
    start.older == {}
  }

  // The temporary file existed at the call, in a directory synced since: a file
  // left by a failed call does not qualify, one left by a crash does.
  predicate Anchored(start: State) {
    Settled(start) && start.disk.tmp.Some?
  }

  // The disk while the program is there to see it.
  predicate LiveDisk(start: State, c: State) {
    && c.older == OlderAt(start, c.point)
    && match c.point
       case Start => c.disk == start.disk
       case Opened =>
         && c.disk.wal == start.disk.wal && c.disk.tmp.Some?
         && (if c.status.Running? then c.disk.tmp.value == "" else Torn("", ERASING, c.disk.tmp.value))
       case Marked => c.disk == Disk(Some(ERASING), start.disk.wal)
       case Released =>
         && c.disk.wal == start.disk.wal && c.disk.tmp.Some?
         && (if c.status.Running? then c.disk.tmp.value == ERASING else Torn(ERASING, ERASED, c.disk.tmp.value))
       case Confirmed => c.disk == Disk(Some(ERASED), start.disk.wal)
       case Renamed => c.disk == Disk(None, Some(ERASED))
       case Synced => c.disk == Disk(None, Some(ERASED))
  }

  // The disk a crash left.
  predicate LeftDisk(start: State, c: State) {
    && Settled(c)
    && (c.disk in OlderAt(start, c.point) || KeptDisk(start, c))
  }

  predicate KeptDisk(start: State, c: State) {
    match c.point
    case Start => c.disk == start.disk || c.disk == start.disk.(tmp := Some(""))
    case Opened =>
      || c.disk == start.disk
      || (c.disk.wal == start.disk.wal && c.disk.tmp.Some? && Torn("", ERASING, c.disk.tmp.value))
    case Marked => c.disk == Disk(Some(ERASING), start.disk.wal)
    case Released => c.disk.wal == start.disk.wal && c.disk.tmp.Some? && Torn(ERASING, ERASED, c.disk.tmp.value)
    case Confirmed => c.disk == Disk(Some(ERASED), start.disk.wal) || c.disk == Disk(None, Some(ERASED))
    case Renamed => c.disk == Disk(None, Some(ERASED))
    case Synced => c.disk == Disk(None, Some(ERASED))
  }

  // start is the state at the call.
  predicate Inv(start: State, c: State) {
    && (c.held <==> start.held && (c.point.Start? || c.point.Opened? || c.point.Marked?))
    && (!c.point.Start? ==> start.held)
    && (c.status.Returned? ==> (c.status.ok <==> c.point.Renamed? || c.point.Synced?) && !c.point.Marked?)
    && (if c.status.Crashed? then LeftDisk(start, c) else LiveDisk(start, c))
  }

  lemma CrashKeepsInv(start: State, c: State, d: State, k: Kept)
    requires Inv(start, c) && CrashAt(start.disk, c, d, k)
    ensures Inv(start, d)
  {
    hide Torn;
  }

  lemma InvStep(start: State, c: State, d: State)
    requires Inv(start, c) && Next(start.disk, c, d)
    ensures Inv(start, d)
  {
    hide Torn;
    if !Advance(c, d) {
      var k: Kept :| CrashAt(start.disk, c, d, k);
      CrashKeepsInv(start, c, d, k);
    }
  }

  lemma {:induction false} RunInv(run: seq<State>, i: nat)
    requires IsRun(run) && i < |run|
    ensures Inv(run[0], run[i])
    decreases i
  {
    hide Next;
    hide Inv;
    if i > 0 {
      RunInv(run, i - 1);
      assert Next(run[0].disk, run[i - 1], run[i - 1 + 1]);
      InvStep(run[0], run[i - 1], run[i]);
    } else {
      StartInv(run[0]);
    }
  }

  lemma StartInv(start: State)
    requires RunningAt(start, Start)
    ensures Inv(start, start)
  {
  }

  lemma TornSecond(c: string)
    requires Torn(ERASING, ERASED, c)
    ensures InProgress(c)
  {
  }

  lemma CompleteMarkers()
    ensures InProgress(ERASING) && InProgress(ERASED)
  {
  }

  // What recovery reads from the two files.
  function ReadMarker(disk: Disk): Marker {
    if disk.wal == Some(ERASED) then CrashSpec.Erased
    else
      match disk.tmp
      case None => NoMarker
      case Some(c) =>
        if c == ERASED then CrashSpec.Erased
        else if InProgress(c) then CrashSpec.Erasing
        else NoMarker
  }

  // Whatever the files go back to, they show a marker, and wal_path shows one
  // already unless there is a temporary file to go back to.
  predicate Covered(start: State) {
    && (start.disk.tmp.Some? || start.disk.wal == Some(ERASED))
    && (forall disk :: disk in start.older ==> ReadMarker(disk) != NoMarker)
  }

  /** Once the key is released the two files together show a marker, after a
      crash if the start was covered. */
  lemma BothFilesShow(run: seq<State>, i: nat)
    requires IsRun(run) && i < |run| && run[0].held && !run[i].held
    requires Covered(run[0]) || !run[i].status.Crashed?
    ensures ReadMarker(run[i].disk) != NoMarker
  {
    hide IsRun;
    RunInv(run, i);
    CompleteMarkers();
    if run[i].point.Released? && run[i].disk.tmp.Some? && Torn(ERASING, ERASED, run[i].disk.tmp.value) {
      TornSecond(run[i].disk.tmp.value);
    }
    hide Torn;
    hide InProgress;
  }

  /** At every point of every run, crashed or not: wal_path is what it was or
      exactly "ERASED ", unless a crash undid directory changes older than the
      call; it changes only once the key is released, and success means a NULL
      key and the final marker in place. From a covered start a crash after the
      release leaves a marker. */
  lemma WalPathIsAllOrNothing(run: seq<State>, i: nat)
    requires IsRun(run) && i < |run|
    ensures
      || run[i].disk.wal == run[0].disk.wal
      || (run[i].disk.wal == Some(ERASED) && !run[i].held)
      || (run[i].status.Crashed? && run[i].disk in run[0].older)
    ensures run[i].status == Returned(true) ==> !run[i].held && run[i].disk == Disk(None, Some(ERASED))
    ensures run[i].status.Crashed? && run[0].held && !run[i].held && Covered(run[0]) ==>
      ReadMarker(run[i].disk) != NoMarker
  {
    hide IsRun;
    RunInv(run, i);
    hide Torn;
    hide ReadMarker;
    if run[0].held && !run[i].held && Covered(run[0]) {
      BothFilesShow(run, i);
    }
  }

  /** The key reference is released only after the complete "ERASING" marker
      was written and synced. */
  lemma {:induction false} ReleasedOnlyAfterMarker(run: seq<State>, i: nat)
    requires IsRun(run) && i < |run| && run[0].held && !run[i].held
    ensures exists j :: 0 <= j < i && RunningAt(run[j], Marked) && run[j].held && run[j].disk.tmp == Some("ERASING")
    decreases i
  {
    hide Torn;
    hide Surviving;
    hide Possible;
    RunInv(run, i - 1);
    assert Next(run[0].disk, run[i - 1], run[i - 1 + 1]);
    if run[i - 1].held {
      assert RunningAt(run[i - 1], Marked);
    } else {
      ReleasedOnlyAfterMarker(run, i - 1);
    }
  }

  // ----- Refinement of the specification -----

  // The specification's state, entered at its FINALIZING step.
  function Abstract(c: State): Spec {
    var marker := ReadMarker(c.disk);
    Spec(Finalizing, c.held, Finalizing, marker,
         match marker case NoMarker => 1 case Erasing => (if c.held then 2 else 3) case Erased => 4,
         c.status.Crashed?, if c.status.Crashed? then 1 else 0, false)
  }

  // Markers of this call only: none is on disk when it starts, nor can a crash
  // bring one back.
  predicate FreshStart(start: State) {
    && RunningAt(start, Start) && start.held && ReadMarker(start.disk) == NoMarker
    && (forall disk :: disk in start.older ==> ReadMarker(disk) == NoMarker)
  }

  lemma TornFirst(c: string)
    requires Torn("", ERASING, c)
    ensures InProgress(c) ==> c == ERASING
    ensures c != ERASED
  {
    if |c| == 7 && InProgress(c) {
      assert c[4] == 'I' && c[5] == 'N' && c[6] == 'G';
      assert c[0] == 'E' && c[1] == 'R' && c[2] == 'A' && c[3] == 'S';
    }
  }

  // What a file's content says, torn or whole.
  lemma MarkersOfDisk(disk: Disk)
    ensures disk.tmp.Some? && Torn("", ERASING, disk.tmp.value) && disk.wal != Some(ERASED) ==>
      ReadMarker(disk) == if disk.tmp.value == ERASING then CrashSpec.Erasing else NoMarker
    ensures disk.tmp.Some? && Torn(ERASING, ERASED, disk.tmp.value) && disk.wal != Some(ERASED) ==>
      ReadMarker(disk) == if disk.tmp.value == ERASED then CrashSpec.Erased else CrashSpec.Erasing
    ensures disk.wal != Some(ERASED) ==> ReadMarker(disk.(tmp := Some(ERASING))) == CrashSpec.Erasing
    ensures disk.wal != Some(ERASED) ==> ReadMarker(disk.(tmp := Some(""))) == NoMarker
  {
    CompleteMarkers();
    if disk.tmp.Some? && Torn("", ERASING, disk.tmp.value) {
      TornFirst(disk.tmp.value);
    }
    if disk.tmp.Some? && Torn(ERASING, ERASED, disk.tmp.value) {
      TornSecond(disk.tmp.value);
    }
    hide Torn;
  }

  // What is read while the program is there, by how far it came.
  lemma LiveMarker(start: State, c: State)
    requires FreshStart(start) && Inv(start, c) && !c.status.Crashed?
    ensures match c.point
      case Start => ReadMarker(c.disk) == NoMarker
      case Opened => ReadMarker(c.disk) == NoMarker || (!c.status.Running? && ReadMarker(c.disk) == CrashSpec.Erasing)
      case Marked => ReadMarker(c.disk) == CrashSpec.Erasing
      case Released =>
        ReadMarker(c.disk) == CrashSpec.Erasing || (!c.status.Running? && ReadMarker(c.disk) == CrashSpec.Erased)
      case _ => ReadMarker(c.disk) == CrashSpec.Erased
  {
    MarkersOfDisk(c.disk);
    assert ERASING != ERASED && ERASING != "";
    hide Torn;
    hide InProgress;
    hide OlderAt;
  }

  /** Every step of the code is one of the specification's erasure steps or
      none. */
  lemma StepRefines(start: State, c: State, d: State)
    requires FreshStart(start) && Inv(start, c) && Advance(c, d)
    ensures MarkerStep(Abstract(c), Abstract(d))
  {
    InvStep(start, c, d);
    LiveMarker(start, c);
    LiveMarker(start, d);
    hide Torn;
    hide Next;
    hide ReadMarker;
    hide LiveDisk;
    hide LeftDisk;
  }

  /** A crash is the specification's crash, after the marker of the interrupted
      write if that marker was complete, exactly when it does not go back to a
      directory without the marker. */
  lemma CrashRefines(start: State, c: State, d: State, k: Kept)
    requires FreshStart(start) && Inv(start, c) && CrashAt(start.disk, c, d, k)
    ensures SpecTransition(Abstract(c), Abstract(d))
      <==> (ReadMarker(c.disk) == NoMarker || ReadMarker(d.disk) != NoMarker)
  {
    CrashKeepsInv(start, c, d, k);
    MarkersOfDisk(c.disk);
    MarkersOfDisk(d.disk);
    assert ERASING != ERASED && ERASING != "";
    hide Torn;
    hide InProgress;
    var m := Abstract(d).(crashed := false, crashCount := 0);
    if ReadMarker(c.disk) == NoMarker || ReadMarker(d.disk) != NoMarker {
      assert MarkerStep(Abstract(c), m) && Crash(m, Abstract(d), 1);
    }
  }

  /** The call starts where the specification's FINALIZING step ends. */
  lemma StartRefines(start: State)
    requires FreshStart(start)
    ensures EnterFinalizing(INIT, Abstract(start))
  {
  }

  ghost predicate SpecTransition(s: Spec, t: Spec) {
    MarkerStep(s, t) || exists m: Spec :: MarkerStep(s, m) && Crash(m, t, 1)
  }

  /** Refinement: every run of the code is a behaviour of the specification
      after its FINALIZING step, a crash included if the temporary file was
      anchored. */
  lemma RunRefines(run: seq<State>, i: nat)
    requires IsRun(run) && FreshStart(run[0]) && i + 1 < |run|
    requires Anchored(run[0]) || !run[i + 1].status.Crashed?
    ensures EnterFinalizing(INIT, Abstract(run[0]))
    ensures SpecTransition(Abstract(run[i]), Abstract(run[i + 1]))
  {
    StartRefines(run[0]);
    RunInv(run, i);
    assert Next(run[0].disk, run[i], run[i + 1]);
    if Advance(run[i], run[i + 1]) {
      StepRefines(run[0], run[i], run[i + 1]);
    } else {
      var k: Kept :| CrashAt(run[0].disk, run[i], run[i + 1], k);
      CrashRefines(run[0], run[i], run[i + 1], k);
      AnchoredKeepsMarker(run[0], run[i], run[i + 1], k);
    }
  }

  lemma AnchoredKeepsMarker(start: State, c: State, d: State, k: Kept)
    requires FreshStart(start) && Inv(start, c) && CrashAt(start.disk, c, d, k) && Anchored(start)
    ensures ReadMarker(c.disk) == NoMarker || ReadMarker(d.disk) != NoMarker
  {
    CrashKeepsInv(start, c, d, k);
    MarkersOfDisk(c.disk);
    MarkersOfDisk(d.disk);
    hide Torn;
    hide InProgress;
  }

  // The state a call reaches when nothing fails.
  function Stage(start: State, p: Point): State {
    var wal := start.disk.wal;
    var disk :=
      match p
      case Start => start.disk
      case Opened => Disk(Some(""), wal)
      case Marked => Disk(Some(ERASING), wal)
      case Released => Disk(Some(ERASING), wal)
      case Confirmed => Disk(Some(ERASED), wal)
      case _ => Disk(None, Some(ERASED));
    State(p, Running, disk, OlderAt(start, p), p.Start? || p.Opened? || p.Marked?)
  }

  // The run goes on from its last state to d.
  lemma Extend(run: seq<State>, d: State)
    requires IsRun(run) && Next(run[0].disk, run[|run| - 1], d)
    ensures IsRun(run + [d])
  {
  }

  lemma ReachStage(start: State, p: Point) returns (run: seq<State>)
    requires RunningAt(start, Start) && start.held
    ensures IsRun(run) && run[0] == start && run[|run| - 1] == Stage(start, p)
    decreases match p case Start => 0 case Opened => 1 case Marked => 2 case Released => 3 case Confirmed => 4
                      case Renamed => 5 case Synced => 6
  {
    if p.Start? {
      run := [start];
    } else {
      var q := match p case Opened => Start case Marked => Opened case Released => Marked
                       case Confirmed => Released case Renamed => Confirmed case _ => Renamed;
      run := ReachStage(start, q);
      assert Advance(Stage(start, q), Stage(start, p));
      Extend(run, Stage(start, p));
      run := run + [Stage(start, p)];
    }
  }

  // A run that crashes at the given point and keeps what it is told to.
  lemma CrashRun(start: State, p: Point, k: Kept) returns (run: seq<State>)
    requires RunningAt(start, Start) && start.held && Possible(Stage(start, p), k)
    ensures IsRun(run) && run[0] == start && |run| > 1 && run[|run| - 2] == Stage(start, p)
    ensures run[|run| - 1]
      == Stage(start, p).(status := Crashed, disk := Surviving(start.disk, Stage(start, p), k), older := {})
  {
    run := ReachStage(start, p);
    var d :=
      Stage(start, p).(status := Crashed, disk := Surviving(start.disk, Stage(start, p), k), older := {});
    assert CrashAt(start.disk, Stage(start, p), d, k);
    Extend(run, d);
    run := run + [d];
  }

  ghost predicate RefinesFrom(start: State) {
    forall run: seq<State>, i: nat :: IsRun(run) && run[0] == start && i + 1 < |run| ==>
      SpecTransition(Abstract(run[i]), Abstract(run[i + 1]))
  }

  /** Exactly: with crashes the call refines the specification if and only if
      the temporary file was anchored when it began. */
  lemma RefinesIff(start: State)
    requires FreshStart(start)
    ensures RefinesFrom(start) <==> Anchored(start)
  {
    if Anchored(start) {
      forall run: seq<State>, i: nat | IsRun(run) && run[0] == start && i + 1 < |run|
        ensures SpecTransition(Abstract(run[i]), Abstract(run[i + 1]))
      {
        RunRefines(run, i);
      }
    } else {
      var disk := if start.disk.tmp.None? then start.disk else Unsettled(start);
      var run := BackRun(start, disk);
      var c, d := run[|run| - 2], run[|run| - 1];
      RunInv(run, |run| - 2);
      assert CrashAt(start.disk, c, d, Back(disk)) by {
        WholeTextIsTorn();
      }
      CrashRefines(start, c, d, Back(disk));
      MarkersOfDisk(c.disk);
      assert !SpecTransition(Abstract(c), Abstract(d));
      assert run[|run| - 2 + 1] == d;
    }
  }

  ghost function Unsettled(start: State): (disk: Disk)
    requires !Settled(start)
    ensures disk in start.older
  {
    var disk :| disk in start.older;
    disk
  }

  lemma WholeTextIsTorn()
    ensures Torn(ERASING, ERASED, ERASING)
  {
  }

  function Back(disk: Disk): Kept {
    Kept(true, ERASING, false, Some(disk))
  }

  // After the key was released the directory goes back to an older one.
  lemma BackRun(start: State, disk: Disk) returns (run: seq<State>)
    requires RunningAt(start, Start) && start.held && disk in OlderAt(start, Released)
    ensures IsRun(run) && run[0] == start && |run| > 1 && run[|run| - 2] == Stage(start, Released)
    ensures run[|run| - 1] == State(Released, Crashed, disk, {}, false)
  {
    WholeTextIsTorn();
    run := CrashRun(start, Released, Back(disk));
  }

  /** Recovery after a crash never restores a key that was released, if the
      start was covered. */
  lemma NeverResurrected(run: seq<State>, i: nat, after: Spec)
    requires IsRun(run) && i < |run| && run[i].status.Crashed? && run[0].held && Covered(run[0])
    requires Recover(Abstract(run[i]), after)
    ensures !run[i].held ==> !after.memClassical
  {
    if !run[i].held {
      BothFilesShow(run, i);
    }
  }

  ghost predicate NoResurrectionFrom(start: State) {
    forall run: seq<State>, i: nat, after: Spec ::
      (IsRun(run) && run[0] == start && i < |run| && run[i].status.Crashed? && !run[i].held
       && Recover(Abstract(run[i]), after)) ==> !after.memClassical
  }

  /** Exactly: if the call creates the temporary file, or earlier directory
      changes are not synced, a crash may lose the marker and recovery may bring
      the released key back, unless what it goes back to shows a marker. */
  lemma NeverResurrectedIff(start: State)
    requires RunningAt(start, Start) && start.held
    ensures NoResurrectionFrom(start) <==> Covered(start)
  {
    if Covered(start) {
      forall run: seq<State>, i: nat, after: Spec |
        IsRun(run) && run[0] == start && i < |run| && run[i].status.Crashed? && !run[i].held
        && Recover(Abstract(run[i]), after)
        ensures !after.memClassical
      {
        NeverResurrected(run, i, after);
      }
    } else {
      if start.disk.tmp.None? && start.disk.wal != Some(ERASED) {
        MayResurrect(start, start.disk);
      } else {
        var disk :| disk in start.older && ReadMarker(disk) == NoMarker;
        MayResurrect(start, disk);
      }
    }
  }

  lemma MayResurrect(start: State, disk: Disk)
    requires RunningAt(start, Start) && start.held
    requires disk in OlderAt(start, Released) && ReadMarker(disk) == NoMarker
    ensures !NoResurrectionFrom(start)
  {
    var run := BackRun(start, disk);
    var i := |run| - 1;
    var s := Abstract(run[i]);
    var after := s.(memClassical := true, recovered := true, finalizeStep := 0, crashed := false);
    assert Recover(s, after);
    assert run[i].status.Crashed? && !run[i].held && after.memClassical;
  }

  // ----- Calling again -----

  // A new call on the disk, and with the key, that a call or a crash left.
  function Again(c: State): State {
    State(Start, Running, c.disk, c.older, true)
  }

  /** A temporary file left by a failed call protects nothing: from every start
      without one, the first write may fail with the key still held, and the
      retry, which finds the file, may then lose it in a crash. */
  lemma RetryAfterFailure(start: State) returns (run: seq<State>)
    requires RunningAt(start, Start) && start.held && start.disk.tmp.None? && ReadMarker(start.disk) == NoMarker
    ensures IsRun(run) && run[0] == start
    ensures var c := run[|run| - 1];
      && c.status == Returned(false) && c.held && c.disk.tmp.Some?
      && !NoResurrectionFrom(Again(c))
  {
    run := ReachStage(start, Opened);
    var created := Stage(start, Opened);
    var failed := created.(status := Returned(false));
    assert Torn("", ERASING, "");
    assert WriteErasingFails(created, failed);
    Extend(run, failed);
    run := run + [failed];
    assert start.disk in failed.older;
    MayResurrect(Again(failed), start.disk);
  }

  /** One left by a crash does: whatever the start, a retry after a crash that
      left the temporary file is covered. */
  lemma RetryAfterCrash(run: seq<State>, i: nat)
    requires IsRun(run) && i < |run| && run[i].status.Crashed? && run[i].disk.tmp.Some?
    ensures Anchored(Again(run[i])) && NoResurrectionFrom(Again(run[i]))
  {
    hide IsRun;
    RunInv(run, i);
    hide Inv;
    NeverResurrectedIff(Again(run[i]));
  }

  // ----- wal_path alone -----

  // wal_path by itself shows a marker.
  predicate Shows(disk: Disk) {
    ReadMarker(disk.(tmp := None)) != NoMarker
  }

  // No marker of an earlier call at wal_path.
  predicate Blank(start: State) {
    !Shows(start.disk) && forall disk :: disk in start.older ==> !Shows(disk)
  }

  /** What wal_path alone shows, by how far the call came: while the program is
      there, a marker exactly from the rename on, so a call that returned shows
      one exactly if it returned true; after a crash never before the rename
      was begun, and always once the directory was synced. */
  lemma WalPathShowsIff(run: seq<State>, i: nat)
    requires IsRun(run) && i < |run| && Blank(run[0])
    ensures !run[i].status.Crashed? ==> (Shows(run[i].disk) <==> run[i].point.Renamed? || run[i].point.Synced?)
    ensures run[i].status.Returned? ==> (Shows(run[i].disk) <==> run[i].status.ok)
    ensures run[i].status.Crashed? && Shows(run[i].disk) ==>
      run[i].point.Confirmed? || run[i].point.Renamed? || run[i].point.Synced?
    ensures run[i].status.Crashed? && run[i].point.Synced? ==> Shows(run[i].disk)
  {
    hide IsRun;
    hide Torn;
    RunInv(run, i);
  }

  /** In between, it shows one exactly if the rename reached the disk. */
  lemma CrashShowsIff(run: seq<State>, i: nat, d: State, k: Kept)
    requires IsRun(run) && i < |run| && Blank(run[0]) && CrashAt(run[0].disk, run[i], d, k)
    requires run[i].point.Confirmed? || run[i].point.Renamed?
    ensures Shows(d.disk) <==> k.renamed && k.back.None?
  {
    hide IsRun;
    hide Torn;
    RunInv(run, i);
  }

  // After every crash at p with the key released, wal_path alone shows it.
  ghost predicate WalPathEnoughAt(start: State, p: Point) {
    forall run: seq<State>, i: nat ::
      IsRun(run) && run[0] == start && i < |run| && run[i].status.Crashed? && run[i].point == p && !run[i].held ==>
        Shows(run[i].disk)
  }

  /** Torn writes do happen: each mixture of the two markers may be what a crash
      after the release leaves in the temporary file. */
  lemma TornMarkersHappen(start: State, c: string) returns (run: seq<State>)
    requires RunningAt(start, Start) && start.held
    requires |c| == 7 && forall i :: 0 <= i < 7 ==> c[i] == "ERASING"[i] || c[i] == "ERASED "[i]
    ensures IsRun(run) && run[0] == start
    ensures run[|run| - 1] == State(Released, Crashed, Disk(Some(c), start.disk.wal), {}, false)
  {
    assert Torn(ERASING, ERASED, c);
    run := CrashRun(start, Released, Kept(true, c, false, None));
  }

  /** So does the first marker, over a file of no content; and a file that was
      there before may keep the content that the call truncated. */
  lemma TornFirstMarkersHappen(start: State, c: string) returns (torn: seq<State>, untouched: seq<State>)
    requires RunningAt(start, Start) && start.held
    requires |c| <= 7 && forall i :: 0 <= i < |c| ==> c[i] == "ERASING"[i] || c[i] == '\0'
    ensures IsRun(torn) && torn[0] == start && IsRun(untouched) && untouched[0] == start
    ensures torn[|torn| - 1] == State(Opened, Crashed, Disk(Some(c), start.disk.wal), {}, true)
    ensures start.disk.tmp.Some? ==> untouched[|untouched| - 1] == State(Opened, Crashed, start.disk, {}, true)
  {
    assert Torn("", ERASING, c);
    torn := CrashRun(start, Opened, Kept(true, c, false, None));
    untouched := CrashRun(start, Opened, Kept(start.disk.tmp.None?, c, false, None));
  }

  /** A call may return true and a crash then lose the rename, if the directory
      was not synced. */
  lemma TrueMayBeLost(start: State) returns (run: seq<State>)
    requires RunningAt(start, Start) && start.held
    ensures IsRun(run) && run[0] == start && |run| > 1
    ensures run[|run| - 2].status == Returned(true)
    ensures run[|run| - 1] == State(Renamed, Crashed, Disk(Some("ERASED "), start.disk.wal), {}, false)
  {
    run := ReachStage(start, Renamed);
    var c := Stage(start, Renamed);
    var returned := c.(status := Returned(true));
    assert Succeed(c, returned);
    Extend(run, returned);
    run := run + [returned];
    var lost := Disk(Some(ERASED), start.disk.wal);
    var d := returned.(status := Crashed, disk := lost, older := {});
    assert CrashAt(start.disk, returned, d, Kept(true, "", true, Some(lost)));
    Extend(run, d);
    run := run + [d];
  }

  // The rename, if it was made, is lost; nothing else is.
  function Stays(start: State, p: Point): Kept {
    Kept(true, ERASING, p.Renamed?, if p.Renamed? then Some(Disk(Some(ERASED), start.disk.wal)) else None)
  }

  /** Reading wal_path alone is safe exactly for crashes outside the window from
      the release to the sync of the directory: the code keeps "ERASING" in the
      temporary file only. */
  lemma WalPathAloneIff(start: State, p: Point)
    requires RunningAt(start, Start) && start.held && Blank(start)
    ensures WalPathEnoughAt(start, p) <==> !(p.Released? || p.Confirmed? || p.Renamed?)
  {
    if p.Released? || p.Confirmed? || p.Renamed? {
      WholeTextIsTorn();
      var run := CrashRun(start, p, Stays(start, p));
      var i := |run| - 1;
      assert run[i].status.Crashed? && run[i].point == p && !run[i].held;
      assert !Shows(run[i].disk);
    } else {
      forall run: seq<State>, i: nat |
        IsRun(run) && run[0] == start && i < |run| && run[i].status.Crashed? && run[i].point == p && !run[i].held
        ensures Shows(run[i].disk)
      {
        RunInv(run, i);
        WalPathShowsIff(run, i);
      }
    }
  }

  /** In particular, from every start there is a run after whose crash wal_path
      shows no marker although the key reference is gone. */
  lemma WalPathAloneIsNotEnough(start: State) returns (run: seq<State>)
    requires FreshStart(start)
    ensures IsRun(run) && run[0] == start
    ensures var c := run[|run| - 1]; c.status.Crashed? && !c.held && !Shows(c.disk)
  {
    WholeTextIsTorn();
    run := CrashRun(start, Released, Stays(start, Released));
  }

  // ----- The code -----

  datatype WriteResult = Whole | Short(left: string)

  // The outcomes of the calls into the system.
  datatype Outcomes = Outcomes(formatted: bool, openOk: bool, first: WriteResult, second: WriteResult, renamed: bool,
                               parentSynced: bool)
  {
    predicate Possible() {
      && (first.Short? ==> Torn("", ERASING, first.left))
      && (second.Short? ==> Torn(ERASING, ERASED, second.left))
    }
  }

  class FileSystem {
    var files: map<string, string>

    constructor (files: map<string, string>)
      ensures this.files == files
    {
      this.files := files;
    }

    function Lookup(path: string): Option<string>
      reads this
    {
      if path in files then Some(files[path]) else None
    }

    function View(path: string): Disk
      reads this
    {
      Disk(Lookup(path + TMP), Lookup(path))
    }

    /** open with O_CREAT | O_TRUNC. */
    method Truncate(path: string)
      modifies this
      ensures files == old(files)[path := ""]
    {
      files := files[path := ""];
    }

    /** write at offset 0, synced: the whole text, or what a short write left. */
    method WriteAtStart(path: string, text: string, result: WriteResult) returns (whole: bool)
      requires path in files && |files[path]| <= |text|
      modifies this
      ensures whole <==> result.Whole?
      ensures files == old(files)[path := if whole then text else result.left]
    {
      whole := result.Whole?;
      files := files[path := if whole then text else result.left];
    }

    method Move(source: string, target: string)
      requires source in files && source != target
      modifies this
      ensures files == old(files)[target := old(files)[source]] - {source}
    {
      files := files[target := files[source]] - {source};
    }
  }

  const TMP := ".tmp"
  const PATH_BUFFER := 1024

  lemma TmpDiffers(path: string)
    ensures path + TMP != path
  {
    assert |path + TMP| == |path| + 4;
  }

  // The state of the call that began at start, from what the program can see.
  function Seen(start: State, p: Point, status: Status, disk: Disk, held: bool): State {
    State(p, status, disk, OlderAt(start, p), held)
  }

  ghost predicate Follows(run: seq<State>, from: seq<State>, c: State) {
    IsRun(run) && from <= run && run[|run| - 1] == c
  }

  // The call gets as far as releasing the key.
  predicate Reaches(walPath: Option<string>, o: Outcomes) {
    && walPath.Some? && o.formatted && |walPath.value + TMP| < PATH_BUFFER
    && o.openOk && o.first.Whole?
  }

  // Position of the last slash among the first n characters (strrchr), or -1.
  function LastSlash(path: string, n: nat): (i: int)
    requires n <= |path|
    ensures -1 <= i < n
    ensures i >= 0 ==> path[i] == '/'
    ensures forall k :: i < k < n ==> path[k] != '/'
    decreases n
  {
    if n == 0 then -1 else if path[n - 1] == '/' then n - 1 else LastSlash(path, n - 1)
  }

  // How far the call comes.
  function EndPoint(path: string, o: Outcomes): Point {
    if !o.formatted || |path + TMP| >= PATH_BUFFER || !o.openOk then Start
    else if o.first.Short? then Opened
    else if o.second.Short? then Released
    else if !o.renamed then Confirmed
    else if LastSlash(path, |path|) > 0 && o.parentSynced then Synced
    else Renamed
  }

  /** The directory is synced when the path has one, other than the root, that
      can be. */
  lemma SyncedIff(path: string, o: Outcomes)
    ensures EndPoint(path, o).Synced? <==>
      && o.formatted && |path| + 4 < 1024 && o.openOk && o.first.Whole? && o.second.Whole? && o.renamed
      && o.parentSynced && (exists i :: 0 < i < |path| && path[i] == '/')
  {
    assert |path + TMP| == |path| + 4;
  }

  /** Up to the synced "ERASING" marker. */
  method MarkErasing(fs: FileSystem, path: string, o: Outcomes, ghost start: State)
    returns (marked: bool, ghost history: seq<State>)
    requires o.Possible() && start == State(Start, Running, fs.View(path), start.older, true)
    modifies fs
    ensures marked <==> o.formatted && |path| + 4 < 1024 && o.openOk && o.first.Whole?
    ensures fs.files ==
      if !(o.formatted && |path| + 4 < 1024 && o.openOk) then old(fs.files)
      else old(fs.files)[path + ".tmp" := if o.first.Whole? then "ERASING" else o.first.left]
    ensures marked ==> Follows(history, [start], Seen(start, Marked, Running, fs.View(path), true))
    ensures !marked ==> Follows(history, [start], Seen(start, EndPoint(path, o), Returned(false), fs.View(path), true))
    ensures marked ==> fs.View(path) == Disk(Some(ERASING), start.disk.wal)
  {
    TmpDiffers(path);
    history := [start];
    if !o.formatted || |path + TMP| >= PATH_BUFFER {
      Extend(history, Seen(start, Start, Returned(false), fs.View(path), true));
      history := history + [Seen(start, Start, Returned(false), fs.View(path), true)];
      return false, history;
    }
    if !o.openOk {
      Extend(history, Seen(start, Start, Returned(false), fs.View(path), true));
      history := history + [Seen(start, Start, Returned(false), fs.View(path), true)];
      return false, history;
    }
    fs.Truncate(path + TMP);
    Extend(history, Seen(start, Opened, Running, fs.View(path), true));
    history := history + [Seen(start, Opened, Running, fs.View(path), true)];
    marked := fs.WriteAtStart(path + TMP, ERASING, o.first);
    ghost var now :=
      if marked then Seen(start, Marked, Running, fs.View(path), true)
      else Seen(start, Opened, Returned(false), fs.View(path), true);
    Extend(history, now);
    history := history + [now];
  }

  /** After the release of the key, to the end. */
  method ConfirmErased(mem: KeyLifecycle.Memory, key: O.Slot, fs: FileSystem, path: string, o: Outcomes,
                       ghost start: State, ghost before: seq<State>)
    returns (ok: bool, ghost history: seq<State>)
    requires key in mem.ptr && mem.ptr[key] == None
    requires o.Possible() && Follows(before, before, Seen(start, Released, Running, fs.View(path), false))
    requires [start] <= before && fs.View(path) == Disk(Some(ERASING), start.disk.wal) && Reaches(Some(path), o)
    modifies fs
    ensures ok <==> o.second.Whole? && o.renamed
    ensures fs.files ==
      if o.second.Short? then old(fs.files)[path + ".tmp" := o.second.left]
      else if !o.renamed then old(fs.files)[path + ".tmp" := "ERASED "]
      else old(fs.files)[path := "ERASED "] - {path + ".tmp"}
    ensures Follows(history, before, Seen(start, EndPoint(path, o), Returned(ok), fs.View(path), false))
  {
    TmpDiffers(path);
    history := before;
    var whole := fs.WriteAtStart(path + TMP, ERASED, o.second);
    ghost var now :=
      if whole then Seen(start, Confirmed, Running, fs.View(path), false)
      else Seen(start, Released, Returned(false), fs.View(path), false);
    Extend(history, now);
    history := history + [now];
    if !whole {
      return false, history;
    }
    if !o.renamed {
      Extend(history, Seen(start, Confirmed, Returned(false), fs.View(path), false));
      history := history + [Seen(start, Confirmed, Returned(false), fs.View(path), false)];
      return false, history;
    }
    fs.Move(path + TMP, path);
    ghost var point := Renamed;
    Extend(history, Seen(start, point, Running, fs.View(path), false));
    history := history + [Seen(start, point, Running, fs.View(path), false)];
    var dirLen := LastSlash(path, |path|);
    if 0 < dirLen < PATH_BUFFER && o.parentSynced {
      point := Synced;
      Extend(history, Seen(start, point, Running, fs.View(path), false));
      history := history + [Seen(start, point, Running, fs.View(path), false)];
    }
    Extend(history, Seen(start, point, Returned(true), fs.View(path), false));
    history := history + [Seen(start, point, Returned(true), fs.View(path), false)];
    return true, history;
  }

  /** `higgaion_key_erase_durable`. The ghost history is the run of the step
      system that the call performs, whatever directory changes are unsynced. */
  method EraseDurable(mem: KeyLifecycle.Memory, fs: FileSystem, key: Option<O.Slot>, walPath: Option<string>,
                      o: Outcomes, ghost older: set<Disk>)
    returns (ok: bool, ghost history: seq<State>)
    requires O.Valid(mem.Snapshot()) && (key.Some? ==> key.value in mem.ptr) && o.Possible()
    modifies mem, fs
    ensures O.Valid(mem.Snapshot())
    ensures mem.Snapshot() == O.Apply(old(mem.Snapshot()), O.Erase(key, Reaches(walPath, o)))
    ensures key.None? || old(mem.ptr)[key.value].None? || walPath.None? ==>
      !ok && fs.files == old(fs.files) && mem.ptr == old(mem.ptr) && mem.refs == old(mem.refs)
    // true means a NULL key and exactly one reference fewer.
    ensures mem.next == old(mem.next) && (ok ==> key.Some? && key.value in mem.ptr && mem.ptr[key.value] == None)
    ensures key.Some? && old(mem.ptr)[key.value].Some? && walPath.Some? ==>
      var path, tmp, obj := walPath.value, walPath.value + ".tmp", old(mem.ptr)[key.value].value;
      var released := o.formatted && |path| + 4 < 1024 && o.openOk && o.first.Whole?;
      && (released ==> mem.ptr == old(mem.ptr)[key.value := None])
      && (released ==> obj in old(mem.refs) && old(mem.refs)[obj] > 0
                       && mem.refs == old(mem.refs)[obj := old(mem.refs)[obj] - 1])
      && (!released ==> mem.ptr == old(mem.ptr) && mem.refs == old(mem.refs))
      && (ok <==> released && o.second.Whole? && o.renamed)
      && fs.files == (if !(o.formatted && |path| + 4 < 1024 && o.openOk) then old(fs.files)
                      else if o.first.Short? then old(fs.files)[tmp := o.first.left]
                      else if o.second.Short? then old(fs.files)[tmp := o.second.left]
                      else if !o.renamed then old(fs.files)[tmp := "ERASED "]
                      else old(fs.files)[path := "ERASED "] - {tmp})
    // The call is a run of the step system.
    ensures key.Some? && old(mem.ptr)[key.value].Some? && walPath.Some? ==>
      && var start := State(Start, Running, old(fs.View(walPath.value)), older, true);
         Follows(history, [start], Seen(start, EndPoint(walPath.value, o), Returned(ok), fs.View(walPath.value),
                                        mem.ptr[key.value].Some?))
  {
    history := [];
    if key.None? || mem.ptr[key.value].None? || walPath.None? {
      return false, history;
    }
    var path := walPath.value;
    ghost var start := State(Start, Running, fs.View(path), older, true);
    ghost var files := fs.files;
    var marked;
    marked, history := MarkErasing(fs, path, o, start);
    if !marked {
      return false, history;
    }
    mem.KeyFree(key);
    ghost var released := Seen(start, Released, Running, fs.View(path), mem.ptr[key.value].Some?);
    Extend(history, released);
    history := history + [released];
    ok, history := ConfirmErased(mem, key.value, fs, path, o, start, history);
    OverMarked(files, path, if o.second.Short? then o.second.left else "ERASED ");
  }

  // What is written over the first marker, or renamed away, hides it.
  lemma OverMarked(files: map<string, string>, path: string, c: string)
    ensures
      var tmp := path + ".tmp";
      && files[tmp := "ERASING"][tmp := c] == files[tmp := c]
      && files[tmp := "ERASING"][path := "ERASED "] - {tmp} == files[path := "ERASED "] - {tmp}
  {
    TmpDiffers(path);
  }
}
