/** Key ownership: HiggaionKey structs pointing to reference-counted EVP_PKEY
    objects, and the operations that move references. */
module Ownership {
  import opened Wrappers

  type Slot = nat // the address of a HiggaionKey struct
  type Obj = nat // an EVP_PKEY

  // The pkey field of every initialised struct, the count of every object ever
  // made (0 once destroyed), and the next object to be made.
  datatype Heap = Heap(ptr: map<Slot, Option<Obj>>, refs: map<Obj, nat>, next: Obj)

  function Holders(ptr: map<Slot, Option<Obj>>, o: Obj): set<Slot> {
    set s | s in ptr && ptr[s] == Some(o)
  }

  function Owners(h: Heap, o: Obj): nat {
    |Holders(h.ptr, o)|
  }

  ghost predicate Valid(h: Heap) {
    && (forall o: Obj :: o in h.refs <==> o < h.next)
    && (forall s: Slot :: s in h.ptr && h.ptr[s].Some? ==> h.ptr[s].value in h.refs)
    && (forall o: Obj :: o in h.refs ==> h.refs[o] >= Owners(h, o))
  }

  lemma HoldersUpdate(ptr: map<Slot, Option<Obj>>, s: Slot, v: Option<Obj>, o: Obj)
    ensures |Holders(ptr[s := v], o)|
      == |Holders(ptr, o)| - (if s in ptr && ptr[s] == Some(o) then 1 else 0) + (if v == Some(o) then 1 else 0)
  {
    var before, after := Holders(ptr, o), Holders(ptr[s := v], o);
    assert after - {s} == before - {s};
    CardinalityWithout(before, s);
    CardinalityWithout(after, s);
  }

  lemma CardinalityWithout(a: set<Slot>, s: Slot)
    ensures |a| == |a - {s}| + (if s in a then 1 else 0)
  {
    if s in a {
      assert a == (a - {s}) + {s};
    } else {
      assert a == a - {s};
    }
  }

  /** No held pointer dangles. */
  lemma HeldIsLive(h: Heap, s: Slot)
    requires Valid(h) && s in h.ptr && h.ptr[s].Some?
    ensures h.refs[h.ptr[s].value] > 0
  {
    assert s in Holders(h.ptr, h.ptr[s].value);
  }

  // ----- Operations; None is a NULL struct pointer -----

  datatype Op =
    | Init(key: Option<Slot>)
    | Generate(key: Option<Slot>, allowed: bool, made: bool)
    | Free(key: Option<Slot>)
    | UpRef(dst: Option<Slot>, src: Option<Slot>, granted: bool)
    | Erase(key: Option<Slot>, reached: bool)

  // The structs whose pkey is read are initialised.
  predicate Legal(h: Heap, op: Op) {
    match op
    case Init(_) => true
    case Generate(key, allowed, _) => key.Some? && allowed ==> key.value in h.ptr
    case Free(key) => key.Some? ==> key.value in h.ptr
    case UpRef(_, src, _) => src.Some? ==> src.value in h.ptr
    case Erase(key, _) => key.Some? ==> key.value in h.ptr
  }

  // EVP_PKEY_free followed by clearing the field.
  function Release(h: Heap, s: Slot): Heap
    requires Valid(h) && s in h.ptr
  {
    match h.ptr[s]
    case None => h
    case Some(o) =>
      HeldIsLive(h, s);
      h.(ptr := h.ptr[s := None], refs := h.refs[o := h.refs[o] - 1])
  }

  function Apply(h: Heap, op: Op): Heap
    requires Valid(h) && Legal(h, op)
  {
    match op
    case Init(None) => h
    case Init(Some(s)) => h.(ptr := h.ptr[s := None])
    case Generate(None, _, _) => h
    case Generate(Some(s), allowed, made) =>
      if !allowed then h.(ptr := h.ptr[s := None])
      else
        var h' := Release(h, s);
        if made then Heap(h'.ptr[s := Some(h'.next)], h'.refs[h'.next := 1], h'.next + 1) else h'
    case Free(None) => h
    case Free(Some(s)) => Release(h, s)
    case UpRef(dst, src, granted) =>
      if UpRefSucceeds(h, op) then
        var o := h.ptr[src.value].value;
        HeldIsLive(h, src.value);
        h.(ptr := h.ptr[dst.value := Some(o)], refs := h.refs[o := h.refs[o] + 1])
      else h
    case Erase(None, _) => h
    case Erase(Some(s), reached) => if reached then Release(h, s) else h
  }

  predicate UpRefSucceeds(h: Heap, op: Op)
    requires op.UpRef? && Legal(h, op)
  {
    op.dst.Some? && op.src.Some? && h.ptr[op.src.value].Some? && op.granted
  }

  // The object whose reference the operation overwrites without freeing it.
  function Lost(h: Heap, op: Op): Option<Obj>
    requires Legal(h, op)
  {
    match op
    case Init(Some(s)) => if s in h.ptr then h.ptr[s] else None
    case Generate(Some(s), false, _) => if s in h.ptr then h.ptr[s] else None
    case UpRef(Some(dst), _, _) => if UpRefSucceeds(h, op) && dst in h.ptr then h.ptr[dst] else None
    case _ => None
  }

  // References beyond those held by structs.
  function Excess(h: Heap, o: Obj): int {
    (if o in h.refs then h.refs[o] else 0) - Owners(h, o)
  }

  /** Conservation, one operation: the excess of an object grows by one exactly
      when the operation loses a reference to it, and is otherwise unchanged. */
  lemma ExcessStep(h: Heap, op: Op, o: Obj)
    requires Valid(h) && Legal(h, op)
    ensures Excess(Apply(h, op), o) == Excess(h, o) + (if Lost(h, op) == Some(o) then 1 else 0)
  {
    if o !in h.refs {
      NobodyHoldsNew(h, o);
    }
    match op
    case Init(Some(s)) => HoldersUpdate(h.ptr, s, None, o);
    case Generate(Some(s), allowed, made) =>
      HoldersUpdate(h.ptr, s, None, o);
      if allowed && made {
        var h' := Release(h, s);
        HoldersUpdate(h'.ptr, s, Some(h'.next), o);
      }
    case Free(Some(s)) => HoldersUpdate(h.ptr, s, None, o);
    case UpRef(Some(dst), Some(src), _) =>
      if UpRefSucceeds(h, op) {
        HoldersUpdate(h.ptr, dst, h.ptr[src], o);
      }
    case Erase(Some(s), _) => HoldersUpdate(h.ptr, s, None, o);
    case _ =>
  }

  lemma NobodyHoldsNew(h: Heap, o: Obj)
    requires Valid(h) && o !in h.refs
    ensures Owners(h, o) == 0
  {
    assert Holders(h.ptr, o) == {};
  }

  lemma ApplyKeepsValid(h: Heap, op: Op)
    requires Valid(h) && Legal(h, op)
    ensures Valid(Apply(h, op))
  {
    forall o | o in Apply(h, op).refs
      ensures Apply(h, op).refs[o] >= Owners(Apply(h, op), o)
    {
      ExcessStep(h, op, o);
    }
  }

  // ----- Runs -----

  ghost function Step(h: Heap, op: Op): (h': Heap)
    requires Valid(h) && Legal(h, op)
    ensures Valid(h')
    ensures Lost(h, op).None? ==> forall o: Obj :: Excess(h', o) == Excess(h, o)
  {
    ApplyKeepsValid(h, op);
    assert Lost(h, op).None? ==> forall o: Obj :: Excess(Apply(h, op), o) == Excess(h, o) by {
      forall o: Obj ensures Lost(h, op).None? ==> Excess(Apply(h, op), o) == Excess(h, o) {
        ExcessStep(h, op, o);
      }
    }
    Apply(h, op)
  }

  ghost predicate LegalRun(h: Heap, ops: seq<Op>)
    requires Valid(h)
    decreases ops
  {
    ops != [] ==>
      && Legal(h, ops[0])
      && (ApplyKeepsValid(h, ops[0]); LegalRun(Apply(h, ops[0]), ops[1..]))
  }

  ghost function Run(h: Heap, ops: seq<Op>): (h': Heap)
    requires Valid(h) && LegalRun(h, ops)
    ensures Valid(h')
    decreases ops
  {
    if ops == [] then h
    else
      ApplyKeepsValid(h, ops[0]);
      Run(Apply(h, ops[0]), ops[1..])
  }

  // How many references to o the run loses.
  ghost function LostIn(h: Heap, ops: seq<Op>, o: Obj): nat
    requires Valid(h) && LegalRun(h, ops)
    decreases ops
  {
    if ops == [] then 0
    else
      ApplyKeepsValid(h, ops[0]);
      (if Lost(h, ops[0]) == Some(o) then 1 else 0) + LostIn(Apply(h, ops[0]), ops[1..], o)
  }

  const EMPTY := Heap(map[], map[], 0)

  lemma EmptyIsValid()
    ensures Valid(EMPTY)
  {
    var h := Heap(map[], map[], 0);
    assert forall o: Obj :: o !in h.refs;
    assert Valid(h);
  }

  /** Conservation over any run: an object's count is its number of owners plus
      the number of references lost on the way. */
  lemma {:induction false} CountsAreConserved(h: Heap, ops: seq<Op>, o: Obj)
    requires Valid(h) && LegalRun(h, ops)
    ensures Excess(Run(h, ops), o) == Excess(h, o) + LostIn(h, ops, o)
    decreases ops
  {
    if ops != [] {
      ApplyKeepsValid(h, ops[0]);
      ExcessStep(h, ops[0], o);
      CountsAreConserved(Apply(h, ops[0]), ops[1..], o);
    }
  }

  /** Safety of every run: no struct ever points to a destroyed object, so no
      free or up-ref reaches one. */
  lemma RunIsSafe(h: Heap, ops: seq<Op>, s: Slot)
    requires Valid(h) && LegalRun(h, ops)
    requires s in Run(h, ops).ptr && Run(h, ops).ptr[s].Some?
    ensures Run(h, ops).ptr[s].value in Run(h, ops).refs
    ensures Run(h, ops).refs[Run(h, ops).ptr[s].value] > 0
  {
    HeldIsLive(Run(h, ops), s);
  }

  /** A destroyed object stays destroyed: its count never rises again. */
  lemma {:induction false} DestroyedForGood(h: Heap, ops: seq<Op>, o: Obj)
    requires Valid(h) && LegalRun(h, ops) && o in h.refs && h.refs[o] == 0
    ensures o in Run(h, ops).refs && Run(h, ops).refs[o] == 0
    decreases ops
  {
    if ops != [] {
      ApplyKeepsValid(h, ops[0]);
      DestroyedStep(h, ops[0], o);
      DestroyedForGood(Apply(h, ops[0]), ops[1..], o);
    }
  }

  lemma DestroyedStep(h: Heap, op: Op, o: Obj)
    requires Valid(h) && Legal(h, op) && o in h.refs && h.refs[o] == 0
    ensures o in Apply(h, op).refs && Apply(h, op).refs[o] == 0
  {
    forall s: Slot | s in h.ptr && h.ptr[s].Some? ensures h.ptr[s].value != o {
      HeldIsLive(h, s);
    }
    hide Owners;
  }

  /** Exactness: starting from exact counts, an object's count is again its
      number of owners exactly when the run overwrote no reference to it. */
  lemma RunIsExactIffNothingLost(h: Heap, ops: seq<Op>, o: Obj)
    requires Valid(h) && LegalRun(h, ops) && Excess(h, o) == 0
    ensures Excess(Run(h, ops), o) == 0 <==> LostIn(h, ops, o) == 0
  {
    CountsAreConserved(h, ops, o);
  }

  /** Counts are not always exact: asking for a disallowed algorithm clears the
      field of a struct that holds a key without freeing it. */
  lemma RejectedRegenerationLoses()
    ensures Valid(EMPTY)
    ensures var ops := [Init(Some(0)), Generate(Some(0), true, true), Generate(Some(0), false, false)];
      LegalRun(EMPTY, ops) && LostIn(EMPTY, ops, 0) == 1 && Excess(Run(EMPTY, ops), 0) == 1
  {
    EmptyIsValid();
    var a, b, c := Init(Some(0)), Generate(Some(0), true, true), Generate(Some(0), false, false);
    var h1 := Step(EMPTY, a);
    var h2 := Step(h1, b);
    assert [a, b, c][1..] == [b, c] && [b, c][1..] == [c] && [c][1..] == [];
    assert h2.ptr[0] == Some(0);
    assert Lost(h2, c) == Some(0);
    ApplyKeepsValid(h2, c);
    assert LegalRun(h2, [c]) && LostIn(h2, [c], 0) == 1;
    assert LegalRun(h1, [b, c]) && LostIn(h1, [b, c], 0) == 1;
    assert Excess(EMPTY, 0) == 0 by {
      assert Holders(EMPTY.ptr, 0) == {};
    }
    CountsAreConserved(EMPTY, [a, b, c], 0);
  }

  // ----- The wrappers (Go, Rust and Python alike) -----

  datatype WrapperOp =
    | NewKeypair(priv: Slot, pub: Slot, allowed: bool, made: bool, granted: bool)
    | Drop(key: Slot)

  // Memory never used for a struct, or whose struct holds nothing any more.
  predicate Vacant(h: Heap, s: Slot) {
    s in h.ptr ==> h.ptr[s].None?
  }

  // The wrapper's structs are its own: vacant when made, its own when dropped.
  predicate LegalUse(h: Heap, op: WrapperOp) {
    match op
    case NewKeypair(priv, pub, _, _, _) => priv != pub && Vacant(h, priv) && Vacant(h, pub)
    case Drop(key) => key in h.ptr
  }

  ghost function Use(h: Heap, op: WrapperOp): (h': Heap)
    requires Valid(h) && LegalUse(h, op)
    ensures Valid(h')
    ensures forall o: Obj :: Excess(h', o) == Excess(h, o)
  {
    match op
    case NewKeypair(priv, pub, allowed, made, granted) =>
      var h1 := Step(h, Init(Some(priv)));
      var h2 := Step(h1, Init(Some(pub)));
      var h3 := Step(h2, Generate(Some(priv), allowed, made));
      if h3.ptr[priv].None? then h3
      else if granted then Step(h3, UpRef(Some(pub), Some(priv), granted))
      else Step(h3, Free(Some(priv)))
    case Drop(key) => Step(h, Free(Some(key)))
  }

  ghost predicate LegalProgram(h: Heap, ops: seq<WrapperOp>)
    requires Valid(h)
    decreases ops
  {
    ops != [] ==> LegalUse(h, ops[0]) && LegalProgram(Use(h, ops[0]), ops[1..])
  }

  ghost function Program(h: Heap, ops: seq<WrapperOp>): (h': Heap)
    requires Valid(h) && LegalProgram(h, ops)
    ensures Valid(h')
    decreases ops
  {
    if ops == [] then h else Program(Use(h, ops[0]), ops[1..])
  }

  // Every count is the number of owners.
  ghost predicate AllExact(h: Heap) {
    forall o: Obj :: Excess(h, o) == 0
  }

  /** No lost references: programs made of the wrappers' operations, in any
      order, keep every count exact, so an object is destroyed exactly when
      nobody owns it. */
  lemma {:induction false} ProgramsStayExact(h: Heap, ops: seq<WrapperOp>)
    requires Valid(h) && AllExact(h) && LegalProgram(h, ops)
    ensures AllExact(Program(h, ops))
    ensures forall o: Obj :: o in Program(h, ops).refs ==>
      (Program(h, ops).refs[o] == 0 <==> Owners(Program(h, ops), o) == 0)
    decreases ops
  {
    if ops == [] {
      forall o | o in h.refs ensures h.refs[o] == Owners(h, o) {
        assert Excess(h, o) == 0;
      }
    } else {
      ProgramsStayExact(Use(h, ops[0]), ops[1..]);
    }
  }

  /** Dropping a handle destroys its object exactly when it was the last. */
  lemma LastDropDestroys(h: Heap, s: Slot, o: Obj)
    requires Valid(h) && AllExact(h) && s in h.ptr && h.ptr[s] == Some(o)
    ensures o in Use(h, Drop(s)).refs
    ensures Use(h, Drop(s)).refs[o] == 0 <==> Holders(h.ptr, o) == {s}
  {
    assert s in Holders(h.ptr, o);
    assert Excess(h, o) == 0;
    if Owners(h, o) == 1 {
      assert |Holders(h.ptr, o) - {s}| == 0;
      assert Holders(h.ptr, o) == {s};
    }
  }
}
