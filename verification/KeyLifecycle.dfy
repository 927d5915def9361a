/** The key operations of the C library over memory, and the wrappers that use
    them. */
module KeyLifecycle {
  import opened Ownership
  import opened Wrappers

  // What a generate call of a wrapper comes to.
  function Made(h: Heap, priv: Slot, pub: Slot, ok: bool, made: bool): Heap {
    var held := if ok then Some(h.next) else None;
    Heap(h.ptr[priv := held][pub := held], if made then h.refs[h.next := if ok then 2 else 0] else h.refs,
         if made then h.next + 1 else h.next)
  }

  lemma MadeByUpdates(h: Heap, priv: Slot, pub: Slot)
    requires priv != pub
    ensures
      var ptr := h.ptr[priv := None][pub := None];
      && ptr[priv := None] == ptr
      && ptr[priv := Some(h.next)][priv := None] == ptr
      && ptr[priv := Some(h.next)][pub := Some(h.next)] == h.ptr[priv := Some(h.next)][pub := Some(h.next)]
    ensures h.refs[h.next := 1][h.next := 2] == h.refs[h.next := 2]
    ensures h.refs[h.next := 1][h.next := 0] == h.refs[h.next := 0]
  {
  }

  lemma NewKeypairEffect(h: Heap, priv: Slot, pub: Slot, allowed: bool, made: bool, granted: bool)
    requires Valid(h) && LegalUse(h, Ownership.NewKeypair(priv, pub, allowed, made, granted))
    ensures Use(h, Ownership.NewKeypair(priv, pub, allowed, made, granted))
      == Made(h, priv, pub, allowed && made && granted, allowed && made)
  {
    hide Valid;
    hide Excess;
    hide Apply;
    var h2 := Step(Step(h, Init(Some(priv))), Init(Some(pub)));
    TwoInits(h, priv, pub);
    VacantGenerate(h2, priv, allowed, made);
    MadeByUpdates(h, priv, pub);
    if allowed && made {
      ShareOrDrop(Step(h2, Generate(Some(priv), allowed, made)), priv, pub);
    }
    hide Step;
  }

  lemma TwoInits(h: Heap, priv: Slot, pub: Slot)
    requires Valid(h)
    ensures Step(Step(h, Init(Some(priv))), Init(Some(pub))) == h.(ptr := h.ptr[priv := None][pub := None])
  {
  }

  lemma VacantGenerate(h: Heap, s: Slot, allowed: bool, made: bool)
    requires Valid(h) && s in h.ptr && h.ptr[s].None?
    ensures Step(h, Generate(Some(s), allowed, made))
      == if allowed && made then Heap(h.ptr[s := Some(h.next)], h.refs[h.next := 1], h.next + 1)
         else h.(ptr := h.ptr[s := None])
  {
    assert h.ptr[s := None] == h.ptr;
  }

  lemma ShareOrDrop(h: Heap, s: Slot, t: Slot)
    requires Valid(h) && s in h.ptr && h.ptr[s].Some?
    ensures h.ptr[s].value in h.refs && h.refs[h.ptr[s].value] > 0
    ensures var o := h.ptr[s].value;
      && Step(h, Free(Some(s))) == h.(ptr := h.ptr[s := None], refs := h.refs[o := h.refs[o] - 1])
      && Step(h, UpRef(Some(t), Some(s), true)) == h.(ptr := h.ptr[t := Some(o)], refs := h.refs[o := h.refs[o] + 1])
  {
    HeldIsLive(h, s);
  }

  class Memory {
    var ptr: map<Slot, Option<Obj>>
    var refs: map<Obj, nat>
    var next: Obj

    constructor ()
      ensures Snapshot() == EMPTY && Valid(Snapshot())
    {
      ptr, refs, next := map[], map[], 0;
      new;
      EmptyIsValid();
    }

    function Snapshot(): Heap
      reads this
    {
      Heap(ptr, refs, next)
    }

    /** EVP_PKEY_free: calling it on a destroyed object is an error. */
    method EvpPkeyFree(o: Obj)
      requires o in refs && refs[o] > 0
      modifies this`refs
      ensures refs == old(refs)[o := old(refs)[o] - 1]
    {
      refs := refs[o := refs[o] - 1];
    }

    /** `higgaion_key_init`. */
    method KeyInit(key: Option<Slot>)
      requires Valid(Snapshot())
      modifies this
      ensures Snapshot() == Apply(old(Snapshot()), Init(key)) && Valid(Snapshot())
      ensures refs == old(refs) && next == old(next)
      ensures ptr == if key.Some? then old(ptr)[key.value := None] else old(ptr)
    {
      ghost var h := Snapshot();
      ApplyKeepsValid(h, Init(key));
      if key.Some? {
        ptr := ptr[key.value := None];
      }
    }

    /** `higgaion_key_free`. */
    method KeyFree(key: Option<Slot>)
      requires Valid(Snapshot()) && (key.Some? ==> key.value in ptr)
      modifies this
      ensures Snapshot() == Apply(old(Snapshot()), Free(key)) && Valid(Snapshot())
      ensures next == old(next)
      ensures key.Some? && old(ptr)[key.value].Some? ==>
        && ptr == old(ptr)[key.value := None]
        && var o := old(ptr)[key.value].value;
           o in old(refs) && old(refs)[o] > 0 && refs == old(refs)[o := old(refs)[o] - 1]
      ensures key.None? || old(ptr)[key.value].None? ==> ptr == old(ptr) && refs == old(refs)
    {
      ghost var h := Snapshot();
      ApplyKeepsValid(h, Free(key));
      if key.Some? && ptr[key.value].Some? {
        HeldIsLive(h, key.value);
        EvpPkeyFree(ptr[key.value].value);
        ptr := ptr[key.value := None];
      }
    }

    /** `generate_keypair`: allowed is the policy's verdict on the algorithm,
        made whether the library produced a key. */
    method GenerateKeypair(key: Option<Slot>, allowed: bool, made: bool)
      requires Valid(Snapshot()) && (key.Some? && allowed ==> key.value in ptr)
      modifies this
      ensures Snapshot() == Apply(old(Snapshot()), Generate(key, allowed, made)) && Valid(Snapshot())
      ensures key.None? ==> ptr == old(ptr) && refs == old(refs) && next == old(next)
      // A refused algorithm clears the field and frees nothing.
      ensures key.Some? && !allowed ==>
        ptr == old(ptr)[key.value := None] && refs == old(refs) && next == old(next)
      // An allowed one gives up the key held before and takes a new one, if made.
      ensures key.Some? && allowed && old(ptr)[key.value].Some? ==>
        && var o := old(ptr)[key.value].value;
        && o in old(refs) && old(refs)[o] > 0 && o != old(next)
        && refs == (if made then old(refs)[o := old(refs)[o] - 1][old(next) := 1] else old(refs)[o := old(refs)[o] - 1])
      ensures key.Some? && allowed && old(ptr)[key.value].None? ==>
        refs == if made then old(refs)[old(next) := 1] else old(refs)
      ensures key.Some? && allowed ==>
        && ptr == old(ptr)[key.value := if made then Some(old(next)) else None]
        && next == (if made then old(next) + 1 else old(next))
    {
      ghost var h := Snapshot();
      ApplyKeepsValid(h, Generate(key, allowed, made));
      if key.None? {
        return;
      }
      var s := key.value;
      if !allowed {
        ptr := ptr[s := None];
        return;
      }
      if ptr[s].Some? {
        HeldIsLive(h, s);
        EvpPkeyFree(ptr[s].value);
        ptr := ptr[s := None];
      }
      assert Snapshot().ptr == Release(h, s).ptr;
      if !made {
        return;
      }
      refs := refs[next := 1];
      ptr := ptr[s := Some(next)];
      next := next + 1;
    }

    /** `higgaion_key_up_ref`. */
    method KeyUpRef(dst: Option<Slot>, src: Option<Slot>, granted: bool) returns (result: int)
      requires Valid(Snapshot()) && (src.Some? ==> src.value in ptr)
      modifies this
      ensures Snapshot() == Apply(old(Snapshot()), UpRef(dst, src, granted)) && Valid(Snapshot())
      ensures next == old(next) && (result == 0 || result == 1)
      ensures result == 1 <==> dst.Some? && src.Some? && old(ptr)[src.value].Some? && granted
      ensures result == 1 ==>
        && var o := old(ptr)[src.value].value;
           ptr == old(ptr)[dst.value := Some(o)] && o in old(refs) && refs == old(refs)[o := old(refs)[o] + 1]
      ensures result == 0 ==> ptr == old(ptr) && refs == old(refs)
    {
      ghost var h := Snapshot();
      ApplyKeepsValid(h, UpRef(dst, src, granted));
      if dst.None? || src.None? || ptr[src.value].None? {
        return 0;
      }
      if !granted {
        return 0;
      }
      var o := ptr[src.value].value;
      refs := refs[o := refs[o] + 1];
      ptr := ptr[dst.value := ptr[src.value]];
      return 1;
    }

    // ----- Wrappers (Go, Rust and Python alike) -----

    /** `GenerateKeypair`: two fresh structs, one object, two references. */
    method NewKeypair(priv: Slot, pub: Slot, allowed: bool, made: bool, granted: bool) returns (ok: bool)
      requires Valid(Snapshot()) && priv != pub
      requires (priv in ptr ==> ptr[priv].None?) && (pub in ptr ==> ptr[pub].None?)
      modifies this
      ensures Valid(Snapshot())
      ensures Snapshot() == Use(old(Snapshot()), Ownership.NewKeypair(priv, pub, allowed, made, granted))
      ensures ok <==> allowed && made && granted
      ensures var held := if ok then Some(old(next)) else None; ptr == old(ptr)[priv := held][pub := held]
      // The new object has its two owners, or was destroyed again.
      ensures refs == if allowed && made then old(refs)[old(next) := if ok then 2 else 0] else old(refs)
      ensures next == if allowed && made then old(next) + 1 else old(next)
    {
      ghost var h := Snapshot();
      NewKeypairEffect(h, priv, pub, allowed, made, granted);
      hide Valid;
      hide Excess;
      hide Apply;
      KeyInit(Some(priv));
      KeyInit(Some(pub));
      GenerateKeypair(Some(priv), allowed, made);
      if ptr[priv].None? {
        return false;
      }
      var up := KeyUpRef(Some(pub), Some(priv), granted);
      if up != 1 {
        KeyFree(Some(priv));
        return false;
      }
      return true;
    }

    /** `Free`, `drop`, `__del__`: release if held, then clear. */
    method DropHandle(s: Slot)
      requires Valid(Snapshot()) && s in ptr
      modifies this
      ensures Valid(Snapshot())
      ensures Snapshot() == Use(old(Snapshot()), Drop(s))
      ensures ptr == old(ptr)[s := None] && next == old(next)
      ensures old(ptr)[s].Some? ==>
        && var o := old(ptr)[s].value; o in old(refs) && old(refs)[o] > 0 && refs == old(refs)[o := old(refs)[o] - 1]
      ensures old(ptr)[s].None? ==> refs == old(refs)
    {
      if ptr[s].Some? {
        KeyFree(Some(s));
        assert ptr[s := None] == ptr;
        ptr := ptr[s := None];
      }
    }
  }
}
