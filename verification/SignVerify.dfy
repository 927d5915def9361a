/** Signing and verifying over a frame, with the cryptographic library as an
    oracle: which of its calls fail, what it signs and what it accepts. */
module SignVerify {
  import opened Bits
  import opened Framing
  import opened Wrappers

  type KeyId = nat

  // signs(k, b, s): s may be returned when signing bytes b with key k.
  // accepts(k, b, s): s passes verification over bytes b with key k.
  datatype Scheme = Scheme(signs: (KeyId, Bytes, Bytes) -> bool, accepts: (KeyId, Bytes, Bytes) -> bool)

  ghost predicate Correct(scheme: Scheme) {
    forall k: KeyId, b: Bytes, s: Bytes :: scheme.signs(k, b, s) ==> scheme.accepts(k, b, s)
  }

  // A signature is accepted for no other bytes than the ones signed.
  ghost predicate Exact(scheme: Scheme) {
    forall k: KeyId, b: Bytes, c: Bytes, s: Bytes :: scheme.signs(k, b, s) && scheme.accepts(k, c, s) ==> b == c
  }

  // ----- Requests -----

  datatype Request = Request(domain: CString, messageGiven: bool, msgLen: nat, text: Bytes)
  {
    predicate Framable() {
      && Readable(domain)
      && ArgumentsOk(messageGiven, msgLen, domain)
      && |text| == msgLen
    }

    function Frame(): Bytes
      requires Framable()
    {
      Encode(DomainBytes(domain), text)
    }

    // The domains stand for the same string, and the messages are the same.
    ghost predicate SameAs(other: Request) {
      text == other.text && exists d: Bytes :: Names(domain, d) && Names(other.domain, d)
    }
  }

  lemma NamesUnique(domain: CString, d: Bytes, e: Bytes)
    requires Names(domain, d) && Names(domain, e)
    ensures d == e
  {
    if domain.Chars? {
      var memory := domain.memory;
      assert forall i :: 0 <= i < |d| ==> memory[i] == (d + [0])[i] == d[i] && d[i] != 0;
      assert forall i :: 0 <= i < |e| ==> memory[i] == (e + [0])[i] == e[i] && e[i] != 0;
      assert memory[|d|] == (d + [0])[|d|] == 0 && memory[|e|] == (e + [0])[|e|] == 0;
      assert |d| == |e|;
    }
  }

  /** A terminated string is named by its bytes before the NUL alone, NULL by
      the empty string alone. */
  lemma NamesIff(d: Bytes, rest: Bytes, e: Bytes)
    requires 0 !in d
    ensures Names(Chars(d + [0] + rest), e) <==> e == d
    ensures Names(Null, e) <==> e == []
  {
    assert Names(Chars(d + [0] + rest), d);
    if Names(Chars(d + [0] + rest), e) {
      NamesUnique(Chars(d + [0] + rest), d, e);
    }
  }

  lemma SameByName(a: Request, b: Request, d: Bytes, e: Bytes)
    requires Names(a.domain, d) && Names(b.domain, e)
    ensures a.SameAs(b) <==> d == e && a.text == b.text
  {
    if a.SameAs(b) {
      var c: Bytes :| Names(a.domain, c) && Names(b.domain, c);
      NamesUnique(a.domain, c, d);
      NamesUnique(b.domain, c, e);
    }
  }

  lemma SameFrames(a: Request, b: Request)
    requires a.Framable() && b.Framable()
    ensures a.Frame() == b.Frame() <==> a.SameAs(b)
  {
    hide Encode;
    DomainIsNamed(a.domain);
    DomainIsNamed(b.domain);
    SameByName(a, b, DomainBytes(a.domain), DomainBytes(b.domain));
    FramesBindArguments(a.domain, a.text, b.domain, b.text);
  }

  // The first len bytes behind a pointer.
  function BytesAt(memory: array?<u8>, len: nat): Bytes
    reads memory
  {
    if memory == null || len > memory.Length then [] else memory[..len]
  }

  function RequestOf(domain: CString, message: array?<u8>, msgLen: nat): Request
    reads message
  {
    Request(domain, message != null, msgLen, BytesAt(message, msgLen))
  }

  // ----- Outcomes of the library calls -----

  // signature: what the library writes when it signs these bytes with this key.
  datatype SignOutcome = SignOutcome(
    mallocFrame: bool, newContext: bool, init: bool, sizeQuery: bool, sizeHint: nat, mallocSignature: bool,
    sign: bool, signature: (KeyId, Bytes) -> Bytes)
  {
    // The library never writes more than the size it announced.
    ghost predicate Sane() {
      forall k: KeyId, b: Bytes :: |signature(k, b)| <= sizeHint
    }

    predicate Succeeds() {
      newContext && init && sizeQuery && mallocSignature && sign
    }

    predicate LeavesLength() {
      newContext && init && !(sizeQuery && mallocSignature)
    }
  }

  // answer: what the library returns for this key, these bytes and signature.
  datatype VerifyOutcome = VerifyOutcome(
    mallocFrame: bool, newContext: bool, init: bool, answer: (KeyId, Bytes, Bytes) -> int)
  {
    predicate Reaches() {
      mallocFrame && newContext && init
    }
  }

  // The library is reached: there is a key, and the frame could be built.
  predicate Starts(key: Option<KeyId>, req: Request, mallocFrame: bool) {
    key.Some? && req.Framable() && mallocFrame
  }

  function SignResult(sk: Option<KeyId>, req: Request, o: SignOutcome): Option<Bytes> {
    if Starts(sk, req, o.mallocFrame) && o.Succeeds() then Some(o.signature(sk.value, req.Frame())) else None
  }

  predicate VerifyResult(pk: Option<KeyId>, req: Request, signature: Bytes, o: VerifyOutcome) {
    && |signature| > 0 && Starts(pk, req, o.mallocFrame) && o.Reaches()
    && o.answer(pk.value, req.Frame(), signature) == 1
  }

  // The library's answers are those of the scheme.
  ghost predicate CheckedBy(scheme: Scheme, o: VerifyOutcome) {
    forall k: KeyId, b: Bytes, s: Bytes :: o.answer(k, b, s) == 1 <==> scheme.accepts(k, b, s)
  }

  // Under key k the signature s is accepted for the bytes b and no others. This
  // asks nothing of other signatures, so they may be of bounded length.
  ghost predicate OnlyFor(scheme: Scheme, k: KeyId, b: Bytes, s: Bytes) {
    forall c: Bytes :: scheme.accepts(k, c, s) ==> c == b
  }

  ghost predicate StandsFor(scheme: Scheme, k: KeyId, b: Bytes, s: Bytes) {
    scheme.accepts(k, b, s) && OnlyFor(scheme, k, b, s)
  }

  lemma ExactSchemesStand(scheme: Scheme, k: KeyId, b: Bytes, s: Bytes)
    requires Correct(scheme) && Exact(scheme) && scheme.signs(k, b, s)
    ensures StandsFor(scheme, k, b, s)
  {
  }

  /** What a signature stands for. One made for a request verifies, when no
      library call fails, for exactly the requests whose domain stands for the
      same string and whose message is the same. */
  lemma SignatureBinds(scheme: Scheme, k: KeyId, made: Request, so: SignOutcome, asked: Request, vo: VerifyOutcome)
    requires made.Framable() && asked.Framable() && CheckedBy(scheme, vo)
    requires SignResult(Some(k), made, so).Some? && |SignResult(Some(k), made, so).value| > 0
    requires StandsFor(scheme, k, made.Frame(), so.signature(k, made.Frame()))
    requires vo.Reaches()
    ensures VerifyResult(Some(k), asked, SignResult(Some(k), made, so).value, vo) <==> made.SameAs(asked)
    ensures forall d: Bytes, e: Bytes :: Names(made.domain, d) && Names(asked.domain, e) ==>
      (made.SameAs(asked) <==> d == e && made.text == asked.text)
  {
    hide Encode;
    SameFrames(made, asked);
    forall d: Bytes, e: Bytes | Names(made.domain, d) && Names(asked.domain, e)
      ensures made.SameAs(asked) <==> d == e && made.text == asked.text
    {
      SameByName(made, asked, d, e);
    }
  }

  /** Failing library calls never turn a wrong pair into an accepted one. */
  lemma NeverVerifiesElsewhere(scheme: Scheme, k: KeyId, made: Request, so: SignOutcome, asked: Request,
                               vo: VerifyOutcome)
    requires CheckedBy(scheme, vo) && SignResult(Some(k), made, so).Some?
    requires OnlyFor(scheme, k, made.Frame(), so.signature(k, made.Frame()))
    requires VerifyResult(Some(k), asked, SignResult(Some(k), made, so).value, vo)
    ensures made.SameAs(asked)
  {
    hide Encode;
    ElsewhereIsForgery(scheme, k, made, so, asked, vo);
  }

  /** Whatever the scheme: if a signature made for one request verifies for
      another, the scheme itself accepts it for bytes other than those signed.
      Framing adds no way of its own. */
  lemma ElsewhereIsForgery(scheme: Scheme, k: KeyId, made: Request, so: SignOutcome, asked: Request,
                           vo: VerifyOutcome)
    requires CheckedBy(scheme, vo) && SignResult(Some(k), made, so).Some?
    requires VerifyResult(Some(k), asked, SignResult(Some(k), made, so).value, vo)
    ensures made.SameAs(asked)
      || (asked.Frame() != made.Frame() && scheme.accepts(k, asked.Frame(), so.signature(k, made.Frame())))
  {
    hide Encode;
    SameFrames(made, asked);
  }

  /** What is asked of the library above can be had, for every request, with
      signatures of one byte. */
  lemma BindingIsPossible(k: KeyId, made: Request)
    returns (scheme: Scheme, so: SignOutcome, vo: VerifyOutcome)
    requires made.Framable()
    ensures Correct(scheme) && Exact(scheme) && CheckedBy(scheme, vo) && vo.Reaches()
    ensures so.Sane() && SignResult(Some(k), made, so).Some? && |SignResult(Some(k), made, so).value| == 1
    ensures scheme.signs(k, made.Frame(), SignResult(Some(k), made, so).value)
    ensures StandsFor(scheme, k, made.Frame(), SignResult(Some(k), made, so).value)
  {
    var signed: (KeyId, Bytes, Bytes) -> bool := (j, b, s) => j == k && b == made.Frame() && s == [1];
    scheme := Scheme(signed, signed);
    var one: Bytes := [1];
    so := SignOutcome(true, true, true, true, 1, true, true, (j: KeyId, b: Bytes) => one);
    vo := VerifyOutcome(true, true, true, (j: KeyId, b: Bytes, s: Bytes) => if signed(j, b, s) then 1 else 0);
    ExactSchemesStand(scheme, k, made.Frame(), [1]);
  }

  // ----- What is acquired, used and released -----

  // Bytes are the contents of the buffers at the moment of the event.
  datatype Event =
    | FrameBuilt(bytes: Bytes)
    | FrameFreed(bytes: Bytes)
    | ContextNew
    | ContextInit(key: KeyId, done: bool)
    | ContextFreed
    | SizeQueried(bytes: Bytes)
    | Signed(bytes: Bytes)
    | Verified(bytes: Bytes, signature: Bytes)
    | SignatureAllocated
    | SignatureFreed

  class Ledger {
    var events: seq<Event>

    constructor ()
      ensures events == []
    {
      events := [];
    }

    method Record(e: Event)
      modifies this
      ensures events == old(events) + [e]
    {
      events := events + [e];
    }
  }

  function Zeros(n: nat): (z: Bytes)
    ensures |z| == n
  {
    seq(n, i => 0)
  }

  // Every exit that owns a frame.
  function Released(frame: Bytes, context: bool, inner: seq<Event>): seq<Event> {
    [FrameBuilt(frame)]
    + (if context then [ContextNew] + inner + [ContextFreed] else [])
    + [FrameFreed(Zeros(|frame|))]
  }

  function ExecuteEvents(frame: Bytes, signs: bool): seq<Event> {
    [SignatureAllocated, Signed(frame)] + if signs then [] else [SignatureFreed]
  }

  function SignInner(k: KeyId, frame: Bytes, o: SignOutcome): seq<Event> {
    if !o.init then [ContextInit(k, false)]
    else if !(o.sizeQuery && o.mallocSignature) then [ContextInit(k, true), SizeQueried(frame)]
    else [ContextInit(k, true), SizeQueried(frame)] + ExecuteEvents(frame, o.sign)
  }

  function VerifyInner(k: KeyId, frame: Bytes, signature: Bytes, o: VerifyOutcome): seq<Event> {
    if !o.init then [ContextInit(k, false)] else [ContextInit(k, true), Verified(frame, signature)]
  }

  function SignTrace(sk: Option<KeyId>, req: Request, o: SignOutcome): seq<Event> {
    if !Starts(sk, req, o.mallocFrame) then []
    else Released(req.Frame(), o.newContext, SignInner(sk.value, req.Frame(), o))
  }

  function VerifyTrace(pk: Option<KeyId>, req: Request, signature: Bytes, o: VerifyOutcome): seq<Event> {
    if signature == [] || !Starts(pk, req, o.mallocFrame) then []
    else Released(req.Frame(), o.newContext, VerifyInner(pk.value, req.Frame(), signature, o))
  }

  // ----- The code -----

  /** OPENSSL_cleanse over the whole frame, then free. */
  method CleanseAndFree(ledger: Ledger, buf: array<u8>)
    modifies ledger, buf
    ensures ledger.events == old(ledger.events) + [FrameFreed(Zeros(buf.Length))]
  {
    for i := 0 to buf.Length
      invariant forall k :: 0 <= k < i ==> buf[k] == 0
      invariant ledger.events == old(ledger.events)
    {
      buf[i] := 0;
    }
    assert buf[..] == Zeros(buf.Length);
    ledger.Record(FrameFreed(buf[..]));
  }

  /** EVP_MD_CTX_free, then cleanse and free. */
  method FreeBoth(ledger: Ledger, frame: array<u8>)
    modifies ledger, frame
    ensures ledger.events == old(ledger.events) + [ContextFreed, FrameFreed(Zeros(frame.Length))]
  {
    ledger.Record(ContextFreed);
    CleanseAndFree(ledger, frame);
  }

  /** Allocates and zeroes the signature, then signs the frame into it. */
  method ExecuteSign(ledger: Ledger, signature: Ref<Buffer>, sigLen: Ref<nat>, frame: array<u8>, k: KeyId,
                     o: SignOutcome)
    requires o.Sane() && sigLen.value == o.sizeHint
    modifies ledger, signature, sigLen
    ensures ledger.events == old(ledger.events) + ExecuteEvents(frame[..], o.sign)
    ensures signature.value != null <==> o.sign
    ensures o.sign ==>
      && fresh(signature.value) && sigLen.value <= signature.value.Length
      && signature.value[..sigLen.value] == o.signature(k, frame[..])
    ensures !o.sign ==> sigLen.value == 0
  {
    var sig := new u8[sigLen.value](_ => 0);
    ledger.Record(SignatureAllocated);
    signature.value := sig;
    ledger.Record(Signed(frame[..]));
    if o.sign {
      var written := o.signature(k, frame[..]);
      CopyTo(sig, 0, written);
      sigLen.value := |written|;
    } else {
      ledger.Record(SignatureFreed);
      signature.value := null;
      sigLen.value := 0;
    }
  }

  /** The library calls of `pqc_sign` once there is a context. */
  method SignInContext(ledger: Ledger, signature: Ref<Buffer>, sigLen: Ref<nat>, frame: array<u8>, k: KeyId,
                       o: SignOutcome)
    requires o.Sane() && o.newContext && signature.value == null && sigLen.value == 0
    modifies ledger, signature, sigLen, frame
    ensures ledger.events
      == old(ledger.events) + SignInner(k, old(frame[..]), o) + [ContextFreed, FrameFreed(Zeros(frame.Length))]
    ensures signature.value != null <==> o.Succeeds()
    ensures o.Succeeds() ==>
      && fresh(signature.value) && sigLen.value <= signature.value.Length
      && signature.value[..sigLen.value] == o.signature(k, old(frame[..]))
    ensures !o.Succeeds() ==> sigLen.value == if o.LeavesLength() then o.sizeHint else 0
  {
    ledger.Record(ContextInit(k, o.init));
    if !o.init {
      FreeBoth(ledger, frame);
      return;
    }
    ledger.Record(SizeQueried(frame[..]));
    sigLen.value := o.sizeHint;
    if !o.sizeQuery {
      FreeBoth(ledger, frame);
      return;
    }
    if !o.mallocSignature {
      FreeBoth(ledger, frame);
      return;
    }
    ExecuteSign(ledger, signature, sigLen, frame, k, o);
    FreeBoth(ledger, frame);
  }

  /** The library calls of `pqc_sign` over a finished frame. */
  method SignFrame(ledger: Ledger, signature: Ref<Buffer>, sigLen: Ref<nat>, frame: array<u8>, k: KeyId,
                   o: SignOutcome)
    requires o.Sane() && signature.value == null && sigLen.value == 0
    modifies ledger, signature, sigLen, frame
    ensures ledger.events
      == old(ledger.events) + Released(old(frame[..]), o.newContext, SignInner(k, old(frame[..]), o))
    ensures signature.value != null <==> o.Succeeds()
    ensures o.Succeeds() ==>
      && fresh(signature.value) && sigLen.value <= signature.value.Length
      && signature.value[..sigLen.value] == o.signature(k, old(frame[..]))
    ensures !o.Succeeds() ==> sigLen.value == if o.LeavesLength() then o.sizeHint else 0
  {
    hide SignInner;
    ledger.Record(FrameBuilt(frame[..]));
    if !o.newContext {
      CleanseAndFree(ledger, frame);
      return;
    }
    ledger.Record(ContextNew);
    SignInContext(ledger, signature, sigLen, frame, k, o);
  }

  /** `pqc_sign`. */
  method PqcSign(ledger: Ledger, signature: Ref?<Buffer>, sigLen: Ref?<nat>, message: array?<u8>, msgLen: nat,
                 domain: CString, sk: Option<KeyId>, sizeMax: nat, o: SignOutcome)
    requires Readable(domain) && o.Sane() && sizeMax >= 0xFFFF_FFFF
    requires message != null && msgLen <= MESSAGE_MAX ==> msgLen <= message.Length
    modifies ledger, if signature == null then {} else {signature}, if sigLen == null then {} else {sigLen}
    ensures signature == null && sigLen != null ==> sigLen.value == 0
    ensures sigLen == null && signature != null ==> signature.value == null
    ensures signature == null || sigLen == null ==> ledger.events == old(ledger.events)
    ensures signature != null && sigLen != null ==>
      var req := old(RequestOf(domain, message, msgLen));
      && ledger.events == old(ledger.events) + SignTrace(sk, req, o)
      && (match SignResult(sk, req, o)
          case Some(s) =>
            && signature.value != null && fresh(signature.value)
            && sigLen.value <= signature.value.Length && signature.value[..sigLen.value] == s
          case None =>
            && signature.value == null
            // A length is left over only when the size query or the allocation
            // after it failed.
            && sigLen.value == if Starts(sk, req, o.mallocFrame) && o.newContext && o.init
                                  && !(o.sizeQuery && o.mallocSignature) then o.sizeHint else 0)
  {
    hide Encode;
    hide Released;
    hide Verdict;
    hide Frames;
    hide Names;
    hide SignInner;
    if signature != null {
      signature.value := null;
    }
    if sigLen != null {
      sigLen.value := 0;
    }
    if signature == null || sigLen == null {
      return;
    }
    if sk.None? {
      return;
    }
    var buffer := new Ref<Buffer>(null);
    var total := new Ref<nat>(0);
    var ok := BuildFrame(buffer, total, message, msgLen, domain, sizeMax, o.mallocFrame);
    if !ok {
      return;
    }
    SignFrame(ledger, signature, sigLen, buffer.value, sk.value, o);
  }

  /** The library calls of `pqc_verify` over a finished frame. */
  method VerifyFrame(ledger: Ledger, frame: array<u8>, signature: array<u8>, sigLen: nat, k: KeyId, o: VerifyOutcome)
    returns (ok: bool)
    requires sigLen <= signature.Length
    modifies ledger, frame
    ensures ok <==> o.newContext && o.init && o.answer(k, old(frame[..]), old(signature[..sigLen])) == 1
    ensures ledger.events == old(ledger.events)
      + Released(old(frame[..]), o.newContext, VerifyInner(k, old(frame[..]), old(signature[..sigLen]), o))
  {
    ledger.Record(FrameBuilt(frame[..]));
    if !o.newContext {
      CleanseAndFree(ledger, frame);
      return false;
    }
    ledger.Record(ContextNew);
    ledger.Record(ContextInit(k, o.init));
    if !o.init {
      FreeBoth(ledger, frame);
      return false;
    }
    ledger.Record(Verified(frame[..], signature[..sigLen]));
    var rc := o.answer(k, frame[..], signature[..sigLen]);
    FreeBoth(ledger, frame);
    return rc == 1;
  }

  /** `pqc_verify`. */
  method PqcVerify(ledger: Ledger, message: array?<u8>, msgLen: nat, signature: array?<u8>, sigLen: nat,
                   domain: CString, pk: Option<KeyId>, sizeMax: nat, o: VerifyOutcome)
    returns (ok: bool)
    requires Readable(domain) && sizeMax >= 0xFFFF_FFFF
    requires message != null && msgLen <= MESSAGE_MAX ==> msgLen <= message.Length
    requires pk.Some? && signature != null ==> sigLen <= signature.Length
    modifies ledger
    ensures
      var req, sig := old(RequestOf(domain, message, msgLen)), old(BytesAt(signature, sigLen));
      && ok == VerifyResult(pk, req, sig, o)
      && ledger.events == old(ledger.events) + VerifyTrace(pk, req, sig, o)
  {
    hide Encode;
    hide Released;
    hide Verdict;
    hide Frames;
    hide Names;
    hide VerifyInner;
    if pk.None? || signature == null {
      return false;
    }
    if sigLen == 0 {
      return false;
    }
    if msgLen > 0 && message == null {
      return false;
    }
    var buffer := new Ref<Buffer>(null);
    var total := new Ref<nat>(0);
    var built := BuildFrame(buffer, total, message, msgLen, domain, sizeMax, o.mallocFrame);
    if !built {
      return false;
    }
    ok := VerifyFrame(ledger, buffer.value, signature, sigLen, pk.value, o);
  }

  // The arguments pass, d being the string of the domain.
  predicate Passes(d: Bytes, messageGiven: bool, msgLen: nat) {
    |d| <= 4096 && msgLen <= 104857600 && (msgLen > 0 ==> messageGiven)
  }

  lemma RequestByName(req: Request)
    requires Readable(req.domain) && (req.messageGiven && req.msgLen <= 104857600 ==> |req.text| == req.msgLen)
    requires !req.messageGiven ==> req.text == []
    ensures forall d: Bytes :: Names(req.domain, d) ==>
      && (req.Framable() <==> Passes(d, req.messageGiven, req.msgLen))
      && (req.Framable() ==> req.Frame() == Encode(d, req.text))
  {
    hide Encode;
    ArgumentsVerdict(req.messageGiven, req.msgLen, req.domain);
    forall d: Bytes | Names(req.domain, d) && req.Framable() ensures DomainBytes(req.domain) == d {
      NamesIsDomain(req.domain, d);
    }
  }

  // The binding for two named requests.
  lemma BindingByName(scheme: Scheme, k: KeyId, made: Request, so: SignOutcome, asked: Request, vo: VerifyOutcome)
    requires CheckedBy(scheme, vo) && SignResult(Some(k), made, so).Some?
    ensures
      var s := so.signature(k, made.Frame());
      var ok := VerifyResult(Some(k), asked, s, vo);
      && (ok ==> asked.Framable())
      && (ok && !made.SameAs(asked) ==> asked.Frame() != made.Frame() && scheme.accepts(k, asked.Frame(), s))
      && (OnlyFor(scheme, k, made.Frame(), s) && ok ==> made.SameAs(asked))
      && (StandsFor(scheme, k, made.Frame(), s) && |s| > 0 && asked.Framable() && vo.Reaches() ==>
            (ok <==> made.SameAs(asked)))
    ensures forall d: Bytes, e: Bytes :: Names(made.domain, d) && Names(asked.domain, e) ==>
      (made.SameAs(asked) <==> d == e && made.text == asked.text)
  {
    hide Encode;
    var s := so.signature(k, made.Frame());
    if VerifyResult(Some(k), asked, s, vo) {
      ElsewhereIsForgery(scheme, k, made, so, asked, vo);
      if OnlyFor(scheme, k, made.Frame(), s) {
        NeverVerifiesElsewhere(scheme, k, made, so, asked, vo);
      }
    }
    if StandsFor(scheme, k, made.Frame(), s) && |s| > 0 && asked.Framable() && vo.Reaches() {
      SignatureBinds(scheme, k, made, so, asked, vo);
    }
    forall d: Bytes, e: Bytes | Names(made.domain, d) && Names(asked.domain, e)
      ensures made.SameAs(asked) <==> d == e && made.text == asked.text
    {
      SameByName(made, asked, d, e);
    }
  }

  /** Signing one pair and verifying the returned buffer for another. */
  method SignThenVerify(ledger: Ledger, ghost scheme: Scheme, k: KeyId, madeText: array?<u8>, madeLen: nat,
                        madeDomain: CString, askedText: array?<u8>, askedLen: nat, askedDomain: CString,
                        sizeMax: nat, so: SignOutcome, vo: VerifyOutcome)
    returns (signed: bool, ok: bool)
    requires CheckedBy(scheme, vo)
    requires Readable(madeDomain) && Readable(askedDomain) && so.Sane() && sizeMax >= 0xFFFF_FFFF
    requires madeText != null && madeLen <= MESSAGE_MAX ==> madeLen <= madeText.Length
    requires askedText != null && askedLen <= MESSAGE_MAX ==> askedLen <= askedText.Length
    modifies ledger
    // Signing succeeds exactly when its arguments pass and no call fails.
    ensures ok ==> signed
    ensures forall d: Bytes :: Names(madeDomain, d) ==>
      (signed <==> Passes(d, madeText != null, madeLen) && so.mallocFrame && so.newContext && so.init
                   && so.sizeQuery && so.mallocSignature && so.sign)
    ensures forall d: Bytes, e: Bytes ::
      signed && Names(madeDomain, d) && Names(askedDomain, e) && Passes(d, madeText != null, madeLen) ==>
      var m, n := BytesAt(madeText, madeLen), BytesAt(askedText, askedLen);
      var s := so.signature(k, Encode(d, m));
      // Whatever the scheme, a wrong pair passes only as a forgery.
      && (ok ==> Passes(e, askedText != null, askedLen))
      && (ok && !(d == e && m == n) ==> Encode(e, n) != Encode(d, m) && scheme.accepts(k, Encode(e, n), s))
      && (OnlyFor(scheme, k, Encode(d, m), s) && ok ==> d == e && m == n)
      // A signature good for the signed bytes alone passes for the same pair
      // alone, and then always when no library call fails.
      && (StandsFor(scheme, k, Encode(d, m), s) && |s| > 0 && Passes(e, askedText != null, askedLen) ==>
            (vo.mallocFrame && vo.newContext && vo.init ==> (ok <==> d == e && m == n)))
  {
    hide Encode;
    hide SignTrace;
    hide VerifyTrace;
    hide OnlyFor;
    hide CheckedBy;
    hide Names;
    ghost var made := RequestOf(madeDomain, madeText, madeLen);
    ghost var asked := RequestOf(askedDomain, askedText, askedLen);
    RequestByName(made);
    RequestByName(asked);
    var signature := new Ref<Buffer>(null);
    var sigLen := new Ref<nat>(0);
    PqcSign(ledger, signature, sigLen, madeText, madeLen, madeDomain, Some(k), sizeMax, so);
    if signature.value == null {
      return false, false;
    }
    signed := true;
    ok := PqcVerify(ledger, askedText, askedLen, signature.value, sigLen.value, askedDomain, Some(k), sizeMax, vo);
    BindingByName(scheme, k, made, so, asked, vo);
  }

  // ----- No exit leaks, and nothing is used after it is gone -----

  // A frame and a context each come and go once.
  datatype FrameState = NoFrame | Frame(bytes: Bytes) | FrameGone

  datatype ContextState = NoContext | Context(ready: bool) | ContextGone

  // What is held between events.
  datatype Held = Held(frame: FrameState, context: ContextState, signature: bool)

  const NOTHING := Held(NoFrame, NoContext, false)

  // The library may work on these bytes now.
  predicate Usable(h: Held, b: Bytes) {
    h.frame == Frame(b) && h.context == Context(true)
  }

  // What an observer allows; None is a violation: a second frame, context or
  // free, a library call without an initialised context, over other bytes than
  // the frame's, or after the cleanse, a frame freed with a context open or not
  // all zero.
  function Observe(h: Held, e: Event): Option<Held> {
    match e
    case FrameBuilt(b) => if h.frame.NoFrame? then Some(h.(frame := Frame(b))) else None
    case ContextNew =>
      if h.frame.Frame? && h.context.NoContext? then Some(h.(context := Context(false))) else None
    case ContextInit(_, done) => if h.context == Context(false) then Some(h.(context := Context(done))) else None
    case SizeQueried(b) => if Usable(h, b) then Some(h) else None
    case SignatureAllocated => if !h.signature then Some(h.(signature := true)) else None
    case Signed(b) => if Usable(h, b) && h.signature then Some(h) else None
    case Verified(b, _) => if Usable(h, b) then Some(h) else None
    case SignatureFreed => if h.signature then Some(h.(signature := false)) else None
    case ContextFreed => if h.context.Context? then Some(h.(context := ContextGone)) else None
    case FrameFreed(b) =>
      if h.frame.Frame? && !h.context.Context? && b == Zeros(|h.frame.bytes|) then Some(h.(frame := FrameGone))
      else None
  }

  function Watch(h: Held, t: seq<Event>): Option<Held>
    decreases t
  {
    if t == [] then Some(h)
    else
      match Observe(h, t[0])
      case None => None
      case Some(h') => Watch(h', t[1..])
  }

  lemma {:induction false} WatchConcat(h: Held, a: seq<Event>, b: seq<Event>)
    ensures Watch(h, a + b) == match Watch(h, a) case None => None case Some(h') => Watch(h', b)
    decreases a
  {
    hide Observe;
    if a == [] {
      assert a + b == b;
    } else {
      assert (a + b)[1..] == a[1..] + b;
      match Observe(h, a[0])
      case None =>
      case Some(h') => WatchConcat(h', a[1..], b);
    }
  }

  lemma WatchOne(h: Held, e: Event)
    ensures Watch(h, [e]) == Observe(h, e)
  {
    assert [e][1..] == [];
  }

  lemma WatchTwo(h: Held, d: Event, e: Event)
    ensures Watch(h, [d, e]) == match Observe(h, d) case None => None case Some(h') => Observe(h', e)
  {
    WatchConcat(h, [d], [e]);
    WatchOne(h, d);
    if Observe(h, d).Some? {
      WatchOne(Observe(h, d).value, e);
    }
    assert [d] + [e] == [d, e];
  }

  // Nothing is held any more, except perhaps the signature.
  predicate Settled(h: Held, signature: bool) {
    !h.frame.Frame? && !h.context.Context? && h.signature == signature
  }

  lemma ReleasedIsClean(frame: Bytes, context: bool, inner: seq<Event>, ready: bool, signature: bool)
    requires context ==> Watch(Held(Frame(frame), Context(false), false), inner)
                         == Some(Held(Frame(frame), Context(ready), signature))
    requires !context ==> !signature
    ensures Watch(NOTHING, Released(frame, context, inner))
      == Some(Held(FrameGone, if context then ContextGone else NoContext, signature))
  {
    var built, zeros := Held(Frame(frame), NoContext, false), Zeros(|frame|);
    WatchOne(NOTHING, FrameBuilt(frame));
    if context {
      var head := [FrameBuilt(frame)] + [ContextNew];
      WatchConcat(NOTHING, [FrameBuilt(frame)], [ContextNew]);
      WatchOne(built, ContextNew);
      WatchConcat(NOTHING, head, inner);
      WatchConcat(NOTHING, head + inner, [ContextFreed, FrameFreed(zeros)]);
      WatchTwo(Held(Frame(frame), Context(ready), signature), ContextFreed, FrameFreed(zeros));
      assert Released(frame, context, inner) == head + inner + [ContextFreed, FrameFreed(zeros)];
    } else {
      WatchTwo(NOTHING, FrameBuilt(frame), FrameFreed(zeros));
      assert Released(frame, context, inner) == [FrameBuilt(frame), FrameFreed(zeros)];
    }
  }

  lemma SignInnerIsClean(k: KeyId, f: Bytes, o: SignOutcome)
    ensures Watch(Held(Frame(f), Context(false), false), SignInner(k, f, o))
      == Some(Held(Frame(f), Context(o.init), o.init && o.sizeQuery && o.mallocSignature && o.sign))
  {
    var start, ready := Held(Frame(f), Context(false), false), Held(Frame(f), Context(true), false);
    WatchOne(start, ContextInit(k, false));
    WatchTwo(start, ContextInit(k, true), SizeQueried(f));
    WatchConcat(start, [ContextInit(k, true), SizeQueried(f)], ExecuteEvents(f, o.sign));
    WatchTwo(ready, SignatureAllocated, Signed(f));
    WatchConcat(ready, [SignatureAllocated, Signed(f)], [SignatureFreed]);
    WatchOne(ready.(signature := true), SignatureFreed);
    assert ExecuteEvents(f, true) == [SignatureAllocated, Signed(f)];
  }

  lemma VerifyInnerIsClean(k: KeyId, f: Bytes, s: Bytes, o: VerifyOutcome)
    ensures Watch(Held(Frame(f), Context(false), false), VerifyInner(k, f, s, o))
      == Some(Held(Frame(f), Context(o.init), false))
  {
    WatchOne(Held(Frame(f), Context(false), false), ContextInit(k, false));
    WatchTwo(Held(Frame(f), Context(false), false), ContextInit(k, true), Verified(f, s));
  }

  // The trace is allowed and ends with nothing held but perhaps a signature.
  predicate Clean(t: seq<Event>, signature: bool) {
    match Watch(NOTHING, t) case None => false case Some(h) => Settled(h, signature)
  }

  /** The observer does see faults: a frame kept, freed uncleansed or twice, and
      a library call without a context or on a frame that is gone. */
  lemma FaultsAreSeen(b: Bytes, c: Bytes)
    requires c != Zeros(|b|)
    ensures !Clean([FrameBuilt(b)], false)
    ensures !Clean([FrameBuilt(b), FrameFreed(c)], false)
    ensures !Clean([FrameBuilt(b), Signed(b)], false) && !Clean([FrameBuilt(b), Verified(b, c)], false)
    ensures !Clean([FrameBuilt(b), FrameFreed(Zeros(|b|))] + [FrameFreed(Zeros(|b|))], false)
    ensures !Clean([FrameBuilt(b), FrameFreed(Zeros(|b|))] + [Signed(b)], false)
    ensures !Clean([FrameBuilt(b), ContextNew] + [FrameFreed(Zeros(|b|))], false)
  {
    var gone, z := [FrameBuilt(b), FrameFreed(Zeros(|b|))], Zeros(|b|);
    WatchOne(NOTHING, FrameBuilt(b));
    WatchTwo(NOTHING, FrameBuilt(b), FrameFreed(c));
    WatchTwo(NOTHING, FrameBuilt(b), Signed(b));
    WatchTwo(NOTHING, FrameBuilt(b), Verified(b, c));
    WatchTwo(NOTHING, FrameBuilt(b), FrameFreed(z));
    WatchTwo(NOTHING, FrameBuilt(b), ContextNew);
    WatchConcat(NOTHING, gone, [FrameFreed(z)]);
    WatchConcat(NOTHING, gone, [Signed(b)]);
    WatchConcat(NOTHING, [FrameBuilt(b), ContextNew], [FrameFreed(z)]);
    WatchOne(Held(FrameGone, NoContext, false), FrameFreed(z));
    WatchOne(Held(FrameGone, NoContext, false), Signed(b));
    WatchOne(Held(Frame(b), Context(false), false), FrameFreed(z));
    hide Watch;
  }

  /** On every exit of both functions the observer saw no violation and nothing
      is held any more, except the signature handed to the caller on success. */
  lemma EveryExitIsClean(key: Option<KeyId>, req: Request, so: SignOutcome, signature: Bytes, vo: VerifyOutcome)
    ensures Clean(SignTrace(key, req, so), SignResult(key, req, so).Some?)
    ensures Clean(VerifyTrace(key, req, signature, vo), false)
  {
    hide Encode;
    hide Watch;
    assert Watch(NOTHING, []) == Some(NOTHING) by {
      NothingHappened();
    }
    if Starts(key, req, so.mallocFrame) {
      SignInnerIsClean(key.value, req.Frame(), so);
      ReleasedIsClean(req.Frame(), so.newContext, SignInner(key.value, req.Frame(), so), so.newContext && so.init,
        so.Succeeds());
    }
    if signature != [] && Starts(key, req, vo.mallocFrame) {
      VerifyInnerIsClean(key.value, req.Frame(), signature, vo);
      ReleasedIsClean(req.Frame(), vo.newContext, VerifyInner(key.value, req.Frame(), signature, vo), vo.init,
        false);
    }
  }

  lemma NothingHappened()
    ensures Watch(NOTHING, []) == Some(NOTHING)
  {
  }
}
