/** Content signatures of src/crydna.rs: signing, and verification of hex text by anyone. */
module Identity {
  import opened ByteStrings
  import opened Outcomes
  import opened Crypto
  import opened Hex

  /** Ed25519, kept abstract. `verify` takes key, message and signature. */
  datatype Scheme = Scheme(
    publicKey: Bytes -> Bytes,
    isPoint: Bytes -> bool,
    sign: (Bytes, Bytes) -> Bytes,
    verify: (Bytes, Bytes, Bytes) -> bool)
  {
    /** Keys have 32 bytes and signatures 64; a derived key is well formed and verifies its own signatures. */
    ghost predicate Lawful() {
      && (forall sk :: |publicKey(sk)| == 32 && isPoint(publicKey(sk)))
      && (forall sk, m :: |sign(sk, m)| == 64 && verify(publicKey(sk), m, sign(sk, m)))
    }
  }

  type Ed25519 = s: Scheme | s.Lawful()
    witness Scheme(sk => Zeros(32), pk => true, (sk, m) => Zeros(64), (pk, m, sig) => true)

  /** "CryDNA-file-sig-v1:" */
  const SIG_DOMAIN: Bytes := [
    0x43, 0x72, 0x79, 0x44, 0x4e, 0x41, 0x2d, 0x66, 0x69, 0x6c, 0x65, 0x2d, 0x73, 0x69, 0x67, 0x2d, 0x76, 0x31, 0x3a]

  /** What is signed: a hash over the domain tag and the hash of the content. */
  function SignedMessage(suite: Suite, content: Bytes): Bytes {
    suite.sha256(SIG_DOMAIN + suite.sha256(content))
  }

  method HashForSigning(suite: Suite, content: Bytes) returns (message: Bytes)
    ensures message == SignedMessage(suite, content)
  {
    var h := new Hasher(suite);
    h.Update(SIG_DOMAIN);
    h.Update(suite.sha256(content));
    assert h.absorbed == SIG_DOMAIN + suite.sha256(content);
    message := h.Finish();
  }

  /**
     A signature binds the content: two contents with the same signed message are themselves a
     collision of the hash, or their tagged hashes are one.
   */
  lemma SignedMessageBinds(suite: Suite, c1: Bytes, c2: Bytes)
    requires c1 != c2 && SignedMessage(suite, c1) == SignedMessage(suite, c2)
    ensures var t1, t2 := SIG_DOMAIN + suite.sha256(c1), SIG_DOMAIN + suite.sha256(c2);
            || suite.sha256(c1) == suite.sha256(c2)
            || (t1 != t2 && suite.sha256(t1) == suite.sha256(t2))
    ensures Spells(SIG_DOMAIN, "CryDNA-file-sig-v1:")
  {
    var t1, t2 := SIG_DOMAIN + suite.sha256(c1), SIG_DOMAIN + suite.sha256(c2);
    assert t1[|SIG_DOMAIN|..] == suite.sha256(c1) && t2[|SIG_DOMAIN|..] == suite.sha256(c2);
  }

  method SignContent(suite: Suite, ed: Ed25519, secret: Bytes, content: Bytes) returns (sig: Bytes)
    ensures |sig| == 64
    ensures ed.verify(ed.publicKey(secret), suite.sha256(SIG_DOMAIN + suite.sha256(content)), sig)
    ensures sig == ed.sign(secret, suite.sha256(SIG_DOMAIN + suite.sha256(content)))
  {
    var message := HashForSigning(suite, content);
    sig := ed.sign(secret, message);
  }

  /** Malformed text may make the hex decoder panic, so a verification need not return. */
  datatype Verdict = Returned(r: Result<()>) | DecoderPanicked

  /** A key or a signature from hex text of an exact length. */
  function ParseHex(text: Bytes, len: nat, fault: FormatFault): (Verdict, Bytes) {
    match HexToBytes(text)
    case Panicked => (DecoderPanicked, [])
    case Rejected => (Returned(Err(InvalidFormat(fault))), [])
    case Decoded(b) =>
      if |b| == len then (Returned(Ok(())), b) else (Returned(Err(InvalidFormat(fault))), [])
  }

  function Verdicts(suite: Suite, ed: Ed25519, keyHex: Bytes, content: Bytes, sigHex: Bytes): Verdict {
    var (keyRead, key) := ParseHex(keyHex, 32, BadPublicKey);
    if keyRead != Returned(Ok(())) then keyRead
    else if !ed.isPoint(key) then Returned(Err(InvalidFormat(BadPublicKey)))
    else
      var (sigRead, sig) := ParseHex(sigHex, 64, BadSignature);
      if sigRead != Returned(Ok(())) then sigRead
      else if ed.verify(key, SignedMessage(suite, content), sig) then Returned(Ok(()))
      else Returned(Err(VerificationFailed))
  }

  // ---- what the verdicts mean -------------------------------------------------------------

  ghost predicate SpellsKey(ed: Ed25519, text: Bytes, key: Bytes) {
    Canonical(text) == BytesToHex(key) && |key| == 32 && ed.isPoint(key)
  }

  ghost predicate SpellsSignature(text: Bytes, sig: Bytes) {
    Canonical(text) == BytesToHex(sig) && |sig| == 64
  }

  ghost predicate CutsCharacter(text: Bytes) {
    exists k: nat :: StuckAt(text, k)
  }

  /** The verdict each input gets, in terms of what the two texts spell. */
  ghost predicate Judges(
      suite: Suite, ed: Ed25519, keyHex: Bytes, content: Bytes, sigHex: Bytes, v: Verdict)
  {
    var message := suite.sha256(SIG_DOMAIN + suite.sha256(content));
    var goodKey := exists key :: SpellsKey(ed, keyHex, key);
    var goodSignature := exists sig :: SpellsSignature(sigHex, sig);
    && (v == Returned(Ok(())) <==>
          exists key, sig :: SpellsKey(ed, keyHex, key) && SpellsSignature(sigHex, sig) && ed.verify(key, message, sig))
    && (v == Returned(Err(VerificationFailed)) <==>
          exists key, sig :: SpellsKey(ed, keyHex, key) && SpellsSignature(sigHex, sig) && !ed.verify(key, message, sig))
    && (v == Returned(Err(InvalidFormat(BadPublicKey))) <==> !CutsCharacter(keyHex) && !goodKey)
    && (v == Returned(Err(InvalidFormat(BadSignature))) <==> goodKey && !CutsCharacter(sigHex) && !goodSignature)
    && (v == DecoderPanicked <==> CutsCharacter(keyHex) || (goodKey && CutsCharacter(sigHex)))
  }

  method VerifyContentSignature(suite: Suite, ed: Ed25519, keyHex: Bytes, content: Bytes, sigHex: Bytes)
    returns (v: Verdict)
    ensures Judges(suite, ed, keyHex, content, sigHex, v)
    ensures v == Verdicts(suite, ed, keyHex, content, sigHex)
  {
    VerdictsExactly(suite, ed, keyHex, content, sigHex);
    var (keyRead, key) := ParseHex(keyHex, 32, BadPublicKey);
    if keyRead != Returned(Ok(())) { return keyRead; }
    if !ed.isPoint(key) { return Returned(Err(InvalidFormat(BadPublicKey))); }
    var (sigRead, sig) := ParseHex(sigHex, 64, BadSignature);
    if sigRead != Returned(Ok(())) { return sigRead; }
    var message := HashForSigning(suite, content);
    var ok := ed.verify(key, message, sig);
    v := if ok then Returned(Ok(())) else Returned(Err(VerificationFailed));
  }

  /** What reading a text comes to: the bytes it spells, if it spells that many, and a panic if it cuts a character. */
  lemma ParseHexExactly(text: Bytes, len: nat, fault: FormatFault)
    ensures var (v, b) := ParseHex(text, len, fault);
            && v in {DecoderPanicked, Returned(Ok(())), Returned(Err(InvalidFormat(fault)))}
            && (v == DecoderPanicked <==> CutsCharacter(text))
            && (v == Returned(Ok(())) ==> Canonical(text) == BytesToHex(b) && |b| == len)
  {
    PanicsExactly(text);
    if HexToBytes(text).Decoded? { DecodesExactly(text, HexToBytes(text).bytes); }
  }

  lemma SpelledIsRead(text: Bytes, len: nat, fault: FormatFault, b: Bytes)
    requires Canonical(text) == BytesToHex(b) && |b| == len
    ensures ParseHex(text, len, fault) == (Returned(Ok(())), b)
  {
    DecodesExactly(text, b);
  }

  lemma KeyText(ed: Ed25519, text: Bytes)
    ensures var (v, b) := ParseHex(text, 32, BadPublicKey);
            && ((exists key :: SpellsKey(ed, text, key)) <==> v == Returned(Ok(())) && ed.isPoint(b))
            && (forall key :: SpellsKey(ed, text, key) ==> key == b)
  {
    ParseHexExactly(text, 32, BadPublicKey);
    var (v, b) := ParseHex(text, 32, BadPublicKey);
    forall key | SpellsKey(ed, text, key)
      ensures v == Returned(Ok(())) && key == b
    {
      SpelledIsRead(text, 32, BadPublicKey, key);
    }
    if v == Returned(Ok(())) && ed.isPoint(b) { assert SpellsKey(ed, text, b); }
  }

  lemma SignatureText(text: Bytes)
    ensures var (v, b) := ParseHex(text, 64, BadSignature);
            && ((exists sig :: SpellsSignature(text, sig)) <==> v == Returned(Ok(())))
            && (forall sig :: SpellsSignature(text, sig) ==> sig == b)
  {
    ParseHexExactly(text, 64, BadSignature);
    var (v, b) := ParseHex(text, 64, BadSignature);
    forall sig | SpellsSignature(text, sig)
      ensures v == Returned(Ok(())) && sig == b
    {
      SpelledIsRead(text, 64, BadSignature, sig);
    }
    if v == Returned(Ok(())) { assert SpellsSignature(text, b); }
  }

  lemma VerdictsExactly(suite: Suite, ed: Ed25519, keyHex: Bytes, content: Bytes, sigHex: Bytes)
    ensures Judges(suite, ed, keyHex, content, sigHex, Verdicts(suite, ed, keyHex, content, sigHex))
  {
    ParseHexExactly(keyHex, 32, BadPublicKey);
    ParseHexExactly(sigHex, 64, BadSignature);
    KeyText(ed, keyHex);
    SignatureText(sigHex);
  }

  /** The meaning leaves no choice: it allows one verdict for each input. */
  lemma OneVerdict(
      suite: Suite, ed: Ed25519, keyHex: Bytes, content: Bytes, sigHex: Bytes, v: Verdict)
    ensures Judges(suite, ed, keyHex, content, sigHex, v) <==> v == Verdicts(suite, ed, keyHex, content, sigHex)
  {
    VerdictsExactly(suite, ed, keyHex, content, sigHex);
  }

  /**
     Accepted are exactly the texts whose canonical spellings are the hex of a well-formed key and
     of a signature that verifies under it.
   */
  lemma AcceptsExactly(
      suite: Suite, ed: Ed25519, keyHex: Bytes, content: Bytes, sigHex: Bytes)
    ensures Verdicts(suite, ed, keyHex, content, sigHex) == Returned(Ok(())) <==>
      exists key, sig ::
        && Canonical(keyHex) == BytesToHex(key) && |key| == 32 && ed.isPoint(key)
        && Canonical(sigHex) == BytesToHex(sig) && |sig| == 64
        && ed.verify(key, suite.sha256(SIG_DOMAIN + suite.sha256(content)), sig)
  {
    VerdictsExactly(suite, ed, keyHex, content, sigHex);
    if Verdicts(suite, ed, keyHex, content, sigHex) == Returned(Ok(())) {
      var key, sig :| SpellsKey(ed, keyHex, key) && SpellsSignature(sigHex, sig)
        && ed.verify(key, SignedMessage(suite, content), sig);
      assert Canonical(keyHex) == BytesToHex(key) && Canonical(sigHex) == BytesToHex(sig);
    }
    if key, sig :|
        Canonical(keyHex) == BytesToHex(key) && |key| == 32 && ed.isPoint(key) &&
        Canonical(sigHex) == BytesToHex(sig) && |sig| == 64 &&
        ed.verify(key, SignedMessage(suite, content), sig)
    {
      assert SpellsKey(ed, keyHex, key) && SpellsSignature(sigHex, sig);
    }
  }

  /** An honest signature verifies, in the spelling the program prints or any other that is canonically the same. */
  lemma HonestSignatureAccepted(
      suite: Suite, ed: Ed25519, secret: Bytes, content: Bytes, keyHex: Bytes, sigHex: Bytes)
    requires Canonical(keyHex) == BytesToHex(ed.publicKey(secret))
    requires Canonical(sigHex) == BytesToHex(ed.sign(secret, suite.sha256(SIG_DOMAIN + suite.sha256(content))))
    ensures Verdicts(suite, ed, keyHex, content, sigHex) == Returned(Ok(()))
  {
    DecodesExactly(keyHex, ed.publicKey(secret));
    DecodesExactly(sigHex, ed.sign(secret, SignedMessage(suite, content)));
  }
}
