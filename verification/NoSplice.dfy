/**
 Integrity: if a presented file contains no forgery, whatever is accepted is one honest file.
 A forgery is an event of the file at hand (a header or a frame that verifies although no
 honest run produced it), since as functions the MAC and the AEAD verify for every message.
 */
module NoSplice {
  import opened ByteStrings
  import opened Outcomes
  import opened Crypto
  import opened ChunkNonces
  import opened Headers
  import opened Container
  import opened ContainerTheorems

  /** One successful encryption. */
  datatype Run = Run(header: Header, plain: Bytes)

  /** All successful encryptions under one passphrase; each has its own salt, hence its own key. */
  datatype Runs = Runs(suite: Suite, chunk: ChunkSize, pass: Bytes, runs: set<Run>)
  {
    /** Each run commits to its own count; no two share a header, and their serialised headers do not collide. */
    ghost predicate Honest() {
      && (forall r :: r in runs ==> Commits(r.header, chunk, r.plain))
      && (forall r1, r2 :: r1 in runs && r2 in runs && r1.header == r2.header ==> r1 == r2)
      && (forall r1, r2 :: r1 in runs && r2 in runs ==>
            suite.sha256(PreHmacBytes(r1.header)) == suite.sha256(PreHmacBytes(r2.header)) ==>
              PreHmacBytes(r1.header) == PreHmacBytes(r2.header))
    }
  }

  type History = w: Runs | w.Honest() witness Runs(ToyPrimitives(), CHUNK_SIZE, [], {})

  /** Chunk j of run r was sealed, as `ct`, under the cipher, key, nonce and additional data of `s` at i. */
  ghost predicate SealedBy(pass: Bytes, r: Run, j: nat, s: Session, i: nat, ct: Bytes) {
    && j < |Chunks(r.plain, s.chunk)|
    && s.suite.kdf(pass, r.header.salt) == Some(s.key)
    && r.header.algo == s.algo
    && ChunkNonce(r.header.nonce, j) == ChunkNonce(s.nonce, i)
    && ChunkAad(HeaderAad(s.suite, r.header), j) == ChunkAad(s.headerAad, i)
    && SessionFor(s.suite, s.chunk, s.key, r.header).SealAt(j, Chunks(r.plain, s.chunk)[j]) == Some(ct)
  }

  /** Some honest run sealed `ct`, at some index, under what `s` uses at i. */
  ghost predicate Produced(w: History, s: Session, i: nat, ct: Bytes) {
    exists r, j :: r in w.runs && SealedBy(w.pass, r, j, s, i, ct)
  }

  /** Every frame of `body` that opens at its position was produced by an honest run. */
  ghost predicate NoForgedFrame(w: History, s: Session, body: Bytes) {
    forall payloads, tail, i: nat ::
      IsSplit(s.Opening(), body, payloads, tail) && i < |payloads| && s.Opening().open(i, payloads[i]).Some? ==>
        Produced(w, s, i, payloads[i])
  }

  ghost predicate NoForgery(w: History, file: Bytes) {
    |file| >= HEADER_LEN ==>
      match w.suite.kdf(w.pass, file[SALT_OFFSET..SALT_OFFSET + SALT_LEN])
      case None => true
      case Some(key) =>
        match ParseHeader(w.suite, key, file[..HEADER_LEN])
        case Err(_) => true
        case Ok(h) =>
          && (exists r :: r in w.runs && r.header == h)
          && NoForgedFrame(w, SessionFor(w.suite, w.chunk, key, h), file[HEADER_LEN..])
  }

  // ---- one place for every frame --------------------------------------------------------

  /**
     The additional data of run r's chunk i is used for nothing else: whatever an honest run sealed
     under it is that chunk. So a frame that opens elsewhere was not produced for that place.
   */
  lemma FrameHasOnePlace(w: History, key: Bytes, r: Run, i: nat, r': Run, j: nat, ct: Bytes)
    requires r in w.runs && r' in w.runs
    requires i < |Chunks(r.plain, w.chunk)|
    requires SealedBy(w.pass, r', j, SessionFor(w.suite, w.chunk, key, r.header), i, ct)
    ensures r' == r && j == i
  {
    ChunkAadInjective(HeaderAad(w.suite, r'.header), j, HeaderAad(w.suite, r.header), i);
    PreHmacInjective(r.header, r'.header);
  }

  /** Whoever opens a list of payloads could only have got each of them by sealing. */
  lemma OpenedWasSealed(s: Session, payloads: seq<Bytes>, chunks: seq<Bytes>, i: nat)
    requires AllOpen(s.Opening(), payloads, 0, chunks) && i < |payloads|
    ensures s.SealAt(i, chunks[i]) == Some(payloads[i])
  {
    OpensInPlace(s.Opening(), payloads, 0, chunks, i);
  }

  /** `honest` is the list of payloads run r wrote; a produced frame at position i is the i-th of them. */
  lemma FrameIsHonest(w: History, key: Bytes, r: Run, honest: seq<Bytes>, i: nat, ct: Bytes)
    requires r in w.runs && i < |honest|
    requires AllOpen(OpenerFor(w.suite, w.chunk, key, r.header), honest, 0, Chunks(r.plain, w.chunk))
    requires Produced(w, SessionFor(w.suite, w.chunk, key, r.header), i, ct)
    ensures ct == honest[i]
  {
    var s := SessionFor(w.suite, w.chunk, key, r.header);
    var r', j :| r' in w.runs && SealedBy(w.pass, r', j, s, i, ct);
    OpenedWasSealed(s, honest, Chunks(r.plain, w.chunk), i);
    FrameHasOnePlace(w, key, r, i, r', j, ct);
  }

  lemma PayloadIsProduced(
      w: History, s: Session, body: Bytes, payloads: seq<Bytes>, tail: Bytes, parts: seq<Bytes>, i: nat)
    requires NoForgedFrame(w, s, body)
    requires IsSplit(s.Opening(), body, payloads, tail) && AllOpen(s.Opening(), payloads, 0, parts) && i < |payloads|
    ensures Produced(w, s, i, payloads[i])
  {
    OpensInPlace(s.Opening(), payloads, 0, parts, i);
  }

  lemma PayloadsAreProduced(
      w: History, s: Session, body: Bytes, payloads: seq<Bytes>, tail: Bytes, parts: seq<Bytes>)
    requires NoForgedFrame(w, s, body)
    requires IsSplit(s.Opening(), body, payloads, tail) && AllOpen(s.Opening(), payloads, 0, parts)
    ensures forall i: nat :: i < |payloads| ==> Produced(w, s, i, payloads[i])
  {
    forall i: nat | i < |payloads|
      ensures Produced(w, s, i, payloads[i])
    {
      PayloadIsProduced(w, s, body, payloads, tail, parts, i);
    }
  }

  lemma PayloadsAreHonest(
      w: History, key: Bytes, r: Run, honest: seq<Bytes>, payloads: seq<Bytes>)
    requires r in w.runs && |payloads| == |honest|
    requires AllOpen(OpenerFor(w.suite, w.chunk, key, r.header), honest, 0, Chunks(r.plain, w.chunk))
    requires forall i: nat :: i < |payloads| ==>
      Produced(w, SessionFor(w.suite, w.chunk, key, r.header), i, payloads[i])
    ensures payloads == honest
  {
    forall i | 0 <= i < |payloads|
      ensures payloads[i] == honest[i]
    {
      FrameIsHonest(w, key, r, honest, i, payloads[i]);
    }
  }

  lemma BodyIsHonest(w: History, key: Bytes, r: Run, honest: seq<Bytes>, body: Bytes)
    returns (tail: Bytes)
    requires r in w.runs
    requires AllOpen(OpenerFor(w.suite, w.chunk, key, r.header), honest, 0, Chunks(r.plain, w.chunk))
    requires NoForgedFrame(w, SessionFor(w.suite, w.chunk, key, r.header), body)
    requires DecryptedBody(OpenerFor(w.suite, w.chunk, key, r.header), r.header.chunkCount, body).Ok?
    ensures |tail| < 4 && body == Wire(honest) + tail
  {
    var s := SessionFor(w.suite, w.chunk, key, r.header);
    var payloads, t, parts := AcceptedIsSplit(s.Opening(), body, 0);
    tail := t;
    PayloadsAreProduced(w, s, body, payloads, tail, parts);
    PayloadsAreHonest(w, key, r, honest, payloads);
  }

  // ---- whole files ------------------------------------------------------------------------

  /** The key and header under which an accepted file was accepted. */
  lemma Unpack(w: History, file: Bytes) returns (key: Bytes, h: Header)
    requires NoForgery(w, file)
    requires DecryptedFile(w.suite, w.chunk, w.pass, file).Ok?
    ensures w.suite.kdf(w.pass, h.salt) == Some(key)
    ensures |file| >= HEADER_LEN && file == HeaderBytes(w.suite, key, h) + file[HEADER_LEN..]
    ensures DecryptedBody(OpenerFor(w.suite, w.chunk, key, h), h.chunkCount, file[HEADER_LEN..]).Ok?
    ensures exists r :: r in w.runs && r.header == h
    ensures NoForgedFrame(w, SessionFor(w.suite, w.chunk, key, h), file[HEADER_LEN..])
  {
    key, h := AcceptedUnderOwnSalt(w.suite, w.chunk, w.pass, file);
    HeaderInFront(w.suite, key, h, file);
  }

  /**
     An accepted file without a forgery is the file of the run that wrote its header, plus at
     most three bytes, and decrypts to that run's plaintext: frames are not reordered, dropped,
     repeated, or taken from another file.
   */
  lemma AcceptedIsOneHonestFile(w: History, file: Bytes) returns (r: Run, tail: Bytes)
    requires NoForgery(w, file)
    requires DecryptedFile(w.suite, w.chunk, w.pass, file).Ok?
    ensures r in w.runs && |tail| < 4
    ensures EncryptedFile(w.suite, w.chunk, w.pass, r.header, r.plain).Some?
    ensures file == EncryptedFile(w.suite, w.chunk, w.pass, r.header, r.plain).value + tail
    ensures DecryptedFile(w.suite, w.chunk, w.pass, file) == Ok(r.plain)
  {
    var key, h := Unpack(w, file);
    r :| r in w.runs && r.header == h;
    tail := AcceptedWithHeader(w, key, r, file);
    ExtensionAcceptedIffShort(w.suite, w.chunk, w.pass, h, r.plain, tail);
  }

  lemma AcceptedWithHeader(w: History, key: Bytes, r: Run, file: Bytes) returns (tail: Bytes)
    requires r in w.runs && w.suite.kdf(w.pass, r.header.salt) == Some(key)
    requires |file| >= HEADER_LEN && file == HeaderBytes(w.suite, key, r.header) + file[HEADER_LEN..]
    requires DecryptedBody(OpenerFor(w.suite, w.chunk, key, r.header), r.header.chunkCount, file[HEADER_LEN..]).Ok?
    requires NoForgedFrame(w, SessionFor(w.suite, w.chunk, key, r.header), file[HEADER_LEN..])
    ensures |tail| < 4
    ensures EncryptedFile(w.suite, w.chunk, w.pass, r.header, r.plain).Some?
    ensures file == EncryptedFile(w.suite, w.chunk, w.pass, r.header, r.plain).value + tail
  {
    var payloads := HonestFile(w.suite, w.chunk, w.pass, key, r.header, r.plain);
    tail := BodyIsHonest(w, key, r, payloads, file[HEADER_LEN..]);
    Regroup(HeaderBytes(w.suite, key, r.header), Wire(payloads), tail);
  }

  /** The hypothesis is met where it should be: an honest file, a few bytes appended or not, contains no forgery. */
  lemma HonestFileHasNoForgery(w: History, r: Run, tail: Bytes)
    requires r in w.runs && |tail| < 4
    requires EncryptedFile(w.suite, w.chunk, w.pass, r.header, r.plain).Some?
    ensures NoForgery(w, EncryptedFile(w.suite, w.chunk, w.pass, r.header, r.plain).value + tail)
  {
    var key := w.suite.kdf(w.pass, r.header.salt).value;
    var honest := HonestFile(w.suite, w.chunk, w.pass, key, r.header, r.plain);
    HonestWireHasNoForgery(w, key, r, honest, tail);
  }

  lemma HonestWireHasNoForgery(w: History, key: Bytes, r: Run, honest: seq<Bytes>, tail: Bytes)
    requires r in w.runs && w.suite.kdf(w.pass, r.header.salt) == Some(key) && |tail| < 4
    requires WithinCap(OpenerFor(w.suite, w.chunk, key, r.header), honest)
    requires AllOpen(OpenerFor(w.suite, w.chunk, key, r.header), honest, 0, Chunks(r.plain, w.chunk))
    ensures NoForgery(w, HeaderBytes(w.suite, key, r.header) + Wire(honest) + tail)
  {
    var head := HeaderBytes(w.suite, key, r.header);
    var file := head + Wire(honest) + tail;
    assert file[..HEADER_LEN] == head && file[HEADER_LEN..] == Wire(honest) + tail;
    HeaderInFront(w.suite, key, r.header, file);
    HonestBodyHasNoForgery(w, key, r, honest, tail);
  }

  lemma HonestBodyHasNoForgery(w: History, key: Bytes, r: Run, honest: seq<Bytes>, t: Bytes)
    requires r in w.runs && w.suite.kdf(w.pass, r.header.salt) == Some(key) && |t| < 4
    requires WithinCap(OpenerFor(w.suite, w.chunk, key, r.header), honest)
    requires AllOpen(OpenerFor(w.suite, w.chunk, key, r.header), honest, 0, Chunks(r.plain, w.chunk))
    ensures NoForgedFrame(w, SessionFor(w.suite, w.chunk, key, r.header), Wire(honest) + t)
  {
    var s, cs := SessionFor(w.suite, w.chunk, key, r.header), Chunks(r.plain, w.chunk);
    forall payloads, tail, i: nat |
      IsSplit(s.Opening(), Wire(honest) + t, payloads, tail) && i < |payloads| && s.Opening().open(i, payloads[i]).Some?
      ensures Produced(w, s, i, payloads[i])
    {
      SplitUnique(s.Opening(), Wire(honest) + t, payloads, tail, honest, t);
      OpenedWasSealed(s, honest, cs, i);
      assert SealedBy(w.pass, r, i, s, i, payloads[i]);
    }
  }

  /** `file` is what run r wrote, and at most three bytes more. */
  ghost predicate IsFileOf(w: History, r: Run, tail: Bytes, file: Bytes) {
    && r in w.runs && |tail| < 4
    && var honest := EncryptedFile(w.suite, w.chunk, w.pass, r.header, r.plain);
       honest.Some? && file == honest.value + tail
  }

  /** Accepted and free of forgeries are exactly the files of honest runs, with at most three bytes appended. */
  lemma AcceptedIff(w: History, file: Bytes)
    ensures NoForgery(w, file) && DecryptedFile(w.suite, w.chunk, w.pass, file).Ok?
       <==> exists r, tail :: IsFileOf(w, r, tail, file)
  {
    if NoForgery(w, file) && DecryptedFile(w.suite, w.chunk, w.pass, file).Ok? {
      var r, tail := AcceptedIsOneHonestFile(w, file);
      assert IsFileOf(w, r, tail, file);
    }
    if r, tail :| IsFileOf(w, r, tail, file) {
      HonestFileHasNoForgery(w, r, tail);
      ExtensionAcceptedIffShort(w.suite, w.chunk, w.pass, r.header, r.plain, tail);
    }
  }
}
