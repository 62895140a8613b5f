/**
 The `.cry` container as pure functions: how a plaintext is cut and framed, what a reader
 makes of a body frame by frame, and what whole files mean. The streaming loops are proved
 against these functions; the theorems about them are in ContainerTheorems.
 */
module Container {
  import opened ByteStrings
  import opened Outcomes
  import opened Crypto
  import opened ChunkNonces
  import opened Streams
  import opened Headers

  /** Any chunk size for which a frame's length still fits in 32 bits. */
  type ChunkSize = c: nat | 1 <= c && c + 64 < 0x1_0000_0000 witness 1

  const CHUNK_SIZE: ChunkSize := 1024 * 1024

  /** MAX_CHUNK_WIRE_LEN. */
  function WireCap(chunk: ChunkSize): u32 { chunk + 64 }

  /** All that reading frames depends on: the longest payload accepted, and how the one at an index opens. */
  datatype Opener = Opener(cap: u32, open: (nat, Bytes) -> Option<Bytes>)

  /** All that writing frames depends on: how the chunk at an index is sealed. */
  type Sealer = (nat, Bytes) -> Option<Bytes>

  /** What every chunk of one file is sealed under. */
  datatype Session = Session(
    suite: Suite, chunk: ChunkSize, algo: Algorithm, key: Bytes, nonce: Nonce, headerAad: Bytes)
  {
    function Cipher(): Aead {
      match algo
      case Aes256Gcm => suite.aesGcm
      case ChaCha20Poly1305 => suite.chaCha
    }

    function SealAt(i: nat, plain: Bytes): Option<Bytes> {
      Cipher().seal(key, ChunkNonce(nonce, i), ChunkAad(headerAad, i), plain)
    }

    function OpenAt(i: nat, ct: Bytes): Option<Bytes> {
      Cipher().open(key, ChunkNonce(nonce, i), ChunkAad(headerAad, i), ct)
    }

    function Sealing(): Sealer {
      (i: nat, plain: Bytes) => SealAt(i, plain)
    }

    function Opening(): Opener {
      Opener(WireCap(chunk), (i: nat, ct: Bytes) => OpenAt(i, ct))
    }
  }

  function SessionFor(suite: Suite, chunk: ChunkSize, key: Bytes, h: Header): Session {
    Session(suite, chunk, h.algo, key, h.nonce, HeaderAad(suite, h))
  }

  function OpenerFor(suite: Suite, chunk: ChunkSize, key: Bytes, h: Header): Opener {
    SessionFor(suite, chunk, key, h).Opening()
  }

  // ---- bodies -------------------------------------------------------------------------

  /** Full chunks, then one shorter chunk if anything is left. */
  function Chunks(plain: Bytes, chunk: ChunkSize): seq<Bytes> {
    if plain == [] then []
    else var n := Min(chunk, |plain|); [plain[..n]] + Chunks(plain[n..], chunk)
  }

  function Concat(parts: seq<Bytes>): Bytes {
    if parts == [] then [] else parts[0] + Concat(parts[1..])
  }

  function Frame(ct: Bytes): Bytes {
    ToBE(|ct|, 4) + ct
  }

  function Wire(payloads: seq<Bytes>): Bytes {
    if payloads == [] then [] else Frame(payloads[0]) + Wire(payloads[1..])
  }

  /** The frames of consecutive chunks, the first of them chunk `i`; None if one cannot be sealed. */
  function EncryptBody(seal: Sealer, chunks: seq<Bytes>, i: nat): Option<Bytes> {
    if chunks == [] then Some([])
    else match seal(i, chunks[0])
      case None => None
      case Some(ct) => After(Frame(ct), EncryptBody(seal, chunks[1..], i + 1))
  }

  /** Put bytes already produced in front of what is still to come. */
  function After(done: Bytes, rest: Option<Bytes>): Option<Bytes> {
    match rest
    case None => None
    case Some(b) => Some(done + b)
  }

  datatype Opened = Opened(count: nat, plain: Bytes)

  /** What reading frames from `body` comes to, when the first of them is frame `i`. */
  function DecryptBody(o: Opener, body: Bytes, i: nat): Result<Opened> {
    if |body| < 4 then Ok(Opened(i, []))
    else
      var len := FromBE(body[..4]);
      if len > o.cap then Err(SuspiciousChunkLen(i, len))
      else if |body| - 4 < len then Err(Io(UnexpectedEof))
      else match o.open(i, body[4..4 + len])
        case None => Err(DecryptionFailed)
        case Some(m) => Prepend(m, DecryptBody(o, body[4 + len..], i + 1))
  }

  function Prepend(done: Bytes, rest: Result<Opened>): Result<Opened> {
    match rest
    case Err(e) => Err(e)
    case Ok(o) => Ok(Opened(o.count, done + o.plain))
  }

  /** Rust's `div_ceil`. */
  function DivCeil(n: nat, d: nat): nat
    requires d > 0
  {
    if n % d == 0 then n / d else n / d + 1
  }

  // ---- whole files ----------------------------------------------------------------------

  /** The file an encryption under header `h` writes for `plain`. */
  ghost function EncryptedFile(suite: Suite, chunk: ChunkSize, pass: Bytes, h: Header, plain: Bytes): Option<Bytes>
  {
    match suite.kdf(pass, h.salt)
    case None => None
    case Some(key) => EncryptedWith(suite, chunk, key, h, plain)
  }

  ghost function EncryptedWith(suite: Suite, chunk: ChunkSize, key: Bytes, h: Header, plain: Bytes): Option<Bytes> {
    After(HeaderBytes(suite, key, h), EncryptBody(SessionFor(suite, chunk, key, h).Sealing(), Chunks(plain, chunk), 0))
  }

  /** What decrypting the contents of a file comes to: header, key, body, committed count. */
  ghost function DecryptedFile(suite: Suite, chunk: ChunkSize, pass: Bytes, file: Bytes): Result<Bytes>
  {
    if |file| < HEADER_LEN then Err(InvalidFormat(TooShort))
    else match suite.kdf(pass, file[SALT_OFFSET..SALT_OFFSET + SALT_LEN])
      case None => Err(Kdf)
      case Some(key) =>
        match ParseHeader(suite, key, file[..HEADER_LEN])
        case Err(e) => Err(e)
        case Ok(h) => DecryptedBody(OpenerFor(suite, chunk, key, h), h.chunkCount, file[HEADER_LEN..])
  }

  /** The inner phase: read every frame, then compare with the committed count. */
  function DecryptedBody(o: Opener, committed: nat, body: Bytes): Result<Bytes> {
    CheckCount(committed, DecryptBody(o, body, 0))
  }

  function CheckCount(committed: nat, r: Result<Opened>): Result<Bytes> {
    match r
    case Err(e) => Err(e)
    case Ok(o) => if o.count == committed then Ok(o.plain) else Err(Truncated(committed, o.count))
  }
}
