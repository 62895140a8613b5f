/** The streaming loops of src/cipher.rs, proved against the container's functions. */
module ChunkLoops {
  import opened ByteStrings
  import opened Outcomes
  import opened Crypto
  import opened ChunkNonces
  import opened Streams
  import opened Headers
  import opened Container
  import opened ContainerTheorems

  method EncryptChunk(s: Session, index: u64, plain: Bytes) returns (r: Result<Bytes>)
    ensures r == match s.SealAt(index, plain)
                 case None => Err(EncryptionFailed)
                 case Some(ct) => Ok(ct)
  {
    var nonce := DeriveChunkNonce(s.nonce, index);
    var aad := ChunkAad(s.headerAad, index);
    var sealed := match s.algo
      case Aes256Gcm => s.suite.aesGcm.seal(s.key, nonce, aad, plain)
      case ChaCha20Poly1305 => s.suite.chaCha.seal(s.key, nonce, aad, plain);
    r := if sealed.None? then Err(EncryptionFailed) else Ok(sealed.value);
  }

  method DecryptChunk(s: Session, index: u64, ct: Bytes) returns (r: Result<Bytes>)
    ensures r == match s.OpenAt(index, ct)
                 case None => Err(DecryptionFailed)
                 case Some(plain) => Ok(plain)
  {
    var nonce := DeriveChunkNonce(s.nonce, index);
    var aad := ChunkAad(s.headerAad, index);
    var unsealed := match s.algo
      case Aes256Gcm => s.suite.aesGcm.open(s.key, nonce, aad, ct)
      case ChaCha20Poly1305 => s.suite.chaCha.open(s.key, nonce, aad, ct);
    r := if unsealed.None? then Err(DecryptionFailed) else Ok(unsealed.value);
  }

  /**
     Reads chunk after chunk into one reused buffer. On success exactly the frames of the input's
     chunks have been written, numbered from 0, whatever the reader's schedule was; the only
     failures are the reader's and the writer's own.
   */
  method EncryptChunks<P>(reader: Reader, writer: BufWriter<P>, s: Session) returns (r: Result<u64>)
    requires writer.Valid() && |reader.pending| < TWO64
    modifies reader, writer, writer.fs
    ensures writer.Valid()
    ensures r.Ok? ==>
              (Some(writer.accepted), r.value) == Remaining(s, old(writer.accepted), old(reader.pending), 0)
    ensures r.Err? ==> r.error == Io(OtherIo) && (reader.faulty || writer.fs.faulty)
  {
    ghost var size, all := |reader.pending|, Remaining(s, writer.accepted, reader.pending, 0);
    var buf := new byte[s.chunk](_ => 0);
    var index: u64 := 0;
    while true
      invariant writer.Valid()
      invariant index + |reader.pending| <= size
      invariant Remaining(s, writer.accepted, reader.pending, index) == all
      decreases |reader.pending|
    {
      var n := EncryptNext(reader, writer, s, buf, index);
      if n.Err? { return Err(n.error); }
      if n.value == 0 { break; }
      index := index + 1;
      if n.value < s.chunk { break; }
    }
    r := Ok(index);
  }

  /** What will have been written, and how many chunks counted, once `rest` is encrypted too. */
  ghost function Remaining(s: Session, sofar: Bytes, rest: Bytes, index: nat): (Option<Bytes>, nat) {
    (After(sofar, EncryptBody(s.Sealing(), Chunks(rest, s.chunk), index)), index + |Chunks(rest, s.chunk)|)
  }

  lemma NothingRemains(s: Session, sofar: Bytes, index: nat)
    ensures Remaining(s, sofar, [], index) == (Some(sofar), index)
  {
    assert sofar + [] == sofar;
  }

  /** One turn of the loop: read into the buffer, seal what was read, write the frame. */
  method EncryptNext<P>(reader: Reader, writer: BufWriter<P>, s: Session, buf: array<byte>, index: u64)
    returns (r: Result<nat>)
    requires writer.Valid() && buf.Length == s.chunk
    modifies reader, writer, writer.fs, buf
    ensures writer.Valid()
    ensures r.Ok? ==>
              && r.value == Min(s.chunk, |old(reader.pending)|)
              && reader.pending == old(reader.pending)[r.value..]
              && |reader.pending| == |old(reader.pending)| - r.value
    ensures r.Ok? && r.value > 0 ==>
              && Remaining(s, writer.accepted, reader.pending, index + 1)
                 == Remaining(s, old(writer.accepted), old(reader.pending), index)
    ensures r.Ok? && r.value < s.chunk ==>
              Remaining(s, old(writer.accepted), old(reader.pending), index)
              == (Some(writer.accepted), if r.value > 0 then index + 1 else index)
    ensures r.Err? ==> r.error == Io(OtherIo) && (reader.faulty || writer.fs.faulty)
  {
    r := reader.ReadChunk(buf);
    if r.Err? { return; }
    if r.value == 0 {
      NothingRemains(s, writer.accepted, index);
      return;
    }
    var ct := EncryptChunk(s, index, buf[..r.value]);
    SealedLength(s, index, buf[..r.value]);
    var w := WriteFrame(writer, ct.value);
    if w.Err? { return Err(w.error); }
    FrameAppended(s, old(reader.pending), index, ct.value, old(writer.accepted), writer.accepted);
    if r.value < s.chunk { NothingRemains(s, writer.accepted, index + 1); }
  }

  /** The length, cast to 32 bits, and then the payload. */
  method WriteFrame<P>(writer: BufWriter<P>, ct: Bytes) returns (r: Result<()>)
    requires writer.Valid() && |ct| < TWO32
    modifies writer, writer.fs
    ensures writer.Valid()
    ensures r.Ok? ==> writer.accepted == old(writer.accepted) + Frame(ct)
    ensures r.Err? ==> writer.fs.faulty && r.error == Io(OtherIo)
  {
    var len: u32 := |ct|;
    r := writer.WriteAll(ToBE(len, 4));
    if r.Err? { return; }
    r := writer.WriteAll(ct);
  }

  /** Writing a frame moves one chunk from what is left to what is done. */
  lemma FrameAppended(
      s: Session, rest: Bytes, index: nat, ct: Bytes, sofar: Bytes, now: Bytes)
    requires rest != []
    requires s.SealAt(index, rest[..Min(s.chunk, |rest|)]) == Some(ct)
    requires now == sofar + Frame(ct)
    ensures Remaining(s, now, rest[Min(s.chunk, |rest|)..], index + 1) == Remaining(s, sofar, rest, index)
  {
    var later := rest[Min(s.chunk, |rest|)..];
    assert Chunks(rest, s.chunk)[1..] == Chunks(later, s.chunk);
    AfterTwice(sofar, Frame(ct), EncryptBody(s.Sealing(), Chunks(later, s.chunk), index + 1));
  }

  lemma AfterTwice(a: Bytes, b: Bytes, r: Option<Bytes>)
    ensures After(a, After(b, r)) == After(a + b, r)
  {
    if r.Some? {
      assert a + (b + r.value) == a + b + r.value;
    }
  }

  /**
     Reads frame after frame until the four length bytes hit end of file. The result, value or
     error, is the one `DecryptBody` describes, unless the reader or the writer itself fails.
   */
  method DecryptChunks<P>(reader: Reader, writer: BufWriter<P>, s: Session) returns (r: Result<u64>)
    requires writer.Valid() && |reader.pending| < TWO64
    modifies reader, writer, writer.fs
    ensures writer.Valid()
    ensures r.Ok? ==>
              && DecryptBody(s.Opening(), old(reader.pending), 0).Ok?
              && r.value == DecryptBody(s.Opening(), old(reader.pending), 0).value.count
              && writer.accepted == old(writer.accepted) + DecryptBody(s.Opening(), old(reader.pending), 0).value.plain
    ensures r.Err? ==>
              || DecryptBody(s.Opening(), old(reader.pending), 0) == Err(r.error)
              || (r.error == Io(OtherIo) && (reader.faulty || writer.fs.faulty))
    ensures r != Err(FileExists)
  {
    ghost var input := reader.pending;
    ghost var all := Prepend(writer.accepted, DecryptBody(s.Opening(), input, 0));
    var index: u64 := 0;
    while true
      invariant writer.Valid()
      invariant index + |reader.pending| <= |input|
      invariant Prepend(writer.accepted, DecryptBody(s.Opening(), reader.pending, index)) == all
      decreases |reader.pending|
    {
      ghost var rest, sofar := reader.pending, writer.accepted;
      var lenBytes := reader.ReadExact(4);
      if lenBytes.Err? {
        if lenBytes.error == Io(UnexpectedEof) { break; }
        return Err(lenBytes.error);
      }
      var ctLen := FromBE(lenBytes.value);
      if ctLen > WireCap(s.chunk) {
        return Err(SuspiciousChunkLen(index, ctLen));
      }
      var ct := reader.ReadExact(ctLen);
      if ct.Err? { return Err(ct.error); }
      assert ct.value == rest[4..4 + ctLen] && reader.pending == rest[4 + ctLen..];
      var plain := DecryptChunk(s, index, ct.value);
      if plain.Err? { return Err(plain.error); }
      var w := writer.WriteAll(plain.value);
      if w.Err? { return Err(w.error); }
      PrependTwice(sofar, plain.value, DecryptBody(s.Opening(), reader.pending, index + 1));
      index := index + 1;
    }
    r := Ok(index);
  }
}
