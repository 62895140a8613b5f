/** The 73-byte authenticated file header of src/header.rs. */
module Headers {
  import opened ByteStrings
  import opened Outcomes
  import opened Crypto
  import opened ChunkNonces
  import opened Streams

  type Salt = b: Bytes | |b| == 16 witness seq(16, _ => 0)

  const MAGIC: Bytes := [0x43, 0x52, 0x59, 0x02]
  const SALT_LEN: nat := 16
  const NONCE_LEN: nat := 12
  const HMAC_LEN: nat := 32
  const HEADER_LEN: nat := 4 + 1 + SALT_LEN + NONCE_LEN + 8 + HMAC_LEN
  const SALT_OFFSET: nat := 4 + 1

  /** "cry-header-hmac-v2" in ASCII. */
  const HMAC_INFO: Bytes := [
    0x63, 0x72, 0x79, 0x2d, 0x68, 0x65, 0x61, 0x64, 0x65, 0x72, 0x2d, 0x68, 0x6d, 0x61, 0x63, 0x2d, 0x76, 0x32]

  datatype Algorithm = Aes256Gcm | ChaCha20Poly1305
  {
    function Byte(): byte {
      match this
      case Aes256Gcm => 0x01
      case ChaCha20Poly1305 => 0x02
    }

    static function FromByte(b: byte): Result<Algorithm> {
      if b == 0x01 then Ok(Aes256Gcm)
      else if b == 0x02 then Ok(ChaCha20Poly1305)
      else Err(InvalidFormat(UnknownAlgorithm(b)))
    }
  }

  datatype Header = Header(algo: Algorithm, salt: Salt, nonce: Nonce, chunkCount: u64)

  /** Everything the HMAC covers. */
  function PreHmacBytes(h: Header): (b: Bytes)
    ensures |b| == HEADER_LEN - HMAC_LEN
  {
    MAGIC + [h.algo.Byte()] + h.salt + h.nonce + ToBE(h.chunkCount, 8)
  }

  // ---- the HMAC sub-key -------------------------------------------------------------

  /** T(i) of HKDF-Expand, section 2.3 of RFC 5869. */
  function HkdfBlock(suite: Suite, prk: Bytes, info: Bytes, i: nat): Bytes {
    if i == 0 then [] else suite.hmac(prk, HkdfBlock(suite, prk, info, i - 1) + info + [i % 256])
  }

  /** T(1) | T(2) | ... | T(n). */
  function HkdfBlocks(suite: Suite, prk: Bytes, info: Bytes, n: nat): Bytes {
    if n == 0 then [] else HkdfBlocks(suite, prk, info, n - 1) + HkdfBlock(suite, prk, info, n)
  }

  lemma {:induction false} HkdfBlocksLength(suite: Suite, prk: Bytes, info: Bytes, n: nat)
    ensures |HkdfBlocks(suite, prk, info, n)| == n * DIGEST_LEN
  {
    if n > 0 {
      HkdfBlocksLength(suite, prk, info, n - 1);
      assert |HkdfBlock(suite, prk, info, n)| == DIGEST_LEN;
    }
  }

  /** OKM = the first `len` bytes of T(1) | ... | T(N) with N = ceil(len / HashLen). */
  function HkdfExpand(suite: Suite, prk: Bytes, info: Bytes, len: nat): (okm: Bytes)
    ensures |okm| == len
  {
    var n := (len + DIGEST_LEN - 1) / DIGEST_LEN;
    HkdfBlocksLength(suite, prk, info, n);
    HkdfBlocks(suite, prk, info, n)[..len]
  }

  /** The source computes one HMAC over info and a counter byte; that is HKDF-Expand to 32 bytes. */
  method DeriveHmacSubkey(suite: Suite, masterKey: Bytes) returns (subkey: Bytes)
    ensures subkey == HkdfExpand(suite, masterKey, HMAC_INFO, 32)
  {
    var mac := new Mac(suite, masterKey);
    mac.Update(HMAC_INFO);
    mac.Update([0x01]);
    subkey := mac.Finish();
    SubkeyIsFirstBlock(suite, masterKey);
    assert [] + HMAC_INFO + [0x01] == HMAC_INFO + [0x01];
  }

  lemma SubkeyIsFirstBlock(suite: Suite, masterKey: Bytes)
    ensures HkdfExpand(suite, masterKey, HMAC_INFO, 32) == suite.hmac(masterKey, HMAC_INFO + [0x01])
  {
    var t1 := HkdfBlock(suite, masterKey, HMAC_INFO, 1);
    assert HkdfBlock(suite, masterKey, HMAC_INFO, 0) == [];
    assert [] + HMAC_INFO + [0x01] == HMAC_INFO + [0x01];
    assert HkdfBlocks(suite, masterKey, HMAC_INFO, 0) == [];
    assert HkdfBlocks(suite, masterKey, HMAC_INFO, 1) == t1;
    assert t1[..32] == t1;
  }

  ghost function HeaderMac(suite: Suite, key: Bytes, h: Header): (tag: Bytes)
    ensures |tag| == HMAC_LEN
  {
    suite.hmac(HkdfExpand(suite, key, HMAC_INFO, 32), PreHmacBytes(h))
  }

  method ComputeHmac(suite: Suite, h: Header, key: Bytes) returns (tag: Bytes)
    ensures tag == HeaderMac(suite, key, h)
    ensures tag == suite.hmac(
              suite.hmac(key, HMAC_INFO + [0x01]), MAGIC + [h.algo.Byte()] + h.salt + h.nonce + ToBE(h.chunkCount, 8))
  {
    SubkeyIsFirstBlock(suite, key);
    var subkey := DeriveHmacSubkey(suite, key);
    var mac := new Mac(suite, subkey);
    mac.Update(PreHmacBytes(h));
    assert mac.absorbed == PreHmacBytes(h);
    tag := mac.Finish();
  }

  // ---- writing ----------------------------------------------------------------------

  ghost function HeaderBytes(suite: Suite, key: Bytes, h: Header): (b: Bytes)
    ensures |b| == HEADER_LEN
  {
    PreHmacBytes(h) + HeaderMac(suite, key, h)
  }

  method WriteHeader<P>(suite: Suite, w: BufWriter<P>, h: Header, key: Bytes) returns (r: Result<()>)
    requires w.Valid()
    modifies w, w.fs
    ensures w.Valid()
    ensures r.Ok? ==> w.accepted == old(w.accepted) + HeaderBytes(suite, key, h)
    ensures r.Err? ==> w.fs.faulty && r.error == Io(OtherIo)
  {
    var tag := ComputeHmac(suite, h, key);
    r := w.WriteAll(PreHmacBytes(h));
    if r.Err? { return; }
    r := w.WriteAll(tag);
  }

  // ---- reading ----------------------------------------------------------------------

  /** The header in the first bytes of `b`, or the error that reading it field by field ends with. */
  ghost function ParseHeader(suite: Suite, key: Bytes, b: Bytes): Result<Header>
  {
    if |b| < 4 then Err(InvalidFormat(TooShort))
    else if b[..4] != MAGIC then Err(InvalidFormat(BadMagic))
    else if |b| < 5 then Err(InvalidFormat(TooShort))
    else if Algorithm.FromByte(b[4]).Err? then Err(Algorithm.FromByte(b[4]).error)
    else if |b| < HEADER_LEN then Err(InvalidFormat(TooShort))
    else
      PowerValues();
      FromBEBound(b[33..41]);
      var h := Header(Algorithm.FromByte(b[4]).value, b[5..21], b[21..33], FromBE(b[33..41]));
      if b[41..73] == HeaderMac(suite, key, h) then Ok(h) else Err(HeaderTampered)
  }

  /** Read and authenticate a header. A read that fails counts as a header that is too short. */
  method ReadHeader(suite: Suite, r: Reader, key: Bytes) returns (res: Result<Header>)
    modifies r
    ensures res == ParseHeader(suite, key, old(r.pending)) || (r.faulty && res == Err(InvalidFormat(TooShort)))
    ensures HeaderJudged(suite, key, old(r.pending), res) || (r.faulty && res == Err(InvalidFormat(TooShort)))
    ensures res.Ok? ==> r.pending == old(r.pending)[HEADER_LEN..]
  {
    ghost var b := r.pending;
    ParseHeaderExactly(suite, key, b);
    var magic := r.ReadExact(4);
    if magic.Err? { return Err(InvalidFormat(TooShort)); }
    if magic.value != MAGIC { return Err(InvalidFormat(BadMagic)); }
    var algoByte := r.ReadExact(1);
    if algoByte.Err? { return Err(InvalidFormat(TooShort)); }
    assert algoByte.value[0] == b[4];
    var algo := Algorithm.FromByte(algoByte.value[0]);
    if algo.Err? { return Err(algo.error); }
    var fields := ReadFields(r, b);
    if fields.Err? { return Err(fields.error); }
    var Fields(salt, nonce, count, stored) := fields.value;
    var h := Header(algo.value, salt, nonce, count);
    var ok := VerifyHmac(suite, h, key, stored);
    res := if ok then Ok(h) else Err(HeaderTampered);
  }

  datatype Fields = Fields(salt: Salt, nonce: Nonce, chunkCount: u64, hmac: Bytes)

  /** The four fields after the algorithm byte of a header that began with the bytes `b`. */
  method ReadFields(r: Reader, ghost b: Bytes) returns (res: Result<Fields>)
    requires |b| >= 5 && r.pending == b[4..][1..]
    modifies r
    ensures res.Ok? ==>
              && |b| >= HEADER_LEN
              && res.value.salt == b[5..21] && res.value.nonce == b[21..33]
              && res.value.chunkCount == FromBE(b[33..41]) && res.value.hmac == b[41..73]
              && r.pending == b[HEADER_LEN..]
    ensures res.Err? ==> res.error == InvalidFormat(TooShort) && (|b| < HEADER_LEN || r.faulty)
  {
    var salt := r.ReadExact(SALT_LEN);
    if salt.Err? { return Err(InvalidFormat(TooShort)); }
    var nonce := r.ReadExact(NONCE_LEN);
    if nonce.Err? { return Err(InvalidFormat(TooShort)); }
    var count := r.ReadExact(8);
    if count.Err? { return Err(InvalidFormat(TooShort)); }
    var stored := r.ReadExact(HMAC_LEN);
    if stored.Err? { return Err(InvalidFormat(TooShort)); }
    FieldsInPlace(b, salt.value, nonce.value, count.value, stored.value, r.pending);
    PowerValues();
    FromBEBound(count.value);
    res := Ok(Fields(salt.value, nonce.value, FromBE(count.value), stored.value));
  }

  /** Verify a stored tag under the header's sub-key. */
  method VerifyHmac(suite: Suite, h: Header, key: Bytes, stored: Bytes) returns (ok: bool)
    ensures ok <==> stored == HeaderMac(suite, key, h)
  {
    var subkey := DeriveHmacSubkey(suite, key);
    var mac := new Mac(suite, subkey);
    mac.Update(PreHmacBytes(h));
    assert mac.absorbed == PreHmacBytes(h);
    ok := mac.Verify(stored);
  }

  /** Consecutive reads of 4, 1, 16, 12, 8 and 32 bytes are fixed slices of the whole. */
  lemma FieldsInPlace(b: Bytes, salt: Bytes, nonce: Bytes, count: Bytes, stored: Bytes, rest: Bytes)
    requires |b| >= 5 && |salt| == 16 && |nonce| == 12 && |count| == 8 && |stored| == 32
    requires b[4..][1..] == salt + (nonce + (count + (stored + rest)))
    ensures |b| >= HEADER_LEN
    ensures b[5..21] == salt && b[21..33] == nonce && b[33..41] == count && b[41..73] == stored && b[73..] == rest
  {
  }

  // ---- the two are inverse ----------------------------------------------------------

  lemma FieldsOfPreHmac(h: Header, b: Bytes)
    requires |b| >= HEADER_LEN - HMAC_LEN && b[..HEADER_LEN - HMAC_LEN] == PreHmacBytes(h)
    ensures b[..4] == MAGIC && b[4] == h.algo.Byte() && b[5..21] == h.salt
    ensures b[21..33] == h.nonce && b[33..41] == ToBE(h.chunkCount, 8)
  {
    var p := PreHmacBytes(h);
    assert forall i :: 0 <= i < 41 ==> b[i] == p[i];
  }

  /** What is written under a key is read back under the same key. */
  lemma ReadOfWritten(suite: Suite, key: Bytes, h: Header, rest: Bytes)
    ensures ParseHeader(suite, key, HeaderBytes(suite, key, h) + rest) == Ok(h)
  {
    var b := HeaderBytes(suite, key, h) + rest;
    assert b[..41] == PreHmacBytes(h);
    FieldsOfPreHmac(h, b);
    PowerValues();
    FromToBEFits(h.chunkCount, 8);
    assert b[41..73] == HeaderMac(suite, key, h);
  }

  /** Whatever is accepted is, byte for byte, what writing the returned header would emit. */
  lemma WrittenOfRead(suite: Suite, key: Bytes, b: Bytes)
    requires ParseHeader(suite, key, b).Ok?
    ensures |b| >= HEADER_LEN
    ensures b[..HEADER_LEN] == HeaderBytes(suite, key, ParseHeader(suite, key, b).value)
  {
    var h := ParseHeader(suite, key, b).value;
    FieldsMakePreHmac(h, b);
    assert b[..73] == b[..41] + b[41..73];
  }

  lemma FieldsMakePreHmac(h: Header, b: Bytes)
    requires |b| >= HEADER_LEN && b[..4] == MAGIC && b[4] == h.algo.Byte()
    requires b[5..21] == h.salt && b[21..33] == h.nonce && FromBE(b[33..41]) == h.chunkCount
    ensures b[..41] == PreHmacBytes(h)
  {
    ToFromBE(b[33..41]);
    assert b[..5] == b[..4] + [b[4]];
    assert b[..21] == b[..5] + b[5..21];
    assert b[..33] == b[..21] + b[21..33];
    assert b[..41] == b[..33] + b[33..41];
  }

  // ---- what the bytes of a header decide ----------------------------------------------

  /** The bytes 41 to 73 authenticate all the bytes before them, under HKDF-Expand of the key. */
  ghost predicate TagCovers(suite: Suite, key: Bytes, b: Bytes)
    requires |b| >= 73
  {
    b[41..73] == suite.hmac(suite.hmac(key, HMAC_INFO + [0x01]), b[..41])
  }

  lemma TagIsOfTheBytes(suite: Suite, key: Bytes, h: Header, b: Bytes)
    requires |b| >= HEADER_LEN && b[..4] == MAGIC && b[4] == h.algo.Byte()
    requires b[5..21] == h.salt && b[21..33] == h.nonce && FromBE(b[33..41]) == h.chunkCount
    ensures b[41..73] == HeaderMac(suite, key, h) <==> TagCovers(suite, key, b)
  {
    SubkeyIsFirstBlock(suite, key);
    FieldsMakePreHmac(h, b);
  }

  /** A magic number and one of the two algorithms in front. */
  predicate IsKnown(b: Bytes) {
    |b| >= 5 && b[..4] == MAGIC && b[4] in {0x01, 0x02}
  }

  /** The result each byte string gets; in particular, one with any of its 41 header bytes changed is tampered with. */
  ghost predicate HeaderJudged(suite: Suite, key: Bytes, b: Bytes, r: Result<Header>) {
    && (r == Err(InvalidFormat(BadMagic)) <==> |b| >= 4 && b[..4] != MAGIC)
    && (forall x :: r == Err(InvalidFormat(UnknownAlgorithm(x))) <==>
          |b| >= 5 && b[..4] == MAGIC && x == b[4] && x !in {0x01, 0x02})
    && (r == Err(InvalidFormat(TooShort)) <==> |b| < 4 || b == MAGIC || (IsKnown(b) && |b| < 73))
    && (r == Err(HeaderTampered) <==> IsKnown(b) && |b| >= 73 && !TagCovers(suite, key, b))
    && (r.Ok? <==> IsKnown(b) && |b| >= 73 && TagCovers(suite, key, b))
    && (r.Ok? ==>
          && r.value.algo == (if b[4] == 0x01 then Aes256Gcm else ChaCha20Poly1305)
          && r.value.salt == b[5..21] && r.value.nonce == b[21..33]
          && r.value.chunkCount == FromBE(b[33..41]))
  }

  lemma ParseHeaderExactly(suite: Suite, key: Bytes, b: Bytes)
    ensures HeaderJudged(suite, key, b, ParseHeader(suite, key, b))
    ensures Spells(MAGIC, "CRY\U{2}") && Spells(HMAC_INFO, "cry-header-hmac-v2")
  {
    if IsKnown(b) && |b| >= 73 {
      WholeHeader(suite, key, b);
    } else {
      PartialHeader(suite, key, b);
    }
  }

  lemma PartialHeader(suite: Suite, key: Bytes, b: Bytes)
    requires !(IsKnown(b) && |b| >= 73)
    ensures HeaderJudged(suite, key, b, ParseHeader(suite, key, b))
  {
    if |b| == 4 { assert b[..4] == b; }
  }

  lemma WholeHeader(suite: Suite, key: Bytes, b: Bytes)
    requires IsKnown(b) && |b| >= 73
    ensures FromBE(b[33..41]) < TWO64
    ensures ParseHeader(suite, key, b) ==
      if TagCovers(suite, key, b)
      then Ok(Header(if b[4] == 0x01 then Aes256Gcm else ChaCha20Poly1305, b[5..21], b[21..33], FromBE(b[33..41])))
      else Err(HeaderTampered)
  {
    PowerValues();
    FromBEBound(b[33..41]);
    var h := Header(Algorithm.FromByte(b[4]).value, b[5..21], b[21..33], FromBE(b[33..41]));
    TagIsOfTheBytes(suite, key, h, b);
  }

  /** Where everything stands in a written header. */
  lemma HeaderLayout(suite: Suite, key: Bytes, h: Header, file: Bytes)
    requires HeaderBytes(suite, key, h) <= file
    ensures file[..4] == MAGIC
    ensures file[4] == if h.algo == Aes256Gcm then 0x01 else 0x02
    ensures file[5..21] == h.salt && file[21..33] == h.nonce && FromBE(file[33..41]) == h.chunkCount
    ensures TagCovers(suite, key, file)
  {
    var rest := file[HEADER_LEN..];
    assert file == HeaderBytes(suite, key, h) + rest;
    ReadOfWritten(suite, key, h, rest);
    ParseHeaderExactly(suite, key, file);
  }

  /** Different headers have different authenticated bytes. */
  lemma PreHmacInjective(h1: Header, h2: Header)
    requires PreHmacBytes(h1) == PreHmacBytes(h2)
    ensures h1 == h2
  {
    var b := PreHmacBytes(h1);
    assert b[..41] == b;
    FieldsOfPreHmac(h1, b);
    FieldsOfPreHmac(h2, b);
    PowerValues();
    ToBEInjective(h1.chunkCount, h2.chunkCount, 8);
  }

  // ---- per-file and per-chunk additional data ------------------------------------------

  function HeaderAad(suite: Suite, h: Header): Bytes {
    suite.sha256(PreHmacBytes(h))
  }

  /** Different headers with the same additional data are a collision of the hash, on the headers' own bytes. */
  lemma HeaderAadBinds(suite: Suite, h1: Header, h2: Header)
    requires h1 != h2 && HeaderAad(suite, h1) == HeaderAad(suite, h2)
    ensures PreHmacBytes(h1) != PreHmacBytes(h2)
    ensures suite.sha256(PreHmacBytes(h1)) == suite.sha256(PreHmacBytes(h2))
  {
    if PreHmacBytes(h1) == PreHmacBytes(h2) { PreHmacInjective(h1, h2); }
  }

  /** The hash is fed field by field, apart from the header's own serialiser; both see the same bytes. */
  method ComputeHeaderAad(suite: Suite, h: Header) returns (aad: Bytes)
    ensures aad == HeaderAad(suite, h)
    ensures aad == suite.sha256(MAGIC + [h.algo.Byte()] + h.salt + h.nonce + ToBE(h.chunkCount, 8))
  {
    var hasher := new Hasher(suite);
    hasher.Update(MAGIC);
    hasher.Update([h.algo.Byte()]);
    hasher.Update(h.salt);
    hasher.Update(h.nonce);
    hasher.Update(ToBE(h.chunkCount, 8));
    assert hasher.absorbed == PreHmacBytes(h);
    aad := hasher.Finish();
  }

  function ChunkAad(headerAad: Bytes, index: nat): Bytes {
    headerAad + ToBE(index, 8)
  }

  /** A chunk's additional data pins both the file and the position. */
  lemma ChunkAadInjective(a1: Bytes, i: u64, a2: Bytes, j: u64)
    requires |a1| == |a2|
    requires ChunkAad(a1, i) == ChunkAad(a2, j)
    ensures a1 == a2 && i == j
  {
    assert ChunkAad(a1, i)[..|a1|] == a1 && ChunkAad(a2, j)[..|a2|] == a2;
    assert ChunkAad(a1, i)[|a1|..] == ToBE(i, 8) && ChunkAad(a2, j)[|a2|..] == ToBE(j, 8);
    PowerValues();
    ToBEInjective(i, j, 8);
  }
}
