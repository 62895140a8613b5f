/**
 The cryptographic libraries the program calls, kept abstract: a suite is a record of
 functions, and `Lawful` lists what the model relies on about them. Nothing here says a
 value cannot be forged; theorems that need that state it about the file at hand.
 */
module Crypto {
  import opened ByteStrings
  import opened Outcomes

  const TAG_LEN: nat := 16
  const KEY_LEN: nat := 32
  const DIGEST_LEN: nat := 32

  /** An AEAD: arguments are key, nonce, additional data, and plaintext or ciphertext. */
  datatype Aead = Aead(
    seal: (Bytes, Bytes, Bytes, Bytes) -> Option<Bytes>,
    open: (Bytes, Bytes, Bytes, Bytes) -> Option<Bytes>)
  {
    /** Sealing works below 2^32 bytes and appends one tag; opening accepts exactly what sealing gives. */
    ghost predicate Lawful() {
      && (forall k, n, d, m :: |m| < TWO32 ==> seal(k, n, d, m).Some?)
      && (forall k, n, d, m :: seal(k, n, d, m).Some? ==> |seal(k, n, d, m).value| == |m| + TAG_LEN)
      && (forall k, n, d, m, c {:trigger seal(k, n, d, m), open(k, n, d, c)} ::
            seal(k, n, d, m) == Some(c) <==> open(k, n, d, c) == Some(m))
    }
  }

  datatype Primitives = Primitives(
    aesGcm: Aead,
    chaCha: Aead,
    sha256: Bytes -> Bytes,
    hmac: (Bytes, Bytes) -> Bytes,
    kdf: (Bytes, Bytes) -> Option<Bytes>)
  {
    ghost predicate Lawful() {
      && aesGcm.Lawful()
      && chaCha.Lawful()
      && (forall m :: |sha256(m)| == DIGEST_LEN)
      && (forall k, m :: |hmac(k, m)| == DIGEST_LEN)
      && (forall p, s :: kdf(p, s).Some? ==> |kdf(p, s).value| == KEY_LEN)
    }
  }

  /** The primitives, with their laws: what every component below is given. */
  type Suite = p: Primitives | p.Lawful() witness ToyPrimitives()

  /** A toy with a constant tag, for which all the laws hold: they are consistent. */
  function ToyPrimitives(): (p: Primitives)
    ensures p.Lawful()
  {
    ToyAeadIsLawful();
    Primitives(ToyAead(), ToyAead(), m => Zeros(DIGEST_LEN), (k, m) => Zeros(DIGEST_LEN), (w, s) => Some(Zeros(KEY_LEN)))
  }

  function Zeros(n: nat): (b: Bytes)
    ensures |b| == n
  {
    seq(n, _ => 0)
  }

  function ToyAead(): Aead {
    Aead((k, n, d, m) => Some(m + Zeros(TAG_LEN)), (k, n, d, c) => ToyOpen(c))
  }

  function ToyOpen(c: Bytes): Option<Bytes> {
    if |c| >= TAG_LEN && c[|c| - TAG_LEN..] == Zeros(TAG_LEN) then Some(c[..|c| - TAG_LEN]) else None
  }

  lemma ToyAeadIsLawful()
    ensures ToyAead().Lawful()
  {
    forall m
      ensures ToyOpen(m + Zeros(TAG_LEN)) == Some(m)
    {
      var c := m + Zeros(TAG_LEN);
      assert c[..|c| - TAG_LEN] == m && c[|c| - TAG_LEN..] == Zeros(TAG_LEN);
    }
    forall c | ToyOpen(c).Some?
      ensures ToyOpen(c).value + Zeros(TAG_LEN) == c
    {
      assert c == c[..|c| - TAG_LEN] + c[|c| - TAG_LEN..];
    }
  }

  /** An incremental SHA-256: the digest is of everything fed in, in order. */
  class Hasher {
    const suite: Suite
    var absorbed: Bytes

    constructor (suite: Suite)
      ensures this.suite == suite && absorbed == []
    {
      this.suite := suite;
      absorbed := [];
    }

    method Update(data: Bytes)
      modifies this
      ensures absorbed == old(absorbed) + data
    {
      absorbed := absorbed + data;
    }

    method Finish() returns (digest: Bytes)
      ensures digest == suite.sha256(absorbed)
    {
      digest := suite.sha256(absorbed);
    }
  }

  /** An incremental HMAC-SHA256. */
  class Mac {
    const suite: Suite
    const key: Bytes
    var absorbed: Bytes

    constructor (suite: Suite, key: Bytes)
      ensures this.suite == suite && this.key == key && absorbed == []
    {
      this.suite := suite;
      this.key := key;
      absorbed := [];
    }

    method Update(data: Bytes)
      modifies this
      ensures absorbed == old(absorbed) + data
    {
      absorbed := absorbed + data;
    }

    method Finish() returns (tag: Bytes)
      ensures tag == suite.hmac(key, absorbed)
    {
      tag := suite.hmac(key, absorbed);
    }

    method Verify(tag: Bytes) returns (ok: bool)
      ensures ok <==> tag == suite.hmac(key, absorbed)
    {
      ok := tag == suite.hmac(key, absorbed);
    }
  }
}
