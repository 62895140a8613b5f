/** What the container format guarantees, on every input. */
module ContainerTheorems {
  import opened ByteStrings
  import opened Outcomes
  import opened Crypto
  import opened ChunkNonces
  import opened Streams
  import opened Headers
  import opened Container

  // ---- cutting into chunks ------------------------------------------------------------

  lemma ChunksConcat(plain: Bytes, chunk: ChunkSize)
    ensures Concat(Chunks(plain, chunk)) == plain
    ensures forall k :: 0 <= k < |Chunks(plain, chunk)| ==> 1 <= |Chunks(plain, chunk)[k]| <= chunk
  {
    ChunksInOrder(plain, chunk);
    ChunkLengths(plain, chunk);
  }

  lemma {:induction false} ChunksInOrder(plain: Bytes, chunk: ChunkSize)
    ensures Concat(Chunks(plain, chunk)) == plain
    decreases |plain|
  {
    if plain != [] {
      var n := Min(chunk, |plain|);
      ChunksInOrder(plain[n..], chunk);
      assert Chunks(plain, chunk)[1..] == Chunks(plain[n..], chunk);
      assert plain == plain[..n] + plain[n..];
    }
  }

  /** No chunk is empty, and all but the last are full. */
  lemma {:induction false} ChunkLengths(plain: Bytes, chunk: ChunkSize)
    ensures forall k :: 0 <= k < |Chunks(plain, chunk)| ==> 1 <= |Chunks(plain, chunk)[k]| <= chunk
    ensures forall k :: 0 <= k < |Chunks(plain, chunk)| - 1 ==> |Chunks(plain, chunk)[k]| == chunk
    decreases |plain|
  {
    if plain != [] {
      ChunkLengths(plain[Min(chunk, |plain|)..], chunk);
    }
  }

  /** The count the header commits to before reading is the number of chunks, for every length. */
  lemma {:induction false} ChunkCount(plain: Bytes, chunk: ChunkSize)
    ensures |Chunks(plain, chunk)| == DivCeil(|plain|, chunk)
    decreases |plain|
  {
    var l := |plain|;
    if l == 0 {
      ModUnique(0, chunk, 0, 0);
    } else if l < chunk {
      ModUnique(l, chunk, 0, l);
      assert Chunks(plain[l..], chunk) == [];
    } else {
      ChunkCount(plain[chunk..], chunk);
      DivCeilStep(l, chunk);
    }
  }

  lemma DivCeilStep(n: nat, d: nat)
    requires 0 < d <= n
    ensures DivCeil(n, d) == 1 + DivCeil(n - d, d)
  {
    ModUnique(n, d, (n - d) / d + 1, (n - d) % d);
  }

  /** Rounding up: the least number of pieces of size d that hold n. */
  lemma DivCeilExactly(n: nat, d: nat)
    requires d > 0
    ensures d * DivCeil(n, d) >= n && (n > 0 ==> d * (DivCeil(n, d) - 1) < n)
    ensures n == 0 ==> DivCeil(n, d) == 0
  {
    assert n == d * (n / d) + n % d;
    assert d * (n / d + 1) == d * (n / d) + d;
    if n > 0 && n % d == 0 { assert d * (n / d - 1) == d * (n / d) - d; }
  }

  lemma DivCeilBound(n: nat, d: nat)
    requires d > 0
    ensures DivCeil(n, d) <= n
  {
    ProductAtLeast(d, n / d);
  }

  lemma ProductAtLeast(d: nat, q: nat)
    requires d > 0
    ensures d * q >= q
  {
  }

  // ---- frames -------------------------------------------------------------------------

  /** A frame at the front of a body is read back as its own length and payload. */
  lemma FrameAtFront(ct: Bytes, rest: Bytes)
    requires |ct| < TWO32
    ensures |Frame(ct)| == 4 + |ct|
    ensures var b := Frame(ct) + rest;
            FromBE(b[..4]) == |ct| && b[4..4 + |ct|] == ct && b[4 + |ct|..] == rest
  {
    PowerValues();
    FromToBEFits(|ct|, 4);
    var b := Frame(ct) + rest;
    assert b[..4] == ToBE(|ct|, 4);
  }

  /** One step of reading: a frame within the cap is opened under the current index. */
  lemma FrameIsRead(o: Opener, ct: Bytes, rest: Bytes, i: nat)
    requires |ct| <= o.cap
    ensures DecryptBody(o, Frame(ct) + rest, i) ==
      match o.open(i, ct)
      case None => Err(DecryptionFailed)
      case Some(m) => Prepend(m, DecryptBody(o, rest, i + 1))
  {
    FrameAtFront(ct, rest);
  }

  lemma SealedLength(s: Session, i: nat, m: Bytes)
    requires |m| <= s.chunk
    ensures s.SealAt(i, m).Some?
    ensures |s.SealAt(i, m).value| == |m| + TAG_LEN <= WireCap(s.chunk) < TWO32
    ensures s.OpenAt(i, s.SealAt(i, m).value) == Some(m)
  {
  }

  ghost predicate FitChunks(s: Session, chunks: seq<Bytes>) {
    forall k :: 0 <= k < |chunks| ==> |chunks[k]| <= s.chunk
  }

  // ---- what an accepted body is ----------------------------------------------------------

  /** `body` is these payloads, framed, followed by fewer than four bytes. */
  ghost predicate IsSplit(o: Opener, body: Bytes, payloads: seq<Bytes>, tail: Bytes) {
    && body == Wire(payloads) + tail
    && |tail| < 4
    && WithinCap(o, payloads)
  }

  ghost predicate WithinCap(o: Opener, payloads: seq<Bytes>) {
    forall k :: 0 <= k < |payloads| ==> |payloads[k]| <= o.cap
  }

  /** Payload k opens, at index i + k, to parts[k]. */
  ghost predicate AllOpen(o: Opener, payloads: seq<Bytes>, i: nat, parts: seq<Bytes>): (all: bool)
    ensures all ==> |payloads| == |parts|
  {
    if payloads == [] || parts == [] then payloads == [] && parts == []
    else o.open(i, payloads[0]) == Some(parts[0]) && AllOpen(o, payloads[1..], i + 1, parts[1..])
  }

  lemma {:induction false} OpensInPlace(o: Opener, payloads: seq<Bytes>, i: nat, parts: seq<Bytes>, k: nat)
    requires AllOpen(o, payloads, i, parts) && k < |payloads|
    ensures |parts| == |payloads| && o.open(i + k, payloads[k]) == Some(parts[k])
  {
    if k > 0 {
      OpensInPlace(o, payloads[1..], i + 1, parts[1..], k - 1);
    } else if |payloads| > 1 {
      OpensInPlace(o, payloads[1..], i + 1, parts[1..], 0);
    }
  }

  /** Reading well-opening frames followed by anything: their parts, then the rest at the next index. */
  lemma {:induction false} FramesThenAnything(
      o: Opener, payloads: seq<Bytes>, i: nat, parts: seq<Bytes>, rest: Bytes)
    requires WithinCap(o, payloads) && AllOpen(o, payloads, i, parts)
    ensures DecryptBody(o, Wire(payloads) + rest, i)
         == Prepend(Concat(parts), DecryptBody(o, rest, i + |payloads|))
  {
    if payloads == [] {
      NoFrames(o, i, rest);
    } else {
      FramesThenAnything(o, payloads[1..], i + 1, parts[1..], rest);
      OneMoreFrame(o, payloads, i, parts, rest);
    }
  }

  lemma NoFrames(o: Opener, i: nat, rest: Bytes)
    ensures DecryptBody(o, [] + rest, i) == Prepend([], DecryptBody(o, rest, i))
  {
    assert [] + rest == rest;
    PrependNothing(DecryptBody(o, rest, i));
  }

  lemma OneMoreFrame(
      o: Opener, payloads: seq<Bytes>, i: nat, parts: seq<Bytes>, rest: Bytes)
    requires |payloads| == |parts| != 0
    requires |payloads[0]| <= o.cap && o.open(i, payloads[0]) == Some(parts[0])
    requires DecryptBody(o, Wire(payloads[1..]) + rest, i + 1)
          == Prepend(Concat(parts[1..]), DecryptBody(o, rest, i + |payloads|))
    ensures DecryptBody(o, Wire(payloads) + rest, i)
         == Prepend(Concat(parts), DecryptBody(o, rest, i + |payloads|))
  {
    var later := Wire(payloads[1..]) + rest;
    assert Wire(payloads) + rest == Frame(payloads[0]) + later;
    FrameIsRead(o, payloads[0], later, i);
    PrependTwice(parts[0], Concat(parts[1..]), DecryptBody(o, rest, i + |payloads|));
  }

  lemma PrependNothing(r: Result<Opened>)
    ensures Prepend([], r) == r
  {
    if r.Ok? {
      assert [] + r.value.plain == r.value.plain;
    }
  }

  lemma PrependToNothing(done: Bytes, count: nat)
    ensures Prepend(done, Ok(Opened(count, []))) == Ok(Opened(count, done))
  {
    assert done + [] == done;
  }

  lemma ShortTailIgnored(o: Opener, tail: Bytes, i: nat)
    requires |tail| < 4
    ensures DecryptBody(o, tail, i) == Ok(Opened(i, []))
  {
  }

  lemma PrependTwice(a: Bytes, b: Bytes, r: Result<Opened>)
    ensures Prepend(a, Prepend(b, r)) == Prepend(a + b, r)
  {
    if r.Ok? {
      assert a + (b + r.value.plain) == a + b + r.value.plain;
    }
  }

  /** What the reader makes of t bytes of the frame after the first `count`. */
  function CutResult(count: nat, t: nat, plain: Bytes): Result<Opened> {
    if t < 4 then Ok(Opened(count, plain)) else Err(Io(UnexpectedEof))
  }

  /**
     Cut well-opening frames anywhere: the cut leaves m whole frames and t bytes of the next one.
     Below four bytes the reader stops after those m frames; from four on it runs out of input.
   */
  lemma CutFrames(o: Opener, payloads: seq<Bytes>, i: nat, parts: seq<Bytes>, cut: nat)
    returns (m: nat, t: nat)
    requires WithinCap(o, payloads) && AllOpen(o, payloads, i, parts)
    requires cut < |Wire(payloads)|
    ensures m < |payloads| && t < 4 + |payloads[m]| && cut == |Wire(payloads[..m])| + t
    ensures DecryptBody(o, Wire(payloads)[..cut], i) == CutResult(i + m, t, Concat(parts[..m]))
  {
    m, t := FindCut(payloads, cut);
    OpeningFront(o, payloads, i, parts, m);
    FramesThenPart(o, payloads[..m], i, parts[..m], payloads[m], t);
  }

  /** Whole frames and the first t bytes of one more. */
  lemma {:induction false} FramesThenPart(
      o: Opener, front: seq<Bytes>, i: nat, parts: seq<Bytes>, ct: Bytes, t: nat)
    requires WithinCap(o, front) && AllOpen(o, front, i, parts)
    requires |ct| <= o.cap && t < 4 + |ct|
    ensures DecryptBody(o, Wire(front) + Frame(ct)[..t], i) == CutResult(i + |front|, t, Concat(parts))
  {
    FramesThenAnything(o, front, i, parts, Frame(ct)[..t]);
    CutInsideFrame(o, ct, i + |front|, t);
    PrependToCut(Concat(parts), i + |front|, t);
  }

  lemma PrependToCut(done: Bytes, count: nat, t: nat)
    ensures Prepend(done, CutResult(count, t, [])) == CutResult(count, t, done)
  {
    PrependToNothing(done, count);
  }

  lemma {:induction false} FindCut(payloads: seq<Bytes>, cut: nat) returns (m: nat, t: nat)
    requires cut < |Wire(payloads)|
    ensures m < |payloads| && t < 4 + |payloads[m]| && cut == |Wire(payloads[..m])| + t
    ensures Wire(payloads)[..cut] == Wire(payloads[..m]) + Frame(payloads[m])[..t]
  {
    var front, later := Frame(payloads[0]), payloads[1..];
    if cut < |front| {
      m, t := 0, cut;
      assert Wire(payloads)[..cut] == front[..t];
    } else {
      m, t := FindCut(later, cut - |front|);
      assert Wire(payloads)[..cut] == front + Wire(later)[..cut - |front|];
      Regroup(front, Wire(later[..m]), Frame(later[m])[..t]);
      assert payloads[..m + 1] == [payloads[0]] + later[..m];
      m := m + 1;
    }
  }

  lemma {:induction false} OpeningFront(o: Opener, payloads: seq<Bytes>, i: nat, parts: seq<Bytes>, m: nat)
    requires AllOpen(o, payloads, i, parts) && m <= |payloads|
    ensures AllOpen(o, payloads[..m], i, parts[..m])
  {
    if m > 0 {
      OpeningFront(o, payloads[1..], i + 1, parts[1..], m - 1);
      assert payloads[..m][1..] == payloads[1..][..m - 1] && parts[..m][1..] == parts[1..][..m - 1];
    }
  }

  lemma CutInsideFrame(o: Opener, ct: Bytes, i: nat, t: nat)
    requires |ct| <= o.cap && t < 4 + |ct|
    ensures DecryptBody(o, Frame(ct)[..t], i) == CutResult(i, t, [])
  {
    if 4 <= t {
      FrameAtFront(ct, []);
      assert Frame(ct)[..t][..4] == (Frame(ct) + [])[..4];
    }
  }

  /** Frames of one size take up as many times that size. */
  lemma {:induction false} WireLength(payloads: seq<Bytes>, m: nat, size: nat)
    requires m <= |payloads| && forall k :: 0 <= k < m ==> 4 + |payloads[k]| == size
    ensures |Wire(payloads[..m])| == size * m
  {
    if m > 0 {
      var later := payloads[1..];
      WireLength(later, m - 1, size);
      var front := payloads[..m];
      assert front[0] == payloads[0] && front[1..] == later[..m - 1];
      calc {
        |Wire(front)|;
        4 + |front[0]| + |Wire(front[1..])|;
        size + size * (m - 1);
        size * m;
      }
    }
  }

  lemma {:induction false} SplitIsAccepted(o: Opener, body: Bytes, i: nat, payloads: seq<Bytes>, tail: Bytes, parts: seq<Bytes>)
    requires IsSplit(o, body, payloads, tail) && AllOpen(o, payloads, i, parts)
    ensures DecryptBody(o, body, i) == Ok(Opened(i + |payloads|, Concat(parts)))
  {
    FramesThenAnything(o, payloads, i, parts, tail);
    ShortTailIgnored(o, tail, i + |payloads|);
    PrependToNothing(Concat(parts), i + |payloads|);
  }

  /** The count never goes down, and four more bytes are never passed over in silence. */
  lemma {:induction false} CountAdvances(o: Opener, body: Bytes, i: nat)
    requires DecryptBody(o, body, i).Ok?
    ensures DecryptBody(o, body, i).value.count >= i
    ensures |body| >= 4 ==> DecryptBody(o, body, i).value.count > i
    ensures 4 * (DecryptBody(o, body, i).value.count - i) <= |body|
    decreases |body|
  {
    if |body| >= 4 {
      CountAdvances(o, body[4 + FromBE(body[..4])..], i + 1);
    }
  }

  /**
     One frame of a sealed plaintext is accepted up to 48 bytes above the chunk size, which no
     encryptor exceeds, and suspicious from there on.
   */
  lemma LongFrame(s: Session, plain: Bytes)
    requires |plain| + TAG_LEN < TWO32
    ensures s.SealAt(0, plain).Some?
    ensures DecryptedBody(s.Opening(), 1, Frame(s.SealAt(0, plain).value))
         == if |plain| <= s.chunk + 48 then Ok(plain) else Err(SuspiciousChunkLen(0, |plain| + TAG_LEN))
  {
    var ct := s.SealAt(0, plain).value;
    var o := s.Opening();
    FrameAtFront(ct, []);
    assert Frame(ct) + [] == Frame(ct);
    if |ct| <= o.cap {
      FrameIsRead(o, ct, [], 0);
      ShortTailIgnored(o, [], 1);
      PrependToNothing(plain, 1);
    }
  }

  // ---- what an encryptor writes ---------------------------------------------------------

  /**
     Every list of chunks can be sealed. The body is its payloads, framed: payload k is chunk k
     sealed at its own index, within the reader's cap, opens again, and costs 20 bytes more than
     the chunk, so that no length field is truncated.
   */
  lemma {:induction false} HonestPayloads(s: Session, chunks: seq<Bytes>, i: nat) returns (payloads: seq<Bytes>)
    requires FitChunks(s, chunks)
    ensures EncryptBody(s.Sealing(), chunks, i) == Some(Wire(payloads))
    ensures WithinCap(s.Opening(), payloads) && AllOpen(s.Opening(), payloads, i, chunks)
    ensures |payloads| == |chunks| && forall k :: 0 <= k < |chunks| ==> |payloads[k]| == |chunks[k]| + TAG_LEN
    ensures |Wire(payloads)| == |Concat(chunks)| + 20 * |chunks|
  {
    if chunks == [] {
      payloads := [];
    } else {
      SealedLength(s, i, chunks[0]);
      var ct := s.SealAt(i, chunks[0]).value;
      var later := HonestPayloads(s, chunks[1..], i + 1);
      payloads := [ct] + later;
      assert payloads[1..] == later;
    }
  }

  /** A length and a payload read off the front are a frame. */
  lemma UnreadFrame(body: Bytes, ct: Bytes, payloads: seq<Bytes>, tail: Bytes)
    requires |body| >= 4 + |ct| && FromBE(body[..4]) == |ct| && body[4..4 + |ct|] == ct
    requires body[4 + |ct|..] == Wire(payloads) + tail
    ensures body == Wire([ct] + payloads) + tail
  {
    ToFromBE(body[..4]);
    assert body == Frame(ct) + body[4 + |ct|..];
    assert ([ct] + payloads)[1..] == payloads;
    assert Frame(ct) + Wire(payloads) + tail == Frame(ct) + (Wire(payloads) + tail);
  }

  lemma {:induction false} AcceptedIsSplit(o: Opener, body: Bytes, i: nat)
    returns (payloads: seq<Bytes>, tail: Bytes, parts: seq<Bytes>)
    requires DecryptBody(o, body, i).Ok?
    ensures IsSplit(o, body, payloads, tail) && AllOpen(o, payloads, i, parts)
    ensures DecryptBody(o, body, i).value == Opened(i + |payloads|, Concat(parts))
    decreases |body|
  {
    if |body| < 4 {
      payloads, tail, parts := [], body, [];
      assert [] + body == body;
    } else {
      OpenedFrame(o, body, i);
      var len := FromBE(body[..4]);
      var ct := body[4..4 + len];
      var ps, t, ms := AcceptedIsSplit(o, body[4 + len..], i + 1);
      payloads, tail, parts := [ct] + ps, t, [o.open(i, ct).value] + ms;
      SplitGrows(o, body, i, ps, t, ms);
    }
  }

  lemma OpenedFrame(o: Opener, body: Bytes, i: nat)
    requires |body| >= 4 && DecryptBody(o, body, i).Ok?
    ensures var len := FromBE(body[..4]);
            && len <= o.cap && len <= |body| - 4 && o.open(i, body[4..4 + len]).Some?
            && DecryptBody(o, body[4 + len..], i + 1).Ok?
            && DecryptBody(o, body, i)
               == Prepend(o.open(i, body[4..4 + len]).value, DecryptBody(o, body[4 + len..], i + 1))
  {
  }

  lemma SplitGrows(
      o: Opener, body: Bytes, i: nat, ps: seq<Bytes>, tail: Bytes, ms: seq<Bytes>)
    requires |body| >= 4 && |body| - 4 >= FromBE(body[..4]) && FromBE(body[..4]) <= o.cap
    requires IsSplit(o, body[4 + FromBE(body[..4])..], ps, tail) && AllOpen(o, ps, i + 1, ms)
    requires o.open(i, body[4..4 + FromBE(body[..4])]).Some?
    ensures var ct := body[4..4 + FromBE(body[..4])];
            && IsSplit(o, body, [ct] + ps, tail)
            && AllOpen(o, [ct] + ps, i, [o.open(i, ct).value] + ms)
            && Concat([o.open(i, ct).value] + ms) == o.open(i, ct).value + Concat(ms)
  {
    var ct := body[4..4 + FromBE(body[..4])];
    var m := o.open(i, ct).value;
    UnreadFrame(body, ct, ps, tail);
    assert ([ct] + ps)[1..] == ps && ([m] + ms)[1..] == ms;
  }

  /**
     Exactly the bodies made of `committed` frames, each within the cap and opening under its
     own index, plus fewer than four bytes, are accepted; the output is what the frames open to.
   */
  lemma AcceptedExactly(o: Opener, committed: nat, body: Bytes, plain: Bytes)
    ensures DecryptedBody(o, committed, body) == Ok(plain)
       <==> exists payloads, tail, parts ::
              && IsSplit(o, body, payloads, tail)
              && AllOpen(o, payloads, 0, parts)
              && |payloads| == committed
              && plain == Concat(parts)
  {
    if DecryptedBody(o, committed, body) == Ok(plain) {
      var payloads, tail, parts := AcceptedIsSplit(o, body, 0);
    }
    if payloads, tail, parts :|
        IsSplit(o, body, payloads, tail) && AllOpen(o, payloads, 0, parts) &&
        |payloads| == committed && plain == Concat(parts)
    {
      SplitIsAccepted(o, body, 0, payloads, tail, parts);
    }
  }

  /** The error that reading frame i at the front of `rest` ends with: first its length, then whether it is all there. */
  ghost predicate FailsAt(o: Opener, rest: Bytes, i: nat, e: CryError) {
    && |rest| >= 4
    && var len := FromBE(rest[..4]);
       if len > o.cap then e == SuspiciousChunkLen(i, len)
       else if len > |rest| - 4 then e == Io(UnexpectedEof)
       else o.open(i, rest[4..4 + len]).None? && e == DecryptionFailed
  }

  /** `body` is these payloads, framed, each of which opens, followed by a frame that fails with e. */
  ghost predicate IsRejection(
      o: Opener, body: Bytes, i: nat, e: CryError, payloads: seq<Bytes>, parts: seq<Bytes>, rest: Bytes)
  {
    && body == Wire(payloads) + rest
    && WithinCap(o, payloads) && AllOpen(o, payloads, i, parts)
    && FailsAt(o, rest, i + |payloads|, e)
  }

  /** Exactly the bodies with opening frames followed by one that fails are rejected, with that frame's error. */
  lemma RejectedExactly(o: Opener, body: Bytes, i: nat, e: CryError)
    ensures DecryptBody(o, body, i) == Err(e)
       <==> exists payloads, parts, rest :: IsRejection(o, body, i, e, payloads, parts, rest)
  {
    if DecryptBody(o, body, i) == Err(e) {
      var payloads, parts, rest := RejectedSplit(o, body, i, e);
    }
    if payloads, parts, rest :| IsRejection(o, body, i, e, payloads, parts, rest) {
      RejectionIsError(o, body, i, e, payloads, parts, rest);
    }
  }

  lemma RejectionIsError(
      o: Opener, body: Bytes, i: nat, e: CryError, payloads: seq<Bytes>, parts: seq<Bytes>, rest: Bytes)
    requires IsRejection(o, body, i, e, payloads, parts, rest)
    ensures DecryptBody(o, body, i) == Err(e)
  {
    FramesThenAnything(o, payloads, i, parts, rest);
    FailingFrame(o, rest, i + |payloads|, e);
  }

  lemma FailingFrame(o: Opener, rest: Bytes, i: nat, e: CryError)
    requires FailsAt(o, rest, i, e)
    ensures DecryptBody(o, rest, i) == Err(e)
  {
  }

  lemma {:induction false} RejectedSplit(o: Opener, body: Bytes, i: nat, e: CryError)
    returns (payloads: seq<Bytes>, parts: seq<Bytes>, rest: Bytes)
    requires DecryptBody(o, body, i) == Err(e)
    ensures IsRejection(o, body, i, e, payloads, parts, rest)
    decreases |body|
  {
    if FailsAt(o, body, i, e) {
      payloads, parts, rest := [], [], body;
      assert [] + body == body;
    } else {
      var len := FromBE(body[..4]);
      var ct := body[4..4 + len];
      var ps, ms, r := RejectedSplit(o, body[4 + len..], i + 1, e);
      payloads, parts, rest := [ct] + ps, [o.open(i, ct).value] + ms, r;
      RejectionGrows(o, body, i, e, ct, ps, ms, r);
    }
  }

  lemma RejectionGrows(
      o: Opener, body: Bytes, i: nat, e: CryError, ct: Bytes, ps: seq<Bytes>, ms: seq<Bytes>, rest: Bytes)
    requires |body| >= 4 + |ct| && FromBE(body[..4]) == |ct| <= o.cap && body[4..4 + |ct|] == ct
    requires o.open(i, ct).Some?
    requires IsRejection(o, body[4 + |ct|..], i + 1, e, ps, ms, rest)
    ensures IsRejection(o, body, i, e, [ct] + ps, [o.open(i, ct).value] + ms, rest)
  {
    UnreadFrame(body, ct, ps, rest);
    AllOpenGrows(o, ct, ps, i, o.open(i, ct).value, ms);
  }

  lemma AllOpenGrows(o: Opener, ct: Bytes, ps: seq<Bytes>, i: nat, m: Bytes, ms: seq<Bytes>)
    requires |ct| <= o.cap && o.open(i, ct) == Some(m)
    requires WithinCap(o, ps) && AllOpen(o, ps, i + 1, ms)
    ensures WithinCap(o, [ct] + ps) && AllOpen(o, [ct] + ps, i, [m] + ms)
  {
    assert ([ct] + ps)[1..] == ps && ([m] + ms)[1..] == ms;
  }

  /** The first frame of a split can be read off the body. */
  lemma FirstFrame(o: Opener, body: Bytes, payloads: seq<Bytes>, tail: Bytes)
    requires IsSplit(o, body, payloads, tail)
    ensures payloads == [] <==> |body| < 4
    ensures payloads == [] ==> tail == body
    ensures payloads != [] ==>
              var len := FromBE(body[..4]);
              && 4 + len <= |body|
              && payloads[0] == body[4..4 + len]
              && IsSplit(o, body[4 + len..], payloads[1..], tail)
  {
    if payloads == [] {
      assert body == tail;
    } else {
      var rest := Wire(payloads[1..]) + tail;
      assert body == Frame(payloads[0]) + rest;
      FrameAtFront(payloads[0], rest);
    }
  }

  /** There is only one way to cut a body into frames and a short tail. */
  lemma {:induction false} SplitUnique(
      o: Opener, body: Bytes, ps1: seq<Bytes>, tail1: Bytes, ps2: seq<Bytes>, tail2: Bytes)
    requires IsSplit(o, body, ps1, tail1) && IsSplit(o, body, ps2, tail2)
    ensures ps1 == ps2 && tail1 == tail2
    decreases |ps1|
  {
    FirstFrame(o, body, ps1, tail1);
    FirstFrame(o, body, ps2, tail2);
    if ps1 != [] {
      SplitUnique(o, body[4 + FromBE(body[..4])..], ps1[1..], tail1, ps2[1..], tail2);
      assert ps1 == [ps1[0]] + ps1[1..] && ps2 == [ps2[0]] + ps2[1..];
    }
  }

  // ---- honest files -----------------------------------------------------------------------

  /** A header that commits to the right number of chunks. */
  ghost predicate Commits(h: Header, chunk: ChunkSize, plain: Bytes) {
    h.chunkCount == |Chunks(plain, chunk)|
  }

  lemma HeaderInFront(suite: Suite, key: Bytes, h: Header, file: Bytes)
    requires |file| >= HEADER_LEN && file[..HEADER_LEN] == HeaderBytes(suite, key, h)
    ensures ParseHeader(suite, key, file[..HEADER_LEN]) == Ok(h)
    ensures file[SALT_OFFSET..SALT_OFFSET + SALT_LEN] == h.salt
  {
    ReadOfWritten(suite, key, h, []);
    assert HeaderBytes(suite, key, h) + [] == HeaderBytes(suite, key, h);
    assert file[..HEADER_LEN][SALT_OFFSET..SALT_OFFSET + SALT_LEN] == file[SALT_OFFSET..SALT_OFFSET + SALT_LEN];
  }

  /** A file that starts with a written header is judged by its body alone. */
  lemma HeaderThenBody(
      suite: Suite, chunk: ChunkSize, pass: Bytes, key: Bytes, h: Header, body: Bytes)
    requires suite.kdf(pass, h.salt) == Some(key)
    ensures DecryptedFile(suite, chunk, pass, HeaderBytes(suite, key, h) + body)
         == DecryptedBody(OpenerFor(suite, chunk, key, h), h.chunkCount, body)
  {
    var file := HeaderBytes(suite, key, h) + body;
    assert file[..HEADER_LEN] == HeaderBytes(suite, key, h) && file[HEADER_LEN..] == body;
    HeaderInFront(suite, key, h, file);
  }

  /**
     The key is derived from a salt that nothing has authenticated yet. If the file is accepted, that
     was the salt of the authenticated header, the file starts with what writing this header under
     this key emits, and the rest was judged as a body of the header's session.
   */
  lemma AcceptedUnderOwnSalt(suite: Suite, chunk: ChunkSize, pass: Bytes, file: Bytes)
    returns (key: Bytes, h: Header)
    requires DecryptedFile(suite, chunk, pass, file).Ok?
    ensures suite.kdf(pass, h.salt) == Some(key)
    ensures |file| >= HEADER_LEN && file == HeaderBytes(suite, key, h) + file[HEADER_LEN..]
    ensures DecryptedFile(suite, chunk, pass, file)
         == DecryptedBody(OpenerFor(suite, chunk, key, h), h.chunkCount, file[HEADER_LEN..])
  {
    var head := file[..HEADER_LEN];
    key := suite.kdf(pass, file[SALT_OFFSET..SALT_OFFSET + SALT_LEN]).value;
    h := ParseHeader(suite, key, head).value;
    assert head[SALT_OFFSET..SALT_OFFSET + SALT_LEN] == file[SALT_OFFSET..SALT_OFFSET + SALT_LEN];
    WrittenOfRead(suite, key, head);
    assert head[..HEADER_LEN] == head;
  }

  /**
     How a file is judged, in terms of its own bytes, in this order: its size, the key derived from
     bytes 5 to 21 (a wrong passphrase shows in the tag, not here), magic, algorithm, the tag over the
     first 41 bytes, and then the body.
   */
  lemma FileVerdict(suite: Suite, chunk: ChunkSize, pass: Bytes, file: Bytes)
    ensures var r := DecryptedFile(suite, chunk, pass, file);
            if |file| < 73 then r == Err(InvalidFormat(TooShort))
            else
              match suite.kdf(pass, file[5..21])
              case None => r == Err(Kdf)
              case Some(key) =>
                if file[..4] != MAGIC then r == Err(InvalidFormat(BadMagic))
                else if file[4] !in {0x01, 0x02} then r == Err(InvalidFormat(UnknownAlgorithm(file[4])))
                else if !TagCovers(suite, key, file) then r == Err(HeaderTampered)
                else
                  var algo := if file[4] == 0x01 then Aes256Gcm else ChaCha20Poly1305;
                  var s := Session(suite, chunk, algo, key, file[21..33], suite.sha256(file[..41]));
                  r == DecryptedBody(s.Opening(), FromBE(file[33..41]), file[73..])
  {
    if |file| >= 73 && suite.kdf(pass, file[5..21]).Some? {
      var key, head := suite.kdf(pass, file[5..21]).value, file[..73];
      assert head[..4] == file[..4] && head[5..21] == file[5..21] && head[21..33] == file[21..33];
      assert head[33..41] == file[33..41] && head[41..73] == file[41..73] && head[..41] == file[..41];
      ParseHeaderExactly(suite, key, head);
      var parsed := ParseHeader(suite, key, head);
      if parsed.Ok? { FieldsMakePreHmac(parsed.value, head); }
    }
  }

  /** An honest file is a written header and well-opening frames, 20 bytes more than each chunk. */
  lemma HonestFile(
      suite: Suite, chunk: ChunkSize, pass: Bytes, key: Bytes, h: Header, plain: Bytes)
    returns (payloads: seq<Bytes>)
    requires suite.kdf(pass, h.salt) == Some(key)
    ensures EncryptedFile(suite, chunk, pass, h, plain) == Some(HeaderBytes(suite, key, h) + Wire(payloads))
    ensures WithinCap(OpenerFor(suite, chunk, key, h), payloads)
    ensures AllOpen(OpenerFor(suite, chunk, key, h), payloads, 0, Chunks(plain, chunk))
    ensures |payloads| == |Chunks(plain, chunk)|
    ensures forall k :: 0 <= k < |payloads| ==> |payloads[k]| == |Chunks(plain, chunk)[k]| + TAG_LEN
    ensures |Wire(payloads)| == |plain| + 20 * |Chunks(plain, chunk)|
  {
    ChunksConcat(plain, chunk);
    payloads := HonestPayloads(SessionFor(suite, chunk, key, h), Chunks(plain, chunk), 0);
  }

  lemma FileThenAnything(
      suite: Suite, chunk: ChunkSize, pass: Bytes, key: Bytes, h: Header,
      payloads: seq<Bytes>, parts: seq<Bytes>, extra: Bytes)
    requires suite.kdf(pass, h.salt) == Some(key)
    requires WithinCap(OpenerFor(suite, chunk, key, h), payloads)
    requires AllOpen(OpenerFor(suite, chunk, key, h), payloads, 0, parts)
    ensures DecryptedFile(suite, chunk, pass, HeaderBytes(suite, key, h) + Wire(payloads) + extra)
         == CheckCount(h.chunkCount,
              Prepend(Concat(parts), DecryptBody(OpenerFor(suite, chunk, key, h), extra, |payloads|)))
  {
    var head := HeaderBytes(suite, key, h);
    assert head + Wire(payloads) + extra == head + (Wire(payloads) + extra);
    HeaderThenBody(suite, chunk, pass, key, h, Wire(payloads) + extra);
    BodyThenAnything(OpenerFor(suite, chunk, key, h), h.chunkCount, payloads, parts, extra);
  }

  lemma {:induction false} BodyThenAnything(
      o: Opener, committed: nat, payloads: seq<Bytes>, parts: seq<Bytes>, extra: Bytes)
    requires WithinCap(o, payloads) && AllOpen(o, payloads, 0, parts)
    ensures DecryptedBody(o, committed, Wire(payloads) + extra)
         == CheckCount(committed, Prepend(Concat(parts), DecryptBody(o, extra, |payloads|)))
  {
    FramesThenAnything(o, payloads, 0, parts, extra);
  }

  /** Whatever follows an honest file is read as frames numbered from its own count on. */
  lemma HonestFileThenAnything(
      suite: Suite, chunk: ChunkSize, pass: Bytes, key: Bytes, h: Header, plain: Bytes, extra: Bytes)
    requires suite.kdf(pass, h.salt) == Some(key)
    ensures EncryptedFile(suite, chunk, pass, h, plain).Some?
    ensures DecryptedFile(suite, chunk, pass, EncryptedFile(suite, chunk, pass, h, plain).value + extra)
         == CheckCount(h.chunkCount,
              Prepend(plain, DecryptBody(OpenerFor(suite, chunk, key, h), extra, |Chunks(plain, chunk)|)))
  {
    var payloads := HonestFile(suite, chunk, pass, key, h, plain);
    FileThenAnything(suite, chunk, pass, key, h, payloads, Chunks(plain, chunk), extra);
    ChunksConcat(plain, chunk);
  }

  /** Decrypting an encrypted file gives the plaintext, and the file has a known size. */
  lemma RoundTrip(suite: Suite, chunk: ChunkSize, pass: Bytes, h: Header, plain: Bytes)
    requires suite.kdf(pass, h.salt).Some? && Commits(h, chunk, plain)
    ensures EncryptedFile(suite, chunk, pass, h, plain).Some?
    ensures var file := EncryptedFile(suite, chunk, pass, h, plain).value;
            && DecryptedFile(suite, chunk, pass, file) == Ok(plain)
            && |file| == 73 + |plain| + 20 * DivCeil(|plain|, chunk)
  {
    var key := suite.kdf(pass, h.salt).value;
    HonestFileThenAnything(suite, chunk, pass, key, h, plain, []);
    var payloads := HonestFile(suite, chunk, pass, key, h, plain);
    var file := EncryptedFile(suite, chunk, pass, h, plain).value;
    assert file + [] == file && plain + [] == plain;
    ChunkCount(plain, chunk);
  }

  /** Appending to an honest file changes nothing below four bytes and is rejected from four bytes on. */
  lemma ExtensionAcceptedIffShort(
      suite: Suite, chunk: ChunkSize, pass: Bytes, h: Header, plain: Bytes, extra: Bytes)
    requires suite.kdf(pass, h.salt).Some? && Commits(h, chunk, plain)
    requires EncryptedFile(suite, chunk, pass, h, plain).Some?
    ensures var r := DecryptedFile(suite, chunk, pass, EncryptedFile(suite, chunk, pass, h, plain).value + extra);
            && (r.Ok? <==> |extra| < 4)
            && (r.Ok? ==> r.value == plain)
  {
    var key := suite.kdf(pass, h.salt).value;
    var o, n := OpenerFor(suite, chunk, key, h), |Chunks(plain, chunk)|;
    HonestFileThenAnything(suite, chunk, pass, key, h, plain, extra);
    assert plain + [] == plain;
    if |extra| >= 4 && DecryptBody(o, extra, n).Ok? {
      CountAdvances(o, extra, n);
    }
  }

  // ---- the bytes of an honest file ----------------------------------------------------------

  /** Chunk k is what stands in the plaintext from k * C on. */
  lemma {:induction false} ChunkAt(plain: Bytes, chunk: ChunkSize, k: nat, from: nat)
    requires from == chunk * k && from < |plain|
    ensures k < |Chunks(plain, chunk)|
    ensures Chunks(plain, chunk)[k] == plain[from..Min(from + chunk, |plain|)]
    decreases k
  {
    if k > 0 {
      OneLess(chunk, k);
      var rest := plain[chunk..];
      ChunkAt(rest, chunk, k - 1, from - chunk);
      assert Chunks(plain, chunk) == [plain[..chunk]] + Chunks(rest, chunk);
      assert plain[from..Min(from + chunk, |plain|)] == rest[from - chunk..Min(from, |rest|)];
    }
  }

  lemma OneLess(d: nat, q: nat)
    requires q > 0
    ensures d * q - d == d * (q - 1) >= 0
  {
  }

  /** The frame after the first m, where it stands on the wire. */
  lemma {:induction false} FrameOnWire(payloads: seq<Bytes>, m: nat)
    requires m < |payloads|
    ensures var at := |Wire(payloads[..m])|;
            at + |Frame(payloads[m])| <= |Wire(payloads)|
            && Wire(payloads)[at..at + |Frame(payloads[m])|] == Frame(payloads[m])
  {
    var front, later := Frame(payloads[0]), payloads[1..];
    if m == 0 {
      assert Wire(payloads)[..|front|] == front;
    } else {
      FrameOnWire(later, m - 1);
      var before := Wire(later[..m - 1]);
      assert payloads[..m] == [payloads[0]] + later[..m - 1];
      assert Wire(payloads[..m]) == front + before;
      SliceAfter(front, Wire(later), |before|, |before| + |Frame(payloads[m])|);
    }
  }

  lemma OpenIsUnseal(a: Aead, k: Bytes, n: Bytes, d: Bytes, c: Bytes, m: Bytes)
    requires a.Lawful()
    ensures a.open(k, n, d, c) == Some(m) <==> a.seal(k, n, d, m) == Some(c)
  {
  }

  /** Sealing and opening at an index: which cipher, key, nonce and additional data. */
  lemma OpensExactly(s: Session, i: nat, ct: Bytes, m: Bytes)
    ensures s.Opening().open(i, ct) == Some(m)
       <==> (if s.algo == Aes256Gcm then s.suite.aesGcm else s.suite.chaCha).seal(
              s.key, ChunkNonce(s.nonce, i), s.headerAad + ToBE(i, 8), m) == Some(ct)
  {
    OpenIsUnseal(
      if s.algo == Aes256Gcm then s.suite.aesGcm else s.suite.chaCha,
      s.key, ChunkNonce(s.nonce, i), s.headerAad + ToBE(i, 8), ct, m);
  }

  /**
     `ct` is `part` sealed as chunk k of the file that starts with these bytes: by the cipher byte 4
     names, under the nonce n of value base + k, and with the hash of the first 41 bytes and k, as
     the eight bytes x, for additional data.
   */
  ghost predicate SealedForFile(suite: Suite, key: Bytes, file: Bytes, k: nat, part: Bytes, ct: Bytes)
    requires |file| >= 73
  {
    forall n, x ::
      |n| == 12 && FromBE(n) == (FromBE(file[21..33]) + k) % TWO96 && |x| == 8 && FromBE(x) == k ==>
        (if file[4] == 0x01 then suite.aesGcm else suite.chaCha).seal(key, n, suite.sha256(file[..41]) + x, part)
        == Some(ct)
  }

  /**
     Frame k of an honest file, in terms of the file's own bytes: at 73 + k(C + 20) the length of
     what follows, big-endian in four bytes, and then chunk k of the plaintext, sealed by the cipher
     byte 4 names, under the nonce at 21 plus k, with the hash of the first 41 bytes and k as
     additional data.
   */
  lemma FileLayout(
      suite: Suite, chunk: ChunkSize, pass: Bytes, key: Bytes, h: Header, plain: Bytes, k: nat, from: nat, on: nat)
    returns (file: Bytes, part: Bytes, ct: Bytes)
    requires suite.kdf(pass, h.salt) == Some(key)
    requires from == chunk * k && from < |plain| && on == (chunk + 20) * k
    ensures EncryptedFile(suite, chunk, pass, h, plain) == Some(file) && HeaderBytes(suite, key, h) <= file
    ensures part == plain[from..Min(from + chunk, |plain|)] && |ct| == |part| + 16
    ensures StandsAt(file, 73 + on, ct) && SealedForFile(suite, key, file, k, part, ct)
  {
    var payloads := HonestFile(suite, chunk, pass, key, h, plain);
    var head, wire := HeaderBytes(suite, key, h), Wire(payloads);
    file := head + wire;
    part, ct := HonestFrame(OpenerFor(suite, chunk, key, h), chunk, payloads, plain, k, from, on);
    FrameAfterHeader(head, wire, on, ct);
    OpenedInFile(suite, chunk, key, h, file, k, ct, part);
  }

  /** The length of `ct`, as a four-byte number, and `ct` itself. */
  ghost predicate StandsAt(b: Bytes, at: nat, ct: Bytes) {
    at + 4 + |ct| <= |b| && FromBE(b[at..at + 4]) == |ct| && b[at + 4..at + 4 + |ct|] == ct
  }

  lemma HonestFrame(
      o: Opener, chunk: ChunkSize, payloads: seq<Bytes>, plain: Bytes, k: nat, from: nat, on: nat)
    returns (part: Bytes, ct: Bytes)
    requires AllOpen(o, payloads, 0, Chunks(plain, chunk))
    requires |payloads| == |Chunks(plain, chunk)|
    requires forall i :: 0 <= i < |payloads| ==> |payloads[i]| == |Chunks(plain, chunk)[i]| + TAG_LEN
    requires from == chunk * k && from < |plain| && on == (chunk + 20) * k
    ensures part == plain[from..Min(from + chunk, |plain|)] && |ct| == |part| + 16
    ensures StandsAt(Wire(payloads), on, ct)
    ensures o.open(k, ct) == Some(part)
  {
    ChunkAt(plain, chunk, k, from);
    part, ct := Chunks(plain, chunk)[k], payloads[k];
    FrameAtPlace(o, chunk, payloads, plain, k, on);
  }

  lemma FrameAfterHeader(head: Bytes, wire: Bytes, on: nat, ct: Bytes)
    requires |head| == 73 && StandsAt(wire, on, ct)
    ensures head <= head + wire && StandsAt(head + wire, 73 + on, ct)
  {
    SliceAfter(head, wire, on, on + 4);
    SliceAfter(head, wire, on + 4, on + 4 + |ct|);
  }

  lemma SliceAfter(head: Bytes, rest: Bytes, i: nat, j: nat)
    requires i <= j <= |rest|
    ensures (head + rest)[|head| + i..|head| + j] == rest[i..j]
  {
  }

  lemma OpenedInFile(
      suite: Suite, chunk: ChunkSize, key: Bytes, h: Header, file: Bytes, k: nat, ct: Bytes, part: Bytes)
    requires HeaderBytes(suite, key, h) <= file
    requires OpenerFor(suite, chunk, key, h).open(k, ct) == Some(part)
    ensures SealedForFile(suite, key, file, k, part, ct)
  {
    HeaderLayout(suite, key, h, file);
    FieldsMakePreHmac(h, file);
    OpensExactly(SessionFor(suite, chunk, key, h), k, ct, part);
    forall n, x |
        |n| == 12 && FromBE(n) == (FromBE(file[21..33]) + k) % TWO96 && |x| == 8 && FromBE(x) == k
      ensures n == ChunkNonce(h.nonce, k) && x == ToBE(k, 8)
    {
      ToFromBE(n);
      ToFromBE(x);
    }
  }

  lemma FrameAtPlace(o: Opener, chunk: ChunkSize, payloads: seq<Bytes>, plain: Bytes, k: nat, on: nat)
    requires AllOpen(o, payloads, 0, Chunks(plain, chunk))
    requires |payloads| == |Chunks(plain, chunk)| && k < |payloads| && on == (chunk + 20) * k
    requires forall i :: 0 <= i < |payloads| ==> |payloads[i]| == |Chunks(plain, chunk)[i]| + TAG_LEN
    ensures var wire, part := Wire(payloads), Chunks(plain, chunk)[k];
            && StandsAt(wire, on, payloads[k])
            && o.open(k, payloads[k]) == Some(part)
  {
    ChunkLengths(plain, chunk);
    CutPlace(plain, chunk, payloads, k, 0);
    PayloadOnWire(payloads, k, on);
    OpensInPlace(o, payloads, 0, Chunks(plain, chunk), k);
  }

  lemma PayloadOnWire(payloads: seq<Bytes>, k: nat, on: nat)
    requires k < |payloads| && |payloads[k]| < TWO32 && on == |Wire(payloads[..k])|
    ensures StandsAt(Wire(payloads), on, payloads[k])
  {
    FrameOnWire(payloads, k);
    FrameAtFront(payloads[k], []);
    FrameParts(Wire(payloads), payloads[k], on);
  }

  lemma FrameParts(wire: Bytes, ct: Bytes, at: nat)
    requires |ct| < TWO32 && at + 4 + |ct| <= |wire| && wire[at..at + 4 + |ct|] == Frame(ct)
    ensures StandsAt(wire, at, ct)
  {
    FrameAtFront(ct, []);
    var b := Frame(ct) + [];
    assert b == wire[at..at + 4 + |ct|];
    assert b[..4] == wire[at..at + 4] && b[4..4 + |ct|] == wire[at + 4..at + 4 + |ct|];
  }

  // ---- cut files ----------------------------------------------------------------------------

  /** A frame is C + 20 bytes long: the cut leaves `done` of them whole, and `t` bytes more. */
  function CutError(committed: nat, chunk: ChunkSize, cut: nat): CryError {
    if cut < HEADER_LEN then InvalidFormat(TooShort)
    else
      var done, t := (cut - HEADER_LEN) / (chunk + 20), (cut - HEADER_LEN) % (chunk + 20);
      if t < 4 then Truncated(committed, done) else Io(UnexpectedEof)
  }

  /** Every proper prefix of an honest file is rejected, and the place of the cut decides how. */
  lemma PrefixRejected(
      suite: Suite, chunk: ChunkSize, pass: Bytes, h: Header, plain: Bytes, cut: nat)
    requires suite.kdf(pass, h.salt).Some? && Commits(h, chunk, plain)
    requires EncryptedFile(suite, chunk, pass, h, plain).Some?
    requires cut < |EncryptedFile(suite, chunk, pass, h, plain).value|
    ensures DecryptedFile(suite, chunk, pass, EncryptedFile(suite, chunk, pass, h, plain).value[..cut])
         == Err(CutError(h.chunkCount, chunk, cut))
    ensures cut >= HEADER_LEN ==> (cut - HEADER_LEN) / (chunk + 20) < h.chunkCount
  {
    if cut >= HEADER_LEN {
      var m, t := CutFile(suite, chunk, pass, h, plain, cut);
      CutErrorAt(h.chunkCount, chunk, cut, m, t);
    }
  }

  lemma CutErrorAt(committed: nat, chunk: ChunkSize, cut: nat, m: nat, t: nat)
    requires m < committed && t < chunk + 20 && cut == HEADER_LEN + (chunk + 20) * m + t
    ensures CheckCount(committed, CutResult(m, t, [])) == Err(CutError(committed, chunk, cut))
    ensures (cut - HEADER_LEN) / (chunk + 20) == m
  {
    ModUnique(cut - HEADER_LEN, chunk + 20, m, t);
  }

  lemma CutFile(
      suite: Suite, chunk: ChunkSize, pass: Bytes, h: Header, plain: Bytes, cut: nat)
    returns (m: nat, t: nat)
    requires suite.kdf(pass, h.salt).Some? && Commits(h, chunk, plain)
    requires EncryptedFile(suite, chunk, pass, h, plain).Some?
    requires HEADER_LEN <= cut < |EncryptedFile(suite, chunk, pass, h, plain).value|
    ensures m < h.chunkCount && t < chunk + 20 && cut == HEADER_LEN + (chunk + 20) * m + t
    ensures DecryptedFile(suite, chunk, pass, EncryptedFile(suite, chunk, pass, h, plain).value[..cut])
         == CheckCount(h.chunkCount, CutResult(m, t, Concat(Chunks(plain, chunk)[..m])))
  {
    var key := suite.kdf(pass, h.salt).value;
    var payloads := HonestFile(suite, chunk, pass, key, h, plain);
    m, t := CutAfterHeader(suite, chunk, pass, key, h, payloads, plain, cut - HEADER_LEN);
  }

  lemma CutAfterHeader(
      suite: Suite, chunk: ChunkSize, pass: Bytes, key: Bytes, h: Header,
      payloads: seq<Bytes>, plain: Bytes, cut: nat)
    returns (m: nat, t: nat)
    requires suite.kdf(pass, h.salt) == Some(key)
    requires WithinCap(OpenerFor(suite, chunk, key, h), payloads)
    requires AllOpen(OpenerFor(suite, chunk, key, h), payloads, 0, Chunks(plain, chunk))
    requires forall k :: 0 <= k < |payloads| ==> |payloads[k]| == |Chunks(plain, chunk)[k]| + TAG_LEN
    requires cut < |Wire(payloads)|
    ensures m < |payloads| && t < chunk + 20 && cut == (chunk + 20) * m + t
    ensures DecryptedFile(suite, chunk, pass, (HeaderBytes(suite, key, h) + Wire(payloads))[..HEADER_LEN + cut])
         == CheckCount(h.chunkCount, CutResult(m, t, Concat(Chunks(plain, chunk)[..m])))
  {
    var head, part := HeaderBytes(suite, key, h), Wire(payloads)[..cut];
    assert (head + Wire(payloads))[..HEADER_LEN + cut] == head + part;
    HeaderThenBody(suite, chunk, pass, key, h, part);
    m, t := CutBody(OpenerFor(suite, chunk, key, h), chunk, h.chunkCount, payloads, plain, cut);
  }

  lemma CutBody(
      o: Opener, chunk: ChunkSize, committed: nat, payloads: seq<Bytes>, plain: Bytes, cut: nat)
    returns (m: nat, t: nat)
    requires WithinCap(o, payloads) && AllOpen(o, payloads, 0, Chunks(plain, chunk))
    requires forall k :: 0 <= k < |payloads| ==> |payloads[k]| == |Chunks(plain, chunk)[k]| + TAG_LEN
    requires cut < |Wire(payloads)|
    ensures m < |payloads| && t < chunk + 20 && cut == (chunk + 20) * m + t
    ensures DecryptedBody(o, committed, Wire(payloads)[..cut])
         == CheckCount(committed, CutResult(m, t, Concat(Chunks(plain, chunk)[..m])))
  {
    m, t := CutFrames(o, payloads, 0, Chunks(plain, chunk), cut);
    CutPlace(plain, chunk, payloads, m, t);
  }

  lemma CutPlace(plain: Bytes, chunk: ChunkSize, payloads: seq<Bytes>, m: nat, t: nat)
    requires |payloads| == |Chunks(plain, chunk)|
    requires forall k :: 0 <= k < |payloads| ==> |payloads[k]| == |Chunks(plain, chunk)[k]| + TAG_LEN
    requires m < |payloads| && t < 4 + |payloads[m]|
    ensures |Wire(payloads[..m])| == (chunk + 20) * m && t < chunk + 20
  {
    ChunkLengths(plain, chunk);
    WireLength(payloads, m, chunk + 20);
  }
}
