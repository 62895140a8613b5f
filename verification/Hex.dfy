/** The hex codec of src/crydna.rs, on the UTF-8 bytes of its strings. */
module Hex {
  import opened ByteStrings
  import opened Outcomes
  import opened Utf8

  /** A lowercase digit. */
  function Digit(v: nat): byte
    requires v < 16
  {
    if v < 10 then 0x30 + v else 0x57 + v
  }

  /** `bytes_to_hex`, and `hex::encode`. */
  function BytesToHex(b: Bytes): (s: Bytes)
    ensures |s| == 2 * |b|
  {
    if b == [] then [] else [Digit(b[0] / 16), Digit(b[0] % 16)] + BytesToHex(b[1..])
  }

  function DigitValue(c: byte): Option<nat> {
    if 0x30 <= c <= 0x39 then Some(c - 0x30)
    else if 0x61 <= c <= 0x66 then Some(c - 0x57)
    else if 0x41 <= c <= 0x46 then Some(c - 0x37)
    else None
  }

  /** `u8::from_str_radix` on two characters: a leading plus sign is allowed, a minus sign is not. */
  function PairValue(a: byte, b: byte): Option<byte> {
    var low := DigitValue(b);
    var high := if a == 0x2b then Some(0) else DigitValue(a);
    if high.Some? && low.Some? && high.value < 16 && low.value < 16
    then Some(16 * high.value + low.value)
    else None
  }

  /** Slicing a string inside a multi-byte character panics. */
  datatype Outcome = Decoded(bytes: Bytes) | Rejected | Panicked

  predicate IsCharBoundary(s: Bytes, i: nat)
    requires i <= |s|
  {
    i == |s| || !IsContinuation(s[i])
  }

  /** `hex_to_bytes`. */
  function HexToBytes(s: Bytes): Outcome {
    if |s| % 2 != 0 then Rejected else DecodePairs(s)
  }

  /** Pairs are decoded in order; the first one that fails decides. */
  function DecodePairs(s: Bytes): Outcome
    requires |s| % 2 == 0
  {
    if s == [] then Decoded([])
    else if !IsCharBoundary(s, 0) || !IsCharBoundary(s, 2) then Panicked
    else match PairValue(s[0], s[1])
      case None => Rejected
      case Some(v) => match DecodePairs(s[2..])
        case Decoded(rest) => Decoded([v] + rest)
        case other => other
  }

  /** Lowercase, and a plus sign in first place read as a zero. */
  function Lower(c: byte): byte { if 0x41 <= c <= 0x46 then c + 0x20 else c }

  function Canonical(s: Bytes): (t: Bytes)
    ensures |t| == |s|
  {
    if |s| < 2 then s
    else [if s[0] == 0x2b then 0x30 else Lower(s[0]), Lower(s[1])] + Canonical(s[2..])
  }

  lemma PairSpelling(a: byte, b: byte, v: byte)
    ensures PairValue(a, b) == Some(v) <==>
      (if a == 0x2b then 0x30 else Lower(a)) == Digit(v / 16) && Lower(b) == Digit(v % 16)
  {
  }

  /**
     A string decodes to `b` exactly when its canonical spelling is what encoding `b` gives: upper
     case and a plus sign in a pair's first place are the only liberties.
   */
  lemma {:induction false} DecodesExactly(s: Bytes, b: Bytes)
    ensures HexToBytes(s) == Decoded(b) <==> Canonical(s) == BytesToHex(b)
    decreases |s|
  {
    if |s| % 2 != 0 || s == [] || b == [] {
    } else {
      PairSpelling(s[0], s[1], b[0]);
      DecodesExactly(s[2..], b[1..]);
      var c, h := Canonical(s), BytesToHex(b);
      assert c[2..] == Canonical(s[2..]) && h[2..] == BytesToHex(b[1..]);
      assert c == [c[0], c[1]] + c[2..] && h == [h[0], h[1]] + h[2..];
      assert b == [b[0]] + b[1..];
      if c == h {
        NextPairReadable(s, b);
      }
    }
  }

  lemma NextPairReadable(s: Bytes, b: Bytes)
    requires |s| >= 2 && b != [] && Canonical(s) == BytesToHex(b)
    ensures IsCharBoundary(s, 0) && IsCharBoundary(s, 2)
  {
    var c, h := Canonical(s), BytesToHex(b);
    assert c[0] == h[0];
    if |s| > 2 {
      assert c[2] == Canonical(s[2..])[0] && h[2] == BytesToHex(b[1..])[0];
    }
  }

  const LOWER_DIGITS := "0123456789abcdef"
  const UPPER_DIGITS := "0123456789ABCDEF"

  /** c is the digit of v, in either case. */
  predicate IsDigitOf(c: byte, v: nat)
    requires v < 16
  {
    c == LOWER_DIGITS[v] as int || c == UPPER_DIGITS[v] as int
  }

  lemma DigitSpelled(c: byte, v: nat)
    requires v < 16
    ensures DigitValue(c) == Some(v) <==> IsDigitOf(c, v)
    ensures Digit(v) == LOWER_DIGITS[v] as int
  {
  }

  /** Two characters stand for x: its two digits, or a plus sign and one digit. */
  predicate PairSpells(a: byte, b: byte, x: byte) {
    && (IsDigitOf(a, x / 16) || (a == '+' as int && x < 16))
    && IsDigitOf(b, x % 16)
  }

  lemma PairValueDigits(a: byte, b: byte, q: nat, r: nat)
    requires q < 16 && r < 16
    ensures PairValue(a, b) == Some(16 * q + r)
       <==> (DigitValue(a) == Some(q) || (a == 0x2b && q == 0)) && DigitValue(b) == Some(r)
  {
    assert DigitValue(0x2b) == None;
  }

  lemma PairValueExactly(a: byte, b: byte, x: byte)
    ensures PairValue(a, b) == Some(x) <==> PairSpells(a, b, x)
  {
    DigitSpelled(a, x / 16);
    DigitSpelled(b, x % 16);
    PairValueDigits(a, b, x / 16, x % 16);
    assert 16 * (x / 16) + x % 16 == x;
  }

  ghost predicate SpellsAt(s: Bytes, b: Bytes, k: nat)
    requires k < |b| && |s| == 2 * |b|
  {
    PairSpells(s[2 * k], s[2 * k + 1], b[k])
  }

  /** Decoding, character by character: pair k of characters stands for byte k. */
  lemma {:induction false} DecodesPairwise(s: Bytes, b: Bytes)
    ensures HexToBytes(s) == Decoded(b)
       <==> |s| == 2 * |b| && forall k: nat :: k < |b| ==> SpellsAt(s, b, k)
    decreases |s|
  {
    if |s| % 2 == 0 && s != [] && b != [] {
      DecodesPairwise(s[2..], b[1..]);
      FirstPairDecodes(s, b);
      if |s| == 2 * |b| { PairsShift(s, b); }
    }
  }

  lemma FirstPairDecodes(s: Bytes, b: Bytes)
    requires |s| % 2 == 0 && s != [] && b != []
    ensures HexToBytes(s) == Decoded(b)
       <==> PairSpells(s[0], s[1], b[0]) && HexToBytes(s[2..]) == Decoded(b[1..])
  {
    PairValueExactly(s[0], s[1], b[0]);
    assert b == [b[0]] + b[1..];
    if PairSpells(s[0], s[1], b[0]) && HexToBytes(s[2..]) == Decoded(b[1..]) {
      AsciiPairs(s, b);
    }
  }

  lemma AsciiPairs(s: Bytes, b: Bytes)
    requires |s| % 2 == 0 && s != [] && b != []
    requires PairSpells(s[0], s[1], b[0]) && HexToBytes(s[2..]) == Decoded(b[1..])
    ensures IsCharBoundary(s, 0) && IsCharBoundary(s, 2)
  {
  }

  lemma PairsShift(s: Bytes, b: Bytes)
    requires |s| == 2 * |b| > 0
    ensures (forall k: nat :: k < |b| ==> SpellsAt(s, b, k))
       <==> PairSpells(s[0], s[1], b[0]) && forall k: nat :: k < |b[1..]| ==> SpellsAt(s[2..], b[1..], k)
  {
    assert SpellsAt(s, b, 0) == PairSpells(s[0], s[1], b[0]);
    forall k: nat | k < |b[1..]|
      ensures SpellsAt(s[2..], b[1..], k) == SpellsAt(s, b, k + 1)
    {
      assert s[2..][2 * k] == s[2 * (k + 1)] && s[2..][2 * k + 1] == s[2 * (k + 1) + 1];
    }
    if PairSpells(s[0], s[1], b[0]) && forall k: nat :: k < |b[1..]| ==> SpellsAt(s[2..], b[1..], k) {
      forall k: nat | k < |b|
        ensures SpellsAt(s, b, k)
      {
        if k > 0 { assert SpellsAt(s[2..], b[1..], k - 1); }
      }
    }
  }

  /** Encoding, character by character: lowercase, the high digit first. */
  lemma {:induction false} EncodesPairwise(b: Bytes, k: nat)
    requires k < |b|
    ensures BytesToHex(b)[2 * k] == LOWER_DIGITS[b[k] / 16] as int
    ensures BytesToHex(b)[2 * k + 1] == LOWER_DIGITS[b[k] % 16] as int
  {
    if k == 0 {
      DigitSpelled(0, b[0] / 16);
      DigitSpelled(0, b[0] % 16);
    } else {
      EncodesPairwise(b[1..], k - 1);
      assert BytesToHex(b)[2..] == BytesToHex(b[1..]);
    }
  }

  /** Decoding undoes encoding. */
  lemma DecodeOfEncode(b: Bytes)
    ensures HexToBytes(BytesToHex(b)) == Decoded(b)
  {
    EncodedIsCanonical(b);
    DecodesExactly(BytesToHex(b), b);
  }

  lemma {:induction false} EncodedIsCanonical(b: Bytes)
    ensures Canonical(BytesToHex(b)) == BytesToHex(b)
  {
    if b != [] {
      EncodedIsCanonical(b[1..]);
      assert BytesToHex(b)[2..] == BytesToHex(b[1..]);
    }
  }

  /** All pairs before k have values, and the pair at k is not cut out at character boundaries. */
  ghost predicate StuckAt(s: Bytes, k: nat) {
    && k < |s|
    && |s| % 2 == 0 && k % 2 == 0
    && PairsReadable(s, k)
    && !(IsCharBoundary(s, k) && IsCharBoundary(s, k + 2))
  }

  ghost predicate PairsReadable(s: Bytes, k: nat)
    requires k <= |s|
  {
    forall j :: 0 <= j && j + 1 < k && j % 2 == 0 ==> PairValue(s[j], s[j + 1]).Some?
  }

  lemma StuckLater(s: Bytes, k: nat)
    requires |s| >= 2 && |s| % 2 == 0 && IsCharBoundary(s, 0) && IsCharBoundary(s, 2)
    ensures StuckAt(s, k + 2) <==> PairValue(s[0], s[1]).Some? && StuckAt(s[2..], k)
  {
    if k + 2 < |s| && k % 2 == 0 {
      if PairsReadable(s, k + 2) {
        forall j | 0 <= j && j + 1 < k && j % 2 == 0
          ensures PairValue(s[2..][j], s[2..][j + 1]).Some?
        {
          assert PairValue(s[j + 2], s[j + 2 + 1]).Some?;
        }
        assert PairValue(s[0], s[0 + 1]).Some?;
      }
      if PairValue(s[0], s[1]).Some? && PairsReadable(s[2..], k) {
        forall j | 0 <= j && j + 1 < k + 2 && j % 2 == 0
          ensures PairValue(s[j], s[j + 1]).Some?
        {
          if j > 0 { assert PairValue(s[2..][j - 2], s[2..][j - 2 + 1]).Some?; }
        }
      }
    }
  }

  /** Decoding panics exactly when some pair, after pairs that have values, cuts a multi-byte character. */
  lemma {:induction false} PanicsExactly(s: Bytes)
    ensures HexToBytes(s).Panicked? <==> exists k: nat :: StuckAt(s, k)
    decreases |s|
  {
    if |s| % 2 == 0 && s != [] {
      if !IsCharBoundary(s, 0) || !IsCharBoundary(s, 2) {
        assert StuckAt(s, 0);
      } else {
        PanicsExactly(s[2..]);
        if k: nat :| StuckAt(s[2..], k) {
          StuckLater(s, k);
        }
        if k: nat :| StuckAt(s, k) {
          StuckLater(s, k - 2);
        }
      }
    }
  }

  /** All pairs before k have values, and the pair at k ends inside a character. */
  ghost predicate EndsInside(s: Bytes, k: nat) {
    k + 2 < |s| && |s| % 2 == 0 && k % 2 == 0 && PairsReadable(s, k) && IsContinuation(s[k + 2])
  }

  lemma StuckInText(s: Bytes, k: nat)
    requires IsText(s) && StuckAt(s, k)
    ensures EndsInside(s, k) || (k >= 2 && EndsInside(s, k - 2))
  {
    if k > 0 && IsCharBoundary(s, k + 2) {
      assert PairsReadable(s, k - 2);
    }
  }

  /** On text it does so exactly when a pair, after pairs that have values, ends inside a character. */
  lemma TextPanicsExactly(s: Bytes)
    requires IsText(s)
    ensures HexToBytes(s).Panicked? <==> exists k: nat :: EndsInside(s, k)
  {
    PanicsExactly(s);
    if k: nat :| StuckAt(s, k) {
      StuckInText(s, k);
    }
    if k: nat :| EndsInside(s, k) {
      assert StuckAt(s, k);
    }
  }

  /** So ASCII text never panics. */
  lemma AsciiNeverPanics(s: Bytes)
    requires forall i :: 0 <= i < |s| ==> s[i] < 0x80
    ensures !HexToBytes(s).Panicked?
  {
    PanicsExactly(s);
  }

  /** But text can: an "a", an e with an acute accent, and an "a". */
  lemma SomeTextPanics()
    ensures IsText([0x61, 0xC3, 0xA9, 0x61]) && HexToBytes([0x61, 0xC3, 0xA9, 0x61]).Panicked?
  {
    var s: Bytes := [0x61, 0xC3, 0xA9, 0x61];
    assert s[1..] == [0xC3, 0xA9, 0x61] && s[1..][2..] == [0x61] && s[1..][2..][1..] == [];
    assert StuckAt(s, 0);
    PanicsExactly(s);
  }
}
