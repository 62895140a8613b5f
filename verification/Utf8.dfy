/** Which byte strings are the UTF-8 text that a Rust string holds (section 4 of RFC 3629). */
module Utf8 {
  import opened ByteStrings
  import opened Outcomes

  predicate IsContinuation(c: byte) { 0x80 <= c < 0xC0 }

  /** The second byte a leading byte of three or four allows. */
  predicate IsSecond(lead: byte, c: byte) {
    && IsContinuation(c)
    && (lead == 0xE0 ==> c >= 0xA0)
    && (lead == 0xED ==> c < 0xA0)
    && (lead == 0xF0 ==> c >= 0x90)
    && (lead == 0xF4 ==> c < 0x90)
  }

  /** The length of the character in front, or 0 if there is none. */
  function CharLen(b: Bytes): (n: nat)
    ensures n <= |b|
    ensures n > 0 ==> !IsContinuation(b[0])
    ensures n > 1 ==> b[0] >= 0x80 && forall k :: 1 <= k < n ==> IsContinuation(b[k])
  {
    if b == [] then 0
    else if b[0] < 0x80 then 1
    else if 0xC2 <= b[0] <= 0xDF && |b| >= 2 && IsContinuation(b[1]) then 2
    else if 0xE0 <= b[0] <= 0xEF && |b| >= 3 && IsSecond(b[0], b[1]) && IsContinuation(b[2]) then 3
    else if 0xF0 <= b[0] <= 0xF4 && |b| >= 4 && IsSecond(b[0], b[1])
         && IsContinuation(b[2]) && IsContinuation(b[3]) then 4
    else 0
  }

  predicate IsText(b: Bytes) {
    b == [] || (CharLen(b) > 0 && IsText(b[CharLen(b)..]))
  }

  predicate IsTextOrNone(s: Option<Bytes>) {
    s.Some? ==> IsText(s.value)
  }

  lemma CharLenAppend(a: Bytes, b: Bytes)
    requires CharLen(a) > 0
    ensures CharLen(a + b) == CharLen(a)
  {
    assert forall k :: 0 <= k < |a| ==> (a + b)[k] == a[k];
  }

  lemma {:induction false} TextConcat(a: Bytes, b: Bytes)
    requires IsText(a) && IsText(b)
    ensures IsText(a + b)
  {
    if a == [] {
      assert a + b == b;
    } else {
      var n := CharLen(a);
      TextConcat(a[n..], b);
      CharLenAppend(a, b);
      assert (a + b)[n..] == a[n..] + b;
    }
  }

  lemma {:induction false} AsciiIsText(s: Bytes)
    requires forall k :: 0 <= k < |s| ==> s[k] < 0x80
    ensures IsText(s)
  {
    if s != [] {
      AsciiIsText(s[1..]);
    }
  }

  /** Text may be cut at any ASCII character. */
  lemma {:induction false} TextAfterAscii(s: Bytes, k: nat)
    requires IsText(s) && k < |s| && s[k] < 0x80
    ensures IsText(s[k + 1..])
  {
    var n := CharLen(s);
    if k >= n {
      TextAfterAscii(s[n..], k - n);
      assert s[n..][k - n + 1..] == s[k + 1..];
    }
  }

  // ---- the encoding this recognises -----------------------------------------------------------

  /** A Unicode scalar value: a Rust `char`. */
  type Scalar = c: nat | c < 0xD800 || 0xE000 <= c < 0x11_0000

  /** The encoding of one character, in one to four bytes. */
  function Encode(c: Scalar): (b: Bytes)
    ensures 1 <= |b| <= 4
  {
    if c < 0x80 then [c]
    else if c < 0x800 then [0xC0 + c / 64, 0x80 + c % 64]
    else if c < 0x1_0000 then [0xE0 + c / 4096, 0x80 + c / 64 % 64, 0x80 + c % 64]
    else [0xF0 + c / 0x4_0000, 0x80 + c / 4096 % 64, 0x80 + c / 64 % 64, 0x80 + c % 64]
  }

  function EncodeAll(cs: seq<Scalar>): Bytes {
    if cs == [] then [] else Encode(cs[0]) + EncodeAll(cs[1..])
  }

  lemma EncodedIsChar(c: Scalar, rest: Bytes)
    ensures CharLen(Encode(c) + rest) == |Encode(c)|
  {
  }

  /** Base-64 digits of a number, as the encoding reads them. */
  lemma SixBits(p: nat, q: nat, r: nat, t: nat)
    requires q < 64 && r < 64 && t < 64
    ensures var c := 0x4_0000 * p + 4096 * q + 64 * r + t;
            c / 0x4_0000 == p && c / 4096 % 64 == q && c / 64 % 64 == r && c % 64 == t
  {
    var v := 64 * p + q;
    var u := 64 * v + r;
    var c := 64 * u + t;
    assert v / 64 == p && v % 64 == q;
    assert u / 64 == v && u % 64 == r;
    assert c / 64 == u && c % 64 == t;
    assert c / 4096 == v && c / 0x4_0000 == p;
  }

  lemma CharIsEncoded(b: Bytes) returns (c: Scalar)
    requires CharLen(b) > 0
    ensures Encode(c) == b[..CharLen(b)]
  {
    var n := CharLen(b);
    if n == 1 {
      c := b[0];
    } else if n == 2 {
      c := TwoBytes(b);
    } else if n == 3 {
      c := ThreeBytes(b);
    } else {
      c := FourBytes(b);
    }
  }

  lemma TwoBytes(b: Bytes) returns (c: Scalar)
    requires CharLen(b) == 2
    ensures Encode(c) == b[..2]
  {
    var lead: int, second: int := b[0] - 0xC0, b[1] - 0x80;
    c := 64 * lead + second;
    SixBits(0, 0, lead, second);
    assert b[..2] == [b[0], b[1]];
  }

  lemma ThreeBytes(b: Bytes) returns (c: Scalar)
    requires CharLen(b) == 3
    ensures Encode(c) == b[..3]
  {
    var lead: int, second: int, third: int := b[0] - 0xE0, b[1] - 0x80, b[2] - 0x80;
    c := 4096 * lead + 64 * second + third;
    SixBits(0, lead, second, third);
    assert c / 4096 == lead;
    assert b[..3] == [b[0], b[1], b[2]];
  }

  lemma FourBytes(b: Bytes) returns (c: Scalar)
    requires CharLen(b) == 4
    ensures Encode(c) == b[..4]
  {
    var lead: int, second: int, third: int, fourth: int := b[0] - 0xF0, b[1] - 0x80, b[2] - 0x80, b[3] - 0x80;
    c := 0x4_0000 * lead + 4096 * second + 64 * third + fourth;
    SixBits(lead, second, third, fourth);
    assert b[..4] == [b[0], b[1], b[2], b[3]];
  }

  /** Text is exactly what encoding some sequence of characters gives. */
  lemma TextExactly(b: Bytes)
    ensures IsText(b) <==> exists cs: seq<Scalar> :: b == EncodeAll(cs)
  {
    if IsText(b) {
      var cs := Characters(b);
    }
    if cs: seq<Scalar> :| b == EncodeAll(cs) {
      EncodedIsText(cs);
    }
  }

  lemma {:induction false} Characters(b: Bytes) returns (cs: seq<Scalar>)
    requires IsText(b)
    ensures b == EncodeAll(cs)
  {
    if b == [] {
      cs := [];
    } else {
      var n := CharLen(b);
      var c := CharIsEncoded(b);
      cs := Characters(b[n..]);
      assert b == b[..n] + b[n..];
      cs := [c] + cs;
    }
  }

  lemma {:induction false} EncodedIsText(cs: seq<Scalar>)
    ensures IsText(EncodeAll(cs))
  {
    if cs != [] {
      EncodedIsText(cs[1..]);
      var rest := EncodeAll(cs[1..]);
      EncodedIsChar(cs[0], rest);
      assert (Encode(cs[0]) + rest)[|Encode(cs[0])|..] == rest;
    }
  }
}
