/**
 Byte strings and their big-endian reading: what `to_be_bytes` and `from_be_bytes`
 do for any width, with the two laws that make them mutually inverse.
 */
module ByteStrings {

  type byte = b: int | 0 <= b < 256
  type Bytes = seq<byte>

  type u32 = x: int | 0 <= x < 0x1_0000_0000
  type u64 = x: int | 0 <= x < 0x1_0000_0000_0000_0000

  const TWO32: nat := 0x1_0000_0000
  const TWO64: nat := 0x1_0000_0000_0000_0000
  const TWO96: nat := 0x1_0000_0000_0000_0000_0000_0000

  /** 256 to the power `len`: how many values fit in `len` bytes. */
  function Pow256(len: nat): (p: nat)
    ensures p >= 1
  {
    if len == 0 then 1 else 256 * Pow256(len - 1)
  }

  /** The `len` low-order bytes of `n`, most significant first. */
  function ToBE(n: nat, len: nat): (b: Bytes)
    ensures |b| == len
  {
    if len == 0 then [] else ToBE(n / 256, len - 1) + [n % 256]
  }

  /** The number a byte string denotes, most significant byte first. */
  function FromBE(b: Bytes): (n: nat)
  {
    if b == [] then 0 else 256 * FromBE(b[..|b| - 1]) + b[|b| - 1]
  }

  lemma PowerValues()
    ensures Pow256(4) == TWO32 && Pow256(8) == TWO64 && Pow256(12) == TWO96
  {
  }

  /** A nonzero multiple of `d` is at least `d` away from zero. */
  lemma MultipleIsFar(d: int, k: int)
    requires d > 0 && k != 0
    ensures d * k >= d || d * k <= -d
  {
  }

  /** A quotient and an in-range remainder determine `/` and `%`. */
  lemma ModUnique(n: int, d: int, q: int, r: int)
    requires 0 <= r < d
    requires n == d * q + r
    ensures n % d == r && n / d == q
  {
    var q', r' := n / d, n % d;
    assert n == d * q' + r' && 0 <= r' < d;
    assert d * (q - q') == r' - r by {
      assert d * (q - q') == d * q - d * q';
    }
    if q != q' {
      MultipleIsFar(d, q - q');
    }
  }

  lemma {:induction false} FromBEBound(b: Bytes)
    ensures FromBE(b) < Pow256(|b|)
  {
    if b != [] {
      FromBEBound(b[..|b| - 1]);
    }
  }

  /** Splitting off the low byte commutes with cutting to a width. */
  lemma ModOfProduct(n: nat, p: nat)
    requires p > 0
    ensures n % (256 * p) == 256 * (n / 256 % p) + n % 256
  {
    var m := n / 256;
    var a, b := m / p, m % p;
    assert m == p * a + b;
    assert (256 * p) * a == 256 * (p * a);
    ModUnique(n, 256 * p, a, 256 * b + n % 256);
  }

  /** Reading back what was written keeps the number, cut to the width. */
  lemma {:induction false} FromToBE(n: nat, len: nat)
    ensures FromBE(ToBE(n, len)) == n % Pow256(len)
  {
    if len == 0 {
    } else {
      var p := Pow256(len - 1);
      FromToBE(n / 256, len - 1);
      assert ToBE(n, len)[..len - 1] == ToBE(n / 256, len - 1);
      ModOfProduct(n, p);
    }
  }

  /** Writing back what was read gives the same bytes. */
  lemma {:induction false} ToFromBE(b: Bytes)
    ensures ToBE(FromBE(b), |b|) == b
  {
    if b != [] {
      var front, last := b[..|b| - 1], b[|b| - 1];
      ToFromBE(front);
      ModUnique(FromBE(b), 256, FromBE(front), last);
      assert b == front + [last];
    }
  }

  /** Numbers that fit are written injectively. */
  lemma ToBEInjective(m: nat, n: nat, len: nat)
    requires m < Pow256(len) && n < Pow256(len)
    requires ToBE(m, len) == ToBE(n, len)
    ensures m == n
  {
    FromToBE(m, len);
    FromToBE(n, len);
    ModUnique(m, Pow256(len), 0, m);
    ModUnique(n, Pow256(len), 0, n);
  }

  /** Numbers that fit are read back unchanged. */
  lemma FromToBEFits(n: nat, len: nat)
    requires n < Pow256(len)
    ensures FromBE(ToBE(n, len)) == n
  {
  }

  /** A concatenation denotes its halves, the first one shifted. */
  lemma {:induction false} FromBEConcat(a: Bytes, b: Bytes)
    ensures FromBE(a + b) == FromBE(a) * Pow256(|b|) + FromBE(b)
  {
    if b == [] {
      assert a + b == a;
    } else {
      var front := b[..|b| - 1];
      FromBEConcat(a, front);
      assert (a + b)[..|a + b| - 1] == a + front;
      ScaleThrough(FromBE(a), Pow256(|front|), FromBE(front));
    }
  }

  /** Four bytes make a 32-bit number, the first one counting most. */
  lemma WordValue(a: byte, b: byte, c: byte, d: byte)
    ensures FromBE([a, b, c, d]) == 0x100_0000 * a + 0x1_0000 * b + 0x100 * c + d
  {
    assert [a, b, c, d][..3] == [a, b, c] && [a, b, c][..2] == [a, b] && [a, b][..1] == [a];
    assert FromBE([a]) == a;
    assert FromBE([a, b]) == 256 * a + b;
    assert FromBE([a, b, c]) == 0x1_0000 * a + 0x100 * b + c;
  }

  /** The bytes of an ASCII text. */
  predicate Spells(b: Bytes, text: string) {
    |b| == |text| && forall k :: 0 <= k < |b| ==> b[k] == text[k] as int
  }

  lemma ScaleThrough(x: nat, p: nat, y: nat)
    ensures 256 * (x * p + y) == x * (256 * p) + 256 * y
  {
  }

  lemma Regroup(a: Bytes, b: Bytes, c: Bytes)
    ensures a + (b + c) == a + b + c
  {
  }

  /** Equal strings with a common front: the shorter middle is a prefix of the longer one. */
  lemma StripFront(p: Bytes, a: Bytes, s: Bytes, b: Bytes, t: Bytes)
    requires p + a + s == p + b + t && |a| <= |b|
    ensures a <= b && s == b[|a|..] + t
  {
    assert (p + a + s)[|p|..] == a + s && (p + b + t)[|p|..] == b + t;
    assert a == (a + s)[..|a|] == b[..|a|];
    assert s == (a + s)[|a|..] == (b + t)[|a|..];
  }

  lemma RestoreFront(p: Bytes, a: Bytes, s: Bytes, b: Bytes, t: Bytes)
    requires a <= b && s == b[|a|..] + t
    ensures p + a + s == p + b + t
  {
  }
}
