/** The per-chunk nonce of src/cipher.rs: a 96-bit counter kept in two machine words. */
module ChunkNonces {
  import opened ByteStrings

  type Nonce = b: Bytes | |b| == 12 witness seq(12, _ => 0)

  /** The meaning: the base nonce, read as a 96-bit number, plus the chunk index. */
  function ChunkNonce(base: Nonce, index: nat): (n: Nonce)
  {
    ToBE((FromBE(base) + index) % TWO96, 12)
  }

  /** The computation: add with carry on a 32-bit and a 64-bit half, then copy both into a buffer. */
  method DeriveChunkNonce(base: Nonce, index: u64) returns (nonce: Nonce)
    ensures nonce == ChunkNonce(base, index)
  {
    var hi: u32, lo: u64 := LoadHalves(base);
    var sum := lo + index;
    var newLo: u64, carry := if sum < TWO64 then sum else sum - TWO64, if sum < TWO64 then 0 else 1;
    var newHi: u32 := if hi + carry < TWO32 then hi + carry else 0;
    var n := new byte[12](_ => 0);
    var hiBytes, loBytes := ToBE(newHi, 4), ToBE(newLo, 8);
    forall i | 0 <= i < 4 { n[i] := hiBytes[i]; }
    forall i | 4 <= i < 12 { n[i] := loBytes[i - 4]; }
    nonce := n[..];
    assert nonce == hiBytes + loBytes;
    CarryIsAddition(base, index, hi, lo, newHi, newLo);
  }

  method LoadHalves(base: Nonce) returns (hi: u32, lo: u64)
    ensures hi == FromBE(base[0..4]) && lo == FromBE(base[4..12])
    ensures FromBE(base) == hi * TWO64 + lo
  {
    PowerValues();
    FromBEBound(base[0..4]);
    FromBEBound(base[4..12]);
    hi, lo := FromBE(base[0..4]), FromBE(base[4..12]);
    FromBEConcat(base[0..4], base[4..12]);
    assert base == base[0..4] + base[4..12];
  }

  /** Adding word by word with a carry, dropping the carry out, is addition modulo 2^96. */
  lemma CarryIsAddition(base: Nonce, index: u64, hi: u32, lo: u64, newHi: u32, newLo: u64)
    requires FromBE(base) == hi * TWO64 + lo
    requires newLo == if lo + index < TWO64 then lo + index else lo + index - TWO64
    requires newHi == (var c := if lo + index < TWO64 then 0 else 1; if hi + c < TWO32 then hi + c else 0)
    ensures ToBE(newHi, 4) + ToBE(newLo, 8) == ChunkNonce(base, index)
  {
    var total := FromBE(base) + index;
    var value := newHi * TWO64 + newLo;
    assert value == total || value == total - TWO96;
    ModUnique(total, TWO96, if value == total then 0 else 1, value);
    JoinHalves(newHi, newLo);
    ToFromBE(ToBE(newHi, 4) + ToBE(newLo, 8));
  }

  lemma JoinHalves(hi: u32, lo: u64)
    ensures FromBE(ToBE(hi, 4) + ToBE(lo, 8)) == hi * TWO64 + lo
  {
    PowerValues();
    FromBEConcat(ToBE(hi, 4), ToBE(lo, 8));
    FromToBEFits(hi, 4);
    FromToBEFits(lo, 8);
  }

  /** Read as a number, the nonce is the base plus the index, modulo 2^96. */
  lemma ChunkNonceValue(base: Nonce, index: nat)
    ensures FromBE(ChunkNonce(base, index)) == (FromBE(base) + index) % TWO96
  {
    PowerValues();
    FromToBEFits((FromBE(base) + index) % TWO96, 12);
  }

  /** Two (base, index) pairs share a nonce exactly when base + index agree modulo 2^96. */
  lemma NoncesCoincideIff(base1: Nonce, i: u64, base2: Nonce, j: u64)
    ensures ChunkNonce(base1, i) == ChunkNonce(base2, j)
       <==> (FromBE(base1) - FromBE(base2)) % TWO96 == (j - i) % TWO96
  {
    NoncesByValue(base1, i, base2, j);
    CongruentSums(FromBE(base1), i, FromBE(base2), j, TWO96);
  }

  lemma NoncesByValue(base1: Nonce, i: nat, base2: Nonce, j: nat)
    ensures ChunkNonce(base1, i) == ChunkNonce(base2, j)
       <==> (FromBE(base1) + i) % TWO96 == (FromBE(base2) + j) % TWO96
  {
    ChunkNonceValue(base1, i);
    ChunkNonceValue(base2, j);
  }

  lemma CongruentSums(a: int, i: int, b: int, j: int, m: int)
    requires m > 0
    ensures (a + i) % m == (b + j) % m <==> (a - b) % m == (j - i) % m
  {
    SameRemainder(a + i, b + j, m);
    SameRemainder(a - b, j - i, m);
  }

  /** Equal remainders mean the difference is a multiple. */
  lemma SameRemainder(x: int, y: int, m: int)
    requires m > 0
    ensures x % m == y % m <==> (x - y) % m == 0
  {
    var qx, qy := x / m, y / m;
    var d := x % m - y % m;
    assert x - y == m * (qx - qy) + d;
    if d >= 0 {
      ModUnique(x - y, m, qx - qy, d);
    } else {
      assert x - y == m * (qx - qy - 1) + (d + m);
      ModUnique(x - y, m, qx - qy - 1, d + m);
    }
  }

  /** Under one base, different 64-bit indices never share a nonce: a counter never repeats, wrap or not. */
  lemma NonceInjective(base: Nonce, i: u64, j: u64)
    requires ChunkNonce(base, i) == ChunkNonce(base, j)
    ensures i == j
  {
    NoncesCoincideIff(base, i, base, j);
    if i <= j {
      ModUnique(j - i, TWO96, 0, j - i);
    } else {
      ModUnique(j - i, TWO96, -1, j - i + TWO96);
    }
  }

  /**
     Two files of n1 and n2 chunks share some nonce exactly when, around the 2^96 circle, one base
     lies fewer than the other file's number of chunks after the other base.
   */
  lemma CountersOverlapIff(base1: Nonce, n1: nat, base2: Nonce, n2: nat)
    requires 0 < n1 <= TWO64 && 0 < n2 <= TWO64
    ensures (exists i: u64, j: u64 :: i < n1 && j < n2 && ChunkNonce(base1, i) == ChunkNonce(base2, j))
       <==> || (FromBE(base2) - FromBE(base1)) % TWO96 < n1
            || (FromBE(base1) - FromBE(base2)) % TWO96 < n2
  {
    var d, e := (FromBE(base2) - FromBE(base1)) % TWO96, (FromBE(base1) - FromBE(base2)) % TWO96;
    if i: u64, j: u64 :| i < n1 && j < n2 && ChunkNonce(base1, i) == ChunkNonce(base2, j) {
      if i >= j { CounterDistance(base1, i, base2, j); } else { CounterDistance(base2, j, base1, i); }
    }
    if d < n1 { MeetsBase(base1, base2, d); }
    if e < n2 { MeetsBase(base2, base1, e); }
  }

  lemma CounterDistance(base1: Nonce, i: u64, base2: Nonce, j: u64)
    requires i >= j && ChunkNonce(base1, i) == ChunkNonce(base2, j)
    ensures (FromBE(base2) - FromBE(base1)) % TWO96 == i - j
  {
    NoncesCoincideIff(base2, j, base1, i);
    ModUnique(i - j, TWO96, 0, i - j);
  }

  lemma MeetsBase(base1: Nonce, base2: Nonce, d: u64)
    requires d == (FromBE(base2) - FromBE(base1)) % TWO96
    ensures ChunkNonce(base1, d) == ChunkNonce(base2, 0)
  {
    ModUnique(d, TWO96, 0, d);
    NoncesCoincideIff(base2, 0, base1, d);
  }
}
