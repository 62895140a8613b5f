/** The text hashed into the salt of a derived AES key (src/keygen.rs), on UTF-8 bytes. */
module AesSalt {
  import opened ByteStrings
  import opened Outcomes
  import opened Utf8
  import SaltEncoding

  /** "cry:derive:aes256gcm|ns=", "|ver=" and "|sub=". */
  const PREFIX: Bytes := [
    0x63, 0x72, 0x79, 0x3a, 0x64, 0x65, 0x72, 0x69, 0x76, 0x65, 0x3a, 0x61, 0x65, 0x73, 0x32, 0x35, 0x36,
    0x67, 0x63, 0x6d, 0x7c, 0x6e, 0x73, 0x3d]
  const VER: Bytes := [0x7c, 0x76, 0x65, 0x72, 0x3d]
  const SUB: Bytes := [0x7c, 0x73, 0x75, 0x62, 0x3d]
  const BAR: byte := 0x7c

  // ---- decimal numbers ------------------------------------------------------------------

  function DigitOf(v: nat): (c: byte)
    requires v < 10
    ensures 0x30 <= c <= 0x39
  {
    0x30 + v
  }

  /** `{}` of an unsigned integer. */
  function Decimal(n: nat): (d: Bytes)
    ensures d != [] && forall k :: 0 <= k < |d| ==> 0x30 <= d[k] <= 0x39
  {
    if n < 10 then [DigitOf(n)] else Decimal(n / 10) + [DigitOf(n % 10)]
  }

  function Undecimal(d: Bytes): int {
    if d == [] then 0 else 10 * Undecimal(d[..|d| - 1]) + d[|d| - 1] as int - 0x30
  }

  lemma {:induction false} UndecimalOfDecimal(n: nat)
    ensures Undecimal(Decimal(n)) == n
  {
    if n < 10 {
      assert Decimal(n)[..0] == [];
    } else {
      UndecimalOfDecimal(n / 10);
      assert Decimal(n)[..|Decimal(n)| - 1] == Decimal(n / 10);
    }
  }

  lemma DecimalInjective(m: nat, n: nat)
    requires Decimal(m) == Decimal(n)
    ensures m == n
  {
    UndecimalOfDecimal(m);
    UndecimalOfDecimal(n);
  }

  /** Printing digit by digit: these laws leave no other way. */
  lemma DecimalLaws(n: nat, d: nat)
    requires d < 10
    ensures Spells(Decimal(d), ["0123456789"[d]])
    ensures n > 0 ==> Decimal(10 * n + d) == Decimal(n) + Decimal(d)
  {
  }

  // ---- the salt input -------------------------------------------------------------------

  function SubPart(sub: Option<Bytes>): Bytes {
    match sub case None => [] case Some(s) => s
  }

  function Suffix(version: u32, sub: Option<Bytes>): Bytes {
    VER + Decimal(version) + SUB + SubPart(sub)
  }

  function SaltInput(namespace: Bytes, version: u32, sub: Option<Bytes>): Bytes {
    PREFIX + namespace + Suffix(version, sub)
  }

  /** Everything that is hashed, in its place. */
  lemma SaltInputLayout(namespace: Bytes, version: u32, sub: Option<Bytes>)
    ensures var t, n, d := SaltInput(namespace, version, sub), |namespace|, |Decimal(version)|;
            && |t| >= 34 + n + d
            && Spells(t[..24], "cry:derive:aes256gcm|ns=") && t[24..24 + n] == namespace
            && var rest := t[24 + n..];
               && Spells(rest[..5], "|ver=") && rest[5..5 + d] == Decimal(version)
               && Spells(rest[5 + d..10 + d], "|sub=")
               && rest[10 + d..] == if sub.Some? then sub.value else []
  {
    var t, n := SaltInput(namespace, version, sub), |namespace|;
    SuffixLayout(version, sub);
    Marks();
    assert t[..24] == PREFIX && t[24..24 + n] == namespace && t[24 + n..] == Suffix(version, sub);
  }

  lemma SuffixLayout(version: u32, sub: Option<Bytes>)
    ensures var x, d := Suffix(version, sub), |Decimal(version)|;
            && |x| >= 10 + d
            && Spells(x[..5], "|ver=") && x[5..5 + d] == Decimal(version) && Spells(x[5 + d..10 + d], "|sub=")
            && x[10 + d..] == if sub.Some? then sub.value else []
  {
    var x, d := Suffix(version, sub), |Decimal(version)|;
    SuffixBytes(version, sub);
    Marks();
    assert x[..5] == VER && x[5 + d..10 + d] == SUB;
  }

  lemma Marks()
    ensures Spells(PREFIX, "cry:derive:aes256gcm|ns=") && Spells(VER, "|ver=") && Spells(SUB, "|sub=")
  {
  }

  /** An AES key and an identity never hash the same salt input, whatever their contexts. */
  lemma DomainsSeparate(
      n1: Bytes, v1: u32, s1: Option<Bytes>, n2: Bytes, v2: u32, s2: Option<Bytes>)
    ensures SaltInput(n1, v1, s1) != SaltEncoding.Preimage(n2, v2, s2)
  {
    assert SaltInput(n1, v1, s1)[0] == PREFIX[0];
    assert SaltEncoding.Preimage(n2, v2, s2)[0] == SaltEncoding.DOMAIN[0];
  }

  /** Where the bars of a suffix are: the mark, then digits only, then the second mark. */
  lemma SuffixBytes(version: u32, sub: Option<Bytes>)
    ensures var t, d := Suffix(version, sub), Decimal(version);
            && |t| == 10 + |d| + |SubPart(sub)|
            && t[0] == BAR && t[1] == 0x76 && t[2] == 0x65 && t[3] == 0x72 && t[4] == 0x3d
            && t[5..5 + |d|] == d
            && (forall k :: 5 <= k < 5 + |d| ==> 0x30 <= t[k] <= 0x39)
            && t[5 + |d|] == BAR && t[6 + |d|] == 0x73 && t[7 + |d|] == 0x75
            && t[8 + |d|] == 0x62 && t[9 + |d|] == 0x3d
            && t[10 + |d|..] == SubPart(sub)
            && t[..10 + |d|] == VER + Decimal(version) + SUB
  {
    var t, d := Suffix(version, sub), Decimal(version);
    assert t == VER + d + SUB + SubPart(sub);
    assert forall k :: 0 <= k < 5 ==> t[k] == VER[k];
    assert forall k :: 5 <= k < 5 + |d| ==> t[k] == d[k - 5];
    assert forall k :: 5 + |d| <= k < 10 + |d| ==> t[k] == SUB[k - 5 - |d|];
  }

  /** Within one namespace only an absent and an empty sub-identity are identified. */
  lemma OneNamespaceIff(n: Bytes, v1: u32, s1: Option<Bytes>, v2: u32, s2: Option<Bytes>)
    ensures SaltInput(n, v1, s1) == SaltInput(n, v2, s2) <==> v1 == v2 && SubPart(s1) == SubPart(s2)
  {
    if SaltInput(n, v1, s1) == SaltInput(n, v2, s2) {
      StripFront(PREFIX, n, Suffix(v1, s1), n, Suffix(v2, s2));
      assert n[|n|..] + Suffix(v2, s2) == Suffix(v2, s2);
      SuffixInjective(v1, s1, v2, s2);
    }
  }

  lemma SuffixInjective(v1: u32, s1: Option<Bytes>, v2: u32, s2: Option<Bytes>)
    requires Suffix(v1, s1) == Suffix(v2, s2)
    ensures v1 == v2 && SubPart(s1) == SubPart(s2)
  {
    SuffixBytes(v1, s1);
    SuffixBytes(v2, s2);
    assert Suffix(v1, s1)[5 + |Decimal(v1)|] == BAR && Suffix(v2, s2)[5 + |Decimal(v2)|] == BAR;
    assert |Decimal(v1)| == |Decimal(v2)|;
    DecimalInjective(v1, v2);
  }

  /** x begins as a version and a sub-identity mark do. */
  ghost predicate Bridges(x: Bytes) {
    exists v: u32 :: VER + Decimal(v) + SUB <= x
  }

  ghost predicate Extends(n1: Bytes, n2: Bytes) {
    n1 <= n2 && Bridges(n2[|n1|..])
  }

  lemma CollisionBridges(x: Bytes, v1: u32, s1: Option<Bytes>, v2: u32, s2: Option<Bytes>)
    requires x != [] && Suffix(v1, s1) == x + Suffix(v2, s2)
    ensures Bridges(x)
  {
    var t1, t2 := Suffix(v1, s1), Suffix(v2, s2);
    SuffixBytes(v2, s2);
    assert t1[|x|] == t2[0] && t1[|x| + 1] == t2[1];
    NoEarlyVersionMark(v1, s1, |x|);
    assert x == t1[..|x|];
    assert VER + Decimal(v1) + SUB <= x;
  }

  /** Inside a suffix, "|v" can start again only in the sub-identity. */
  lemma NoEarlyVersionMark(version: u32, sub: Option<Bytes>, k: nat)
    requires 0 < k && k + 1 < |Suffix(version, sub)|
    requires Suffix(version, sub)[k] == BAR && Suffix(version, sub)[k + 1] == 0x76
    ensures k >= 10 + |Decimal(version)|
    ensures VER + Decimal(version) + SUB <= Suffix(version, sub)[..k]
  {
    var t, d := Suffix(version, sub), |Decimal(version)|;
    SuffixBytes(version, sub);
    assert k >= 5;
    assert k >= 5 + d;
    assert k >= 10 + d;
    assert t[..k][..10 + d] == t[..10 + d];
  }

  lemma BridgeCollides(x: Bytes) returns (v1: u32, s1: Option<Bytes>, v2: u32, s2: Option<Bytes>)
    requires Bridges(x)
    ensures Suffix(v1, s1) == x + Suffix(v2, s2)
    ensures VER + Decimal(v1) + SUB <= x
    ensures s1 == Some(x[|VER + Decimal(v1) + SUB|..] + Suffix(0, None)) && s2 == None
  {
    v1 :| VER + Decimal(v1) + SUB <= x;
    v2, s2 := 0, None;
    var front, t2 := VER + Decimal(v1) + SUB, Suffix(v2, s2);
    var rest := x[|front|..];
    s1 := Some(rest + t2);
    assert x == front + rest;
    Regroup(front, rest, t2);
  }

  /** Two different namespaces share a salt input exactly when one continues the other as a suffix begins. */
  lemma NamespacesConfusedIff(n1: Bytes, n2: Bytes)
    requires n1 != n2
    ensures (exists v1: u32, s1, v2: u32, s2 :: SaltInput(n1, v1, s1) == SaltInput(n2, v2, s2))
       <==> Extends(n1, n2) || Extends(n2, n1)
  {
    if v1: u32, s1, v2: u32, s2 :| SaltInput(n1, v1, s1) == SaltInput(n2, v2, s2) {
      if |n1| <= |n2| {
        CollisionExtends(n1, v1, s1, n2, v2, s2);
      } else {
        CollisionExtends(n2, v2, s2, n1, v1, s1);
      }
    }
    if Extends(n1, n2) {
      var v1, s1, v2, s2 := BridgeCollides(n2[|n1|..]);
      SameInput(n1, v1, s1, n2, v2, s2);
    }
    if Extends(n2, n1) {
      var v2, s2, v1, s1 := BridgeCollides(n1[|n2|..]);
      SameInput(n2, v2, s2, n1, v1, s1);
    }
  }

  /** The same if namespaces and sub-identities are text. */
  lemma TextNamespacesConfusedIff(n1: Bytes, n2: Bytes)
    requires n1 != n2 && IsText(n1) && IsText(n2)
    ensures (exists v1: u32, s1, v2: u32, s2 ::
               IsTextOrNone(s1) && IsTextOrNone(s2) && SaltInput(n1, v1, s1) == SaltInput(n2, v2, s2))
       <==> Extends(n1, n2) || Extends(n2, n1)
  {
    NamespacesConfusedIff(n1, n2);
    if Extends(n1, n2) {
      var v1, s1, v2, s2 := TextCollision(n1, n2);
    }
    if Extends(n2, n1) {
      var v2, s2, v1, s1 := TextCollision(n2, n1);
    }
  }

  lemma TextCollision(n1: Bytes, n2: Bytes) returns (v1: u32, s1: Option<Bytes>, v2: u32, s2: Option<Bytes>)
    requires Extends(n1, n2) && IsText(n2)
    ensures IsTextOrNone(s1) && IsTextOrNone(s2) && SaltInput(n1, v1, s1) == SaltInput(n2, v2, s2)
  {
    var x := n2[|n1|..];
    v1, s1, v2, s2 := BridgeCollides(x);
    SameInput(n1, v1, s1, n2, v2, s2);
    var front := VER + Decimal(v1) + SUB;
    var k := |n1| + |front| - 1;
    assert n2[k] == x[|front| - 1] == front[|front| - 1] == 0x3d;
    TextAfterAscii(n2, k);
    assert n2[k + 1..] == x[|front|..];
    ZeroSuffixIsText();
    TextConcat(x[|front|..], Suffix(0, None));
  }

  lemma ZeroSuffixIsText()
    ensures IsText(Suffix(0, None))
  {
    var t := Suffix(0, None);
    assert t == [0x7c, 0x76, 0x65, 0x72, 0x3d, 0x30, 0x7c, 0x73, 0x75, 0x62, 0x3d];
    AsciiIsText(t);
  }

  /** So "a" with sub-identity "|ver=0|sub=" and "a|ver=0|sub=" with none get the same salt. */
  lemma BarCollision()
    ensures SaltInput([0x61], 0, Some([0x7c, 0x76, 0x65, 0x72, 0x3d, 0x30, 0x7c, 0x73, 0x75, 0x62, 0x3d]))
         == SaltInput([0x61, 0x7c, 0x76, 0x65, 0x72, 0x3d, 0x30, 0x7c, 0x73, 0x75, 0x62, 0x3d], 0, None)
  {
    var x: Bytes := [0x7c, 0x76, 0x65, 0x72, 0x3d, 0x30, 0x7c, 0x73, 0x75, 0x62, 0x3d];
    assert x == VER + Decimal(0) + SUB;
    assert Suffix(0, Some(x)) == x + x;
    assert Suffix(0, None) == x;
    assert [0x61] + (x + x) == [0x61] + x + x;
  }

  lemma CollisionExtends(
      n1: Bytes, v1: u32, s1: Option<Bytes>, n2: Bytes, v2: u32, s2: Option<Bytes>)
    requires n1 != n2 && |n1| <= |n2| && SaltInput(n1, v1, s1) == SaltInput(n2, v2, s2)
    ensures Extends(n1, n2)
  {
    StripFront(PREFIX, n1, Suffix(v1, s1), n2, Suffix(v2, s2));
    assert n1 + n2[|n1|..] == n2;
    CollisionBridges(n2[|n1|..], v1, s1, v2, s2);
  }

  lemma SameInput(
      n1: Bytes, v1: u32, s1: Option<Bytes>, n2: Bytes, v2: u32, s2: Option<Bytes>)
    requires n1 <= n2 && Suffix(v1, s1) == n2[|n1|..] + Suffix(v2, s2)
    ensures SaltInput(n1, v1, s1) == SaltInput(n2, v2, s2)
  {
    RestoreFront(PREFIX, n1, Suffix(v1, s1), n2, Suffix(v2, s2));
  }

  /** Over namespaces without a bar the input determines everything, up to an absent sub-identity being empty. */
  lemma BarFreeInjective(
      n1: Bytes, v1: u32, s1: Option<Bytes>, n2: Bytes, v2: u32, s2: Option<Bytes>)
    requires BAR !in n1 && BAR !in n2
    ensures SaltInput(n1, v1, s1) == SaltInput(n2, v2, s2)
       <==> n1 == n2 && v1 == v2 && SubPart(s1) == SubPart(s2)
  {
    OneNamespaceIff(n1, v1, s1, v2, s2);
    if n1 != n2 && SaltInput(n1, v1, s1) == SaltInput(n2, v2, s2) {
      NamespacesConfusedIff(n1, n2);
      ExtensionHasBar(n1, n2);
      ExtensionHasBar(n2, n1);
      assert false;
    }
  }

  lemma ExtensionHasBar(n1: Bytes, n2: Bytes)
    ensures Extends(n1, n2) ==> BAR in n2
  {
    if Extends(n1, n2) {
      var x := n2[|n1|..];
      var v: u32 :| VER + Decimal(v) + SUB <= x;
      assert x[0] == (VER + Decimal(v) + SUB)[0] == BAR;
      assert n2[|n1|] == x[0];
    }
  }
}
