/**
 The bytes hashed into the Argon2 salt of a CryDNA identity (src/crydna.rs), and exactly which
 namespaces can be confused.
 */
module SaltEncoding {
  import opened ByteStrings
  import opened Outcomes
  import opened Crypto
  import opened Utf8

  // ---- the identity salt ------------------------------------------------------------------

  /** "CryDNA-v1", ":v" and ":sub:". */
  const DOMAIN: Bytes := [0x43, 0x72, 0x79, 0x44, 0x4e, 0x41, 0x2d, 0x76, 0x31]
  const VERSION_MARK: Bytes := [0x3a, 0x76]
  const SUB_MARK: Bytes := [0x3a, 0x73, 0x75, 0x62, 0x3a]
  const COLON: byte := 0x3a

  /** Everything after the namespace. */
  function Suffix(version: u32, sub: Option<Bytes>): Bytes {
    VERSION_MARK + ToBE(version, 4) + (match sub case None => [] case Some(s) => SUB_MARK + s)
  }

  function Preimage(namespace: Bytes, version: u32, sub: Option<Bytes>): Bytes {
    DOMAIN + [COLON] + namespace + Suffix(version, sub)
  }

  /** `derive_salt`. */
  method DeriveSalt(suite: Suite, namespace: Bytes, version: u32, sub: Option<Bytes>) returns (salt: Bytes)
    ensures salt == suite.sha256(Preimage(namespace, version, sub))[..16] && |salt| == 16
  {
    var h := new Hasher(suite);
    h.Update(DOMAIN);
    h.Update([COLON]);
    h.Update(namespace);
    h.Update(VERSION_MARK);
    h.Update(ToBE(version, 4));
    if sub.Some? {
      h.Update(SUB_MARK);
      h.Update(sub.value);
    }
    PreimageInOrder(namespace, version, sub);
    var digest := h.Finish();
    salt := digest[..16];
  }

  lemma PreimageInOrder(namespace: Bytes, version: u32, sub: Option<Bytes>)
    ensures var front := [] + DOMAIN + [COLON] + namespace + VERSION_MARK + ToBE(version, 4);
            Preimage(namespace, version, sub) == if sub.Some? then front + SUB_MARK + sub.value else front
  {
    assert [] + DOMAIN == DOMAIN;
    if sub.None? { assert Suffix(version, sub) == VERSION_MARK + ToBE(version, 4); }
  }

  lemma SuffixBytes(version: u32, sub: Option<Bytes>)
    ensures var t := Suffix(version, sub);
            && |t| >= 6 && t[0] == COLON && t[1] == 0x76 && t[2..6] == ToBE(version, 4)
            && (sub.None? <==> |t| == 6)
            && (sub.Some? ==>
                  && |t| >= 11 && t[6..11] == SUB_MARK && t[11..] == sub.value
                  && t[6] == COLON && t[7] == 0x73 && t[8] == 0x75 && t[9] == 0x62 && t[10] == COLON)
  {
    var t := Suffix(version, sub);
    if sub.Some? {
      assert t == VERSION_MARK + ToBE(version, 4) + SUB_MARK + sub.value;
    }
  }

  /** Everything that is hashed, in its place. */
  lemma PreimageLayout(namespace: Bytes, version: u32, sub: Option<Bytes>)
    ensures var t, n := Preimage(namespace, version, sub), |namespace|;
            && |t| >= 16 + n
            && Spells(t[..10], "CryDNA-v1:") && t[10..10 + n] == namespace
            && var rest := t[10 + n..];
               && Spells(rest[..2], ":v") && FromBE(rest[2..6]) == version
               && (sub.None? ==> |rest| == 6)
               && (sub.Some? ==> |rest| >= 11 && Spells(rest[6..11], ":sub:") && rest[11..] == sub.value)
  {
    var t, n := Preimage(namespace, version, sub), |namespace|;
    SuffixBytes(version, sub);
    PowerValues();
    FromToBEFits(version, 4);
    assert t[..10] == DOMAIN + [COLON] && t[10..10 + n] == namespace && t[10 + n..] == Suffix(version, sub);
  }

  /** Within one namespace nothing is confused, not even an absent sub-identity with an empty one. */
  lemma OneNamespaceInjective(n: Bytes, v1: u32, s1: Option<Bytes>, v2: u32, s2: Option<Bytes>)
    requires Preimage(n, v1, s1) == Preimage(n, v2, s2)
    ensures v1 == v2 && s1 == s2
  {
    StripFront(DOMAIN + [COLON], n, Suffix(v1, s1), n, Suffix(v2, s2));
    assert n[|n|..] + Suffix(v2, s2) == Suffix(v2, s2);
    SuffixBytes(v1, s1);
    SuffixBytes(v2, s2);
    PowerValues();
    ToBEInjective(v1, v2, 4);
  }

  /**
     The tails of a namespace that some other encoding can produce: ":v" and two bytes; or ":v",
     four bytes and ":sub", followed by nothing or by ":" and anything.
   */
  predicate Bridges(x: Bytes) {
    && |x| >= 4
    && x[..2] == VERSION_MARK
    && (|x| == 4 || (|x| >= 10 && x[6..10] == SUB_MARK[..4] && (|x| == 10 || x[10] == COLON)))
  }

  /** n2 is n1 with a tail that makes the two confusable. */
  predicate Extends(n1: Bytes, n2: Bytes) {
    n1 <= n2 && Bridges(n2[|n1|..])
  }

  lemma CollisionBridges(x: Bytes, v1: u32, s1: Option<Bytes>, v2: u32, s2: Option<Bytes>)
    requires x != [] && Suffix(v1, s1) == x + Suffix(v2, s2)
    ensures Bridges(x)
  {
    var t1, t2 := Suffix(v1, s1), Suffix(v2, s2);
    SuffixBytes(v2, s2);
    assert t1[|x|] == t2[0] && t1[|x| + 1] == t2[1];
    assert |t2| > 6 ==> t1[|x| + 6] == t2[6] == COLON;
    VersionMarks(v1, s1, |x|);
    assert x == t1[..|x|];
  }

  /** A second ":v" starts four bytes in, or past ":sub"; closer starts clash with the rest of the mark. */
  lemma VersionMarks(version: u32, sub: Option<Bytes>, k: nat)
    requires 0 < k && k + 6 <= |Suffix(version, sub)|
    requires Suffix(version, sub)[k] == COLON && Suffix(version, sub)[k + 1] == 0x76
    requires |Suffix(version, sub)| > k + 6 ==> Suffix(version, sub)[k + 6] == COLON
    ensures Bridges(Suffix(version, sub)[..k])
  {
    var t := Suffix(version, sub);
    SuffixBytes(version, sub);
    assert k == 4 || k >= 10;
    assert t[..k][..2] == t[..2] == VERSION_MARK;
    if k >= 10 {
      assert t[..k][6..10] == t[6..11][..4];
    }
  }

  /** For every such tail there are versions and sub-identities that collide. */
  lemma BridgeCollides(x: Bytes) returns (v1: u32, s1: Option<Bytes>, v2: u32, s2: Option<Bytes>)
    requires Bridges(x)
    ensures Suffix(v1, s1) == x + Suffix(v2, s2)
    ensures |x| <= 10 || IsText(x[11..]) ==> IsTextOrNone(s1)
    ensures IsTextOrNone(s2)
  {
    if |x| == 4 {
      v1, v2 := ShortBridge(x);
      s1, s2 := Some(SUB_MARK[1..]), Some([]);
      AsciiIsText(SUB_MARK[1..]);
    } else {
      v2, s2 := 0, None;
      SuffixBytes(v2, s2);
      v1, s1 := LongBridge(x, Suffix(v2, s2));
      LongBridgeIsText(x);
    }
  }

  lemma LongBridgeIsText(x: Bytes)
    requires |x| >= 10
    ensures |x| == 10 || IsText(x[11..]) ==> IsText((x + Suffix(0, None))[11..])
  {
    var t := Suffix(0, None);
    PowerValues();
    assert ToBE(0, 4) == [0, 0, 0, 0];
    assert forall k :: 0 <= k < |t| ==> t[k] < 0x80;
    if |x| == 10 {
      assert (x + t)[11..] == t[1..];
      AsciiIsText(t[1..]);
    } else if IsText(x[11..]) {
      assert (x + t)[11..] == x[11..] + t;
      AsciiIsText(t);
      TextConcat(x[11..], t);
    }
  }

  lemma ReadVersion(b: Bytes) returns (v: u32)
    requires |b| == 4
    ensures ToBE(v, 4) == b
  {
    PowerValues();
    FromBEBound(b);
    ToFromBE(b);
    v := FromBE(b);
  }

  lemma ShortBridge(x: Bytes) returns (v1: u32, v2: u32)
    requires Bridges(x) && |x| == 4
    ensures Suffix(v1, Some(SUB_MARK[1..])) == x + Suffix(v2, Some([]))
  {
    v1 := ReadVersion(x[2..4] + VERSION_MARK);
    v2 := ReadVersion(SUB_MARK[..4]);
    assert x == VERSION_MARK + x[2..4];
    var t1, t2 := Suffix(v1, Some(SUB_MARK[1..])), Suffix(v2, Some([]));
    assert t1 == VERSION_MARK + (x[2..4] + VERSION_MARK) + (SUB_MARK + SUB_MARK[1..]);
    assert t2 == VERSION_MARK + SUB_MARK[..4] + (SUB_MARK + []);
    assert SUB_MARK + SUB_MARK[1..] == SUB_MARK[..4] + (SUB_MARK + []);
  }

  /** A long tail, with any suffix after it that starts with a colon, is itself a suffix. */
  lemma LongBridge(x: Bytes, t2: Bytes) returns (v1: u32, s1: Option<Bytes>)
    requires Bridges(x) && |x| >= 10 && t2 != [] && t2[0] == COLON
    ensures Suffix(v1, s1) == x + t2 && s1 == Some((x + t2)[11..])
  {
    var y := x + t2;
    v1 := ReadVersion(x[2..6]);
    s1 := Some(y[11..]);
    assert y[..2] == x[..2] && y[2..6] == x[2..6];
    assert y[6..11] == SUB_MARK by {
      assert y[6..10] == x[6..10] && y[10] == COLON;
      assert y[6..11] == y[6..10] + [y[10]];
    }
    assert y == y[..2] + y[2..6] + (y[6..11] + y[11..]);
  }

  /** Two different namespaces share a pre-image, for some versions and sub-identities, exactly when one extends the other. */
  lemma NamespacesConfusedIff(n1: Bytes, n2: Bytes)
    requires n1 != n2
    ensures (exists v1: u32, s1, v2: u32, s2 :: Preimage(n1, v1, s1) == Preimage(n2, v2, s2))
       <==> Extends(n1, n2) || Extends(n2, n1)
  {
    if v1: u32, s1, v2: u32, s2 :| Preimage(n1, v1, s1) == Preimage(n2, v2, s2) {
      if |n1| <= |n2| {
        CollisionExtends(n1, v1, s1, n2, v2, s2);
      } else {
        CollisionExtends(n2, v2, s2, n1, v1, s1);
      }
    }
    if Extends(n1, n2) {
      var v1, s1, v2, s2 := BridgeCollides(n2[|n1|..]);
      SamePreimage(n1, v1, s1, n2, v2, s2);
    }
    if Extends(n2, n1) {
      var v2, s2, v1, s1 := BridgeCollides(n1[|n2|..]);
      SamePreimage(n2, v2, s2, n1, v1, s1);
    }
  }

  /** The same if namespaces and sub-identities are text: the confusions are between things users can type. */
  lemma TextNamespacesConfusedIff(n1: Bytes, n2: Bytes)
    requires n1 != n2 && IsText(n1) && IsText(n2)
    ensures (exists v1: u32, s1, v2: u32, s2 ::
               IsTextOrNone(s1) && IsTextOrNone(s2) && Preimage(n1, v1, s1) == Preimage(n2, v2, s2))
       <==> Extends(n1, n2) || Extends(n2, n1)
  {
    NamespacesConfusedIff(n1, n2);
    if Extends(n1, n2) {
      var v1, s1, v2, s2 := TextCollision(n1, n2);
    }
    if Extends(n2, n1) {
      var v2, s2, v1, s1 := TextCollision(n2, n1);
    }
  }

  lemma TextCollision(n1: Bytes, n2: Bytes) returns (v1: u32, s1: Option<Bytes>, v2: u32, s2: Option<Bytes>)
    requires Extends(n1, n2) && IsText(n2)
    ensures IsTextOrNone(s1) && IsTextOrNone(s2) && Preimage(n1, v1, s1) == Preimage(n2, v2, s2)
  {
    var x := n2[|n1|..];
    v1, s1, v2, s2 := BridgeCollides(x);
    SamePreimage(n1, v1, s1, n2, v2, s2);
    if |x| > 10 {
      assert n2[|n1| + 10] == x[10] == COLON;
      TextAfterAscii(n2, |n1| + 10);
      assert n2[|n1| + 11..] == x[11..];
    }
  }

  lemma CollisionExtends(n1: Bytes, v1: u32, s1: Option<Bytes>, n2: Bytes, v2: u32, s2: Option<Bytes>)
    requires n1 != n2 && |n1| <= |n2| && Preimage(n1, v1, s1) == Preimage(n2, v2, s2)
    ensures Extends(n1, n2)
  {
    StripFront(DOMAIN + [COLON], n1, Suffix(v1, s1), n2, Suffix(v2, s2));
    assert n1 + n2[|n1|..] == n2;
    CollisionBridges(n2[|n1|..], v1, s1, v2, s2);
  }

  lemma SamePreimage(n1: Bytes, v1: u32, s1: Option<Bytes>, n2: Bytes, v2: u32, s2: Option<Bytes>)
    requires n1 <= n2 && Suffix(v1, s1) == n2[|n1|..] + Suffix(v2, s2)
    ensures Preimage(n1, v1, s1) == Preimage(n2, v2, s2)
  {
    RestoreFront(DOMAIN + [COLON], n1, Suffix(v1, s1), n2, Suffix(v2, s2));
  }

  /** No two identities over these namespaces are hashed from the same bytes. */
  ghost predicate Unambiguous(namespaces: set<Bytes>) {
    forall n1, v1: u32, s1, n2, v2: u32, s2 ::
      n1 in namespaces && n2 in namespaces && Preimage(n1, v1, s1) == Preimage(n2, v2, s2) ==>
        n1 == n2 && v1 == v2 && s1 == s2
  }

  /** A set of namespaces is safe exactly when none of them extends another. */
  lemma UnambiguousIff(namespaces: set<Bytes>)
    ensures Unambiguous(namespaces) <==>
      forall n1, n2 :: n1 in namespaces && n2 in namespaces ==> !Extends(n1, n2)
  {
    if Unambiguous(namespaces) {
      forall n1, n2 | n1 in namespaces && n2 in namespaces
        ensures !Extends(n1, n2)
      {
        if Extends(n1, n2) {
          assert n1 != n2;
          NamespacesConfusedIff(n1, n2);
        }
      }
    }
    if forall n1, n2 :: n1 in namespaces && n2 in namespaces ==> !Extends(n1, n2) {
      forall n1, v1: u32, s1, n2, v2: u32, s2 |
        n1 in namespaces && n2 in namespaces && Preimage(n1, v1, s1) == Preimage(n2, v2, s2)
        ensures n1 == n2 && v1 == v2 && s1 == s2
      {
        if n1 != n2 { NamespacesConfusedIff(n1, n2); }
        OneNamespaceInjective(n1, v1, s1, v2, s2);
      }
    }
  }

  /** Restricting everything to text changes nothing. */
  lemma TextUnambiguousIff(namespaces: set<Bytes>)
    requires forall n :: n in namespaces ==> IsText(n)
    ensures (forall n1, v1: u32, s1, n2, v2: u32, s2 ::
               n1 in namespaces && n2 in namespaces && IsTextOrNone(s1) && IsTextOrNone(s2)
               && Preimage(n1, v1, s1) == Preimage(n2, v2, s2) ==>
                 n1 == n2 && v1 == v2 && s1 == s2)
       <==> Unambiguous(namespaces)
  {
    UnambiguousIff(namespaces);
    if !Unambiguous(namespaces) {
      var n1, n2 :| n1 in namespaces && n2 in namespaces && Extends(n1, n2);
      assert n1 != n2;
      TextNamespacesConfusedIff(n1, n2);
    }
  }

  /** In particular, namespaces without a colon are safe. */
  lemma ColonFreeIsUnambiguous(namespaces: set<Bytes>)
    requires forall n :: n in namespaces ==> COLON !in n
    ensures Unambiguous(namespaces)
  {
    forall n1, n2 | n1 in namespaces && n2 in namespaces
      ensures !Extends(n1, n2)
    {
      ExtensionHasColon(n1, n2);
    }
    UnambiguousIff(namespaces);
  }

  lemma ExtensionHasColon(n1: Bytes, n2: Bytes)
    ensures Extends(n1, n2) ==> COLON in n2
  {
    if Extends(n1, n2) {
      var x := n2[|n1|..];
      assert x[0] == x[..2][0] == COLON;
      assert n2[|n1|] == x[0];
    }
  }

  /** Without that, the namespaces "a" and "a:vxy" collide, although every tuple involved is ordinary text. */
  lemma ColonCollision()
    ensures Preimage([0x61], 0x78793a76, Some(SUB_MARK[1..]))
         == Preimage([0x61, 0x3a, 0x76, 0x78, 0x79], 0x3a737562, Some([]))
  {
  }
}
