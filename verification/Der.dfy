/** DER's tag-length-value form (X.690): the codes the writers produce and the heads the parsers accept. */
module Der {
  import opened Numbers
  import opened MpiBytes

  const INTEGER: byte := 0x02
  const BIT_STRING: byte := 0x03
  const NULL: byte := 0x05
  const OID: byte := 0x06
  /** MBEDTLS_ASN1_CONSTRUCTED | MBEDTLS_ASN1_SEQUENCE */
  const SEQUENCE: byte := 0x30

  const LENGTHS: nat := 0x1_0000_0000

  // ---------------------------------------------------------------- lengths

  function LongBytes(len: nat): nat
  {
    if len <= 0xFF then 1 else if len <= 0xFFFF then 2 else if len <= 0xFFFFFF then 3 else 4
  }

  /** The length octets the writer chooses (section 10.1). */
  function LenCode(len: nat): (c: seq<byte>)
    requires len < LENGTHS
    ensures |c| == if len < 0x80 then 1 else 1 + LongBytes(len)
  {
    if len < 0x80 then [len] else [0x80 + LongBytes(len)] + BytesOf(len, LongBytes(len))
  }

  /** h is a way to say len: the short form, or one to four octets after their count. */
  predicate IsLen(h: seq<byte>, len: nat)
  {
    |h| > 0 &&
    if h[0] < 0x80 then |h| == 1 && len == h[0]
    else 2 <= |h| <= 5 && h[0] == 0x80 + (|h| - 1) && BytesVal(h[1..]) == len
  }

  lemma Bytes256()
    ensures Pow(256, 1) == 0x100 && Pow(256, 2) == 0x1_0000 && Pow(256, 3) == 0x100_0000 && Pow(256, 4) == LENGTHS
  {
    PowOne(256);
    PowNext(256, 1);
    PowNext(256, 2);
    PowNext(256, 3);
    hide Pow;
  }

  lemma LenCodeSays(len: nat)
    requires len < LENGTHS
    ensures IsLen(LenCode(len), len)
  {
    hide Pow, BytesOf, BytesVal;
    Bytes256();
    if len >= 0x80 {
      BytesOfRead(len, LongBytes(len));
      assert LenCode(len)[1..] == BytesOf(len, LongBytes(len));
    }
  }

  lemma LongBytesLeast(len: nat, k: nat)
    requires 1 <= k <= 4 && len < Pow(256, k)
    ensures len < LENGTHS && LongBytes(len) <= k
  {
    Bytes256();
    hide Pow;
  }

  /** The writer's choice is the shortest, and the only one of its size. */
  lemma ShortestForm(h: seq<byte>, len: nat)
    requires IsLen(h, len)
    ensures len < LENGTHS && |LenCode(len)| <= |h|
    ensures |LenCode(len)| == |h| ==> h == LenCode(len)
  {
    hide Pow, BytesOf, BytesVal;
    if h[0] >= 0x80 {
      BytesBound(h[1..]);
      LongBytesLeast(len, |h| - 1);
      ReadBytesOf(h[1..]);
      assert h == [h[0]] + h[1..];
    }
  }

  lemma SliceSlice(x: seq<byte>, p: nat, end: nat, i: nat, j: nat)
    requires p <= end <= |x| && i <= j <= end - p
    ensures x[p..end][i..j] == x[p + i..p + j]
  {
    var a, b := x[p..end][i..j], x[p + i..p + j];
    assert |a| == |b| == j - i;
    forall k | 0 <= k < j - i
      ensures a[k] == b[k]
    {
      assert a[k] == x[p..end][i + k] == x[p + (i + k)];
      assert b[k] == x[(p + i) + k];
    }
    assert a == b;
  }

  // ---------------------------------------------------------------- elements

  /** b begins with n length octets that announce len bytes, and b holds them. */
  predicate Head(b: seq<byte>, n: nat, len: nat)
  {
    0 < n && n + len <= |b| && IsLen(b[..n], len)
  }

  lemma HeadUnique(b: seq<byte>, n: nat, len: nat, m: nat, l: nat)
    requires Head(b, n, len) && Head(b, m, l)
    ensures n == m && len == l
  {
    hide BytesVal;
    assert b[..n][0] == b[0] == b[..m][0];
  }

  predicate Element(b: seq<byte>, tag: byte, n: nat, len: nat)
  {
    |b| > 0 && b[0] == tag && Head(b[1..], n, len)
  }

  lemma ElementUnique(b: seq<byte>, tag: byte, n: nat, len: nat, m: nat, l: nat)
    requires Element(b, tag, n, len) && Element(b, tag, m, l)
    ensures n == m && len == l
  {
    HeadUnique(b[1..], n, len, m, l);
  }

  /** What an element carries. */
  function Content(b: seq<byte>, n: nat, len: nat): (c: seq<byte>)
    requires 1 + n + len <= |b|
    ensures |c| == len
  {
    b[1 + n..1 + n + len]
  }

  function Tlv(tag: byte, content: seq<byte>): seq<byte>
    requires |content| < LENGTHS
  {
    [tag] + (LenCode(|content|) + content)
  }

  /** An element written is an element found, whatever follows it. */
  lemma TlvReads(tag: byte, content: seq<byte>, rest: seq<byte>)
    requires |content| < LENGTHS
    ensures var b := Tlv(tag, content) + rest; var n := |LenCode(|content|)|;
      Element(b, tag, n, |content|) && Content(b, n, |content|) == content && b[1 + n + |content|..] == rest
  {
    hide LenCode, IsLen;
    var c := LenCode(|content|);
    var b := Tlv(tag, content) + rest;
    LenCodeSays(|content|);
    assert b[1..] == c + content + rest;
    assert b[1..][..|c|] == c;
    LenCodePositive(|content|);
  }

  lemma LenCodePositive(len: nat)
    requires len < LENGTHS
    ensures 1 <= |LenCode(len)| <= 5
  {
  }

  // ---------------------------------------------------------------- integers

  /** The bytes of v without leading zeros. */
  function Octets(v: nat): seq<byte>
  {
    if v == 0 then [] else Octets(v / 256) + [v % 256]
  }

  lemma {:induction false} OctetsFacts(v: nat)
    ensures BytesVal(Octets(v)) == v
    ensures v > 0 ==> |Octets(v)| > 0 && Octets(v)[0] != 0
  {
    if v > 0 {
      OctetsFacts(v / 256);
      assert Octets(v)[..|Octets(v)| - 1] == Octets(v / 256);
      if v / 256 == 0 {
        assert Octets(v / 256) == [];
      }
    }
  }

  /** mbedtls_mpi_size counts them. */
  lemma {:induction false} OctetsAre(v: nat, n: nat)
    requires v < Pow(256, n) && (n > 0 ==> Pow(256, n - 1) <= v)
    ensures BytesOf(v, n) == Octets(v)
  {
    if n > 0 {
      PowPos(256, n - 1);
      var q := QuotRem(v, 256);
      QuotBelow(q.0, 256, q.1, Pow(256, n - 1));
      if n > 1 {
        QuotAtLeast(q.0, q.1, Pow(256, n - 2));
      }
      OctetsAre(q.0, n - 1);
    }
  }

  lemma QuotAtLeast(q: nat, r: nat, bound: nat)
    requires r < 256 && 256 * bound <= q * 256 + r
    ensures bound <= q
  {
  }

  /** The content octets of an INTEGER as written. For 0 no octet is written, and the byte already behind it decides
      whether a leading zero is. */
  function IntContent(sign: int, v: nat, next: byte): seq<byte>
  {
    var first := if Octets(v) == [] then next else Octets(v)[0];
    if sign == 1 && first >= 0x80 then [0] + Octets(v) else Octets(v)
  }

  lemma IntContentReads(sign: int, v: nat, next: byte)
    ensures BytesVal(IntContent(sign, v, next)) == v
  {
    hide Octets, BytesVal;
    OctetsFacts(v);
    LeadingZeros([0], Octets(v));
  }

  /** Section 8.3.2: the first nine bits of a positive INTEGER are neither all ones nor all zeros, and the sign bit is
      clear. */
  lemma PositiveIsMinimal(v: nat, next: byte)
    requires v > 0
    ensures var c := IntContent(1, v, next);
      |c| > 0 && c[0] < 0x80 && (|c| > 1 && c[0] == 0 ==> c[1] >= 0x80)
  {
    hide Octets, BytesVal;
    OctetsFacts(v);
  }

  // ---------------------------------------------------------------- algorithm identifiers

  ghost predicate Whole(r: seq<byte>, k: nat, l: nat)
  {
    |r| > 0 && Head(r[1..], k, l) && 1 + k + l == |r|
  }

  /** An AlgorithmIdentifier: a SEQUENCE of an OID and nothing, or an OID and one more element of any tag. */
  ghost predicate IsAlg(b: seq<byte>, n: nat, len: nat, m: nat, oid: nat)
  {
    Element(b, SEQUENCE, n, len) && AlgBody(Content(b, n, len), m, oid)
  }

  ghost predicate AlgBody(c: seq<byte>, m: nat, oid: nat)
  {
    Element(c, OID, m, oid) && EmptyOrWhole(c[1 + m + oid..])
  }

  ghost predicate EmptyOrWhole(r: seq<byte>)
  {
    r == [] || exists k: nat, l: nat :: Whole(r, k, l)
  }

  lemma AlgReads(oid: seq<byte>, tag: byte, value: seq<byte>, rest: seq<byte>)
    requires |oid| < LENGTHS && |value| < LENGTHS && |Tlv(OID, oid) + Tlv(tag, value)| < LENGTHS
    ensures var c := Tlv(OID, oid) + Tlv(tag, value);
      IsAlg(Tlv(SEQUENCE, c) + rest, |LenCode(|c|)|, |c|, |LenCode(|oid|)|, |oid|)
  {
    hide LenCode, Head, Tlv, BytesVal;
    var c := Tlv(OID, oid) + Tlv(tag, value);
    TlvReads(SEQUENCE, c, rest);
    TlvReads(OID, oid, Tlv(tag, value));
    TlvReads(tag, value, []);
    var r := Tlv(tag, value);
    assert r + [] == r;
    TlvSize(tag, value);
    assert Whole(r, |LenCode(|value|)|, |value|);
  }

  lemma TlvSize(tag: byte, content: seq<byte>)
    requires |content| < LENGTHS
    ensures |Tlv(tag, content)| == 1 + |LenCode(|content|)| + |content|
  {
    hide LenCode;
  }
}
