/** DER writing: every routine writes backward from p and moves it to the start of what it wrote. */
module Asn1Write {
  import opened Numbers
  import opened Limbs
  import opened MpiCore
  import opened MpiBits
  import opened MpiBytes
  import opened Der

  /** What the writers return: the count of bytes, or one of two errors. */
  datatype Ret =
    | Written(n: nat)
    | BufTooSmall
    | LengthInvalid

  const INT_MAX: nat := 0x7FFF_FFFF

  /** now is was with s put right before position p. */
  ghost predicate Prepended(was: seq<byte>, now: seq<byte>, p: nat, s: seq<byte>)
  {
    |s| <= p <= |was| && now == was[..p - |s|] + s + was[p..]
  }

  /** Nothing behind p is touched, whatever happens. */
  ghost predicate Kept(was: seq<byte>, now: seq<byte>, p: nat)
  {
    p <= |was| == |now| && now[p..] == was[p..]
  }

  lemma PrependMore(w: seq<byte>, x: seq<byte>, y: seq<byte>, p: nat, s: seq<byte>, t: seq<byte>)
    requires Prepended(w, x, p, s) && Prepended(x, y, p - |s|, t)
    ensures Prepended(w, y, p, t + s)
  {
    var a := p - |s|;
    assert x[..a - |t|] == w[..a - |t|];
    assert x[a..] == s + w[p..];
  }

  lemma PrependKeeps(w: seq<byte>, x: seq<byte>, p: nat, s: seq<byte>)
    requires Prepended(w, x, p, s)
    ensures Kept(w, x, p)
  {
  }

  lemma KeptMore(w: seq<byte>, x: seq<byte>, y: seq<byte>, p: nat, q: nat)
    requires Kept(w, x, p) && Kept(x, y, q) && q <= p
    ensures Kept(w, y, p)
  {
    assert x[p..] == x[q..][p - q..] == y[q..][p - q..] == y[p..];
  }

  // ---------------------------------------------------------------- lengths and tags

  // A length in k bytes, the lowest last, the way `( len >> 8 ) & 0xFF` peels them off.

  lemma Peeled1(v: nat)
    ensures BytesOf(v, 1) == [v % 256]
  {
    LastByte(v, 1);
    assert BytesOf(v / 256, 0) == [];
  }

  lemma Peeled2(v: nat)
    ensures BytesOf(v, 2) == [v / 0x100 % 256, v % 256]
  {
    LastByte(v, 2);
    Peeled1(v / 256);
    hide BytesOf;
  }

  lemma Peeled3(v: nat)
    ensures BytesOf(v, 3) == [v / 0x1_0000 % 256, v / 0x100 % 256, v % 256]
  {
    LastByte(v, 3);
    Peeled2(v / 256);
    TwiceSame(v, 0x100);
    hide BytesOf;
  }

  lemma Peeled4(v: nat)
    ensures BytesOf(v, 4) == [v / 0x100_0000 % 256, v / 0x1_0000 % 256, v / 0x100 % 256, v % 256]
  {
    LastByte(v, 4);
    Peeled3(v / 256);
    TwiceSame(v, 0x100);
    TwiceSame(v, 0x1_0000);
    hide BytesOf;
  }

  lemma TwiceSame(v: nat, d: nat)
    requires d > 0
    ensures v / 256 / d == v / (256 * d)
  {
    var q := QuotRem(v, 256);
    var h := QuotRem(q.0, d);
    Assoc(256, h.0, d);
    assert h.0 * (256 * d) == 256 * (h.0 * d);
    DivModUnique(v, 256 * d, h.0, h.1 * 256 + q.1);
  }

  lemma ShortLength(len: nat)
    requires len < 0x80
    ensures LenCode(len) == [len]
  {
  }

  /** The long forms, octet by octet. */
  lemma LongForms(len: nat)
    requires 0x80 <= len < LENGTHS
    ensures len <= 0xFF ==> LenCode(len) == [0x81, len]
    ensures 0xFF < len <= 0xFFFF ==> LenCode(len) == [0x82, len / 0x100 % 256, len % 256]
    ensures 0xFFFF < len <= 0xFFFFFF ==> LenCode(len) == [0x83, len / 0x1_0000 % 256, len / 0x100 % 256, len % 256]
    ensures 0xFFFFFF < len ==>
      LenCode(len) == [0x84, len / 0x100_0000 % 256, len / 0x1_0000 % 256, len / 0x100 % 256, len % 256]
  {
    hide BytesOf;
    if len <= 0xFF {
      Peeled1(len);
    } else if len <= 0xFFFF {
      Peeled2(len);
    } else if len <= 0xFFFFFF {
      Peeled3(len);
    } else {
      Peeled4(len);
    }
  }

  lemma LastByte(v: nat, k: nat)
    requires k > 0
    ensures BytesOf(v, k) == BytesOf(v / 256, k - 1) + [v % 256]
  {
  }

  /** `*--(*p) = c` */
  method Put(buf: array<byte>, p: nat, c: byte) returns (q: nat)
    requires 0 < p <= buf.Length
    modifies buf
    ensures q == p - 1 && Prepended(old(buf[..]), buf[..], p, [c])
  {
    q := p - 1;
    buf[q] := c;
  }

  /** mbedtls_asn1_write_len. Lengths of 2^32 and more exist only where size_t is wider. */
  method WriteLen(buf: array<byte>, p: nat, len: nat) returns (ret: Ret, q: nat)
    requires p <= buf.Length
    modifies buf
    ensures ret == LengthInvalid <==> len >= LENGTHS
    ensures ret == BufTooSmall <==> len < LENGTHS && p < |LenCode(len)|
    ensures ret.Written? ==> ret.n == |LenCode(len)| && q == p - ret.n && Prepended(old(buf[..]), buf[..], p, LenCode(len))
    ensures !ret.Written? ==> q == p && buf[..] == old(buf[..])
  {
    hide LenCode, BytesOf, Prepended;
    if len < 0x80 {
      ShortLength(len);
      if p < 1 {
        return BufTooSmall, p;
      }
      q := Put(buf, p, len);
      return Written(1), q;
    }
    if len < LENGTHS {
      LongForms(len);
    }
    if len <= 0xFF {
      if p < 2 {
        return BufTooSmall, p;
      }
      q := PutAll(buf, p, [0x81, len]);
      return Written(2), q;
    }
    if len <= 0xFFFF {
      if p < 3 {
        return BufTooSmall, p;
      }
      q := PutAll(buf, p, [0x82, len / 0x100 % 256, len % 256]);
      return Written(3), q;
    }
    if len <= 0xFFFFFF {
      if p < 4 {
        return BufTooSmall, p;
      }
      q := PutAll(buf, p, [0x83, len / 0x1_0000 % 256, len / 0x100 % 256, len % 256]);
      return Written(4), q;
    }
    if len <= 0xFFFFFFFF {
      if p < 5 {
        return BufTooSmall, p;
      }
      q := PutAll(buf, p, [0x84, len / 0x100_0000 % 256, len / 0x1_0000 % 256, len / 0x100 % 256, len % 256]);
      return Written(5), q;
    }
    return LengthInvalid, p;
  }

  /** The stores of one branch, last byte first. */
  method PutAll(buf: array<byte>, p: nat, s: seq<byte>) returns (q: nat)
    requires |s| <= p <= buf.Length
    modifies buf
    ensures q == p - |s| && Prepended(old(buf[..]), buf[..], p, s)
  {
    hide Prepended;
    q := p;
    NothingPrepended(buf[..], p);
    assert s[|s|..] == [];
    while q > p - |s|
      invariant p - |s| <= q <= p
      invariant Prepended(old(buf[..]), buf[..], p, s[|s| - (p - q)..])
    {
      ghost var x := buf[..];
      ghost var t := s[|s| - (p - q)..];
      var c := s[|s| - (p - q) - 1];
      q := Put(buf, q, c);
      PrependMore(old(buf[..]), x, buf[..], p, t, [c]);
      assert s[|s| - (p - q)..] == [c] + t;
    }
    assert s[0..] == s;
  }

  lemma NothingPrepended(w: seq<byte>, p: nat)
    requires p <= |w|
    ensures Prepended(w, w, p, [])
  {
  }

  /** mbedtls_asn1_write_tag */
  method WriteTag(buf: array<byte>, p: nat, tag: byte) returns (ret: Ret, q: nat)
    requires p <= buf.Length
    modifies buf
    ensures ret == if p < 1 then BufTooSmall else Written(1)
    ensures ret.Written? ==> q == p - 1 && Prepended(old(buf[..]), buf[..], p, [tag])
    ensures !ret.Written? ==> q == p && buf[..] == old(buf[..])
  {
    if p < 1 {
      return BufTooSmall, p;
    }
    q := Put(buf, p, tag);
    return Written(1), q;
  }

  /** mbedtls_asn1_write_raw_buffer */
  method WriteRaw(buf: array<byte>, p: nat, s: seq<byte>) returns (ret: Ret, q: nat)
    requires p <= buf.Length <= INT_MAX
    modifies buf
    ensures ret == if p < |s| then BufTooSmall else Written(|s|)
    ensures ret.Written? ==> q == p - |s| && Prepended(old(buf[..]), buf[..], p, s)
    ensures !ret.Written? ==> q == p && buf[..] == old(buf[..])
  {
    if p < |s| {
      return BufTooSmall, p;
    }
    q := p - |s|;
    forall k | 0 <= k < |s| {
      buf[q + k] := s[k];
    }
    return Written(|s|), q;
  }

  // ---------------------------------------------------------------- elements

  /** The end of every writer: a length, then a tag, in front of body, of which the last `had` bytes were counted but
      written by someone else. */
  method WriteHead(buf: array<byte>, p: nat, len: nat, tag: byte) returns (ret: Ret, q: nat)
    requires p <= buf.Length && len <= INT_MAX
    modifies buf
    ensures ret == if p < |LenCode(len)| + 1 then BufTooSmall else Written(|LenCode(len)| + 1)
    ensures ret.Written? ==> q == p - ret.n && Prepended(old(buf[..]), buf[..], p, [tag] + LenCode(len))
    ensures q <= p && Kept(old(buf[..]), buf[..], p)
  {
    hide LenCode, Prepended, Kept;
    LenCodePositive(len);
    NothingPrepended(buf[..], p);
    PrependKeeps(buf[..], buf[..], p, []);
    ret, q := WriteLen(buf, p, len);
    if !ret.Written? {
      return;
    }
    ghost var x := buf[..];
    PrependKeeps(old(buf[..]), x, p, LenCode(len));
    ret, q := WriteTag(buf, q, tag);
    if !ret.Written? {
      return;
    }
    PrependMore(old(buf[..]), x, buf[..], p, LenCode(len), [tag]);
    PrependKeeps(old(buf[..]), buf[..], p, [tag] + LenCode(len));
    ret := Written(|LenCode(len)| + 1);
  }

  /** mbedtls_asn1_write_null */
  method WriteNull(buf: array<byte>, p: nat) returns (ret: Ret, q: nat)
    requires p <= buf.Length
    modifies buf
    ensures ret == if p < 2 then BufTooSmall else Written(2)
    ensures ret.Written? ==> q == p - 2 && Prepended(old(buf[..]), buf[..], p, Tlv(NULL, []))
    ensures q <= p && Kept(old(buf[..]), buf[..], p)
  {
    hide Prepended, Kept;
    ret, q := WriteHead(buf, p, 0, NULL);
    assert Tlv(NULL, []) == [NULL] + LenCode(0);
  }

  /** A body just written, closed by its head. */
  lemma HeadMakesTlv(w: seq<byte>, x: seq<byte>, y: seq<byte>, p: nat, s: seq<byte>, tag: byte)
    requires |s| <= INT_MAX && Prepended(w, x, p, s) && Prepended(x, y, p - |s|, [tag] + LenCode(|s|))
    ensures Prepended(w, y, p, Tlv(tag, s))
  {
    hide Prepended, LenCode;
    PrependMore(w, x, y, p, s, [tag] + LenCode(|s|));
    assert Tlv(tag, s) == [tag] + LenCode(|s|) + s;
  }

  /** mbedtls_asn1_write_oid */
  method WriteOid(buf: array<byte>, p: nat, oid: seq<byte>) returns (ret: Ret, q: nat)
    requires p <= buf.Length <= INT_MAX
    modifies buf
    ensures ret.Written? <==> |oid| <= p && |Tlv(OID, oid)| <= p
    ensures ret.Written? ==> ret.n == |Tlv(OID, oid)| && q == p - ret.n
    ensures ret.Written? ==> Prepended(old(buf[..]), buf[..], p, Tlv(OID, oid))
    ensures !ret.Written? ==> ret == BufTooSmall
    ensures q <= p && Kept(old(buf[..]), buf[..], p)
  {
    hide Prepended, Kept, Tlv, LenCode;
    NothingPrepended(buf[..], p);
    PrependKeeps(buf[..], buf[..], p, []);
    ret, q := WriteRaw(buf, p, oid);
    if !ret.Written? {
      return;
    }
    TlvSize(OID, oid);
    ghost var x := buf[..];
    PrependKeeps(old(buf[..]), x, p, oid);
    ret, q := WriteHead(buf, q, |oid|, OID);
    KeptMore(old(buf[..]), x, buf[..], p, p - |oid|);
    if ret.Written? {
      HeadMakesTlv(old(buf[..]), x, buf[..], p, oid, OID);
      ret := Written(|oid| + ret.n);
    }
  }

  // ---------------------------------------------------------------- integers

  /** mbedtls_mpi_size */
  method MpiSize(X: Mpi) returns (n: nat)
    ensures n == |Octets(X.Mag())| && BytesOf(X.Mag(), n) == Octets(X.Mag()) && X.Mag() < Pow(256, n)
  {
    hide Pow, Octets, BytesOf, Val;
    var bits := Bitlen(X);
    n := (bits + 7) / 8;
    SizeOfBits(X.Mag(), bits, n);
    OctetsAre(X.Mag(), n);
  }

  lemma SizeOfBits(v: nat, bits: nat, n: nat)
    requires IsBitlen(v, bits) && n == (bits + 7) / 8
    ensures v < Pow(256, n) && (n > 0 ==> Pow(256, n - 1) <= v)
  {
    hide Pow;
    Pow32();
    PowMul(2, 8, n);
    PowMono(2, bits, 8 * n);
    if n > 0 {
      PowMul(2, 8, n - 1);
      PowMono(2, 8 * (n - 1), bits - 1);
    }
  }

  /** The byte behind p, which the writer looks at when X is 0. */
  function Next(b: seq<byte>, p: nat): byte
  {
    if p < |b| then b[p] else 0
  }

  /** mbedtls_asn1_write_mpi. For 0 it looks at the byte behind p, so there has to be one. */
  method WriteMpi(buf: array<byte>, p: nat, X: Mpi) returns (ret: Ret, q: nat)
    requires p <= buf.Length <= INT_MAX - 8 && (X.Mag() == 0 ==> p < buf.Length)
    modifies buf
    ensures var c := IntContent(X.s, X.Mag(), Next(old(buf[..]), p));
      ret == if |c| < LENGTHS && |Tlv(INTEGER, c)| <= p then Written(|Tlv(INTEGER, c)|) else BufTooSmall
    ensures ret.Written? ==>
      q == p - ret.n && Prepended(old(buf[..]), buf[..], p, Tlv(INTEGER, IntContent(X.s, X.Mag(), Next(old(buf[..]), p))))
    ensures q <= p && Kept(old(buf[..]), buf[..], p)
  {
    hide Prepended, Kept, Tlv, LenCode, Pow, Octets, BytesOf, Val;
    NothingPrepended(buf[..], p);
    PrependKeeps(buf[..], buf[..], p, []);
    OctetsFacts(X.Mag());
    ghost var next := Next(buf[..], p);
    ghost var c := IntContent(X.s, X.Mag(), next);
    if |c| < LENGTHS {
      TlvSize(INTEGER, c);
      LenCodePositive(|c|);
    }
    ret, q := WriteOctets(buf, p, X);
    if !ret.Written? {
      return;
    }
    var len := ret.n;
    ghost var x := buf[..];
    PrependKeeps(old(buf[..]), x, p, c);
    ret, q := WriteHead(buf, q, len, INTEGER);
    KeptMore(old(buf[..]), x, buf[..], p, p - len);
    if ret.Written? {
      HeadMakesTlv(old(buf[..]), x, buf[..], p, c, INTEGER);
      ret := Written(len + ret.n);
    }
  }

  /** A slice laid down at q. */
  lemma Laid(w: seq<byte>, x: seq<byte>, q: nat, len: nat, o: seq<byte>)
    requires q + len <= |w| == |x| && x[q..q + len] == o
    requires x[..q] == w[..q] && x[q + len..] == w[q + len..]
    ensures Prepended(w, x, q + len, o)
    ensures q < |w| ==> x[q] == if o == [] then w[q] else o[0]
  {
    assert x == x[..q] + x[q..q + len] + x[q + len..];
    if o == [] && q < |w| {
      assert x[q] == x[q + len..][0];
    }
  }

  /** Its first half: the octets, and the leading zero that keeps a positive number positive. */
  method WriteOctets(buf: array<byte>, p: nat, X: Mpi) returns (ret: Ret, q: nat)
    requires p <= buf.Length <= INT_MAX - 8 && (X.Mag() == 0 ==> p < buf.Length)
    modifies buf
    ensures var c := IntContent(X.s, X.Mag(), Next(old(buf[..]), p)); ret == if |c| <= p then Written(|c|) else BufTooSmall
    ensures ret.Written? ==>
      q == p - ret.n && Prepended(old(buf[..]), buf[..], p, IntContent(X.s, X.Mag(), Next(old(buf[..]), p)))
    ensures q <= p && Kept(old(buf[..]), buf[..], p)
  {
    hide Pow, Octets, BytesOf, Val, Prepended, Kept;
    NothingPrepended(buf[..], p);
    PrependKeeps(buf[..], buf[..], p, []);
    OctetsFacts(X.Mag());
    var len := MpiSize(X);
    if p < len {
      return BufTooSmall, p;
    }
    q := p - len;
    ghost var next := Next(buf[..], p);
    ghost var o := Octets(X.Mag());
    var fits := WriteBinary(X, buf, q, len);
    assert fits;
    Laid(old(buf[..]), buf[..], q, len, o);
    PrependKeeps(old(buf[..]), buf[..], p, o);
    if X.s == 1 && buf[q] >= 0x80 {
      if q < 1 {
        return BufTooSmall, q;
      }
      ghost var x := buf[..];
      q := Put(buf, q, 0);
      PrependMore(old(buf[..]), x, buf[..], p, o, [0]);
      PrependKeeps(old(buf[..]), buf[..], p, [0] + o);
      len := len + 1;
    }
    return Written(len), q;
  }

  // ---------------------------------------------------------------- algorithm identifiers

  /** What mbedtls_asn1_write_algorithm_identifier itself writes in front of parLen bytes of parameters. */
  function AlgContent(oid: seq<byte>, parLen: nat): seq<byte>
    requires |oid| < LENGTHS
  {
    Tlv(OID, oid) + if parLen == 0 then Tlv(NULL, []) else []
  }

  /** The object identifier and the head of the SEQUENCE, len bytes of which are already there. */
  method WriteIdentifier(buf: array<byte>, p: nat, oid: seq<byte>, len: nat) returns (ret: Ret, q: nat)
    requires p <= buf.Length && buf.Length + len <= INT_MAX
    modifies buf
    ensures ret.Written? <==>
      |oid| <= p && |Tlv(OID, oid)| <= p && |Tlv(OID, oid)| + |LenCode(|Tlv(OID, oid)| + len)| + 1 <= p
    ensures ret.Written? ==>
      var c := Tlv(OID, oid); ret.n == 1 + |LenCode(|c| + len)| + |c| + len && q == p - (ret.n - len)
    ensures ret.Written? ==>
      var c := Tlv(OID, oid); Prepended(old(buf[..]), buf[..], p, [SEQUENCE] + LenCode(|c| + len) + c)
    ensures !ret.Written? ==> ret == BufTooSmall
    ensures q <= p && Kept(old(buf[..]), buf[..], p)
  {
    hide Prepended, Kept, Tlv, LenCode;
    ret, q := WriteOid(buf, p, oid);
    if !ret.Written? {
      return;
    }
    ghost var c := Tlv(OID, oid);
    var total := len + ret.n;
    ghost var y := buf[..];
    ret, q := WriteHead(buf, q, total, SEQUENCE);
    KeptMore(old(buf[..]), y, buf[..], p, p - |c|);
    if ret.Written? {
      PrependMore(old(buf[..]), y, buf[..], p, c, [SEQUENCE] + LenCode(total));
      ret := Written(total + ret.n);
    }
  }

  lemma PrependUnder(w: seq<byte>, x: seq<byte>, y: seq<byte>, p: nat, c: seq<byte>, h: seq<byte>, t: seq<byte>)
    requires Prepended(w, x, p, c) && Prepended(x, y, p - |c|, h + t)
    ensures Prepended(w, y, p, h + (t + c))
  {
    hide Prepended;
    PrependMore(w, x, y, p, c, h + t);
    assert h + t + c == h + (t + c);
  }

  lemma AlgContentIs(oid: seq<byte>, parLen: nat)
    requires |oid| < LENGTHS
    ensures parLen == 0 ==> AlgContent(oid, parLen) == Tlv(OID, oid) + Tlv(NULL, [])
    ensures parLen > 0 ==> AlgContent(oid, parLen) == Tlv(OID, oid) + []
    ensures |AlgContent(oid, parLen)| == |Tlv(OID, oid)| + (if parLen == 0 then 2 else 0)
  {
    TlvSize(NULL, []);
  }

  /** mbedtls_asn1_write_algorithm_identifier: nonempty parameters are already in place behind p and count too. */
  method WriteAlgorithm(buf: array<byte>, p: nat, oid: seq<byte>, parLen: nat) returns (ret: Ret, q: nat)
    requires p <= buf.Length && buf.Length + parLen <= INT_MAX - 2
    modifies buf
    ensures ret.Written? <==>
      |oid| <= p && |AlgContent(oid, parLen)| <= p &&
      |AlgContent(oid, parLen)| + |LenCode(|AlgContent(oid, parLen)| + parLen)| + 1 <= p
    ensures ret.Written? ==>
      var c := AlgContent(oid, parLen); ret.n == 1 + |LenCode(|c| + parLen)| + |c| + parLen && q == p - (ret.n - parLen)
    ensures ret.Written? ==>
      var c := AlgContent(oid, parLen); Prepended(old(buf[..]), buf[..], p, [SEQUENCE] + LenCode(|c| + parLen) + c)
    ensures !ret.Written? ==> ret == BufTooSmall
    ensures q <= p && Kept(old(buf[..]), buf[..], p)
  {
    hide Prepended, Kept, Tlv, LenCode, AlgContent;
    var len := 0;
    q := p;
    TlvSize(NULL, []);
    LenCodePositive(0);
    if |oid| < LENGTHS {
      TlvSize(OID, oid);
      AlgContentIs(oid, parLen);
    }
    if parLen == 0 {
      ret, q := WriteNull(buf, q);
      if !ret.Written? {
        return;
      }
      len := len + ret.n;
    } else {
      NothingPrepended(buf[..], p);
      PrependKeeps(buf[..], buf[..], p, []);
      len := len + parLen;
    }
    ghost var x := buf[..];
    ghost var c := if parLen == 0 then Tlv(NULL, []) else [];
    ret, q := WriteIdentifier(buf, q, oid, len);
    KeptMore(old(buf[..]), x, buf[..], p, p - |c|);
    if ret.Written? {
      PrependUnder(old(buf[..]), x, buf[..], p, c, [SEQUENCE] + LenCode(|Tlv(OID, oid)| + len), Tlv(OID, oid));
    }
  }
}
