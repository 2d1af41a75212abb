/** Parsing undoes writing: each method writes into a buffer and reads the buffer back from where the pointer stopped. */
module Asn1RoundTrip {
  import opened Numbers
  import opened MpiCore
  import opened MpiBytes
  import opened Der
  import opened Asn1Write
  import opened Asn1Parse

  lemma PrependedRest(w: seq<byte>, x: seq<byte>, p: nat, s: seq<byte>, end: nat)
    requires Prepended(w, x, p, s) && p <= end <= |w|
    ensures Rest(x, p - |s|, end) == s + w[p..end]
    ensures p < |w| ==> x[p..] == w[p..]
  {
  }

  lemma CodeHead(len: nat, rest: seq<byte>)
    requires len < LENGTHS && len <= |rest|
    ensures Head(LenCode(len) + rest, |LenCode(len)|, len)
  {
    hide LenCode, IsLen;
    LenCodeSays(len);
    LenCodePositive(len);
    assert (LenCode(len) + rest)[..|LenCode(len)|] == LenCode(len);
  }

  /** Every length that fits comes back, from the front of as many bytes. */
  method LengthThereAndBack(buf: array<byte>, p: nat, len: nat, end: nat) returns (ret: Ret, back: Verdict, read: nat, q: nat)
    requires p + len <= end <= buf.Length
    modifies buf
    ensures ret.Written? <==> len < LENGTHS && |LenCode(len)| <= p
    ensures ret.Written? ==> back == Parsed && read == len && q == p
  {
    hide LenCode, Prepended, IsLen;
    ret, q := WriteLen(buf, p, len);
    if !ret.Written? {
      return ret, OutOfData, 0, q;
    }
    PrependedRest(old(buf[..]), buf[..], p, LenCode(len), end);
    ghost var tail := old(buf[p..end]);
    CodeHead(len, tail);
    ghost var from := q;
    back, q, read := GetLen(buf[..], q, end);
    HeadUnique(Rest(buf[..], from, end), |LenCode(len)|, len, q - from, read);
  }

  /** Every integer comes back as its absolute value; nonnegative ones, 0 included, come back. */
  method MpiThereAndBack(buf: array<byte>, p: nat, X: Mpi, Y: Mpi, end: nat) returns (ret: Ret, back: Verdict, q: nat)
    requires X != Y && p <= end <= buf.Length <= INT_MAX - 8 && (X.Mag() == 0 ==> p < buf.Length)
    modifies buf, Y
    ensures var c := IntContent(X.s, X.Mag(), Next(old(buf[..]), p));
      ret.Written? <==> |c| < LENGTHS && |Tlv(INTEGER, c)| <= p
    ensures ret.Written? ==> back == Parsed && q == p && Y.Int() == X.Mag() && X.Int() == old(X.Int())
    ensures ret.Written? ==> (Y.Int() == X.Int() <==> X.Int() >= 0)
  {
    hide LenCode, Prepended, IsLen, Tlv, IntContent, BytesVal, MpiBytes.BytesOf;
    ghost var m := X.Mag();
    ghost var c := IntContent(X.s, m, Next(buf[..], p));
    ret, q := WriteMpi(buf, p, X);
    if !ret.Written? {
      return ret, OutOfData, q;
    }
    IntContentReads(X.s, m, Next(old(buf[..]), p));
    back, q := ReadElement(buf[..], p, q, end, c, Y, old(buf[..]));
  }

  /** Reading an INTEGER that was just put in front of p. */
  method ReadElement(data: seq<byte>, ghost p: nat, q0: nat, end: nat, ghost c: seq<byte>, Y: Mpi, ghost was: seq<byte>)
    returns (back: Verdict, q: nat)
    requires |c| < LENGTHS && p <= end <= |data| == |was| && Prepended(was, data, p, Tlv(INTEGER, c)) && q0 == p - |Tlv(INTEGER, c)|
    modifies Y
    ensures back == Parsed && q == p && Y.Int() == BytesVal(c)
  {
    hide LenCode, Prepended, IsLen, Tlv, BytesVal, Rest;
    PrependedRest(was, data, p, Tlv(INTEGER, c), end);
    TlvReads(INTEGER, c, was[p..end]);
    TlvSize(INTEGER, c);
    ghost var b := Rest(data, q0, end);
    back, q := GetMpi(data, q0, end, Y);
    ghost var n: nat, len: nat :|
      Element(b, INTEGER, n, len) && q == q0 + 1 + n + len && Y.Int() == BytesVal(Content(b, n, len));
    ElementUnique(b, INTEGER, n, len, |LenCode(|c|)|, |c|);
  }

  /** What lies behind p when the identifier is written: parLen bytes that are one whole element, or nothing. */
  ghost predicate ParamsReady(b: seq<byte>, p: nat, parLen: nat, tag: byte, value: seq<byte>)
  {
    |value| < LENGTHS && if parLen == 0 then tag == NULL && value == []
    else p + parLen <= |b| && b[p..p + parLen] == Tlv(tag, value)
  }

  /** An AlgorithmIdentifier comes back with its object identifier and its parameters, NULL for none. */
  method AlgorithmThereAndBack(buf: array<byte>, p: nat, oid: seq<byte>, parLen: nat, ghost tag: byte, ghost value: seq<byte>)
    returns (ret: Ret, back: Verdict, q: nat, alg: Buf, params: Buf)
    requires p + parLen <= buf.Length && buf.Length + parLen <= INT_MAX - 2
    requires ParamsReady(buf[..], p, parLen, tag, value)
    modifies buf
    ensures ret.Written? <==>
      |oid| <= p && |AlgContent(oid, parLen)| <= p &&
      |AlgContent(oid, parLen)| + |LenCode(|AlgContent(oid, parLen)| + parLen)| + 1 <= p
    ensures ret.Written? ==> back == Parsed && q == p + parLen
    ensures ret.Written? ==> alg.tag == OID && alg.at + alg.len <= |buf[..]| && buf[..][alg.at..alg.at + alg.len] == oid
    ensures ret.Written? ==>
      params.tag == tag && params.at + params.len <= |buf[..]| && buf[..][params.at..params.at + params.len] == value
  {
    hide LenCode, Prepended, IsLen, Tlv, AlgContent, IsAlg, AlgFound, Rest;
    alg, params := NO_BUF, NO_BUF;
    ret, q := WriteAlgorithm(buf, p, oid, parLen);
    if !ret.Written? {
      return ret, OutOfData, q, alg, params;
    }
    ghost var c := Tlv(OID, oid) + Tlv(tag, value);
    AlgWritten(old(buf[..]), buf[..], p, q, oid, parLen, tag, value);
    ghost var from := q;
    back, q, alg, params := GetAlg(buf[..], q, p + parLen);
    assert IsAlg(Rest(buf[..], from, p + parLen), |LenCode(|c|)|, |c|, |LenCode(|oid|)|, |oid|);
    ghost var n: nat, len: nat, m: nat :| AlgFound(buf[..], from, p + parLen, n, len, m, alg, params, q);
    AlgSame(buf[..], from, p + parLen, oid, tag, value, n, len, m, alg, params, q);
  }

  /** Written without parameters, it is one mbedtls_asn1_get_alg_null accepts. */
  method NullAlgorithmThereAndBack(buf: array<byte>, p: nat, oid: seq<byte>)
    returns (ret: Ret, back: Verdict, q: nat, alg: Buf)
    requires p <= buf.Length <= INT_MAX - 2
    modifies buf
    ensures ret.Written? <==>
      |oid| <= p && |AlgContent(oid, 0)| <= p && |AlgContent(oid, 0)| + |LenCode(|AlgContent(oid, 0)|)| + 1 <= p
    ensures ret.Written? ==> back == Parsed && q == p
    ensures ret.Written? ==> alg.tag == OID && alg.at + alg.len <= |buf[..]| && buf[..][alg.at..alg.at + alg.len] == oid
  {
    hide LenCode, Prepended, IsLen, Tlv, AlgContent, IsAlg, AlgFound, Rest;
    alg := NO_BUF;
    ret, q := WriteAlgorithm(buf, p, oid, 0);
    if !ret.Written? {
      return ret, OutOfData, q, alg;
    }
    ghost var c := Tlv(OID, oid) + Tlv(NULL, []);
    AlgWritten(old(buf[..]), buf[..], p, q, oid, 0, NULL, []);
    ghost var from := q;
    ghost var params;
    back, q, alg, params := GetAlgNull(buf[..], q, p);
    assert IsAlg(Rest(buf[..], from, p), |LenCode(|c|)|, |c|, |LenCode(|oid|)|, |oid|);
    ghost var n: nat, len: nat, m: nat :| AlgFound(buf[..], from, p, n, len, m, alg, params, q);
    AlgSame(buf[..], from, p, oid, NULL, [], n, len, m, alg, params, q);
  }

  /** The parameters in place complete what the writer puts in front of them. */
  lemma AlgWhole(w: seq<byte>, p: nat, oid: seq<byte>, parLen: nat, tag: byte, value: seq<byte>)
    requires p + parLen <= |w| && |oid| < LENGTHS && ParamsReady(w, p, parLen, tag, value)
    ensures AlgContent(oid, parLen) + w[p..p + parLen] == Tlv(OID, oid) + Tlv(tag, value)
  {
    hide Tlv;
    var t := Tlv(OID, oid);
    assert t + [] + w[p..p + parLen] == t + w[p..p + parLen];
    assert t + Tlv(NULL, []) + [] == t + Tlv(NULL, []);
  }

  lemma TlvOpen(tag: byte, c: seq<byte>)
    requires |c| < LENGTHS
    ensures Tlv(tag, c) == [tag] + LenCode(|c|) + c
  {
    hide LenCode;
  }

  lemma AlgWritten(w: seq<byte>, x: seq<byte>, p: nat, q: nat, oid: seq<byte>, parLen: nat, tag: byte, value: seq<byte>)
    requires p + parLen <= |w| <= INT_MAX - 2 - parLen && |oid| <= p && |AlgContent(oid, parLen)| <= p
    requires ParamsReady(w, p, parLen, tag, value)
    requires var a := AlgContent(oid, parLen); var h := [SEQUENCE] + LenCode(|a| + parLen) + a;
      Prepended(w, x, p, h) && q == p - |h|
    ensures var c := Tlv(OID, oid) + Tlv(tag, value);
      |c| < LENGTHS && Rest(x, q, p + parLen) == Tlv(SEQUENCE, c) &&
      IsAlg(Rest(x, q, p + parLen), |LenCode(|c|)|, |c|, |LenCode(|oid|)|, |oid|)
  {
    hide LenCode, Prepended, IsLen, IsAlg, AlgContent, Tlv, Rest, ParamsReady;
    var a := AlgContent(oid, parLen);
    var h := [SEQUENCE] + LenCode(|a| + parLen);
    ValueFits(w, p, parLen, tag, value);
    AlgWhole(w, p, oid, parLen, tag, value);
    PrependedRest(w, x, p, h + a, p + parLen);
    var c := Tlv(OID, oid) + Tlv(tag, value);
    TlvOpen(SEQUENCE, c);
    assert h + a + w[p..p + parLen] == h + (a + w[p..p + parLen]);
    AlgReads(oid, tag, value, []);
    assert Tlv(SEQUENCE, c) + [] == Tlv(SEQUENCE, c);
  }

  lemma ValueFits(w: seq<byte>, p: nat, parLen: nat, tag: byte, value: seq<byte>)
    requires ParamsReady(w, p, parLen, tag, value)
    ensures |value| < LENGTHS
  {
  }

  lemma AlgSame(x: seq<byte>, p: nat, end: nat, oid: seq<byte>, tag: byte, value: seq<byte>,
    n: nat, len: nat, m: nat, alg: Buf, params: Buf, q: nat)
    requires end <= |x| && |oid| < LENGTHS && |value| < LENGTHS && |Tlv(OID, oid) + Tlv(tag, value)| < LENGTHS
    requires Rest(x, p, end) == Tlv(SEQUENCE, Tlv(OID, oid) + Tlv(tag, value))
    requires AlgFound(x, p, end, n, len, m, alg, params, q)
    ensures q == end && alg.tag == OID && alg.at + alg.len <= |x| && x[alg.at..alg.at + alg.len] == oid
    ensures params.tag == tag && params.at + params.len <= |x| && x[params.at..params.at + params.len] == value
  {
    hide LenCode, IsLen, Tlv, AlgBody, BodyFound;
    var c := Tlv(OID, oid) + Tlv(tag, value);
    TlvReads(SEQUENCE, c, []);
    assert Tlv(SEQUENCE, c) + [] == Tlv(SEQUENCE, c);
    TlvSize(SEQUENCE, c);
    ElementUnique(Rest(x, p, end), SEQUENCE, n, len, |LenCode(|c|)|, |c|);
    assert Content(Rest(x, p, end), n, len) == Rest(x, p + 1 + n, q);
    BodySame(x, p + 1 + n, q, oid, tag, value, m, alg, params);
  }

  lemma BodySame(x: seq<byte>, p: nat, end: nat, oid: seq<byte>, tag: byte, value: seq<byte>, m: nat, alg: Buf, params: Buf)
    requires p <= end <= |x| && |oid| < LENGTHS && |value| < LENGTHS
    requires Rest(x, p, end) == Tlv(OID, oid) + Tlv(tag, value) && BodyFound(x, p, end, m, alg, params)
    ensures alg.tag == OID && alg.at + alg.len <= |x| && x[alg.at..alg.at + alg.len] == oid
    ensures params.tag == tag && params.at + params.len <= |x| && x[params.at..params.at + params.len] == value
  {
    hide LenCode, IsLen, Tlv, EmptyOrWhole, ParamsFound;
    var c := Rest(x, p, end);
    TlvReads(OID, oid, Tlv(tag, value));
    ElementUnique(c, OID, m, alg.len, |LenCode(|oid|)|, |oid|);
    SliceOfRest(x, p, end, 1 + m, 1 + m + alg.len);
    assert c[1 + m + alg.len..] == x[alg.at + alg.len..end];
    ParamsSame(x, alg.at + alg.len, end, tag, value, params);
  }

  lemma ParamsSame(x: seq<byte>, p: nat, end: nat, tag: byte, value: seq<byte>, params: Buf)
    requires p <= end <= |x| && |value| < LENGTHS && x[p..end] == Tlv(tag, value) && ParamsFound(x, p, end, params)
    ensures params.tag == tag && params.at + params.len <= |x| && x[params.at..params.at + params.len] == value
  {
    hide LenCode, IsLen, Tlv;
    var t := Tlv(tag, value);
    TlvSize(tag, value);
    TlvReads(tag, value, []);
    assert t + [] == t;
    assert t[0] == x[p];
    assert t[1..] == x[p + 1..end];
    HeadUnique(t[1..], params.at - (p + 1), params.len, |LenCode(|value|)|, |value|);
    SliceOfRest(x, p, end, params.at - p, params.at - p + params.len);
  }
}
