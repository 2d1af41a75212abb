/** DER parsing: every routine reads forward from p and moves it past what it accepted. */
module Asn1Parse {
  import opened Numbers
  import opened MpiCore
  import opened MpiBytes
  import opened Der
  import opened Asn1Write

  /** What the parsers return. */
  datatype Verdict =
    | Parsed
    | OutOfData
    | InvalidLength
    | UnexpectedTag
    | LengthMismatch
    | InvalidData

  /** The bytes from p up to end; p may have run past it. */
  function Rest(data: seq<byte>, p: nat, end: nat): (b: seq<byte>)
    requires end <= |data|
    ensures |b| == if p <= end then end - p else 0
  {
    if p <= end then data[p..end] else []
  }

  lemma SliceOfRest(data: seq<byte>, p: nat, end: nat, i: nat, j: nat)
    requires p <= end <= |data| && i <= j <= end - p
    ensures Rest(data, p, end)[i..j] == data[p + i..p + j]
  {
    SliceSlice(data, p, end, i, j);
  }

  lemma BytesFew(a: byte, b: byte, c: byte, d: byte)
    ensures BytesVal([a]) == a
    ensures BytesVal([a, b]) == 256 * a + b
    ensures BytesVal([a, b, c]) == 256 * (256 * a + b) + c
    ensures BytesVal([a, b, c, d]) == 256 * (256 * (256 * a + b) + c) + d
  {
    assert [a][..0] == [] && BytesVal([]) == 0;
    assert [a, b][..1] == [a];
    assert [a, b, c][..2] == [a, b];
    assert [a, b, c, d][..3] == [a, b, c];
  }

  /** Octets n of a length are the only ones a head can consist of. */
  lemma HeadSpan(b: seq<byte>, n: nat, len: nat)
    requires Head(b, n, len)
    ensures if b[0] < 0x80 then n == 1 && len == b[0] else 2 <= n <= 5 && b[0] == 0x80 + (n - 1) && BytesVal(b[1..n]) == len
  {
    hide BytesVal;
    assert b[..n][1..] == b[1..n];
  }

  lemma LongHead(b: seq<byte>, n: nat, len: nat)
    requires 2 <= n <= 5 && n <= |b| && b[0] == 0x80 + (n - 1) && BytesVal(b[1..n]) == len
    ensures n + len <= |b| ==> Head(b, n, len)
    ensures n + len > |b| ==> NoHead(b)
  {
    hide BytesVal;
    assert b[..n][1..] == b[1..n];
    if n + len > |b| {
      forall m: nat, l: nat | Head(b, m, l)
        ensures false
      {
        HeadSpan(b, m, l);
      }
    }
  }

  ghost predicate NoHead(b: seq<byte>)
  {
    forall n: nat, len: nat :: !Head(b, n, len)
  }

  lemma ShortOfOctets(b: seq<byte>)
    requires |b| > 0 && b[0] >= 0x80 && (b[0] == 0x80 || b[0] > 0x84 || |b| < b[0] - 0x80 + 1)
    ensures NoHead(b)
  {
    forall m: nat, l: nat | Head(b, m, l)
      ensures false
    {
      HeadSpan(b, m, l);
    }
  }

  /** The long form with n - 1 octets, as the cases of the switch read it. */
  method LongLen(data: seq<byte>, p: nat, end: nat, n: nat) returns (ret: Verdict, q: nat, len: nat)
    requires p < end <= |data| && 2 <= n <= 5 && data[p] == 0x80 + (n - 1)
    ensures ret == Parsed || ret == OutOfData
    ensures ret == Parsed ==> q == p + n && end - p >= n && BytesVal(Rest(data, p, end)[1..n]) == len
    ensures ret == OutOfData <==> end - p < n
  {
    hide BytesVal;
    if end - p < n {
      return OutOfData, p, 0;
    }
    var x1: nat := data[p + 1];
    var x2: nat := if n > 2 then data[p + 2] else 0;
    var x3: nat := if n > 3 then data[p + 3] else 0;
    var x4: nat := if n > 4 then data[p + 4] else 0;
    BytesFew(x1, x2, x3, x4);
    assert Rest(data, p, end)[1..n] == data[p + 1..p + n];
    if n == 2 {
      len := x1;
      assert data[p + 1..p + n] == [x1];
    } else if n == 3 {
      len := 0x100 * x1 + x2;
      assert data[p + 1..p + n] == [x1, x2];
    } else if n == 4 {
      len := 0x1_0000 * x1 + 0x100 * x2 + x3;
      assert data[p + 1..p + n] == [x1, x2, x3];
    } else {
      len := 0x100_0000 * x1 + 0x1_0000 * x2 + 0x100 * x3 + x4;
      assert data[p + 1..p + n] == [x1, x2, x3, x4];
    }
    return Parsed, p + n, len;
  }

  /** What mbedtls_asn1_get_len answers. */
  ghost function LenVerdict(b: seq<byte>): Verdict
  {
    if b != [] && (b[0] == 0x80 || b[0] > 0x84) then InvalidLength
    else if NoHead(b) then OutOfData else Parsed
  }

  /** What mbedtls_asn1_get_tag answers. */
  ghost function TagVerdict(b: seq<byte>, tag: byte): Verdict
  {
    if b == [] then OutOfData else if b[0] != tag then UnexpectedTag else LenVerdict(b[1..])
  }

  /** mbedtls_asn1_get_len */
  method GetLen(data: seq<byte>, p: nat, end: nat) returns (ret: Verdict, q: nat, len: nat)
    requires end <= |data|
    ensures ret == Parsed ==> p < q <= end && Head(Rest(data, p, end), q - p, len)
    ensures ret != Parsed ==> NoHead(Rest(data, p, end))
    ensures ret == LenVerdict(Rest(data, p, end))
    ensures ret == Parsed || ret == InvalidLength || ret == OutOfData
  {
    hide BytesVal;
    ghost var b := Rest(data, p, end);
    if end < p + 1 {
      return OutOfData, p, 0;
    }
    if data[p] < 0x80 {
      len := data[p];
      q := p + 1;
      ShortHead(b);
      ret := Parsed;
    } else if data[p] == 0x80 || data[p] > 0x84 {
      ShortOfOctets(b);
      return InvalidLength, p, 0;
    } else {
      ret, q, len := LongLen(data, p, end, data[p] - 0x80 + 1);
      if ret != Parsed {
        ShortOfOctets(b);
        return;
      }
      LongHead(b, q - p, len);
    }
    if len > end - q {
      return OutOfData, q, len;
    }
  }

  lemma ShortHead(b: seq<byte>)
    requires |b| > 0 && b[0] < 0x80
    ensures 1 + b[0] <= |b| ==> Head(b, 1, b[0])
    ensures 1 + b[0] > |b| ==> NoHead(b)
  {
    hide BytesVal;
    if 1 + b[0] > |b| {
      forall m: nat, l: nat | Head(b, m, l)
        ensures false
      {
        HeadSpan(b, m, l);
      }
    }
  }

  ghost predicate NoElement(b: seq<byte>, tag: byte)
  {
    forall n: nat, len: nat :: !Element(b, tag, n, len)
  }

  /** mbedtls_asn1_get_tag */
  method GetTag(data: seq<byte>, p: nat, end: nat, tag: byte) returns (ret: Verdict, q: nat, len: nat)
    requires end <= |data|
    ensures ret == Parsed ==> p + 2 <= q && q + len <= end && Element(Rest(data, p, end), tag, q - p - 1, len)
    ensures ret != Parsed ==> NoElement(Rest(data, p, end), tag)
    ensures ret == TagVerdict(Rest(data, p, end), tag)
    ensures ret == Parsed || ret == UnexpectedTag || ret == InvalidLength || ret == OutOfData
  {
    hide IsLen, LenVerdict;
    if end < p + 1 {
      return OutOfData, p, 0;
    }
    if data[p] != tag {
      return UnexpectedTag, p, 0;
    }
    ret, q, len := GetLen(data, p + 1, end);
    assert Rest(data, p, end)[1..] == Rest(data, p + 1, end);
  }

  /** mbedtls_asn1_get_mpi: the content is read as an unsigned number. */
  method GetMpi(data: seq<byte>, p: nat, end: nat, X: Mpi) returns (ret: Verdict, q: nat)
    requires end <= |data|
    modifies X
    ensures ret == Parsed ==> exists n: nat, len: nat ::
      Element(Rest(data, p, end), INTEGER, n, len) && q == p + 1 + n + len &&
      X.s == 1 && X.Int() == BytesVal(Content(Rest(data, p, end), n, len))
    ensures ret != Parsed ==> NoElement(Rest(data, p, end), INTEGER) && X.p == old(X.p) && X.s == old(X.s)
    ensures ret == TagVerdict(Rest(data, p, end), INTEGER)
  {
    hide BytesVal, IsLen, Head, TagVerdict;
    var len;
    ret, q, len := GetTag(data, p, end, INTEGER);
    if ret != Parsed {
      return;
    }
    ghost var n := q - p - 1;
    ReadBinary(X, data[q..q + len]);
    SliceOfRest(data, p, end, 1 + n, 1 + n + len);
    q := q + len;
    assert Element(Rest(data, p, end), INTEGER, n, len);
  }

  // ---------------------------------------------------------------- algorithm identifiers

  /** mbedtls_asn1_buf: a tag and where the value lies. */
  datatype Buf = Buf(tag: byte, at: nat, len: nat)

  /** The parameters as mbedtls_platform_zeroize leaves them. */
  const NO_BUF: Buf := Buf(0, 0, 0)

  ghost predicate NotAlg(b: seq<byte>)
  {
    forall n: nat, len: nat, m: nat, oid: nat :: !IsAlg(b, n, len, m, oid)
  }

  ghost predicate NotAlgBody(c: seq<byte>)
  {
    forall m: nat, oid: nat :: !AlgBody(c, m, oid)
  }

  /** How what follows the object identifier is refused. */
  ghost predicate RestFails(r: seq<byte>, v: Verdict)
  {
    r != [] &&
    if NoHead(r[1..]) then v == LenVerdict(r[1..]) else v == LengthMismatch && !EmptyOrWhole(r)
  }

  ghost predicate BodyFails(c: seq<byte>, v: Verdict)
  {
    if NoElement(c, OID) then v == TagVerdict(c, OID)
    else exists m: nat, oid: nat :: Element(c, OID, m, oid) && RestFails(c[1 + m + oid..], v)
  }

  /** Which error an input that is no AlgorithmIdentifier gets. */
  ghost predicate AlgFails(b: seq<byte>, v: Verdict)
  {
    if NoElement(b, SEQUENCE) then v == TagVerdict(b, SEQUENCE)
    else exists n: nat, len: nat :: Element(b, SEQUENCE, n, len) && BodyFails(Content(b, n, len), v)
  }

  /** It is one error. */
  lemma AlgFailsOnce(b: seq<byte>, v: Verdict, w: Verdict)
    requires AlgFails(b, v) && AlgFails(b, w)
    ensures v == w
  {
    hide IsLen, BodyFails, NoElement, TagVerdict;
    if !NoElement(b, SEQUENCE) {
      var n: nat, len: nat :| Element(b, SEQUENCE, n, len) && BodyFails(Content(b, n, len), v);
      var n': nat, len': nat :| Element(b, SEQUENCE, n', len') && BodyFails(Content(b, n', len'), w);
      ElementUnique(b, SEQUENCE, n, len, n', len');
      BodyFailsOnce(Content(b, n, len), v, w);
    }
  }

  lemma BodyFailsOnce(c: seq<byte>, v: Verdict, w: Verdict)
    requires BodyFails(c, v) && BodyFails(c, w)
    ensures v == w
  {
    hide IsLen, RestFails, NoElement, TagVerdict;
    if !NoElement(c, OID) {
      var m: nat, o: nat :| Element(c, OID, m, o) && RestFails(c[1 + m + o..], v);
      var m': nat, o': nat :| Element(c, OID, m', o') && RestFails(c[1 + m' + o'..], w);
      ElementUnique(c, OID, m, o, m', o');
      RestFailsOnce(c[1 + m + o..], v, w);
    }
  }

  lemma RestFailsOnce(r: seq<byte>, v: Verdict, w: Verdict)
    requires RestFails(r, v) && RestFails(r, w)
    ensures v == w
  {
    hide NoHead, LenVerdict, EmptyOrWhole;
  }

  lemma HasElement(b: seq<byte>, tag: byte, n: nat, len: nat)
    requires Element(b, tag, n, len)
    ensures !NoElement(b, tag)
  {
  }

  lemma HasHead(b: seq<byte>, n: nat, len: nat)
    requires Head(b, n, len)
    ensures !NoHead(b)
  {
  }

  lemma BodyIsNotAlg(b: seq<byte>, n: nat, len: nat)
    requires Element(b, SEQUENCE, n, len)
    requires NotAlgBody(Content(b, n, len))
    ensures NotAlg(b)
  {
    hide IsLen, AlgBody;
    forall m: nat, l: nat, k: nat, oid: nat | IsAlg(b, m, l, k, oid)
      ensures false
    {
      ElementUnique(b, SEQUENCE, n, len, m, l);
    }
  }

  lemma LastIsNotBody(c: seq<byte>, m: nat, oid: nat)
    requires Element(c, OID, m, oid) && !EmptyOrWhole(c[1 + m + oid..])
    ensures NotAlgBody(c)
  {
    hide IsLen, EmptyOrWhole;
    forall k: nat, o: nat | AlgBody(c, k, o)
      ensures false
    {
      ElementUnique(c, OID, m, oid, k, o);
    }
  }

  lemma NotWhole(r: seq<byte>, k: nat, l: nat)
    requires |r| > 0 && Head(r[1..], k, l) && 1 + k + l != |r|
    ensures !EmptyOrWhole(r)
  {
    hide IsLen;
    if i: nat, j: nat :| Whole(r, i, j) {
      HeadUnique(r[1..], k, l, i, j);
    }
  }

  /** What mbedtls_asn1_get_alg reports about the inside of an AlgorithmIdentifier. */
  ghost predicate BodyFound(data: seq<byte>, p: nat, end: nat, m: nat, alg: Buf, params: Buf)
    requires end <= |data|
  {
    AlgBody(Rest(data, p, end), m, alg.len) && alg.tag == OID && alg.at == p + 1 + m &&
    ParamsFound(data, alg.at + alg.len, end, params)
  }

  ghost predicate ParamsFound(data: seq<byte>, p: nat, end: nat, params: Buf)
    requires end <= |data|
  {
    p <= end && if p == end then params == NO_BUF
    else
      params.tag == data[p] && p + 1 < params.at && params.at + params.len == end &&
      Head(data[p + 1..end], params.at - (p + 1), params.len)
  }

  ghost predicate AlgFound(data: seq<byte>, p: nat, end: nat, n: nat, len: nat, m: nat, alg: Buf, params: Buf, q: nat)
    requires end <= |data|
  {
    p < end && IsAlg(Rest(data, p, end), n, len, m, alg.len) && q == p + 1 + n + len && q <= end &&
    BodyFound(data, p + 1 + n, q, m, alg, params)
  }

  /** mbedtls_asn1_get_alg */
  method GetAlg(data: seq<byte>, p: nat, end: nat) returns (ret: Verdict, q: nat, alg: Buf, params: Buf)
    requires end <= |data|
    ensures ret == Parsed ==> exists n: nat, len: nat, m: nat :: AlgFound(data, p, end, n, len, m, alg, params, q)
    ensures ret != Parsed ==> NotAlg(Rest(data, p, end)) && AlgFails(Rest(data, p, end), ret)
    ensures ret != InvalidData
  {
    hide IsLen, AlgBody, BodyFound, TagVerdict, NoElement, BodyFails;
    alg, params := NO_BUF, NO_BUF;
    var len;
    ghost var b := Rest(data, p, end);
    ret, q, len := GetTag(data, p, end, SEQUENCE);
    if ret != Parsed {
      NothingThere(b);
      return;
    }
    ghost var n := q - p - 1;
    HasElement(b, SEQUENCE, n, len);
    SliceOfRest(data, p, end, 1 + n, 1 + n + len);
    assert Content(b, n, len) == Rest(data, q, q + len);
    if end < q + 1 {
      ret := OutOfData;
      EmptyIsNotBody(Content(b, n, len));
      BodyIsNotAlg(b, n, len);
      return;
    }
    ghost var start := q;
    ret, q, alg, params := GetAlgBody(data, q, q + len, data[q]);
    if ret != Parsed {
      BodyIsNotAlg(b, n, len);
      return;
    }
    ghost var m :| BodyFound(data, start, q, m, alg, params);
    BodyOf(data, start, q, m, alg, params);
    assert AlgFound(data, p, end, n, len, m, alg, params, q);
  }

  lemma BodyOf(data: seq<byte>, p: nat, end: nat, m: nat, alg: Buf, params: Buf)
    requires end <= |data| && BodyFound(data, p, end, m, alg, params)
    ensures AlgBody(Rest(data, p, end), m, alg.len)
  {
  }

  lemma EmptyIsNotBody(c: seq<byte>)
    requires c == []
    ensures NotAlgBody(c) && BodyFails(c, OutOfData)
  {
    assert NoElement(c, OID);
  }

  /** The object identifier and what follows it, inside the SEQUENCE. */
  method GetAlgBody(data: seq<byte>, p: nat, end: nat, tag: byte) returns (ret: Verdict, q: nat, alg: Buf, params: Buf)
    requires end <= |data| && (p < end ==> tag == data[p])
    ensures ret == Parsed ==> q == end && exists m: nat :: BodyFound(data, p, end, m, alg, params)
    ensures ret != Parsed ==> NotAlgBody(Rest(data, p, end)) && BodyFails(Rest(data, p, end), ret)
    ensures ret != InvalidData
  {
    hide IsLen, EmptyOrWhole, TagVerdict, NoElement, RestFails;
    alg, params := NO_BUF.(tag := tag), NO_BUF;
    var len;
    ghost var c := Rest(data, p, end);
    ret, q, len := GetTag(data, p, end, OID);
    if ret != Parsed {
      NothingThere(c);
      return;
    }
    ghost var m := q - p - 1;
    HasElement(c, OID, m, len);
    alg := Buf(alg.tag, q, len);
    q := q + len;
    assert c[1 + m + len..] == Rest(data, q, end);
    if q == end {
      NothingIsFine(c[1 + m + len..]);
      assert BodyFound(data, p, end, m, alg, params);
      return;
    }
    ret, q, params := GetParams(data, q, end);
    if ret != Parsed {
      LastIsNotBody(c, m, len);
      return;
    }
    assert BodyFound(data, p, end, m, alg, params);
  }

  lemma NothingThere(c: seq<byte>)
    ensures NoElement(c, OID) ==> NotAlgBody(c)
    ensures NoElement(c, SEQUENCE) ==> NotAlg(c)
  {
    hide Head;
  }

  lemma NothingIsFine(r: seq<byte>)
    requires r == []
    ensures EmptyOrWhole(r)
  {
  }

  /** Its last part: one element of any tag that reaches to the end. */
  method GetParams(data: seq<byte>, p: nat, end: nat) returns (ret: Verdict, q: nat, params: Buf)
    requires p < end <= |data|
    ensures ret == Parsed <==> EmptyOrWhole(Rest(data, p, end))
    ensures ret == Parsed ==> q == end && ParamsFound(data, p, end, params)
    ensures ret != InvalidData && (ret != Parsed ==> RestFails(Rest(data, p, end), ret))
  {
    hide IsLen, LenVerdict;
    ghost var r := Rest(data, p, end);
    var len;
    params := Buf(data[p], 0, 0);
    ret, q, len := GetLen(data, p + 1, end);
    assert r[1..] == Rest(data, p + 1, end) == data[p + 1..end];
    if ret != Parsed {
      params := params.(len := len);
      return;
    }
    params := Buf(params.tag, q, len);
    q := q + len;
    HasHead(r[1..], params.at - (p + 1), len);
    if q != end {
      NotWhole(r, params.at - (p + 1), len);
      return LengthMismatch, q, params;
    }
    assert Whole(r, params.at - (p + 1), len);
  }

  /** mbedtls_asn1_get_alg_null */
  method GetAlgNull(data: seq<byte>, p: nat, end: nat) returns (ret: Verdict, q: nat, alg: Buf, ghost params: Buf)
    requires end <= |data|
    ensures ret == Parsed ==> exists n: nat, len: nat, m: nat :: AlgFound(data, p, end, n, len, m, alg, params, q)
    ensures ret == Parsed ==> (params.tag == NULL || params.tag == 0) && params.len == 0
    ensures ret == InvalidData ==> (exists n: nat, len: nat, m: nat :: AlgFound(data, p, end, n, len, m, alg, params, q))
    ensures ret == InvalidData ==> !((params.tag == NULL || params.tag == 0) && params.len == 0)
    ensures ret != Parsed && ret != InvalidData ==> NotAlg(Rest(data, p, end)) && AlgFails(Rest(data, p, end), ret)
  {
    hide AlgFound, AlgFails;
    var found;
    ret, q, alg, found := GetAlg(data, p, end);
    params := found;
    if ret == Parsed && ((found.tag != NULL && found.tag != 0) || found.len != 0) {
      ret := InvalidData;
    }
  }
}
