/** DER bit strings whose bits have names: trailing zero bits are dropped when writing, and no named bit is lost. */
module Asn1BitString {
  import opened Numbers
  import opened MpiBytes
  import opened Der
  import opened Asn1Write
  import opened Asn1Parse
  import opened Asn1RoundTrip

  // ---------------------------------------------------------------- bits

  /** Bit k of a byte, counted from its low end. */
  function Bit(x: byte, k: nat): bool
  {
    PowPos(2, k);
    x / Pow(2, k) % 2 == 1
  }

  /** Bit i of a bit string, counted from its front, where the high bits of a byte come first. */
  predicate Named(b: seq<byte>, i: nat)
  {
    i / 8 < |b| && Bit(b[i / 8], 7 - i % 8)
  }

  lemma ShiftMore(x: nat, k: nat)
    ensures 0 < Pow(2, k) && 0 < Pow(2, k + 1) && x / Pow(2, k) / 2 == x / Pow(2, k + 1)
  {
    hide Pow;
    PowPos(2, k);
    PowPos(2, k + 1);
    PowTwice(k);
    var q := QuotRem(x, Pow(2, k));
    var h := QuotRem(q.0, 2);
    Assoc(h.0, 2, Pow(2, k));
    MulMono(h.1, 1, Pow(2, k));
    MulPos(h.1, Pow(2, k));
    Distr(Pow(2, k), h.0 * 2, h.1);
    DivModUnique(x, Pow(2, k + 1), h.0, h.1 * Pow(2, k) + q.1);
  }

  /** `x & ~( ( 1 << u ) - 1 )` */
  function Masked(x: byte, u: nat): (y: byte)
  {
    PowPos(2, u);
    var q := QuotRem(x, Pow(2, u));
    MulPos(q.0, Pow(2, u));
    x - q.1
  }

  lemma MaskedBit(x: byte, u: nat, k: nat)
    ensures Bit(Masked(x, u), k) == (k >= u && Bit(x, k))
  {
    hide Pow;
    PowPos(2, u);
    PowPos(2, k);
    var q := QuotRem(x, Pow(2, u));
    var y := Masked(x, u);
    if k < u {
      PowAdd(2, u - k - 1, k + 1);
      PowTwice(k);
      var m := q.0 * Pow(2, u - k - 1);
      Assoc(q.0, Pow(2, u - k - 1), Pow(2, k + 1));
      Assoc(m, 2, Pow(2, k));
      MulPos(q.0, Pow(2, u - k - 1));
      DivModUnique(y, Pow(2, k), m * 2, 0);
    } else {
      PowAdd(2, k - u, u);
      PowPos(2, k - u);
      var h := QuotRem(q.0, Pow(2, k - u));
      Distr(Pow(2, u), h.0 * Pow(2, k - u), h.1);
      Assoc(h.0, Pow(2, k - u), Pow(2, u));
      MulMono(h.1 + 1, Pow(2, k - u), Pow(2, u));
      Distr(Pow(2, u), h.1, 1);
      MulPos(h.1, Pow(2, u));
      DivModUnique(y, Pow(2, k), h.0, h.1 * Pow(2, u));
      DivModUnique(x, Pow(2, k), h.0, h.1 * Pow(2, u) + q.1);
    }
  }

  // ---------------------------------------------------------------- writing

  function ByteLen(bits: nat): (n: nat)
    ensures 8 * n >= bits > 8 * (n - 1)
  {
    (bits + 7) / 8
  }

  function Unused(bits: nat): (u: nat)
    ensures u < 8
  {
    ByteLen(bits) * 8 - bits
  }

  /** The value octets: the first bits of b, with the unused ones cleared. */
  function Packed(b: seq<byte>, bits: nat): (v: seq<byte>)
    requires bits <= 8 * |b|
    ensures |v| == ByteLen(bits)
  {
    var n := ByteLen(bits);
    if n == 0 then [] else b[..n - 1] + [Masked(b[n - 1], Unused(bits))]
  }

  /** Clearing the unused bits leaves exactly the named bits below `bits`. */
  lemma PackedBits(b: seq<byte>, bits: nat, i: nat)
    requires bits <= 8 * |b|
    ensures Named(Packed(b, bits), i) <==> i < bits && Named(b, i)
  {
    hide Bit, Masked;
    var n := ByteLen(bits);
    if n > 0 && i / 8 == n - 1 {
      MaskedBit(b[n - 1], Unused(bits), 7 - i % 8);
    }
  }

  /** mbedtls_asn1_write_bitstring */
  method WriteBitstring(buf: array<byte>, p: nat, b: seq<byte>, bits: nat) returns (ret: Ret, q: nat)
    requires p <= buf.Length <= INT_MAX && bits <= 8 * |b|
    modifies buf
    ensures ret.Written? <==> ByteLen(bits) < p && |Tlv(BIT_STRING, [Unused(bits)] + Packed(b, bits))| <= p
    ensures !ret.Written? ==> ret == BufTooSmall
    ensures ret.Written? ==> ret.n == p - q == |Tlv(BIT_STRING, [Unused(bits)] + Packed(b, bits))| && q <= p
    ensures ret.Written? ==> Prepended(old(buf[..]), buf[..], p, Tlv(BIT_STRING, [Unused(bits)] + Packed(b, bits)))
    ensures Kept(old(buf[..]), buf[..], p)
  {
    hide Prepended, Kept, Tlv, LenCode, Packed, Masked;
    var n := ByteLen(bits);
    if p < n + 1 {
      NothingPrepended(buf[..], p);
      PrependKeeps(buf[..], buf[..], p, []);
      return BufTooSmall, p;
    }
    q := WriteValue(buf, p, b, bits);
    ghost var w := old(buf[..]);
    ghost var x := buf[..];
    q := Put(buf, q, Unused(bits));
    ghost var y := buf[..];
    ghost var c := [Unused(bits)] + Packed(b, bits);
    PrependMore(w, x, y, p, Packed(b, bits), [Unused(bits)]);
    PrependKeeps(w, y, p, c);
    TlvSize(BIT_STRING, c);
    ret, q := WriteHead(buf, q, n + 1, BIT_STRING);
    KeptMore(w, y, buf[..], p, p - |c|);
    if ret.Written? {
      HeadMakesTlv(w, y, buf[..], p, c, BIT_STRING);
      ret := Written(n + 1 + ret.n);
    }
  }

  /** The last octet masked, the others copied in front of it. */
  method WriteValue(buf: array<byte>, p: nat, b: seq<byte>, bits: nat) returns (q: nat)
    requires p <= buf.Length && bits <= 8 * |b| && ByteLen(bits) < p
    modifies buf
    ensures q == p - ByteLen(bits) && Prepended(old(buf[..]), buf[..], p, Packed(b, bits))
  {
    hide Prepended, Masked;
    q := p;
    var n := ByteLen(bits);
    NothingPrepended(buf[..], p);
    if n > 0 {
      n := n - 1;
      q := Put(buf, q, Masked(b[n], Unused(bits)));
      ghost var x := buf[..];
      q := q - n;
      CopyIn(buf, q, b[..n]);
      PrependMore(old(buf[..]), x, buf[..], p, [Masked(b[n], Unused(bits))], b[..n]);
    }
  }

  /** memcpy */
  method CopyIn(buf: array<byte>, q: nat, s: seq<byte>)
    requires q + |s| <= buf.Length
    modifies buf
    ensures Prepended(old(buf[..]), buf[..], q + |s|, s)
  {
    forall k | 0 <= k < |s| {
      buf[q + k] := s[k];
    }
  }

  // ---------------------------------------------------------------- named bit strings

  /** The bit the shifted byte shows next. */
  lemma ShownBit(b: seq<byte>, i: nat)
    requires i / 8 < |b|
    ensures 0 < Pow(2, 7 - i % 8) && (b[i / 8] / Pow(2, 7 - i % 8) % 2 == 1 <==> Named(b, i))
  {
    PowPos(2, 7 - i % 8);
    hide Pow;
  }

  /** cur_byte_shifted when `bits` bits are left. */
  function Shifted(b: seq<byte>, bits: nat): nat
    requires 0 < bits <= 8 * |b|
  {
    PowPos(2, 7 - (bits - 1) % 8);
    QuotRem(b[(bits - 1) / 8], Pow(2, 7 - (bits - 1) % 8)).0
  }

  lemma ShiftedNext(b: seq<byte>, bits: nat)
    requires 1 < bits <= 8 * |b|
    ensures Shifted(b, bits - 1) == if (bits - 1) % 8 == 0 then b[(bits - 1) / 8 - 1] else Shifted(b, bits) / 2
  {
    var r := (bits - 1) % 8;
    if r == 0 {
      assert (bits - 2) % 8 == 7 && (bits - 2) / 8 == (bits - 1) / 8 - 1;
      PowOne(2);
    } else {
      assert (bits - 2) % 8 == r - 1 && (bits - 2) / 8 == (bits - 1) / 8;
      ShiftMore(b[(bits - 1) / 8], 7 - r);
    }
    hide Pow;
  }

  lemma UnusedIs(bits: nat)
    requires bits > 0
    ensures Unused(bits) == 7 - (bits - 1) % 8 && ByteLen(bits) - 1 == (bits - 1) / 8
  {
  }

  /** The loop that drops trailing zero bits. */
  method DropZeros(b: seq<byte>, bits0: nat) returns (bits: nat)
    requires bits0 <= 8 * |b|
    ensures bits <= bits0 && (bits > 0 ==> Named(b, bits - 1))
    ensures forall i :: bits <= i < bits0 ==> !Named(b, i)
  {
    hide Pow, Bit, Shifted, Named;
    bits := bits0;
    if bits == 0 {
      return;
    }
    UnusedIs(bits);
    ShownBit(b, bits - 1);
    var curByte := ByteLen(bits) - 1;
    var shifted: nat := b[curByte] / Pow(2, Unused(bits));
    ShiftedIs(b, bits);
    while true
      invariant 0 < bits <= bits0 && curByte == (bits - 1) / 8 && shifted == Shifted(b, bits)
      invariant forall i :: bits <= i < bits0 ==> !Named(b, i)
      decreases bits
    {
      ShiftedIs(b, bits);
      ShownBit(b, bits - 1);
      var bit := shifted % 2;
      shifted := shifted / 2;
      if bit != 0 {
        return;
      }
      bits := bits - 1;
      if bits == 0 {
        return;
      }
      ShiftedNext(b, bits + 1);
      if bits % 8 == 0 {
        curByte := curByte - 1;
        shifted := b[curByte];
      }
    }
  }

  lemma ShiftedIs(b: seq<byte>, bits: nat)
    requires 0 < bits <= 8 * |b|
    ensures 0 < Pow(2, 7 - (bits - 1) % 8) && Shifted(b, bits) == b[(bits - 1) / 8] / Pow(2, 7 - (bits - 1) % 8)
  {
    PowPos(2, 7 - (bits - 1) % 8);
  }

  /** mbedtls_asn1_write_named_bitstring. kept is the number of bits that remain. */
  method WriteNamed(buf: array<byte>, p: nat, b: seq<byte>, bits: nat) returns (ret: Ret, q: nat, ghost kept: nat)
    requires p <= buf.Length <= INT_MAX && bits <= 8 * |b|
    modifies buf
    ensures kept <= bits && (kept > 0 ==> Named(b, kept - 1))
    ensures forall i :: kept <= i < bits ==> !Named(b, i)
    ensures ret.Written? <==> ByteLen(kept) < p && |Tlv(BIT_STRING, [Unused(kept)] + Packed(b, kept))| <= p
    ensures !ret.Written? ==> ret == BufTooSmall
    ensures ret.Written? ==> ret.n == p - q == |Tlv(BIT_STRING, [Unused(kept)] + Packed(b, kept))| && q <= p
    ensures ret.Written? ==> Prepended(old(buf[..]), buf[..], p, Tlv(BIT_STRING, [Unused(kept)] + Packed(b, kept)))
    ensures Kept(old(buf[..]), buf[..], p)
  {
    hide Prepended, Kept, Tlv, LenCode, Packed, Masked, Named;
    var left := DropZeros(b, bits);
    kept := left;
    ret, q := WriteBitstring(buf, p, b, left);
  }

  // ---------------------------------------------------------------- reading

  /** mbedtls_asn1_bitstring */
  datatype BitString = BitString(len: nat, unused: byte, at: nat)

  ghost predicate IsBitString(b: seq<byte>, n: nat, len: nat)
  {
    Element(b, BIT_STRING, n, len) && 1 + n + len == |b| && 1 <= len && b[1 + n] <= 7
  }

  ghost predicate NoBitString(b: seq<byte>)
  {
    forall n: nat, len: nat :: !IsBitString(b, n, len)
  }

  /** Which error an input that is no bit string gets. */
  ghost predicate BitStringFails(b: seq<byte>, v: Verdict)
  {
    if NoElement(b, BIT_STRING) then v == TagVerdict(b, BIT_STRING)
    else
      exists n: nat, len: nat ::
        Element(b, BIT_STRING, n, len) &&
        v == if len < 1 then OutOfData else if b[1 + n] > 7 then InvalidLength else LengthMismatch
  }

  /** mbedtls_asn1_get_bitstring: the bit string has to fill the data to its end. */
  method GetBitstring(data: seq<byte>, p: nat, end: nat) returns (ret: Verdict, q: nat, bs: BitString)
    requires end <= |data|
    ensures ret == Parsed ==> q == end && p + 2 < bs.at && bs.at + bs.len == end
    ensures ret == Parsed ==> IsBitString(Rest(data, p, end), bs.at - p - 2, bs.len + 1) && bs.unused == data[bs.at - 1]
    ensures ret != Parsed ==> NoBitString(Rest(data, p, end)) && BitStringFails(Rest(data, p, end), ret)
  {
    hide IsLen, TagVerdict, NoElement;
    bs := BitString(0, 0, 0);
    var len;
    ghost var b := Rest(data, p, end);
    ret, q, len := GetTag(data, p, end, BIT_STRING);
    if ret != Parsed {
      NoneIsNoBitString(b);
      return;
    }
    ghost var n := q - p - 1;
    NotThisBitString(b, n, len);
    HasElement(b, BIT_STRING, n, len);
    assert len >= 1 ==> data[q] == b[1 + n];
    if len < 1 {
      return OutOfData, q, bs.(len := len);
    }
    bs := BitString(len - 1, data[q], 0);
    if bs.unused > 7 {
      return InvalidLength, q, bs;
    }
    q := q + 1;
    bs := bs.(at := q);
    q := q + bs.len;
    if q != end {
      return LengthMismatch, q, bs;
    }
  }

  lemma NoneIsNoBitString(b: seq<byte>)
    requires NoElement(b, BIT_STRING)
    ensures NoBitString(b)
  {
    hide Head;
  }

  lemma NotThisBitString(b: seq<byte>, n: nat, len: nat)
    requires Element(b, BIT_STRING, n, len)
    ensures IsBitString(b, n, len) || NoBitString(b)
  {
    hide IsLen;
    if !IsBitString(b, n, len) {
      forall m: nat, l: nat | IsBitString(b, m, l)
        ensures false
      {
        ElementUnique(b, BIT_STRING, n, len, m, l);
      }
    }
  }

  /** Every named bit comes back and no other one appears, up to the end of the data and beyond it; and the string
      written has no trailing zero bit (section 11.2.2 of X.690). */
  method NamedThereAndBack(buf: array<byte>, p: nat, b: seq<byte>, bits: nat)
    returns (ret: Ret, back: Verdict, q: nat, bs: BitString)
    requires p <= buf.Length <= INT_MAX && bits <= 8 * |b|
    modifies buf
    ensures ret.Written? ==> back == Parsed && q == p && bs.at + bs.len <= |buf[..]| && bs.unused < 8
    ensures ret.Written? ==> forall i: nat :: Named(buf[..][bs.at..bs.at + bs.len], i) <==> i < bits && Named(b, i)
    ensures ret.Written? && bs.len > 0 ==> Named(buf[..][bs.at..bs.at + bs.len], 8 * bs.len - bs.unused - 1)
    ensures ret.Written? && bs.len == 0 ==> bs.unused == 0
  {
    hide LenCode, Prepended, IsLen, IsBitString, Tlv, Packed, Named, Rest, Unused;
    bs := BitString(0, 0, 0);
    ghost var kept;
    ret, q, kept := WriteNamed(buf, p, b, bits);
    if !ret.Written? {
      return ret, OutOfData, q, bs;
    }
    ghost var v := Packed(b, kept);
    ghost var c := [Unused(kept)] + v;
    PrependedRest(old(buf[..]), buf[..], p, Tlv(BIT_STRING, c), p);
    ghost var from := q;
    BitsWritten(buf[..], from, p, c);
    back, q, bs := GetBitstring(buf[..], q, p);
    BitsRead(buf[..], from, p, c, bs);
    NamesSurvive(b, bits, kept, buf[..][bs.at..bs.at + bs.len], bs.unused);
  }

  lemma NamesSurvive(b: seq<byte>, bits: nat, kept: nat, v: seq<byte>, unused: byte)
    requires kept <= bits <= 8 * |b| && (kept > 0 ==> Named(b, kept - 1))
    requires forall i :: kept <= i < bits ==> !Named(b, i)
    requires [unused] + v == [Unused(kept)] + Packed(b, kept)
    ensures unused < 8 && (|v| == 0 ==> unused == 0)
    ensures forall i: nat :: Named(v, i) <==> i < bits && Named(b, i)
    ensures |v| > 0 ==> Named(v, 8 * |v| - unused - 1)
  {
    hide Packed, Named;
    assert ([unused] + v)[0] == unused && ([unused] + v)[1..] == v;
    assert ([Unused(kept)] + Packed(b, kept))[1..] == Packed(b, kept);
    forall i: nat
      ensures Named(v, i) <==> i < bits && Named(b, i)
    {
      PackedBits(b, kept, i);
    }
  }

  lemma BitsWritten(x: seq<byte>, p: nat, end: nat, c: seq<byte>)
    requires p <= end <= |x| && 1 <= |c| < LENGTHS && c[0] <= 7 && Rest(x, p, end) == Tlv(BIT_STRING, c) + x[end..end]
    ensures IsBitString(Rest(x, p, end), |LenCode(|c|)|, |c|)
  {
    hide LenCode, IsLen, Tlv, Rest;
    TlvReads(BIT_STRING, c, x[end..end]);
    TlvSize(BIT_STRING, c);
    assert Content(Rest(x, p, end), |LenCode(|c|)|, |c|)[0] == c[0];
  }

  lemma BitsRead(x: seq<byte>, p: nat, end: nat, c: seq<byte>, bs: BitString)
    requires p <= end <= |x| && 1 <= |c| < LENGTHS && Rest(x, p, end) == Tlv(BIT_STRING, c) + x[end..end]
    requires p + 2 < bs.at && bs.at + bs.len == end && bs.unused == x[bs.at - 1]
    requires IsBitString(Rest(x, p, end), bs.at - p - 2, bs.len + 1)
    ensures [bs.unused] + x[bs.at..bs.at + bs.len] == c
  {
    hide LenCode, IsLen, Tlv, Rest;
    TlvReads(BIT_STRING, c, x[end..end]);
    ElementUnique(Rest(x, p, end), BIT_STRING, bs.at - p - 2, bs.len + 1, |LenCode(|c|)|, |c|);
    SliceOfRest(x, p, end, bs.at - p - 1, bs.at - p + bs.len);
    assert x[bs.at - 1..end] == [x[bs.at - 1]] + x[bs.at..end];
  }
}
