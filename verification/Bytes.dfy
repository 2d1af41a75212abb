/** MPIs from big-endian byte strings. */
module MpiBytes {
  import opened Numbers
  import opened Limbs
  import opened MpiCore
  import opened MpiBits

  type byte = x: int | 0 <= x < 256

  /** ciL: bytes in a limb. */
  function CiL(): nat
  {
    BIL / 8
  }

  /** CHARS_TO_LIMBS */
  function CharsToLimbs(n: nat): nat
  {
    n / CiL() + (if n % CiL() != 0 then 1 else 0)
  }

  /** The integer a big-endian byte string spells. */
  function BytesVal(b: seq<byte>): nat
  {
    if |b| == 0 then 0 else 256 * BytesVal(b[..|b| - 1]) + b[|b| - 1]
  }

  lemma {:induction false} BytesFront(x: byte, t: seq<byte>)
    ensures BytesVal([x] + t) == x * Pow(256, |t|) + BytesVal(t)
  {
    if |t| == 0 {
      assert [x] + t == [x] && [x][..0] == [];
    } else {
      var t' := t[..|t| - 1];
      BytesFront(x, t');
      assert ([x] + t)[..|t|] == [x] + t';
      Assoc(256, x, Pow(256, |t| - 1));
      Assoc(x, 256, Pow(256, |t| - 1));
    }
  }

  lemma {:induction false} BytesConcat(a: seq<byte>, b: seq<byte>)
    ensures BytesVal(a + b) == BytesVal(a) * Pow(256, |b|) + BytesVal(b)
  {
    if |b| == 0 {
      assert a + b == a;
    } else {
      var t := b[..|b| - 1];
      BytesConcat(a, t);
      assert (a + b)[..|a| + |b| - 1] == a + t;
      Distr(256, BytesVal(a) * Pow(256, |b| - 1), BytesVal(t));
      Assoc(256, BytesVal(a), Pow(256, |b| - 1));
      Assoc(BytesVal(a), 256, Pow(256, |b| - 1));
    }
  }

  lemma {:induction false} BytesBound(b: seq<byte>)
    ensures BytesVal(b) < Pow(256, |b|)
  {
    if |b| > 0 {
      BytesBound(b[..|b| - 1]);
    }
  }

  lemma PlaceIsBytes(k: nat)
    ensures Place(k) == Pow(256, CiL() * k)
  {
    hide Pow;
    PlaceIsBits(k);
    Pow32();
    PowMul(2, 8, CiL() * k);
    Assoc(8, CiL(), k);
  }

  /** A limb is bounded by what the whole vector is worth. */
  lemma LimbBound(p: seq<limb>, k: nat, bound: nat)
    requires k < |p| && Val(p) < bound * Place(k)
    ensures p[k] < bound
  {
    hide Pow, Val;
    ValSplit(p, k + 1);
    ValSnoc(p, k);
    PlaceFacts(k + 1);
    MulPos(Place(k + 1), Val(p[k + 1..]));
    if p[k] >= bound {
      MulMono(bound, p[k], Place(k));
    }
  }

  lemma ByteFits(x: nat, y: byte, place: nat, b: nat)
    requires x < place && 256 * place <= b
    ensures 0 <= x + y * place < b
  {
    MulMono(y, 255, place);
    MulPos(y, place);
  }

  /** A limb with r bytes in it has room for one more. */
  lemma RoomForByte(p: seq<limb>, k: nat, r: nat, y: byte)
    requires k < |p| && r < CiL() && Val(p) < Pow(256, CiL() * k + r)
    ensures 0 <= p[k] + y * Pow(256, r) < BASE
  {
    hide Pow, Val, Place;
    PlaceIsBytes(k);
    PowAdd(256, CiL() * k, r);
    LimbBound(p, k, Pow(256, r));
    PlaceIsBytes(1);
    PlaceFacts(0);
    PowMono(256, r + 1, CiL());
    PowNext(256, r);
    ByteFits(p[k], y, Pow(256, r), BASE);
  }

  /** Byte i from the end goes to limb i / ciL, shifted by i % ciL bytes. */
  lemma NextByte(p: seq<limb>, i: nat, k: nat, r: nat, buf: seq<byte>)
    requires k < |p| && r < CiL() && i < |buf| && i == CiL() * k + r
    requires Val(p) == BytesVal(buf[|buf| - i..])
    ensures
      var v := p[k] + buf[|buf| - 1 - i] * Pow(256, r);
      0 <= v < BASE && Val(p[k := v]) == BytesVal(buf[|buf| - 1 - i..])
  {
    hide *;
    ByteStep(p, k, r, buf[|buf| - 1 - i], buf[|buf| - i..]);
    assert buf[|buf| - 1 - i..] == [buf[|buf| - 1 - i]] + buf[|buf| - i..];
  }

  lemma ByteStep(p: seq<limb>, k: nat, r: nat, y: byte, low: seq<byte>)
    requires k < |p| && r < CiL() && |low| == CiL() * k + r
    requires Val(p) == BytesVal(low)
    ensures 0 <= p[k] + y * Pow(256, r) < BASE
    ensures Val(p[k := p[k] + y * Pow(256, r)]) == BytesVal([y] + low)
  {
    hide Pow, Val, Place, BytesVal;
    BytesBound(low);
    RoomForByte(p, k, r, y);
    ValUpdate(p, k, p[k] + y * Pow(256, r));
    PlaceIsBytes(k);
    PowAdd(256, r, CiL() * k);
    Assoc(y, Pow(256, r), Place(k));
    BytesFront(y, low);
  }

  lemma LimbIndex(i: nat, n: nat)
    requires i < n
    ensures i / CiL() < CharsToLimbs(n) && i == CiL() * (i / CiL()) + i % CiL()
  {
  }

  /** mbedtls_mpi_read_binary. The source copies the bytes in and swaps them limb by limb; here every
      byte goes to its place one at a time, which fills the same limbs. */
  method ReadBinary(X: Mpi, buf: seq<byte>)
    modifies X
    ensures X.s == 1 && X.Int() == BytesVal(buf)
    ensures |X.p| == if |buf| == 0 then 1 else CharsToLimbs(|buf|)
  {
    hide Pow, Val, Place, BytesVal, CharsToLimbs;
    BaseBound();
    var limbs := CharsToLimbs(|buf|);
    if |X.p| != limbs {
      X.s, X.p := 1, Zeros(limbs);
    }
    PowPos(2, BIL - 1);
    Lset(X, 0);
    LimbsWanted(|buf|);
    EmptyBytes();
    assert buf[|buf|..] == [];
    var i := 0;
    while i < |buf|
      invariant 0 <= i <= |buf| && |X.p| == (if |buf| == 0 then 1 else limbs) && X.s == 1
      invariant X.Mag() == BytesVal(buf[|buf| - i..])
    {
      var y := buf[|buf| - 1 - i];
      LimbIndex(i, |buf|);
      NextByte(X.p, i, i / CiL(), i % CiL(), buf);
      X.p := X.p[i / CiL() := X.p[i / CiL()] + y * Pow(256, i % CiL())];
      i := i + 1;
    }
    assert buf[0..] == buf;
  }

  lemma LimbsWanted(n: nat)
    ensures n == 0 ==> CharsToLimbs(n) == 0
    ensures n > 0 ==> CharsToLimbs(n) > 0
  {
  }

  lemma EmptyBytes()
    ensures BytesVal([]) == 0
  {
  }

  /** The limbs of an integer, lowest first, none superfluous. */
  function LimbsOf(v: nat): (p: seq<limb>)
    ensures Val(p) == v
    ensures v > 0 ==> |p| > 0
  {
    BaseBound();
    if v == 0 then []
    else
      var q := QuotRem(v, BASE);
      MulMono(2, BASE, q.0);
      var p := [q.1] + LimbsOf(q.0);
      assert p[1..] == LimbsOf(q.0);
      p
  }

  // ---------------------------------------------------------------- writing

  /** v in k big-endian bytes. */
  function BytesOf(v: nat, k: nat): (b: seq<byte>)
    ensures |b| == k
  {
    if k == 0 then []
    else
      var q := QuotRem(v, 256);
      BytesOf(q.0, k - 1) + [q.1]
  }

  lemma QuotBelow(q: nat, d: nat, r: nat, bound: nat)
    requires q * d + r < bound * d
    ensures q < bound
  {
    if q >= bound {
      MulMono(bound, q, d);
    }
  }

  lemma {:induction false} BytesOfRead(v: nat, k: nat)
    requires v < Pow(256, k)
    ensures BytesVal(BytesOf(v, k)) == v
  {
    if k > 0 {
      var q := QuotRem(v, 256);
      QuotBelow(q.0, 256, q.1, Pow(256, k - 1));
      BytesOfRead(q.0, k - 1);
      var b := BytesOf(v, k);
      assert b[..k - 1] == BytesOf(q.0, k - 1);
    }
  }

  lemma {:induction false} ReadBytesOf(b: seq<byte>)
    ensures BytesOf(BytesVal(b), |b|) == b
  {
    if |b| > 0 {
      var t := b[..|b| - 1];
      ReadBytesOf(t);
      DivModUnique(BytesVal(b), 256, BytesVal(t), b[|b| - 1]);
    }
  }

  /** GET_BYTE: byte i of a limb vector, from the low end. */
  function GetByte(p: seq<limb>, i: nat): byte
    requires i < CiL() * |p|
  {
    PowPos(256, i % CiL());
    IndexInside(i, |p|);
    p[i / CiL()] / Pow(256, i % CiL()) % 256
  }

  lemma IndexInside(i: nat, n: nat)
    requires i < CiL() * n
    ensures i / CiL() < n && i == CiL() * (i / CiL()) + i % CiL()
  {
    if i / CiL() >= n {
      MulMono(n, i / CiL(), CiL());
    }
  }

  /** What the i lowest bytes of v are worth. */
  function Low(v: nat, i: nat): nat
  {
    PowPos(256, i);
    QuotRem(v, Pow(256, i)).1
  }

  lemma LowIs(v: nat, i: nat, low: nat, high: nat)
    requires v == low + Pow(256, i) * high && low < Pow(256, i)
    ensures Low(v, i) == low
  {
    DivModUnique(v, Pow(256, i), high, low);
  }

  lemma LowSplit(v: nat, i: nat) returns (high: nat)
    ensures v == Low(v, i) + Pow(256, i) * high && Low(v, i) < Pow(256, i)
    ensures high == 0 <==> v < Pow(256, i)
  {
    PowPos(256, i);
    high := QuotRem(v, Pow(256, i)).0;
    if high > 0 {
      MulMono(1, high, Pow(256, i));
    }
  }

  lemma LowStep(v: nat, i: nat, low: nat, g: byte, high: nat)
    requires v == low + Pow(256, i) * (g + 256 * high) && low < Pow(256, i)
    ensures Low(v, i) == low && Low(v, i + 1) == low + g * Pow(256, i)
  {
    hide Low;
    LowIs(v, i, low, g + 256 * high);
    PowNext(256, i);
    ByteFits(low, g, Pow(256, i), Pow(256, i + 1));
    Distr(Pow(256, i), g, 256 * high);
    Assoc(Pow(256, i), 256, high);
    LowIs(v, i + 1, low + g * Pow(256, i), high);
  }

  lemma Regroup(low: nat, place: nat, c: nat, P: nat, g: nat, h: nat, S: nat, H: nat, base: nat)
    requires base == (256 * P) * S
    ensures low + place * (((h * 256 + g) * P + c) + base * H) ==
      (low + c * place) + (place * P) * (g + 256 * (h + S * H))
  {
    Assoc(256 * P, S, H);
    var m := S * H;
    assert base * H == P * (256 * m);
    assert (h * 256 + g) * P + P * (256 * m) == P * (g + 256 * (h + m)) by {
      Distr(P, h * 256 + g, 256 * m);
    }
    var x := P * (g + 256 * (h + m));
    Distr(place, c, x);
    Assoc(place, P, g + 256 * (h + m));
  }

  /** Place(k) * 256^r is the weight of byte CiL * k + r, and a limb has room above it. */
  lemma ByteWeight(k: nat, r: nat, i: nat)
    requires r < CiL() && i == CiL() * k + r
    ensures Place(k) * Pow(256, r) == Pow(256, i)
    ensures BASE == (256 * Pow(256, r)) * Pow(256, CiL() - r - 1)
  {
    hide Pow, Place;
    PlaceIsBytes(k);
    PowAdd(256, CiL() * k, r);
    PlaceIsBytes(1);
    PlaceFacts(0);
    PowNext(256, r);
    PowAdd(256, r + 1, CiL() - r - 1);
  }

  /** Byte i of the vector is byte i of its value. */
  lemma ByteAt(p: seq<limb>, k: nat, r: nat, i: nat)
    requires k < |p| && r < CiL() && i == CiL() * k + r && 0 < Pow(256, r)
    ensures Low(Val(p), i + 1) == Low(Val(p), i) + (p[k] / Pow(256, r) % 256) * Pow(256, i)
  {
    hide Pow, Val, Place, Low, CiL;
    var P, S := Pow(256, r), Pow(256, CiL() - r - 1);
    ByteWeight(k, r, i);
    ValSplit(p, k);
    ValCons(p, k);
    ValBound(p[..k]);
    var q := QuotRem(p[k], P);
    var d := QuotRem(q.0, 256);
    var low, H := Val(p[..k]), Val(p[k + 1..]);
    Regroup(low, Place(k), q.1, P, d.1, d.0, S, H, BASE);
    DigitBelow(low, Place(k), q.1, P);
    MulPos(q.1, Place(k));
    MulPos(S, H);
    LowStep(Val(p), i, low + q.1 * Place(k), d.1, d.0 + S * H);
  }

  lemma ByteIs(p: seq<limb>, i: nat)
    requires i < CiL() * |p|
    ensures Low(Val(p), i + 1) == Low(Val(p), i) + GetByte(p, i) * Pow(256, i)
  {
    hide Pow, Val, Low;
    IndexInside(i, |p|);
    PowPos(256, i % CiL());
    ByteAt(p, i / CiL(), i % CiL(), i);
  }

  lemma LowNone(v: nat)
    ensures Low(v, 0) == 0
  {
  }

  lemma LowAll(p: seq<limb>)
    ensures Low(Val(p), CiL() * |p|) == Val(p)
  {
    hide Low;
    ValBound(p);
    PlaceIsBytes(|p|);
    LowIs(Val(p), CiL() * |p|, Val(p), 0);
  }

  /** The check that nothing significant lies above the buffer. */
  method TopIsZero(p: seq<limb>, count: nat) returns (zero: bool)
    requires count <= CiL() * |p|
    ensures zero <==> Val(p) < Pow(256, count)
  {
    hide Pow, Val, Low;
    var i := count;
    while i < CiL() * |p|
      invariant count <= i <= CiL() * |p|
      invariant Low(Val(p), i) == Low(Val(p), count)
    {
      if GetByte(p, i) != 0 {
        ByteIs(p, i);
        LargeByte(Val(p), count, i, GetByte(p, i));
        return false;
      }
      ByteIs(p, i);
      i := i + 1;
    }
    LowAll(p);
    var high := LowSplit(Val(p), count);
    return true;
  }

  lemma LargeByte(v: nat, count: nat, i: nat, g: byte)
    requires count <= i && g != 0 && Low(v, i + 1) == Low(v, i) + g * Pow(256, i)
    ensures v >= Pow(256, count)
  {
    hide Pow, Low;
    var high := LowSplit(v, i + 1);
    MulPos(Pow(256, i + 1), high);
    PowMono(256, count, i);
    PowPos(256, i);
    MulMono(1, g, Pow(256, i));
  }

  /** The copying loop: the lowest bytes, the lowest of them last. */
  method CopyBytes(p: seq<limb>, buf: array<byte>, at: nat, count: nat)
    requires count <= CiL() * |p| && at + count <= buf.Length
    modifies buf
    ensures BytesVal(buf[at..at + count]) == Low(Val(p), count)
    ensures buf[..at] == old(buf[..at]) && buf[at + count..] == old(buf[at + count..])
  {
    hide Pow, Val, Low, BytesVal, GetByte;
    EmptyBytes();
    LowNone(Val(p));
    assert buf[at + count..at + count] == [];
    var i := 0;
    while i < count
      invariant 0 <= i <= count
      invariant BytesVal(buf[at + count - i..at + count]) == Low(Val(p), i)
      invariant buf[..at] == old(buf[..at]) && buf[at + count..] == old(buf[at + count..])
    {
      ghost var done := buf[at + count - i..at + count];
      ByteIs(p, i);
      buf[at + count - i - 1] := GetByte(p, i);
      i := i + 1;
      assert buf[at + count - i..at + count] == [buf[at + count - i]] + done;
      BytesFront(buf[at + count - i], done);
    }
  }

  lemma {:induction false} LeadingZeros(z: seq<byte>, t: seq<byte>)
    requires forall k :: 0 <= k < |z| ==> z[k] == 0
    ensures BytesVal(z + t) == BytesVal(t)
  {
    hide Pow, BytesVal;
    if |z| == 0 {
      assert z + t == t;
    } else {
      assert z + t == [z[0]] + (z[1..] + t);
      BytesFront(z[0], z[1..] + t);
      LeadingZeros(z[1..], t);
    }
  }

  /** mbedtls_mpi_write_binary: false is MBEDTLS_ERR_MPI_BUFFER_TOO_SMALL. */
  method WriteBinary(X: Mpi, buf: array<byte>, at: nat, buflen: nat) returns (fits: bool)
    requires at + buflen <= buf.Length
    modifies buf
    ensures fits <==> X.Mag() < Pow(256, buflen)
    ensures fits ==> buf[at..at + buflen] == BytesOf(X.Mag(), buflen)
    ensures !fits ==> buf[..] == old(buf[..])
    ensures buf[..at] == old(buf[..at]) && buf[at + buflen..] == old(buf[at + buflen..])
  {
    hide Pow, Val, Low, BytesVal, BytesOf, CiL;
    var stored := CiL() * |X.p|;
    if stored < buflen {
      FitsWhole(X.p, buflen);
      WriteWide(X, buf, at, buflen);
      fits := true;
    } else {
      fits := TopIsZero(X.p, buflen);
      if fits {
        CopyBytes(X.p, buf, at, buflen);
        LowIs(X.Mag(), buflen, X.Mag(), 0);
      }
    }
    if fits {
      ReadBytesOf(buf[at..at + buflen]);
    }
  }

  lemma FitsWhole(p: seq<limb>, buflen: nat)
    requires CiL() * |p| <= buflen
    ensures Val(p) < Pow(256, buflen)
  {
    hide Pow, Val, Place, CiL;
    ValBound(p);
    PlaceIsBytes(|p|);
    PowMono(256, CiL() * |p|, buflen);
  }

  /** The buffer is wider than the limbs: the rest of it is cleared. */
  method WriteWide(X: Mpi, buf: array<byte>, at: nat, buflen: nat)
    requires at + buflen <= buf.Length && CiL() * |X.p| < buflen
    modifies buf
    ensures BytesVal(buf[at..at + buflen]) == X.Mag()
    ensures buf[..at] == old(buf[..at]) && buf[at + buflen..] == old(buf[at + buflen..])
  {
    hide Pow, Val, Low, BytesVal, BytesOf, CiL;
    var gap := buflen - CiL() * |X.p|;
    ghost var start := buf[..];
    ClearBytes(buf, at, gap);
    ghost var before := buf[..];
    ghost var zeros := before[at..at + gap];
    assert forall k :: 0 <= k < |zeros| ==> zeros[k] == 0;
    CopyBytes(X.p, buf, at + gap, CiL() * |X.p|);
    LowAll(X.p);
    FrontKept(before, buf[..], at, gap, buflen);
    RestKept(start, before, buf[..], at, gap, buflen);
    LeadingZeros(zeros, buf[at + gap..at + buflen]);
  }

  /** Writing behind at + gap leaves what is in front. */
  lemma FrontKept(b: seq<byte>, x: seq<byte>, at: nat, gap: nat, len: nat)
    requires gap <= len && at + len <= |b| == |x| && x[..at + gap] == b[..at + gap]
    ensures x[..at] == b[..at] && x[at..at + len] == b[at..at + gap] + x[at + gap..at + len]
  {
    assert x[..at] == x[..at + gap][..at] && b[..at] == b[..at + gap][..at];
    assert x[at..at + gap] == x[..at + gap][at..] && b[at..at + gap] == b[..at + gap][at..];
    assert x[at..at + len] == x[at..at + gap] + x[at + gap..at + len];
  }

  lemma RestKept(a: seq<byte>, b: seq<byte>, x: seq<byte>, at: nat, gap: nat, len: nat)
    requires gap <= len && at + len <= |a| == |b| == |x|
    requires b[..at] == a[..at] && b[at + gap..] == a[at + gap..]
    requires x[..at + gap] == b[..at + gap] && x[at + len..] == b[at + len..]
    ensures x[..at] == a[..at] && x[at + len..] == a[at + len..]
  {
    assert x[..at] == x[..at + gap][..at] && b[..at] == b[..at + gap][..at];
    assert b[at + len..] == b[at + gap..][len - gap..] && a[at + len..] == a[at + gap..][len - gap..];
  }

  method ClearBytes(buf: array<byte>, at: nat, n: nat)
    requires at + n <= buf.Length
    modifies buf
    ensures forall k :: at <= k < at + n ==> buf[k] == 0
    ensures buf[..at] == old(buf[..at]) && buf[at + n..] == old(buf[at + n..])
  {
    var i := at;
    while i < at + n
      invariant at <= i <= at + n && forall k :: at <= k < i ==> buf[k] == 0
      invariant buf[..at] == old(buf[..at]) && buf[at + n..] == old(buf[at + n..])
    {
      buf[i] := 0;
      i := i + 1;
    }
  }
}
