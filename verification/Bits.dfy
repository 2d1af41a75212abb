/** Bit counts and shifts over limb vectors. */
module MpiBits {
  import opened Numbers
  import opened Limbs
  import opened MpiCore

  /** BITS_TO_LIMBS */
  function BitsToLimbs(i: nat): nat
  {
    i / BIL + (if i % BIL != 0 then 1 else 0)
  }

  lemma BitsFit(i: nat, k: nat)
    requires i <= BIL * k
    ensures Pow(2, i) <= Place(k)
  {
    PlaceIsBits(k);
    PowMono(2, i, BIL * k);
  }

  lemma BitsToLimbsCovers(i: nat)
    ensures i <= BIL * BitsToLimbs(i)
    ensures i > 0 ==> BIL * (BitsToLimbs(i) - 1) <= i - 1
  {
    assert i == BIL * (i / BIL) + i % BIL;
    Distr(BIL, i / BIL, 1);
  }

  /** mbedtls_clz: a mask walks down from the top bit. */
  method Clz(x: limb) returns (j: nat)
    ensures j <= BIL && x < Pow(2, BIL - j)
    ensures j < BIL ==> Pow(2, BIL - j - 1) <= x
    ensures j == BIL <==> x == 0
  {
    j := 0;
    while j < BIL
      invariant 0 <= j <= BIL && x < Pow(2, BIL - j)
    {
      PowPos(2, BIL - 1 - j);
      var mask := Pow(2, BIL - 1 - j);
      assert Pow(2, BIL - j) == 2 * mask;
      MaskTest(x, mask);
      if (x / mask) % 2 != 0 {
        break;
      }
      j := j + 1;
    }
  }

  lemma MaskTest(x: nat, mask: nat)
    requires 0 < mask && x < 2 * mask
    ensures (x / mask) % 2 != 0 <==> mask <= x
  {
    if mask <= x {
      DivModUnique(x, mask, 1, x - mask);
    } else {
      DivModUnique(x, mask, 0, x);
    }
  }

  /** i * biL + j bits, where the limbs from i + 1 on are zero. */
  lemma BitlenOf(s: seq<limb>, i: nat, j: nat)
    requires i < |s| && j <= BIL
    requires forall k :: i < k < |s| ==> s[k] == 0
    requires s[i] < Pow(2, j) && (j > 0 ==> Pow(2, j - 1) <= s[i])
    ensures Val(s) < Pow(2, i * BIL + j)
    ensures j > 0 ==> Pow(2, i * BIL + j - 1) <= Val(s)
  {
    hide Pow, Val;
    ValTrim(s, i + 1);
    ValSnoc(s, i);
    ValBound(s[..i]);
    PlaceIsBits(i);
    PowAdd(2, i * BIL, j);
    DigitBelow(Val(s[..i]), Place(i), s[i], Pow(2, j));
    if j > 0 {
      PowAdd(2, i * BIL, j - 1);
      MulMono(Pow(2, j - 1), s[i], Place(i));
    }
  }

  lemma DigitBelow(low: nat, place: nat, x: nat, limit: nat)
    requires low < place && x < limit
    ensures low + x * place < place * limit
  {
    MulMono(x + 1, limit, place);
    Distr(place, x, 1);
  }

  ghost predicate IsBitlen(m: nat, r: nat)
  {
    m < Pow(2, r) && (r > 0 ==> Pow(2, r - 1) <= m)
  }

  method Bitlen(X: Mpi) returns (r: nat)
    ensures IsBitlen(X.Mag(), r)
  {
    hide Pow, Val;
    if |X.p| == 0 {
      ValZeros(X.p);
      PowOne(2);
      return 0;
    }
    var n := KeptLimbs(X.p);
    var i := n - 1;
    var z := Clz(X.p[i]);
    var j := BIL - z;
    BitlenOf(X.p, i, j);
    r := i * BIL + j;
    if j == 0 {
      assert i == 0;
    }
  }

  /** mbedtls_mpi_lsb: the number of low zero bits, 0 for zero. */
  method Lsb(X: Mpi) returns (count: nat)
    ensures X.Mag() == 0 ==> count == 0
    ensures X.Mag() > 0 ==> exists odd: nat :: X.Mag() == Pow(2, count) * odd && odd % 2 == 1
  {
    count := 0;
    var i := 0;
    while i < |X.p|
      invariant 0 <= i <= |X.p| && count == i * BIL
      invariant forall k :: 0 <= k < i ==> X.p[k] == 0
    {
      var j := 0;
      PowOne(2);
      PowPos(2, 0);
      while j < BIL
        invariant 0 <= j <= BIL && count == i * BIL + j
        invariant Pow(2, j) > 0 && X.p[i] == Pow(2, j) * (X.p[i] / Pow(2, j))
      {
        PowPos(2, j);
        var y := X.p[i] / Pow(2, j);
        if y % 2 != 0 {
          LsbFound(X.p, i, j, y);
          return;
        }
        HalveOnce(X.p[i], j, y);
        j, count := j + 1, count + 1;
      }
      if X.p[i] != 0 {
        DivModUnique(X.p[i], Pow(2, BIL), 0, X.p[i]);
        assert false;
      }
      Distr(BIL, i, 1);
      i := i + 1;
    }
    ValZeros(X.p);
    count := 0;
  }

  lemma HalveOnce(x: nat, j: nat, y: nat)
    requires x == Pow(2, j) * y && y % 2 == 0
    ensures Pow(2, j + 1) > 0
    ensures x == Pow(2, j + 1) * (x / Pow(2, j + 1))
  {
    PowPos(2, j + 1);
    Assoc(Pow(2, j), 2, y / 2);
    DivModUnique(x, Pow(2, j + 1), y / 2, 0);
  }

  /** b = c * d with d even, so high limbs do not touch the parity of the cofactor. */
  lemma OddCofactor(x: nat, c: nat, y: nat, b: nat, d: nat, h: nat) returns (odd: nat)
    requires x == c * y && y % 2 == 1 && b == c * (2 * d)
    ensures x + b * h == c * odd && odd % 2 == 1
  {
    odd := y + 2 * (d * h);
    Assoc(c, 2 * d, h);
    Assoc(2, d, h);
    Distr(c, y, 2 * (d * h));
    MulPos(d, h);
  }

  lemma LsbInLimb(s: seq<limb>, j: nat, y: nat) returns (odd: nat)
    requires |s| > 0 && j < BIL
    requires s[0] == Pow(2, j) * y && y % 2 == 1
    ensures Val(s) == Pow(2, j) * odd && odd % 2 == 1
  {
    assert BASE == Pow(2, j) * (2 * Pow(2, BIL - j - 1)) by {
      PowAdd(2, j, BIL - j);
    }
    odd := OddCofactor(s[0], Pow(2, j), y, BASE, Pow(2, BIL - j - 1), Val(s[1..]));
  }

  lemma LsbFound(s: seq<limb>, i: nat, j: nat, y: nat)
    requires i < |s| && j < BIL
    requires forall k :: 0 <= k < i ==> s[k] == 0
    requires s[i] == Pow(2, j) * y && y % 2 == 1
    ensures Val(s) > 0
    ensures exists odd: nat :: Val(s) == Pow(2, i * BIL + j) * odd && odd % 2 == 1
  {
    hide Pow, Val, Place;
    ValSplit(s, i);
    ValZeros(s[..i]);
    var odd := LsbInLimb(s[i..], j, y);
    PlaceIsBits(i);
    PowAdd(2, i * BIL, j);
    Assoc(Place(i), Pow(2, j), odd);
    PowPos(2, i * BIL + j);
    MulPos(Pow(2, i * BIL + j), odd);
  }

  // ---------------------------------------------------------------- left shift

  /** Whole limbs: X * b^v0, provided the limbs pushed out are zero. */
  method ShiftLimbsUp(X: Mpi, v0: nat)
    requires v0 <= |X.p| && X.Mag() < Place(|X.p| - v0)
    modifies X`p
    ensures |X.p| == old(|X.p|)
    ensures X.Mag() == old(X.Mag()) * Place(v0)
    ensures forall k :: 0 <= k < v0 ==> X.p[k] == 0
  {
    hide Pow, Val, Place;
    BaseBound();
    var p := X.p;
    ghost var p0 := X.p;
    var n := |p|;
    var i := n;
    while i > v0
      invariant v0 <= i <= n == |p|
      invariant forall k :: i <= k < n ==> p[k] == p0[k - v0]
      invariant forall k :: 0 <= k < i ==> p[k] == p0[k]
    {
      p := p[i - 1 := p[i - v0 - 1]];
      i := i - 1;
    }
    while i > 0
      invariant 0 <= i <= v0 && |p| == n
      invariant forall k :: v0 <= k < n ==> p[k] == p0[k - v0]
      invariant forall k :: i <= k < v0 ==> p[k] == 0
    {
      p := p[i - 1 := 0];
      i := i - 1;
    }
    ValSplit(p, v0);
    ValZeros(p[..v0]);
    assert p[v0..] == p0[..n - v0];
    ValSmallHigh(p0, n - v0);
    X.p := p;
  }

  /** One limb of a left shift: h are the bits that leave it, l those that stay. */
  lemma ShiftLimbLeft(x: nat, h: nat, l: nat, r: nat, s: nat, c: nat, b: nat)
    requires 0 < c && s * c == b && x < b && r < s && x == h * c + l && l < c
    ensures h < s && 0 <= l * s && l * s + r < b
    ensures x * s == h * b + l * s && l * s < b
  {
    Distr(s, h * c, l);
    Assoc(h, c, s);
    MulMono(l + 1, c, s);
    Distr(s, l, 1);
    MulPos(l, s);
    if h >= s {
      MulMono(s, h, c);
    }
  }

  /** The carry invariant of the loop, one limb further. */
  lemma ShiftLeftStep(low: int, low1: int, place: int, s: int, x: int, v: int, r0: int, r1: int, b: int)
    requires low + r0 * place == s * low1
    requires v + r1 * b == x * s + r0
    ensures low + v * place + r1 * (b * place) == s * (low1 + x * place)
  {
    Assoc(r1, b, place);
    Distr(place, v, r1 * b);
    Distr(place, x * s, r0);
    Distr(s, low1, x * place);
    Assoc(s, x, place);
  }

  method ShiftBitsUp(X: Mpi, v0: nat, t1: nat)
    requires v0 <= |X.p| && 0 < t1 < BIL
    requires forall k :: 0 <= k < v0 ==> X.p[k] == 0
    requires X.Mag() * Pow(2, t1) < Place(|X.p|)
    modifies X`p
    ensures |X.p| == old(|X.p|)
    ensures X.Mag() == old(X.Mag()) * Pow(2, t1)
  {
    hide Pow, Val, Place;
    var S, C := Pow(2, t1), Pow(2, BIL - t1);
    PowPos(2, t1);
    PowPos(2, BIL - t1);
    PowAdd(2, t1, BIL - t1);
    ghost var p1 := X.p;
    var i: nat, r0: nat := v0, 0;
    ValZeros(p1[..v0]);
    while i < |X.p|
      invariant v0 <= i <= |X.p| == |p1| && r0 < S
      invariant X.p[i..] == p1[i..]
      invariant Val(X.p[..i]) + r0 * Place(i) == S * Val(p1[..i])
    {
      r0 := ShiftLimbUp(X, p1, i, r0, S, C);
      i := i + 1;
    }
    assert X.p[..i] == X.p && p1[..i] == p1;
    if r0 > 0 {
      MulMono(1, r0, Place(i));
    }
  }

  /** One step of the loop: `r1 = X->p[i] >> (biL - t1); X->p[i] <<= t1; X->p[i] |= r0; r0 = r1;` */
  method ShiftLimbUp(X: Mpi, ghost p1: seq<limb>, i: nat, r0: nat, S: nat, C: nat) returns (r1: nat)
    requires i < |X.p| == |p1| && X.p[i..] == p1[i..] && 0 < C && S * C == BASE && r0 < S
    requires Val(X.p[..i]) + r0 * Place(i) == S * Val(p1[..i])
    modifies X`p
    ensures |X.p| == old(|X.p|) && X.p[i + 1..] == p1[i + 1..] && r1 < S
    ensures Val(X.p[..i + 1]) + r1 * Place(i + 1) == S * Val(p1[..i + 1])
  {
    hide Pow, Val, Place, QuotRem;
    BaseBound();
    var x := X.p[i];
    assert x == X.p[i..][0] == p1[i];
    var d := QuotRem(x, C);
    ShiftLimbLeft(x, d.0, d.1, r0, S, C, BASE);
    DivModUnique(x * S, BASE, d.0, d.1 * S);
    ghost var before := X.p;
    var v: limb := (x * S) % BASE + r0;
    X.p := X.p[i := v];
    r1 := d.0;
    UpReplaced(before, p1, i, v);
    PlaceFacts(i);
    ShiftLeftStep(Val(before[..i]), Val(p1[..i]), Place(i), S, x, v, r0, r1, BASE);
  }

  lemma UpReplaced(p: seq<limb>, p1: seq<limb>, i: nat, v: limb)
    requires i < |p| == |p1| && p[i..] == p1[i..]
    ensures p[i := v][i + 1..] == p1[i + 1..]
    ensures Val(p[i := v][..i + 1]) == Val(p[..i]) + v * Place(i) && Val(p1[..i + 1]) == Val(p1[..i]) + p1[i] * Place(i)
  {
    hide Val, Place;
    var t := p[i := v];
    assert t[i + 1..] == p[i..][1..] && p1[i + 1..] == p1[i..][1..];
    assert t[..i] == p[..i];
    ValSnoc(t, i);
    ValSnoc(p1, i);
  }

  /** The two loops of shift_l, once there is room. */
  method ShiftWithin(X: Mpi, count: nat, ghost len: nat)
    requires IsBitlen(X.Mag(), len) && len + count <= BIL * |X.p|
    modifies X`p
    ensures |X.p| == old(|X.p|)
    ensures X.Mag() == old(X.Mag()) * Pow(2, count)
  {
    hide Pow, Val, Place, IsBitlen;
    var v0, t1 := count / BIL, count % BIL;
    ShiftSplit(X.Mag(), count);
    ShiftRoom(X.Mag(), len, count, |X.p|);
    if v0 > 0 {
      ShiftLimbsUp(X, v0);
    } else {
      PlaceFacts(0);
    }
    if t1 > 0 {
      ShiftBitsUp(X, v0, t1);
    } else {
      PowOne(2);
    }
  }

  method ShiftL(X: Mpi, count: nat)
    modifies X`p
    ensures X.Mag() == old(X.Mag()) * Pow(2, count)
    ensures |X.p| >= old(|X.p|)
    ensures old(X.Mag()) > 0 && |X.p| > old(|X.p|) ==> Place(|X.p| - 1) <= X.Mag()
  {
    hide Pow, Val, Place, IsBitlen;
    var len := Bitlen(X);
    var i := len + count;
    if |X.p| * BIL < i {
      BitsToLimbsCovers(i);
      LimbRoom(|X.p|, i);
      Grow(X, BitsToLimbs(i));
      if X.Mag() > 0 {
        ShiftTop(X.Mag(), len, count, |X.p|);
      }
    }
    ShiftWithin(X, count, len);
  }

  /** A limb count short of i bits is below the count reserved for i bits. */
  lemma LimbRoom(n: nat, i: nat)
    requires n * BIL < i
    ensures n < BitsToLimbs(i)
  {
    BitsToLimbsCovers(i);
    if n >= BitsToLimbs(i) {
      MulMono(BitsToLimbs(i), n, BIL);
    }
  }

  lemma ShiftSplit(m: nat, count: nat)
    ensures m * Pow(2, count) == m * Place(count / BIL) * Pow(2, count % BIL)
  {
    hide Pow;
    assert count == BIL * (count / BIL) + count % BIL;
    PlaceIsBits(count / BIL);
    PowAdd(2, BIL * (count / BIL), count % BIL);
    Assoc(m, Place(count / BIL), Pow(2, count % BIL));
  }

  lemma BitlenScaled(m: nat, len: nat, count: nat)
    requires IsBitlen(m, len)
    ensures m * Pow(2, count) < Pow(2, len + count)
    ensures m > 0 ==> len > 0 && Pow(2, len + count - 1) <= m * Pow(2, count)
  {
    PowPos(2, count);
    PowAdd(2, len, count);
    MulMono(m + 1, Pow(2, len), Pow(2, count));
    Distr(Pow(2, count), m, 1);
    if m > 0 {
      PowOne(2);
      PowAdd(2, len - 1, count);
      MulMono(Pow(2, len - 1), m, Pow(2, count));
    }
  }

  /** What the room reserved by shift_l is enough for. */
  lemma ShiftRoom(m: nat, len: nat, count: nat, n: nat)
    requires IsBitlen(m, len) && len + count <= BIL * n
    ensures count / BIL <= n && m < Place(n - count / BIL)
    ensures m * Place(count / BIL) * Pow(2, count % BIL) < Place(n)
  {
    hide Pow;
    var v0 := count / BIL;
    assert count == BIL * v0 + count % BIL;
    if v0 > n {
      MulMono(n + 1, v0, BIL);
      Distr(BIL, n, 1);
    }
    Distr(BIL, n, v0);
    BitsFit(len, n - v0);
    BitsFit(len + count, n);
    BitlenScaled(m, len, count);
    ShiftSplit(m, count);
  }

  /** A vector grown to fit exactly has a nonzero top limb afterwards. */
  lemma ShiftTop(m: nat, len: nat, count: nat, n: nat)
    requires IsBitlen(m, len) && m > 0 && n > 0
    requires BIL * (n - 1) <= len + count - 1
    ensures Place(n - 1) <= m * Pow(2, count)
  {
    hide Pow;
    PlaceIsBits(n - 1);
    PowMono(2, BIL * (n - 1), len + count - 1);
    BitlenScaled(m, len, count);
  }

  // ---------------------------------------------------------------- right shift

  /** Whole limbs: the v0 lowest limbs fall off. */
  method ShiftLimbsDown(X: Mpi, v0: nat)
    requires v0 <= |X.p|
    modifies X`p
    ensures |X.p| == old(|X.p|)
    ensures X.Mag() == old(Val(X.p[v0..]))
  {
    hide Pow, Val;
    ghost var p0 := X.p;
    var n := |X.p|;
    var i := 0;
    while i < n - v0
      invariant 0 <= i <= n - v0 && |X.p| == n
      invariant forall k :: 0 <= k < i ==> X.p[k] == p0[k + v0]
      invariant forall k :: i <= k < n ==> X.p[k] == p0[k]
    {
      X.p := X.p[i := X.p[i + v0]];
      i := i + 1;
    }
    while i < n
      invariant n - v0 <= i <= n && |X.p| == n
      invariant forall k :: 0 <= k < n - v0 ==> X.p[k] == p0[k + v0]
      invariant forall k :: n - v0 <= k < i ==> X.p[k] == 0
    {
      PowPos(2, BIL);
      X.p := X.p[i := 0];
      i := i + 1;
    }
    ValTrim(X.p, n - v0);
    assert X.p[..n - v0] == p0[v0..];
  }

  lemma DigitTimes(r: nat, s: nat, c: nat)
    requires r < s
    ensures 0 <= r * c <= s * c - c
  {
    MulMono(r + 1, s, c);
    Distr(c, r, 1);
    MulPos(r, c);
  }

  /** One limb of a right shift: g is the quotient and t the remainder of the limbs above it. */
  lemma ShiftLimbRight(x: nat, q: nat, r: nat, g: nat, t: nat, s: nat, c: nat, b: nat)
    requires 0 < c && s * c == b && x < b && x == q * s + r && r < s && t < s
    ensures 0 <= t * c && q + t * c < b
    ensures x + b * (g * s + t) == (q + t * c + b * g) * s + r
    ensures x * c == q * b + r * c && 0 <= r * c < b
  {
    DigitTimes(t, s, c);
    DigitTimes(r, s, c);
    if q >= c {
      MulMono(c, q, s);
    }
    Distr(b, g * s, t);
    Assoc(b, g, s);
    Distr(s, q + t * c, b * g);
    Distr(s, q, t * c);
    Assoc(t, c, s);
    Distr(c, q * s, r);
    Assoc(q, s, c);
  }

  lemma LimbReplaced(q: seq<limb>, p: seq<limb>, i: nat, v: limb)
    requires 0 < i <= |q| == |p| && q[..i] == p[..i]
    ensures q[i - 1 := v][..i - 1] == p[..i - 1] && q[i - 1] == p[i - 1]
    ensures Val(q[i - 1 := v][i - 1..]) == v + BASE * Val(q[i..])
    ensures Val(p[i - 1..]) == p[i - 1] + BASE * Val(p[i..])
  {
    hide Val;
    var t := q[i - 1 := v];
    assert q[i - 1] == q[..i][i - 1] == p[i - 1];
    assert t[i..] == q[i..];
    assert t[..i - 1] == q[..i][..i - 1] == p[..i - 1];
    ValCons(t, i - 1);
    ValCons(p, i - 1);
  }

  method ShiftBitsDown(X: Mpi, v1: nat)
    requires 0 < v1 < BIL
    modifies X`p
    ensures |X.p| == old(|X.p|)
    ensures Pow(2, v1) > 0 && X.Mag() == old(X.Mag()) / Pow(2, v1)
  {
    hide Pow, Val;
    var S, C := Pow(2, v1), Pow(2, BIL - v1);
    PowPos(2, v1);
    PowPos(2, BIL - v1);
    PowAdd(2, v1, BIL - v1);
    ghost var p1 := X.p;
    var n := |X.p|;
    var i: nat, r0: nat := n, 0;
    ghost var g: nat, t: nat := 0, 0;
    ValZeros(p1[n..]);
    while i > 0
      invariant 0 <= i <= n && |X.p| == n && X.p[..i] == p1[..i]
      invariant Val(X.p[i..]) == g && Val(p1[i..]) == g * S + t && t < S && r0 == t * C
    {
      r0, g, t := ShiftLimbDown(X, p1, i, r0, S, C, g, t);
      i := i - 1;
    }
    assert X.p[0..] == X.p && p1[0..] == p1;
    DivModUnique(Val(p1), S, g, t);
  }

  /** One step of the loop: `r1 = X->p[i - 1] << ( biL - v1 ); X->p[i - 1] >>= v1; X->p[i - 1] |= r0; r0 = r1;` */
  method ShiftLimbDown(X: Mpi, ghost p1: seq<limb>, i: nat, r0: nat, S: nat, C: nat, ghost g: nat, ghost t: nat)
    returns (r1: nat, ghost g1: nat, ghost t1: nat)
    requires 0 < i <= |X.p| == |p1| && X.p[..i] == p1[..i] && 0 < C && S * C == BASE
    requires Val(X.p[i..]) == g && Val(p1[i..]) == g * S + t && t < S && r0 == t * C
    modifies X`p
    ensures |X.p| == old(|X.p|) && X.p[..i - 1] == p1[..i - 1]
    ensures Val(X.p[i - 1..]) == g1 && Val(p1[i - 1..]) == g1 * S + t1 && t1 < S && r1 == t1 * C
  {
    hide Pow, Val, QuotRem;
    BaseBound();
    var x := X.p[i - 1];
    var d := QuotRem(x, S);
    ShiftLimbRight(x, d.0, d.1, g, t, S, C, BASE);
    LimbReplaced(X.p, p1, i, d.0 + r0);
    DivModUnique(x * C, BASE, d.0, d.1 * C);
    r1 := (x * C) % BASE;
    X.p := X.p[i - 1 := d.0 + r0];
    g1, t1 := d.0 + t * C + BASE * g, d.1;
  }

  lemma DropLimbs(s: seq<limb>, k: nat)
    requires k <= |s|
    ensures Place(k) > 0 && Val(s[k..]) == Val(s) / Place(k)
  {
    hide Pow, Val;
    ValSplit(s, k);
    ValBound(s[..k]);
    PlaceFacts(k);
    DivModUnique(Val(s), Place(k), Val(s[k..]), Val(s[..k]));
  }

  method ShiftR(X: Mpi, count: nat)
    modifies X
    ensures Pow(2, count) > 0 && X.Mag() == old(X.Mag()) / Pow(2, count)
    ensures X.s == old(X.s) || (X.s == 1 && X.Mag() == 0)
    ensures X.Int() == Signed(old(X.s), old(X.Mag()) / Pow(2, count))
    ensures |X.p| >= old(|X.p|)
    ensures old(|X.p|) > 0 ==> |X.p| == old(|X.p|)
  {
    hide Pow, Val, Place;
    var v0, v1 := count / BIL, count % BIL;
    ghost var m := X.Mag();
    PowPos(2, count);
    if v0 > |X.p| || (v0 == |X.p| && v1 > 0) {
      ShiftAllOut(X.p, count);
      PowPos(2, BIL - 1);
      Lset(X, 0);
      return;
    }
    assert count == BIL * v0 + v1;
    PlaceIsBits(v0);
    PowAdd(2, BIL * v0, v1);
    DropLimbs(X.p, v0);
    if v0 > 0 {
      ShiftLimbsDown(X, v0);
    } else {
      assert X.p[0..] == X.p;
    }
    PowPos(2, v1);
    DivDiv(m, Place(v0), Pow(2, v1));
    if v1 > 0 {
      ShiftBitsDown(X, v1);
    } else {
      PowOne(2);
    }
  }

  lemma ShiftAllOut(s: seq<limb>, count: nat)
    requires count / BIL >= |s|
    ensures Pow(2, count) > 0 && Val(s) / Pow(2, count) == 0
  {
    hide Pow, Val;
    ValBound(s);
    MulMono(|s|, count / BIL, BIL);
    BitsFitRev(|s|, count);
    PowPos(2, count);
    DivModUnique(Val(s), Pow(2, count), 0, Val(s));
  }

  lemma BitsFitRev(k: nat, i: nat)
    requires BIL * k <= i
    ensures Place(k) <= Pow(2, i)
  {
    PlaceIsBits(k);
    PowMono(2, BIL * k, i);
  }
}
