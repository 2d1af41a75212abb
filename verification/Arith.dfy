/** Addition, subtraction and multiplication of MPIs. */
module MpiArith {
  import opened Numbers
  import opened Limbs
  import opened MpiCore

  // ---------------------------------------------------------------- addition

  /** x + y modulo 2^biL, as unsigned limbs wrap. */
  function AddWrap(x: limb, y: limb): (r: limb)
    ensures r == (x + y) % BASE
  {
    if x + y < BASE then DivModUnique(x + y, BASE, 0, x + y); x + y
    else DivModUnique(x + y, BASE, 1, x + y - BASE); x + y - BASE
  }

  /** x - y modulo 2^biL. */
  function SubWrap(x: limb, y: limb): (r: limb)
    ensures r == (x - y) % BASE
  {
    if x >= y then DivModUnique(x - y, BASE, 0, x - y); x - y
    else DivModUnique(x - y, BASE, -1, x + BASE - y); x + BASE - y
  }

  /** `x += y; carry = ( x < y )` */
  function AddCarry(x: limb, y: limb): (r: (limb, limb))
    ensures r.1 <= 1 && r.0 + r.1 * BASE == x + y
  {
    BaseBound();
    (AddWrap(x, y), if AddWrap(x, y) < y then 1 else 0)
  }

  /** Two limbs and a carry bit, added with the source's wrap-around tests. */
  function AddLimb(d: limb, c: nat, o: limb): (r: (limb, nat))
    requires c <= 1
    ensures r.1 <= 1 && r.0 + r.1 * BASE == d + c + o
  {
    BaseBound();
    var x := AddCarry(d, c);
    var y := AddCarry(x.0, o);
    (y.0, x.1 + y.1)
  }

  lemma AddStep(p: seq<limb>, i: nat, v: limb, c: int, c': int, o: int, sum: int)
    requires i < |p|
    requires v + c' * BASE == p[i] + c + o
    requires Val(p) + c * Place(i) == sum
    ensures Val(p[i := v]) + c' * Place(i + 1) == sum + o * Place(i)
  {
    hide Pow, Val;
    ValUpdate(p, i, v);
    PlaceFacts(i);
    var l := Place(i);
    hide Place;
    Assoc(c', BASE, l);
    assert (v - p[i]) * l + c' * BASE * l == c * l + o * l by {
      Distr(l, v - p[i], c' * BASE);
      Distr(l, c, o);
    }
  }

  /** A carry out of the last limb would exceed what the vector can hold. */
  lemma NoCarryOut(p: seq<limb>, c: nat, sum: int)
    requires Val(p) + c * Place(|p|) == sum && sum < Place(|p|)
    ensures c == 0
  {
    if c > 0 {
      MulMono(1, c, Place(|p|));
    }
  }

  /** The first loop of add_abs. B may be X itself: each limb is read before it is overwritten. */
  method AddLoop(X: Mpi, B: Mpi, j: nat) returns (c: nat)
    requires j <= |X.p| && j <= |B.p|
    modifies X`p
    ensures |X.p| == old(|X.p|) && c <= 1
    ensures X.Mag() + c * Place(j) == old(X.Mag()) + old(Val(B.p[..j]))
  {
    hide Pow, Val, Place;
    ghost var o := B.p;
    ghost var sum := X.Mag();
    var i: nat := 0;
    c := 0;
    PlaceFacts(0);
    ValZeros(o[..0]);
    while i < j
      invariant i <= j <= |X.p| == old(|X.p|) && c <= 1
      invariant B.p[i..] == o[i..]
      invariant X.Mag() + c * Place(i) == sum + Val(o[..i])
    {
      var tmp := B.p[i];
      assert tmp == B.p[i..][0] == o[i];
      var r := AddLimb(X.p[i], c, tmp);
      AddStep(X.p, i, r.0, c, r.1, tmp, sum + Val(o[..i]));
      ValSnoc(o, i);
      assert B.p[i + 1..] == B.p[i..][1..];
      X.p := X.p[i := r.0];
      c := r.1;
      i := i + 1;
    }
  }

  /** The second loop of add_abs: the carry runs on, into a fresh limb if it must. */
  method CarryOn(X: Mpi, i0: nat, c0: nat)
    requires i0 <= |X.p| && c0 <= 1
    modifies X`p
    ensures |X.p| >= old(|X.p|)
    ensures X.Mag() == old(X.Mag()) + c0 * Place(i0)
  {
    hide Pow, Val, Place;
    var i: nat, c: nat := i0, c0;
    ghost var sum := X.Mag() + c * Place(i);
    while c != 0
      invariant i <= |X.p| && c <= 1 && |X.p| >= old(|X.p|)
      invariant X.Mag() + c * Place(i) == sum
      decreases c, |X.p| - i
    {
      if i >= |X.p| {
        Grow(X, i + 1);
      }
      c := CarryLimb(X, i, c);
      i := i + 1;
    }
  }

  /** One limb of it; a zero limb stops the carry. */
  method CarryLimb(X: Mpi, i: nat, c: nat) returns (c': nat)
    requires i < |X.p| && c <= 1
    modifies X`p
    ensures |X.p| == old(|X.p|) && c' <= c && (old(X.p[i]) == 0 ==> c' == 0)
    ensures X.Mag() + c' * Place(i + 1) == old(X.Mag()) + c * Place(i)
  {
    hide Pow, Val, Place;
    BaseBound();
    var r := AddLimb(X.p[i], c, 0);
    AddStep(X.p, i, r.0, c, r.1, 0, X.Mag() + c * Place(i));
    X.p := X.p[i := r.0];
    c' := r.1;
  }

  method AddAbs(X: Mpi, A0: Mpi, B0: Mpi)
    modifies X
    ensures X.Mag() == old(A0.Mag()) + old(B0.Mag())
    ensures X.s == 1
    ensures X == A0 || X == B0 || old(|A0.p|) > 0 ==> |X.p| >= old(|X.p|)
  {
    hide Pow, Val, Place;
    var A, B := A0, B0;
    if X == B {
      A, B := X, A0;
    }
    if X != A {
      Copy(X, A);
    }
    X.s := 1;
    var j := UsedLimbs(B.p);
    Grow(X, j);
    var c := AddLoop(X, B, j);
    CarryOn(X, j, c);
  }

  // ---------------------------------------------------------------- subtraction

  /** A limb minus a borrow and a limb, with the source's wrap-around tests. */
  function SubLimb(d: limb, c: nat, o: limb): (r: (limb, nat))
    requires c <= 1
    ensures r.1 <= 1 && r.0 - r.1 * BASE == d - c - o
  {
    BaseBound();
    var z := if d < c then 1 else 0;
    var d1 := SubWrap(d, c);
    (SubWrap(d1, o), (if d1 < o then 1 else 0) + z)
  }

  lemma Negated(x: int, y: int)
    ensures -x * y == -(x * y)
  {
  }

  lemma SubStep(p: seq<limb>, i: nat, v: limb, c: int, c': int, o: int, diff: int)
    requires i < |p|
    requires v - c' * BASE == p[i] - c - o
    requires Val(p) - c * Place(i) == diff
    ensures Val(p[i := v]) - c' * Place(i + 1) == diff - o * Place(i)
  {
    hide *;
    Negated(c', BASE);
    Negated(c, Place(i));
    Negated(c', Place(i + 1));
    Negated(o, Place(i));
    AddStep(p, i, v, -c, -c', -o, diff);
  }

  lemma NoBorrowOut(p: seq<limb>, c: nat, diff: nat)
    requires Val(p) - c * Place(|p|) == diff
    ensures c == 0
  {
    hide Pow, Val, Place;
    ValBound(p);
    if c > 0 {
      MulMono(1, c, Place(|p|));
    }
  }

  /** mpi_sub_hlp: d -= s over n limbs, then the borrow runs on. The borrow has no bound of its
      own, so the caller owes that the difference is not negative. */
  method SubHlp(n: nat, s: seq<limb>, D: Mpi)
    requires n <= |s| && n <= |D.p|
    requires Val(s[..n]) <= D.Mag()
    modifies D`p
    ensures |D.p| == old(|D.p|)
    ensures D.Mag() == old(D.Mag()) - Val(s[..n])
  {
    hide Pow, Val, Place;
    var i: nat, c: nat := 0, 0;
    ghost var m := D.Mag();
    PlaceFacts(0);
    ValZeros(s[..0]);
    while i < n
      invariant i <= n && |D.p| == old(|D.p|) && c <= 1
      invariant D.Mag() - c * Place(i) == m - Val(s[..i])
    {
      var r := SubLimb(D.p[i], c, s[i]);
      SubStep(D.p, i, r.0, c, r.1, s[i], m - Val(s[..i]));
      ValSnoc(s, i);
      D.p := D.p[i := r.0];
      c := r.1;
      i := i + 1;
    }
    while c != 0
      invariant i <= |D.p| == old(|D.p|) && c <= 1
      invariant D.Mag() - c * Place(i) == m - Val(s[..n])
      decreases |D.p| - i
    {
      if i == |D.p| {
        NoBorrowOut(D.p, c, m - Val(s[..n]));
      }
      BaseBound();
      var r := SubLimb(D.p[i], c, 0);
      SubStep(D.p, i, r.0, c, r.1, 0, m - Val(s[..n]));
      D.p := D.p[i := r.0];
      c := r.1;
      i := i + 1;
    }
  }

  /** A vector at least as large as one whose limb n - 1 is set has n limbs. */
  lemma LongEnough(p: seq<limb>, n: nat)
    requires n > 0 && Place(n - 1) <= Val(p)
    ensures n <= |p|
  {
    hide Pow, Val;
    ValBound(p);
    if |p| <= n - 1 {
      BaseBound();
      PowMono(BASE, |p|, n - 1);
    }
  }

  method SubAbs(X: Mpi, A: Mpi, B0: Mpi) returns (ret: Error)
    modifies X
    ensures ret == if old(A.Mag()) < old(B0.Mag()) then NegativeValue else Ok
    ensures ret == Ok ==> X.Mag() == old(A.Mag()) - old(B0.Mag()) && X.s == 1
    ensures ret != Ok ==> X.p == old(X.p) && X.s == old(X.s)
    ensures X == A || old(|A.p|) > 0 ==> |X.p| >= old(|X.p|)
  {
    hide Pow, Val, Place;
    var r := CmpAbs(A, B0);
    if r < 0 {
      return NegativeValue;
    }
    var B := B0;
    if X == B {
      B := new Mpi();
      Copy(B, B0);
    }
    if X != A {
      Copy(X, A);
    }
    X.s := 1;
    var n := UsedLimbs(B.p);
    if n > 0 {
      LongEnough(X.p, n);
    }
    SubHlp(n, B.p, X);
    return Ok;
  }

  // ---------------------------------------------------------------- signed forms

  lemma NonzeroHasLimbs(s: seq<limb>)
    ensures Val(s) > 0 ==> |s| > 0
  {
  }

  method AddMpi(X: Mpi, A: Mpi, B: Mpi)
    modifies X
    ensures X.Int() == old(A.Int()) + old(B.Int())
    ensures old(A.s) == old(B.s) ==> X.s == old(A.s)
    ensures X == A || (old(|A.p|) > 0 && old(|B.p|) > 0) ==> |X.p| >= old(|X.p|)
  {
    hide Pow, Val, Place;
    var s := A.s;
    if A.s * B.s < 0 {
      var r := CmpAbs(A, B);
      if r >= 0 {
        var e := SubAbs(X, A, B);
        X.s := s;
      } else {
        NonzeroHasLimbs(B.p);
        var e := SubAbs(X, B, A);
        X.s := 0 - s;
      }
    } else {
      AddAbs(X, A, B);
      X.s := s;
    }
  }

  method SubMpi(X: Mpi, A: Mpi, B: Mpi)
    modifies X
    ensures X.Int() == old(A.Int()) - old(B.Int())
    ensures old(A.s) != old(B.s) ==> X.s == old(A.s)
    ensures X == A || (old(|A.p|) > 0 && old(|B.p|) > 0) ==> |X.p| >= old(|X.p|)
  {
    hide Pow, Val, Place;
    var s := A.s;
    if A.s * B.s > 0 {
      var r := CmpAbs(A, B);
      if r >= 0 {
        var e := SubAbs(X, A, B);
        X.s := s;
      } else {
        NonzeroHasLimbs(B.p);
        var e := SubAbs(X, B, A);
        X.s := 0 - s;
      }
    } else {
      AddAbs(X, A, B);
      X.s := s;
    }
  }

  method AddInt(X: Mpi, A: Mpi, b: sint)
    modifies X
    ensures X.Int() == old(A.Int()) + b
    ensures old(A.s) == 1 && b >= 0 ==> X.s == 1
    ensures X == A || old(|A.p|) > 0 ==> |X.p| >= old(|X.p|)
  {
    var B := OfSint(b);
    AddMpi(X, A, B);
  }

  method SubInt(X: Mpi, A: Mpi, b: sint)
    modifies X
    ensures X.Int() == old(A.Int()) - b
    ensures old(A.s) == -1 && b >= 0 ==> X.s == -1
    ensures X == A || old(|A.p|) > 0 ==> |X.p| >= old(|X.p|)
  {
    var B := OfSint(b);
    SubMpi(X, A, B);
  }

  // ---------------------------------------------------------------- multiplication

  /** The low limb of a wide word and what lies above it. */
  function SplitWide(x: nat): (r: (limb, nat))
    ensures r.0 + r.1 * BASE == x
  {
    BaseBound();
    (x % BASE, x / BASE)
  }

  /** MULADDC_CORE with a double-width product: d + s * b + c as a limb and a carry limb. */
  function MulAddWide(s: limb, b: limb, c: limb, d: limb): (r: (limb, limb))
    ensures r.0 + r.1 * BASE == s * b + c + d
  {
    MulPos(s, b);
    var r := SplitWide(s * b);
    var x := AddCarry(r.0, c);
    var y := AddCarry(x.0, d);
    CarriesAdd(r.0, r.1, x.0, x.1, y.0, y.1, s * b, c, d, BASE);
    MulAddHigh(s, b, c, d, r.1 + x.1 + y.1, y.0, BASE);
    (y.0, r.1 + x.1 + y.1)
  }

  lemma CarriesAdd(r0: int, r1: int, x: int, k: int, y: int, l: int, prod: int, c: int, d: int, base: int)
    requires r0 + r1 * base == prod
    requires x + k * base == r0 + c && y + l * base == x + d
    ensures y + (r1 + k + l) * base == prod + c + d
  {
    Distr(base, r1 + k, l);
    Distr(base, r1, k);
  }

  /** The accumulated product still fits two limbs, so the high limb never wraps. */
  lemma MulAddHigh(s: nat, b: nat, c: nat, d: nat, high: nat, low: nat, base: nat)
    requires s < base && b < base && c < base && d < base
    requires low + high * base == s * b + c + d
    ensures high < base
  {
    MulMono(s, base - 1, b);
    MulMono(b, base - 1, base - 1);
    Distr(base - 1, base, 1);
    if high >= base {
      MulMono(base, high, base);
    }
  }

  /** The high and low half of a word. */
  function SplitHalf(x: nat): (r: (nat, nat))
    ensures r.0 < Pow(2, BIL / 2) && r.0 + r.1 * Pow(2, BIL / 2) == x
  {
    PowPos(2, BIL / 2);
    (x % Pow(2, BIL / 2), x / Pow(2, BIL / 2))
  }

  /** `x << biH`, which drops the high half of x. */
  function UpHalf(x: nat): (r: limb)
    ensures r + SplitHalf(x).1 * BASE == x * Pow(2, BIL / 2)
  {
    PowPos(2, BIL / 2);
    BaseSquare();
    var h := Pow(2, BIL / 2);
    ShiftHalf(x, h, BASE);
    (x * h) % BASE
  }

  /** MULADDC_CORE in half words, for compilers without a double-width type. */
  function MulAddHalves(s: limb, b: limb, c: limb, d: limb): (r: (limb, limb))
    ensures r == MulAddWide(s, b, c, d)
  {
    var (s0, s1) := SplitHalf(s);
    var (b0, b1) := SplitHalf(b);
    HalfProducts(s, b, s0, s1, b0, b1);
    var rx, ry := s0 * b1, s1 * b0;
    var r1: nat := s1 * b1 + SplitHalf(rx).1 + SplitHalf(ry).1;
    var x := AddCarry(s0 * b0, UpHalf(rx));
    var y := AddCarry(x.0, UpHalf(ry));
    var z := AddCarry(y.0, c);
    var t := AddCarry(z.0, d);
    var high := r1 + x.1 + y.1 + z.1 + t.1;
    HalvesTotal(s, b, c, d, s0, s1, b0, b1, x, y, z, t);
    MulAddHigh(s, b, c, d, high, t.0, BASE);
    SameLimbPair((t.0, high), MulAddWide(s, b, c, d));
    (t.0, high)
  }

  lemma SameLimbPair(r: (limb, limb), q: (limb, limb))
    requires r.0 + r.1 * BASE == q.0 + q.1 * BASE
    ensures r == q
  {
    DivModUnique(r.0 + r.1 * BASE, BASE, r.1, r.0);
    DivModUnique(r.0 + r.1 * BASE, BASE, q.1, q.0);
  }

  lemma HalvesTotal(s: limb, b: limb, c: limb, d: limb, s0: nat, s1: nat, b0: nat, b1: nat,
                    x: (limb, limb), y: (limb, limb), z: (limb, limb), t: (limb, limb))
    requires s == s1 * Pow(2, BIL / 2) + s0 && b == b1 * Pow(2, BIL / 2) + b0
    requires 0 <= s0 * b1 && 0 <= s1 * b0
    requires x.0 + x.1 * BASE == s0 * b0 + UpHalf(s0 * b1)
    requires y.0 + y.1 * BASE == x.0 + UpHalf(s1 * b0)
    requires z.0 + z.1 * BASE == y.0 + c
    requires t.0 + t.1 * BASE == z.0 + d
    ensures t.0 + (s1 * b1 + SplitHalf(s0 * b1).1 + SplitHalf(s1 * b0).1 + x.1 + y.1 + z.1 + t.1) * BASE
         == s * b + c + d
  {
    hide SplitHalf, UpHalf;
    BaseSquare();
    HalvesSum(s, b, s0, s1, b0, b1, Pow(2, BIL / 2), BASE);
    SumTimes([s1 * b1, SplitHalf(s0 * b1).1, SplitHalf(s1 * b0).1, x.1, y.1, z.1, t.1], BASE);
  }

  /** A sum of seven carries scaled at once. */
  lemma SumTimes(k: seq<int>, m: int)
    requires |k| == 7
    ensures (k[0] + k[1] + k[2] + k[3] + k[4] + k[5] + k[6]) * m
         == k[0] * m + k[1] * m + k[2] * m + k[3] * m + k[4] * m + k[5] * m + k[6] * m
  {
    Distr(m, k[0], k[1]);
    Distr(m, k[0] + k[1], k[2]);
    Distr(m, k[0] + k[1] + k[2], k[3]);
    Distr(m, k[0] + k[1] + k[2] + k[3], k[4]);
    Distr(m, k[0] + k[1] + k[2] + k[3] + k[4], k[5]);
    Distr(m, k[0] + k[1] + k[2] + k[3] + k[4] + k[5], k[6]);
  }

  /** Half words multiply to a limb. */
  lemma HalfProducts(s: limb, b: limb, s0: nat, s1: nat, b0: nat, b1: nat)
    requires s == s1 * Pow(2, BIL / 2) + s0 && b == b1 * Pow(2, BIL / 2) + b0
    requires s0 < Pow(2, BIL / 2) && b0 < Pow(2, BIL / 2)
    ensures 0 <= s0 * b0 < BASE && 0 <= s0 * b1 && 0 <= s1 * b0 && 0 <= s1 * b1
  {
    BaseSquare();
    HalfProduct(s0, b0, Pow(2, BIL / 2), BASE);
    MulPos(s0, b1);
    MulPos(s1, b0);
    MulPos(s1, b1);
  }

  lemma HalfProduct(x: nat, y: nat, h: nat, base: nat)
    requires x < h && y < h && h * h == base
    ensures 0 <= x * y < base
  {
    MulPos(x, y);
    MulMono(x, h - 1, y);
    MulMono(y, h, h - 1);
    Distr(h, h, 1);
  }

  /** A cross product moved up half a word: what stays and what overflows. */
  lemma ShiftHalf(r: nat, h: nat, base: nat)
    requires 0 < h && h * h == base
    ensures (r * h) % base == (r % h) * h < base
    ensures r * h == (r % h) * h + (r / h) * base
  {
    assert r == (r / h) * h + r % h;
    Distr(h, (r / h) * h, r % h);
    Assoc(r / h, h, h);
    MulMono(r % h + 1, h, h);
    Distr(h, r % h, 1);
    MulPos(r % h, h);
    DivModUnique(r * h, base, r / h, (r % h) * h);
  }

  lemma HalvesSum(s: int, b: int, s0: int, s1: int, b0: int, b1: int, h: int, base: int)
    requires s == s1 * h + s0 && b == b1 * h + b0 && h * h == base
    ensures s * b == (s1 * b1) * base + (s0 * b1) * h + (s1 * b0) * h + s0 * b0
  {
    Distr(b, s1 * h, s0);
    Distr(s1 * h, b1 * h, b0);
    Distr(s0, b1 * h, b0);
    Assoc(s0, b1, h);
    assert (s1 * h) * b0 == (s1 * b0) * h;
    assert (s1 * h) * (b1 * h) == (s1 * b1) * (h * h);
  }

  /** mpi_mul_hlp: d += s * b over n limbs of the buffer from off on; the carry runs on with no
      bound of its own, so the caller owes that the sum fits. */
  method MulHlp(n: nat, s: seq<limb>, D: Mpi, off: nat, b: limb)
    requires n <= |s| && off + n < |D.p|
    requires Val(D.p[off..]) + b * Val(s[..n]) < Place(|D.p| - off)
    modifies D`p
    ensures |D.p| == old(|D.p|) && D.p[..off] == old(D.p[..off])
    ensures Val(D.p[off..]) == old(Val(D.p[off..])) + b * Val(s[..n])
  {
    hide Pow, Val, Place;
    BaseBound();
    var i: nat, c: limb := 0, 0;
    ghost var low := D.p[..off];
    ghost var m := Val(D.p[off..]);
    PlaceFacts(0);
    ValZeros(s[..0]);
    while i < n
      invariant i <= n && |D.p| == old(|D.p|) && D.p[..off] == low
      invariant Val(D.p[off..]) + c * Place(i) == m + b * Val(s[..i])
    {
      var r := MulAddWide(s[i], b, c, D.p[off + i]);
      MulStep(D.p[off..], i, r.0, c, r.1, s, b, m);
      D.p := D.p[off + i := r.0];
      assert D.p[..off] == low;
      c := r.1;
      i := i + 1;
    }
    ghost var sum := m + b * Val(s[..n]);
    var r := AddCarry(D.p[off + i], c);
    RippleStep(D, off, i, r.0, c, r.1, sum);
    D.p := D.p[off + i := r.0];
    assert D.p[..off] == low;
    c := r.1;
    i := i + 1;
    while c != 0
      invariant off + i <= |D.p| == old(|D.p|) && D.p[..off] == low
      invariant Val(D.p[off..]) + c * Place(i) == sum
      decreases |D.p| - i
    {
      if off + i == |D.p| {
        NoCarryOut(D.p[off..], c, sum);
      }
      r := AddCarry(D.p[off + i], c);
      RippleStep(D, off, i, r.0, c, r.1, sum);
      D.p := D.p[off + i := r.0];
      assert D.p[..off] == low;
      c := r.1;
      i := i + 1;
    }
  }

  lemma MulStep(q: seq<limb>, i: nat, v: limb, c: limb, c': limb, s: seq<limb>, b: limb, m: int)
    requires i < |q| && i < |s|
    requires v + c' * BASE == s[i] * b + c + q[i]
    requires Val(q) + c * Place(i) == m + b * Val(s[..i])
    ensures Val(q[i := v]) + c' * Place(i + 1) == m + b * Val(s[..i + 1])
  {
    hide Pow, Val;
    AddStep(q, i, v, c, c', s[i] * b, m + b * Val(s[..i]));
    ValSnoc(s, i);
    Distr(b, Val(s[..i]), s[i] * Place(i));
    Assoc(b, s[i], Place(i));
  }

  lemma RippleStep(D: Mpi, off: nat, i: nat, v: limb, c: limb, c': limb, sum: int)
    requires off + i < |D.p|
    requires v + c' * BASE == D.p[off + i] + c
    requires Val(D.p[off..]) + c * Place(i) == sum
    ensures D.p[off + i := v][off..] == D.p[off..][i := v]
    ensures Val(D.p[off..][i := v]) + c' * Place(i + 1) == sum
  {
    hide Pow, Val;
    AddStep(D.p[off..], i, v, c, c', 0, sum);
  }

  /** One row of the product, from the top digit of B down. */
  lemma RowStep(x: seq<limb>, q: seq<limb>, b: seq<limb>, j: nat, t: nat, a: nat)
    requires 0 < j <= t <= |b| && j <= |x|
    requires forall k :: 0 <= k < j ==> x[k] == 0
    requires Val(x[j..]) == a * Val(b[j..t])
    ensures Val(x[j - 1..]) + b[j - 1] * a == a * Val(b[j - 1..t])
  {
    hide Pow, Val;
    ValCons(x, j - 1);
    ValCons(b[..t], j - 1);
    assert b[..t][j - 1..] == b[j - 1..t] && b[..t][j..] == b[j..t];
    RowAlgebra(a, BASE, Val(b[j..t]), b[j - 1]);
  }

  lemma RowAlgebra(a: int, base: int, high: int, digit: int)
    ensures base * (a * high) + digit * a == a * (digit + base * high)
  {
    Distr(a, digit, base * high);
    Assoc(base, a, high);
    Assoc(a, base, high);
  }

  lemma ProductFits(a: nat, i: nat, v: nat, k: nat, room: nat)
    requires a < Place(i) && v < Place(k) && i + k <= room
    ensures a * v < Place(room)
  {
    hide Pow;
    PowAdd(BASE, i, k);
    PowPos(2, BIL);
    PowMono(BASE, i + k, room);
    PlaceFacts(i);
    PlaceFacts(k);
    StrictProduct(a, v, Place(i), Place(k));
  }

  lemma StrictProduct(a: nat, v: nat, x: nat, y: nat)
    requires a < x && v < y
    ensures a * v < x * y
  {
    MulMono(a, x - 1, v);
    MulMono(v, y, x - 1);
    Distr(y, x, 1);
  }

  /** An operand the result is about to overwrite is copied first. */
  method Operand(X: Mpi, Y: Mpi) returns (Z: Mpi)
    ensures Z != X && (Z == Y || fresh(Z))
    ensures Z.Mag() == Y.Mag() && (|Y.p| > 0 ==> Z.s == Y.s) && Z.Int() == Y.Int()
  {
    Z := Y;
    if X == Y {
      Z := new Mpi();
      Copy(Z, Y);
    }
  }

  method MulMpi(X: Mpi, A0: Mpi, B0: Mpi)
    modifies X
    ensures X.Mag() == old(A0.Mag()) * old(B0.Mag())
    ensures old(|A0.p|) > 0 && old(|B0.p|) > 0 ==> X.s == SignTimes(old(A0.s), old(B0.s))
    ensures X.Int() == old(A0.Int()) * old(B0.Int())
    ensures |X.p| >= 1 && |X.p| >= old(|X.p|)
  {
    hide Pow, Val, Place;
    var A := Operand(X, A0);
    var B := Operand(X, B0);
    var i := UsedLimbs(A.p);
    var t := UsedLimbs(B.p);
    Grow(X, i + t);
    PowPos(2, BIL - 1);
    Lset(X, 0);
    MulRows(X, A.p, B.p, i, t);
    X.s := SignTimes(A.s, B.s);
    SignedProduct(A.s, A.Mag(), B.s, B.Mag());
  }

  function SignTimes(s: sign, t: sign): (r: sign)
    ensures r == s * t
  {
    if s == t then 1 else -1
  }

  lemma SignedProduct(s: sign, a: nat, t: sign, b: nat)
    ensures Signed(SignTimes(s, t), a * b) == Signed(s, a) * Signed(t, b)
  {
  }

  /** The row loop of mul_mpi, on an X that is already zero and large enough. */
  method MulRows(X: Mpi, a: seq<limb>, b: seq<limb>, i: nat, t: nat)
    requires i <= |a| && t <= |b| && i + t <= |X.p| && 1 <= |X.p|
    requires X.Mag() == 0
    modifies X`p
    ensures |X.p| == old(|X.p|)
    ensures X.Mag() == Val(a[..i]) * Val(b[..t])
  {
    hide Pow, Val, Place;
    var j := t;
    ghost var m := Val(a[..i]);
    ValZeroInv(X.p);
    ValZeros(X.p[t..]);
    ValZeros(b[t..t]);
    ValBound(a[..i]);
    while j > 0
      invariant 0 <= j <= t && |X.p| == old(|X.p|)
      invariant forall k :: 0 <= k < j ==> X.p[k] == 0
      invariant Val(X.p[j..]) == m * Val(b[j..t])
    {
      RowStep(X.p, X.p, b, j, t, m);
      ValBound(b[j - 1..t]);
      ProductFits(m, i, Val(b[j - 1..t]), t - j + 1, |X.p| - (j - 1));
      ghost var low := X.p[..j - 1];
      MulHlp(i, a, X, j - 1, b[j - 1]);
      forall k | 0 <= k < j - 1 ensures X.p[k] == 0 {
        assert X.p[k] == X.p[..j - 1][k] == low[k];
      }
      j := j - 1;
    }
    assert X.p[0..] == X.p && b[0..t] == b[..t];
  }

  method MulInt(X: Mpi, A: Mpi, b: limb)
    modifies X
    ensures X.Mag() == old(A.Mag()) * b && (old(|A.p|) > 0 ==> X.s == old(A.s))
    ensures X.Int() == old(A.Int()) * b
    ensures |X.p| >= 1 && |X.p| >= old(|X.p|)
  {
    hide Pow, Val, Place;
    var B := new Mpi.OfLimb(1, b);
    ValOne(b);
    MulMpi(X, A, B);
  }
}
