/** mbedtls_mpi_div_mpi and mod: multi-precision long division. */
module MpiDivision {
  import opened Numbers
  import opened Limbs
  import opened MpiCore
  import opened MpiBits
  import opened MpiArith
  import opened WordDiv

  // ---------------------------------------------------------------- the quotient digit

  /** y * b and x * b cut after two and three leading limbs: y2 and x3 are those limbs. */
  ghost predicate Leading(x: nat, y: nat, b: nat, x3: nat, y2: nat, pt: nat, pd: nat)
  {
    && 0 < b && 0 < pt && 0 < pd && pt <= y
    && y2 * pt <= y * b < y2 * pt + pt
    && x3 * (pt * pd) <= x * b < x3 * (pt * pd) + pt * pd
  }

  /** Every feasible digit passes the three-limb test. */
  lemma TestKeepsFeasible(c: nat, x: nat, y: nat, b: nat, x3: nat, y2: nat, pt: nat, pd: nat)
    requires Leading(x, y, b, x3, y2, pt, pd) && c * (y * pd) <= x
    ensures c * y2 <= x3
  {
    var p := pt * pd;
    MulPos(pt, pd);
    Regroup(c, y2, pt, pd);
    MulMono(y2 * pt, y * b, pd);
    MulMono((y2 * pt) * pd, (y * b) * pd, c);
    Reorder(c, y, b, pd);
    MulMono(c * (y * pd), x, b);
    BelowNext(c * y2, x3, p, x * b);
  }

  lemma Regroup(c: int, y2: int, pt: int, pd: int)
    ensures (c * y2) * (pt * pd) == c * ((y2 * pt) * pd)
  {
    Assoc(c, y2, pt * pd);
    Assoc(y2, pt, pd);
  }

  lemma Reorder(c: int, y: int, b: int, pd: int)
    ensures c * ((y * b) * pd) == (c * (y * pd)) * b
  {
    Assoc(y, b, pd);
    Assoc(y, pd, b);
    Assoc(c, y * pd, b);
  }

  lemma BelowNext(m: nat, x3: nat, p: nat, bound: nat)
    requires m * p <= bound < x3 * p + p
    ensures m <= x3
  {
    if m >= x3 + 1 {
      MulMono(x3 + 1, m, p);
      Distr(p, x3, 1);
    }
  }

  /** A digit that passes the test overshoots by less than one divisor. */
  lemma TestBoundsDigit(z: nat, x: nat, y: nat, b: nat, x3: nat, y2: nat, pt: nat, pd: nat)
    requires Leading(x, y, b, x3, y2, pt, pd) && z < b && z * y2 <= x3
    ensures z * (y * pd) < x + y * pd
  {
    MulPos(pt, pd);
    var yr := y * b - y2 * pt;
    assert z * (y * b) == (z * y2) * pt + z * yr by {
      Distr(z, y2 * pt, yr);
      Assoc(z, y2, pt);
    }
    assert (z * y2) * (pt * pd) <= x * b by {
      MulMono(z * y2, x3, pt * pd);
    }
    assert z * yr < b * y by {
      MulMono(z, b - 1, yr);
      MulMono(yr, y, b - 1);
      Distr(y, b, 1);
    }
    TestScale(z, x, y, b, (z * y2) * pt, z * yr, pd, y2, pt);
  }

  lemma TestScale(z: nat, x: nat, y: nat, b: nat, m: int, e: int, pd: nat, y2: nat, pt: nat)
    requires 0 < b && 0 < pd
    requires z * (y * b) == m + e && e < b * y
    requires m == (z * y2) * pt && (z * y2) * (pt * pd) <= x * b
    ensures z * (y * pd) < x + y * pd
  {
    Assoc(z * y2, pt, pd);
    Distr(pd, m, e);
    MulMono(e + 1, b * y, pd);
    Distr(pd, e, 1);
    assert (z * (y * b)) * pd == (z * (y * pd)) * b;
    assert (b * y) * pd == (y * pd) * b;
    Distr(b, x, y * pd);
    if z * (y * pd) >= x + y * pd {
      MulMono(x + y * pd, z * (y * pd), b);
    }
  }

  /** The one-limb estimate is above every digit that passes the three-limb test. */
  lemma FirstEstimate(c: nat, xi: nat, xj: nat, xk: nat, yt: nat, ys: nat, b: nat, q: nat, r: nat)
    requires 0 < yt && xk < b
    requires c * (yt * b + ys) <= xi * (b * b) + xj * b + xk
    requires xi * b + xj == q * yt + r && r < yt
    ensures c <= q
  {
    Distr(c, yt * b, ys);
    MulPos(c, ys);
    Assoc(c, yt, b);
    Assoc(xi, b, b);
    Distr(b, xi * b, xj);
    if c > q {
      MulMono(q + 1, c, yt);
      Distr(yt, q, 1);
      MulMono(xi * b + xj + 1, c * yt, b);
      Distr(b, xi * b + xj, 1);
    }
  }

  /** The leading limbs of a vector, read with zeros below the bottom. */
  ghost function Digit(p: seq<limb>, k: int): nat
    requires k < |p|
  {
    if k < 0 then 0 else p[k]
  }

  ghost function X3(p: seq<limb>, i: nat): nat
    requires 0 < i < |p|
  {
    MulPos(BASE, BASE);
    MulPos(p[i], BASE * BASE);
    MulPos(p[i - 1], BASE);
    p[i] * (BASE * BASE) + p[i - 1] * BASE + Digit(p, i - 2)
  }

  ghost function Y2(p: seq<limb>, t: nat): nat
    requires t < |p|
  {
    MulPos(p[t], BASE);
    p[t] * BASE + Digit(p, t - 1)
  }

  lemma LeadTwo(p: seq<limb>, t: nat, y: nat)
    requires t < |p| && y == Val(p[..t + 1])
    ensures Y2(p, t) * Place(t) <= y * BASE < Y2(p, t) * Place(t) + Place(t)
  {
    hide Pow, Val;
    ValSnoc(p, t);
    PlaceFacts(t);
    if t == 0 {
      ValZeros(p[..0]);
      PlaceFacts(0);
    } else {
      ValSnoc(p, t - 1);
      ValBound(p[..t - 1]);
      PlaceFacts(t - 1);
      CutBelow(Val(p[..t - 1]), p[t - 1], p[t], BASE, Place(t - 1), Place(t));
    }
  }

  lemma CutBelow(low: nat, d0: nat, d1: nat, b: nat, pk: nat, pt: nat)
    requires low < pk && pt == b * pk && 0 < b
    ensures (d1 * b + d0) * pt <= (low + d0 * pk + d1 * pt) * b < (d1 * b + d0) * pt + pt
  {
    Distr(b, low + d0 * pk, d1 * pt);
    Distr(b, low, d0 * pk);
    Assoc(d0, pk, b);
    Distr(pt, d1 * b, d0);
    assert (d1 * pt) * b == (d1 * b) * pt;
    MulMono(low + 1, pk, b);
    Distr(b, low, 1);
    MulPos(low, b);
  }

  lemma LeadThree(p: seq<limb>, i: nat, x: nat)
    requires 0 < i < |p| && x == Val(p[..i + 1])
    ensures X3(p, i) * Place(i - 1) <= x * BASE < X3(p, i) * Place(i - 1) + Place(i - 1)
  {
    hide Pow, Val;
    ValSnoc(p, i);
    LeadTwo(p, i - 1, Val(p[..i]));
    PlaceFacts(i - 1);
    AddTop(Val(p[..i]), p[i - 1] * BASE + Digit(p, i - 2), p[i], BASE, Place(i - 1), Place(i));
  }

  lemma AddTop(low: nat, lead: nat, d: nat, b: nat, pk: nat, pt: nat)
    requires pt == b * pk && lead * pk <= low * b < lead * pk + pk
    ensures (d * (b * b) + lead) * pk <= (low + d * pt) * b < (d * (b * b) + lead) * pk + pk
  {
    Distr(b, low, d * pt);
    Distr(pk, d * (b * b), lead);
    assert (d * (b * pk)) * b == (d * (b * b)) * pk;
  }

  /** The three-limb test lets every feasible digit through and is at most one too generous:
      this is what makes the single add-back below enough. */
  lemma DigitWindow(x: nat, y: nat, b: nat, x3: nat, y2: nat, pt: nat, pd: nat, z: nat)
    requires Leading(x, y, b, x3, y2, pt, pd) && z < b && z * y2 <= x3
    requires x < b * (y * pd)
    requires forall c: nat :: c < b && c * y2 <= x3 ==> c <= z
    ensures z * (y * pd) < x + y * pd
    ensures x < z * (y * pd) + y * pd
  {
    TestBoundsDigit(z, x, y, b, x3, y2, pt, pd);
    Distr(y * pd, z, 1);
    if x >= (z + 1) * (y * pd) {
      DigitIsLimb(z + 1, x, y * pd, b);
      TestKeepsFeasible(z + 1, x, y, b, x3, y2, pt, pd);
    }
  }

  /** A digit of x < y * b^(d+1) is a limb. */
  lemma DigitIsLimb(c: nat, x: nat, yd: nat, b: nat)
    requires c * yd <= x < b * yd
    ensures c < b
  {
    if c >= b {
      MulMono(b, c, yd);
    }
  }

  method LoadT1(T1: Mpi, y: seq<limb>, t: nat)
    requires t < |y| && |T1.p| >= 2
    modifies T1
    ensures |T1.p| == old(|T1.p|) && T1.s == 1 && T1.Mag() == Y2(y, t)
  {
    hide Pow, Val, Place;
    PowPos(2, BIL - 1);
    BaseBound();
    Lset(T1, 0);
    T1.p := T1.p[0 := if t < 1 then 0 else y[t - 1]];
    T1.p := T1.p[1 := y[t]];
    TwoLimbs(T1.p);
  }

  lemma TwoLimbs(p: seq<limb>)
    requires |p| >= 2 && forall k :: 2 <= k < |p| ==> p[k] == 0
    ensures Val(p) == p[1] * BASE + p[0]
  {
    hide Pow;
    ValTrim(p, 2);
    ValSnoc(p, 1);
    ValSnoc(p, 0);
    PlaceFacts(0);
  }

  lemma ThreeLimbs(p: seq<limb>)
    requires |p| >= 3 && forall k :: 3 <= k < |p| ==> p[k] == 0
    ensures Val(p) == p[2] * (BASE * BASE) + p[1] * BASE + p[0]
  {
    hide Pow;
    ValTrim(p, 3);
    ValSnoc(p, 2);
    ValSnoc(p, 1);
    ValSnoc(p, 0);
    PlaceFacts(0);
    PlaceFacts(1);
  }

  method LoadT2(T2: Mpi, x: seq<limb>, i: nat)
    requires 0 < i < |x| && |T2.p| >= 3
    modifies T2
    ensures |T2.p| == old(|T2.p|) && T2.s == 1 && T2.Mag() == X3(x, i)
  {
    hide Pow, Val, Place;
    PowPos(2, BIL - 1);
    BaseBound();
    Lset(T2, 0);
    T2.p := T2.p[0 := if i < 2 then 0 else x[i - 2]];
    T2.p := T2.p[1 := x[i - 1]];
    T2.p := T2.p[2 := x[i]];
    ThreeLimbs(T2.p);
  }

  /** The digit the do-while loop settles on: the largest one that passes the three-limb test
      among those not above the one-limb estimate, which already covers every feasible digit. */
  method EstimateDigit(X: Mpi, Y: Mpi, T1: Mpi, T2: Mpi, i: nat, t: nat) returns (z: limb)
    requires t < i < |X.p| && t < |Y.p| && Y.p[t] != 0
    requires T1 != X && T1 != Y && T2 != X && T2 != Y && T1 != T2
    requires |T1.p| >= 2 && |T2.p| >= 3
    modifies T1, T2
    ensures |T1.p| >= 2 && |T2.p| >= 3
    ensures z * Y2(Y.p, t) <= X3(X.p, i)
    ensures CoversTest(z, Y2(Y.p, t), X3(X.p, i))
  {
    hide Pow, Val, Place;
    BaseBound();
    if X.p[i] >= Y.p[t] {
      z := BASE - 1;
    } else {
      var q, r := IntDivIntWide(X.p[i], X.p[i - 1], Y.p[t]);
      z := q;
      FirstCovers(X.p, Y.p, i, t, q, r);
    }
    ghost var y2, x3 := Y2(Y.p, t), X3(X.p, i);
    z := AddWrap(z, 1);
    while true
      invariant |T1.p| >= 2 && |T2.p| >= 3
      invariant CoversTest(SubWrap(z, 1), y2, x3)
      decreases SubWrap(z, 1)
    {
      z := SubWrap(z, 1);
      LoadT1(T1, Y.p, t);
      MulInt(T1, T1, z);
      LoadT2(T2, X.p, i);
      var r := CmpMpi(T1, T2);
      if r <= 0 {
        break;
      }
      TestStep(z, y2, x3);
    }
  }

  ghost predicate CoversTest(z: nat, y2: nat, x3: nat)
  {
    forall c: nat :: c < BASE && c * y2 <= x3 ==> c <= z
  }

  lemma TestStep(z: nat, y2: nat, x3: nat)
    requires CoversTest(z, y2, x3) && z * y2 > x3
    ensures z > 0 && CoversTest(z - 1, y2, x3)
  {
    forall c: nat | c < BASE && c * y2 <= x3 ensures c <= z - 1 {
      assert c != z;
    }
  }

  lemma FirstCovers(x: seq<limb>, y: seq<limb>, i: nat, t: nat, q: limb, r: limb)
    requires 0 < i < |x| && t < |y| && x[i] < y[t]
    requires IsWordDiv(x[i], x[i - 1], y[t], q, r)
    ensures CoversTest(q, Y2(y, t), X3(x, i))
  {
    BaseBound();
    forall c: nat | c < BASE && c * Y2(y, t) <= X3(x, i) ensures c <= q {
      FirstEstimate(c, x[i], x[i - 1], Digit(x, i - 2), y[t], Digit(y, t - 1), BASE, q, r);
    }
  }

  lemma OneMorePlace(y: nat, d: nat)
    ensures y * Place(d + 1) == BASE * (y * Place(d))
  {
    hide Pow;
    PlaceFacts(d);
    Assoc(y, BASE, Place(d));
    Assoc(BASE, y, Place(d));
  }

  /** x < y * b^(i - t) fits i + 1 limbs. */
  lemma DividendLimbs(x: nat, y: nat, i: nat, t: nat)
    requires t < i && y < Place(t + 1) && x < y * Place(i - t)
    ensures x < Place(i + 1)
  {
    hide Pow;
    PlaceSum(t + 1, i - t);
    PlaceFacts(i - t);
    MulMono(y, Place(t + 1), Place(i - t));
  }

  lemma LeadingLimbs(x: seq<limb>, y: seq<limb>, i: nat, t: nat)
    requires t < i < |x| && t < |y| && y[t] != 0
    requires Val(y) < Place(t + 1) && Val(x) < Val(y) * Place(i - t)
    ensures Leading(Val(x), Val(y), BASE, X3(x, i), Y2(y, t), Place(t), Place(i - t - 1))
  {
    hide Pow, Val, Place, X3, Y2;
    ValSmallHigh(y, t + 1);
    ValTopBound(y, t);
    DividendLimbs(Val(x), Val(y), i, t);
    ValSmallHigh(x, i + 1);
    LeadTwo(y, t, Val(y));
    LeadThree(x, i, Val(x));
    PlaceSum(t, i - t - 1);
    PlaceFacts(t);
    PlaceFacts(i - t - 1);
    BaseBound();
  }

  lemma PlaceSum(a: nat, b: nat)
    ensures Place(a + b) == Place(a) * Place(b)
  {
    PowAdd(BASE, a, b);
  }

  /** X -= z * Y * b^d, then one add-back if that went below zero. */
  method SubtractDigit(X: Mpi, Y: Mpi, T1: Mpi, z0: limb, d: nat) returns (z: limb)
    requires T1 != X && T1 != Y && X != Y && |T1.p| >= 2 && |X.p| > 0 && |Y.p| > 0 && Y.s == 1
    requires X.Int() >= 0
    requires z0 * (Y.Mag() * Place(d)) < X.Int() + Y.Mag() * Place(d)
    requires X.Int() < z0 * (Y.Mag() * Place(d)) + Y.Mag() * Place(d)
    modifies X, T1
    ensures |T1.p| >= 2 && |X.p| >= old(|X.p|)
    ensures X.Int() == old(X.Int()) - z * (Y.Mag() * Place(d))
    ensures 0 <= X.Int() < Y.Mag() * Place(d)
  {
    hide Pow, Val, Place;
    ghost var yd := Y.Mag() * Place(d);
    ghost var x := X.Int();
    z := z0;
    PlaceIsBits(d);
    MulInt(T1, Y, z);
    ShiftL(T1, BIL * d);
    Swap3(Y.Mag(), z, Place(d));
    SubMpi(X, X, T1);
    assert X.Int() == x - z0 * yd;
    PowPos(2, BIL - 1);
    var r := CmpInt(X, 0);
    if r < 0 {
      Copy(T1, Y);
      ShiftL(T1, BIL * d);
      AddMpi(X, X, T1);
      ZeroTimes(z, yd, x);
      z := z - 1;
      Distr(yd, z0, 1);
    }
  }

  lemma Swap3(y: int, z: int, p: int)
    ensures (y * z) * p == z * (y * p)
  {
    Assoc(z, y, p);
  }

  lemma ZeroTimes(z: nat, yd: nat, x: nat)
    requires x - z * yd < 0
    ensures z > 0
  {
  }

  /** A vector of t + 1 significant limbs shows a nonzero limb t. */
  lemma TopLimbSet(p: seq<limb>, t: nat)
    requires t < |p| && Place(t) <= Val(p) < Place(t + 1)
    ensures p[t] != 0
  {
    hide Pow, Val;
    ValSmallHigh(p, t + 1);
    ValSnoc(p, t);
    ValBound(p[..t]);
  }

  /** One more quotient digit, written below those already there. */
  lemma DigitWritten(z: seq<limb>, d: nat, v: limb, y: nat, x: int, x': int, total: int)
    requires d < |z| && z[d] == 0
    requires x + Val(z) * y == total
    requires x' == x - v * (y * Place(d))
    ensures x' + Val(z[d := v]) * y == total
  {
    hide Pow, Val;
    ValUpdate(z, d, v);
    Distr(y, Val(z), v * Place(d));
    Assoc(v, Place(d), y);
    Assoc(v, y, Place(d));
  }

  lemma IntIsMag(X: Mpi)
    requires X.Int() >= 0
    ensures X.Mag() == X.Int()
  {
  }

  /** The digit loop of div_mpi. */
  method DivLoop(X: Mpi, Y: Mpi, Z: Mpi, T1: Mpi, T2: Mpi, n: nat, t: nat)
    requires X != Y && X != Z && Y != Z && T1 != X && T1 != Y && T1 != Z && T2 != X && T2 != Y && T2 != Z && T1 != T2
    requires t <= n < |X.p| && t < |Y.p| && Y.p[t] != 0 && Y.s == 1 && Y.Mag() < Place(t + 1)
    requires 0 <= X.Int() < Y.Mag() * Place(n - t)
    requires n - t < |Z.p| && forall k :: 0 <= k < n - t ==> Z.p[k] == 0
    requires |T1.p| >= 2 && |T2.p| >= 3
    modifies X, Z, T1, T2
    ensures X.Int() + Z.Mag() * Y.Mag() == old(X.Int() + Z.Mag() * Y.Mag())
    ensures 0 <= X.Int() < Y.Mag()
    ensures Z.s == old(Z.s) && |Z.p| == old(|Z.p|) && |X.p| > 0
  {
    hide Pow, Val, Place, X3, Y2, Leading, CoversTest;
    ghost var y := Y.Mag();
    ghost var total := X.Int() + Z.Mag() * y;
    var i := n;
    while i > t
      invariant t <= i <= n < |X.p| && |T1.p| >= 2 && |T2.p| >= 3
      invariant |Z.p| == old(|Z.p|) && Z.s == old(Z.s)
      invariant 0 <= X.Int() < y * Place(i - t)
      invariant forall k :: 0 <= k < i - t ==> Z.p[k] == 0
      invariant X.Int() + Z.Mag() * y == total
    {
      var d := i - t - 1;
      ghost var x := X.Int();
      IntIsMag(X);
      LeadingLimbs(X.p, Y.p, i, t);
      OneMorePlace(y, d);
      ghost var xp := X.p;
      var z := EstimateDigit(X, Y, T1, T2, i, t);
      WindowFor(x, y, xp, Y.p, i, t, z);
      z := SubtractDigit(X, Y, T1, z, d);
      DigitWritten(Z.p, d, z, y, x, X.Int(), total);
      Z.p := Z.p[d := z];
      i := i - 1;
    }
    PlaceFacts(0);
  }

  lemma WindowFor(x: nat, y: nat, xp: seq<limb>, yp: seq<limb>, i: nat, t: nat, z: limb)
    requires t < i < |xp| && t < |yp|
    requires Leading(x, y, BASE, X3(xp, i), Y2(yp, t), Place(t), Place(i - t - 1))
    requires x < BASE * (y * Place(i - t - 1))
    requires z * Y2(yp, t) <= X3(xp, i) && CoversTest(z, Y2(yp, t), X3(xp, i))
    ensures z * (y * Place(i - t - 1)) < x + y * Place(i - t - 1)
    ensures x < z * (y * Place(i - t - 1)) + y * Place(i - t - 1)
  {
    hide Pow, X3, Y2, Leading, Place;
    DigitWindow(x, y, BASE, X3(xp, i), Y2(yp, t), Place(t), Place(i - t - 1), z);
  }

  /** The top digit: X is brought below Y * b^(n - t) by repeated subtraction. */
  method TopDigit(X: Mpi, Y: Mpi, Z: Mpi, m: nat)
    requires X != Y && X != Z && Y != Z && m < |Z.p| && |X.p| > 0
    requires Z.Mag() == 0 && X.s == 1 && Y.s == 1 && X.Mag() < BASE * Y.Mag()
    modifies X, Z
    ensures |X.p| >= old(|X.p|) && |Z.p| == old(|Z.p|) && Z.s == old(Z.s)
    ensures forall k :: 0 <= k < m ==> Z.p[k] == 0
    ensures 0 <= X.Int() < Y.Mag()
    ensures exists c: nat :: Z.Mag() == c * Place(m) && X.Int() + c * Y.Mag() == old(X.Mag())
  {
    hide Pow, Val, Place;
    ghost var y := Y.Mag();
    ghost var x0 := X.Mag();
    ValZeroInv(Z.p);
    BaseBound();
    ghost var z0 := Z.p;
    assert z0[m] == 0;
    var r := CmpMpi(X, Y);
    while r >= 0
      invariant |X.p| >= old(|X.p|) && Z.s == old(Z.s) && |Z.p| == |z0|
      invariant Z.p == z0[m := Z.p[m]]
      invariant 0 <= X.Int() && X.Int() + Z.p[m] * y == x0
      invariant r == Order(X.Int(), y)
      decreases X.Int()
    {
      CountFits(Z.p[m], X.Int(), y, x0, BASE);
      Z.p := Z.p[m := AddWrap(Z.p[m], 1)];
      SubMpi(X, X, Y);
      r := CmpMpi(X, Y);
    }
    ValUpdate(z0, m, Z.p[m]);
  }

  lemma CountFits(c: nat, x: int, y: nat, x0: nat, b: nat)
    requires x >= y && x + c * y == x0 && x0 < b * y
    ensures c + 1 < b && y > 0
    ensures x - y + (c + 1) * y == x0
  {
    Distr(y, c, 1);
    if c + 1 >= b {
      MulMono(b, c + 1, y);
    }
    MulPos(b, y);
  }

  /** A trimmed copy has a nonzero top limb, unless the value is 0. */
  lemma TrimmedTop(p: seq<limb>)
    requires |p| > 0 && Val(p) > 0
    requires |p| > 1 ==> p[|p| - 1] != 0
    ensures Place(|p| - 1) <= Val(p)
  {
    hide Pow;
    if |p| > 1 {
      ValTopBound(p, |p| - 1);
    } else {
      PlaceFacts(0);
    }
  }

  /** A copy scaled by 2^k, whose top limb is in use. */
  method CopyScaled(X: Mpi, A: Mpi, k: nat)
    requires X != A && X.p == [] && |A.p| > 0 && A.Mag() > 0
    modifies X
    ensures X.Mag() == A.Mag() * Pow(2, k) && X.s == 1
    ensures |X.p| > 0 && Place(|X.p| - 1) <= X.Mag() < Place(|X.p|)
  {
    hide Pow, Val, Place;
    Copy(X, A);
    X.s := 1;
    TrimmedTop(X.p);
    PowPos(2, k);
    MulPos(X.Mag(), Pow(2, k));
    ShiftL(X, k);
    ValBound(X.p);
  }

  /** The normalisation shift of div_mpi: it leaves the top bit of the divisor's top limb clear. */
  function NormShift(bits: nat): (k: nat)
    ensures k < BIL
  {
    if bits % BIL < BIL - 1 then BIL - 1 - bits % BIL else 0
  }

  /** The top digit again, with Y moved up under X for it and moved back afterwards. */
  method TopDigitShifted(X: Mpi, Y: Mpi, Z: Mpi, n: nat, t: nat)
    requires X != Y && X != Z && Y != Z && X.s == 1 && Y.s == 1 && Z.Mag() == 0
    requires |X.p| == n + 1 && |Y.p| == t + 1 && t <= n && n - t < |Z.p|
    requires X.Mag() < Place(n + 1) && Place(t) <= Y.Mag() < Place(t + 1)
    modifies X, Y, Z
    ensures |X.p| > n && |Y.p| > t && |Z.p| == old(|Z.p|) && Z.s == old(Z.s)
    ensures Y.Mag() == old(Y.Mag()) && Y.s == 1 && Y.p[t] != 0
    ensures forall k :: 0 <= k < n - t ==> Z.p[k] == 0
    ensures 0 <= X.Int() < Y.Mag() * Place(n - t)
    ensures X.Int() + Z.Mag() * Y.Mag() == old(X.Mag())
  {
    hide Pow, Val, Place;
    ghost var x0, y := X.Mag(), Y.Mag();
    PlaceIsBits(n - t);
    TopRoom(x0, y, n, t);
    PlaceFacts(n - t);
    PlaceFacts(t);
    MulPos(y, Place(n - t));
    ShiftL(Y, BIL * (n - t));
    TopDigit(X, Y, Z, n - t);
    CountAsValue(X.Int(), Z.Mag(), y, Place(n - t), x0);
    ShiftR(Y, BIL * (n - t));
    DivModUnique(y * Place(n - t), Place(n - t), y, 0);
    TopLimbSet(Y.p, t);
  }

  lemma CountAsValue(x: int, z: nat, y: nat, place: nat, x0: int)
    requires exists c: nat :: z == c * place && x + c * (y * place) == x0
    ensures x + z * y == x0
  {
    var c: nat :| z == c * place && x + c * (y * place) == x0;
    Assoc(c, place, y);
  }

  /** Long division of normalised magnitudes: Z becomes the quotient, X the remainder. */
  method LongDivide(X: Mpi, Y: Mpi, Z: Mpi)
    requires X != Y && X != Z && Y != Z && X.s == 1 && Y.s == 1 && Z.Mag() == 0
    requires |X.p| > 0 && |Y.p| > 0 && |X.p| - |Y.p| < |Z.p|
    requires Place(|Y.p| - 1) <= Y.Mag() <= X.Mag()
    modifies X, Y, Z
    ensures X.Mag() + Z.Mag() * old(Y.Mag()) == old(X.Mag()) && X.Mag() < old(Y.Mag())
    ensures |X.p| > 0 && |Z.p| == old(|Z.p|) && Z.s == old(Z.s)
  {
    hide Pow, Val, Place;
    var T1 := new Mpi();
    var T2 := new Mpi();
    Grow(T1, 2);
    Grow(T2, 3);
    LongEnough(X.p, |Y.p|);
    ValBound(X.p);
    ValBound(Y.p);
    var n, t := |X.p| - 1, |Y.p| - 1;
    TopDigitShifted(X, Y, Z, n, t);
    DivLoop(X, Y, Z, T1, T2, n, t);
    IntIsMag(X);
  }

  /** The division of magnitudes, on scratch MPIs: Z becomes the quotient, X the remainder. */
  method DivAbs(X: Mpi, Z: Mpi, A: Mpi, B: Mpi)
    requires X != A && X != B && Z != A && Z != B && X != Z
    requires X.p == [] && Z.p == [] && X.s == 1 && Z.s == 1
    requires 0 < B.Mag() <= A.Mag() && |A.p| > 0 && |B.p| > 0
    modifies X, Z
    ensures A.Mag() == Z.Mag() * B.Mag() + X.Mag() && X.Mag() < B.Mag()
    ensures |X.p| > 0 && |Z.p| > 0 && Z.s == 1
  {
    hide Pow, Val, Place, QuotRem;
    var Y := new Mpi();
    Grow(Z, |A.p| + 2);
    PowPos(2, BIL - 1);
    Lset(Z, 0);
    var bits := Bitlen(B);
    var k := NormShift(bits);
    CopyScaled(X, A, k);
    CopyScaled(Y, B, k);
    PowPos(2, k);
    MulMono(B.Mag(), A.Mag(), Pow(2, k));
    ScaledLimbs(A.p, X.p, k);
    LongDivide(X, Y, Z);
    ghost var parts := QuotRem(X.Mag(), Pow(2, k));
    Unscale(A.Mag(), B.Mag(), Pow(2, k), Z.Mag(), X.Mag(), parts.0, parts.1);
    ShiftR(X, k);
  }

  /** The scaled dividend has at most one limb more than A, so Z is long enough. */
  lemma ScaledLimbs(a: seq<limb>, x: seq<limb>, k: nat)
    requires k < BIL && |x| > 0
    requires Place(|x| - 1) <= Val(x) == Val(a) * Pow(2, k)
    ensures |x| <= |a| + 1
  {
    hide Pow, Val;
    ValBound(a);
    PowMono(2, k, BIL);
    PowPos(2, k);
    PlaceFacts(|a|);
    MulMono(Val(a) + 1, Place(|a|), Pow(2, k));
    Distr(Pow(2, k), Val(a), 1);
    MulMono(Pow(2, k), BASE, Place(|a|));
    if |x| > |a| + 1 {
      BaseBound();
      PowMono(BASE, |a| + 1, |x| - 1);
    }
  }

  lemma TopRoom(x0: nat, y: nat, n: nat, t: nat)
    requires t <= n && x0 < Place(n + 1) && Place(t) <= y
    ensures x0 < BASE * (y * Place(n - t))
  {
    hide Pow;
    PlaceFacts(n);
    PlaceFacts(n - t);
    PlaceSum(t, n - t);
    MulMono(Place(t), y, Place(n - t));
    BaseBound();
    MulMono(Place(n), y * Place(n - t), BASE);
  }

  // ---------------------------------------------------------------- the public routines

  /** Whether quotient and remainder of a = sa * A and b = sb * B still satisfy the division identity when the signs are
      read after Q has been written, in the place of A (qa) or B (qb). */
  predicate SignsSurvive(qa: bool, qb: bool, sa: sign, a: nat, sb: sign, b: nat)
    requires b > 0
  {
    if qa && qb then true
    else if qa then a == 0 || (a >= b && sa == 1 && (sb == 1 || a % b == 0))
    else if qb then sb == 1 || a < b
    else true
  }

  /** The sign of Q: a Q in the place of an input has already lost that input's sign. */
  function QuotSign(qa: bool, qb: bool, sa: sign, sb: sign): sign
  {
    SignTimes(if qa then 1 else sa, if qb then 1 else sb)
  }

  /** And R takes the sign A has by then. */
  function RestSign(qa: bool, qb: bool, sa: sign, sb: sign): sign
  {
    if qa then QuotSign(qa, qb, sa, sb) else sa
  }

  lemma SignsDecide(qa: bool, qb: bool, sa: sign, a: nat, sb: sign, b: nat, q: nat, r: nat, x: int, y: int)
    requires b > 0 && a == q * b + r && r < b && (qa && qb ==> sa == sb && a == b)
    requires x == Signed(QuotSign(qa, qb, sa, sb), q)
    requires y == if qa && a < b then 0 else Signed(RestSign(qa, qb, sa, sb), r)
    ensures Signed(sa, a) == x * Signed(sb, b) + y <==> SignsSurvive(qa, qb, sa, a, sb, b)
    ensures Abs(y) < b
  {
    DivModUnique(a, b, q, r);
    if qa && qb {
      DivModUnique(a, b, 1, 0);
    }
    QuotPositive(q, b, a, r);
    SignedProduct(QuotSign(qa, qb, sa, sb), q, sb, b);
    SignsLinear(qa, qb, sa, a, sb, b, q * b, r, y);
  }

  /** What is left of it once q * b has become a number of its own. */
  lemma SignsLinear(qa: bool, qb: bool, sa: sign, a: nat, sb: sign, b: nat, m: nat, r: nat, y: int)
    requires b > 0 && a == m + r && r < b && r == a % b && (qa && qb ==> sa == sb && a == b && r == 0)
    requires (a >= b ==> m >= b) && (a < b ==> m == 0)
    requires y == if qa && a < b then 0 else Signed(RestSign(qa, qb, sa, sb), r)
    ensures Signed(sa, a) == Signed(SignTimes(QuotSign(qa, qb, sa, sb), sb), m) + y <==> SignsSurvive(qa, qb, sa, a, sb, b)
  {
  }

  lemma QuotPositive(q: nat, b: nat, a: nat, r: nat)
    requires a == q * b + r && r < b
    ensures a >= b ==> q * b >= b
    ensures a < b ==> q * b == 0
  {
    if q > 0 {
      MulMono(1, q, b);
    }
  }

  /** mbedtls_mpi_div_mpi. Either output may be absent, and any two of the four numbers may be one object. The signs are
      read after Q has been written, so with Q in the place of an input the identity holds only as SignsSurvive says. */
  method DivMpi(Q: Mpi?, R: Mpi?, A: Mpi, B: Mpi) returns (ret: Error)
    modifies Q, R
    ensures ret == if old(B.Mag()) == 0 then DivisionByZero else Ok
    ensures ret != Ok && Q != null ==> Q.s == old(Q.s) && Q.p == old(Q.p)
    ensures ret != Ok && R != null ==> R.s == old(R.s) && R.p == old(R.p)
    ensures ret == Ok && Q != null && Q != R ==>
      Q.Int() == Signed(QuotSign(Q == A, Q == B, old(A.s), old(B.s)), old(A.Mag()) / old(B.Mag()))
    ensures ret == Ok && R != null ==>
      R.Int() == if Q == A && old(A.Mag()) < old(B.Mag()) then 0
                 else Signed(RestSign(Q == A, Q == B, old(A.s), old(B.s)), old(A.Mag()) % old(B.Mag()))
    ensures ret == Ok && R != null && old(|A.p|) > 0 ==> |R.p| > 0 && |R.p| >= old(|R.p|)
    ensures ret == Ok && Q != null && R != null && Q != R ==>
      (old(A.Int()) == Q.Int() * old(B.Int()) + R.Int() <==>
       SignsSurvive(Q == A, Q == B, old(A.s), old(A.Mag()), old(B.s), old(B.Mag())))
    ensures ret == Ok && R != null ==> Abs(R.Int()) < Abs(old(B.Int()))
  {
    hide Pow, Val, Place, SignTimes, SignsSurvive;
    PowPos(2, BIL - 1);
    var z := CmpInt(B, 0);
    if z == 0 {
      return DivisionByZero;
    }
    ghost var a, b, sa, sb := A.Mag(), B.Mag(), A.s, B.s;
    var c := CmpAbs(A, B);
    if c < 0 {
      DivModUnique(a, b, 0, a);
      if Q != null {
        Lset(Q, 0);
      }
      if R != null {
        Copy(R, A);
        SignsDecide(Q == A, Q == B, sa, a, sb, b, 0, a, 0, R.Int());
      }
      return Ok;
    }
    var X, Z := DivideApart(A, B);
    SignsDecide(Q == A, Q == B, sa, a, sb, b, Z.Mag(), X.Mag(),
      Signed(QuotSign(Q == A, Q == B, sa, sb), Z.Mag()), Signed(RestSign(Q == A, Q == B, sa, sb), X.Mag()));
    if Q != null {
      Copy(Q, Z);
      Q.s := SignTimes(A.s, B.s);
    }
    if R != null {
      X.s := A.s;
      Copy(R, X);
      ClearSign(R);
    }
    return Ok;
  }

  /** The unsigned division of the two inputs, into fresh numbers. */
  method DivideApart(A: Mpi, B: Mpi) returns (X: Mpi, Z: Mpi)
    requires 0 < B.Mag() <= A.Mag()
    ensures fresh(X) && fresh(Z) && X != Z && Z.s == 1 && |X.p| > 0 && |Z.p| > 0 && |A.p| > 0
    ensures A.Mag() == Z.Mag() * B.Mag() + X.Mag() && X.Mag() < B.Mag()
    ensures Z.Mag() == A.Mag() / B.Mag() && X.Mag() == A.Mag() % B.Mag()
  {
    hide Pow, Val, Place;
    NonzeroHasLimbs(A.p);
    NonzeroHasLimbs(B.p);
    X := new Mpi();
    Z := new Mpi();
    DivAbs(X, Z, A, B);
    DivModUnique(A.Mag(), B.Mag(), Z.Mag(), X.Mag());
  }

  /** `if( mbedtls_mpi_cmp_int( R, 0 ) == 0 ) R->s = 1;` */
  method ClearSign(R: Mpi)
    modifies R`s
    ensures R.Int() == old(R.Int())
  {
    hide Pow, Val;
    PowPos(2, BIL - 1);
    var e := CmpInt(R, 0);
    if e == 0 {
      R.s := 1;
    }
  }

  method DivInt(Q: Mpi?, R: Mpi?, A: Mpi, b: sint) returns (ret: Error)
    modifies Q, R
    ensures ret == if b == 0 then DivisionByZero else Ok
    ensures ret != Ok && Q != null ==> Q.s == old(Q.s) && Q.p == old(Q.p)
    ensures ret != Ok && R != null ==> R.s == old(R.s) && R.p == old(R.p)
    ensures ret == Ok && Q != null && Q != R ==>
      Q.Int() == Signed(SignTimes(if Q == A then 1 else old(A.s), if b < 0 then -1 else 1), old(A.Mag()) / Abs(b))
    ensures ret == Ok && R != null && Q != A ==> R.Int() == Signed(old(A.s), old(A.Mag()) % Abs(b))
    ensures ret == Ok && Q != null && R != null && Q != R && Q != A ==> old(A.Int()) == Q.Int() * b + R.Int()
  {
    hide SignTimes;
    var B := OfSint(b);
    ret := DivMpi(Q, R, A, B);
  }

  lemma EuclidSigned(s: sign, a: nat, b: nat)
    requires b > 0
    ensures Cong(Signed(s, a % b), Signed(s, a), b)
  {
    assert a == (a / b) * b + a % b;
    CongWith(Signed(s, a % b), Signed(s, a), b, -Signed(s, a / b));
  }

  /** The two closing loops of mod_mpi (and of inv_mod): add or subtract B until R is in [0, B). */
  method Reduce(R: Mpi, B: Mpi)
    requires R != B && B.Int() > 0
    modifies R
    ensures R.Int() == old(R.Int()) % B.Int()
    ensures |R.p| >= old(|R.p|)
  {
    hide Pow, Val, Place, Cong;
    ghost var a, b := R.Int(), B.Int();
    PowPos(2, BIL - 1);
    CongRefl(a, b);
    var c := CmpInt(R, 0);
    while c < 0
      invariant c == Order(R.Int(), 0) && Cong(R.Int(), a, b)
      invariant |R.p| >= old(|R.p|)
      decreases -R.Int()
    {
      CongShift(R.Int(), a, b);
      AddMpi(R, R, B);
      c := CmpInt(R, 0);
    }
    c := CmpMpi(R, B);
    while c >= 0
      invariant c == Order(R.Int(), b) && Cong(R.Int(), a, b) && R.Int() >= 0
      invariant |R.p| >= old(|R.p|)
      decreases R.Int()
    {
      CongShift(R.Int(), a, b);
      SubMpi(R, R, B);
      c := CmpMpi(R, B);
    }
    ModIs(R.Int(), a, b);
  }

  /** mbedtls_mpi_mod_mpi: the least non-negative residue. R may be A. */
  method ModMpi(R: Mpi, A: Mpi, B: Mpi) returns (ret: Error)
    requires R != B
    modifies R
    ensures ret == if B.Int() < 0 then NegativeValue else if B.Int() == 0 then DivisionByZero else Ok
    ensures ret != Ok ==> R.s == old(R.s) && R.p == old(R.p)
    ensures ret == Ok ==> R.Int() == old(A.Int()) % B.Int()
    ensures ret == Ok && old(|A.p|) > 0 ==> |R.p| > 0 && |R.p| >= old(|R.p|)
  {
    hide Pow, Val, Place, Cong;
    PowPos(2, BIL - 1);
    var neg := CmpInt(B, 0);
    if neg < 0 {
      return NegativeValue;
    }
    ghost var a := A.Int();
    ret := DivMpi(null, R, A, B);
    if ret != Ok {
      return;
    }
    EuclidSigned(old(A.s), old(A.Mag()), B.Mag());
    CongIffMod(R.Int(), a, B.Int());
    Reduce(R, B);
  }

  lemma CongShift(r: int, a: int, m: int)
    requires Cong(r, a, m)
    ensures Cong(r + m, a, m) && Cong(r - m, a, m)
  {
    var k :| r == a + k * m;
    Distr(m, k, 1);
    CongWith(r + m, a, m, k + 1);
    CongWith(r - m, a, m, k - 1);
  }
}
