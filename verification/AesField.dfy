/** GF(2^8) with the AES polynomial, its generator 3, inverses and the S-box (FIPS 197, sections 4 and 5.1.1). */
module AesField {
  import opened Numbers
  import opened Blocks
  import opened Octets

  /** Addition in the field: section 4.1. */
  function Add(x: bv8, y: bv8): bv8
  {
    x ^ y
  }

  lemma AddZero(x: bv8)
    ensures Add(x, 0) == x
  {
  }

  lemma AddSwap(x: bv8, y: bv8)
    ensures Add(x, y) == Add(y, x)
  {
  }

  lemma AddSelf(x: bv8)
    ensures Add(x, x) == 0
  {
  }

  lemma AddAssoc(a: bv8, b: bv8, c: bv8)
    ensures Add(Add(a, b), c) == Add(a, Add(b, c))
  {
  }

  lemma Add4(a: bv8, b: bv8, c: bv8, d: bv8)
    ensures Add(Add(a, b), Add(c, d)) == Add(Add(a, c), Add(b, d))
  {
    hide Add;
    AddAssoc(a, b, Add(c, d));
    AddAssoc(b, c, d);
    AddSwap(b, c);
    AddAssoc(c, b, d);
    AddAssoc(a, c, Add(b, d));
  }

  function Shl(x: bv8): bv8
  {
    x << 1
  }

  predicate Top(x: bv8)
  {
    x & 0x80 != 0
  }

  function Fold(top: bool): bv8
  {
    if top then 0x1B else 0
  }

  /** Multiplication by x modulo x^8 + x^4 + x^3 + x + 1: section 4.2.1. */
  function Xtime(x: bv8): bv8
  {
    Add(Shl(x), Fold(Top(x)))
  }

  /** It is multiplication by x of polynomials over GF(2), coefficient by coefficient. */
  lemma XtimeIsTimesX(b: bv8)
    ensures IsTimesX([Xtime(b)], [b], 0x1B)
  {
    XtimeFolds(b);
    hide Xtime, ShiftFold, BitOf;
    BytewiseIsTimesX([Xtime(b)], [b], 0x1B);
  }

  lemma XtimeFolds(b: bv8)
    ensures Xtime(b) == ShiftFold(b, BitOf(b, 7), 0x1B)
  {
  }

  lemma ShlAdd(x: bv8, y: bv8)
    ensures Shl(Add(x, y)) == Add(Shl(x), Shl(y))
  {
  }

  lemma FoldAdd(a: bool, b: bool)
    ensures Fold(a != b) == Add(Fold(a), Fold(b))
  {
  }

  lemma TopAdd(x: bv8, y: bv8)
    ensures Top(Add(x, y)) == (Top(x) != Top(y))
  {
  }

  lemma XtimeAdd(x: bv8, y: bv8)
    ensures Xtime(Add(x, y)) == Add(Xtime(x), Xtime(y))
  {
    hide Add, Shl, Fold, Top;
    ShlAdd(x, y);
    TopAdd(x, y);
    FoldAdd(Top(x), Top(y));
    Add4(Shl(x), Shl(y), Fold(Top(x)), Fold(Top(y)));
  }

  lemma XtimeZero()
    ensures Xtime(0) == 0
  {
  }

  function Pick(b: bool, x: bv8): bv8
  {
    if b then x else 0
  }

  /** x times the polynomial of y's bits k and up, each taken k places lower. */
  function MulBits(x: bv8, y: bv8, k: nat): bv8
    requires k <= 8
    decreases 8 - k
  {
    if k == 8 then 0 else Add(Pick(BitOf(y, k), x), MulBits(Xtime(x), y, k + 1))
  }

  /** Section 4.2: sums of repeated multiplications by x. */
  function GMul(x: bv8, y: bv8): bv8
  {
    MulBits(x, y, 0)
  }

  lemma PickAdd(b: bool, x: bv8, y: bv8)
    ensures Pick(b, Add(x, y)) == Add(Pick(b, x), Pick(b, y))
  {
    AddZero(0);
    hide Add;
  }

  lemma PickXtime(b: bool, x: bv8)
    ensures Pick(b, Xtime(x)) == Xtime(Pick(b, x))
  {
    XtimeZero();
    hide Xtime;
  }

  lemma {:induction false} MulBitsAdd(x: bv8, x': bv8, y: bv8, k: nat)
    requires k <= 8
    ensures MulBits(Add(x, x'), y, k) == Add(MulBits(x, y, k), MulBits(x', y, k))
    decreases 8 - k
  {
    hide Add, Xtime, Pick, BitOf;
    if k == 8 {
      AddZero(0);
    } else {
      XtimeAdd(x, x');
      MulBitsAdd(Xtime(x), Xtime(x'), y, k + 1);
      PickAdd(BitOf(y, k), x, x');
      Add4(Pick(BitOf(y, k), x), Pick(BitOf(y, k), x'), MulBits(Xtime(x), y, k + 1), MulBits(Xtime(x'), y, k + 1));
    }
  }

  lemma {:induction false} MulBitsXtime(x: bv8, y: bv8, k: nat)
    requires k <= 8
    ensures MulBits(Xtime(x), y, k) == Xtime(MulBits(x, y, k))
    decreases 8 - k
  {
    hide Add, Xtime, Pick, BitOf;
    if k == 8 {
      XtimeZero();
    } else {
      MulBitsXtime(Xtime(x), y, k + 1);
      PickXtime(BitOf(y, k), x);
      XtimeAdd(Pick(BitOf(y, k), x), MulBits(Xtime(x), y, k + 1));
    }
  }

  /** (x + x') y = x y + x' y. */
  lemma GMulAdd(x: bv8, x': bv8, y: bv8)
    ensures GMul(Add(x, x'), y) == Add(GMul(x, y), GMul(x', y))
  {
    hide MulBits, Add;
    MulBitsAdd(x, x', y, 0);
  }

  /** (X x) y = X (x y). */
  lemma GMulXtime(x: bv8, y: bv8)
    ensures GMul(Xtime(x), y) == Xtime(GMul(x, y))
  {
    hide MulBits, Xtime;
    MulBitsXtime(x, y, 0);
  }

  function HighBits(y: bv8, k: nat): bv8
    requires k <= 8
  {
    if k == 0 then y else if k == 1 then y & 0xFE else if k == 2 then y & 0xFC else if k == 3 then y & 0xF8
    else if k == 4 then y & 0xF0 else if k == 5 then y & 0xE0 else if k == 6 then y & 0xC0
    else if k == 7 then y & 0x80 else 0
  }

  lemma XtimeMask(k: nat)
    requires k < 7
    ensures Xtime(Mask(k)) == Mask(k + 1)
  {
  }

  lemma HighBitsStep(y: bv8, k: nat)
    requires k < 8
    ensures HighBits(y, k) == Add(Pick(BitOf(y, k), Mask(k)), HighBits(y, k + 1))
  {
  }

  /** 1 times the bits of y from k on. */
  lemma {:induction false} MulBitsOne(y: bv8, k: nat)
    requires k < 8
    ensures MulBits(Mask(k), y, k) == HighBits(y, k)
    decreases 8 - k
  {
    hide Add, Xtime, Pick, BitOf, Mask, HighBits;
    HighBitsStep(y, k);
    if k < 7 {
      MulBitsOne(y, k + 1);
      XtimeMask(k);
    } else {
      NoHighBits(y);
    }
  }

  lemma NoHighBits(y: bv8)
    ensures HighBits(y, 8) == 0
  {
  }

  lemma GMulOne(y: bv8)
    ensures GMul(1, y) == y
  {
    hide MulBits;
    MulBitsOne(y, 0);
  }

  // ---------------------------------------------------------------- the generator

  /** Multiplication by 3, the step of the table of powers. */
  function Step(x: bv8): bv8
  {
    Add(x, Xtime(x))
  }

  /** Powers of 3. */
  function G(k: nat): bv8
  {
    if k == 0 then 1 else Step(G(k - 1))
  }

  lemma StepMul(x: bv8, y: bv8)
    ensures GMul(Step(x), y) == Step(GMul(x, y))
  {
    hide GMul, Add, Xtime;
    GMulAdd(x, Xtime(x), y);
    GMulXtime(x, y);
  }

  /** 3^a 3^b = 3^(a+b). */
  lemma {:induction false} GSum(a: nat, b: nat)
    ensures GMul(G(a), G(b)) == G(a + b)
  {
    hide GMul, Step;
    if a == 0 {
      GMulOne(G(b));
    } else {
      GSum(a - 1, b);
      StepMul(G(a - 1), G(b));
    }
  }

  lemma StepZero(x: bv8)
    ensures Step(x) == 0 <==> x == 0
  {
  }

  lemma AddCancel(x: bv8, y: bv8)
    ensures Add(x, y) == 0 <==> x == y
  {
  }

  lemma StepAdd(x: bv8, y: bv8)
    ensures Step(Add(x, y)) == Add(Step(x), Step(y))
  {
    hide Add, Xtime;
    XtimeAdd(x, y);
    Add4(x, y, Xtime(x), Xtime(y));
  }

  lemma StepInjective(x: bv8, y: bv8)
    requires Step(x) == Step(y)
    ensures x == y
  {
    hide Add, Step;
    StepAdd(x, y);
    AddSelf(Step(x));
    StepZero(Add(x, y));
    AddCancel(x, y);
  }

  lemma {:induction false} GNonzero(k: nat)
    ensures G(k) != 0
  {
    hide Step;
    if k > 0 {
      GNonzero(k - 1);
      StepZero(G(k - 1));
    }
  }

  /** Equal powers can be divided down to 1. */
  lemma {:induction false} GCancel(a: nat, d: nat)
    requires G(a) == G(a + d)
    ensures G(d) == 1
  {
    hide Step;
    if a > 0 {
      StepInjective(G(a - 1), G(a + d - 1));
      GCancel(a - 1, d);
    }
  }

  lemma {:induction false} GMultiple(d: nat, k: nat)
    requires G(d) == 1
    ensures 0 <= d * k && G(d * k) == 1
  {
    hide GMul, Step;
    MulPos(d, k);
    if k == 0 {
      assert G(0) == 1;
    } else {
      GMultiple(d, k - 1);
      MulPos(d, k - 1);
      Distr(d, k, 1);
      GSum(d * (k - 1), d);
      GMulOne(1);
    }
  }

  lemma Products0()
    ensures GMul(0x11, 0x11) == 0x1A
    ensures GMul(0x1A, 0x1A) == 0x5F
  {
  }

  lemma Products1()
    ensures GMul(0xE1, 0xE1) == 0x5C
    ensures GMul(0x5C, 0xE1) == 0x0C
  {
  }

  lemma Products2()
    ensures GMul(0x5C, 0x5C) == 0xE0
    ensures GMul(0xE0, 0xE1) == 0xBD
  {
  }

  lemma Products3()
    ensures GMul(0xBD, 0xBD) == 0xBC
    ensures GMul(0xBC, 0xBD) == 0x01
  {
  }

  lemma SmallPowers()
    ensures G(1) == 0x03 && G(4) == 0x11 && G(15) == 0x35
  {
    assert G(2) == 0x05;
    assert G(8) == 0x1A;
  }

  lemma StepTo17()
    ensures Step(0x5F) == 0xE1
  {
  }

  /** 3^255 = 1, and 3^15, 3^51, 3^85 are not 1. */
  lemma SomePowers()
    ensures G(15) == 0x35 && G(51) == 0x0C && G(85) == 0xBD && G(255) == 0x01
  {
    Products0();
    Products1();
    Products2();
    Products3();
    SmallPowers();
    StepTo17();
    hide GMul, Step;
    GSum(4, 4);
    GSum(8, 8);
    assert G(17) == Step(G(16));
    GSum(17, 17);
    GSum(34, 17);
    GSum(34, 34);
    GSum(68, 17);
    GSum(85, 85);
    GSum(170, 85);
  }

  /** The order of 3 is 255: a divisor of 255 below it divides 15, 51 or 85. */
  lemma NoSmallOrder(d: nat)
    requires 0 < d < 255 && Divides(d, 255)
    ensures G(d) != 1
  {
    hide Step, G;
    SomePowers();
    var k: int :| 255 == d * k;
    SmallDivisor(d, k);
    if G(d) == 1 {
      if Divides(d, 15) {
        var m: int :| 15 == d * m;
        GMultipleIs(d, m, 15);
      } else if Divides(d, 51) {
        var m: int :| 51 == d * m;
        GMultipleIs(d, m, 51);
      } else {
        var m: int :| 85 == d * m;
        GMultipleIs(d, m, 85);
      }
    }
  }

  lemma GMultipleIs(d: nat, m: int, v: nat)
    requires G(d) == 1 && 0 < d && v == d * m
    ensures G(v) == 1
  {
    hide G;
    if m < 0 {
      MulMono(m, -1, d);
    } else {
      GMultiple(d, m);
    }
  }

  lemma SmallDivisor(d: nat, k: int)
    requires 0 < d < 255 && 255 == d * k
    ensures Divides(d, 15) || Divides(d, 51) || Divides(d, 85)
  {
    if k <= 1 {
      MulMono(k, 1, d);
    } else if k > 15 && d > 15 {
      MulMono(16, k, d);
      MulMono(16, d, 16);
    } else if k <= 15 {
      assert k == 3 || k == 5 || k == 15 by {
        DivisorsOf255(k, d);
      }
      assert if k == 3 then 85 == d * 1 else if k == 5 then 51 == d * 1 else 51 == d * 3;
    } else {
      DivisorsOf255(d, k);
      assert d == 1 ==> 15 == d * 15;
      assert d == 3 ==> 15 == d * 5;
      assert d == 5 ==> 15 == d * 3;
      assert d == 15 ==> 15 == d * 1;
    }
  }

  lemma DivisorsOf255(a: int, b: int)
    requires 0 < a <= 15 && 255 == a * b
    ensures a == 1 || a == 3 || a == 5 || a == 15
  {
    if a == 2 || a == 4 || a == 6 || a == 8 || a == 10 || a == 12 || a == 14 {
    }
  }

  /** The powers below 255 are all different. */
  lemma GInjective(i: nat, j: nat)
    requires i < j < 255
    ensures G(i) != G(j)
  {
    hide G, Gcd;
    if G(i) == G(j) {
      GCancel(i, j - i);
      SomePowers();
      GGcd(j - i, 255);
      GcdFacts(j - i, 255);
      DividesNoMore(Gcd(j - i, 255), j - i);
      NoSmallOrder(Gcd(j - i, 255));
    }
  }

  lemma DividesNoMore(g: nat, a: nat)
    requires 0 < a && Divides(g, a)
    ensures 0 < g <= a
  {
    var k: int :| a == g * k;
    if k <= 0 {
      MulMono(k, 0, g);
    } else {
      MulMono(1, k, g);
    }
  }

  /** If 3^a and 3^b are 1, so is 3^gcd(a, b). */
  lemma {:induction false} GGcd(a: nat, b: nat)
    requires G(a) == 1 && G(b) == 1
    ensures G(Gcd(a, b)) == 1
    decreases b
  {
    hide G;
    if b > 0 {
      var q := QuotRem(a, b);
      GMultiple(b, q.0);
      GSum(b * q.0, q.1);
      hide GMul;
      GMulOne(G(q.1));
      GGcd(b, a % b);
    }
  }

  // ---------------------------------------------------------------- logarithms and inverses

  /** The values of the first n powers. */
  ghost function Reached(n: nat): set<nat>
  {
    if n == 0 then {} else Reached(n - 1) + {Value(G(n - 1))}
  }

  predicate IsPower(k: nat, v: nat)
  {
    Value(G(k)) == v
  }

  lemma {:induction false} ReachedBy(n: nat, v: nat)
    ensures v in Reached(n) <==> exists k: nat :: k < n && IsPower(k, v)
  {
    hide Value, G;
    if n > 0 {
      ReachedBy(n - 1, v);
      assert v == Value(G(n - 1)) <==> IsPower(n - 1, v);
      hide IsPower;
    }
  }

  lemma SameValue(x: bv8, y: bv8)
    requires Value(x) == Value(y)
    ensures x == y
  {
    ValueByte(x);
    ValueByte(y);
    hide Byte, Value;
  }

  lemma {:induction false} ReachedCount(n: nat)
    requires n <= 255
    ensures |Reached(n)| == n
  {
    hide Value, G;
    if n > 0 {
      ReachedCount(n - 1);
      var v := Value(G(n - 1));
      ReachedBy(n - 1, v);
      if v in Reached(n - 1) {
        var k: nat :| k < n - 1 && IsPower(k, v);
        SameValue(G(k), G(n - 1));
        GInjective(k, n - 1);
      }
    }
  }

  ghost function UpTo(n: nat): set<nat>
  {
    if n == 0 then {} else UpTo(n - 1) + {n}
  }

  lemma {:induction false} UpToIs(n: nat)
    ensures |UpTo(n)| == n && forall v: nat :: v in UpTo(n) <==> 0 < v <= n
  {
    if n > 0 {
      UpToIs(n - 1);
    }
  }

  lemma SubsetEqual(a: set<nat>, b: set<nat>)
    requires a <= b && |a| == |b|
    ensures a == b
  {
    var d := b - a;
    assert b == a + d;
    assert |b| == |a| + |d|;
  }

  /** 255 different nonzero powers: every nonzero byte is one of them. */
  lemma EveryByteIsAPower(b: bv8)
    requires b != 0
    ensures exists k: nat :: k < 255 && G(k) == b
  {
    hide Value, G, Reached, Byte, UpTo;
    var all := UpTo(255);
    UpToIs(255);
    ReachedCount(255);
    forall v | v in Reached(255)
      ensures v in all
    {
      ReachedBy(255, v);
      var k: nat :| k < 255 && IsPower(k, v);
      ValueByte(G(k));
      ZeroValue(G(k));
      GNonzero(k);
    }
    SubsetEqual(Reached(255), all);
    ValueByte(b);
    ZeroValue(b);
    ReachedBy(255, Value(b));
    var k: nat :| k < 255 && IsPower(k, Value(b));
    SameValue(G(k), b);
  }

  /** The exponent of a nonzero byte. */
  ghost function Log(b: bv8): (k: nat)
    requires b != 0
    ensures k < 255 && G(k) == b
  {
    EveryByteIsAPower(b);
    var k: nat :| k < 255 && G(k) == b;
    k
  }

  /** The multiplicative inverse, with 0 for 0: step 1 of section 5.1.1. */
  ghost function Inv(b: bv8): bv8
  {
    if b == 0 then 0 else G(255 - Log(b))
  }

  lemma InvIs(b: bv8)
    requires b != 0
    ensures Inv(b) != 0 && GMul(b, Inv(b)) == 1
  {
    hide G, GMul;
    var k := Log(b);
    GSum(k, 255 - k);
    SomePowers();
    GNonzero(255 - k);
  }

  /** The inverse is the only byte that multiplies to 1. */
  lemma InvUnique(b: bv8, c: bv8)
    requires b != 0 && GMul(b, c) == 1
    ensures c == Inv(b)
  {
    hide G, GMul;
    SomePowers();
    GZero();
    if c == 0 {
      GMulZero(b);
    } else {
      GSum(Log(b), Log(c));
      OnlyOnes(Log(b) + Log(c));
    }
  }

  lemma OnlyOnes(e: nat)
    requires e < 510 && G(e) == 1
    ensures e == 0 || e == 255
  {
    hide G, GMul;
    SomePowers();
    GZero();
    if 0 < e < 255 {
      GInjective(0, e);
    } else if e > 255 {
      GSum(255, e - 255);
      GMulOne(G(e - 255));
      GInjective(0, e - 255);
    }
  }

  lemma GZero()
    ensures G(0) == 1
  {
  }

  lemma {:induction false} MulBitsZero(x: bv8, k: nat)
    requires k <= 8
    ensures MulBits(x, 0, k) == 0
    decreases 8 - k
  {
    if k < 8 {
      MulBitsZero(Xtime(x), k + 1);
      ZeroBits(k);
      AddZero(0);
      hide Add, Xtime, BitOf;
    }
  }

  lemma ZeroBits(k: nat)
    requires k < 8
    ensures !BitOf(0, k)
  {
  }

  lemma GMulZero(x: bv8)
    ensures GMul(x, 0) == 0
  {
    MulBitsZero(x, 0);
  }

  /** Inversion undoes itself. */
  lemma InvTwice(b: bv8)
    ensures Inv(Inv(b)) == b
  {
    hide G, GMul;
    if b != 0 {
      InvIs(b);
      var k := Log(b);
      GSum(255 - k, k);
      SomePowers();
      InvUnique(Inv(b), b);
    }
  }

  // ---------------------------------------------------------------- the field laws

  lemma ZeroTimes(y: bv8)
    ensures GMul(0, y) == 0
  {
    hide GMul, Add;
    AddSelf(1);
    GMulAdd(1, 1, y);
    AddSelf(GMul(1, y));
  }

  lemma GMulSwap(x: bv8, y: bv8)
    ensures GMul(x, y) == GMul(y, x)
  {
    hide GMul, G;
    if x == 0 {
      ZeroTimes(y);
      GMulZero(y);
    } else if y == 0 {
      ZeroTimes(x);
      GMulZero(x);
    } else {
      GSum(Log(x), Log(y));
      GSum(Log(y), Log(x));
    }
  }

  lemma GMulAssoc(x: bv8, y: bv8, z: bv8)
    ensures GMul(GMul(x, y), z) == GMul(x, GMul(y, z))
  {
    hide GMul, G;
    if x == 0 {
      ZeroTimes(y);
      ZeroTimes(z);
      ZeroTimes(GMul(y, z));
    } else if y == 0 {
      GMulZero(x);
      ZeroTimes(z);
    } else if z == 0 {
      GMulZero(GMul(x, y));
      GMulZero(y);
      GMulZero(x);
    } else {
      GSum(Log(x), Log(y));
      GSum(Log(y), Log(z));
      GSum(Log(x) + Log(y), Log(z));
      GSum(Log(x), Log(y) + Log(z));
    }
  }

  lemma GMulAddRight(x: bv8, y: bv8, y': bv8)
    ensures GMul(x, Add(y, y')) == Add(GMul(x, y), GMul(x, y'))
  {
    hide GMul, Add;
    GMulSwap(x, Add(y, y'));
    GMulSwap(x, y);
    GMulSwap(x, y');
    GMulAdd(y, y', x);
  }
}
