/** mbedtls_mpi_gcd and mbedtls_mpi_inv_mod: the binary algorithms. */
module MpiGcd {
  import opened Numbers
  import opened Limbs
  import opened MpiCore
  import opened MpiBits
  import opened MpiArith
  import opened MpiDivision

  // ---------------------------------------------------------------- what halving and subtracting preserve

  /** Pairs with the same common divisors have the same gcd. */
  lemma SameDivisors(a: nat, b: nat, c: nat, e: nat)
    requires forall d: nat :: Divides(d, a) && Divides(d, b) <==> Divides(d, c) && Divides(d, e)
    ensures Gcd(a, b) == Gcd(c, e)
  {
    hide Gcd;
    GcdFacts(c, e);
    forall d: nat | Divides(d, a) && Divides(d, b) ensures Divides(d, Gcd(c, e)) {
      GcdGreatest(c, e, d);
    }
    GcdUnique(a, b, Gcd(c, e));
  }

  lemma GcdComm(a: nat, b: nat)
    ensures Gcd(a, b) == Gcd(b, a)
  {
    hide Divides;
    SameDivisors(a, b, b, a);
  }

  lemma GcdSubtract(a: nat, b: nat)
    requires b <= a
    ensures Gcd(a - b, b) == Gcd(a, b)
  {
    hide Divides, Gcd;
    forall d: nat ensures Divides(d, a - b) && Divides(d, b) <==> Divides(d, a) && Divides(d, b) {
      if Divides(d, a - b) && Divides(d, b) {
        DividesLinear(d, a - b, b, 1, 1);
      }
      if Divides(d, a) && Divides(d, b) {
        DividesLinear(d, a, b, 1, -1);
      }
    }
    SameDivisors(a - b, b, a, b);
  }

  /** A divisor of an odd number that divides 2 x divides x. */
  lemma OddDivisor(d: nat, x: nat, b: nat)
    requires Divides(d, 2 * x) && Divides(d, b) && b % 2 == 1
    ensures Divides(d, x)
  {
    var k: int :| 2 * x == d * k;
    var l: int :| b == d * l;
    OddFactors(d, l);
    EvenCofactor(d, k);
    Assoc(d, 2, k / 2);
    assert d * (k / 2) == x;
  }

  lemma OddFactors(d: int, l: int)
    requires (d * l) % 2 == 1
    ensures d % 2 == 1
  {
    if d % 2 == 0 {
      Assoc(2, d / 2, l);
    }
  }

  lemma EvenCofactor(d: int, k: int)
    requires d % 2 == 1 && (d * k) % 2 == 0
    ensures k % 2 == 0 && d * k == (d * 2) * (k / 2)
  {
    if k % 2 == 1 {
      OddProduct(d, k);
    }
    Assoc(d, 2, k / 2);
  }

  lemma OddSum(p: int, t: int, k: int)
    requires p == 2 * t + k && k % 2 == 1
    ensures p % 2 == 1
  {
  }

  lemma OddProduct(d: int, k: int)
    requires d % 2 == 1 && k % 2 == 1
    ensures (d * k) % 2 == 1
  {
    var e := d / 2;
    Distr(k, 2 * e, 1);
    Assoc(2, e, k);
    OddSum(d * k, e * k, k);
  }

  lemma GcdHalve(x: nat, b: nat)
    requires b % 2 == 1
    ensures Gcd(2 * x, b) == Gcd(x, b)
  {
    hide Divides, Gcd;
    forall d: nat ensures Divides(d, 2 * x) && Divides(d, b) <==> Divides(d, x) && Divides(d, b) {
      if Divides(d, 2 * x) && Divides(d, b) {
        OddDivisor(d, x, b);
      }
      if Divides(d, x) && Divides(d, b) {
        DividesLinear(d, x, b, 2, 0);
      }
    }
    SameDivisors(2 * x, b, x, b);
  }

  lemma {:induction false} GcdStrip(x: nat, k: nat, b: nat)
    requires b % 2 == 1
    ensures 0 <= Pow(2, k) * x && Gcd(Pow(2, k) * x, b) == Gcd(x, b)
  {
    hide Gcd;
    if k > 0 {
      GcdStrip(x, k - 1, b);
      Assoc(2, Pow(2, k - 1), x);
      GcdHalve(Pow(2, k - 1) * x, b);
    }
  }

  /** A common power of two comes out of the gcd. */
  lemma GcdScale(k: nat, a: nat, b: nat)
    requires 0 < k
    ensures 0 <= k * a && 0 <= k * b && Gcd(k * a, k * b) == k * Gcd(a, b)
  {
    hide Gcd;
    MulPos(k, a);
    MulPos(k, b);
    var g := Gcd(a, b);
    MulPos(k, g);
    GcdFacts(a, b);
    ScaledDivides(k, g, a);
    ScaledDivides(k, g, b);
    var x, y :| Combination(x, a, y, b, g);
    forall d: nat | Divides(d, k * a) && Divides(d, k * b) ensures Divides(d, k * g) {
      DividesLinear(d, k * a, k * b, x, y);
      ScaledCombination(k, a, b, x, y, g);
    }
    GcdUnique(k * a, k * b, k * g);
  }

  lemma ScaledDivides(k: int, g: int, a: int)
    requires Divides(g, a)
    ensures Divides(k * g, k * a)
  {
    var q: int :| a == g * q;
    Assoc(k, g, q);
    DividesWith(k * g, k * a, q);
  }

  lemma ScaledCombination(k: int, a: int, b: int, x: int, y: int, g: int)
    requires Combination(x, a, y, b, g)
    ensures x * (k * a) + y * (k * b) == k * g
  {
    Assoc(x, k, a);
    Assoc(k, x, a);
    Assoc(y, k, b);
    Assoc(k, y, b);
    Distr(k, x * a, y * b);
  }

  // ---------------------------------------------------------------- the binary gcd

  /** `shift_r( X, lsb( X ) )`: the odd part of a nonzero X. */
  method OddPart(X: Mpi) returns (k: nat)
    modifies X
    ensures X.s == old(X.s) || (X.s == 1 && X.Mag() == 0)
    ensures X.Mag() <= old(X.Mag()) && (old(X.Mag()) > 0 ==> X.Mag() % 2 == 1)
    ensures old(X.Mag()) == Pow(2, k) * X.Mag()
    ensures old(X.Mag()) % 2 == 1 ==> k == 0
  {
    hide Pow, Val;
    ghost var m := X.Mag();
    k := Lsb(X);
    PowPos(2, k);
    ShiftR(X, k);
    if m == 0 {
      PowOne(2);
      DivModUnique(0, Pow(2, k), 0, 0);
    } else {
      ghost var odd: nat :| m == Pow(2, k) * odd && odd % 2 == 1;
      DivModUnique(m, Pow(2, k), odd, 0);
      MulPos(Pow(2, k), odd);
      if m % 2 == 1 && k > 0 {
        EvenPower(k, odd);
      }
    }
  }

  lemma EvenPower(k: nat, x: nat)
    requires k > 0
    ensures (Pow(2, k) * x) % 2 == 0
  {
    PowTwice(k - 1);
    hide Pow;
    Assoc(2, Pow(2, k - 1), x);
  }

  /** Both numbers lose their factors of two; at most one of them had any. */
  lemma StripBoth(a: nat, b: nat, a': nat, b': nat, k: nat, l: nat)
    requires a == Pow(2, k) * a' && b == Pow(2, l) * b' && a' % 2 == 1 && b' % 2 == 1
    requires a % 2 == 1 || b % 2 == 1
    requires a % 2 == 1 ==> k == 0
    requires b % 2 == 1 ==> l == 0
    ensures Gcd(a', b') == Gcd(a, b)
  {
    hide Pow, Gcd;
    PowOne(2);
    if b % 2 == 1 {
      GcdStrip(a', k, b);
    } else {
      GcdStrip(b', l, a);
      GcdComm(b', a);
      GcdComm(b, a);
    }
  }

  /** Subtracting and halving, once both are odd. */
  lemma SubtractHalve(a: nat, b: nat)
    requires a % 2 == 1 && b % 2 == 1 && b <= a
    ensures (a - b) % 2 == 0 && Gcd((a - b) / 2, b) == Gcd(a, b)
  {
    hide Gcd;
    GcdSubtract(a, b);
    GcdHalve((a - b) / 2, b);
  }

  lemma GcdZero(b: nat)
    ensures Gcd(0, b) == b
  {
    GcdComm(0, b);
  }

  /** One pass of the gcd loop. A zero TB stays zero and TA is only shifted down. */
  method GcdStep(TA: Mpi, TB: Mpi)
    requires TA != TB && TA.s == 1 && TB.s == 1 && TA.Mag() > 0
    requires TB.Mag() > 0 ==> TA.Mag() % 2 == 1 || TB.Mag() % 2 == 1
    modifies TA, TB
    ensures TA.s == 1 && TB.s == 1
    ensures TA.Mag() + TB.Mag() < old(TA.Mag()) + old(TB.Mag())
    ensures old(TB.Mag()) == 0 ==> TB.Mag() == 0
    ensures old(TB.Mag()) > 0 ==> TB.Mag() > 0 && (TA.Mag() % 2 == 1 || TB.Mag() % 2 == 1)
    ensures old(TB.Mag()) > 0 ==> Gcd(TA.Mag(), TB.Mag()) == Gcd(old(TA.Mag()), old(TB.Mag()))
  {
    hide Pow, Val, Gcd;
    ghost var a, b := TA.Mag(), TB.Mag();
    var k := OddPart(TA);
    var l := OddPart(TB);
    ghost var a', b' := TA.Mag(), TB.Mag();
    if b > 0 {
      StripBoth(a, b, a', b', k, l);
    } else {
      TimesZero(Pow(2, l), b');
    }
    PowOne(2);
    var c := CmpMpi(TA, TB);
    if c >= 0 {
      var e := SubAbs(TA, TA, TB);
      ShiftR(TA, 1);
      if b > 0 {
        SubtractHalve(a', b');
      }
    } else {
      var e := SubAbs(TB, TB, TA);
      ShiftR(TB, 1);
      SubtractHalve(b', a');
      GcdComm(a', b');
      GcdComm(a', (b' - a') / 2);
    }
  }

  lemma TimesZero(p: nat, b: nat)
    requires b <= 0
    ensures p * b == 0
  {
  }

  lemma CommonShift(a: nat, b: nat, i: nat, oa: nat, j: nat, ob: nat, lz: nat)
    requires a > 0 && b > 0 && a == Pow(2, i) * oa && oa % 2 == 1 && b == Pow(2, j) * ob && ob % 2 == 1
    requires lz == if j < i then j else i
    ensures Pow(2, lz) > 0 && a == Pow(2, lz) * (a / Pow(2, lz)) && b == Pow(2, lz) * (b / Pow(2, lz))
    ensures a / Pow(2, lz) > 0 && b / Pow(2, lz) > 0
    ensures (a / Pow(2, lz)) % 2 == 1 || (b / Pow(2, lz)) % 2 == 1
  {
    hide Pow;
    PowPos(2, lz);
    ShiftedDown(a, i, oa, lz);
    ShiftedDown(b, j, ob, lz);
    PowOne(2);
  }

  lemma ShiftedDown(a: nat, i: nat, oa: nat, lz: nat)
    requires a == Pow(2, i) * oa && lz <= i && oa > 0
    ensures Pow(2, lz) > 0 && a / Pow(2, lz) == Pow(2, i - lz) * oa > 0
    ensures a == Pow(2, lz) * (a / Pow(2, lz))
  {
    hide Pow;
    PowPos(2, lz);
    PowPos(2, i - lz);
    PowAdd(2, lz, i - lz);
    Assoc(Pow(2, lz), Pow(2, i - lz), oa);
    MulPos(Pow(2, i - lz), oa);
    DivModUnique(a, Pow(2, lz), Pow(2, i - lz) * oa, 0);
  }

  /** "lz = min( lsb( TA ), lsb( TB ) )", then both are shifted down by it. */
  method DropCommonTwos(TA: Mpi, TB: Mpi) returns (lz: nat)
    requires TA != TB
    modifies TA, TB
    ensures old(TA.Mag()) > 0 && old(TB.Mag()) > 0 ==>
      && old(TA.Mag()) == Pow(2, lz) * TA.Mag() && old(TB.Mag()) == Pow(2, lz) * TB.Mag()
      && TA.Mag() > 0 && TB.Mag() > 0 && (TA.Mag() % 2 == 1 || TB.Mag() % 2 == 1)
    ensures old(TA.Mag()) == 0 || old(TB.Mag()) == 0 ==>
      lz == 0 && TA.Mag() == old(TA.Mag()) && TB.Mag() == old(TB.Mag())
  {
    hide Pow, Val;
    ghost var a, b := TA.Mag(), TB.Mag();
    lz := Lsb(TA);
    ghost var i := lz;
    var lzt := Lsb(TB);
    if lzt < lz {
      lz := lzt;
    }
    PowOne(2);
    if a > 0 && b > 0 {
      ghost var oa: nat :| a == Pow(2, i) * oa && oa % 2 == 1;
      ghost var ob: nat :| b == Pow(2, lzt) * ob && ob % 2 == 1;
      CommonShift(a, b, i, oa, lzt, ob, lz);
    }
    ShiftR(TA, lz);
    ShiftR(TB, lz);
  }

  method GcdLoop(TA: Mpi, TB: Mpi)
    requires TA != TB && TA.s == 1 && TB.s == 1
    requires TA.Mag() > 0 && TB.Mag() > 0 ==> TA.Mag() % 2 == 1 || TB.Mag() % 2 == 1
    modifies TA, TB
    ensures TB.s == 1
    ensures TB.Mag() == if old(TB.Mag()) == 0 then 0 else Gcd(old(TA.Mag()), old(TB.Mag()))
  {
    hide Pow, Val, Gcd;
    ghost var g, b := Gcd(TA.Mag(), TB.Mag()), TB.Mag();
    PowPos(2, BIL - 1);
    var c := CmpInt(TA, 0);
    while c != 0
      invariant c == Order(TA.Int(), 0) && TA.s == 1 && TB.s == 1
      invariant b == 0 ==> TB.Mag() == 0
      invariant b > 0 ==> TB.Mag() > 0 && Gcd(TA.Mag(), TB.Mag()) == g
      invariant b > 0 && TA.Mag() > 0 ==> TA.Mag() % 2 == 1 || TB.Mag() % 2 == 1
      decreases TA.Mag() + TB.Mag()
    {
      GcdStep(TA, TB);
      c := CmpInt(TA, 0);
    }
    GcdZero(TB.Mag());
  }

  /** mbedtls_mpi_gcd. For B = 0 the loop runs TA down to 0 and the answer is 0, which is the gcd
      only when A is 0 too. */
  method GcdMpi(G: Mpi, A: Mpi, B: Mpi)
    modifies G
    ensures G.Int() == if old(B.Mag()) == 0 then 0 else Gcd(old(A.Mag()), old(B.Mag()))
    ensures G.Int() == Gcd(old(A.Mag()), old(B.Mag())) <==> old(B.Mag()) != 0 || old(A.Mag()) == 0
  {
    hide Pow, Val, Gcd;
    ghost var a, b := A.Mag(), B.Mag();
    var TA := new Mpi();
    var TB := new Mpi();
    Copy(TA, A);
    Copy(TB, B);
    var lz := DropCommonTwos(TA, TB);
    TA.s, TB.s := 1, 1;
    ghost var ta, tb := TA.Mag(), TB.Mag();
    GcdLoop(TA, TB);
    ShiftL(TB, lz);
    Unshifted(a, b, ta, tb, lz);
    Copy(G, TB);
  }

  /** The power of two taken out first is put back last. */
  lemma Unshifted(a: nat, b: nat, ta: nat, tb: nat, lz: nat)
    requires a > 0 && b > 0 ==> a == Pow(2, lz) * ta && b == Pow(2, lz) * tb && tb > 0
    requires a == 0 || b == 0 ==> lz == 0 && ta == a && tb == b
    ensures (if tb == 0 then 0 else Gcd(ta, tb)) * Pow(2, lz) == if b == 0 then 0 else Gcd(a, b)
    ensures b == 0 ==> (0 == Gcd(a, b) <==> a == 0)
  {
    hide Pow, Gcd;
    PowPos(2, lz);
    PowOne(2);
    GcdOfZero(a);
    if a > 0 && b > 0 {
      GcdScale(Pow(2, lz), ta, tb);
    }
  }

  lemma GcdOfZero(a: nat)
    ensures Gcd(a, 0) == a
  {
  }

  // ---------------------------------------------------------------- the modular inverse

  lemma CoprimeDivisor(a: nat, b: nat, a': nat)
    requires Gcd(a, b) == 1 && Divides(a', a)
    ensures Gcd(a', b) == 1
  {
    hide Gcd;
    var g := Gcd(a', b);
    GcdFacts(a', b);
    DividesTrans(g, a', a);
    GcdGreatest(a, b, g);
    DividesWith(1, g, g);
    DividesAntisym(g, 1);
  }

  lemma NotBothEven(a: nat, b: nat)
    requires Gcd(a, b) == 1
    ensures a % 2 == 1 || b % 2 == 1
  {
    hide Gcd;
    if a % 2 == 0 && b % 2 == 0 {
      DividesWith(2, a, a / 2);
      DividesWith(2, b, b / 2);
      GcdGreatest(a, b, 2);
    }
  }

  lemma DividesAbs(d: int, a: int)
    ensures Divides(d, Abs(a)) <==> Divides(d, a)
  {
    hide Divides;
    if Divides(d, a) {
      DividesLinear(d, a, a, if a < 0 then -1 else 1, 0);
    }
    if Divides(d, Abs(a)) {
      DividesLinear(d, Abs(a), Abs(a), if a < 0 then -1 else 1, 0);
    }
  }

  lemma ReduceDivisor(d: int, a: int, n: int, q: int, r: int)
    requires a == q * n + r
    ensures Divides(d, r) && Divides(d, n) <==> Divides(d, a) && Divides(d, n)
  {
    hide Divides;
    if Divides(d, r) && Divides(d, n) {
      DividesLinear(d, r, n, 1, q);
    }
    if Divides(d, a) && Divides(d, n) {
      DividesLinear(d, a, n, 1, -q);
      assert (-q) * n == -(q * n);
    }
  }

  lemma GcdReduce(a: int, n: nat)
    requires n > 0
    ensures Gcd(a % n, n) == Gcd(Abs(a), n)
  {
    hide Gcd, Divides;
    var q, r: nat := a / n, a % n;
    forall d: nat ensures Divides(d, r) && Divides(d, n) <==> Divides(d, Abs(a)) && Divides(d, n) {
      DividesAbs(d, a);
      ReduceDivisor(d, a, n, q, r);
    }
    SameDivisors(r, n, Abs(a), n);
  }

  /** Parity of an integer combination, decided by the parities of its parts. */
  lemma EvenCombination(u: int, a: int, v: int, b: int, t: int)
    requires Combination(u, a, v, b, t) && t % 2 == 0
    requires a % 2 == 1 || b % 2 == 1
    requires u % 2 == 1 || v % 2 == 1
    ensures (u + b) % 2 == 0 && (v - a) % 2 == 0
  {
    ParityProduct(u, a);
    ParityProduct(v, b);
    ParityLogic(u, a, v, b, u * a, v * b, t);
  }

  lemma ParityLogic(u: int, a: int, v: int, b: int, p: int, q: int, t: int)
    requires p % 2 == 1 <==> u % 2 == 1 && a % 2 == 1
    requires q % 2 == 1 <==> v % 2 == 1 && b % 2 == 1
    requires p + q == t && t % 2 == 0
    requires a % 2 == 1 || b % 2 == 1
    requires u % 2 == 1 || v % 2 == 1
    ensures (u + b) % 2 == 0 && (v - a) % 2 == 0
  {
  }

  lemma EvenTimes(x: int, y: int)
    requires x % 2 == 0
    ensures (x * y) % 2 == 0
  {
    Assoc(2, x / 2, y);
    Doubled(x * y, (x / 2) * y);
  }

  lemma Doubled(p: int, t: int)
    requires p == 2 * t
    ensures p % 2 == 0
  {
  }

  lemma ParityProduct(x: int, y: int)
    ensures (x * y) % 2 == 1 <==> x % 2 == 1 && y % 2 == 1
  {
    if x % 2 == 1 && y % 2 == 1 {
      OddProduct(x, y);
    } else if x % 2 == 0 {
      EvenTimes(x, y);
    } else {
      EvenTimes(y, x);
    }
  }

  /** Shifting the combination by (b, -a) changes nothing; halving all three keeps it. */
  lemma HalvedCombination(u: int, a: int, v: int, b: int, t: int, adjust: bool, u': int, v': int, t': int)
    requires Combination(u, a, v, b, t)
    requires 2 * t' == t
    requires 2 * u' == (if adjust then u + b else u) && 2 * v' == (if adjust then v - a else v)
    ensures Combination(u', a, v', b, t')
  {
    if adjust {
      Distr(a, u, b);
      Distr(b, v, a);
    }
    Assoc(2, u', a);
    Assoc(2, v', b);
  }

  lemma SubtractCombination(u: int, a: int, v: int, b: int, t: int, x: int, y: int, s: int)
    requires Combination(u, a, v, b, t) && Combination(x, a, y, b, s)
    ensures Combination(u - x, a, v - y, b, t - s)
  {
    Distr(a, u, x);
    Distr(b, v, y);
  }

  /** `shift_r( X, 1 )` on an even signed value is exact. */
  method Halve(X: Mpi)
    requires |X.p| > 0 && X.Int() % 2 == 0
    modifies X
    ensures 2 * X.Int() == old(X.Int()) && |X.p| == old(|X.p|)
  {
    hide Pow, Val;
    PowOne(2);
    ShiftR(X, 1);
  }

  /** `X->p[0] & 1` reads the parity of the signed value. */
  lemma ParityBit(X: Mpi)
    requires |X.p| > 0
    ensures X.p[0] % 2 == X.Int() % 2
  {
    hide Pow, Val;
    ValParity(X.p);
    NegParity(X.s, X.Mag());
  }

  lemma NegParity(s: sign, m: nat)
    ensures Signed(s, m) % 2 == m % 2
  {
  }

  /** One of the two inner loops of inv_mod: TU loses its factors of two, and U1, U2 follow so that
      U1 * TA + U2 * TB = TU still holds. */
  method HalveWhileEven(TU: Mpi, U1: Mpi, U2: Mpi, TA: Mpi, TB: Mpi)
    requires TU != U1 && TU != U2 && U1 != U2 && TA != TU && TA != U1 && TA != U2 && TB != TU && TB != U1 && TB != U2
    requires |TU.p| > 0 && |U1.p| > 0 && |U2.p| > 0 && TU.Int() > 0
    requires TA.Int() % 2 == 1 || TB.Int() % 2 == 1
    requires Combination(U1.Int(), TA.Int(), U2.Int(), TB.Int(), TU.Int())
    modifies TU, U1, U2
    ensures |TU.p| > 0 && |U1.p| > 0 && |U2.p| > 0
    ensures 0 < TU.Int() <= old(TU.Int()) && TU.Int() % 2 == 1
    ensures Divides(TU.Int(), old(TU.Int()))
    ensures Combination(U1.Int(), TA.Int(), U2.Int(), TB.Int(), TU.Int())
  {
    hide Pow, Val, Divides, Combination;
    ghost var t0 := TU.Int();
    DividesWith(t0, t0, 1);
    ParityBit(TU);
    while TU.p[0] % 2 == 0
      invariant |TU.p| > 0 && |U1.p| > 0 && |U2.p| > 0
      invariant 0 < TU.Int() <= t0 && Divides(TU.Int(), t0) && TU.p[0] % 2 == TU.Int() % 2
      invariant Combination(U1.Int(), TA.Int(), U2.Int(), TB.Int(), TU.Int())
      decreases TU.Int()
    {
      ghost var t, u, v := TU.Int(), U1.Int(), U2.Int();
      Halve(TU);
      ParityBit(U1);
      ParityBit(U2);
      ghost var adjust := U1.p[0] % 2 != 0 || U2.p[0] % 2 != 0;
      if adjust {
        EvenCombination(u, TA.Int(), v, TB.Int(), t);
      }
      if U1.p[0] % 2 != 0 || U2.p[0] % 2 != 0 {
        AddMpi(U1, U1, TB);
        SubMpi(U2, U2, TA);
      }
      Halve(U1);
      Halve(U2);
      HalvedCombination(u, TA.Int(), v, TB.Int(), t, adjust, U1.Int(), U2.Int(), TU.Int());
      DividesWith(TU.Int(), t, 2);
      DividesTrans(TU.Int(), t, t0);
      ParityBit(TU);
    }
  }

  /** The two extended rows of inv_mod. */
  ghost predicate Rows(ta: int, tb: int, tu: int, u1: int, u2: int, tv: int, v1: int, v2: int)
  {
    && Combination(u1, ta, u2, tb, tu) && Combination(v1, ta, v2, tb, tv)
    && 0 <= tu && 0 < tv && Gcd(tu, tv) == 1
    && (ta % 2 == 1 || tb % 2 == 1)
  }

  lemma RowsHalved(ta: int, tb: int, tu: nat, tv: nat, tu': nat, tv': nat)
    requires Gcd(tu, tv) == 1 && Divides(tu', tu) && Divides(tv', tv)
    ensures Gcd(tu', tv') == 1
  {
    hide Gcd;
    CoprimeDivisor(tu, tv, tu');
    GcdComm(tu', tv);
    CoprimeDivisor(tv, tu', tv');
    GcdComm(tv', tu');
  }

  /** The subtraction at the end of a pass: the larger row minus the smaller one. */
  method SubtractRow(TU: Mpi, U1: Mpi, U2: Mpi, TV: Mpi, V1: Mpi, V2: Mpi, ghost ta: int, ghost tb: int)
    requires TU != U1 && TU != U2 && U1 != U2
    requires TV != TU && TV != U1 && TV != U2 && V1 != TU && V1 != U1 && V1 != U2 && V2 != TU && V2 != U1 && V2 != U2
    requires Combination(U1.Int(), ta, U2.Int(), tb, TU.Int()) && Combination(V1.Int(), ta, V2.Int(), tb, TV.Int())
    requires 0 < TV.Int() <= TU.Int() && Gcd(TU.Int(), TV.Int()) == 1
    modifies TU, U1, U2
    ensures TU.Int() == old(TU.Int()) - TV.Int()
    ensures Combination(U1.Int(), ta, U2.Int(), tb, TU.Int()) && Gcd(TU.Int(), TV.Int()) == 1
    ensures |TU.p| >= old(|TU.p|) && |U1.p| >= old(|U1.p|) && |U2.p| >= old(|U2.p|)
  {
    hide Pow, Val, Gcd, Combination;
    SubtractCombination(U1.Int(), ta, U2.Int(), tb, TU.Int(), V1.Int(), V2.Int(), TV.Int());
    GcdSubtract(TU.Int(), TV.Int());
    SubMpi(TU, TU, TV);
    SubMpi(U1, U1, V1);
    SubMpi(U2, U2, V2);
  }

  /** The scratch MPIs of inv_mod are different objects from those they are compared with. */
  ghost predicate Apart(a: Mpi, b: Mpi, c: Mpi, d: Mpi, e: Mpi, f: Mpi, g: Mpi, h: Mpi)
  {
    && c != d && c != e && d != e && f != g && f != h && g != h
    && a != c && a != d && a != e && a != f && a != g && a != h
    && b != c && b != d && b != e && b != f && b != g && b != h
    && c != f && c != g && c != h && d != f && d != g && d != h && e != f && e != g && e != h
  }

  /** One pass of the do-while loop of inv_mod. */
  method InvStep(TA: Mpi, TB: Mpi, TU: Mpi, U1: Mpi, U2: Mpi, TV: Mpi, V1: Mpi, V2: Mpi)
    requires Apart(TA, TB, TU, U1, U2, TV, V1, V2)
    requires |TU.p| > 0 && |U1.p| > 0 && |U2.p| > 0 && |TV.p| > 0 && |V1.p| > 0 && |V2.p| > 0
    requires TU.Int() > 0
    requires Rows(TA.Int(), TB.Int(), TU.Int(), U1.Int(), U2.Int(), TV.Int(), V1.Int(), V2.Int())
    modifies TU, U1, U2, TV, V1, V2
    ensures |TU.p| > 0 && |U1.p| > 0 && |U2.p| > 0 && |TV.p| > 0 && |V1.p| > 0 && |V2.p| > 0
    ensures Rows(TA.Int(), TB.Int(), TU.Int(), U1.Int(), U2.Int(), TV.Int(), V1.Int(), V2.Int())
    ensures TU.Int() + TV.Int() < old(TU.Int()) + old(TV.Int())
  {
    hide Pow, Val, Gcd, Combination, Divides;
    ghost var ta, tb, tu, tv := TA.Int(), TB.Int(), TU.Int(), TV.Int();
    HalveWhileEven(TU, U1, U2, TA, TB);
    HalveWhileEven(TV, V1, V2, TA, TB);
    RowsHalved(ta, tb, tu, tv, TU.Int(), TV.Int());
    var c := CmpMpi(TU, TV);
    if c >= 0 {
      SubtractRow(TU, U1, U2, TV, V1, V2, ta, tb);
    } else {
      GcdComm(TU.Int(), TV.Int());
      SubtractRow(TV, V1, V2, TU, U1, U2, ta, tb);
      GcdComm(TU.Int(), TV.Int());
    }
  }

  /** When TU has run down to 0 the other row reads V1 * TA + V2 * N = 1. */
  lemma InverseFound(a: int, n: int, ta: int, u1: int, u2: int, tv: int, v1: int, v2: int)
    requires n > 1 && ta == a % n && Rows(ta, n, 0, u1, u2, tv, v1, v2)
    ensures tv == 1 && Cong(a * (v1 % n), 1, n)
  {
    hide Gcd, Cong;
    GcdZero(tv);
    CongWith(v1 * ta, 1, n, -v2);
    CongMod(v1, n);
    CongMod(a, n);
    CongMul(a, ta, v1 % n, v1, n);
    CongTrans(a * (v1 % n), ta * v1, 1, n);
  }

  lemma InverseForAll(n: int, ta: int, u1: int, u2: int, tv: int, v1: int, v2: int)
    requires n > 1 && Rows(ta, n, 0, u1, u2, tv, v1, v2)
    ensures forall a: int :: a % n == ta ==> Cong(a * (v1 % n), 1, n)
  {
    hide Rows, Cong;
    forall a: int | a % n == ta ensures Cong(a * (v1 % n), 1, n) {
      InverseFound(a, n, ta, u1, u2, tv, v1, v2);
    }
  }

  /** The do-while loop of inv_mod: it runs until TU is 0. */
  method InvRun(TA: Mpi, TB: Mpi, TU: Mpi, U1: Mpi, U2: Mpi, TV: Mpi, V1: Mpi, V2: Mpi)
    requires Apart(TA, TB, TU, U1, U2, TV, V1, V2)
    requires |TU.p| > 0 && |U1.p| > 0 && |U2.p| > 0 && |TV.p| > 0 && |V1.p| > 0 && |V2.p| > 0
    requires TU.Int() > 0
    requires Rows(TA.Int(), TB.Int(), TU.Int(), U1.Int(), U2.Int(), TV.Int(), V1.Int(), V2.Int())
    modifies TU, U1, U2, TV, V1, V2
    ensures Rows(TA.Int(), TB.Int(), 0, U1.Int(), U2.Int(), TV.Int(), V1.Int(), V2.Int()) && |V1.p| > 0
  {
    hide Pow, Val, Rows;
    PowPos(2, BIL - 1);
    var c := 1;
    while c != 0
      invariant TU.Int() >= 0 && (c == 0 <==> TU.Int() == 0)
      invariant |TU.p| > 0 && |U1.p| > 0 && |U2.p| > 0 && |TV.p| > 0 && |V1.p| > 0 && |V2.p| > 0
      invariant Rows(TA.Int(), TB.Int(), TU.Int(), U1.Int(), U2.Int(), TV.Int(), V1.Int(), V2.Int())
      decreases TU.Int() + TV.Int()
    {
      RowsSigns(TA.Int(), TB.Int(), TU.Int(), U1.Int(), U2.Int(), TV.Int(), V1.Int(), V2.Int());
      InvStep(TA, TB, TU, U1, U2, TV, V1, V2);
      RowsSigns(TA.Int(), TB.Int(), TU.Int(), U1.Int(), U2.Int(), TV.Int(), V1.Int(), V2.Int());
      c := CmpInt(TU, 0);
    }
  }

  lemma RowsSigns(ta: int, tb: int, tu: int, u1: int, u2: int, tv: int, v1: int, v2: int)
    requires Rows(ta, tb, tu, u1, u2, tv, v1, v2)
    ensures 0 <= tu && 0 < tv
  {
  }

  lemma RowsStart(ta: nat, n: nat)
    requires n > 1 && Gcd(ta, n) == 1
    ensures Rows(ta, n, ta, 1, 0, n, 0, 1)
  {
    hide Gcd;
    NotBothEven(ta, n);
  }

  method CopyOf(A: Mpi) returns (X: Mpi)
    ensures fresh(X) && X.Int() == A.Int() && (|A.p| > 0 ==> |X.p| > 0)
  {
    X := new Mpi();
    Copy(X, A);
  }

  /** inv_mod from U = (TA, 1, 0) and V = (N, 0, 1). */
  method InvLoop(TA: Mpi, TB: Mpi, N: Mpi) returns (V1: Mpi)
    requires TA != TB && TB.Int() == N.Int() > 1 && |TA.p| > 0 && |N.p| > 0
    requires 0 < TA.Int() < N.Int() && Gcd(TA.Int(), N.Int()) == 1
    ensures fresh(V1) && |V1.p| > 0
    ensures forall a: int :: a % N.Int() == TA.Int() ==> Cong(a * (V1.Int() % N.Int()), 1, N.Int())
  {
    hide Pow, Val, Gcd, Cong, Rows;
    ghost var ta, n := TA.Int(), N.Int();
    PowPos(2, BIL - 1);
    var one := OneSint();
    var TU := CopyOf(TA);
    var TV := CopyOf(N);
    var U1 := OfSint(one);
    var U2 := OfSint(0);
    V1 := OfSint(0);
    var V2 := OfSint(one);
    RowsStart(ta, n);
    InvRun(TA, TB, TU, U1, U2, TV, V1, V2);
    InverseForAll(n, ta, U1.Int(), U2.Int(), TV.Int(), V1.Int(), V2.Int());
  }

  method OneSint() returns (one: sint)
    ensures one == 1
  {
    BaseBound();
    one := 1;
  }

  /** mbedtls_mpi_inv_mod. X may be A or N. */
  method InvMod(X: Mpi, A: Mpi, N: Mpi) returns (ret: Error)
    modifies X
    ensures ret == if old(N.Int()) <= 1 then BadInputData
                   else if Gcd(old(A.Mag()), old(N.Mag())) != 1 then NotAcceptable else Ok
    ensures ret != Ok ==> X.s == old(X.s) && X.p == old(X.p)
    ensures ret == Ok ==> 0 <= X.Int() < old(N.Int()) && Cong(old(A.Int()) * X.Int(), 1, old(N.Int()))
    ensures ret == Ok ==> |X.p| > 0
  {
    hide Pow, Val, Gcd, Cong;
    var one := OneSint();
    var c := CmpInt(N, one);
    if c <= 0 {
      return BadInputData;
    }
    var G := new Mpi();
    GcdMpi(G, A, N);
    c := CmpInt(G, one);
    if c != 0 {
      return NotAcceptable;
    }
    InvCoprime(X, A, N);
    return Ok;
  }

  /** inv_mod once gcd(A, N) = 1 is known. */
  method InvCoprime(X: Mpi, A: Mpi, N: Mpi)
    requires N.Int() > 1 && Gcd(A.Mag(), N.Mag()) == 1
    modifies X
    ensures 0 <= X.Int() < old(N.Int()) && Cong(old(A.Int()) * X.Int(), 1, old(N.Int()))
    ensures |X.p| > 0
  {
    hide Pow, Val, Gcd, Cong;
    ghost var a, n := A.Int(), N.Int();
    if |A.p| == 0 {
      NonzeroHasLimbs(A.p);
      ValZeros(A.p);
      GcdZero(N.Mag());
    }
    NonzeroHasLimbs(N.p);
    var TA := new Mpi();
    var e := ModMpi(TA, A, N);
    GcdReduce(a, n);
    GcdZero(n);
    var TB := CopyOf(N);
    var V1 := InvLoop(TA, TB, N);
    Reduce(V1, N);
    Copy(X, V1);
  }
}
