/** The remainder by a machine word, taken half a limb at a time. */
module MpiModInt {
  import opened Numbers
  import opened Limbs
  import opened MpiCore

  /** The weight of half a limb: 1 << biH. */
  function Half(): (h: nat)
    ensures 0 < h && h * h == BASE
  {
    BaseSquare();
    PowPos(2, BIL / 2);
    Pow(2, BIL / 2)
  }

  lemma HalfBelow(y: nat, b: nat, x: nat)
    requires 0 < b <= Half() && y < b && x < Half()
    ensures y * Half() + x < BASE
  {
    hide Half;
    MulMono(y + 1, Half(), Half());
    Distr(Half(), y, 1);
  }

  lemma HalvesOf(x: limb)
    ensures x / Half() < Half() && x % Half() < Half() && x == (x / Half()) * Half() + x % Half()
  {
    hide Half;
    var q := QuotRem(x, Half());
    if q.0 >= Half() {
      MulMono(Half(), q.0, Half());
    }
  }

  /** Two half-word steps take the remainder past one more limb. */
  lemma RemainderStep(y: int, u: int, v: int, x: int, b: int, hi: int, h: int)
    requires 0 < b && y == hi % b && h * h == BASE && x == u * h + v
    ensures ((y * h + u) % b * h + v) % b == (hi * BASE + x) % b
  {
    var q, w := hi / b, (y * h + u) / b;
    var r := (y * h + u) % b;
    var z, t := (r * h + v) / b, (r * h + v) % b;
    DivMod(hi, b);
    DivMod(y * h + u, b);
    DivMod(r * h + v, b);
    RemainderAlgebra(hi, b, q, y, h, u, v, x, w, r, z, t);
    DivModUnique(hi * BASE + x, b, q * BASE + w * h + z, t);
  }

  lemma DivMod(a: int, d: int)
    requires d > 0
    ensures a == (a / d) * d + a % d && 0 <= a % d < d
  {
  }

  lemma RemainderAlgebra(hi: int, b: int, q: int, y: int, h: int, u: int, v: int, x: int, w: int, r: int, z: int, t: int)
    requires hi == q * b + y && h * h == BASE && x == u * h + v && y * h + u == w * b + r && r * h + v == z * b + t
    ensures hi * BASE + x == (q * BASE + w * h + z) * b + t
  {
    Distr(BASE, q * b, y);
    Assoc(q, b, BASE);
    Assoc(q, BASE, b);
    Assoc(y, h, h);
    Distr(h, y * h, u);
    Distr(h, w * b, r);
    Assoc(w, b, h);
    Assoc(w, h, b);
    Distr(b, q * BASE + w * h, z);
    Distr(b, q * BASE, w * h);
  }

  // ---------------------------------------------------------------- what the loop computes

  /** `y = ( y << biH ) | u; y -= ( y / b ) * b`: the shift drops what leaves the limb. */
  function HalfStep(y: nat, u: nat, b: nat): nat
    requires b > 0
  {
    BaseBound();
    (y * Half() % BASE + u) % b
  }

  /** The limbs from the top down, each in two halves. */
  function Folded(p: seq<limb>, b: nat): nat
    requires b > 0
  {
    if p == [] then 0 else HalfStep(HalfStep(Folded(p[1..], b), p[0] / Half(), b), p[0] % Half(), b)
  }

  /** The divisors for which nothing that matters is dropped. */
  predicate Safe(b: nat)
    requires b > 0
  {
    b <= Half() || BASE % b == 0
  }

  lemma DropMultiple(q: nat, base: nat, k: nat, r: nat, u: nat, b: nat)
    requires b > 0 && base == k * b
    ensures (r + u) % b == (q * base + r + u) % b
  {
    var w := QuotRem(r + u, b);
    Assoc(q, k, b);
    Distr(b, q * k, w.0);
    DivModUnique(q * base + r + u, b, q * k + w.0, w.1);
  }

  lemma HalfStepIs(y: nat, u: nat, b: nat)
    requires 0 < b && Safe(b) && y < b && u < Half()
    ensures HalfStep(y, u, b) == (y * Half() + u) % b
  {
    hide Half;
    BaseBound();
    var t := y * Half();
    MulPos(y, Half());
    if b <= Half() {
      HalfBelow(y, b, u);
      DivModUnique(t, BASE, 0, t);
    } else {
      var q := QuotRem(t, BASE);
      var k := QuotRem(BASE, b);
      DropMultiple(q.0, BASE, k.0, q.1, u, b);
    }
  }

  lemma {:induction false} FoldedIsRemainder(p: seq<limb>, b: nat)
    requires 0 < b && Safe(b)
    ensures Folded(p, b) == Val(p) % b
  {
    hide Half, Safe, HalfStep;
    if p != [] {
      var y := Folded(p[1..], b);
      FoldedIsRemainder(p[1..], b);
      HalvesOf(p[0]);
      HalfStepIs(y, p[0] / Half(), b);
      HalfStepIs((y * Half() + p[0] / Half()) % b, p[0] % Half(), b);
      RemainderStep(y, p[0] / Half(), p[0] % Half(), p[0], b, Val(p[1..]), Half());
    } else {
      DivModUnique(0, b, 0, 0);
    }
  }

  // ---------------------------------------------------------------- where it fails

  /** Only powers of 2 divide powers of 2. */
  lemma {:induction false} DivisorOfPower(b: nat, k: nat, n: nat) returns (e: nat)
    requires b * k == Pow(2, n)
    ensures b == Pow(2, e)
    decreases n
  {
    hide Pow;
    PowOne(2);
    if b == 1 {
      e := 0;
    } else if n == 0 {
      MulPos(b, k);
      assert false;
    } else {
      PowTwice(n - 1);
      PowPos(2, n - 1);
      var c, d := QuotRem(b, 2), QuotRem(k, 2);
      EvenFactor(b, k, c.0, c.1, d.0, d.1, Pow(2, n - 1));
      if c.1 == 0 {
        e := DivisorOfPower(c.0, k, n - 1);
        PowTwice(e);
        e := e + 1;
      } else {
        e := DivisorOfPower(b, d.0, n - 1);
      }
    }
  }

  lemma EvenFactor(b: nat, k: nat, c: nat, cr: nat, d: nat, dr: nat, half: nat)
    requires b == c * 2 + cr && k == d * 2 + dr && cr < 2 && dr < 2 && b * k == 2 * half
    ensures cr == 0 ==> c * k == half
    ensures cr == 1 ==> b * d == half
  {
    if cr == 0 {
      Assoc(2, c, k);
    } else {
      Distr(b, d * 2, dr);
      Assoc(b, d, 2);
      assert dr == 1 ==> 2 * half == 2 * (b * d) + 2 * c + 1;
    }
  }

  /** Two limbs that every unsafe divisor gets wrong: Half at the top, nothing below. */
  function Trap(): (p: seq<limb>)
    ensures |p| == 2 && p[0] == 0 && p[1] == Half()
  {
    BaseBound();
    HalfIsLimb();
    [0, Half()]
  }

  lemma HalfIsLimb()
    ensures 1 < Half() < BASE
  {
    hide Pow;
    BaseBound();
    if Half() < 2 {
      MulMono(Half(), 1, Half());
    }
    MulMono(2, Half(), Half());
  }

  lemma TrapValue()
    ensures Val(Trap()) == BASE * Half() && BASE * Half() == Pow(2, BIL + BIL / 2)
  {
    var p := Trap();
    assert p[1..] == [Half()];
    ValOne(Half());
    PowAdd(2, BIL, BIL / 2);
    hide Pow;
  }

  /** The shift drops all of it. */
  lemma TrapFolds(b: nat)
    requires Half() < b
    ensures Folded(Trap(), b) == 0
  {
    hide Half;
    BaseBound();
    HalfIsLimb();
    var p := Trap();
    assert p[1..] == [Half()] && [Half()][1..] == [];
    DivModUnique(Half(), Half(), 1, 0);
    DivModUnique(0, Half(), 0, 0);
    assert Folded([], b) == 0;
    TrapStep(b);
    hide HalfStep;
    assert Folded([Half()], b) == HalfStep(HalfStep(0, 1, b), 0, b);
    assert Folded(p, b) == HalfStep(HalfStep(Folded(p[1..], b), 0, b), 0, b);
  }

  lemma TrapStep(b: nat)
    requires Half() < b
    ensures HalfStep(0, 1, b) == 1 && HalfStep(1, 0, b) == Half() && HalfStep(Half(), 0, b) == 0 && HalfStep(0, 0, b) == 0
  {
    hide Half;
    BaseBound();
    HalfIsLimb();
    DivModUnique(0, BASE, 0, 0);
    DivModUnique(1, b, 0, 1);
    DivModUnique(Half(), BASE, 0, Half());
    DivModUnique(Half(), b, 0, Half());
    DivModUnique(Half() * Half(), BASE, 1, 0);
    DivModUnique(0, b, 0, 0);
    assert 0 * Half() == 0 && 1 * Half() == Half();
  }

  lemma TrapIsNoMultiple(b: nat)
    requires Half() < b < BASE && !Safe(b)
    ensures Val(Trap()) % b != 0
  {
    hide Half, Pow, Val, Trap;
    TrapValue();
    var v := Val(Trap());
    var q := QuotRem(v, b);
    if q.1 == 0 {
      var e := DivisorOfPower(b, q.0, BIL + BIL / 2);
      PowerIsSafe(b, e);
    }
  }

  lemma PowerIsSafe(b: nat, e: nat)
    requires b == Pow(2, e) < BASE && b > 0
    ensures BASE % b == 0
  {
    hide Pow;
    SmallPower(e);
    PowAdd(2, e, BIL - e);
    MultipleModZero(BASE, b, Pow(2, BIL - e));
  }

  lemma MultipleModZero(a: nat, b: nat, f: nat)
    requires a == b * f && b > 0
    ensures a % b == 0
  {
    DivModUnique(a, b, f, 0);
  }

  lemma SmallPower(e: nat)
    requires Pow(2, e) < BASE
    ensures e < BIL
  {
    if e >= BIL {
      PowMono(2, BIL, e);
    }
  }

  /** The loop is right for every number exactly when the divisor fits half a word or is a power of two. */
  lemma RightExactlyWhenSafe(b: nat)
    requires 0 < b < BASE
    ensures (forall p: seq<limb> :: Folded(p, b) == Val(p) % b) <==> Safe(b)
  {
    if Safe(b) {
      forall p: seq<limb>
        ensures Folded(p, b) == Val(p) % b
      {
        FoldedIsRemainder(p, b);
      }
    } else {
      TrapFolds(b);
      TrapIsNoMultiple(b);
      hide Folded, Val;
      assert Folded(Trap(), b) != Val(Trap()) % b;
    }
  }

  // ---------------------------------------------------------------- the operation

  /** mbedtls_mpi_mod_int. Only the test of the lowest bit for b == 2 needs a limb to look at. */
  method ModInt(A: Mpi, b: sint) returns (ret: Error, r: limb)
    requires b == 2 ==> |A.p| > 0
    ensures ret == if b == 0 then DivisionByZero else if b < 0 then NegativeValue else Error.Ok
    ensures ret == Error.Ok ==> r == if A.s == -1 && Folded(A.p, b) != 0 then b - Folded(A.p, b) else Folded(A.p, b)
    ensures ret == Error.Ok && Safe(b) ==> r == A.Int() % b
  {
    hide Val, Pow, Half, Folded, Safe;
    BaseBound();
    SintAbsIsLimb(b);
    if b == 0 {
      return DivisionByZero, 0;
    }
    if b < 0 {
      return NegativeValue, 0;
    }
    NegativeRemainder(A.Mag(), b);
    if b <= 2 {
      SmallIsSafe(b);
    }
    if Safe(b) {
      FoldedIsRemainder(A.p, b);
    }
    if b == 1 {
      return Error.Ok, 0;
    }
    if b == 2 {
      ValParity(A.p);
      return Error.Ok, A.p[0] % 2;
    }
    var y := Remainder(A.p, b);
    if A.s < 0 && y != 0 {
      y := b - y;
    }
    return Error.Ok, y;
  }

  lemma SmallIsSafe(b: nat)
    requires 0 < b <= 2
    ensures Safe(b)
  {
    HalfIsLimb();
    hide Half;
  }

  /** The shifted remainder and the half limb do not overlap, so `|` adds them. */
  lemma OrRoom(y: nat, u: nat)
    requires u < Half()
    ensures 0 < BASE && y * Half() % BASE + u < BASE && y * Half() % BASE % Half() == 0
  {
    hide Half;
    BaseBound();
    var q := QuotRem(y, Half());
    Distr(Half(), q.0 * Half(), q.1);
    Assoc(q.0, Half(), Half());
    HalfBelow(q.1, Half(), u);
    DivModUnique(y * Half(), BASE, q.0, q.1 * Half());
    DivModUnique(q.1 * Half(), Half(), q.1, 0);
  }

  /** `y = ( y << biH ) | u; z = y / b; y -= z * b;` */
  method ShiftStep(y: nat, u: nat, b: nat) returns (r: nat)
    requires 0 < b && u < Half()
    ensures r == HalfStep(y, u, b) && r < b
  {
    hide Half;
    OrRoom(y, u);
    var t: limb := y * Half() % BASE + u;
    var z := t / b;
    r := t - z * b;
    DivModUnique(t, b, z, t % b);
  }

  /** The general case's loop. */
  method Remainder(p: seq<limb>, b: nat) returns (y: nat)
    requires 0 < b < BASE
    ensures y == Folded(p, b) && y < b
  {
    hide Half, HalfStep;
    var i: nat := |p|;
    y := 0;
    assert p[i..] == [];
    while i > 0
      invariant 0 <= i <= |p| && y == Folded(p[i..], b) && y < b
    {
      i := i - 1;
      assert p[i..][1..] == p[i + 1..];
      HalvesOf(p[i]);
      var x := p[i];
      y := ShiftStep(y, x / Half(), b);
      y := ShiftStep(y, x % Half(), b);
    }
    assert p[0..] == p;
  }

  lemma NegativeRemainder(m: nat, b: nat)
    requires b > 0
    ensures (0 - m) % b == if m % b == 0 then 0 else b - m % b
  {
    var q := QuotRem(m, b);
    var k: int, t: int := q.0, q.1;
    if t == 0 {
      DivModUnique(0 - m, b, 0 - k, 0);
    } else {
      Distr(b, 0 - k, 1);
      DivModUnique(0 - m, b, 0 - k - 1, b - t);
    }
  }
}
