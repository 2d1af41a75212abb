/** Integer facts the multi-precision routines rest on: powers, congruence and divisibility. */
module Numbers {

  // ---------------------------------------------------------------- products

  lemma MulMono(x: int, y: int, z: int)
    requires x <= y && 0 <= z
    ensures x * z <= y * z && z * x <= z * y
  {
  }

  lemma MulPos(x: int, y: int)
    ensures 0 <= x && 0 <= y ==> 0 <= x * y
    ensures 0 < x && 0 < y ==> 0 < x * y && x <= x * y && y <= x * y
  {
    if 0 < x && 0 < y {
      MulMono(1, x, y);
      MulMono(1, y, x);
    }
  }

  lemma Assoc(a: int, b: int, c: int)
    ensures a * (b * c) == (a * b) * c
  {
  }

  lemma Cross(a: int, b: int, c: int, d: int)
    ensures (a * b) * (c * d) == (a * c) * (b * d)
  {
    Assoc(a * b, c, d);
    assert (a * b) * c == (a * c) * b;
    Assoc(a * c, b, d);
  }

  lemma Distr(a: int, b: int, c: int)
    ensures a * (b + c) == a * b + a * c && (b + c) * a == b * a + c * a
    ensures a * (b - c) == a * b - a * c && (b - c) * a == b * a - c * a
  {
  }

  /** A quotient and remainder that satisfy the division identity are the ones `/` and `%` give. */
  lemma DivModUnique(a: int, d: int, q: int, r: int)
    requires 0 <= r < d
    requires a == q * d + r
    ensures a / d == q && a % d == r
  {
    var q', r' := a / d, a % d;
    assert a == q' * d + r';
    assert (q - q') * d == r' - r by {
      assert (q - q') * d == q * d - q' * d;
    }
    if q > q' {
      MulMono(1, q - q', d);
      assert false;
    } else if q < q' {
      MulMono(q - q', -1, d);
      assert false;
    }
  }

  /** Unsigned `/` and `%` at once. */
  function QuotRem(a: nat, d: nat): (r: (nat, nat))
    requires 0 < d
    ensures a == r.0 * d + r.1 && r.1 < d
    ensures r == (a / d, a % d)
  {
    (a / d, a % d)
  }

  /** Dividing twice is dividing by the product. */
  lemma DivDiv(m: nat, a: nat, b: nat)
    requires 0 < a && 0 < b
    ensures 0 < a * b
    ensures m / a / b == m / (a * b)
  {
    MulPos(a, b);
    var q, r := m / a, m % a;
    var q2, r2 := q / b, q % b;
    assert m == q * a + r && q == q2 * b + r2;
    Distr(a, q2 * b, r2);
    Assoc(q2, b, a);
    MulMono(r2 + 1, b, a);
    Distr(a, r2, 1);
    MulPos(r2, a);
    assert m == q2 * (a * b) + (r2 * a + r);
    DivModUnique(m, a * b, q2, r2 * a + r);
  }

  // ---------------------------------------------------------------- powers

  function Pow(b: nat, e: nat): nat
  {
    if e == 0 then 1 else b * Pow(b, e - 1)
  }

  lemma {:induction false} PowPos(b: nat, e: nat)
    requires 0 < b
    ensures 0 < Pow(b, e)
  {
    if e > 0 {
      PowPos(b, e - 1);
      MulPos(b, Pow(b, e - 1));
    }
  }

  lemma PowNext(b: nat, e: nat)
    ensures Pow(b, e + 1) == b * Pow(b, e)
  {
  }

  lemma {:induction false} PowAdd(b: nat, e: nat, f: nat)
    ensures Pow(b, e + f) == Pow(b, e) * Pow(b, f)
  {
    if e > 0 {
      PowAdd(b, e - 1, f);
      PowNext(b, e + f - 1);
      PowNext(b, e - 1);
      hide Pow;
      Assoc(b, Pow(b, e - 1), Pow(b, f));
    }
  }

  lemma {:induction false} PowMul(b: nat, e: nat, f: nat)
    ensures Pow(Pow(b, e), f) == Pow(b, e * f)
  {
    if f > 0 {
      PowMul(b, e, f - 1);
      PowAdd(b, e, e * (f - 1));
      assert e + e * (f - 1) == e * f;
    } else {
      assert e * f == 0;
    }
  }

  lemma {:induction false} PowMono(b: nat, e: nat, f: nat)
    requires 0 < b && e <= f
    ensures Pow(b, e) <= Pow(b, f)
  {
    PowAdd(b, e, f - e);
    PowPos(b, e);
    PowPos(b, f - e);
    MulPos(Pow(b, e), Pow(b, f - e));
  }

  lemma {:induction false} PowStrict(b: nat, e: nat, f: nat)
    requires 2 <= b && e < f
    ensures Pow(b, e) < Pow(b, f)
  {
    PowPos(b, e);
    MulMono(2, b, Pow(b, e));
    assert Pow(b, e + 1) == b * Pow(b, e);
    PowMono(b, e + 1, f);
  }

  lemma PowTwice(e: nat)
    ensures Pow(2, e + 1) == 2 * Pow(2, e)
  {
  }

  lemma PowOne(b: nat)
    ensures Pow(b, 0) == 1 && Pow(b, 1) == b
  {
    assert Pow(b, 1) == b * Pow(b, 0);
  }

  // ---------------------------------------------------------------- congruence

  /** `a` and `b` leave the same residue modulo `m`, with an explicit witness. */
  ghost predicate Cong(a: int, b: int, m: int)
  {
    exists k: int :: a == b + k * m
  }

  lemma CongWith(a: int, b: int, m: int, k: int)
    requires a == b + k * m
    ensures Cong(a, b, m)
  {
  }

  lemma CongRefl(a: int, m: int)
    ensures Cong(a, a, m)
  {
    CongWith(a, a, m, 0);
  }

  lemma CongSym(a: int, b: int, m: int)
    requires Cong(a, b, m)
    ensures Cong(b, a, m)
  {
    var k :| a == b + k * m;
    assert b == a + (-k) * m;
  }

  lemma CongTrans(a: int, b: int, c: int, m: int)
    requires Cong(a, b, m) && Cong(b, c, m)
    ensures Cong(a, c, m)
  {
    var k :| a == b + k * m;
    var l :| b == c + l * m;
    assert a == c + (k + l) * m;
  }

  lemma CongAdd(a: int, b: int, c: int, d: int, m: int)
    requires Cong(a, b, m) && Cong(c, d, m)
    ensures Cong(a + c, b + d, m) && Cong(a - c, b - d, m)
  {
    var k :| a == b + k * m;
    var l :| c == d + l * m;
    assert a + c == b + d + (k + l) * m;
    assert a - c == b - d + (k - l) * m;
  }

  lemma CongMul(a: int, b: int, c: int, d: int, m: int)
    requires Cong(a, b, m) && Cong(c, d, m)
    ensures Cong(a * c, b * d, m)
  {
    var k :| a == b + k * m;
    var l :| c == d + l * m;
    Distr(c, b, k * m);
    Distr(b, d, l * m);
    Assoc(b, l, m);
    Assoc(c, k, m);
    Distr(m, c * k, b * l);
    CongWith(a * c, b * d, m, c * k + b * l);
  }

  lemma {:induction false} CongPow(a: nat, b: nat, e: nat, m: int)
    requires Cong(a, b, m)
    ensures Cong(Pow(a, e), Pow(b, e), m)
  {
    if e == 0 {
      CongRefl(1, m);
    } else {
      CongPow(a, b, e - 1, m);
      CongMul(a, b, Pow(a, e - 1), Pow(b, e - 1), m);
    }
  }

  /** Residues in [0, m) are equal as soon as they are congruent. */
  lemma CongUnique(a: int, b: int, m: int)
    requires Cong(a, b, m)
    requires 0 <= a < m && 0 <= b < m
    ensures a == b
  {
    var k :| a == b + k * m;
    if k >= 1 {
      MulMono(1, k, m);
    } else if k <= -1 {
      MulMono(k, -1, m);
    }
  }

  lemma CongMod(a: int, m: int)
    requires 0 < m
    ensures Cong(a % m, a, m) && Cong(a, a % m, m)
  {
    assert a % m == a + (-(a / m)) * m by {
      assert a == (a / m) * m + a % m;
    }
    CongWith(a % m, a, m, -(a / m));
    CongSym(a % m, a, m);
  }

  /** Being congruent is the same as leaving equal Euclidean remainders. */
  lemma CongIffMod(a: int, b: int, m: int)
    requires 0 < m
    ensures Cong(a, b, m) <==> a % m == b % m
  {
    CongMod(a, m);
    CongMod(b, m);
    if Cong(a, b, m) {
      CongTrans(a % m, a, b, m);
      CongTrans(a % m, b, b % m, m);
      CongUnique(a % m, b % m, m);
    }
    if a % m == b % m {
      CongTrans(a, a % m, b, m);
    }
  }

  lemma ModIs(a: int, b: int, m: int)
    requires 0 <= a < m && Cong(a, b, m)
    ensures a == b % m
  {
    CongMod(b, m);
    CongTrans(a, b, b % m, m);
    CongUnique(a, b % m, m);
  }

  // ---------------------------------------------------------------- divisibility

  ghost predicate Divides(d: int, a: int)
  {
    exists k: int :: a == d * k
  }

  lemma DividesWith(d: int, a: int, k: int)
    requires a == d * k
    ensures Divides(d, a)
  {
  }

  lemma DividesLinear(d: int, a: int, b: int, x: int, y: int)
    requires Divides(d, a) && Divides(d, b)
    ensures Divides(d, x * a + y * b)
  {
    var k :| a == d * k;
    var l :| b == d * l;
    assert x * a == d * (x * k);
    assert y * b == d * (y * l);
    assert x * a + y * b == d * (x * k + y * l);
  }

  lemma DividesTrans(d: int, a: int, b: int)
    requires Divides(d, a) && Divides(a, b)
    ensures Divides(d, b)
  {
    var k :| a == d * k;
    var l :| b == a * l;
    assert b == d * (k * l);
  }

  lemma DividesAntisym(a: nat, b: nat)
    requires Divides(a, b) && Divides(b, a)
    ensures a == b
  {
    var k :| b == a * k;
    var l :| a == b * l;
    if a == 0 || b == 0 {
      return;
    }
    if k <= 0 {
      MulMono(k, 0, a);
    } else if l <= 0 {
      MulMono(l, 0, b);
    } else {
      MulMono(1, k, a);
      MulMono(1, l, b);
    }
  }

  // ---------------------------------------------------------------- greatest common divisor

  /** Euclid's definition, the reference the binary algorithm is compared with. */
  function Gcd(a: nat, b: nat): nat
    decreases b
  {
    if b == 0 then a else Gcd(b, a % b)
  }

  ghost predicate Bezout(a: int, b: int, g: int)
  {
    exists x: int, y: int :: Combination(x, a, y, b, g)
  }

  ghost predicate Combination(x: int, a: int, y: int, b: int, g: int)
  {
    x * a + y * b == g
  }

  /** Gcd divides both arguments and is an integer combination of them, hence the greatest. */
  lemma {:induction false} GcdFacts(a: nat, b: nat)
    ensures Divides(Gcd(a, b), a) && Divides(Gcd(a, b), b)
    ensures Bezout(a, b, Gcd(a, b))
    decreases b
  {
    if b == 0 {
      DividesWith(a, a, 1);
      DividesWith(a, 0, 0);
      assert Combination(1, a, 0, b, a);
    } else {
      var g := Gcd(b, a % b);
      GcdFacts(b, a % b);
      var q := a / b;
      assert a == q * b + 1 * (a % b);
      DividesLinear(g, b, a % b, q, 1);
      var x, y :| Combination(x, b, y, a % b, g);
      CombinationBack(a, b, q, a % b, x, y, g);
    }
  }

  lemma CombinationBack(a: int, b: int, q: int, r: int, x: int, y: int, g: int)
    requires a == q * b + r && Combination(x, b, y, r, g)
    ensures Combination(y, a, x - y * q, b, g)
  {
    Distr(y, q * b, r);
    Distr(b, x, y * q);
    Assoc(y, q, b);
  }

  lemma GcdGreatest(a: nat, b: nat, d: int)
    requires Divides(d, a) && Divides(d, b)
    ensures Divides(d, Gcd(a, b))
  {
    GcdFacts(a, b);
    var x, y :| Combination(x, a, y, b, Gcd(a, b));
    DividesLinear(d, a, b, x, y);
  }

  /** The two defining properties pin the value down. */
  lemma GcdUnique(a: nat, b: nat, g: nat)
    requires Divides(g, a) && Divides(g, b)
    requires forall d: nat :: Divides(d, a) && Divides(d, b) ==> Divides(d, g)
    ensures g == Gcd(a, b)
  {
    GcdFacts(a, b);
    GcdGreatest(a, b, g);
    DividesAntisym(g, Gcd(a, b));
  }
}
