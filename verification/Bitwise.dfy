/** The bitmap operations of a machine word, on naturals. */
module Bitwise {
  import opened Numbers

  predicate Bit(a: nat, i: nat)
  {
    if i == 0 then a % 2 == 1 else Bit(a / 2, i - 1)
  }

  function And(a: nat, b: nat): nat
    decreases a
  {
    if a == 0 then 0 else 2 * And(a / 2, b / 2) + (if a % 2 == 1 && b % 2 == 1 then 1 else 0)
  }

  function Or(a: nat, b: nat): nat
    decreases a + b
  {
    if a + b == 0 then 0 else 2 * Or(a / 2, b / 2) + (if a % 2 == 1 || b % 2 == 1 then 1 else 0)
  }

  /** Number of trailing zero bits. */
  function Ctz(a: nat): nat
    requires a > 0
  {
    if a % 2 == 1 then 0 else 1 + Ctz(a / 2)
  }

  lemma {:induction false} ZeroHasNoBits(i: nat)
    ensures !Bit(0, i)
  {
    if i > 0 {
      ZeroHasNoBits(i - 1);
    }
  }

  lemma {:induction false} SomeBit(a: nat)
    requires a > 0
    ensures Bit(a, Ctz(a))
    ensures forall j: nat :: j < Ctz(a) ==> !Bit(a, j)
  {
    if a % 2 == 0 {
      SomeBit(a / 2);
    }
  }

  lemma {:induction false} BitOr(a: nat, b: nat, i: nat)
    ensures Bit(Or(a, b), i) <==> Bit(a, i) || Bit(b, i)
    decreases a + b
  {
    if a + b == 0 {
      ZeroHasNoBits(i);
    } else if i > 0 {
      BitOr(a / 2, b / 2, i - 1);
    }
  }

  lemma {:induction false} OrBound(a: nat, b: nat, n: nat)
    requires a < Pow(2, n) && b < Pow(2, n)
    ensures Or(a, b) < Pow(2, n)
    decreases n
  {
    if a + b > 0 {
      PowTwice(n - 1);
      OrBound(a / 2, b / 2, n - 1);
    }
  }

  lemma {:induction false} BitOfPow(i: nat, j: nat)
    ensures Bit(Pow(2, i), j) <==> i == j
  {
    if i == 0 {
      if j > 0 {
        ZeroHasNoBits(j - 1);
      }
    } else {
      PowTwice(i - 1);
      if j > 0 {
        BitOfPow(i - 1, j - 1);
      }
    }
  }

  /** `a & (a - 1)` clears the lowest set bit and no other. */
  lemma {:induction false} ClearLowest(a: nat, j: nat)
    requires a > 0
    ensures Bit(And(a, a - 1), j) <==> Bit(a, j) && j != Ctz(a)
    decreases a
  {
    AndBelow(a);
    hide And;
    if a % 2 == 1 {
      assert (2 * (a / 2)) / 2 == a / 2;
    } else {
      assert (2 * And(a / 2, a / 2 - 1)) / 2 == And(a / 2, a / 2 - 1);
      if j > 0 {
        ClearLowest(a / 2, j - 1);
      }
    }
  }

  lemma AndBelow(a: nat)
    requires a > 0
    ensures And(a, a - 1) == if a % 2 == 1 then 2 * (a / 2) else 2 * And(a / 2, a / 2 - 1)
  {
    if a % 2 == 1 {
      AndSame(a / 2);
      assert (a - 1) / 2 == a / 2;
    } else {
      assert (a - 1) / 2 == a / 2 - 1;
    }
  }

  lemma {:induction false} AndSame(a: nat)
    ensures And(a, a) == a
  {
    if a > 0 {
      AndSame(a / 2);
    }
  }

  lemma {:induction false} AndBound(a: nat, b: nat)
    ensures And(a, b) <= a
    decreases a
  {
    if a > 0 {
      AndBound(a / 2, b / 2);
    }
  }

  /** A right shift moves bits down. */
  lemma {:induction false} ShiftedBit(x: nat, e: nat, i: nat)
    ensures 0 < Pow(2, e) && (Bit(x / Pow(2, e), i) <==> Bit(x, e + i))
  {
    PowPos(2, e);
    if e > 0 {
      PowPos(2, e - 1);
      PowTwice(e - 1);
      DivDiv(x, 2, Pow(2, e - 1));
      ShiftedBit(x / 2, e - 1, i);
    }
  }

  /** A mask of n ones keeps the n low bits and no other. */
  lemma {:induction false} MaskedBit(x: nat, n: nat, k: nat)
    ensures 0 < Pow(2, n) && (Bit(x % Pow(2, n), k) <==> k < n && Bit(x, k))
    decreases n
  {
    PowPos(2, n);
    if n == 0 {
      ZeroHasNoBits(k);
    } else {
      PowPos(2, n - 1);
      PowTwice(n - 1);
      HalvedMask(x, Pow(2, n - 1));
      if k > 0 {
        MaskedBit(x / 2, n - 1, k - 1);
      }
    }
  }

  lemma HalvedMask(x: nat, h: nat)
    requires h > 0
    ensures (x % (2 * h)) / 2 == (x / 2) % h && (x % (2 * h)) % 2 == x % 2
  {
    var q := QuotRem(x, 2 * h);
    Assoc(q.0, 2, h);
    assert x == 2 * (q.0 * h) + q.1;
    DivModUnique(x / 2, h, q.0, q.1 / 2);
  }
}
