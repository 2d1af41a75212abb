/** mbedtls_int_div_int: two limbs divided by one, with and without a double-width type. */
module WordDiv {
  import opened Numbers
  import opened Limbs
  import opened MpiBits

  /** What both builds promise: saturation on overflow, the exact floor division otherwise. */
  ghost predicate IsWordDiv(u1: limb, u0: limb, d: limb, q: limb, r: limb)
  {
    if d == 0 || u1 >= d then q == BASE - 1 && r == BASE - 1
    else u1 * BASE + u0 == q * d + r && r < d
  }

  lemma WordQuotientFits(u1: nat, u0: nat, d: nat, q: nat, r: nat, b: nat)
    requires u1 < d && u0 < b && u1 * b + u0 == q * d + r
    ensures q < b
  {
    MulMono(u1 + 1, d, b);
    Distr(b, u1, 1);
    if q >= b {
      MulMono(b, q, d);
    }
  }

  /** The build with a double-width type. */
  method IntDivIntWide(u1: limb, u0: limb, d: limb) returns (quotient: limb, r: limb)
    ensures IsWordDiv(u1, u0, d, quotient, r)
  {
    BaseBound();
    if d == 0 || u1 >= d {
      return BASE - 1, BASE - 1;
    }
    var dividend := u1 * BASE + u0;
    MulPos(u1, BASE);
    var q := dividend / d;
    WordQuotientFits(u1, u0, d, q, dividend % d, BASE);
    if q > BASE - 1 {
      q := BASE - 1;
    }
    quotient, r := q, dividend - q * d;
  }

  /** d = d1 * h + d0 normalised: d1 is at least half of h. */
  ghost predicate Normalised(d: nat, d1: nat, d0: nat, h: nat)
  {
    d == d1 * h + d0 && d0 < h && d1 < h && h <= 2 * d1
  }

  /** No feasible digit exceeds q. */
  ghost predicate CoversDigit(q: nat, u: nat, um: nat, d: nat, h: nat)
  {
    forall t: nat :: t * d <= u * h + um ==> t <= q
  }

  /** The first estimate overshoots by at most two and never undershoots. */
  lemma EstimateStart(q: nat, r: nat, u: nat, um: nat, d: nat, d1: nat, d0: nat, h: nat)
    requires Normalised(d, d1, d0, h) && u < d && um < h
    requires u == q * d1 + r && r < d1
    ensures q <= h + 1
    ensures CoversDigit(q, u, um, d, h) && CoversDigit(h - 1, u, um, d, h)
  {
    if q >= h + 2 {
      MulMono(h + 2, q, d1);
      Distr(d1, h, 2);
    }
    MulMono(u + 1, d, h);
    Distr(h, u, 1);
    forall t: nat | t * d <= u * h + um ensures t <= q && t <= h - 1 {
      if t >= h {
        MulMono(h, t, d);
      }
      if t > q {
        EstimateCovers(t, q, r, u, um, d, d1, d0, h);
      }
    }
  }

  lemma EstimateCovers(t: nat, q: nat, r: nat, u: nat, um: nat, d: nat, d1: nat, d0: nat, h: nat)
    requires d == d1 * h + d0 && um < h && u == q * d1 + r && r < d1 && t > q
    ensures t * d > u * h + um
  {
    Distr(t, d1 * h, d0);
    Assoc(t, d1, h);
    MulPos(t, d0);
    MulMono(q + 1, t, d1);
    Distr(d1, q, 1);
    MulMono(u + 1, t * d1, h);
    Distr(h, u, 1);
  }

  /** While the test fires the estimate is still above every feasible digit. */
  lemma EstimateHigh(q: nat, r0: nat, u: nat, um: nat, d: nat, d1: nat, d0: nat, h: nat)
    requires Normalised(d, d1, d0, h) && q * d1 + r0 == u && q * d0 > h * r0 + um
    ensures q > 0 && CoversDigit(q - 1, u, um, d, h)
  {
    Distr(q, d1 * h, d0);
    Assoc(q, d1, h);
    Distr(h, q * d1, r0);
    assert q * d > u * h + um;
    forall t: nat | t * d <= u * h + um ensures t <= q - 1 {
      if t >= q {
        MulMono(q, t, d);
      }
    }
  }

  /** When the test stops firing, or the partial remainder outgrows a half word, the digit is feasible. */
  lemma EstimateLow(q: nat, r0: nat, u: nat, um: nat, d: nat, d1: nat, d0: nat, h: nat)
    requires Normalised(d, d1, d0, h) && q * d1 + r0 == u
    requires q * d0 <= h * r0 + um || (q <= h && r0 >= h)
    ensures q * d <= u * h + um
  {
    if q <= h && r0 >= h {
      MulMono(q, h, d0);
      MulMono(d0, r0, h);
    }
    Distr(q, d1 * h, d0);
    Assoc(q, d1, h);
    Distr(h, q * d1, r0);
  }

  lemma SmallMod(x: nat, b: nat)
    requires x < b
    ensures x % b == x
  {
    DivModUnique(x, b, 0, x);
  }

  /** One half-word quotient digit of u * h + um by a normalised d, with its remainder. The source
      writes this out twice. Its remainder is a wrapping difference, reduced here modulo b = 2^biL. */
  method HalfDigit(u: nat, um: nat, d: nat, d1: nat, d0: nat, h: nat, b: nat) returns (q: nat, rest: nat)
    requires Normalised(d, d1, d0, h) && u < d && um < h && 0 < d1 && d < b
    ensures u * h + um == q * d + rest && rest < d && q < h
  {
    hide CoversDigit, QuotRem;
    var start := QuotRem(u, d1);
    q := start.0;
    var r0 := start.1;
    EstimateStart(q, r0, u, um, d, d1, d0, h);
    while q >= h || q * d0 > h * r0 + um
      invariant 0 <= r0 && q * d1 + r0 == u && q <= h + 1
      invariant CoversDigit(q, u, um, d, h)
      decreases q
    {
      if q < h {
        EstimateHigh(q, r0, u, um, d, d1, d0, h);
      } else {
        CoversMono(h - 1, q - 1, u, um, d, h);
      }
      Distr(d1, q, 1);
      q := q - 1;
      r0 := r0 + d1;
      if r0 >= h {
        break;
      }
    }
    EstimateLow(q, r0, u, um, d, d1, d0, h);
    DigitExact(q, u, um, d, h);
    CoversBound(q, h - 1, u, um, d, h);
    SmallMod(u * h + um - q * d, b);
    rest := (u * h + um - q * d) % b;
  }

  lemma CoversMono(q: nat, q': nat, u: nat, um: nat, d: nat, h: nat)
    requires CoversDigit(q, u, um, d, h) && q <= q'
    ensures CoversDigit(q', u, um, d, h)
  {
  }

  lemma CoversBound(t: nat, q: nat, u: nat, um: nat, d: nat, h: nat)
    requires CoversDigit(q, u, um, d, h) && t * d <= u * h + um
    ensures t <= q
  {
  }

  lemma DigitExact(q: nat, u: nat, um: nat, d: nat, h: nat)
    requires CoversDigit(q, u, um, d, h)
    ensures u * h + um - q * d < d
  {
    Distr(d, q, 1);
    assert (q + 1) * d > u * h + um;
  }

  /** Scaling dividend and divisor by 2^s leaves the quotient and scales the remainder. */
  lemma Unscale(n: nat, d: nat, s: nat, q: nat, rest: nat, r: nat, r0: nat)
    requires 0 < s && n * s == q * (d * s) + rest && rest < d * s
    requires rest == r * s + r0 && r0 < s
    ensures n == q * d + r && r < d
  {
    Assoc(q, d, s);
    Distr(s, n, q * d);
    Distr(s, n - q * d, r);
    var e := n - q * d - r;
    assert e * s == r0;
    if e < 0 {
      MulMono(e, -1, s);
    } else if e > 0 {
      MulMono(1, e, s);
    }
    if r >= d {
      MulMono(d, r, s);
    }
  }

  /** The half words of a normalised limb. */
  lemma NormaliseParts(d: nat, d1: nat, d0: nat, h: nat, b: nat)
    requires d == d1 * h + d0 && d0 < h && h * h == b && b <= 2 * d && d < b && h % 2 == 0
    ensures Normalised(d, d1, d0, h) && 0 < d1
  {
    HalfOf(d, d1, d0, h, b);
    TopHalfLarge(d, h, d1, d0);
  }

  lemma TopHalfLarge(d: nat, h: nat, d1: nat, d0: nat)
    requires d == d1 * h + d0 && d0 < h && h * h <= 2 * d && h % 2 == 0
    ensures h <= 2 * d1
  {
    if 2 * d1 < h {
      MulMono(2 * d1 + 2, h, h);
      Distr(h, 2 * d1, 2);
      Assoc(2, d1, h);
    }
  }

  /** Two half-word digits make the quotient of the normalised words. */
  lemma TwoDigits(u1: nat, u0: nat, um: nat, ul: nat, d: nat, h: nat, b: nat, q1: nat, m: nat, q0: nat, rest: nat)
    requires h * h == b && u0 == um * h + ul
    requires u1 * h + um == q1 * d + m
    requires m * h + ul == q0 * d + rest
    ensures u1 * b + u0 == (q1 * h + q0) * d + rest
  {
    Assoc(u1, h, h);
    Distr(h, u1 * h, um);
    Distr(h, q1 * d, m);
    Distr(d, q1 * h, q0);
    assert (q1 * d) * h == (q1 * h) * d;
  }

  lemma HalfOf(u: nat, u1: nat, u0: nat, h: nat, b: nat)
    requires h * h == b && u == u1 * h + u0 && u < b
    ensures u1 < h
  {
    if u1 >= h {
      MulMono(h, u1, h);
    }
  }

  /** Algorithm D proper, on a divisor d1 * h + d0 that is already normalised. */
  method NormalisedDiv(u1: nat, u0: nat, d: nat, d1: nat, d0: nat, h: nat, b: nat) returns (q: nat, rest: nat)
    requires 0 < h && h * h == b
    requires Normalised(d, d1, d0, h) && 0 < d1
    requires u1 < d && u0 < b && d < b
    ensures u1 * b + u0 == q * d + rest && rest < d
  {
    hide QuotRem, Normalised;
    var u := QuotRem(u0, h);
    HalfOf(u0, u.0, u.1, h, b);
    var q1, rAX := HalfDigit(u1, u.0, d, d1, d0, h, b);
    var q0, r := HalfDigit(rAX, u.1, d, d1, d0, h, b);
    TwoDigits(u1, u0, u.0, u.1, d, h, b, q1, rAX, q0, r);
    MulPos(q1, h);
    q, rest := q1 * h + q0, r;
  }

  /** The three words of the dividend shifted left by s bits, as quotient and remainder of one limb. */
  lemma ShiftDividend(u1: nat, u0: nat, d: nat, s: nat, c: nat, b: nat, hi: nat, lo: nat)
    requires s * c == b && u0 == hi * c + lo && lo < c && u0 < b && u1 < d && 0 < s
    ensures hi < s && u1 * s + hi < d * s && lo * s < b
    ensures (u1 * s + hi) * b + lo * s == (u1 * b + u0) * s
  {
    if hi >= s {
      MulMono(s, hi, c);
    }
    MulMono(u1 + 1, d, s);
    Distr(s, u1, 1);
    MulMono(lo + 1, c, s);
    Distr(s, lo, 1);
    ShiftedTotal(u1, u0, s, c, b, hi, lo);
  }

  lemma ShiftedTotal(u1: nat, u0: nat, s: nat, c: nat, b: nat, hi: nat, lo: nat)
    requires s * c == b && u0 == hi * c + lo
    ensures (u1 * s + hi) * b + lo * s == (u1 * b + u0) * s
  {
    Distr(b, u1 * s, hi);
    Distr(s, u1 * b, u0);
    Distr(s, hi * c, lo);
    Assoc(hi, c, s);
    Assoc(u1, s, b);
    Assoc(u1, b, s);
  }

  /** Divisor and dividend shifted left by the leading zeros of the divisor. The low word keeps
      ( u0 << s ) modulo 2^biL, which is its part below 2^(biL - s) scaled. */
  method Normalise(u1: limb, u0: limb, d: limb) returns (un1: nat, un0: nat, dn: nat, S: nat)
    requires u1 < d
    ensures 0 < S && dn == d * S && dn < BASE <= 2 * dn
    ensures un1 < dn && un0 < BASE && un1 * BASE + un0 == (u1 * BASE + u0) * S
  {
    hide Pow, QuotRem;
    var s := Clz(d);
    S := Pow(2, s);
    ScaleFacts(d, s);
    var parts := QuotRem(u0, Pow(2, BIL - s));
    ShiftDividend(u1, u0, d, S, Pow(2, BIL - s), BASE, parts.0, parts.1);
    MulPos(u1, S);
    MulPos(parts.1, S);
    MulPos(d, S);
    un1, un0, dn := u1 * S + parts.0, parts.1 * S, d * S;
  }

  /** The build without one: normalise the divisor, divide in half words, undo the scaling. */
  method IntDivIntHalves(u1: limb, u0: limb, d: limb) returns (quotient: limb, r: limb)
    ensures IsWordDiv(u1, u0, d, quotient, r)
  {
    hide Pow, QuotRem, Normalised;
    BaseBound();
    if d == 0 || u1 >= d {
      return BASE - 1, BASE - 1;
    }
    var un1, un0, dn, S := Normalise(u1, u0, d);
    var h := Pow(2, BIL / 2);
    HalfWord();
    var parts := QuotRem(dn, h);
    NormaliseParts(dn, parts.0, parts.1, h, BASE);
    var q, rest := NormalisedDiv(un1, un0, dn, parts.0, parts.1, h, BASE);
    MulPos(u1, BASE);
    var back := QuotRem(rest, S);
    Unscale(u1 * BASE + u0, d, S, q, rest, back.0, back.1);
    WordQuotientFits(u1, u0, d, q, back.0, BASE);
    quotient, r := q, back.0;
  }

  lemma HalfWord()
    ensures Pow(2, BIL / 2) * Pow(2, BIL / 2) == BASE
    ensures 0 < Pow(2, BIL / 2) && Pow(2, BIL / 2) % 2 == 0
  {
    hide Pow;
    BaseSquare();
    PowPos(2, BIL / 2);
    PowTwice(BIL / 2 - 1);
    assert BIL / 2 - 1 + 1 == BIL / 2;
    DoubledIsEven(Pow(2, BIL / 2 - 1));
  }

  lemma DoubledIsEven(x: nat)
    ensures (2 * x) % 2 == 0
  {
  }

  /** Shifting d by its leading zeros normalises it and keeps it in a limb. */
  lemma ScaleFacts(d: limb, s: nat)
    requires 0 < d && s < BIL
    requires d < Pow(2, BIL - s) && Pow(2, BIL - s - 1) <= d
    ensures 0 < Pow(2, s) && 0 < Pow(2, BIL - s) && Pow(2, s) * Pow(2, BIL - s) == BASE
    ensures d * Pow(2, s) < BASE <= 2 * (d * Pow(2, s))
  {
    PowPos(2, s);
    PowPos(2, BIL - s);
    PowAdd(2, s, BIL - s);
    PowTwice(BIL - s - 1);
    ScaleAlgebra(d, Pow(2, s), Pow(2, BIL - s), Pow(2, BIL - s - 1), BASE);
  }

  lemma ScaleAlgebra(d: nat, s: nat, c: nat, half: nat, b: nat)
    requires 0 < s && s * c == b && c == 2 * half && half <= d < c
    ensures d * s < b <= 2 * (d * s)
  {
    MulMono(d + 1, c, s);
    Distr(s, d, 1);
    MulMono(half, d, s);
    Assoc(2, half, s);
  }
}
