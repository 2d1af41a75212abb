/** ECDSA signing and verification over any group of prime order with an x-coordinate. */
module Ecdsa {
  import opened Numbers
  import opened Limbs
  import opened MpiCore
  import opened MpiBits
  import opened MpiArith
  import opened MpiDivision
  import opened MpiGcd
  import opened MpiExpMod
  import opened MpiBytes
  import Dhm

  // ---------------------------------------------------------------- the group

  /** What the elliptic-curve layer provides: a group law, a base point, its order, affine x. */
  datatype Curve<!P(==)> = Curve(zero: P, G: P, add: (P, P) -> P, xcoord: P -> nat, n: nat)

  /** Scalar multiplication, as repeated addition. */
  function Times<P(==)>(c: Curve<P>, k: nat, p: P): P
  {
    if k == 0 then c.zero else c.add(p, Times(c, k - 1, p))
  }

  ghost predicate IsPrime(n: nat)
  {
    n > 1 && forall d: nat :: 1 < d < n ==> !Divides(d, n)
  }

  ghost predicate Associative<P(!new)>(c: Curve<P>)
  {
    forall x, y, z :: c.add(c.add(x, y), z) == c.add(x, c.add(y, z))
  }

  ghost predicate Identity<P(!new)>(c: Curve<P>)
  {
    forall x :: c.add(c.zero, x) == x && c.add(x, c.zero) == x
  }

  /** G generates a subgroup of prime order n. */
  ghost predicate IsGroup<P(!new)>(c: Curve<P>)
  {
    && Associative(c) && Identity(c) && IsPrime(c.n)
    && Times(c, c.n, c.G) == c.zero
    && forall k: nat :: 0 < k < c.n ==> Times(c, k, c.G) != c.zero
  }

  lemma {:induction false} TimesAdd<P(!new)>(c: Curve<P>, a: nat, b: nat, p: P)
    requires Associative(c) && Identity(c)
    ensures c.add(Times(c, a, p), Times(c, b, p)) == Times(c, a + b, p)
  {
    if a > 0 {
      TimesAdd(c, a - 1, b, p);
      Associate(c, p, Times(c, a - 1, p), Times(c, b, p));
      hide Associative;
    }
  }

  lemma Associate<P(!new)>(c: Curve<P>, x: P, y: P, z: P)
    requires Associative(c)
    ensures c.add(c.add(x, y), z) == c.add(x, c.add(y, z))
  {
  }

  lemma {:induction false} TimesTimes<P(!new)>(c: Curve<P>, a: nat, b: nat, p: P)
    requires Associative(c) && Identity(c)
    ensures 0 <= a * b && Times(c, a, Times(c, b, p)) == Times(c, a * b, p)
  {
    hide *;
    MulPos(a, b);
    TimesStep(c, a, Times(c, b, p));
    if a > 0 {
      TimesTimes(c, a - 1, b, p);
      Distr(b, a, 1);
      MulPos(a - 1, b);
      TimesAdd(c, b, (a - 1) * b, p);
    } else {
      TimesStep(c, 0, p);
    }
  }

  lemma TimesStep<P(!new)>(c: Curve<P>, k: nat, p: P)
    ensures Times(c, k, p) == if k == 0 then c.zero else c.add(p, Times(c, k - 1, p))
  {
  }

  lemma {:induction false} TimesZero<P(!new)>(c: Curve<P>, a: nat)
    requires Associative(c) && Identity(c)
    ensures Times(c, a, c.zero) == c.zero
  {
    if a > 0 {
      TimesZero(c, a - 1);
    }
  }

  /** Scalars matter only modulo the order. */
  lemma TimesMod<P(!new)>(c: Curve<P>, a: nat)
    requires IsGroup(c)
    ensures Times(c, a, c.G) == Times(c, a % c.n, c.G)
  {
    hide Times;
    var q := QuotRem(a, c.n);
    MulPos(q.0, c.n);
    TimesTimes(c, q.0, c.n, c.G);
    TimesZero(c, q.0);
    TimesAdd(c, q.0 * c.n, q.1, c.G);
  }

  // ---------------------------------------------------------------- inverses modulo a prime

  lemma PrimeCoprime(a: nat, n: nat)
    requires IsPrime(n) && 0 < a < n
    ensures Gcd(a, n) == 1
  {
    hide Gcd;
    var g := Gcd(a, n);
    GcdFacts(a, n);
    DividesBound(g, a);
  }

  lemma DividesBound(g: nat, a: nat)
    requires a > 0 && Divides(g, a)
    ensures 0 < g <= a
  {
    var k: int :| a == g * k;
    if k <= 0 {
      MulMono(k, 0, g);
    } else {
      MulMono(1, k, g);
    }
  }

  lemma InverseExists(a: nat, n: nat) returns (inv: int)
    requires Gcd(a, n) == 1
    ensures Cong(a * inv, 1, n)
  {
    hide Gcd;
    GcdFacts(a, n);
    var x, y :| Combination(x, a, y, n, 1);
    inv := x;
    CongWith(a * x, 1, n, -y);
  }

  lemma ProductCoprime(a: nat, b: nat, n: nat)
    requires n > 0 && Gcd(a, n) == 1 && Gcd(b, n) == 1
    ensures 0 <= a * b && Gcd(a * b, n) == 1
  {
    hide Gcd, Cong;
    MulPos(a, b);
    var x := InverseExists(a, n);
    var y := InverseExists(b, n);
    CongMul(a * x, 1, b * y, 1, n);
    Cross(a, x, b, y);
    Dhm.UnitIsCoprime(a * b, x * y, n);
  }

  lemma InverseUnique(s: int, w: int, v: int, n: int)
    requires n > 0 && Cong(s * w, 1, n) && Cong(s * v, 1, n) && 0 <= w < n && 0 <= v < n
    ensures w == v
  {
    hide Cong;
    CongRefl(w, n);
    CongRefl(v, n);
    CongMul(s * v, 1, w, w, n);
    CongMul(s * w, 1, v, v, n);
    assert (s * v) * w == (s * w) * v;
    CongSym((s * v) * w, 1 * w, n);
    CongTrans(w, (s * v) * w, v, n);
    CongUnique(w, v, n);
  }

  // ---------------------------------------------------------------- signatures

  /** What signing establishes (section 4.1.3 of SEC 1): some k gives r = x(kG) and s k = z + r d mod n. */
  ghost predicate IsSignature<P>(c: Curve<P>, d: int, z: int, r: int, s: int)
    requires c.n > 0
  {
    && 1 <= r < c.n && 1 <= s < c.n
    && exists k: nat :: 0 < k < c.n && SignedWith(c, d, z, r, s, k)
  }

  ghost predicate SignedWith<P>(c: Curve<P>, d: int, z: int, r: int, s: int, k: nat)
    requires c.n > 0
  {
    r == c.xcoord(Times(c, k, c.G)) % c.n && Cong(s * k, z + r * d, c.n)
  }

  /** What verification checks (section 4.1.4 of SEC 1), given the inverse w of s. */
  ghost predicate Passes<P>(c: Curve<P>, q: P, z: nat, r: nat, w: nat)
    requires c.n > 0
  {
    MulPos(z, w);
    MulPos(r, w);
    var R := c.add(Times(c, (z * w) % c.n, c.G), Times(c, (r * w) % c.n, q));
    R != c.zero && c.xcoord(R) % c.n == r
  }

  ghost predicate Accepts<P>(c: Curve<P>, q: P, z: nat, r: int, s: int)
    requires c.n > 0
  {
    && 1 <= r < c.n && 1 <= s < c.n
    && exists w: nat :: w < c.n && Cong(s * w, 1, c.n) && Passes(c, q, z, r, w)
  }

  /** u1 + u2 d is k again, because s w = 1 and s k = z + r d. */
  lemma RecoverK(u1: int, u2: int, z: int, r: int, d: int, s: int, k: int, w: int, n: int)
    requires Cong(s * w, 1, n) && Cong(s * k, z + r * d, n)
    requires Cong(u1, z * w, n) && Cong(u2, r * w, n)
    ensures Cong(u1 + u2 * d, k, n)
  {
    hide Cong;
    CongRefl(d, n);
    CongMul(u2, r * w, d, d, n);
    CongAdd(u1, z * w, u2 * d, (r * w) * d, n);
    Regroup(z, r, d, w);
    CongRefl(w, n);
    CongMul(s * k, z + r * d, w, w, n);
    CongSym((s * k) * w, (z + r * d) * w, n);
    CongTrans(u1 + u2 * d, (z + r * d) * w, (s * k) * w, n);
    CongRefl(k, n);
    CongMul(s * w, 1, k, k, n);
    assert (s * k) * w == (s * w) * k;
    CongTrans(u1 + u2 * d, (s * w) * k, k, n);
  }

  lemma Regroup(z: int, r: int, d: int, w: int)
    ensures z * w + (r * w) * d == (z + r * d) * w
  {
    Distr(w, z, r * d);
    assert (r * w) * d == (r * d) * w;
  }

  /** The inverse verification works with. */
  lemma InverseBelow(s: nat, n: nat) returns (w: nat)
    requires IsPrime(n) && 0 < s < n
    ensures w < n && Cong(s * w, 1, n)
  {
    hide Gcd, Cong;
    PrimeCoprime(s, n);
    var x := InverseExists(s, n);
    w := x % n;
    CongMod(x, n);
    CongRefl(s, n);
    CongMul(s, s, w, x, n);
    CongTrans(s * w, s * x, 1, n);
  }

  /** The two scalars of verification and what they are congruent to. */
  lemma Scalars(z: nat, r: nat, w: nat, n: nat) returns (u1: nat, u2: nat)
    requires n > 0
    ensures 0 <= z * w && 0 <= r * w && u1 == (z * w) % n && u2 == (r * w) % n
    ensures Cong(u1, z * w, n) && Cong(u2, r * w, n)
  {
    MulPos(z, w);
    MulPos(r, w);
    CongMod(z * w, n);
    CongMod(r * w, n);
    u1, u2 := (z * w) % n, (r * w) % n;
  }

  /** u1 G + u2 (dG) is kG as soon as u1 + u2 d = k mod n. */
  lemma SamePoint<P(!new)>(c: Curve<P>, d: nat, u1: nat, u2: nat, k: nat)
    requires IsGroup(c) && k < c.n && Cong(u1 + u2 * d, k, c.n)
    ensures c.add(Times(c, u1, c.G), Times(c, u2, Times(c, d, c.G))) == Times(c, k, c.G)
  {
    hide Times, Cong, IsPrime, Associative, Identity;
    MulPos(u2, d);
    TimesTimes(c, u2, d, c.G);
    TimesAdd(c, u1, u2 * d, c.G);
    TimesMod(c, u1 + u2 * d);
    CongSym(u1 + u2 * d, k, c.n);
    ModIs(k, u1 + u2 * d, c.n);
  }

  /** The other way round: what verification recovers satisfies the signing equation. */
  lemma EquationBack(u1: int, u2: int, z: int, r: int, d: int, s: int, k: int, w: int, n: int)
    requires Cong(s * w, 1, n) && Cong(u1, z * w, n) && Cong(u2, r * w, n) && Cong(k, u1 + u2 * d, n)
    ensures Cong(s * k, z + r * d, n)
  {
    hide Cong;
    var m := z + r * d;
    CongRefl(d, n);
    CongMul(u2, r * w, d, d, n);
    CongAdd(u1, z * w, u2 * d, (r * w) * d, n);
    Regroup(z, r, d, w);
    CongTrans(k, u1 + u2 * d, m * w, n);
    CongRefl(s, n);
    CongMul(s, s, k, m * w, n);
    Reassociate(s, m, w);
    CongRefl(m, n);
    CongMul(m, m, s * w, 1, n);
    CongTrans(s * k, m * (s * w), m, n);
  }

  lemma Reassociate(s: int, m: int, w: int)
    ensures s * (m * w) == m * (s * w)
  {
    Assoc(s, m, w);
    Assoc(m, s, w);
  }

  /** Verification with Q = dG accepts nothing but signatures. */
  lemma AcceptedIsSignature<P(!new)>(c: Curve<P>, d: nat, z: nat, r: int, s: int)
    requires IsGroup(c) && Accepts(c, Times(c, d, c.G), z, r, s)
    ensures IsSignature(c, d, z, r, s)
  {
    hide Times, Cong, Associative, Identity;
    var w: nat :| w < c.n && Cong(s * w, 1, c.n) && Passes(c, Times(c, d, c.G), z, r, w);
    var u1, u2 := Scalars(z, r, w, c.n);
    MulPos(u2, d);
    var k := (u1 + u2 * d) % c.n;
    CongMod(u1 + u2 * d, c.n);
    SamePoint(c, d, u1, u2, k);
    NoTimes(c);
    EquationBack(u1, u2, z, r, d, s, k, w, c.n);
    assert SignedWith(c, d, z, r, s, k);
  }

  lemma NoTimes<P>(c: Curve<P>)
    ensures Times(c, 0, c.G) == c.zero
  {
  }

  /** Verification with Q = dG accepts exactly the signatures made with d for the same hash. */
  lemma AcceptsExactlySignatures<P(!new)>(c: Curve<P>, d: nat, z: nat, r: int, s: int)
    requires IsGroup(c)
    ensures Accepts(c, Times(c, d, c.G), z, r, s) <==> IsSignature(c, d, z, r, s)
  {
    hide Accepts, IsSignature, Associative, Identity, Times;
    if Accepts(c, Times(c, d, c.G), z, r, s) {
      AcceptedIsSignature(c, d, z, r, s);
    }
    if IsSignature(c, d, z, r, s) {
      SignatureVerifies(c, d, z, r, s);
    }
  }

  /** Whatever signing produces, verification with Q = dG and the same hash accepts. */
  lemma SignatureVerifies<P(!new)>(c: Curve<P>, d: nat, z: nat, r: int, s: int)
    requires IsGroup(c) && IsSignature(c, d, z, r, s)
    ensures Accepts(c, Times(c, d, c.G), z, r, s)
  {
    hide Times, Cong, Associative, Identity;
    var k: nat :| 0 < k < c.n && SignedWith(c, d, z, r, s, k);
    var w := InverseBelow(s, c.n);
    var u1, u2 := Scalars(z, r, w, c.n);
    RecoverK(u1, u2, z, r, d, s, k, w, c.n);
    SamePoint(c, d, u1, u2, k);
    assert Passes(c, Times(c, d, c.G), z, r, w);
  }

  // ---------------------------------------------------------------- the hash as a scalar

  /** The leftmost nbits bits of the hash, reduced modulo n. */
  ghost function HashScalar(buf: seq<byte>, nbits: nat, n: nat): nat
    requires n > 0
  {
    var size := (nbits + 7) / 8;
    var use := if |buf| > size then size else |buf|;
    var v := BytesVal(buf[..use]);
    PowPos(2, if use * 8 > nbits then use * 8 - nbits else 0);
    (if use * 8 > nbits then QuotRem(v, Pow(2, use * 8 - nbits)).0 else v) % n
  }

  /** Cutting the hash to whole bytes first changes nothing: the scalar is made of the leftmost nbits bits of all of it. */
  lemma HashIsLeftmost(buf: seq<byte>, nbits: nat, n: nat)
    requires n > 0
    ensures 0 < Pow(2, if 8 * |buf| > nbits then 8 * |buf| - nbits else 0)
    ensures HashScalar(buf, nbits, n) == BytesVal(buf) / Pow(2, if 8 * |buf| > nbits then 8 * |buf| - nbits else 0) % n
  {
    hide Pow, BytesVal;
    PowPos(2, if 8 * |buf| > nbits then 8 * |buf| - nbits else 0);
    PowOne(2);
    var size := (nbits + 7) / 8;
    if |buf| > size {
      BytesConcat(buf[..size], buf[size..]);
      BytesBound(buf[size..]);
      assert buf == buf[..size] + buf[size..];
      CutBytes(BytesVal(buf[..size]), BytesVal(buf[size..]), size, |buf| - size, nbits);
    } else {
      assert buf[..|buf|] == buf;
    }
  }

  /** size whole bytes are kept of v * 256^rest + low, then the bits below the nbits-th are dropped. */
  lemma CutBytes(v: nat, low: nat, size: nat, rest: nat, nbits: nat)
    requires size == (nbits + 7) / 8 && low < Pow(256, rest)
    ensures 0 <= v * Pow(256, rest) && 0 < Pow(2, size * 8 - nbits) && 0 < Pow(2, 8 * (size + rest) - nbits)
    ensures (v * Pow(256, rest) + low) / Pow(2, 8 * (size + rest) - nbits) == v / Pow(2, size * 8 - nbits)
  {
    hide Pow;
    var e := size * 8 - nbits;
    Pow32();
    PowMul(2, 8, rest);
    PowAdd(2, 8 * rest, e);
    PowPos(2, e);
    PowPos(2, 8 * rest);
    MulPos(v, Pow(256, rest));
    DivModUnique(v * Pow(256, rest) + low, Pow(256, rest), v, low);
    DivDiv(v * Pow(256, rest) + low, Pow(256, rest), Pow(2, e));
  }

  lemma QuotBelow(v: nat, d: nat, limit: nat)
    requires d > 0 && v < limit * d
    ensures v / d < limit
  {
    var q := QuotRem(v, d);
    if q.0 >= limit {
      MulMono(limit, q.0, d);
    }
  }

  /** At most nbits bits are left after the shift. */
  lemma LeftmostBits(v: nat, use: nat, nbits: nat)
    requires v < Pow(256, use)
    ensures use * 8 <= nbits ==> v < Pow(2, nbits)
    ensures use * 8 > nbits ==> Pow(2, use * 8 - nbits) > 0 && v / Pow(2, use * 8 - nbits) < Pow(2, nbits)
  {
    hide Pow;
    Pow32();
    PowMul(2, 8, use);
    if use * 8 <= nbits {
      PowMono(2, use * 8, nbits);
    } else {
      PowPos(2, use * 8 - nbits);
      PowAdd(2, nbits, use * 8 - nbits);
      QuotBelow(v, Pow(2, use * 8 - nbits), Pow(2, nbits));
    }
  }

  lemma ReduceOnce(x: nat, n: nat)
    requires n > 0 && x < 2 * n
    ensures x % n == if x >= n then x - n else x
  {
    if x >= n {
      DivModUnique(x, n, 1, x - n);
    } else {
      DivModUnique(x, n, 0, x);
    }
  }

  /** derive_mpi: with nbits the bit length of n, one subtraction is enough to land below n. */
  method DeriveMpi(x: Mpi, N: Mpi, nbits: nat, buf: seq<byte>)
    requires x != N && N.Int() > 0 && IsBitlen(N.Mag(), nbits)
    modifies x
    ensures x.Int() == HashScalar(buf, nbits, N.Int()) && 0 <= x.Int() < N.Int()
  {
    hide Pow, Val, BytesVal;
    var size := (nbits + 7) / 8;
    var use := if |buf| > size then size else |buf|;
    ReadBinary(x, buf[..use]);
    BytesBound(buf[..use]);
    LeftmostBits(BytesVal(buf[..use]), use, nbits);
    if use * 8 > nbits {
      ShiftR(x, use * 8 - nbits);
    }
    TwiceTheOrder(N.Mag(), nbits);
    ReduceOnce(x.Mag(), N.Mag());
    var c := CmpMpi(x, N);
    if c >= 0 {
      SubMpi(x, x, N);
    }
  }

  lemma TwiceTheOrder(n: nat, nbits: nat)
    requires n > 0 && IsBitlen(n, nbits)
    ensures Pow(2, nbits) <= 2 * n
  {
    PowOne(2);
    if nbits > 0 {
      PowTwice(nbits - 1);
    }
  }

  // ---------------------------------------------------------------- signing

  datatype EcError = Success | InvalidKey | RandomFailed | VerifyFailed

  /** What mbedtls_ecp_gen_privkey draws: a scalar in [1, n - 1]. */
  ghost predicate Scalars1(rng: seq<seq<limb>>, n: nat)
  {
    forall i :: 0 <= i < |rng| ==> 0 < Val(rng[i]) < n
  }

  /** The x-coordinate of kG modulo n. */
  ghost function ROf<P>(c: Curve<P>, k: nat): (r: nat)
    requires c.n > 0
    ensures r < c.n
  {
    c.xcoord(Times(c, k, c.G)) % c.n
  }

  /** The scalar the signer ends up with, as its place in the supply from pos on: a zero r skips one scalar, a zero s the
      pair of k and t. With no k and t left it is the size of the supply. */
  ghost function SigningDraw<P>(c: Curve<P>, d: nat, z: nat, rng: seq<seq<limb>>, pos: nat): (i: nat)
    requires c.n > 0 && pos <= |rng|
    ensures i <= |rng|
    decreases |rng| - pos
  {
    if pos + 1 >= |rng| then |rng|
    else
      var r := ROf(c, Val(rng[pos]));
      MulPos(r, d);
      if r == 0 then SigningDraw(c, d, z, rng, pos + 1)
      else if (z + r * d) % c.n == 0 then SigningDraw(c, d, z, rng, pos + 2)
      else pos
  }

  /** s k = z + r d: s is 0 exactly when the right-hand side is. */
  lemma ZeroTogether(s: int, k: nat, m: int, n: nat)
    requires IsPrime(n) && 0 < k < n && 0 <= s < n && Cong(s * k, m, n)
    ensures s == 0 <==> m % n == 0
  {
    hide Cong, IsPrime, Gcd;
    PrimePositive(n);
    if s == 0 {
      CongSym(0, m, n);
      CongIffMod(m, 0, n);
      DivModUnique(0, n, 0, 0);
    }
    if m % n == 0 {
      PrimeCoprime(k, n);
      var x := InverseExists(k, n);
      CongMod(m, n);
      CongTrans(s * k, m, 0, n);
      CongRefl(x, n);
      CongMul(s * k, 0, x, x, n);
      CongRefl(s, n);
      CongMul(s, s, k * x, 1, n);
      Assoc(s, k, x);
      CongSym(s * k * x, s, n);
      CongTrans(s, s * k * x, 0, n);
      CongUnique(s, 0, n);
    }
  }

  /** "Steps 1-3": draws k until r = x(kG) mod n is not 0. The source means to give up after ten
      tries but advances the counter's pointer; here the supply of random scalars bounds the loop. */
  method PickR<P(==)>(c: Curve<P>, N: Mpi, r: Mpi, k: Mpi, rng: seq<seq<limb>>, pos0: nat, ghost d: nat, ghost z: nat)
    returns (ok: bool, pos: nat)
    requires r != N && k != N && r != k && N.Int() == c.n > 0 && pos0 <= |rng| && Scalars1(rng, c.n)
    modifies r, k
    ensures pos0 <= pos <= |rng| && (ok ==> pos0 < pos)
    ensures ok ==> 0 < k.Int() < c.n && 0 < r.Int() < c.n && k.s == 1
    ensures ok ==> k.Int() == Val(rng[pos - 1]) && r.Int() == ROf(c, Val(rng[pos - 1]))
    ensures SigningDraw(c, d, z, rng, pos0) == if ok then SigningDraw(c, d, z, rng, pos - 1) else |rng|
  {
    hide Pow, Val, Times;
    pos := pos0;
    PowPos(2, BIL - 1);
    while pos < |rng|
      invariant pos0 <= pos <= |rng|
      invariant SigningDraw(c, d, z, rng, pos0) == SigningDraw(c, d, z, rng, pos)
      decreases |rng| - pos
    {
      k.s, k.p := 1, rng[pos];
      pos := pos + 1;
      var R := Times(c, k.Mag(), c.G);
      r.s, r.p := 1, LimbsOf(c.xcoord(R));
      var e := ModMpi(r, r, N);
      var zero := CmpInt(r, 0);
      if zero != 0 {
        return true, pos;
      }
    }
    return false, pos;
  }

  /** s k = t (z + r d) (k t)^-1 k = z + r d. */
  lemma SignatureEquation(inv: int, k: int, t: int, m: int, s: int, n: int)
    requires Cong((k * t) * inv, 1, n) && Cong(s, inv * (m * t), n)
    ensures Cong(s * k, m, n)
  {
    hide Cong;
    CongRefl(k, n);
    CongMul(s, inv * (m * t), k, k, n);
    Shuffle(inv, m, t, k);
    CongRefl(m, n);
    CongMul(m, m, (k * t) * inv, 1, n);
    CongTrans(s * k, m * ((k * t) * inv), m, n);
  }

  lemma Shuffle(inv: int, m: int, t: int, k: int)
    ensures (inv * (m * t)) * k == m * ((k * t) * inv)
  {
    calc {
      (inv * (m * t)) * k;
      { Assoc(inv, m * t, k); Assoc(m, t, k); }
      inv * (m * (t * k));
      { Assoc(m, t * k, inv); }
      m * ((t * k) * inv);
    }
  }

  /** "Steps 5 and 6": s = t (z + r d) / (k t) mod n, blinded by t. pk becomes k t. */
  method ComputeS<P(==)>(c: Curve<P>, N: Mpi, r: Mpi, s: Mpi, d: Mpi, pk: Mpi, t: Mpi, nbits: nat, buf: seq<byte>)
    requires s != N && s != r && s != d && s != pk && s != t && pk != N && pk != r && pk != d && pk != t
    requires IsPrime(c.n) && N.Int() == c.n && IsBitlen(c.n, nbits)
    requires 0 < pk.Int() < c.n && 0 < t.Int() < c.n && 0 < d.Int() && 0 < r.Int() && pk.s == 1 && t.s == 1
    modifies s, pk
    ensures 0 <= s.Int() < c.n
    ensures Cong(s.Int() * old(pk.Int()), HashScalar(buf, nbits, c.n) + r.Int() * d.Int(), c.n)
  {
    hide Pow, Val, Cong, Gcd, HashScalar, IsPrime;
    ghost var n, k, tv, z, m := c.n, pk.Int(), t.Int(), HashScalar(buf, nbits, c.n), 0;
    var e := new Mpi();
    DeriveMpi(e, N, nbits, buf);
    MulMpi(s, r, d);
    AddMpi(e, e, s);
    m := e.Int();
    MulMpi(e, e, t);
    MulMpi(pk, pk, t);
    PrimeCoprime(k, n);
    PrimeCoprime(tv, n);
    ProductCoprime(k, tv, n);
    PrimePositive(n);
    var err := InvMod(s, pk, N);
    ghost var inv := s.Int();
    MulMpi(s, s, e);
    CongMod(inv * (m * tv), n);
    err := ModMpi(s, s, N);
    SignatureEquation(inv, k, tv, m, s.Int(), n);
  }

  lemma PrimePositive(n: nat)
    requires IsPrime(n)
    ensures n > 1
  {
  }

  /** One pass of the outer signing loop; a zero s asks for another. */
  method SignTry<P(==)>(c: Curve<P>, N: Mpi, r: Mpi, s: Mpi, d: Mpi, nbits: nat, buf: seq<byte>,
                        rng: seq<seq<limb>>, pos0: nat) returns (ok: bool, pos: nat)
    requires r != s && r != N && s != N && r != d && s != d && pos0 <= |rng|
    requires IsPrime(c.n) && N.Int() == c.n > 1 && IsBitlen(c.n, nbits) && Scalars1(rng, c.n) && 1 <= d.Int() < c.n
    modifies r, s
    ensures pos0 <= pos <= |rng| && (ok ==> pos0 + 2 <= pos && 0 <= s.Int())
    ensures ok && s.Int() != 0 ==>
      Signs(c, d.Int(), HashScalar(buf, nbits, c.n), r.Int(), s.Int(), Val(rng[pos - 2]))
    ensures var z := HashScalar(buf, nbits, c.n);
      SigningDraw(c, d.Int(), z, rng, pos0) ==
        if !ok then |rng| else if s.Int() != 0 then pos - 2 else SigningDraw(c, d.Int(), z, rng, pos)
  {
    hide Pow, Val, Cong, HashScalar, IsPrime, Times, ROf, SigningDraw;
    var pk := new Mpi();
    ghost var z, dv := HashScalar(buf, nbits, c.n), d.Int();
    ok, pos := PickR(c, N, r, pk, rng, pos0, dv, z);
    if !ok {
      return false, pos;
    }
    DrawStep(c, dv, z, rng, pos - 1);
    if pos == |rng| {
      return false, pos;
    }
    ghost var k := pk.Int();
    var t := new Mpi();
    t.p := rng[pos];
    pos := pos + 1;
    ComputeS(c, N, r, s, d, pk, t, nbits, buf);
    ZeroTogether(s.Int(), k, z + r.Int() * dv, c.n);
  }

  lemma DrawStep<P>(c: Curve<P>, d: nat, z: nat, rng: seq<seq<limb>>, pos: nat)
    requires c.n > 0 && pos < |rng| && ROf(c, Val(rng[pos])) != 0
    ensures SigningDraw(c, d, z, rng, pos) ==
      if pos + 1 == |rng| then |rng|
      else if (z + ROf(c, Val(rng[pos])) * d) % c.n == 0 then SigningDraw(c, d, z, rng, pos + 2) else pos
  {
    hide Val, ROf;
  }

  /** r and s are the signature with scalar k. */
  ghost predicate Signs<P>(c: Curve<P>, d: int, z: int, r: int, s: int, k: nat)
    requires c.n > 0
  {
    1 <= r < c.n && 1 <= s < c.n && 0 < k < c.n && r == ROf(c, k) && Cong(s * k, z + r * d, c.n)
  }

  lemma SignsIsSignature<P>(c: Curve<P>, d: int, z: int, r: int, s: int, k: nat)
    requires c.n > 0 && Signs(c, d, z, r, s, k)
    ensures IsSignature(c, d, z, r, s)
  {
    hide Cong;
    assert SignedWith(c, d, z, r, s, k);
  }

  /** ecdsa_sign_restartable without restarts. It succeeds exactly when the supply of scalars holds a k that gives
      neither a zero r nor a zero s, followed by a t. */
  method Sign<P(==)>(c: Curve<P>, N: Mpi, r: Mpi, s: Mpi, d: Mpi, nbits: nat, buf: seq<byte>, rng: seq<seq<limb>>)
    returns (ret: EcError)
    requires r != s && r != N && s != N && r != d && s != d
    requires IsPrime(c.n) && N.Int() == c.n > 0 && IsBitlen(c.n, nbits) && Scalars1(rng, c.n)
    modifies r, s
    ensures ret ==
      if !(1 <= d.Int() < c.n) then InvalidKey
      else if SigningDraw(c, d.Int(), HashScalar(buf, nbits, c.n), rng, 0) < |rng| then Success else RandomFailed
    ensures ret == Success ==>
      var z := HashScalar(buf, nbits, c.n);
      Signs(c, d.Int(), z, r.Int(), s.Int(), Val(rng[SigningDraw(c, d.Int(), z, rng, 0)])) &&
      IsSignature(c, d.Int(), z, r.Int(), s.Int())
  {
    hide Pow, Val, Cong, HashScalar, IsPrime, Times, IsSignature, SigningDraw, Signs;
    PrimePositive(c.n);
    var one := Dhm.Sint(1);
    PowPos(2, BIL - 1);
    var low := CmpInt(d, one);
    var high := CmpMpi(d, N);
    if low < 0 || high >= 0 {
      return InvalidKey;
    }
    ghost var z, dv := HashScalar(buf, nbits, c.n), d.Int();
    var pos := 0;
    while true
      invariant 0 <= pos <= |rng|
      invariant SigningDraw(c, dv, z, rng, pos) == SigningDraw(c, dv, z, rng, 0)
      decreases |rng| - pos
    {
      var ok;
      ok, pos := SignTry(c, N, r, s, d, nbits, buf, rng, pos);
      if !ok {
        return RandomFailed;
      }
      var zero := CmpInt(s, 0);
      if zero != 0 {
        SignsIsSignature(c, dv, z, r.Int(), s.Int(), Val(rng[pos - 2]));
        return Success;
      }
    }
  }

  // ---------------------------------------------------------------- verification

  /** `s_inv = s^-1; u = x * s_inv mod n` for one of the two scalars. */
  method TimesInverse(u: Mpi, x: Mpi, inv: Mpi, N: Mpi)
    requires u != x && u != inv && u != N && N.Int() > 0
    modifies u
    ensures u.Int() == (x.Int() * inv.Int()) % N.Int()
  {
    hide Pow, Val;
    MulMpi(u, x, inv);
    var e := ModMpi(u, u, N);
  }

  lemma AcceptsOnlyWith<P>(c: Curve<P>, q: P, z: nat, r: nat, s: nat, w: nat)
    requires c.n > 0 && 1 <= r < c.n && 1 <= s < c.n && w < c.n && Cong(s * w, 1, c.n)
    ensures Accepts(c, q, z, r, s) <==> Passes(c, q, z, r, w)
  {
    hide Cong, Passes;
    if Accepts(c, q, z, r, s) {
      var v: nat :| v < c.n && Cong(s * v, 1, c.n) && Passes(c, q, z, r, v);
      InverseUnique(s, w, v, c.n);
    }
  }

  /** u1 P + u2 Q and its x-coordinate, compared with r: "Steps 4 to 8" once s is inverted. */
  method CheckPoint<P(==)>(c: Curve<P>, N: Mpi, q: P, r: Mpi, e: Mpi, inv: Mpi) returns (ok: bool)
    requires N.Int() == c.n > 1 && r.Int() >= 0 && e.Int() >= 0 && inv.Int() >= 0
    ensures ok <==> Passes(c, q, e.Int(), r.Int(), inv.Int())
  {
    hide Pow, Val, Times;
    MulPos(e.Int(), inv.Int());
    MulPos(r.Int(), inv.Int());
    var u1 := new Mpi();
    TimesInverse(u1, e, inv, N);
    var u2 := new Mpi();
    TimesInverse(u2, r, inv, N);
    IntIsMag(u1);
    IntIsMag(u2);
    var R := c.add(Times(c, u1.Mag(), c.G), Times(c, u2.Mag(), q));
    if R == c.zero {
      return false;
    }
    var X := new Mpi();
    X.p := LimbsOf(c.xcoord(R));
    var err := ModMpi(X, X, N);
    var v := CmpMpi(X, r);
    return v == 0;
  }

  /** The public key q and the private key d belong together. */
  ghost predicate KeyPair<P(!new)>(c: Curve<P>, q: P, d: nat)
  {
    IsGroup(c) && q == Times(c, d, c.G)
  }

  /** ecdsa_verify_restartable without restarts: it accepts exactly what the standard accepts, which for the public key
      of d are exactly the signatures made with d. */
  method Verify<P(==, !new)>(c: Curve<P>, N: Mpi, q: P, r: Mpi, s: Mpi, nbits: nat, buf: seq<byte>) returns (ret: EcError)
    requires IsPrime(c.n) && N.Int() == c.n > 1 && IsBitlen(c.n, nbits)
    ensures ret == Success || ret == VerifyFailed
    ensures ret == Success <==> Accepts(c, q, HashScalar(buf, nbits, c.n), r.Int(), s.Int())
    ensures forall d: nat :: KeyPair(c, q, d) ==>
      (ret == Success <==> IsSignature(c, d, HashScalar(buf, nbits, c.n), r.Int(), s.Int()))
  {
    hide Pow, Val, Cong, HashScalar, IsPrime, Times, Gcd, Passes, IsSignature, IsGroup;
    forall d: nat | KeyPair(c, q, d)
      ensures Accepts(c, q, HashScalar(buf, nbits, c.n), r.Int(), s.Int()) <==>
        IsSignature(c, d, HashScalar(buf, nbits, c.n), r.Int(), s.Int())
    {
      AcceptsExactlySignatures(c, d, HashScalar(buf, nbits, c.n), r.Int(), s.Int());
    }
    var one := Dhm.Sint(1);
    var r0 := CmpInt(r, one);
    var r1 := CmpMpi(r, N);
    var s0 := CmpInt(s, one);
    var s1 := CmpMpi(s, N);
    if r0 < 0 || r1 >= 0 || s0 < 0 || s1 >= 0 {
      return VerifyFailed;
    }
    hide Accepts;
    var e := new Mpi();
    DeriveMpi(e, N, nbits, buf);
    PrimeCoprime(s.Int(), c.n);
    var inv := new Mpi();
    var err := InvMod(inv, s, N);
    AcceptsOnlyWith(c, q, e.Int(), r.Int(), s.Int(), inv.Int());
    var ok := CheckPoint(c, N, q, r, e, inv);
    return if ok then Success else VerifyFailed;
  }

  /** What the signer returns, the verifier accepts: for Q = dG and the same hash, whatever scalars were drawn. */
  method SignThenVerify<P(==, !new)>(c: Curve<P>, N: Mpi, r: Mpi, s: Mpi, d: Mpi, nbits: nat, buf: seq<byte>,
                                     rng: seq<seq<limb>>) returns (signed: EcError, verified: EcError)
    requires r != s && r != N && s != N && r != d && s != d
    requires IsGroup(c) && IsPrime(c.n) && N.Int() == c.n > 1 && IsBitlen(c.n, nbits) && Scalars1(rng, c.n)
    modifies r, s
    ensures signed == Success ==> verified == Success && 1 <= r.Int() < c.n && 1 <= s.Int() < c.n
  {
    hide Times, HashScalar, IsPrime, Associative, Identity, Accepts, Cong;
    verified := VerifyFailed;
    signed := Sign(c, N, r, s, d, nbits, buf, rng);
    if signed == Success {
      var q := Times(c, d.Int(), c.G);
      SignatureVerifies(c, d.Int(), HashScalar(buf, nbits, c.n), r.Int(), s.Int());
      verified := Verify(c, N, q, r, s, nbits, buf);
    }
  }
}
