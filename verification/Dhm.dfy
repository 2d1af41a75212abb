/** Diffie-Hellman on an MPI context: key generation, blinding and the shared secret. */
module Dhm {
  import opened Numbers
  import opened Limbs
  import opened MpiCore
  import opened MpiBits
  import opened MpiArith
  import opened MpiDivision
  import opened MpiGcd
  import opened MpiExpMod

  // ---------------------------------------------------------------- the algebra of blinding

  /** Vi and Vf cancel: Vi^X * Vf = 1 mod P. */
  ghost predicate Cancels(vi: nat, vf: nat, x: nat, p: int)
  {
    Cong(Pow(vi, x) * vf, 1, p)
  }

  /** Squaring both halves keeps the pair good. */
  lemma CancelsSquared(vi: nat, vf: nat, x: nat, p: nat)
    requires Cancels(vi, vf, x, p) && p > 0
    ensures 0 <= vi * vi && 0 <= vf * vf
    ensures Cancels((vi * vi) % p, (vf * vf) % p, x, p)
  {
    hide Pow, Cong;
    MulPos(vi, vi);
    MulPos(vf, vf);
    var w := Pow(vi, x);
    CongMul(w * vf, 1, w * vf, 1, p);
    Cross(w, vf, w, vf);
    PowDistr(vi, vi, x);
    CongMod(vi * vi, p);
    CongMod(vf * vf, p);
    CongPow((vi * vi) % p, vi * vi, x, p);
    CongMul(Pow((vi * vi) % p, x), w * w, (vf * vf) % p, vf * vf, p);
    CongTrans(Pow((vi * vi) % p, x) * ((vf * vf) % p), (w * w) * (vf * vf), 1, p);
  }

  /** Vf = (Vi^-1)^X pairs with Vi. */
  lemma CancelsFresh(vi: nat, inv: nat, vf: nat, x: nat, p: nat)
    requires p > 0 && Cong(vi * inv, 1, p) && Cong(vf, Pow(inv, x), p)
    ensures Cancels(vi, vf, x, p)
  {
    hide Pow, Cong;
    PowDistr(vi, inv, x);
    CongPow(vi * inv, 1, x, p);
    PowOfOne(x);
    CongRefl(Pow(vi, x), p);
    CongMul(Pow(vi, x), Pow(vi, x), vf, Pow(inv, x), p);
    CongTrans(Pow(vi, x) * vf, Pow(vi, x) * Pow(inv, x), 1, p);
  }

  lemma CancelsTrivial(x: nat, p: int)
    ensures Cancels(1, 1, x, p)
  {
    PowOfOne(x);
    CongRefl(1, p);
  }

  /** Unblinding gives back the plain power. */
  lemma Unblinds(gy: nat, vi: nat, vf: nat, x: nat, p: nat, gyb: nat, k: int)
    requires p > 0 && Cancels(vi, vf, x, p)
    requires Cong(gyb, gy * vi, p) && Cong(k, Pow(gyb, x), p)
    ensures 0 <= gy * vi && Cong(k * vf, Pow(gy, x), p)
  {
    hide Pow, Cong;
    MulPos(gy, vi);
    CongPow(gyb, gy * vi, x, p);
    PowDistr(gy, vi, x);
    CongTrans(k, Pow(gyb, x), Pow(gy, x) * Pow(vi, x), p);
    CongRefl(vf, p);
    CongMul(k, Pow(gy, x) * Pow(vi, x), vf, vf, p);
    Assoc(Pow(gy, x), Pow(vi, x), vf);
    CongRefl(Pow(gy, x), p);
    CongMul(Pow(gy, x), Pow(gy, x), Pow(vi, x) * vf, 1, p);
    CongTrans(k * vf, Pow(gy, x) * (Pow(vi, x) * vf), Pow(gy, x), p);
  }

  /** A factor of a unit is a unit. */
  lemma UnitIsCoprime(a: nat, b: int, p: nat)
    requires p > 0 && Cong(a * b, 1, p)
    ensures Gcd(a, p) == 1
  {
    hide Gcd;
    var k: int :| a * b == 1 + k * p;
    var g := Gcd(a, p);
    GcdFacts(a, p);
    DividesLinear(g, a, p, b, -k);
    assert b * a + (-k) * p == 1;
    DividesWith(1, g, g);
    DividesAntisym(g, 1);
  }

  /** Without an inverse there is no good pair with Vf = 1, nor with any other Vf. */
  lemma NoPairWithoutInverse(vi: nat, vf: nat, x: nat, p: nat)
    requires p > 0 && x > 0 && Gcd(vi, p) != 1
    ensures !Cancels(vi, vf, x, p)
  {
    hide Gcd, Cong;
    if Cancels(vi, vf, x, p) {
      assert Pow(vi, x) == vi * Pow(vi, x - 1);
      Assoc(vi, Pow(vi, x - 1), vf);
      UnitIsCoprime(vi, Pow(vi, x - 1) * vf, p);
    }
  }

  /** Two parties that raise each other's public values agree. */
  lemma Agreement(g: nat, x: nat, y: nat, p: nat)
    requires p > 0
    ensures Pow(Pow(g, y) % p, x) % p == Pow(Pow(g, x) % p, y) % p
  {
    hide Pow, Cong;
    CongMod(Pow(g, y), p);
    CongMod(Pow(g, x), p);
    CongPow(Pow(g, y) % p, Pow(g, y), x, p);
    CongPow(Pow(g, x) % p, Pow(g, x), y, p);
    PowMul(g, y, x);
    PowMul(g, x, y);
    CongSym(Pow(Pow(g, x) % p, y), Pow(g, x * y), p);
    CongTrans(Pow(Pow(g, y) % p, x), Pow(g, x * y), Pow(Pow(g, x) % p, y), p);
    CongIffMod(Pow(Pow(g, y) % p, x), Pow(Pow(g, x) % p, y), p);
  }

  // ---------------------------------------------------------------- runs of calls

  /** What one context remembers about blinding between calls. */
  datatype Blinding = Blinding(px: int, vi: int, vf: int)

  /** One successful dhm_update_blinding with private value x. */
  ghost predicate BlindStep(b: Blinding, b': Blinding, x: nat, p: nat)
    requires p > 0
  {
    if b.px != x then b' == Blinding(x, 1, 1)
    else if b.vi != 1 then b' == Blinding(x, (b.vi * b.vi) % p, (b.vf * b.vf) % p)
    else b'.px == x && 2 <= b'.vi < p && 0 <= b'.vf <= p && Cancels(b'.vi, b'.vf, x, p)
  }

  /** What the blinded computation exports. */
  ghost function BlindedSecret(gy: nat, b: Blinding, x: nat, p: nat): int
    requires p > 0
  {
    ((Pow((gy * b.vi) % p, x) % p) * b.vf) % p
  }

  ghost predicate GoodPair(b: Blinding, p: nat)
  {
    b.px > 0 ==> b.vi >= 0 && b.vf >= 0 && Cancels(b.vi, b.vf, b.px, p)
  }

  lemma StepKeepsPair(b: Blinding, b': Blinding, x: nat, p: nat)
    requires p > 0 && GoodPair(b, p) && BlindStep(b, b', x, p)
    ensures GoodPair(b', p) && b'.px == x
  {
    hide Cancels;
    if b.px != x {
      CancelsTrivial(x, p);
    } else if b.vi != 1 && x > 0 {
      CancelsSquared(b.vi, b.vf, x, p);
    }
  }

  lemma GoodPairUnblinds(gy: nat, b: Blinding, x: nat, p: nat)
    requires p > 0 && x > 0 && b.px == x && GoodPair(b, p)
    ensures BlindedSecret(gy, b, x, p) == Pow(gy, x) % p
  {
    hide Pow, Cong, Cancels;
    MulPos(gy, b.vi);
    var gyb := (gy * b.vi) % p;
    var k := Pow(gyb, x) % p;
    CongMod(gy * b.vi, p);
    CongMod(Pow(gyb, x), p);
    Unblinds(gy, b.vi, b.vf, x, p, gyb, k);
    CongIffMod(k * b.vf, Pow(gy, x), p);
  }

  /** One call of a run: it exports a secret, or it is refused for want of a pair and leaves a root of 1 behind. */
  ghost predicate RunStep(b: Blinding, b': Blinding, x: nat, refused: bool, p: nat)
    requires p > 0
  {
    x > 0 &&
    if refused then RefusedStep(b, b', x) && b'.vi >= 0 && Cong(Pow(b'.vi, x), 1, p)
    else BlindStep(b, b', x, p)
  }

  /** Safety over whole runs: from a fresh context on, whatever private values and peers follow one another, every secret
      a successful call exports is GY^X mod P. */
  lemma {:induction false} EveryRunExportsThePower(bs: seq<Blinding>, xs: seq<nat>, gys: seq<nat>, refused: seq<bool>, p: nat)
    requires p > 0 && |bs| == |xs| + 1 && |gys| == |refused| == |xs|
    requires GoodPair(bs[0], p)
    requires forall i :: 0 <= i < |xs| ==> RunStep(bs[i], bs[i + 1], xs[i], refused[i], p)
    ensures forall i :: 0 <= i < |xs| && !refused[i] ==>
      BlindedSecret(gys[i], bs[i + 1], xs[i], p) == Pow(gys[i], xs[i]) % p
  {
    hide Pow, Cong, GoodPair, BlindedSecret, BlindStep, RefusedStep;
    if |xs| > 0 {
      var xs', gys', bs', refused' := xs[1..], gys[1..], bs[1..], refused[1..];
      if refused[0] {
        LeftoverGood(bs[0], bs[1], xs[0], p);
      } else {
        StepKeepsPair(bs[0], bs[1], xs[0], p);
        GoodPairUnblinds(gys[0], bs[1], xs[0], p);
      }
      forall i | 0 <= i < |xs'| ensures RunStep(bs'[i], bs'[i + 1], xs'[i], refused'[i], p) {
        assert RunStep(bs[i + 1], bs[i + 2], xs[i + 1], refused[i + 1], p);
      }
      EveryRunExportsThePower(bs', xs', gys', refused', p);
      forall i | 0 <= i < |xs| && !refused[i]
        ensures BlindedSecret(gys[i], bs[i + 1], xs[i], p) == Pow(gys[i], xs[i]) % p
      {
        if i > 0 {
          assert BlindedSecret(gys'[i - 1], bs'[i], xs'[i - 1], p) == Pow(gys'[i - 1], xs'[i - 1]) % p;
        }
      }
    }
  }

  // ---------------------------------------------------------------- after a refusal

  /** A blinded call refused for want of a pair: X is the remembered one, Vi was 1 and is now whatever was drawn last,
      and Vf is still that of the trivial pair. */
  ghost predicate RefusedStep(b: Blinding, b': Blinding, x: int)
  {
    b.px == x && b.vi == 1 && b'.px == x && b'.vf == b.vf
  }

  /** The pair left behind is good exactly when the leftover Vi is a root of 1. */
  lemma LeftoverGood(b: Blinding, b': Blinding, x: nat, p: nat)
    requires p > 0 && x > 0 && GoodPair(b, p) && RefusedStep(b, b', x) && b'.vi >= 0
    ensures GoodPair(b', p) <==> Cong(Pow(b'.vi, x), 1, p)
  {
    hide Pow, Cong;
    LeftoverFactor(b, x, p);
    TimesUnitFactor(Pow(b'.vi, x), b.vf, 1, p);
  }

  /** With Vi = 1 a good pair has Vf = 1 modulo P. */
  lemma LeftoverFactor(b: Blinding, x: nat, p: nat)
    requires p > 0 && x > 0 && GoodPair(b, p) && b.px == x && b.vi == 1
    ensures b.vf >= 0 && Cong(b.vf, 1, p)
  {
    hide Pow, Cong;
    PowOfOne(x);
  }

  lemma TimesUnitFactor(a: int, f: int, c: int, p: nat)
    requires p > 0 && Cong(f, 1, p)
    ensures Cong(a * f, c, p) <==> Cong(a, c, p)
  {
    hide Cong;
    CongRefl(a, p);
    CongMul(a, a, f, 1, p);
    CongSym(a * f, a, p);
    if Cong(a * f, c, p) {
      CongTrans(a, a * f, c, p);
    }
    if Cong(a, c, p) {
      CongTrans(a * f, a, c, p);
    }
  }

  /** What any pair exports, good or not, and when that is GY^X mod P. */
  lemma ExportIs(gy: nat, b: Blinding, x: nat, p: nat)
    requires p > 0 && b.vi >= 0 && b.vf >= 0
    ensures Cong(BlindedSecret(gy, b, x, p), Pow(gy, x) * (Pow(b.vi, x) * b.vf), p)
    ensures BlindedSecret(gy, b, x, p) == Pow(gy, x) % p <==> Cong(Pow(gy, x) * (Pow(b.vi, x) * b.vf), Pow(gy, x), p)
  {
    hide Pow, Cong;
    MulPos(gy, b.vi);
    var gyb := (gy * b.vi) % p;
    var k := Pow(gyb, x) % p;
    var w := Pow(gy, x) * (Pow(b.vi, x) * b.vf);
    CongMod(gy * b.vi, p);
    CongPow(gyb, gy * b.vi, x, p);
    PowDistr(gy, b.vi, x);
    CongMod(Pow(gyb, x), p);
    CongTrans(k, Pow(gyb, x), Pow(gy, x) * Pow(b.vi, x), p);
    CongRefl(b.vf, p);
    CongMul(k, Pow(gy, x) * Pow(b.vi, x), b.vf, b.vf, p);
    Assoc(Pow(gy, x), Pow(b.vi, x), b.vf);
    CongIffMod(k * b.vf, w, p);
    CongMod(k * b.vf, p);
    CongTrans((k * b.vf) % p, k * b.vf, w, p);
    CongIffMod(w, Pow(gy, x), p);
  }

  /** A unit cancels. */
  lemma CancelUnit(g: nat, w: int, p: nat)
    requires p > 0 && Gcd(g, p) == 1
    ensures Cong(g * w, g, p) <==> Cong(w, 1, p)
  {
    hide Gcd, Cong;
    CongRefl(g, p);
    if Cong(w, 1, p) {
      CongMul(g, g, w, 1, p);
    }
    if Cong(g * w, g, p) {
      var i := UnitInverse(g, p);
      CongRefl(i, p);
      CongMul(i, i, g * w, g, p);
      Assoc(i, g, w);
      CongRefl(w, p);
      CongMul(i * g, 1, w, w, p);
      CongSym(i * g * w, w, p);
      CongTrans(w, i * g * w, i * g, p);
      CongTrans(w, i * g, 1, p);
    }
  }

  lemma UnitInverse(g: nat, p: nat) returns (i: int)
    requires p > 0 && Gcd(g, p) == 1
    ensures Cong(i * g, 1, p)
  {
    hide Gcd;
    GcdFacts(g, p);
    var x, y :| Combination(x, g, y, p, 1);
    i := x;
    CongWith(i * g, 1, p, -y);
  }

  lemma {:induction false} PowUnit(g: nat, x: nat, p: nat)
    requires p > 0 && Gcd(g, p) == 1
    ensures Gcd(Pow(g, x), p) == 1
  {
    hide Gcd, Cong, Pow;
    var i := UnitInverse(g, p);
    var j := i % p;
    CongMod(i, p);
    CongRefl(g, p);
    CongMul(j, i, g, g, p);
    CongTrans(j * g, i * g, 1, p);
    MulPos(g, j);
    CongPow(g * j, 1, x, p);
    PowOfOne(x);
    PowDistr(g, j, x);
    UnitIsCoprime(Pow(g, x), Pow(j, x), p);
  }

  /** The call after a refused one, with the same X: a leftover Vi other than 1 is taken for a usable pair and squared.
      For a GY without a common factor with P the export is right exactly when the leftover is a 2X-th root of 1. */
  lemma NextExportRight(gy: nat, b0: Blinding, b: Blinding, b': Blinding, x: nat, p: nat)
    requires p > 1 && x > 0 && GoodPair(b0, p) && RefusedStep(b0, b, x) && b.vi >= 0 && b.vi != 1
    requires BlindStep(b, b', x, p) && Gcd(gy, p) == 1
    ensures BlindedSecret(gy, b', x, p) == Pow(gy, x) % p <==> Cong(Pow(b.vi, 2 * x), 1, p)
  {
    hide Pow, Cong, Gcd, BlindedSecret;
    var v := b.vi * b.vi;
    MulPos(b.vi, b.vi);
    MulPos(b.vf, b.vf);
    ExportIs(gy, b', x, p);
    PowUnit(gy, x, p);
    CancelUnit(Pow(gy, x), Pow(b'.vi, x) * b'.vf, p);
    LeftoverFactor(b0, x, p);
    CongMul(b.vf, 1, b.vf, 1, p);
    CongMod(b.vf * b.vf, p);
    CongTrans(b'.vf, b.vf * b.vf, 1, p);
    TimesUnitFactor(Pow(b'.vi, x), b'.vf, 1, p);
    CongMod(v, p);
    CongPow(b'.vi, v, x, p);
    PowDistr(b.vi, b.vi, x);
    PowAdd(b.vi, x, x);
    CongIffMod(Pow(b'.vi, x), Pow(v, x), p);
    CongIffMod(Pow(b'.vi, x), 1, p);
    CongIffMod(Pow(v, x), 1, p);
  }

  /** The leftover 0 makes every later export with the same X come out 0. */
  lemma RetryAfterZeroDraws(gy: nat, b: Blinding, b': Blinding, x: nat, p: nat)
    requires p > 1 && x > 0 && b.px == x && b.vi == 0 && BlindStep(b, b', x, p)
    ensures b'.vi == 0 && BlindedSecret(gy, b', x, p) == 0
    ensures BlindedSecret(gy, b', x, p) == Pow(gy, x) % p <==> Pow(gy, x) % p == 0
  {
    SmallModZero(p);
    assert b'.vi == 0 && gy * b'.vi == 0;
    assert Pow(0, x) == 0 * Pow(0, x - 1);
    assert 0 * b'.vf == 0;
  }

  // ---------------------------------------------------------------- random values

  /** "while >= P, shift right", on what the generator produced. */
  function Below(v: nat, p: nat): (r: nat)
    requires p > 0
    ensures r < p
  {
    if v < p then v else Below(v / 2, p)
  }

  /** How often that shifts. */
  function Cuts(v: nat, p: nat): (k: nat)
    requires p > 0
  {
    if v < p then 0 else Cuts(v / 2, p) + 1
  }

  /** What is left is v without its k low bits, for the smallest k that brings it below p. */
  lemma {:induction false} BelowIsShifted(v: nat, p: nat)
    requires p > 0
    ensures
      var k := Cuts(v, p);
      && Below(v, p) * Pow(2, k) <= v < (Below(v, p) + 1) * Pow(2, k)
      && (k > 0 ==> p * Pow(2, k - 1) <= v)
  {
    PowOne(2);
    if v >= p {
      BelowIsShifted(v / 2, p);
      var k, r := Cuts(v / 2, p), Below(v / 2, p);
      PowTwice(k);
      Regroup2(r, Pow(2, k));
      Regroup2(r + 1, Pow(2, k));
      if k > 0 {
        PowTwice(k - 1);
        Regroup2(p, Pow(2, k - 1));
      }
      hide Pow;
    }
  }

  lemma Regroup2(a: int, b: int)
    ensures a * (2 * b) == 2 * (a * b)
  {
  }

  /** mbedtls_mpi_fill_random, handed the limbs the generator produced, and the shifts after it. */
  method DrawBelow(X: Mpi, P: Mpi, v: seq<limb>)
    requires X != P && P.Int() > 0
    modifies X
    ensures X.Int() == Below(Val(v), P.Int())
  {
    hide Pow, Val;
    X.s, X.p := 1, v;
    PowOne(2);
    var c := CmpMpi(X, P);
    while c >= 0
      invariant X.s == 1 && c == Order(X.Int(), P.Int())
      invariant Below(X.Mag(), P.Int()) == Below(Val(v), P.Int())
      decreases X.Mag()
    {
      ShiftR(X, 1);
      c := CmpMpi(X, P);
    }
  }

  // The retry loops look at eleven draws; a twelfth is stored unseen.

  /** Draw i, reduced, is what the loop is after. */
  ghost predicate Good(draws: seq<seq<limb>>, p: nat, top: int, i: nat)
    requires p > 0 && i < |draws|
  {
    2 <= Below(Val(draws[i]), p) <= top
  }

  ghost predicate AllMissed(draws: seq<seq<limb>>, p: nat, top: int)
    requires p > 0 && |draws| >= 12
  {
    forall i :: 0 <= i < 11 ==> !Good(draws, p, top, i)
  }

  /** What the loop leaves behind: from draw i on, the first good one, or the twelfth. */
  ghost function Drawn(draws: seq<seq<limb>>, p: nat, top: int, i: nat): (r: nat)
    requires p > 0 && |draws| >= 12 && i <= 11
    ensures r < p
    decreases 11 - i
  {
    if i == 11 || Good(draws, p, top, i) then Below(Val(draws[i]), p) else Drawn(draws, p, top, i + 1)
  }

  method Sint(k: nat) returns (z: sint)
    requires k <= 2
    ensures z == k
  {
    BaseBound();
    z := k;
  }

  /** dhm_check_range: 2 <= param <= P - 2. */
  method CheckRange(param: Mpi, P: Mpi) returns (ret: Error)
    ensures ret == if 2 <= param.Int() <= P.Int() - 2 then Ok else BadInputData
  {
    hide Pow, Val;
    var two := Sint(2);
    var L := OfSint(two);
    var U := new Mpi();
    SubInt(U, P, two);
    var c := CmpMpi(param, L);
    var d := CmpMpi(param, U);
    return if c < 0 || d > 0 then BadInputData else Ok;
  }

  // ---------------------------------------------------------------- the context

  class Context {
    const P: Mpi
    const G: Mpi
    const X: Mpi
    const GX: Mpi
    const GY: Mpi
    const K: Mpi
    const RP: Mpi
    const Vi: Mpi
    const Vf: Mpi
    const pX: Mpi
    var len: nat

    /** The ten MPIs of the context are ten objects. */
    ghost predicate Separate()
    {
      && P !in {G, X, GX, GY, K, RP, Vi, Vf, pX}
      && G !in {X, GX, GY, K, RP, Vi, Vf, pX}
      && X !in {GX, GY, K, RP, Vi, Vf, pX}
      && GX !in {GY, K, RP, Vi, Vf, pX}
      && GY !in {K, RP, Vi, Vf, pX}
      && K !in {RP, Vi, Vf, pX}
      && RP !in {Vi, Vf, pX}
      && Vi !in {Vf, pX}
      && Vf != pX
    }

    /** RP caches R^2 mod P, or nothing yet. */
    ghost predicate CacheOk()
      reads P, RP
    {
      |RP.p| > 0 && P.Int() > 0 ==> RP.Int() == (Place(|P.p|) * Place(|P.p|)) % P.Int()
    }

    ghost function Memory(): Blinding
      reads Vi, Vf, pX
    {
      Blinding(pX.Int(), Vi.Int(), Vf.Int())
    }

    /** What every call leaves, refused ones included: the cache is right and nothing is negative. */
    ghost predicate Usable()
      reads P, RP, Vi, Vf, X
    {
      Separate() && CacheOk() && X.Int() >= 0 && P.Int() >= 0 && Vi.Int() >= 0 && Vf.Int() >= 0
    }

    /** Across successful calls: besides, the blinding pair is good for the private value it was made for. Before any
        use pX is 0. */
    ghost predicate Valid()
      reads P, RP, Vi, Vf, pX, X
    {
      Usable() && GoodPair(Memory(), P.Int())
    }

    /** mbedtls_dhm_init */
    constructor ()
      ensures fresh(P) && fresh(G) && fresh(X) && fresh(GX) && fresh(GY)
      ensures fresh(K) && fresh(RP) && fresh(Vi) && fresh(Vf) && fresh(pX)
      ensures Valid() && P.Int() == 0 && X.Int() == 0 && pX.Int() == 0 && RP.p == []
    {
      hide Pow, Val, Place, Cong, Cancels, CacheOk, Usable, Valid, Memory;
      P := new Mpi();
      G := new Mpi();
      X := new Mpi();
      GX := new Mpi();
      GY := new Mpi();
      K := new Mpi();
      RP := new Mpi();
      Vi := new Mpi();
      Vf := new Mpi();
      pX := new Mpi();
      len := 0;
      new;
      Untouched();
    }

    lemma Untouched()
      requires Separate() && P.p == [] && X.p == [] && RP.p == [] && Vi.p == [] && Vf.p == [] && pX.p == []
      ensures Valid() && P.Int() == 0 && X.Int() == 0 && pX.Int() == 0
    {
      hide Pow, Val, Place, Cancels, Cong;
      ValZeros([]);
    }

    /** mbedtls_dhm_set_group. It drops neither RP nor the blinding pair, so what holds for the new P is what holds for a
        context that has neither. */
    method SetGroup(p: Mpi, g: Mpi)
      requires Usable() && p.Int() >= 0 && g != P
      modifies P, G, this`len
      ensures Separate() && P.Int() == old(p.Int()) && G.Int() == old(g.Int())
      ensures P.Mag() < Pow(2, len * 8) && (len > 0 ==> Pow(2, (len - 1) * 8) <= P.Mag())
      ensures |RP.p| == 0 ==> Usable() && (pX.Int() == 0 ==> Valid())
    {
      hide Pow, Val, Place, Cancels;
      Copy(P, p);
      Copy(G, g);
      var bits := Bitlen(P);
      len := (bits + 7) / 8;
      PowMono(2, bits, len * 8);
      if len > 0 {
        PowMono(2, (len - 1) * 8, bits - 1);
      }
    }

    /** "Vi = random( 2, P-1 )": at most eleven draws are accepted; the twelfth is stored and refused unseen. */
    method DrawVi(draws: seq<seq<limb>>) returns (ret: Error)
      requires Separate() && P.Int() > 1 && |draws| >= 12
      modifies Vi
      ensures ret == if AllMissed(draws, P.Int(), P.Int()) then NotAcceptable else Ok
      ensures Vi.Int() == Drawn(draws, P.Int(), P.Int(), 0) && (ret == Ok ==> Vi.Int() >= 2)
    {
      hide Pow, Val, Below;
      var one := Sint(1);
      var count := 0;
      while true
        invariant 0 <= count <= 11
        invariant forall i :: 0 <= i < count ==> !Good(draws, P.Int(), P.Int(), i)
        invariant Drawn(draws, P.Int(), P.Int(), count) == Drawn(draws, P.Int(), P.Int(), 0)
        decreases 11 - count
      {
        DrawBelow(Vi, P, draws[count]);
        if count > 10 {
          return NotAcceptable;
        }
        var c := CmpInt(Vi, one);
        if c > 0 {
          assert Good(draws, P.Int(), P.Int(), count);
          break;
        }
        count := count + 1;
      }
      return Ok;
    }

    /** A pair from scratch: `Vf = Vi^-X mod P`. A refusal leaves the new Vi, with the old Vf when it has no inverse,
        and with its inverse when only the exponentiation refuses. */
    method FreshPair(draws: seq<seq<limb>>) returns (ret: Error)
      requires Usable() && P.Int() > 1 && |draws| >= 12
      modifies Vi, Vf, RP
      ensures Usable() && Vi.Int() == Drawn(draws, P.Int(), P.Int(), 0)
      ensures ret ==
        if AllMissed(draws, P.Int(), P.Int()) || Gcd(Vi.Int(), P.Int()) != 1 then NotAcceptable
        else if P.Int() % 2 == 0 then BadInputData else Ok
      ensures ret == Ok ==> 0 <= Vf.Int() <= P.Int() && 2 <= Vi.Int() && Cancels(Vi.Int(), Vf.Int(), X.Int(), P.Int())
      ensures ret == NotAcceptable ==> Vf.Int() == old(Vf.Int())
      ensures ret == BadInputData ==> 0 <= Vf.Int() < P.Int() && Cong(Vi.Int() * Vf.Int(), 1, P.Int())
    {
      hide Pow, Val, Place, Cong, Gcd, SignedPow, Cancels, Drawn, AllMissed;
      ret := DrawVi(draws);
      if ret != Ok {
        return;
      }
      ret := InvMod(Vf, Vi, P);
      if ret != Ok {
        return;
      }
      ghost var vi, inv, x := Vi.Int(), Vf.Int(), X.Int();
      ret := ExpMod(Vf, Vf, X, P, RP);
      if ret == Ok {
        SignedPowSplit(1, inv, x);
        CancelsFresh(vi, inv, Vf.Int(), x, P.Int());
      }
    }

    /** The next blinded call wants a new pair and the draws do not give one. */
    ghost predicate NoPair(draws: seq<seq<limb>>)
      requires P.Int() > 0 && |draws| >= 12
      reads P, X, pX, Vi
    {
      pX.Int() == X.Int() && Vi.Int() == 1 &&
      (AllMissed(draws, P.Int(), P.Int()) || Gcd(Drawn(draws, P.Int(), P.Int(), 0), P.Int()) != 1)
    }

    /** dhm_update_blinding. A call that fails in FreshPair leaves a Vi without its Vf. */
    method UpdateBlinding(draws: seq<seq<limb>>) returns (ret: Error)
      requires Usable() && P.Int() > 1 && |draws| >= 12
      modifies Vi, Vf, pX, RP
      ensures Usable()
      ensures ret == Ok ==> BlindStep(old(Memory()), Memory(), X.Int(), P.Int())
      ensures ret == NotAcceptable <==> old(NoPair(draws))
      ensures !old(NoPair(draws)) && P.Int() % 2 == 1 ==> ret == Ok
      ensures ret == Ok || ret == NotAcceptable || (ret == BadInputData && P.Int() % 2 == 0)
      ensures ret == NotAcceptable ==> RefusedStep(old(Memory()), Memory(), X.Int())
      ensures ret == NotAcceptable ==> Vi.Int() == Drawn(draws, P.Int(), P.Int(), 0)
    {
      hide Pow, Val, Place, Cong, Cancels, Drawn, AllMissed, Gcd;
      var one := Sint(1);
      var c := CmpMpi(X, pX);
      if c != 0 {
        Copy(pX, X);
        Lset(Vi, one);
        Lset(Vf, one);
        return Ok;
      }
      c := CmpInt(Vi, one);
      if c != 0 {
        MulMpi(Vi, Vi, Vi);
        var e := ModMpi(Vi, Vi, P);
        MulMpi(Vf, Vf, Vf);
        e := ModMpi(Vf, Vf, P);
        return Ok;
      }
      ret := FreshPair(draws);
    }

    /** The exponentiation of calc_secret on the (blinded) value GYb. */
    method RaiseToX(GYb: Mpi) returns (ret: Error)
      requires Separate() && CacheOk() && P.Int() > 1 && X.Int() >= 0
      requires GYb !in {P, X, K, RP} && |GYb.p| > 0 && GYb.Int() >= 0
      modifies K, RP
      ensures Separate() && CacheOk()
      ensures ret == if P.Int() % 2 == 0 then BadInputData else Ok
      ensures ret == Ok ==> Cong(K.Int(), Pow(GYb.Int(), X.Int()), P.Int()) && |K.p| > 0
      ensures ret == Ok ==> 0 <= K.Int() <= P.Int()
      ensures ret == Ok && GYb.s == 1 ==> K.Int() == Pow(GYb.Int(), X.Int()) % P.Int()
    {
      hide Pow, Val, Place, Cong, SignedPow;
      ret := ExpMod(K, GYb, X, P, RP);
      SignedPowSplit(1, GYb.Int(), X.Int());
      if ret == Ok && GYb.s == 1 {
        ModIs(K.Int(), Pow(GYb.Int(), X.Int()), P.Int());
      }
    }

    /** mbedtls_dhm_calc_secret with a generator: blind, raise, unblind. */
    method BlindedCalc(draws: seq<seq<limb>>) returns (ret: Error)
      requires Usable() && P.Int() > 1 && GY.Int() >= 0 && |draws| >= 12
      modifies K, Vi, Vf, pX, RP
      ensures Usable() && (old(Valid()) && ret == Ok ==> Valid())
      ensures ret == Ok ==> BlindStep(old(Memory()), Memory(), X.Int(), P.Int())
      ensures ret == Ok ==> K.Int() == BlindedSecret(GY.Int(), Memory(), X.Int(), P.Int())
      ensures old(Valid()) && ret == Ok && X.Int() > 0 ==> K.Int() == Pow(GY.Int(), X.Int()) % P.Int()
      ensures ret == if old(NoPair(draws)) then NotAcceptable else if P.Int() % 2 == 0 then BadInputData else Ok
      ensures ret == NotAcceptable ==> RefusedStep(old(Memory()), Memory(), X.Int())
      ensures ret == NotAcceptable ==> Vi.Int() == Drawn(draws, P.Int(), P.Int(), 0)
    {
      hide Pow, Val, Place, Cong, Cancels, Drawn, AllMissed, Gcd, NoPair, RefusedStep, BlindStep, GoodPair;
      ret := UpdateBlinding(draws);
      if ret != Ok {
        return;
      }
      ghost var b := Memory();
      ret := RaiseBlinded();
      if ret == Ok && old(Valid()) {
        StepKeepsPair(old(Memory()), b, X.Int(), P.Int());
        if X.Int() > 0 {
          GoodPairUnblinds(GY.Int(), b, X.Int(), P.Int());
        }
      }
    }

    /** Its three steps with the pair in the context. */
    method RaiseBlinded() returns (ret: Error)
      requires Usable() && P.Int() > 1 && GY.Int() >= 0
      modifies K, RP
      ensures Usable() && ret == if P.Int() % 2 == 0 then BadInputData else Ok
      ensures ret == Ok ==> K.Int() == BlindedSecret(GY.Int(), Memory(), X.Int(), P.Int())
    {
      hide Pow, Val, Place, Cong;
      MulPos(GY.Int(), Vi.Int());
      var GYb := new Mpi();
      MulMpi(GYb, GY, Vi);
      var e := ModMpi(GYb, GYb, P);
      ret := RaiseToX(GYb);
      if ret != Ok {
        return;
      }
      ReducedFactor(K.Int(), Pow(GYb.Int(), X.Int()), Vf.Int(), P.Int());
      MulMpi(K, K, Vf);
      e := ModMpi(K, K, P);
    }

    /** mbedtls_dhm_calc_secret up to the export of K: without a generator nothing is blinded. */
    method CalcSecret(outputSize: nat, useRng: bool, draws: seq<seq<limb>>) returns (ret: Error)
      requires Usable() && (useRng ==> |draws| >= 12)
      modifies K, Vi, Vf, pX, RP
      ensures Usable() && (old(Valid()) && ret == Ok ==> Valid())
      ensures ret ==
        if outputSize < len || !(2 <= GY.Int() <= P.Int() - 2) then BadInputData
        else if useRng && old(NoPair(draws)) then NotAcceptable
        else if P.Int() % 2 == 0 then BadInputData else Ok
      ensures ret == Ok && (!useRng || (old(Valid()) && X.Int() > 0)) ==> K.Int() == Pow(GY.Int(), X.Int()) % P.Int()
      ensures ret == Ok && useRng ==> BlindStep(old(Memory()), Memory(), X.Int(), P.Int())
      ensures ret == Ok && useRng ==> K.Int() == BlindedSecret(GY.Int(), Memory(), X.Int(), P.Int())
      ensures !useRng ==> Memory() == old(Memory())
      ensures ret == NotAcceptable ==> RefusedStep(old(Memory()), Memory(), X.Int())
      ensures ret == NotAcceptable ==> Vi.Int() == Drawn(draws, P.Int(), P.Int(), 0)
    {
      hide Pow, Val, Place, Cong, Cancels, Drawn, AllMissed, Gcd, NoPair, RefusedStep, BlindStep, BlindedSecret;
      if outputSize < len {
        return BadInputData;
      }
      ret := CheckRange(GY, P);
      if ret != Ok {
        return;
      }
      if useRng {
        ret := BlindedCalc(draws);
      } else {
        var GYb := new Mpi();
        NonzeroHasLimbs(GY.p);
        Copy(GYb, GY);
        ret := RaiseToX(GYb);
      }
    }

    /** The retry loop of make_public and make_params: X = random below P until 2 <= X <= P - 2. */
    method DrawX(draws: seq<seq<limb>>) returns (ret: Error)
      requires Separate() && P.Int() > 0 && |draws| >= 12
      modifies X
      ensures ret == if AllMissed(draws, P.Int(), P.Int() - 2) then NotAcceptable else Ok
      ensures X.Int() == Drawn(draws, P.Int(), P.Int() - 2, 0) && (ret == Ok ==> 2 <= X.Int() <= P.Int() - 2)
    {
      hide Pow, Val, Below;
      ghost var top := P.Int() - 2;
      var count := 0;
      while true
        invariant 0 <= count <= 11
        invariant forall i :: 0 <= i < count ==> !Good(draws, P.Int(), top, i)
        invariant Drawn(draws, P.Int(), top, count) == Drawn(draws, P.Int(), top, 0)
        decreases 11 - count
      {
        DrawBelow(X, P, draws[count]);
        if count > 10 {
          return NotAcceptable;
        }
        ret := CheckRange(X, P);
        if ret == Ok {
          assert Good(draws, P.Int(), top, count);
          return;
        }
        count := count + 1;
      }
    }

    /** mbedtls_dhm_make_public up to the export of GX. NotAcceptable stands for MAKE_PUBLIC_FAILED. */
    method MakePublic(olen: nat, draws: seq<seq<limb>>) returns (ret: Error)
      requires Valid() && |draws| >= 12 && |G.p| > 0 && G.Int() >= 0
      modifies X, GX, RP
      ensures Valid()
      ensures ret ==
        if olen < 1 || olen > len || P.Int() == 0 then BadInputData
        else if AllMissed(draws, P.Int(), P.Int() - 2) then NotAcceptable
        else if P.Int() % 2 == 0 then BadInputData
        else if 2 <= Pow(G.Int(), Drawn(draws, P.Int(), P.Int() - 2, 0)) % P.Int() <= P.Int() - 2 then Ok
        else BadInputData
      ensures ret == Ok ==> X.Int() == Drawn(draws, P.Int(), P.Int() - 2, 0) && 2 <= X.Int() <= P.Int() - 2
      ensures ret == Ok ==> 2 <= GX.Int() <= P.Int() - 2
      ensures ret == Ok ==> GX.Int() == Pow(G.Int(), X.Int()) % P.Int()
    {
      hide Pow, Val, Place, Cong, Cancels, SignedPow, AllMissed, Drawn;
      if olen < 1 || olen > len {
        return BadInputData;
      }
      PowPos(2, BIL - 1);
      var c := CmpInt(P, 0);
      if c == 0 {
        return BadInputData;
      }
      ret := DrawX(draws);
      if ret != Ok {
        return;
      }
      ret := ExpMod(GX, G, X, P, RP);
      if ret != Ok {
        return;
      }
      SignedPowSplit(1, G.Int(), X.Int());
      ret := PublicInRange();
    }

    /** The closing check of make_public. */
    method PublicInRange() returns (ret: Error)
      requires P.Int() > 1 && X.Int() >= 0 && G.Int() >= 0 && 0 <= GX.Int() <= P.Int()
      requires Cong(GX.Int(), Pow(G.Int(), X.Int()), P.Int())
      ensures ret == if 2 <= Pow(G.Int(), X.Int()) % P.Int() <= P.Int() - 2 then Ok else BadInputData
      ensures ret == Ok ==> GX.Int() == Pow(G.Int(), X.Int()) % P.Int()
    {
      hide Pow, Val, Cong;
      ghost var p, w := P.Int(), Pow(G.Int(), X.Int());
      if GX.Int() < p {
        ModIs(GX.Int(), w, p);
      } else {
        CongIffMod(p, w, p);
        DivModUnique(p, p, 1, 0);
      }
      ret := CheckRange(GX, P);
    }
  }

  /** Any representative of w gives the same residue once multiplied by vf. */
  lemma ReducedFactor(k: int, w: int, vf: int, p: int)
    requires p > 0 && Cong(k, w, p)
    ensures (k * vf) % p == ((w % p) * vf) % p
  {
    hide Cong;
    CongMod(w, p);
    CongTrans(k, w, w % p, p);
    CongRefl(vf, p);
    CongMul(k, w % p, vf, vf, p);
    CongIffMod(k * vf, (w % p) * vf, p);
  }

  // ---------------------------------------------------------------- a refused call and the one after it

  lemma {:induction false} DrawnUnseen(draws: seq<seq<limb>>, p: nat, top: int, i: nat)
    requires p > 0 && |draws| >= 12 && i <= 11 && AllMissed(draws, p, top)
    ensures Drawn(draws, p, top, i) == Below(Val(draws[11]), p)
    decreases 11 - i
  {
    hide Below, Val;
    if i < 11 {
      DrawnUnseen(draws, p, top, i + 1);
    }
  }

  /** Eleven zeros and one draw that is stored unseen. */
  function UselessDraws(last: limb): (draws: seq<seq<limb>>)
    ensures |draws| == 12
  {
    BaseBound();
    seq(12, i => [if i == 11 then last else 0])
  }

  lemma UselessAreMissed(last: limb, p: nat)
    requires last < p
    ensures AllMissed(UselessDraws(last), p, p) && Drawn(UselessDraws(last), p, p, 0) == last
  {
    hide Drawn;
    var draws := UselessDraws(last);
    forall i: nat | i < 12
      ensures Val(draws[i]) == if i == 11 then last else 0
    {
      ValOne(if i == 11 then last else 0);
    }
    hide Val;
    DrawnUnseen(draws, p, p, 0);
  }

  /** With X remembered and Vi = 1, useless draws refuse a call; the next one succeeds all the same, with the square of
      what was drawn last for a pair. */
  method CallAfterRefusal(c: Context, draws: seq<seq<limb>>) returns (refused: Error, next: Error)
    requires c.Usable() && 2 <= c.GY.Int() <= c.P.Int() - 2 && c.P.Int() % 2 == 1 && |draws| >= 12
    requires c.pX.Int() == c.X.Int() && c.Vi.Int() == 1
    requires AllMissed(draws, c.P.Int(), c.P.Int()) && Drawn(draws, c.P.Int(), c.P.Int(), 0) != 1
    modifies c.K, c.Vi, c.Vf, c.pX, c.RP
    ensures refused == NotAcceptable && next == Ok
    ensures
      var x, p, v, vf := c.X.Int(), c.P.Int(), Drawn(draws, c.P.Int(), c.P.Int(), 0), old(c.Vf.Int());
      c.K.Int() == BlindedSecret(c.GY.Int(), Blinding(x, (v * v) % p, (vf * vf) % p), x, p)
  {
    hide Pow, Val, Place, Cong, Cancels, Drawn, AllMissed, Gcd, BlindedSecret, GoodPair;
    refused := c.CalcSecret(c.len, true, draws);
    next := c.CalcSecret(c.len, true, draws);
  }

  /** P = 11, X = 2 and GY = 2 in a context that has not been used. */
  method ExampleContext() returns (c: Context)
    ensures fresh(c) && fresh(c.K) && fresh(c.Vi) && fresh(c.Vf) && fresh(c.pX) && fresh(c.RP)
    ensures c.Valid() && c.P.Int() == 11 && c.X.Int() == 2 && c.GY.Int() == 2 && c.pX.Int() == 0
  {
    hide Pow, Val, Place, Cancels, Cong;
    BaseBound();
    c := new Context();
    var p := new Mpi.OfLimb(1, 11);
    var g := new Mpi.OfLimb(1, 2);
    ValOne(11);
    ValOne(2);
    assert p.Int() == 11 && g.Int() == 2;
    c.SetGroup(p, g);
    SetTwo(c, g);
  }

  method SetTwo(c: Context, two: Mpi)
    requires c.Valid() && c.pX.Int() == 0 && two !in {c.X, c.GY, c.pX, c.P, c.RP, c.Vi, c.Vf} && two.Int() == 2
    modifies c.X, c.GY
    ensures c.Valid() && c.X.Int() == 2 && c.GY.Int() == 2
  {
    hide Pow, Val, Place, Cancels, Cong;
    Copy(c.X, two);
    Copy(c.GY, two);
  }

  /** A reachable wrong export. The first call remembers X without blinding and exports 4 = 2^2 mod 11. The second wants
      a pair and is refused, but stores its last draw as Vi. The third takes that Vi for a pair and succeeds: it exports 0
      after a last draw of 0, and 5 after a last draw of 3. */
  method WrongExportAfterRefusal(last: limb) returns (first: Error, second: Error, third: Error, k: Mpi)
    requires last == 0 || last == 3
    ensures first == Ok && second == NotAcceptable && third == Ok
    ensures k.Int() == if last == 0 then 0 else 5
    ensures Pow(2, 2) % 11 == 4
  {
    hide Val, Place, Cong, Cancels, Drawn, AllMissed, Gcd, UselessDraws, BlindedSecret, GoodPair, Pow;
    var c := ExampleContext();
    var draws := UselessDraws(last);
    UselessAreMissed(last, 11);
    ExampleExports();
    FirstCallTrivial(c.Memory(), 2, 11);
    first := c.CalcSecret(c.len, true, draws);
    second, third := CallAfterRefusal(c, draws);
    k := c.K;
  }

  lemma FirstCallTrivial(b: Blinding, x: nat, p: nat)
    requires p > 0 && b.px != x
    ensures forall b' :: BlindStep(b, b', x, p) ==> b' == Blinding(x, 1, 1)
  {
  }

  lemma ExampleExports()
    ensures BlindedSecret(2, Blinding(2, 0, 1), 2, 11) == 0 && BlindedSecret(2, Blinding(2, 9, 1), 2, 11) == 5
    ensures Pow(2, 2) % 11 == 4
  {
    assert Pow(2, 2) == 4 && Pow(0, 2) == 0 && Pow(7, 2) == 49 by {
      assert Pow(2, 1) == 2 && Pow(0, 1) == 0 && Pow(7, 1) == 7;
    }
  }
}
