/** mbedtls_mpi_exp_mod: sliding-window exponentiation in Montgomery form. */
module MpiExpMod {
  import opened Numbers
  import opened Limbs
  import opened MpiCore
  import opened MpiBits
  import opened MpiArith
  import opened MpiDivision
  import opened Montgomery

  // ---------------------------------------------------------------- the Montgomery domain

  lemma {:induction false} PowDistr(a: nat, b: nat, e: nat)
    ensures 0 <= a * b && Pow(a * b, e) == Pow(a, e) * Pow(b, e)
  {
    MulPos(a, b);
    if e > 0 {
      PowDistr(a, b, e - 1);
      Cross(a, b, Pow(a, e - 1), Pow(b, e - 1));
    }
  }

  lemma {:induction false} PowOfOne(e: nat)
    ensures Pow(1, e) == 1
  {
    if e > 0 {
      PowOfOne(e - 1);
    }
  }

  /** R = 2^(biL n) is invertible modulo an odd number. */
  lemma RadixInverse(n: nat, nv: nat) returns (inv: nat)
    requires nv % 2 == 1
    ensures Cong(Place(n) * inv, 1, nv)
  {
    var h := (nv + 1) / 2;
    var e := BIL * n;
    MulPos(BIL, n);
    inv := Pow(h, e);
    PlaceIsBits(n);
    PowDistr(2, h, e);
    CongWith(2 * h, 1, nv, 1);
    CongPow(2 * h, 1, e, nv);
    PowOfOne(e);
  }

  lemma CancelRadix(a: int, b: int, r: int, inv: int, nv: int)
    requires Cong(r * inv, 1, nv) && Cong(a * r, b * r, nv)
    ensures Cong(a, b, nv)
  {
    hide Cong;
    CongRefl(inv, nv);
    CongMul(a * r, b * r, inv, inv, nv);
    Assoc(a, r, inv);
    Assoc(b, r, inv);
    CongRefl(a, nv);
    CongRefl(b, nv);
    CongMul(a, a, r * inv, 1, nv);
    CongMul(b, b, r * inv, 1, nv);
    CongSym(a * (r * inv), a * 1, nv);
    CongTrans(a, (a * r) * inv, (b * r) * inv, nv);
    CongTrans(a, b * (r * inv), b, nv);
  }

  /** x stands for v: x = v R mod N. */
  ghost predicate Stands(x: int, v: int, r: int, nv: int)
  {
    Cong(x, v * r, nv)
  }

  lemma ProductStands(x: int, y: int, z: int, v: int, w: int, r: int, inv: int, nv: int)
    requires Cong(r * inv, 1, nv) && Stands(x, v, r, nv) && Stands(y, w, r, nv)
    requires Cong(z * r, x * y, nv)
    ensures Stands(z, v * w, r, nv)
  {
    hide Cong;
    CongMul(x, v * r, y, w * r, nv);
    assert (v * r) * (w * r) == ((v * w) * r) * r;
    CongTrans(z * r, x * y, ((v * w) * r) * r, nv);
    CancelRadix(z, (v * w) * r, r, inv, nv);
  }

  // ---------------------------------------------------------------- residues and steps

  /** The modulus, its word inverse and the scratch buffer are set up. */
  ghost predicate Ready(N: Mpi, mm: limb, T: Mpi)
    reads N, T
  {
    && N != T && 0 < |N.p| && N.Mag() % 2 == 1
    && Cong(N.p[0] * mm, -1, BASE)
    && |T.p| >= 2 * (|N.p| + 1)
  }

  /** W holds a^e in Montgomery form. */
  ghost predicate Holds(W: Mpi, N: Mpi, a: nat, e: nat)
    reads W, N
  {
    && |W.p| > |N.p| && W.Mag() < N.Mag()
    && Stands(W.Mag(), Pow(a, e), Place(|N.p|), N.Mag())
  }

  /** One Montgomery product adds the exponents. */
  method Step(X: Mpi, Y: Mpi, N: Mpi, mm: limb, T: Mpi, ghost a: nat, ghost e: nat, ghost f: nat)
    requires X != N && X != T && Y != T && Ready(N, mm, T)
    requires Holds(X, N, a, e) && Holds(Y, N, a, f)
    modifies X`p, T`p
    ensures Ready(N, mm, T) && Holds(X, N, a, e + f)
    ensures |X.p| == old(|X.p|)
  {
    hide Pow, Val, Place, Cong, Stands;
    ghost var x, y, nv, r := X.Mag(), Y.Mag(), N.Mag(), Place(|N.p|);
    ValBound(N.p);
    ghost var inv := RadixInverse(|N.p|, nv);
    var ret := MontMul(X, Y, N, mm, T);
    PowersStand(x, y, X.Mag(), a, e, f, r, inv, nv);
  }

  lemma PowersStand(x: int, y: int, z: int, a: nat, e: nat, f: nat, r: int, inv: int, nv: int)
    requires Cong(r * inv, 1, nv) && Stands(x, Pow(a, e), r, nv) && Stands(y, Pow(a, f), r, nv)
    requires Cong(z * r, x * y, nv)
    ensures Stands(z, Pow(a, e + f), r, nv)
  {
    hide Pow, Cong, Stands;
    PowAdd(a, e, f);
    ProductStands(x, y, z, Pow(a, e), Pow(a, f), r, inv, nv);
  }

  // ---------------------------------------------------------------- the table of odd-window powers

  /** tab[k] holds a^(j + k): the entries j .. of the source's array W. */
  ghost predicate Table(tab: seq<Mpi>, j: nat, N: Mpi, a: nat)
    reads tab, N
  {
    forall k :: 0 <= k < |tab| ==> Holds(tab[k], N, a, j + k)
  }

  lemma TableGrows(tab: seq<Mpi>, W: Mpi, j: nat, N: Mpi, a: nat)
    requires Table(tab, j, N, a) && Holds(W, N, a, j + |tab|)
    ensures Table(tab + [W], j, N, a)
  {
  }

  /** `W[j] = W[1]`, then wsize - 1 squarings. */
  method FirstEntry(W1: Mpi, wsize: nat, N: Mpi, mm: limb, T: Mpi, ghost a: nat) returns (Wj: Mpi)
    requires W1 != N && W1 != T && wsize > 1 && Ready(N, mm, T) && Holds(W1, N, a, 1)
    modifies T`p
    ensures fresh(Wj) && Ready(N, mm, T) && Holds(Wj, N, a, Pow(2, wsize - 1))
  {
    hide Pow, Val, Place, Cong, Stands;
    PowOne(2);
    Wj := new Mpi();
    Grow(Wj, |N.p| + 1);
    Copy(Wj, W1);
    var i := 0;
    while i < wsize - 1
      invariant 0 <= i <= wsize - 1 && Ready(N, mm, T) && Holds(Wj, N, a, Pow(2, i))
    {
      PowTwice(i);
      Step(Wj, Wj, N, mm, T, a, Pow(2, i), Pow(2, i));
      i := i + 1;
    }
  }

  /** W[1 << (wsize - 1)] is W[1] squared wsize - 1 times; every later entry is the one before times W[1]. */
  method BuildTable(W1: Mpi, wsize: nat, N: Mpi, mm: limb, T: Mpi, ghost a: nat) returns (tab: seq<Mpi>)
    requires W1 != N && W1 != T && N != T && wsize > 0 && Ready(N, mm, T) && Holds(W1, N, a, 1)
    modifies T`p
    ensures Ready(N, mm, T) && |tab| == Pow(2, wsize - 1) && Table(tab, Pow(2, wsize - 1), N, a)
    ensures forall k :: 0 <= k < |tab| ==> tab[k] == W1 || fresh(tab[k])
  {
    hide Pow, Ready, Holds;
    PowOne(2);
    if wsize == 1 {
      return [W1];
    }
    var j := Pow(2, wsize - 1);
    PowPos(2, wsize - 1);
    var Wj := FirstEntry(W1, wsize, N, mm, T, a);
    tab := [Wj];
    while j + |tab| < 2 * j
      invariant 1 <= |tab| <= j && Ready(N, mm, T) && Holds(W1, N, a, 1)
      invariant forall k :: 0 <= k < |tab| ==> fresh(tab[k]) && tab[k] != T
      invariant Table(tab, j, N, a)
    {
      assert Holds(tab[|tab| - 1], N, a, j + |tab| - 1);
      var W := NextEntry(tab[|tab| - 1], W1, N, mm, T, a, j + |tab| - 1);
      assert Table(tab, j, N, a);
      TableGrows(tab, W, j, N, a);
      tab := tab + [W];
    }
  }

  /** `grow( &W[i] ); copy( &W[i], &W[i - 1] ); montmul( &W[i], &W[1] )` */
  method NextEntry(Last: Mpi, W1: Mpi, N: Mpi, mm: limb, T: Mpi, ghost a: nat, ghost e: nat) returns (W: Mpi)
    requires Last != T && W1 != T && Ready(N, mm, T) && Holds(W1, N, a, 1) && Holds(Last, N, a, e)
    modifies T`p
    ensures fresh(W) && Ready(N, mm, T) && Holds(W, N, a, e + 1)
  {
    hide Pow, Val, Place, Cong, Stands;
    W := new Mpi();
    Grow(W, |N.p| + 1);
    Copy(W, Last);
    Step(W, W1, N, mm, T, a, e, 1);
  }

  // ---------------------------------------------------------------- the exponent, bit by bit

  /** The bits of the exponent already read: those from bit bs of limb nb upwards. */
  ghost function Prefix(p: seq<limb>, nb: nat, bs: nat): nat
    requires nb < |p| && bs <= BIL
  {
    PowPos(2, bs);
    MulPos(Val(p[nb + 1..]), Pow(2, BIL - bs));
    Val(p[nb + 1..]) * Pow(2, BIL - bs) + QuotRem(p[nb], Pow(2, bs)).0
  }

  lemma PrefixLimb(p: seq<limb>, nb: nat)
    requires nb < |p|
    ensures Prefix(p, nb, BIL) == Val(p[nb + 1..])
    ensures Prefix(p, nb, 0) == Val(p[nb..])
  {
    hide Pow, Val;
    PowPos(2, BIL);
    PowOne(2);
    DivModUnique(p[nb], Pow(2, BIL), 0, p[nb]);
    ValCons(p, nb);
  }

  /** Halving a divisor lets one more bit through. */
  lemma OneMoreBit(x: nat, d: nat)
    requires 0 < d
    ensures x / d == 2 * (x / (2 * d)) + (x / d) % 2
  {
    var q := QuotRem(x, d);
    DivModUnique(x, 2 * d, q.0 / 2, (q.0 % 2) * d + q.1) by {
      Distr(d, 2 * (q.0 / 2), q.0 % 2);
      Assoc(2, q.0 / 2, d);
      MulMono(q.0 % 2, 1, d);
    }
  }

  lemma PrefixStep(p: seq<limb>, nb: nat, bs: nat)
    requires nb < |p| && 0 < bs <= BIL
    ensures Pow(2, bs - 1) > 0
    ensures Prefix(p, nb, bs - 1) == 2 * Prefix(p, nb, bs) + (p[nb] / Pow(2, bs - 1)) % 2
  {
    hide Pow, Val;
    PowPos(2, bs - 1);
    PowTwice(bs - 1);
    PowTwice(BIL - bs);
    OneMoreBit(p[nb], Pow(2, bs - 1));
    Assoc(Val(p[nb + 1..]), 2, Pow(2, BIL - bs));
    Assoc(2, Val(p[nb + 1..]), Pow(2, BIL - bs));
  }

  /** `( E->p[nblimbs] >> bufsize ) & 1` */
  function BitOf(x: limb, k: nat): (b: nat)
    ensures b <= 1
  {
    PowPos(2, k);
    QuotRem(x, Pow(2, k)).0 % 2
  }

  /** How the bits read so far split: prefix = done * 2^nbits + pend, with the nbits pending bits
      held at the top of the window word. */
  ghost predicate Window(prefix: nat, done: nat, pend: nat, nbits: nat, wbits: nat, wsize: nat, state: nat)
  {
    && nbits < wsize
    && prefix == done * Pow(2, nbits) + pend && pend < Pow(2, nbits)
    && wbits == pend * Pow(2, wsize - nbits)
    && state <= 2
    && (state == 0 ==> prefix == 0 && done == 0)
    && (state == 2 <==> nbits > 0)
    && (nbits > 0 ==> Pow(2, nbits - 1) <= pend)
  }

  /** A bit joins the window. */
  lemma WindowGrows(prefix: nat, done: nat, pend: nat, nbits: nat, wbits: nat, wsize: nat, state: nat, ei: nat)
    requires Window(prefix, done, pend, nbits, wbits, wsize, state) && ei <= 1
    requires ei == 1 || state == 2
    ensures 2 * prefix + ei == done * Pow(2, nbits + 1) + (2 * pend + ei)
    ensures Pow(2, nbits) <= 2 * pend + ei < Pow(2, nbits + 1)
    ensures wbits + ei * Pow(2, wsize - (nbits + 1)) == (2 * pend + ei) * Pow(2, wsize - (nbits + 1))
  {
    hide Pow;
    PowTwice(nbits);
    PowTwice(wsize - nbits - 1);
    Assoc(done, 2, Pow(2, nbits));
    Assoc(2, done, Pow(2, nbits));
    Assoc(pend, 2, Pow(2, wsize - nbits - 1));
    Distr(Pow(2, wsize - nbits - 1), pend * 2, ei);
    if nbits > 0 {
      PowTwice(nbits - 1);
    } else {
      PowOne(2);
    }
  }

  /** `for( i = 0; i < k; i++ ) X = X * X`: the exponent is multiplied by 2^k. */
  method SquareTimes(X: Mpi, k: nat, N: Mpi, mm: limb, T: Mpi, ghost a: nat, ghost e: nat)
    requires X != N && X != T && N != T && Ready(N, mm, T) && Holds(X, N, a, e)
    modifies X`p, T`p
    ensures Ready(N, mm, T) && 0 <= e * Pow(2, k) && Holds(X, N, a, e * Pow(2, k))
    ensures |X.p| == old(|X.p|)
  {
    hide Pow, Holds, Ready;
    PowOne(2);
    ghost var f := e;
    var i := 0;
    while i < k
      invariant 0 <= i <= k && f == e * Pow(2, i)
      invariant Ready(N, mm, T) && Holds(X, N, a, f) && |X.p| == old(|X.p|)
    {
      Step(X, X, N, mm, T, a, f, f);
      PowTwice(i);
      Assoc(e, 2, Pow(2, i));
      Assoc(2, e, Pow(2, i));
      f := f + f;
      i := i + 1;
    }
  }

  /** A full window: wsize squarings, then the table entry the window names. */
  method FlushWindow(X: Mpi, tab: seq<Mpi>, wbits: nat, wsize: nat, N: Mpi, mm: limb, T: Mpi, ghost a: nat, ghost done: nat)
    requires X != N && X != T && N != T && X !in tab && T !in tab
    requires wsize > 0 && |tab| == Pow(2, wsize - 1) <= wbits < 2 * |tab|
    requires Ready(N, mm, T) && Holds(X, N, a, done) && Table(tab, |tab|, N, a)
    modifies X`p, T`p
    ensures Ready(N, mm, T) && Table(tab, |tab|, N, a)
    ensures 0 <= done * Pow(2, wsize) && Holds(X, N, a, done * Pow(2, wsize) + wbits)
    ensures |X.p| == old(|X.p|)
  {
    hide Pow, Holds, Ready;
    SquareTimes(X, wsize, N, mm, T, a, done);
    var W := tab[wbits - |tab|];
    assert Holds(W, N, a, |tab| + (wbits - |tab|));
    Step(X, W, N, mm, T, a, done * Pow(2, wsize), wbits);
  }

  lemma WindowShift(done: nat, prefix: nat, pend: nat, nbits: nat, wbits: nat, wsize: nat, state: nat)
    requires Window(prefix, done, pend, nbits, wbits, wsize, state) && state <= 1
    ensures Window(2 * prefix, 2 * done, 0, 0, 0, wsize, state)
  {
    PowOne(2);
  }

  lemma WindowEmpty(prefix: nat, wsize: nat, state: nat)
    requires wsize > 0 && state <= 1 && (state == 0 ==> prefix == 0)
    ensures Window(prefix, prefix, 0, 0, 0, wsize, state)
  {
    PowOne(2);
  }

  /** A bit that belongs to a window: it is added, and a window that is now full is flushed. */
  method AddToWindow(X: Mpi, tab: seq<Mpi>, ei: nat, nbits0: nat, wbits0: nat, wsize: nat, N: Mpi, mm: limb, T: Mpi,
                     ghost a: nat, ghost prefix: nat, ghost done0: nat, ghost pend0: nat, ghost state0: nat)
    returns (state: nat, nbits: nat, wbits: nat, ghost done: nat, ghost pend: nat)
    requires X != N && X != T && N != T && X !in tab && T !in tab
    requires wsize > 0 && |tab| == Pow(2, wsize - 1) && ei <= 1 && (ei == 1 || state0 == 2)
    requires Ready(N, mm, T) && Holds(X, N, a, done0) && Table(tab, |tab|, N, a)
    requires Window(prefix, done0, pend0, nbits0, wbits0, wsize, state0)
    modifies X`p, T`p
    ensures Ready(N, mm, T) && Holds(X, N, a, done) && Table(tab, |tab|, N, a)
    ensures |X.p| == old(|X.p|)
    ensures Window(2 * prefix + ei, done, pend, nbits, wbits, wsize, state)
  {
    hide Pow, Holds, Ready, Window;
    done := done0;
    WindowState(prefix, done, pend0, nbits0, wbits0, wsize, state0);
    WindowGrows(prefix, done, pend0, nbits0, wbits0, wsize, state0, ei);
    state := 2;
    nbits := nbits0 + 1;
    wbits := wbits0 + ei * Pow(2, wsize - nbits);
    pend := 2 * pend0 + ei;
    if nbits == wsize {
      PowOne(2);
      PowTwice(wsize - 1);
      FlushWindow(X, tab, wbits, wsize, N, mm, T, a, done);
      state := state - 1;
      nbits, wbits := 0, 0;
      done, pend := 2 * prefix + ei, 0;
      WindowEmpty(done, wsize, state);
    } else {
      WindowOpen(2 * prefix + ei, done, pend, nbits, wbits, wsize);
    }
  }

  /** What the loop does with one bit of the exponent: skip it, square for it, or add it to the window. */
  method AbsorbBit(X: Mpi, tab: seq<Mpi>, ei: nat, state0: nat, nbits0: nat, wbits0: nat, wsize: nat,
                   N: Mpi, mm: limb, T: Mpi, ghost a: nat, ghost prefix: nat, ghost done0: nat, ghost pend0: nat)
    returns (state: nat, nbits: nat, wbits: nat, ghost done: nat, ghost pend: nat)
    requires X != N && X != T && N != T && X !in tab && T !in tab
    requires wsize > 0 && |tab| == Pow(2, wsize - 1) && ei <= 1
    requires Ready(N, mm, T) && Holds(X, N, a, done0) && Table(tab, |tab|, N, a)
    requires Window(prefix, done0, pend0, nbits0, wbits0, wsize, state0)
    modifies X`p, T`p
    ensures Ready(N, mm, T) && Holds(X, N, a, done) && Table(tab, |tab|, N, a)
    ensures |X.p| == old(|X.p|)
    ensures Window(2 * prefix + ei, done, pend, nbits, wbits, wsize, state)
  {
    hide Pow, Holds, Ready, Window;
    WindowState(prefix, done0, pend0, nbits0, wbits0, wsize, state0);
    if ei == 0 && state0 <= 1 {
      WindowShift(done0, prefix, pend0, nbits0, wbits0, wsize, state0);
      WindowIdle(prefix, done0, pend0, nbits0, wbits0, wsize, state0);
      state, nbits, wbits, pend, done := state0, 0, 0, 0, 2 * done0;
      if state0 == 1 {
        Step(X, X, N, mm, T, a, done0, done0);
      }
    } else {
      state, nbits, wbits, done, pend :=
        AddToWindow(X, tab, ei, nbits0, wbits0, wsize, N, mm, T, a, prefix, done0, pend0, state0);
    }
  }

  /** The main loop of exp_mod: reads E from its top limb down, top bit first. */
  method MainLoop(X: Mpi, tab: seq<Mpi>, E: Mpi, wsize: nat, N: Mpi, mm: limb, T: Mpi, ghost a: nat)
    returns (nbits: nat, wbits: nat, ghost done: nat, ghost pend: nat, ghost state': nat)
    requires X != N && X != T && N != T && X !in tab && T !in tab && E != X && E != T
    requires wsize > 0 && |tab| == Pow(2, wsize - 1)
    requires Ready(N, mm, T) && Holds(X, N, a, 0) && Table(tab, |tab|, N, a)
    modifies X`p, T`p
    ensures Ready(N, mm, T) && Holds(X, N, a, done) && |X.p| == old(|X.p|)
    ensures Window(E.Mag(), done, pend, nbits, wbits, wsize, state')
  {
    hide Pow, Holds, Ready, Val, Window, Prefix, BitOf, Table;
    var nblimbs: nat, bufsize: nat, state: nat := |E.p|, 0, 0;
    nbits, wbits, done, pend := 0, 0, 0, 0;
    ghost var prefix: nat := 0;
    ValZeros(E.p[|E.p|..]);
    WindowEmpty(0, wsize, 0);
    while true
      invariant nblimbs <= |E.p| && bufsize <= BIL && (bufsize > 0 ==> nblimbs < |E.p|)
      invariant prefix == if bufsize > 0 then Prefix(E.p, nblimbs, bufsize) else Val(E.p[nblimbs..])
      invariant Window(prefix, done, pend, nbits, wbits, wsize, state)
      invariant Ready(N, mm, T) && Holds(X, N, a, done) && Table(tab, |tab|, N, a)
      invariant |X.p| == old(|X.p|)
      decreases nblimbs, bufsize
    {
      if bufsize == 0 {
        if nblimbs == 0 {
          break;
        }
        nblimbs := nblimbs - 1;
        bufsize := BIL;
        PrefixLimb(E.p, nblimbs);
      }
      PrefixStep(E.p, nblimbs, bufsize);
      PrefixLimb(E.p, nblimbs);
      bufsize := bufsize - 1;
      var ei := BitOf(E.p[nblimbs], bufsize);
      BitOfIs(E.p[nblimbs], bufsize);
      state, nbits, wbits, done, pend :=
        AbsorbBit(X, tab, ei, state, nbits, wbits, wsize, N, mm, T, a, prefix, done, pend);
      prefix := 2 * prefix + ei;
    }
    assert E.p[0..] == E.p;
    state' := state;
  }

  lemma BitOfIs(x: limb, k: nat)
    ensures Pow(2, k) > 0 && BitOf(x, k) == (x / Pow(2, k)) % 2
  {
    PowPos(2, k);
  }

  lemma WindowIdle(prefix: nat, done: nat, pend: nat, nbits: nat, wbits: nat, wsize: nat, state: nat)
    requires Window(prefix, done, pend, nbits, wbits, wsize, state) && state <= 1
    ensures nbits == 0 && wbits == 0 && pend == 0 && done == prefix && (state == 0 ==> done == 0)
  {
    PowOne(2);
  }

  lemma WindowState(prefix: nat, done: nat, pend: nat, nbits: nat, wbits: nat, wsize: nat, state: nat)
    requires Window(prefix, done, pend, nbits, wbits, wsize, state)
    ensures state <= 2 && nbits < wsize
  {
  }

  lemma WindowOpen(prefix: nat, done: nat, pend: nat, nbits: nat, wbits: nat, wsize: nat)
    requires 0 < nbits < wsize && prefix == done * Pow(2, nbits) + pend
    requires Pow(2, nbits - 1) <= pend < Pow(2, nbits) && wbits == pend * Pow(2, wsize - nbits)
    ensures Window(prefix, done, pend, nbits, wbits, wsize, 2)
  {
  }

  lemma ScaledQuot(x: nat, c: nat, d: nat)
    requires 0 < c && 0 < d
    ensures 0 < c * d && (x * c) / (c * d) == x / d
  {
    var q := QuotRem(x, d);
    MulPos(c, d);
    Distr(c, q.0 * d, q.1);
    assert (q.0 * d) * c == q.0 * (c * d);
    MulMono(q.1 + 1, d, c);
    Distr(c, q.1, 1);
    MulPos(q.1, c);
    DivModUnique(x * c, c * d, q.0, q.1 * c);
  }

  /** The window word, one shift later, shows the next pending bit just above the window. */
  lemma TailBit(done: nat, pend: nat, nbits: nat, wsize: nat, i: nat)
    requires i < nbits < wsize
    ensures Pow(2, nbits - i) > 0 && Pow(2, nbits - i - 1) > 0 && Pow(2, wsize) > 0
    ensures var bit := ((pend * Pow(2, wsize - nbits + i + 1)) / Pow(2, wsize)) % 2;
      done * Pow(2, i + 1) + pend / Pow(2, nbits - i - 1)
        == 2 * (done * Pow(2, i) + pend / Pow(2, nbits - i)) + bit
  {
    hide Pow;
    var d, c := Pow(2, nbits - i - 1), Pow(2, wsize - nbits + i + 1);
    PowPos(2, nbits - i - 1);
    PowPos(2, nbits - i);
    PowPos(2, wsize - nbits + i + 1);
    PowAdd(2, wsize - nbits + i + 1, nbits - i - 1);
    PowTwice(nbits - i - 1);
    PowTwice(i);
    ScaledQuot(pend, c, d);
    OneMoreBit(pend, d);
    Assoc(done, 2, Pow(2, i));
    Assoc(2, done, Pow(2, i));
  }

  ghost function TailExponent(done: nat, pend: nat, nbits: nat, i: nat): nat
    requires i <= nbits
  {
    PowPos(2, nbits - i);
    MulPos(done, Pow(2, i));
    done * Pow(2, i) + QuotRem(pend, Pow(2, nbits - i)).0
  }

  lemma TailEnds(done: nat, pend: nat, nbits: nat)
    requires pend < Pow(2, nbits)
    ensures TailExponent(done, pend, nbits, 0) == done
    ensures TailExponent(done, pend, nbits, nbits) == done * Pow(2, nbits) + pend
  {
    PowOne(2);
    PowPos(2, nbits);
    DivModUnique(pend, Pow(2, nbits), 0, pend);
  }

  lemma TailNext(done: nat, pend: nat, nbits: nat, wsize: nat, wbits: nat, i: nat)
    requires i < nbits < wsize && wbits == pend * Pow(2, wsize - nbits + i)
    ensures 2 * wbits == pend * Pow(2, wsize - nbits + i + 1) && Pow(2, wsize) > 0
    ensures TailExponent(done, pend, nbits, i + 1)
         == 2 * TailExponent(done, pend, nbits, i) + ((2 * wbits) / Pow(2, wsize)) % 2
  {
    hide Pow;
    PowTwice(wsize - nbits + i);
    Assoc(pend, 2, Pow(2, wsize - nbits + i));
    TailBit(done, pend, nbits, wsize, i);
  }

  /** "process the remaining bits": a window cut short is finished bit by bit. */
  method Tail(X: Mpi, W1: Mpi, nbits: nat, wbits0: nat, wsize: nat, N: Mpi, mm: limb, T: Mpi,
              ghost a: nat, ghost done: nat, ghost pend: nat)
    requires X != N && X != T && N != T && W1 != X && W1 != T
    requires nbits < wsize && pend < Pow(2, nbits) && wbits0 == pend * Pow(2, wsize - nbits)
    requires Ready(N, mm, T) && Holds(X, N, a, done) && Holds(W1, N, a, 1)
    modifies X`p, T`p
    ensures Ready(N, mm, T) && |X.p| == old(|X.p|)
    ensures 0 <= done * Pow(2, nbits) && Holds(X, N, a, done * Pow(2, nbits) + pend)
  {
    hide Pow, Holds, Ready, TailExponent;
    TailEnds(done, pend, nbits);
    MulPos(done, Pow(2, nbits));
    var wbits := wbits0;
    var i: nat := 0;
    while i < nbits
      invariant i <= nbits && |X.p| == old(|X.p|) && wbits == pend * Pow(2, wsize - nbits + i)
      invariant Ready(N, mm, T) && Holds(W1, N, a, 1)
      invariant Holds(X, N, a, TailExponent(done, pend, nbits, i))
    {
      ghost var e := TailExponent(done, pend, nbits, i);
      Step(X, X, N, mm, T, a, e, e);
      TailNext(done, pend, nbits, wsize, wbits, i);
      wbits := 2 * wbits;
      if (wbits / Pow(2, wsize)) % 2 != 0 {
        Step(X, W1, N, mm, T, a, 2 * e, 1);
      }
      i := i + 1;
    }
  }

  // ---------------------------------------------------------------- the routine

  /** MBEDTLS_MPI_WINDOW_SIZE, configurable from 1 to 6. */
  type WindowSize = w: nat | 1 <= w <= 6 witness 6
  const MPI_WINDOW_SIZE: WindowSize

  function WindowFor(bits: nat): (wsize: nat)
    ensures 1 <= wsize <= 6
  {
    var w := if bits > 671 then 6 else if bits > 239 then 5 else if bits > 79 then 4 else if bits > 23 then 3 else 1;
    if w > MPI_WINDOW_SIZE then MPI_WINDOW_SIZE else w
  }

  /** R^2 mod N, what the source computes when no cached value is handed in. */
  method RadixSquared(N: Mpi) returns (RR: Mpi)
    requires N.Int() > 0
    ensures fresh(RR) && |RR.p| > 0
    ensures RR.Int() == (Place(|N.p|) * Place(|N.p|)) % N.Int()
  {
    hide Pow, Val, Place;
    PowPos(2, BIL - 1);
    BaseBound();
    RR := new Mpi();
    OneIsSint();
    Lset(RR, 1);
    ShiftL(RR, |N.p| * 2 * BIL);
    PlaceIsBits(|N.p|);
    PowAdd(2, BIL * |N.p|, BIL * |N.p|);
    var e := ModMpi(RR, RR, N);
  }

  lemma OneIsSint()
    ensures 1 < Pow(2, BIL - 1)
  {
    BaseBound();
  }

  /** R^2 times x, reduced once, is x in Montgomery form. */
  lemma EntersDomain(z: int, x: int, rr: int, v: int, r: int, inv: int, nv: int)
    requires Cong(r * inv, 1, nv) && Cong(rr, r * r, nv) && Cong(x, v, nv)
    requires Cong(z * r, x * rr, nv)
    ensures Stands(z, v, r, nv)
  {
    hide Cong;
    CongMul(x, v, rr, r * r, nv);
    Assoc(v, r, r);
    CongTrans(z * r, x * rr, (v * r) * r, nv);
    CancelRadix(z, v * r, r, inv, nv);
  }

  /** Below N a reduction by R takes a value out of Montgomery form. */
  lemma LeavesDomain(z: int, x: int, v: int, r: int, inv: int, nv: int)
    requires Cong(r * inv, 1, nv) && Stands(x, v, r, nv) && Cong(z * r, x, nv)
    requires 0 <= z < nv
    ensures z == v % nv
  {
    hide Cong;
    CongTrans(z * r, x, v * r, nv);
    CancelRadix(z, v, r, inv, nv);
    ModIs(z, v, nv);
  }

  /** `W[1] = A * R mod N` */
  method EnterBase(W1: Mpi, A: Mpi, RR: Mpi, N: Mpi, mm: limb, T: Mpi)
    requires W1 != A && W1 != RR && W1 != N && W1 != T && T != A && T != RR && N.s == 1
    requires Ready(N, mm, T) && W1.p == [] && A.s == 1 && |A.p| > 0 && |RR.p| > 0
    requires RR.Int() == (Place(|N.p|) * Place(|N.p|)) % N.Mag()
    modifies W1, T`p
    ensures Ready(N, mm, T) && Holds(W1, N, A.Mag(), 1)
  {
    hide Pow, Val, Place, Cong, Stands;
    ghost var nv, r, a := N.Mag(), Place(|N.p|), A.Mag();
    Grow(W1, |N.p| + 1);
    CongRefl(a, nv);
    var c := CmpMpi(A, N);
    if c >= 0 {
      var e := ModMpi(W1, A, N);
      CongMod(a, nv);
    } else {
      Copy(W1, A);
    }
    IntIsMag(W1);
    IntIsMag(RR);
    ValBound(N.p);
    CongMod(r * r, nv);
    ghost var inv := RadixInverse(|N.p|, nv);
    ghost var x := W1.Mag();
    var e := MontMul(W1, RR, N, mm, T);
    EntersDomain(W1.Mag(), x, RR.Mag(), a, r, inv, nv);
    PowOne(a);
  }

  /** `X = R mod N` */
  method EnterOne(X: Mpi, RR: Mpi, N: Mpi, mm: limb, T: Mpi, ghost a: nat)
    requires X != RR && X != N && X != T && T != RR && N.s == 1
    requires Ready(N, mm, T) && |X.p| > |N.p| && |RR.p| > 0
    requires RR.Int() == (Place(|N.p|) * Place(|N.p|)) % N.Mag()
    modifies X, T`p
    ensures Ready(N, mm, T) && Holds(X, N, a, 0) && X.s == RR.s && |X.p| >= old(|X.p|)
  {
    hide Pow, Val, Place, Cong, Stands;
    ghost var nv, r := N.Mag(), Place(|N.p|);
    Copy(X, RR);
    IntIsMag(RR);
    ValBound(N.p);
    CongMod(r * r, nv);
    ghost var inv := RadixInverse(|N.p|, nv);
    var e := MontRed(X, N, mm, T);
    CongRefl(1, nv);
    EntersDomain(X.Mag(), 1, RR.Mag(), 1, r, inv, nv);
    PowOne(a);
  }

  /** A residue that is negative zero can only be that of N = 1. */
  lemma ResidueSign(RR: Mpi, x: nat, r: int, inv: int, nv: nat)
    requires nv > 0 && RR.Int() == (r * r) % nv && Cong(r * inv, 1, nv) && x < nv
    ensures Signed(RR.s, x) == x
  {
    hide Cong;
    if RR.s != 1 && x > 0 {
      assert RR.Int() == 0;
      CongMod(r * r, nv);
      CongMul(r * inv, 1, r * inv, 1, nv);
      Cross(r, inv, r, inv);
      CongRefl(inv * inv, nv);
      CongMul(0, r * r, inv * inv, inv * inv, nv);
      CongTrans(0, (r * r) * (inv * inv), 1, nv);
      CongUnique(0, 1, nv);
    }
  }

  /** The table, the main loop and the left-over bits: X becomes a^E in Montgomery form. */
  method Windows(X: Mpi, W1: Mpi, E: Mpi, N: Mpi, mm: limb, T: Mpi, wsize: nat, ghost a: nat)
    requires X != N && X != T && X != E && X != W1 && N != T && W1 != T && W1 != N && E != T && wsize > 0
    requires Ready(N, mm, T) && Holds(X, N, a, 0) && Holds(W1, N, a, 1)
    modifies X`p, T`p
    ensures Ready(N, mm, T) && Holds(X, N, a, E.Mag()) && |X.p| == old(|X.p|)
  {
    hide Pow, Val, Ready, Holds, Table, Window;
    var tab := BuildTable(W1, wsize, N, mm, T, a);
    var nbits, wbits; ghost var done, pend, state;
    nbits, wbits, done, pend, state := MainLoop(X, tab, E, wsize, N, mm, T, a);
    WindowParts(E.Mag(), done, pend, nbits, wbits, wsize, state);
    Tail(X, W1, nbits, wbits, wsize, N, mm, T, a, done, pend);
  }

  /** The closing reduction: `X = A^E * R * R^-1 mod N`. */
  method Leave(X: Mpi, N: Mpi, mm: limb, T: Mpi, ghost a: nat, ghost e: nat, RR: Mpi)
    requires X != N && X != T && X != RR && T != RR && N != T && N.s == 1
    requires Ready(N, mm, T) && Holds(X, N, a, e) && X.s == RR.s
    requires RR.Int() == (Place(|N.p|) * Place(|N.p|)) % N.Mag()
    modifies X`p, T`p
    ensures X.Int() == X.Mag() == Pow(a, e) % N.Mag() && |X.p| == old(|X.p|)
  {
    hide Pow, Val, Place, Cong, Stands;
    ghost var nv, r, x := N.Mag(), Place(|N.p|), X.Mag();
    ghost var inv := RadixInverse(|N.p|, nv);
    ValBound(N.p);
    var ret := MontRed(X, N, mm, T);
    LeavesDomain(X.Mag(), x, Pow(a, e), r, inv, nv);
    ResidueSign(RR, X.Mag(), r, inv, nv);
  }

  /** exp_mod for a non-negative base, from the table on. X may be A. */
  method Power(X: Mpi, A: Mpi, E: Mpi, N: Mpi, RR: Mpi)
    requires X != E && X != N && X != RR && RR != A && RR != E && RR != N
    requires N.Int() > 0 && |N.p| > 0 && N.Mag() % 2 == 1 && A.s == 1 && |A.p| > 0 && |X.p| > |N.p| && |RR.p| > 0
    requires RR.Int() == (Place(|N.p|) * Place(|N.p|)) % N.Mag()
    modifies X
    ensures X.Int() == X.Mag() == Pow(old(A.Mag()), E.Mag()) % N.Mag()
    ensures |X.p| > |N.p|
  {
    hide Pow, Val, Place, Cong, Holds;
    ghost var a := A.Mag();
    ValParity(N.p);
    var mm := MontgInit(N);
    var bits := Bitlen(E);
    var wsize := WindowFor(bits);
    var W1 := new Mpi();
    var T := new Mpi();
    Grow(T, (|N.p| + 1) * 2);
    EnterBase(W1, A, RR, N, mm, T);
    EnterOne(X, RR, N, mm, T, a);
    Windows(X, W1, E, N, mm, T, wsize, a);
    Leave(X, N, mm, T, a, E.Mag(), RR);
  }

  lemma WindowParts(prefix: nat, done: nat, pend: nat, nbits: nat, wbits: nat, wsize: nat, state: nat)
    requires Window(prefix, done, pend, nbits, wbits, wsize, state)
    ensures nbits < wsize && pend < Pow(2, nbits) && wbits == pend * Pow(2, wsize - nbits)
    ensures done * Pow(2, nbits) + pend == prefix
  {
  }

  /** Exponentiation of a signed base. */
  function SignedPow(a: int, e: nat): int
  {
    if e == 0 then 1 else a * SignedPow(a, e - 1)
  }

  lemma {:induction false} SignedPowSplit(s: sign, a: nat, e: nat)
    ensures SignedPow(Signed(s, a), e) == if s == 1 || e % 2 == 0 then Pow(a, e) else -(Pow(a, e) as int)
  {
    if e > 0 {
      SignedPowSplit(s, a, e - 1);
    }
  }

  /** The correction for a negative base: N - x stands for -x, and is N itself when x is 0. */
  lemma NegatedResidue(x: int, p: int, nv: int)
    requires 0 < nv && x == p % nv
    ensures Cong(nv - x, 0 - p, nv)
    ensures 0 < nv - x <= nv && (nv - x == nv <==> p % nv == 0)
  {
    hide Cong;
    CongMod(p, nv);
    CongWith(nv, 0, nv, 1);
    CongAdd(nv, 0, x, p, nv);
  }

  /** "If 1st call, pre-compute R^2 mod N": RR shares the limbs of the cache. */
  method UseCache(N: Mpi, Cache: Mpi?) returns (RR: Mpi)
    requires N.Int() > 0 && Cache != N
    requires Cache != null && |Cache.p| > 0 ==> Cache.Int() == (Place(|N.p|) * Place(|N.p|)) % N.Int()
    modifies Cache
    ensures fresh(RR) && |RR.p| > 0 && RR.Int() == (Place(|N.p|) * Place(|N.p|)) % N.Int()
    ensures Cache != null ==> Cache.s == RR.s && Cache.p == RR.p
  {
    hide Pow, Val, Place;
    if Cache == null || |Cache.p| == 0 {
      RR := RadixSquared(N);
      if Cache != null {
        Cache.s, Cache.p := RR.s, RR.p;
      }
    } else {
      RR := new Mpi();
      RR.s, RR.p := Cache.s, Cache.p;
    }
  }

  /** exp_mod once its arguments have been accepted. */
  method ExpModValid(X: Mpi, A: Mpi, E: Mpi, N: Mpi, Cache: Mpi?)
    requires X != E && X != N && X != Cache && Cache != A && Cache != E && Cache != N
    requires |A.p| > 0 && N.Int() > 0 && N.Mag() % 2 == 1 && E.Int() >= 0
    requires Cache != null && |Cache.p| > 0 ==> Cache.Int() == (Place(|N.p|) * Place(|N.p|)) % N.Int()
    modifies X, Cache
    ensures Cong(X.Int(), SignedPow(old(A.Int()), E.Int()), N.Int())
    ensures 0 <= X.Int() <= N.Int() && |X.p| > 0
    ensures X.Int() == N.Int() <==>
      old(A.s) == -1 && E.Int() % 2 == 1 && SignedPow(old(A.Int()), E.Int()) % N.Int() == 0
    ensures Cache != null ==> |Cache.p| > 0 && Cache.Int() == (Place(|N.p|) * Place(|N.p|)) % N.Int()
  {
    hide Pow, Val, Place, Cong, SignedPow;
    IntIsMag(E);
    NonzeroHasLimbs(N.p);
    ghost var a, s := A.Mag(), A.s;
    Grow(X, |N.p| + 1);
    var neg := A.s == -1;
    var Base := A;
    if neg {
      Base := new Mpi();
      Copy(Base, A);
      Base.s := 1;
    }
    var RR := UseCache(N, Cache);
    Power(X, Base, E, N, RR);
    SignedPowSplit(s, a, E.Mag());
    CorrectSign(X, E, N, neg, Pow(a, E.Mag()), SignedPow(Signed(s, a), E.Mag()));
  }

  /** mbedtls_mpi_exp_mod. Cache is the source's _RR: given with limbs, it must hold R^2 mod N;
      without limbs it receives it. An A without limbs is outside the contract: the source would
      copy it over W[1], losing the room just reserved, and read through a null pointer. */
  method ExpMod(X: Mpi, A: Mpi, E: Mpi, N: Mpi, Cache: Mpi?) returns (ret: Error)
    requires X != E && X != N && X != Cache && Cache != A && Cache != E && Cache != N
    requires |A.p| > 0
    requires Cache != null && |Cache.p| > 0 && N.Int() > 0 ==>
      Cache.Int() == (Place(|N.p|) * Place(|N.p|)) % N.Int()
    modifies X, Cache
    ensures ret == if N.Int() <= 0 || N.Mag() % 2 == 0 || E.Int() < 0 then BadInputData else Ok
    ensures ret != Ok ==> X.s == old(X.s) && X.p == old(X.p)
    ensures ret != Ok && Cache != null ==> Cache.s == old(Cache.s) && Cache.p == old(Cache.p)
    ensures ret == Ok ==> Cong(X.Int(), SignedPow(old(A.Int()), E.Int()), N.Int())
    ensures ret == Ok ==> 0 <= X.Int() <= N.Int() && |X.p| > 0
    ensures ret == Ok ==> (X.Int() == N.Int() <==>
      old(A.s) == -1 && E.Int() % 2 == 1 && SignedPow(old(A.Int()), E.Int()) % N.Int() == 0)
    ensures ret == Ok && Cache != null ==> |Cache.p| > 0 && Cache.Int() == (Place(|N.p|) * Place(|N.p|)) % N.Int()
  {
    hide Pow, Val, Place, Cong, SignedPow;
    PowPos(2, BIL - 1);
    var c := CmpInt(N, 0);
    if c > 0 {
      NonzeroHasLimbs(N.p);
      ValParity(N.p);
    }
    if c <= 0 || N.p[0] % 2 == 0 {
      return BadInputData;
    }
    c := CmpInt(E, 0);
    if c < 0 {
      return BadInputData;
    }
    ExpModValid(X, A, E, N, Cache);
    return Ok;
  }

  /** "Compensate for negative A": the last step of exp_mod. */
  method CorrectSign(X: Mpi, E: Mpi, N: Mpi, neg: bool, ghost p: nat, ghost sp: int)
    requires X != E && X != N && N.Int() > 0 && |X.p| > 0 && E.Int() >= 0
    requires X.Int() == X.Mag() == p % N.Int()
    requires sp == if neg && E.Int() % 2 == 1 then 0 - p else p
    modifies X
    ensures Cong(X.Int(), sp, N.Int()) && 0 <= X.Int() <= N.Int() && |X.p| > 0
    ensures X.Int() == N.Int() <==> neg && E.Int() % 2 == 1 && sp % N.Int() == 0
  {
    hide Pow, Val, Cong;
    ghost var nv := N.Int();
    CongMod(p, nv);
    IntIsMag(E);
    NonzeroHasLimbs(N.p);
    NonzeroHasLimbs(E.p);
    if |E.p| != 0 {
      ValParity(E.p);
    }
    if neg && |E.p| != 0 && E.p[0] % 2 != 0 {
      NegatedResidue(X.Mag(), p, nv);
      NegZero(p, nv);
      X.s := -1;
      AddMpi(X, N, X);
    }
  }

  lemma NegZero(p: int, m: int)
    requires 0 < m
    ensures (0 - p) % m == 0 <==> p % m == 0
  {
    hide Cong;
    CongIffMod(p, 0, m);
    CongIffMod(0 - p, 0, m);
    CongRefl(0, m);
    if Cong(p, 0, m) {
      CongAdd(0, 0, p, 0, m);
    }
    if Cong(0 - p, 0, m) {
      CongAdd(0, 0, 0 - p, 0, m);
    }
    SmallModZero(m);
  }

  lemma SmallModZero(m: int)
    requires 0 < m
    ensures 0 % m == 0
  {
    DivModUnique(0, m, 0, 0);
  }
}
