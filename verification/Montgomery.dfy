/** Montgomery arithmetic: mpi_montg_init, mpi_montmul, mpi_montred. */
module Montgomery {
  import opened Numbers
  import opened Limbs
  import opened MpiCore
  import opened MpiArith
  import opened MpiDivision

  // ---------------------------------------------------------------- Newton's iteration

  /** x * y modulo 2^biL. */
  function MulWrap(x: limb, y: limb): (r: limb)
  {
    MulPos(x, y);
    SplitWide(x * y).0
  }

  lemma MulWrapCong(x: limb, y: limb)
    ensures Cong(MulWrap(x, y), x * y, BASE)
  {
    hide Cong;
    MulPos(x, y);
    var q: int := SplitWide(x * y).1;
    Negated(q, BASE);
    CongWith(MulWrap(x, y), x * y, BASE, -q);
  }

  lemma SubWrapCong(x: limb, y: limb)
    ensures Cong(SubWrap(x, y), x - y, BASE)
  {
    if x >= y {
      CongWith(x - y, x - y, BASE, 0);
    } else {
      CongWith(x + BASE - y, x - y, BASE, 1);
    }
  }

  lemma AddWrapCong(x: limb, y: limb)
    ensures Cong(AddWrap(x, y), x + y, BASE)
  {
    if x + y < BASE {
      CongWith(x + y, x + y, BASE, 0);
    } else {
      CongWith(x + y - BASE, x + y, BASE, -1);
    }
  }

  lemma CongDown(a: int, b: int, m: int, c: int, d: int)
    requires Cong(a, b, m) && m == c * d
    ensures Cong(a, b, d)
  {
    var k :| a == b + k * m;
    Assoc(k, c, d);
    CongWith(a, b, d, k * c);
  }

  /** For odd m the three-bit correction makes x an inverse modulo 16. */
  lemma InverseMod16(m: nat, h: nat, r: nat)
    requires m == 16 * h + r && r < 16 && r % 2 == 1
    ensures Cong(m * (m + 8 * (((r + 2) / 4) % 2)), 1, 16)
  {
    var bit := ((r + 2) / 4) % 2;
    var k: int :| r * (r + 8 * bit) == 1 + 16 * k by {
      if r == 1 { assert r * (r + 8 * bit) == 1 + 16 * 0; }
      else if r == 3 { assert r * (r + 8 * bit) == 1 + 16 * 2; }
      else if r == 5 { assert r * (r + 8 * bit) == 1 + 16 * 4; }
      else if r == 7 { assert r * (r + 8 * bit) == 1 + 16 * 3; }
      else if r == 9 { assert r * (r + 8 * bit) == 1 + 16 * 5; }
      else if r == 11 { assert r * (r + 8 * bit) == 1 + 16 * 13; }
      else if r == 13 { assert r * (r + 8 * bit) == 1 + 16 * 17; }
      else { assert r * (r + 8 * bit) == 1 + 16 * 14; }
    }
    Distr(m + 8 * bit, 16 * h, r);
    Distr(r, 16 * h, r + 8 * bit);
    Assoc(16, h, m + 8 * bit);
    Assoc(16, h, r);
    CongWith(m * (m + 8 * bit), 1, 16, h * (m + 8 * bit) + h * r + k);
  }

  /** Newton's step squares the error: if m x = 1 + k p then m x (2 - m x) = 1 - k^2 p^2. */
  lemma NewtonStep(m: int, x: int, p: int)
    requires Cong(m * x, 1, p)
    ensures Cong(m * (x * (2 - m * x)), 1, p * p)
  {
    var k :| m * x == 1 + k * p;
    Assoc(m, x, 2 - m * x);
    var e := k * p;
    assert (1 + e) * (2 - (1 + e)) == 1 - e * e;
    assert e * e == (k * k) * (p * p);
    CongWith(m * (x * (2 - m * x)), 1, p * p, -(k * k));
  }

  lemma BaseIsMultiple(e: nat)
    requires e <= BIL
    ensures BASE == Pow(2, BIL - e) * Pow(2, e)
  {
    PowAdd(2, BIL - e, e);
  }

  lemma Pow16()
    ensures Pow(2, 4) == 16
  {
    PowAdd(2, 2, 2);
    PowAdd(2, 1, 1);
  }

  /** The word the source starts from. */
  function NewtonStart(m0: limb): limb
  {
    BaseBound();
    var corr := ((AddWrap(m0, 2) / 4) % 2) * 8;
    AddWrap(m0, corr)
  }

  lemma NewtonStartInverse(m0: limb)
    requires m0 % 2 == 1
    ensures Cong(m0 * NewtonStart(m0), 1, 16)
  {
    hide Pow, Cong;
    BaseBound();
    Pow16();
    BaseIsMultiple(4);
    var c := Pow(2, BIL - 4);
    var h, r := m0 / 16, m0 % 16;
    LowBits(m0, c, h, r);
    var corr := ((AddWrap(m0, 2) / 4) % 2) * 8;
    InverseMod16(m0, h, r);
    AddWrapCong(m0, corr);
    CongRefl(m0, BASE);
    CongMul(m0, m0, AddWrap(m0, corr), m0 + corr, BASE);
    CongDown(m0 * AddWrap(m0, corr), m0 * (m0 + corr), BASE, c, 16);
    CongTrans(m0 * AddWrap(m0, corr), m0 * (m0 + corr), 1, 16);
  }

  /** Bit 2 of m0 + 2 depends on the low four bits of m0 only, wrapped or not. */
  lemma LowBits(m0: limb, c: nat, h: nat, r: nat)
    requires BASE == c * 16 && m0 == 16 * h + r && r < 16
    ensures (AddWrap(m0, 2) / 4) % 2 == ((r + 2) / 4) % 2
  {
    if m0 + 2 < BASE {
      BitTwo(m0 + 2, h, r);
    } else {
      BitTwo(m0 + 2 - BASE, h - c, r);
    }
  }

  lemma BitTwo(s: nat, h: int, r: nat)
    requires s == 16 * h + r + 2
    ensures (s / 4) % 2 == ((r + 2) / 4) % 2
  {
    assert s / 4 == 4 * h + (r + 2) / 4;
  }

  lemma NegInverse(m0: int, x: int, mm: int, b: int)
    requires Cong(m0 * x, 1, b) && Cong(mm, 0 - x, b)
    ensures Cong(m0 * mm, -1, b)
  {
    hide Cong;
    CongRefl(m0, b);
    CongMul(m0, m0, mm, 0 - x, b);
    CongRefl(0, b);
    CongAdd(0, 0, m0 * x, 1, b);
    assert m0 * (0 - x) == 0 - m0 * x;
    CongTrans(m0 * mm, 0 - m0 * x, -1, b);
  }

  /** The wrapped words of one step represent the unwrapped expression. */
  lemma StepCong(m0: int, x: int, y: int, z: int, x': int, b: int)
    requires Cong(y, m0 * x, b) && Cong(z, 2 - y, b) && Cong(x', x * z, b)
    ensures Cong(m0 * x', m0 * (x * (2 - m0 * x)), b)
  {
    hide Cong;
    CongRefl(2, b);
    CongAdd(2, 2, y, m0 * x, b);
    CongTrans(z, 2 - y, 2 - m0 * x, b);
    CongRefl(x, b);
    CongMul(x, x, z, 2 - m0 * x, b);
    CongTrans(x', x * z, x * (2 - m0 * x), b);
    CongRefl(m0, b);
    CongMul(m0, m0, x', x * (2 - m0 * x), b);
  }

  /** One Newton step in wrapping arithmetic. */
  lemma NewtonWrapped(m0: limb, x: limb, e: nat)
    requires 2 * e <= BIL && Cong(m0 * x, 1, Pow(2, e)) && 2 < BASE
    ensures Cong(m0 * MulWrap(x, SubWrap(2, MulWrap(m0, x))), 1, Pow(2, 2 * e))
  {
    hide Pow, Cong, MulWrap, SubWrap;
    var y := MulWrap(m0, x);
    var z := SubWrap(2, y);
    var x' := MulWrap(x, z);
    MulWrapCong(m0, x);
    SubWrapCong(2, y);
    MulWrapCong(x, z);
    StepCong(m0, x, y, z, x', BASE);
    BaseIsMultiple(2 * e);
    var target := m0 * (x * (2 - m0 * x));
    CongDown(m0 * x', target, BASE, Pow(2, BIL - 2 * e), Pow(2, 2 * e));
    NewtonStep(m0, x, Pow(2, e));
    PowAdd(2, e, e);
    CongTrans(m0 * x', target, 1, Pow(2, 2 * e));
  }

  /** mpi_montg_init: -N[0]^-1 modulo 2^biL. The loop halves biL down to 8. */
  method MontgInit(N: Mpi) returns (mm: limb)
    requires |N.p| > 0 && N.p[0] % 2 == 1
    ensures Cong(N.p[0] * mm, -1, BASE)
  {
    hide Pow, Cong, MulWrap, SubWrap, NewtonStart;
    BaseBound();
    var m0: limb := N.p[0];
    var x: limb := NewtonStart(m0);
    NewtonStartInverse(m0);
    Pow16();
    var i: nat := BIL;
    ghost var e: nat := 4;
    while i >= 8
      invariant (i, e) in Schedule(BIL)
      invariant Cong((m0 as int) * (x as int), 1, Pow(2, e))
      decreases i
    {
      NewtonWrapped(m0, x, e);
      x := MulWrap(x, SubWrap(2, MulWrap(m0, x)));
      i := i / 2;
      e := 2 * e;
    }
    mm := SubWrap(0, x);
    SubWrapCong(0, x);
    NegInverse(m0, x, mm, BASE);
  }

  /** The counter and the number of correct bits, pass by pass. */
  function Schedule(w: LimbBits): set<(nat, nat)>
  {
    if w == 32 then {(32, 4), (16, 8), (8, 16), (4, 32)}
    else {(64, 4), (32, 8), (16, 16), (8, 32), (4, 64)}
  }

  // ---------------------------------------------------------------- one row

  /** u1 is chosen to clear the lowest limb: d0 + u0 b0 + u1 n0 is a multiple of the base. */
  lemma RowClears(d0: int, u0: int, b0: int, n0: int, mm: int, w1: int, w2: int, u1: int, b: int)
    requires Cong(n0 * mm, -1, b)
    requires Cong(w1, u0 * b0, b) && Cong(w2, d0 + w1, b) && Cong(u1, w2 * mm, b)
    ensures Cong(d0 + u0 * b0 + u1 * n0, 0, b)
  {
    hide Cong;
    var v := d0 + u0 * b0;
    CongRefl(d0, b);
    CongAdd(d0, d0, w1, u0 * b0, b);
    CongTrans(w2, d0 + w1, v, b);
    CongRefl(mm, b);
    CongMul(w2, v, mm, mm, b);
    CongTrans(u1, w2 * mm, v * mm, b);
    CongRefl(n0, b);
    CongMul(u1, v * mm, n0, n0, b);
    CongRefl(v, b);
    CongMul(v, v, n0 * mm, -1, b);
    assert (v * mm) * n0 == v * (n0 * mm);
    CongTrans(u1 * n0, v * (n0 * mm), v * -1, b);
    CongAdd(v, v, u1 * n0, v * -1, b);
  }

  lemma ValCongLow(s: seq<limb>)
    requires |s| > 0
    ensures Cong(Val(s), s[0], BASE)
  {
    CongWith(Val(s), s[0], BASE, Val(s[1..]));
  }

  /** The same for whole vectors: the lowest limb of the row's sum is 0. */
  lemma RowSumClears(d: seq<limb>, bv: int, nv: int, b0: int, n0: int, u0: int, u1: int, v: nat, w: seq<limb>)
    requires |d| > 0 && |w| > 0 && Val(w) == v == Val(d) + u0 * bv + u1 * nv
    requires Cong(bv, b0, BASE) && Cong(nv, n0, BASE)
    requires Cong(d[0] + u0 * b0 + u1 * n0, 0, BASE)
    ensures w[0] == 0
  {
    hide Cong, Val;
    BaseBound();
    ValCongLow(d);
    ValCongLow(w);
    CongRefl(u0, BASE);
    CongRefl(u1, BASE);
    CongMul(u0, u0, bv, b0, BASE);
    CongMul(u1, u1, nv, n0, BASE);
    CongAdd(Val(d), d[0], u0 * bv, u0 * b0, BASE);
    CongAdd(Val(d) + u0 * bv, d[0] + u0 * b0, u1 * nv, u1 * n0, BASE);
    CongTrans(Val(w), d[0] + u0 * b0 + u1 * n0, 0, BASE);
    CongSym(Val(w), w[0], BASE);
    CongTrans(w[0], Val(w), 0, BASE);
    CongUnique(w[0], 0, BASE);
  }

  /** The running sum stays below N + B, so its limbs never leave the buffer. */
  lemma RowBound(t: nat, u0: nat, u1: nat, bv: nat, nv: nat, b: nat)
    requires t < nv + bv && u0 < b && u1 < b
    ensures t + u0 * bv < b * (nv + bv)
    ensures t + u0 * bv + u1 * nv < b * (nv + bv)
  {
    MulMono(u0, b - 1, bv);
    MulMono(u1, b - 1, nv);
    Distr(bv, b, 1);
    Distr(nv, b, 1);
    Distr(b, nv, bv);
    MulPos(u0, bv);
    MulPos(u1, nv);
  }

  /** Room for b * (N + B) from limb i of a buffer of 2(n + 1) limbs. */
  lemma RowRoom(nv: nat, bv: nat, n: nat, room: nat)
    requires nv < Place(n) && bv <= nv && n + 2 <= room
    ensures BASE * (nv + bv) <= Place(room)
    ensures nv + bv <= Place(n + 1)
  {
    hide Pow;
    BaseBound();
    PlaceFacts(n);
    PlaceFacts(n + 1);
    MulMono(2, BASE, Place(n));
    MulMono(nv + bv, Place(n + 1), BASE);
    PowMono(BASE, n + 2, room);
  }

  /** Writing limb i and a limb above every significant one leaves the tail's value alone. */
  lemma TailAfterWrites(p: seq<limb>, i: nat, u0: limb, k: nat)
    requires i + k + 1 < |p| && 0 < BASE
    requires Val(p[i + 1..]) < Place(k)
    ensures var q := p[i := u0][i + 1 + k := 0];
      q[..i] == p[..i] && q[i] == u0 && q[i + 1..] == p[i + 1..]
  {
    hide Pow, Val;
    ValSmallHigh(p[i + 1..], k);
    assert p[i + 1..][k] == p[i + 1 + k];
    assert p[i + 1 + k] == 0;
    assert p[i := u0][i + 1 + k := 0] == p[i := u0];
  }

  lemma DivideByBase(w: seq<limb>, v: nat, b: nat, bound: nat)
    requires |w| > 0 && w[0] == 0 && Val(w) == v && b == BASE && v < b * bound
    ensures BASE * Val(w[1..]) == v && Val(w[1..]) < bound
  {
    if Val(w[1..]) >= bound {
      MulMono(bound, Val(w[1..]), b);
    }
  }

  /** One pass of the outer loop: T = (T + u0 B + u1 N) / 2^biL on the buffer from limb i on. */
  method MontRow(A: Mpi, B: Mpi, N: Mpi, mm: limb, T: Mpi, i: nat, m: nat) returns (ghost u1: nat)
    requires T != A && T != B && T != N
    requires i < |N.p| <= |A.p| && |T.p| >= 2 * (|N.p| + 1)
    requires 0 < m <= |B.p| && m <= |N.p| && Val(B.p[..m]) == B.Mag() <= N.Mag()
    requires Cong(N.p[0] * mm, -1, BASE)
    requires Val(T.p[i..]) < N.Mag() + B.Mag()
    modifies T`p
    ensures |T.p| == old(|T.p|) && T.p[..i] == old(T.p[..i]) && T.p[i] == A.p[i]
    ensures BASE * Val(T.p[i + 1..]) == old(Val(T.p[i..])) + A.p[i] * B.Mag() + u1 * N.Mag()
    ensures Val(T.p[i + 1..]) < N.Mag() + B.Mag()
  {
    hide Pow, Val, Place, Cong, MulWrap, AddWrap;
    BaseBound();
    var n := |N.p|;
    ghost var bv, nv, d, low := B.Mag(), N.Mag(), T.p[i..], T.p[..i];
    var u0 := A.p[i];
    var w1 := MulWrap(u0, B.p[0]);
    var w2 := AddWrap(T.p[i], w1);
    var u := MulWrap(w2, mm);
    MulWrapCong(u0, B.p[0]);
    AddWrapCong(T.p[i], w1);
    MulWrapCong(w2, mm);
    RowClears(T.p[i], u0, B.p[0], N.p[0], mm, w1, w2, u, BASE);
    ValBound(N.p);
    RowBound(Val(d), u0, u, bv, nv, BASE);
    RowRoom(nv, bv, n, |T.p| - i);
    MulHlp(m, B.p, T, i, u0);
    assert N.p[..n] == N.p;
    MulHlp(n, N.p, T, i, u);
    ghost var v := Val(T.p[i..]);
    ValCongLow(B.p);
    ValCongLow(N.p);
    RowSumClears(d, bv, nv, B.p[0], N.p[0], u0, u, v, T.p[i..]);
    DivideByBase(T.p[i..], v, BASE, nv + bv);
    assert T.p[i..][1..] == T.p[i + 1..];
    TailAfterWrites(T.p, i, u0, n + 1);
    T.p := T.p[i := u0];
    T.p := T.p[i + n + 2 := 0];
    u1 := u;
  }

  /** The invariant of the outer loop, one row further. */
  lemma RowAccumulates(t: nat, t': nat, place: nat, b: nat, low: nat, a: nat, bv: nat, u: nat, u1: nat, nv: nat)
    requires t * place == low * bv + u * nv
    requires b * t' == t + a * bv + u1 * nv
    ensures t' * (b * place) == (low + a * place) * bv + (u + u1 * place) * nv
  {
    Assoc(t', b, place);
    Distr(place, t + a * bv, u1 * nv);
    Distr(place, t, a * bv);
    Distr(bv, low, a * place);
    Distr(nv, u, u1 * place);
    assert (a * bv) * place == (a * place) * bv;
    assert (u1 * nv) * place == (u1 * place) * nv;
  }

  /** All rows: the buffer from limb n on holds (A B + u N) / R, and below it lie A's limbs. */
  method MontRows(A: Mpi, B: Mpi, N: Mpi, mm: limb, T: Mpi) returns (ghost u: nat)
    requires T != A && T != B && T != N
    requires 0 < |N.p| <= |A.p| && |T.p| >= 2 * (|N.p| + 1) && |B.p| > 0
    requires B.Mag() <= N.Mag() && Cong(N.p[0] * mm, -1, BASE)
    requires T.Mag() == 0 && B.Mag() + N.Mag() > 0
    modifies T`p
    ensures |T.p| == old(|T.p|) && T.p[..|N.p|] == A.p[..|N.p|]
    ensures Val(T.p[|N.p|..]) * Place(|N.p|) == Val(A.p[..|N.p|]) * B.Mag() + u * N.Mag()
    ensures Val(T.p[|N.p|..]) < N.Mag() + B.Mag()
  {
    hide Pow, Val, Place, Cong;
    var n := |N.p|;
    var m := if |B.p| < n then |B.p| else n;
    ValBound(N.p);
    if m == n {
      ValSmallHigh(B.p, n);
    } else {
      assert B.p[..m] == B.p;
    }
    ghost var bv, nv := B.Mag(), N.Mag();
    var i := 0;
    u := 0;
    PlaceFacts(0);
    ValZeros(A.p[..0]);
    assert T.p[0..] == T.p;
    while i < n
      invariant 0 <= i <= n && |T.p| == old(|T.p|)
      invariant T.p[..i] == A.p[..i]
      invariant Val(T.p[i..]) * Place(i) == Val(A.p[..i]) * bv + u * nv
      invariant Val(T.p[i..]) < nv + bv
    {
      ghost var t := Val(T.p[i..]);
      ghost var u1 := MontRow(A, B, N, mm, T, i, m);
      ValSnoc(A.p, i);
      PlaceFacts(i);
      RowAccumulates(t, Val(T.p[i + 1..]), Place(i), BASE, Val(A.p[..i]), A.p[i], bv, u, u1, nv);
      MulPos(u1, Place(i));
      u := u + u1 * Place(i);
      assert T.p[..i + 1] == T.p[..i] + [T.p[i]];
      assert A.p[..i + 1] == A.p[..i] + [A.p[i]];
      i := i + 1;
    }
  }

  // ---------------------------------------------------------------- the product

  /** `memcpy( A->p, d, ( n + 1 ) * ciL )`: the tail of T, all of it that is significant. */
  lemma CopiedTail(a: seq<limb>, t: seq<limb>, n: nat)
    requires n + 1 <= |a| && 2 * n + 1 <= |t|
    requires Val(a) < Place(n) && Val(t[n..]) < Place(n + 1)
    ensures Val(t[n..2 * n + 1] + a[n + 1..]) == Val(t[n..])
  {
    hide Pow, Val;
    var r := t[n..2 * n + 1] + a[n + 1..];
    ValSmallHigh(a, n);
    ValSmallHigh(t[n..], n + 1);
    ValTrim(r, n + 1);
    assert r[..n + 1] == t[n..][..n + 1];
  }

  /** T.p is A's old limbs under the result t, so T - t does not run out of the buffer either. */
  lemma BalanceFits(t: seq<limb>, n: nat, v: nat)
    requires n <= |t| && Val(t[n..]) == v
    ensures v <= Val(t)
  {
    hide Pow, Val;
    ValSplit(t, n);
    PlaceFacts(n);
    MulMono(1, Place(n), v);
  }

  lemma FinalSubtract(t: nat, r: nat, a: nat, bv: nat, u: nat, nv: nat)
    requires t * r == a * bv + u * nv
    ensures Cong(t * r, a * bv, nv) && Cong((t - nv) * r, a * bv, nv)
  {
    CongWith(t * r, a * bv, nv, u);
    Distr(r, t, nv);
    Distr(nv, u, r);
    CongWith((t - nv) * r, a * bv, nv, u - r);
  }

  /** mpi_montmul: A = A * B / R mod N with R = 2^(biL n). B may be A. The source's own test admits
      a T half as long as the loops need, so callers owe a T of 2(n + 1) limbs. */
  method MontMul(A: Mpi, B: Mpi, N: Mpi, mm: limb, T: Mpi) returns (ret: Error)
    requires A != N && T != A && T != B && T != N
    requires |T.p| < |N.p| + 1 || |T.p| >= 2 * (|N.p| + 1)
    requires 0 < |N.p| < |A.p| && |B.p| > 0 && N.Mag() > 0
    requires A.Mag() < Place(|N.p|) && B.Mag() <= N.Mag()
    requires Cong(N.p[0] * mm, -1, BASE)
    modifies A`p, T`p
    ensures ret == if old(|T.p|) < |N.p| + 1 then BadInputData else Ok
    ensures |A.p| == old(|A.p|) && |T.p| == old(|T.p|)
    ensures ret == Ok ==> A.Mag() < N.Mag()
    ensures ret == Ok ==> Cong(A.Mag() * Place(|N.p|), old(A.Mag()) * old(B.Mag()), N.Mag())
    ensures ret != Ok ==> A.p == old(A.p)
  {
    hide Pow, Val, Place, Cong;
    if |T.p| < |N.p| + 1 {
      return BadInputData;
    }
    var n := |N.p|;
    T.p := Zeros(|T.p|);
    ValZeros(T.p);
    ghost var a, bv, nv := A.Mag(), B.Mag(), N.Mag();
    ValSmallHigh(A.p, n);
    ValBound(N.p);
    RowRoom(nv, bv, n, n + 2);
    ghost var u := MontRows(A, B, N, mm, T);
    ghost var t := Val(T.p[n..]);
    FinalSubtract(t, Place(n), a, bv, u, nv);
    CopiedTail(A.p, T.p, n);
    A.p := T.p[n..2 * n + 1] + A.p[n + 1..];
    assert N.p[..n] == N.p;
    var c := CmpAbs(A, N);
    if c >= 0 {
      SubHlp(n, N.p, A);
    } else {
      ValSmallHigh(A.p, n);
      BalanceFits(T.p, n, t);
      SubHlp(n, A.p, T);
    }
    return Ok;
  }

  /** mpi_montred: A = A / R mod N. */
  method MontRed(A: Mpi, N: Mpi, mm: limb, T: Mpi) returns (ret: Error)
    requires A != N && T != A && T != N
    requires |T.p| < |N.p| + 1 || |T.p| >= 2 * (|N.p| + 1)
    requires 0 < |N.p| < |A.p| && N.Mag() > 0
    requires A.Mag() < Place(|N.p|)
    requires Cong(N.p[0] * mm, -1, BASE)
    modifies A`p, T`p
    ensures ret == if old(|T.p|) < |N.p| + 1 then BadInputData else Ok
    ensures |A.p| == old(|A.p|) && |T.p| == old(|T.p|)
    ensures ret == Ok ==> A.Mag() < N.Mag()
    ensures ret == Ok ==> Cong(A.Mag() * Place(|N.p|), old(A.Mag()), N.Mag())
  {
    hide Pow, Val, Place, Cong;
    BaseBound();
    var U := new Mpi.OfLimb(1, 1);
    ValOne(1);
    ret := MontMul(A, U, N, mm, T);
  }
}
