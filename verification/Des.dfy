/** DES and 3DES: permutations, sixteen rounds on two words a round, and reversed subkeys. */
module DesCipher {
  import opened Blocks
  import opened Words32

  // ---------------------------------------------------------------- the bit permutations

  /** `T = ((X >> s) ^ Y) & m; Y ^= T; X ^= (T << s)`: an exchange of bit groups between the words. */
  function Exchange4(p: Pair): Pair
  {
    var t := ((p.l >> 4) ^ p.r) & 0x0F0F0F0F;
    Pair(p.l ^ (t << 4), p.r ^ t)
  }

  function Exchange16(p: Pair): Pair
  {
    var t := ((p.l >> 16) ^ p.r) & 0x0000FFFF;
    Pair(p.l ^ (t << 16), p.r ^ t)
  }

  function Exchange2(p: Pair): Pair
  {
    var t := ((p.r >> 2) ^ p.l) & 0x33333333;
    Pair(p.l ^ t, p.r ^ (t << 2))
  }

  function Exchange8(p: Pair): Pair
  {
    var t := ((p.r >> 8) ^ p.l) & 0x00FF00FF;
    Pair(p.l ^ t, p.r ^ (t << 8))
  }

  function ExchangeOdd(p: Pair): Pair
  {
    var t := (p.l ^ p.r) & 0xAAAAAAAA;
    Pair(p.l ^ t, p.r ^ t)
  }

  function Rotl(x: bv32): bv32
  {
    (x << 1) | (x >> 31)
  }

  function Rotr(x: bv32): bv32
  {
    (x << 31) | (x >> 1)
  }

  /** DES_IP. */
  function Ip(p: Pair): Pair
  {
    var q := Exchange8(Exchange2(Exchange16(Exchange4(p))));
    var u := ExchangeOdd(Pair(q.l, Rotl(q.r)));
    Pair(Rotl(u.l), u.r)
  }

  /** DES_FP. */
  function Fp(p: Pair): Pair
  {
    var u := ExchangeOdd(Pair(Rotr(p.l), p.r));
    Exchange4(Exchange16(Exchange2(Exchange8(Pair(u.l, Rotr(u.r))))))
  }

  lemma Exchange4Twice(p: Pair)
    ensures Exchange4(Exchange4(p)) == p
  {
  }

  lemma Exchange16Twice(p: Pair)
    ensures Exchange16(Exchange16(p)) == p
  {
  }

  lemma Exchange2Twice(p: Pair)
    ensures Exchange2(Exchange2(p)) == p
  {
  }

  lemma Exchange8Twice(p: Pair)
    ensures Exchange8(Exchange8(p)) == p
  {
  }

  lemma ExchangeOddTwice(p: Pair)
    ensures ExchangeOdd(ExchangeOdd(p)) == p
  {
  }

  lemma RotlRotr(x: bv32)
    ensures Rotl(Rotr(x)) == x && Rotr(Rotl(x)) == x
  {
  }

  /** The final permutation undoes the initial one, and the other way round. */
  lemma FpUndoesIp(p: Pair)
    ensures Fp(Ip(p)) == p
  {
    hide Exchange4, Exchange16, Exchange2, Exchange8, ExchangeOdd, Rotl, Rotr;
    var a := Exchange4(p);
    var b := Exchange16(a);
    var c := Exchange2(b);
    var q := Exchange8(c);
    var v := Pair(q.l, Rotl(q.r));
    RotlRotr(q.r);
    RotlRotr(ExchangeOdd(v).l);
    ExchangeOddTwice(v);
    Exchange8Twice(c);
    Exchange2Twice(b);
    Exchange16Twice(a);
    Exchange4Twice(p);
  }

  lemma IpUndoesFp(p: Pair)
    ensures Ip(Fp(p)) == p
  {
    hide Exchange4, Exchange16, Exchange2, Exchange8, ExchangeOdd, Rotl, Rotr;
    var v := Pair(Rotr(p.l), p.r);
    var u := ExchangeOdd(v);
    var d := Pair(u.l, Rotr(u.r));
    RotlRotr(p.l);
    RotlRotr(u.r);
    ExchangeOddTwice(v);
    Exchange8Twice(d);
    Exchange2Twice(Exchange8(d));
    Exchange16Twice(Exchange2(Exchange8(d)));
    Exchange4Twice(Exchange16(Exchange2(Exchange8(d))));
  }

  /** Ip is the initial permutation of FIPS 46-3, with both halves kept rotated left by one. In its table, row q of the
      left half reads 58 + 2q, 50 + 2q, .. from the right word and then the left one, and row q of the right half one bit
      earlier; bits are counted from the most significant end. */
  lemma IpIsInitialPermutation(p: Pair, q: bv32, c: bv32)
    requires q < 4 && c < 4
    ensures IpRow(p, Pair(Rotr(Ip(p).l), Rotr(Ip(p).r)), q, c)
  {
    hide Exchange4, Exchange16, Exchange2, Exchange8, ExchangeOdd, Rotr, Rotl, IpRow;
    var a := Exchange4(p);
    var b := Exchange16(a);
    var d := Exchange2(b);
    var e := Exchange8(d);
    RotlRotr(ExchangeOdd(Pair(e.l, Rotl(e.r))).l);
    IpRows(p, a, b, d, e, q, c);
  }

  /** The entries of row q, at column c and at column c + 4, of both halves of the table. */
  predicate IpRow(p: Pair, i: Pair, q: bv32, c: bv32)
    requires q < 4 && c < 4
  {
    && (i.l >> (31 - 8 * q - c)) & 1 == (p.r >> (6 - 2 * q + 8 * c)) & 1
    && (i.l >> (27 - 8 * q - c)) & 1 == (p.l >> (6 - 2 * q + 8 * c)) & 1
    && (i.r >> (31 - 8 * q - c)) & 1 == (p.r >> (7 - 2 * q + 8 * c)) & 1
    && (i.r >> (27 - 8 * q - c)) & 1 == (p.l >> (7 - 2 * q + 8 * c)) & 1
  }

  lemma IpRows(p: Pair, a: Pair, b: Pair, d: Pair, e: Pair, q: bv32, c: bv32)
    requires q < 4 && c < 4
    requires a == Exchange4(p) && b == Exchange16(a) && d == Exchange2(b) && e == Exchange8(d)
    ensures
      var u := ExchangeOdd(Pair(e.l, Rotl(e.r)));
      IpRow(p, Pair(u.l, Rotr(u.r)), q, c)
  {
    hide *;
    var u := ExchangeOdd(Pair(e.l, Rotl(e.r)));
    Exchanged4(p);
    Exchanged16(a);
    Exchanged2(b);
    Exchanged8(d);
    ExchangedOdd(e.l, e.r);
    RotrIs(u.r);
    IpBits(q, c, p, a.l, a.r, b.l, b.r, d.l, d.r, e.l, e.r, u.l, u.r, Rotr(u.r));
  }

  lemma Exchanged4(p: Pair)
    ensures Exchange4(p).l == p.l ^ ((((p.l >> 4) ^ p.r) & 0x0F0F0F0F) << 4)
    ensures Exchange4(p).r == p.r ^ (((p.l >> 4) ^ p.r) & 0x0F0F0F0F)
  {
  }

  lemma Exchanged16(p: Pair)
    ensures Exchange16(p).l == p.l ^ ((((p.l >> 16) ^ p.r) & 0x0000FFFF) << 16)
    ensures Exchange16(p).r == p.r ^ (((p.l >> 16) ^ p.r) & 0x0000FFFF)
  {
  }

  lemma Exchanged2(p: Pair)
    ensures Exchange2(p).l == p.l ^ (((p.r >> 2) ^ p.l) & 0x33333333)
    ensures Exchange2(p).r == p.r ^ ((((p.r >> 2) ^ p.l) & 0x33333333) << 2)
  {
  }

  lemma Exchanged8(p: Pair)
    ensures Exchange8(p).l == p.l ^ (((p.r >> 8) ^ p.l) & 0x00FF00FF)
    ensures Exchange8(p).r == p.r ^ ((((p.r >> 8) ^ p.l) & 0x00FF00FF) << 8)
  {
  }

  lemma ExchangedOdd(l: bv32, r: bv32)
    ensures ExchangeOdd(Pair(l, Rotl(r))).l == l ^ ((l ^ ((r << 1) | (r >> 31))) & 0xAAAAAAAA)
    ensures ExchangeOdd(Pair(l, Rotl(r))).r == ((r << 1) | (r >> 31)) ^ ((l ^ ((r << 1) | (r >> 31))) & 0xAAAAAAAA)
  {
  }

  lemma RotrIs(x: bv32)
    ensures Rotr(x) == (x << 31) | (x >> 1)
  {
  }

  lemma IpBits(q: bv32, c: bv32, p: Pair, l1: bv32, r1: bv32, l2: bv32, r2: bv32, l3: bv32, r3: bv32,
               l4: bv32, r4: bv32, l5: bv32, r5: bv32, r6: bv32)
    requires q < 4 && c < 4
    requires l1 == p.l ^ ((((p.l >> 4) ^ p.r) & 0x0F0F0F0F) << 4) && r1 == p.r ^ (((p.l >> 4) ^ p.r) & 0x0F0F0F0F)
    requires l2 == l1 ^ ((((l1 >> 16) ^ r1) & 0x0000FFFF) << 16) && r2 == r1 ^ (((l1 >> 16) ^ r1) & 0x0000FFFF)
    requires l3 == l2 ^ (((r2 >> 2) ^ l2) & 0x33333333) && r3 == r2 ^ ((((r2 >> 2) ^ l2) & 0x33333333) << 2)
    requires l4 == l3 ^ (((r3 >> 8) ^ l3) & 0x00FF00FF) && r4 == r3 ^ ((((r3 >> 8) ^ l3) & 0x00FF00FF) << 8)
    requires
      var r := (r4 << 1) | (r4 >> 31);
      l5 == l4 ^ ((l4 ^ r) & 0xAAAAAAAA) && r5 == r ^ ((l4 ^ r) & 0xAAAAAAAA)
    requires r6 == (r5 << 31) | (r5 >> 1)
    ensures IpRow(p, Pair(l5, r6), q, c)
  {
  }

  // ---------------------------------------------------------------- rounds

  /** The eight tables SB1 to SB8, whatever they hold. */
  datatype Boxes = Boxes(sb: seq<seq<bv32>>)
  {
    ghost predicate Ok() { |sb| == 8 && forall i :: 0 <= i < 8 ==> |sb[i]| == 64 }

    function At(i: nat, j: nat): bv32
      requires Ok() && i < 8 && j < 64
    {
      sb[i][j]
    }
  }

  /** A subkey: the two words a round takes. */
  datatype Subkey = Subkey(k0: bv32, k1: bv32)

  /** The six bits of t from bit n up. */
  function Six(t: bv32, n: bv32): nat
    requires n < 32
    ensures Six(t, n) < 64
  {
    ((t >> n) & 0x3F) as nat
  }

  function Turned(x: bv32): bv32
  {
    (x << 28) | (x >> 4)
  }

  /** What DES_ROUND(X,Y) adds to Y. */
  function F(s: Boxes, k: Subkey, x: bv32): bv32
    requires s.Ok()
  {
    var t := Xor32(k.k0, x);
    var u := Xor32(k.k1, Turned(x));
    Xor32(Xor32(Xor32(Xor32(Xor32(Xor32(Xor32(s.At(7, Six(t, 0)), s.At(5, Six(t, 8))), s.At(3, Six(t, 16))), s.At(1, Six(t, 24))),
      s.At(6, Six(u, 0))), s.At(4, Six(u, 8))), s.At(2, Six(u, 16))), s.At(0, Six(u, 24)))
  }

  /** The sum modulo 2 of four words. */
  function Sum4(a: bv32, b: bv32, c: bv32, d: bv32): bv32
  {
    Xor32(Xor32(Xor32(d, c), b), a)
  }

  /** Six bits of r, the low ones once it is rotated left by n, added to six bits of k from bit m up. */
  function Keyed(r: bv32, n: bv32, k: bv32, m: bv32): nat
    requires 0 < n < 32 && m < 32
    ensures Keyed(r, n, k, m) < 64
  {
    ((((r << n) | (r >> (32 - n))) ^ (k >> m)) & 0x3F) as nat
  }

  /** The cipher function of FIPS 46-3 on the right half r, which the code keeps rotated left by one: box i looks at six
      bits of r from bit 4i - 4 to bit 4i + 1, wrapping around, which are the low six once r is rotated left by 4i + 1; they
      meet six bits of the subkey, the odd boxes' in k1 and the even boxes' in k0, and the results are added up. */
  lemma FIsCipherFunction(s: Boxes, k: Subkey, r: bv32)
    requires s.Ok()
    ensures
      F(s, k, Rotl(r)) ==
      Xor32(Sum4(s.At(0, Keyed(r, 5, k.k1, 24)), s.At(2, Keyed(r, 13, k.k1, 16)), s.At(4, Keyed(r, 21, k.k1, 8)), s.At(6, Keyed(r, 29, k.k1, 0))),
            Sum4(s.At(1, Keyed(r, 9, k.k0, 24)), s.At(3, Keyed(r, 17, k.k0, 16)), s.At(5, Keyed(r, 25, k.k0, 8)), s.At(7, Keyed(r, 1, k.k0, 0))))
  {
    hide Xor32, Six, Turned, Rotl, Keyed, Sum4, Boxes.At;
    EvenSix(k.k0, r);
    OddSix(k.k1, r);
    var t, u := Xor32(k.k0, Rotl(r)), Xor32(k.k1, Turned(Rotl(r)));
    AddedUp(s.At(0, Six(u, 24)), s.At(1, Six(t, 24)), s.At(2, Six(u, 16)), s.At(3, Six(t, 16)),
      s.At(4, Six(u, 8)), s.At(5, Six(t, 8)), s.At(6, Six(u, 0)), s.At(7, Six(t, 0)));
  }

  lemma AddedUp(a: bv32, b: bv32, c: bv32, d: bv32, e: bv32, f: bv32, g: bv32, h: bv32)
    ensures Xor32(Xor32(Xor32(Xor32(Xor32(Xor32(Xor32(h, f), d), b), g), e), c), a) == Xor32(Sum4(a, c, e, g), Sum4(b, d, f, h))
  {
    hide Xor32;
    var v := Xor32(Xor32(Xor32(h, f), d), b);
    Assoc32(v, g, e);
    Assoc32(v, Xor32(g, e), c);
    Assoc32(v, Xor32(Xor32(g, e), c), a);
    Swap32(v, Xor32(Xor32(Xor32(g, e), c), a));
  }

  lemma EvenSix(k: bv32, r: bv32)
    ensures Six(Xor32(k, Rotl(r)), 0) == Keyed(r, 1, k, 0)
    ensures Six(Xor32(k, Rotl(r)), 8) == Keyed(r, 25, k, 8)
    ensures Six(Xor32(k, Rotl(r)), 16) == Keyed(r, 17, k, 16)
    ensures Six(Xor32(k, Rotl(r)), 24) == Keyed(r, 9, k, 24)
  {
    EvenBits(k, r, (r << 1) | (r >> 31));
  }

  lemma EvenBits(k: bv32, r: bv32, x: bv32)
    requires x == (r << 1) | (r >> 31)
    ensures (k ^ x) & 0x3F == (((r << 1) | (r >> 31)) ^ k) & 0x3F
    ensures ((k ^ x) >> 8) & 0x3F == (((r << 25) | (r >> 7)) ^ (k >> 8)) & 0x3F
    ensures ((k ^ x) >> 16) & 0x3F == (((r << 17) | (r >> 15)) ^ (k >> 16)) & 0x3F
    ensures ((k ^ x) >> 24) & 0x3F == (((r << 9) | (r >> 23)) ^ (k >> 24)) & 0x3F
  {
  }

  lemma OddSix(k: bv32, r: bv32)
    ensures Six(Xor32(k, Turned(Rotl(r))), 0) == Keyed(r, 29, k, 0)
    ensures Six(Xor32(k, Turned(Rotl(r))), 8) == Keyed(r, 21, k, 8)
    ensures Six(Xor32(k, Turned(Rotl(r))), 16) == Keyed(r, 13, k, 16)
    ensures Six(Xor32(k, Turned(Rotl(r))), 24) == Keyed(r, 5, k, 24)
  {
    var x := (r << 1) | (r >> 31);
    OddBits(k, r, x, (x << 28) | (x >> 4));
  }

  lemma OddBits(k: bv32, r: bv32, x: bv32, y: bv32)
    requires x == (r << 1) | (r >> 31) && y == (x << 28) | (x >> 4)
    ensures (k ^ y) & 0x3F == (((r << 29) | (r >> 3)) ^ k) & 0x3F
    ensures ((k ^ y) >> 8) & 0x3F == (((r << 21) | (r >> 11)) ^ (k >> 8)) & 0x3F
    ensures ((k ^ y) >> 16) & 0x3F == (((r << 13) | (r >> 19)) ^ (k >> 16)) & 0x3F
    ensures ((k ^ y) >> 24) & 0x3F == (((r << 5) | (r >> 27)) ^ (k >> 24)) & 0x3F
  {
  }

  /** A round, with the roles of the words exchanged for the next. */
  function Round(s: Boxes, k: Subkey, p: Pair): Pair
    requires s.Ok()
  {
    Pair(p.r, Xor32(p.l, F(s, k, p.r)))
  }

  function Rounds(s: Boxes, ks: seq<Subkey>, p: Pair): Pair
    requires s.Ok()
  {
    if ks == [] then p else Round(s, ks[|ks| - 1], Rounds(s, ks[..|ks| - 1], p))
  }

  function Backward(ks: seq<Subkey>): (r: seq<Subkey>)
    ensures |r| == |ks|
  {
    seq(|ks|, i requires 0 <= i < |ks| => ks[|ks| - 1 - i])
  }

  lemma BackwardTwice(ks: seq<Subkey>)
    ensures Backward(Backward(ks)) == ks
  {
  }

  /** A round on exchanged halves takes a round back. */
  lemma RoundBack(s: Boxes, k: Subkey, p: Pair)
    requires s.Ok()
    ensures Round(s, k, Round(s, k, p).Swapped()) == p.Swapped()
  {
    hide F, Xor32;
    Cancel(p.l, F(s, k, p.r));
  }

  lemma {:induction false} RoundsConcat(s: Boxes, a: seq<Subkey>, b: seq<Subkey>, p: Pair)
    requires s.Ok()
    ensures Rounds(s, a + b, p) == Rounds(s, b, Rounds(s, a, p))
    decreases |b|
  {
    hide Round;
    if b == [] {
      assert a + b == a;
    } else {
      RoundsConcat(s, a, b[..|b| - 1], p);
      assert (a + b)[..|a + b| - 1] == a + b[..|b| - 1];
    }
  }

  /** All rounds with the subkeys reversed take all rounds back. */
  lemma {:induction false} RoundsBack(s: Boxes, ks: seq<Subkey>, p: Pair)
    requires s.Ok()
    ensures Rounds(s, Backward(ks), Rounds(s, ks, p).Swapped()) == p.Swapped()
    decreases |ks|
  {
    hide Round;
    if ks != [] {
      var k, most := ks[|ks| - 1], ks[..|ks| - 1];
      assert Backward(ks) == [k] + Backward(most);
      RoundsConcat(s, [k], Backward(most), Rounds(s, ks, p).Swapped());
      OneRound(s, k, Rounds(s, ks, p).Swapped());
      RoundBack(s, k, Rounds(s, most, p));
      RoundsBack(s, most, p);
    }
  }

  lemma OneRound(s: Boxes, k: Subkey, p: Pair)
    requires s.Ok()
    ensures Rounds(s, [k], p) == Round(s, k, p)
  {
    hide Round;
    assert [k][..0] == [];
    assert Rounds(s, [], p) == p;
  }

  // ---------------------------------------------------------------- the ciphers

  /** Sixteen rounds and the exchange before the next sixteen, or before the final permutation. */
  function Stage(s: Boxes, ks: seq<Subkey>, p: Pair): Pair
    requires s.Ok()
  {
    Rounds(s, ks, p).Swapped()
  }

  lemma StageBack(s: Boxes, ks: seq<Subkey>, p: Pair)
    requires s.Ok()
    ensures Stage(s, Backward(ks), Stage(s, ks, p)) == p
  {
    hide Rounds, Backward;
    RoundsBack(s, ks, p);
  }

  function DesBlock(s: Boxes, ks: seq<Subkey>, b: Pair): Pair
    requires s.Ok()
  {
    Fp(Stage(s, ks, Ip(b)))
  }

  function Des3Block(s: Boxes, k1: seq<Subkey>, k2: seq<Subkey>, k3: seq<Subkey>, b: Pair): Pair
    requires s.Ok()
  {
    Fp(Stage(s, k3, Stage(s, k2, Stage(s, k1, Ip(b)))))
  }

  /** DES with the subkeys reversed undoes DES, whatever the subkeys and boxes. */
  lemma DesUndone(s: Boxes, ks: seq<Subkey>, b: Pair)
    requires s.Ok()
    ensures DesBlock(s, Backward(ks), DesBlock(s, ks, b)) == b
  {
    hide Ip, Fp, Stage, Backward;
    IpUndoesFp(Stage(s, ks, Ip(b)));
    StageBack(s, ks, Ip(b));
    FpUndoesIp(b);
  }

  /** 3DES is undone by its three schedules reversed and taken in the opposite order. */
  lemma Des3Undone(s: Boxes, k1: seq<Subkey>, k2: seq<Subkey>, k3: seq<Subkey>, b: Pair)
    requires s.Ok()
    ensures Des3Block(s, Backward(k3), Backward(k2), Backward(k1), Des3Block(s, k1, k2, k3, b)) == b
  {
    hide Ip, Fp, Stage, Backward;
    var a1 := Stage(s, k1, Ip(b));
    var a2 := Stage(s, k2, a1);
    IpUndoesFp(Stage(s, k3, a2));
    StageBack(s, k3, a2);
    StageBack(s, k2, a1);
    StageBack(s, k1, Ip(b));
    FpUndoesIp(b);
  }

  /** 3DES is DES three times over: the permutations in between cancel. */
  lemma Des3IsThreeDes(s: Boxes, k1: seq<Subkey>, k2: seq<Subkey>, k3: seq<Subkey>, b: Pair)
    requires s.Ok()
    ensures Des3Block(s, k1, k2, k3, b) == DesBlock(s, k3, DesBlock(s, k2, DesBlock(s, k1, b)))
  {
    hide Ip, Fp, Stage;
    IpUndoesFp(Stage(s, k1, Ip(b)));
    IpUndoesFp(Stage(s, k2, Stage(s, k1, Ip(b))));
  }

  /** With all three keys the same, encrypt-decrypt-encrypt is single DES. */
  lemma Des3OfOneKey(s: Boxes, ks: seq<Subkey>, b: Pair)
    requires s.Ok()
    ensures Des3Block(s, ks, Backward(ks), ks, b) == DesBlock(s, ks, b)
  {
    hide Ip, Fp, Stage, Backward;
    StageBack(s, ks, Ip(b));
  }

  // ---------------------------------------------------------------- the code

  /** The n subkeys kept from word k on. */
  function KeysAt(sk: seq<bv32>, k: nat, n: nat): (r: seq<Subkey>)
    requires k + 2 * n <= |sk|
    ensures |r| == n
  {
    seq(n, i requires 0 <= i < n => Subkey(sk[k + 2 * i], sk[k + 2 * i + 1]))
  }

  lemma RoundsSnoc(s: Boxes, sk: seq<bv32>, k: nat, n: nat, p: Pair)
    requires s.Ok() && k + 2 * n + 2 <= |sk|
    ensures Rounds(s, KeysAt(sk, k, n + 1), p)
      == Round(s, Subkey(sk[k + 2 * n], sk[k + 2 * n + 1]), Rounds(s, KeysAt(sk, k, n), p))
  {
    hide Round;
    var ks := KeysAt(sk, k, n + 1);
    assert ks[..|ks| - 1] == KeysAt(sk, k, n);
  }

  /** `for( i = 0; i < 8; i++ ) { DES_ROUND( Y, X ); DES_ROUND( X, Y ); }` from word k of sk on. */
  method EightTwice(s: Boxes, sk: array<bv32>, k: nat, p: Pair) returns (q: Pair)
    requires s.Ok() && k + 32 <= sk.Length
    ensures q == Rounds(s, KeysAt(sk[..], k, 16), p)
  {
    hide F, Rounds, KeysAt, Xor32;
    var X, Y := p.l, p.r;
    NoRounds(s, sk[..], k, p);
    for i := 0 to 8
      invariant Pair(X, Y) == Rounds(s, KeysAt(sk[..], k, 2 * i), p)
    {
      var at := k + 4 * i;
      RoundsSnoc(s, sk[..], k, 2 * i, p);
      RoundsSnoc(s, sk[..], k, 2 * i + 1, p);
      X := Xor32(X, F(s, Subkey(sk[at], sk[at + 1]), Y));
      Y := Xor32(Y, F(s, Subkey(sk[at + 2], sk[at + 3]), X));
    }
    return Pair(X, Y);
  }

  lemma NoRounds(s: Boxes, sk: seq<bv32>, k: nat, p: Pair)
    requires s.Ok() && k <= |sk|
    ensures Rounds(s, KeysAt(sk, k, 0), p) == p
  {
  }

  /** mbedtls_des_crypt_ecb; output may be input. */
  method DesCryptEcb(s: Boxes, sk: array<bv32>, input: array<bv8>, output: array<bv8>)
    requires s.Ok() && sk.Length == 32 && input.Length == output.Length == 8
    modifies output
    ensures output[..] == BytesOfPair(DesBlock(s, KeysAt(sk[..], 0, 16), PairOf(old(input[..]))))
  {
    hide Ip, Fp, GetBE, Top8, Upper8, Lower8, Low8, Rounds, KeysAt;
    var p := Ip(PairOf(input[..]));
    p := EightTwice(s, sk, 0, p);
    Store(output, BytesOfPair(Fp(Pair(p.r, p.l))));
  }

  /** mbedtls_des3_crypt_ecb; output may be input. In the middle rounds the words change roles. */
  method Des3CryptEcb(s: Boxes, sk: array<bv32>, input: array<bv8>, output: array<bv8>)
    requires s.Ok() && sk.Length == 96 && input.Length == output.Length == 8
    modifies output
    ensures output[..] == BytesOfPair(Des3Block(s, KeysAt(sk[..], 0, 16), KeysAt(sk[..], 32, 16), KeysAt(sk[..], 64, 16),
      PairOf(old(input[..]))))
  {
    hide Ip, Fp, GetBE, Top8, Upper8, Lower8, Low8, Rounds, KeysAt;
    var p := Ip(PairOf(input[..]));
    p := EightTwice(s, sk, 0, p);
    p := EightTwice(s, sk, 32, Pair(p.r, p.l));
    p := EightTwice(s, sk, 64, Pair(p.r, p.l));
    Store(output, BytesOfPair(Fp(Pair(p.r, p.l))));
  }

  /** The subkeys of one key. */
  function SubkeysOf(sched: seq<bv8> -> seq<bv32>, key: seq<bv8>): (r: seq<Subkey>)
    requires |sched(key)| == 32
    ensures |r| == 16
  {
    KeysAt(sched(key), 0, 16)
  }

  method StoreSchedule(sched: seq<bv8> -> seq<bv32>, sk: array<bv32>, at: nat, key: seq<bv8>)
    requires |sched(key)| == 32 && at + 32 <= sk.Length
    modifies sk
    ensures sk[at..at + 32] == sched(key)
    ensures forall i :: 0 <= i < sk.Length && !(at <= i < at + 32) ==> sk[i] == old(sk[i])
  {
    for i := 0 to 32
      invariant sk[at..at + i] == sched(key)[..i]
      invariant forall k :: 0 <= k < sk.Length && !(at <= k < at + 32) ==> sk[k] == old(sk[k])
    {
      sk[at + i] := sched(key)[i];
      assert sk[at..at + i + 1] == sk[at..at + i] + [sk[at + i]];
    }
  }

  /** Where word k comes from when pairs are exchanged end for end. */
  function Mirror(k: nat): nat
    requires k < 32
    ensures Mirror(k) < 32
  {
    if k % 2 == 0 then 30 - k else 32 - k
  }

  lemma MirrorPairs(i: nat)
    requires i < 16 && i % 2 == 0
    ensures i + 1 < 16 && Mirror(i) == 30 - i && Mirror(30 - i) == i && Mirror(i + 1) == 31 - i && Mirror(31 - i) == i + 1
  {
  }

  lemma MirrorIsBackward(sk: seq<bv32>, was: seq<bv32>)
    requires |sk| == |was| == 32 && forall k :: 0 <= k < 32 ==> sk[k] == was[Mirror(k)]
    ensures KeysAt(sk, 0, 16) == Backward(KeysAt(was, 0, 16))
  {
    forall m | 0 <= m < 16
      ensures KeysAt(sk, 0, 16)[m] == Backward(KeysAt(was, 0, 16))[m]
    {
      assert Mirror(2 * m) == 2 * (15 - m) && Mirror(2 * m + 1) == 2 * (15 - m) + 1;
    }
  }

  /** The loop of SWAPs. */
  method ReversePairs(sk: array<bv32>)
    requires sk.Length == 32
    modifies sk
    ensures forall k :: 0 <= k < 32 ==> sk[k] == old(sk[Mirror(k)])
  {
    hide Mirror;
    ghost var was := sk[..];
    var i := 0;
    while i < 16
      invariant 0 <= i <= 16 && i % 2 == 0
      invariant forall k :: (0 <= k < i || 32 - i <= k < 32) ==> sk[k] == was[Mirror(k)]
      invariant forall k :: i <= k < 32 - i ==> sk[k] == was[k]
    {
      MirrorPairs(i);
      SwapWords(sk, i, 30 - i);
      SwapWords(sk, i + 1, 31 - i);
      i := i + 2;
    }
  }

  /** SWAP. */
  method SwapWords(sk: array<bv32>, a: nat, b: nat)
    requires a < sk.Length && b < sk.Length
    modifies sk
    ensures sk[a] == old(sk[b]) && sk[b] == old(sk[a])
    ensures forall k :: 0 <= k < sk.Length && k != a && k != b ==> sk[k] == old(sk[k])
  {
    var t := sk[a];
    sk[a] := sk[b];
    sk[b] := t;
  }

  /** mbedtls_des_setkey_dec: the pairs of words are exchanged end for end. */
  method DesSetKeyDec(sched: seq<bv8> -> seq<bv32>, sk: array<bv32>, key: seq<bv8>)
    requires |sched(key)| == 32 && sk.Length == 32
    modifies sk
    ensures KeysAt(sk[..], 0, 16) == Backward(SubkeysOf(sched, key))
  {
    hide Mirror, KeysAt, Backward;
    StoreSchedule(sched, sk, 0, key);
    assert sk[..] == sk[0..32];
    ReversePairs(sk);
    MirrorIsBackward(sk[..], sched(key));
  }

  lemma MirroredKeys(dst: seq<bv32>, a: nat, src: seq<bv32>, b: nat)
    requires MirroredTo(dst, a, src, b, 32)
    ensures KeysAt(dst, a, 16) == Backward(KeysAt(src, b, 16))
  {
    var d, s := dst[a..a + 32], src[b..b + 32];
    forall k | 0 <= k < 32
      ensures d[k] == s[Mirror(k)]
    {
      assert dst[a + k] == src[b + Mirror(k)];
    }
    MirrorIsBackward(d, s);
    SliceKeys(dst, a);
    SliceKeys(src, b);
  }

  lemma SliceKeys(sk: seq<bv32>, a: nat)
    requires a + 32 <= |sk|
    ensures KeysAt(sk[a..a + 32], 0, 16) == KeysAt(sk, a, 16)
  {
  }

  lemma MirrorAt(i: nat)
    requires i < 32 && i % 2 == 0
    ensures i + 1 < 32 && Mirror(i) == 30 - i && Mirror(i + 1) == 31 - i
  {
  }

  /** The first n words from a on in dst are those from b on in src, counted from the end by pairs. */
  ghost predicate MirroredTo(dst: seq<bv32>, a: nat, src: seq<bv32>, b: nat, n: nat)
  {
    n <= 32 && a + 32 <= |dst| && b + 32 <= |src| && forall k :: 0 <= k < n ==> dst[a + k] == src[b + Mirror(k)]
  }

  /** dst' differs from dst at two words only. */
  ghost predicate OnlyTwo(dst: seq<bv32>, dst': seq<bv32>, at: nat)
  {
    |dst'| == |dst| && forall j {:trigger dst'[j]} :: 0 <= j < |dst| && j != at && j != at + 1 ==> dst'[j] == dst[j]
  }

  /** `dst[a + i] = src[b + 30 - i]; dst[a + i + 1] = src[b + 31 - i];`. */
  method MirrorPair(dst: array<bv32>, a: nat, src: array<bv32>, b: nat, i: nat)
    requires dst != src && i < 32 && i % 2 == 0 && MirroredTo(dst[..], a, src[..], b, i)
    modifies dst
    ensures MirroredTo(dst[..], a, src[..], b, i + 2) && OnlyTwo(old(dst[..]), dst[..], a + i)
  {
    MirrorAt(i);
    hide Mirror;
    dst[a + i] := src[b + 30 - i];
    dst[a + i + 1] := src[b + 31 - i];
  }

  /** A write elsewhere leaves what was mirrored. */
  lemma MirroredKept(dst: seq<bv32>, dst': seq<bv32>, at: nat, a: nat, src: seq<bv32>, b: nat, n: nat)
    requires MirroredTo(dst, a, src, b, n) && OnlyTwo(dst, dst', at) && (at >= a + n || at + 2 <= a)
    ensures MirroredTo(dst', a, src, b, n)
  {
  }

  lemma SourceKept(dst: seq<bv32>, a: nat, src: seq<bv32>, src': seq<bv32>, at: nat, b: nat, n: nat)
    requires MirroredTo(dst, a, src, b, n) && OnlyTwo(src, src', at) && (at >= b + 32 || at + 2 <= b)
    ensures MirroredTo(dst, a, src', b, n)
  {
  }

  /** des3_set3key: k1, k2 backward, k3 to encrypt; k3 backward, k2, k1 backward to decrypt. */
  method Set3Key(sched: seq<bv8> -> seq<bv32>, esk: array<bv32>, dsk: array<bv32>, key: seq<bv8>)
    requires |key| == 24 && |sched(key[..8])| == 32 && |sched(key[8..16])| == 32 && |sched(key[16..])| == 32
    requires esk.Length == dsk.Length == 96 && esk != dsk
    modifies esk, dsk
    ensures KeysAt(esk[..], 0, 16) == SubkeysOf(sched, key[..8])
    ensures KeysAt(esk[..], 32, 16) == Backward(SubkeysOf(sched, key[8..16]))
    ensures KeysAt(esk[..], 64, 16) == SubkeysOf(sched, key[16..])
    ensures KeysAt(dsk[..], 0, 16) == Backward(SubkeysOf(sched, key[16..]))
    ensures KeysAt(dsk[..], 32, 16) == SubkeysOf(sched, key[8..16])
    ensures KeysAt(dsk[..], 64, 16) == Backward(SubkeysOf(sched, key[..8]))
  {
    hide Mirror, KeysAt, Backward;
    StoreSchedule(sched, esk, 0, key[..8]);
    StoreSchedule(sched, dsk, 32, key[8..16]);
    ghost var e0 := esk[..];
    StoreSchedule(sched, esk, 64, key[16..]);
    assert esk[0..32] == e0[0..32];
    MirrorHalves(esk, dsk);
    SliceKeys(esk[..], 0);
    SliceKeys(esk[..], 64);
    SliceKeys(dsk[..], 32);
    assert esk[..][0..32] == sched(key[..8]) && esk[..][64..96] == sched(key[16..]) && dsk[..][32..64] == sched(key[8..16]);
  }

  /** The loop of des3_set3key. */
  method MirrorHalves(esk: array<bv32>, dsk: array<bv32>)
    requires esk.Length == dsk.Length == 96 && esk != dsk
    modifies esk, dsk
    ensures esk[..][0..32] == old(esk[0..32]) && esk[..][64..96] == old(esk[64..96]) && dsk[..][32..64] == old(dsk[32..64])
    ensures KeysAt(esk[..], 32, 16) == Backward(KeysAt(dsk[..], 32, 16))
    ensures KeysAt(dsk[..], 0, 16) == Backward(KeysAt(esk[..], 64, 16))
    ensures KeysAt(dsk[..], 64, 16) == Backward(KeysAt(esk[..], 0, 16))
  {
    var i := 0;
    while i < 32
      invariant 0 <= i <= 32 && i % 2 == 0
      invariant esk[..][0..32] == old(esk[0..32]) && esk[..][64..96] == old(esk[64..96]) && dsk[..][32..64] == old(dsk[32..64])
      invariant MirroredTo(dsk[..], 0, esk[..], 64, i) && MirroredTo(esk[..], 32, dsk[..], 32, i)
      invariant MirroredTo(dsk[..], 64, esk[..], 0, i)
    {
      MirrorThree(esk, dsk, i);
      i := i + 2;
    }
    MirroredKeys(dsk[..], 0, esk[..], 64);
    MirroredKeys(esk[..], 32, dsk[..], 32);
    MirroredKeys(dsk[..], 64, esk[..], 0);
  }

  method MirrorThree(esk: array<bv32>, dsk: array<bv32>, i: nat)
    requires esk.Length == dsk.Length == 96 && esk != dsk && i < 32 && i % 2 == 0
    requires MirroredTo(dsk[..], 0, esk[..], 64, i) && MirroredTo(esk[..], 32, dsk[..], 32, i)
    requires MirroredTo(dsk[..], 64, esk[..], 0, i)
    modifies esk, dsk
    ensures esk[..][0..32] == old(esk[0..32]) && esk[..][64..96] == old(esk[64..96]) && dsk[..][32..64] == old(dsk[32..64])
    ensures MirroredTo(dsk[..], 0, esk[..], 64, i + 2) && MirroredTo(esk[..], 32, dsk[..], 32, i + 2)
    ensures MirroredTo(dsk[..], 64, esk[..], 0, i + 2)
  {
    hide MirroredTo;
    ghost var e0, d0 := esk[..], dsk[..];
    MirrorPair(dsk, 0, esk, 64, i);
    ghost var d1 := dsk[..];
    SourceKept(e0, 32, d0, d1, i, 32, i);
    MirroredKept(d0, d1, i, 64, e0, 0, i);
    MirrorPair(esk, 32, dsk, 32, i);
    ghost var e1 := esk[..];
    SourceKept(d1, 0, e0, e1, 32 + i, 64, i + 2);
    SourceKept(d1, 64, e0, e1, 32 + i, 0, i);
    MirrorPair(dsk, 64, esk, 0, i);
    ghost var d2 := dsk[..];
    MirroredKept(d1, d2, 64 + i, 0, e1, 64, i + 2);
    SourceKept(e1, 32, d1, d2, 64 + i, 32, i + 2);
  }

  /** The first n words from 64 on repeat the first n words. */
  ghost predicate CopiedTo(x: seq<bv32>, n: nat)
  {
    n <= 32 && |x| == 96 && forall k :: 0 <= k < n ==> x[64 + k] == x[k]
  }

  /** `x[i + 64] = x[i]; x[i + 65] = x[i + 1];` */
  method CopyPair(x: array<bv32>, i: nat)
    requires i + 2 <= 32 && CopiedTo(x[..], i)
    modifies x
    ensures CopiedTo(x[..], i + 2) && OnlyTwo(old(x[..]), x[..], 64 + i)
  {
    x[i + 64] := x[i];
    x[i + 65] := x[i + 1];
  }

  lemma CopiedKept(x: seq<bv32>, x': seq<bv32>, at: nat, n: nat)
    requires CopiedTo(x, n) && OnlyTwo(x, x', at) && n <= at && at + 2 <= 64
    ensures CopiedTo(x', n)
  {
  }

  lemma CopiedKeys(x: seq<bv32>)
    requires CopiedTo(x, 32)
    ensures KeysAt(x, 64, 16) == KeysAt(x, 0, 16)
  {
    assert x[64..96] == x[0..32];
    SliceKeys(x, 0);
    SliceKeys(x, 64);
  }

  /** des3_set2key: the schedules des3_set3key makes when the third key is the first. */
  method Set2Key(sched: seq<bv8> -> seq<bv32>, esk: array<bv32>, dsk: array<bv32>, key: seq<bv8>)
    requires |key| == 16 && |sched(key[..8])| == 32 && |sched(key[8..])| == 32
    requires esk.Length == dsk.Length == 96 && esk != dsk
    modifies esk, dsk
    ensures KeysAt(esk[..], 0, 16) == KeysAt(esk[..], 64, 16) == SubkeysOf(sched, key[..8])
    ensures KeysAt(esk[..], 32, 16) == Backward(SubkeysOf(sched, key[8..]))
    ensures KeysAt(dsk[..], 0, 16) == KeysAt(dsk[..], 64, 16) == Backward(SubkeysOf(sched, key[..8]))
    ensures KeysAt(dsk[..], 32, 16) == SubkeysOf(sched, key[8..])
  {
    hide Mirror, KeysAt, Backward, MirroredTo, CopiedTo;
    StoreSchedule(sched, esk, 0, key[..8]);
    StoreSchedule(sched, dsk, 32, key[8..]);
    NothingYet(esk[..], dsk[..]);
    var i := 0;
    while i < 32
      invariant 0 <= i <= 32 && i % 2 == 0
      invariant esk[..][0..32] == sched(key[..8]) && dsk[..][32..64] == sched(key[8..])
      invariant MirroredTo(dsk[..], 0, esk[..], 0, i) && MirroredTo(esk[..], 32, dsk[..], 32, i)
      invariant CopiedTo(esk[..], i) && CopiedTo(dsk[..], i)
    {
      MirrorAndCopy(esk, dsk, i);
      i := i + 2;
    }
    MirroredKeys(dsk[..], 0, esk[..], 0);
    MirroredKeys(esk[..], 32, dsk[..], 32);
    CopiedKeys(esk[..]);
    CopiedKeys(dsk[..]);
    SliceKeys(esk[..], 0);
    SliceKeys(dsk[..], 32);
  }

  lemma NothingYet(e: seq<bv32>, d: seq<bv32>)
    requires |e| == |d| == 96
    ensures MirroredTo(d, 0, e, 0, 0) && MirroredTo(e, 32, d, 32, 0) && CopiedTo(e, 0) && CopiedTo(d, 0)
  {
  }

  lemma SliceKept(x: seq<bv32>, x': seq<bv32>, at: nat, a: nat)
    requires OnlyTwo(x, x', at) && a + 32 <= |x| && (at + 2 <= a || a + 32 <= at)
    ensures x'[a..a + 32] == x[a..a + 32]
  {
  }

  /** Its loop's body. */
  method MirrorAndCopy(esk: array<bv32>, dsk: array<bv32>, i: nat)
    requires esk.Length == dsk.Length == 96 && esk != dsk && i < 32 && i % 2 == 0
    requires MirroredTo(dsk[..], 0, esk[..], 0, i) && MirroredTo(esk[..], 32, dsk[..], 32, i)
    requires CopiedTo(esk[..], i) && CopiedTo(dsk[..], i)
    modifies esk, dsk
    ensures esk[..][0..32] == old(esk[0..32]) && dsk[..][32..64] == old(dsk[32..64])
    ensures MirroredTo(dsk[..], 0, esk[..], 0, i + 2) && MirroredTo(esk[..], 32, dsk[..], 32, i + 2)
    ensures CopiedTo(esk[..], i + 2) && CopiedTo(dsk[..], i + 2)
  {
    hide MirroredTo, CopiedTo, OnlyTwo;
    ghost var e0, d0 := esk[..], dsk[..];
    MirrorPair(dsk, 0, esk, 0, i);
    ghost var d1 := dsk[..];
    SourceKept(e0, 32, d0, d1, i, 32, i);
    CopiedKept(d0, d1, i, i);
    SliceKept(d0, d1, i, 32);
    MirrorPair(esk, 32, dsk, 32, i);
    ghost var e1 := esk[..];
    SourceKept(d1, 0, e0, e1, 32 + i, 0, i + 2);
    CopiedKept(e0, e1, 32 + i, i);
    SliceKept(e0, e1, 32 + i, 0);
    CopyPair(esk, i);
    ghost var e2 := esk[..];
    SourceKept(d1, 0, e1, e2, 64 + i, 0, i + 2);
    MirroredKept(e1, e2, 64 + i, 32, d1, 32, i + 2);
    SliceKept(e1, e2, 64 + i, 0);
    CopyPair(dsk, i);
    ghost var d2 := dsk[..];
    MirroredKept(d1, d2, 64 + i, 0, e2, 0, i + 2);
    SourceKept(e2, 32, d1, d2, 64 + i, 32, i + 2);
    SliceKept(d1, d2, 64 + i, 32);
  }

  function Des3Bytes(s: Boxes, k1: seq<Subkey>, k2: seq<Subkey>, k3: seq<Subkey>, b: seq<bv8>): seq<bv8>
    requires s.Ok()
  {
    if |b| == 8 then BytesOfPair(Des3Block(s, k1, k2, k3, PairOf(b))) else b
  }

  /** 3DES with an encryption schedule and the decryption schedule Set3Key, or with k3 == k1 Set2Key, makes from the same
      key. */
  function Des3Under(s: Boxes, k1: seq<Subkey>, k2: seq<Subkey>, k3: seq<Subkey>): BlockCipher
    requires s.Ok()
  {
    BlockCipher(8, b => Des3Bytes(s, k1, Backward(k2), k3, b), b => Des3Bytes(s, Backward(k3), k2, Backward(k1), b))
  }

  lemma Des3IsAPermutation(s: Boxes, k1: seq<Subkey>, k2: seq<Subkey>, k3: seq<Subkey>)
    requires s.Ok()
    ensures Des3Under(s, k1, k2, k3).Permutation()
  {
    hide Des3Block, Backward, PairOf, BytesOfPair;
    var c := Des3Under(s, k1, k2, k3);
    BackwardTwice(k1);
    BackwardTwice(k2);
    BackwardTwice(k3);
    forall b: seq<bv8> | |b| == 8
      ensures |c.enc(b)| == 8 && |c.dec(b)| == 8 && c.dec(c.enc(b)) == b && c.enc(c.dec(b)) == b
    {
      var p := PairOf(b);
      PairBytes(b);
      BytesPair(Des3Block(s, k1, Backward(k2), k3, p));
      BytesPair(Des3Block(s, Backward(k3), k2, Backward(k1), p));
      Des3Undone(s, k1, Backward(k2), k3, p);
      Des3Undone(s, Backward(k3), k2, Backward(k1), p);
    }
  }
}
