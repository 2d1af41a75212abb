/** Camellia: Feistel rounds in groups of six with FL layers between, for any round keys and S-boxes. */
module CamelliaCipher {
  import opened Blocks
  import opened Octets
  import opened Numbers
  import opened Words32

  /** SBOX1 to SBOX4, whatever they hold. */
  datatype Boxes = Boxes(s1: seq<bv8>, s2: seq<bv8>, s3: seq<bv8>, s4: seq<bv8>)
  {
    ghost predicate Ok() { |s1| == |s2| == |s3| == |s4| == 256 }
  }

  function Entry(s: seq<bv8>, b: bv8): bv8
    requires |s| == 256
  {
    ValueByte(b);
    s[Value(b)]
  }

  function RotL(x: bv32, n: bv6): bv32
    requires 0 < n < 32
  {
    (x << n) | (x >> (32 - n))
  }

  function XorPair(a: Pair, b: Pair): Pair
  {
    Pair(Xor32(a.l, b.l), Xor32(a.r, b.r))
  }

  lemma CancelPair(a: Pair, b: Pair)
    ensures XorPair(XorPair(a, b), b) == a
  {
    hide Xor32;
    Cancel(a.l, b.l);
    Cancel(a.r, b.r);
  }

  /** The byte mixing of camellia_feistel, on words, which it leaves exchanged. */
  function Mix(j0: bv32, j1: bv32): Pair
  {
    var a0 := Xor32(j0, RotL(j1, 8));
    var a1 := Xor32(j1, RotL(a0, 16));
    var b0 := Xor32(a0, RotL(a1, 24));
    var b1 := Xor32(a1, RotL(b0, 24));
    Pair(b1, b0)
  }

  /** What camellia_feistel adds to z: the boxes, then the byte mixing, with the words exchanged. */
  function F(s: Boxes, k: Pair, x: Pair): Pair
    requires s.Ok()
  {
    var i0, i1 := Xor32(x.l, k.l), Xor32(x.r, k.r);
    var j0 := GetBE(Entry(s.s1, Top8(i0)), Entry(s.s2, Upper8(i0)), Entry(s.s3, Lower8(i0)), Entry(s.s4, Low8(i0)));
    var j1 := GetBE(Entry(s.s2, Top8(i1)), Entry(s.s3, Upper8(i1)), Entry(s.s4, Lower8(i1)), Entry(s.s1, Low8(i1)));
    Mix(j0, j1)
  }

  /** The S-layer and the P-layer of the F-function of RFC 3713, section 2.4.1. */
  function SLayer(s: Boxes, b: seq<bv8>): (t: seq<bv8>)
    requires s.Ok() && |b| == 8
    ensures |t| == 8
  {
    [Entry(s.s1, b[0]), Entry(s.s2, b[1]), Entry(s.s3, b[2]), Entry(s.s4, b[3]),
     Entry(s.s2, b[4]), Entry(s.s3, b[5]), Entry(s.s4, b[6]), Entry(s.s1, b[7])]
  }

  function Sum5(a: bv8, b: bv8, c: bv8, d: bv8, e: bv8): bv8 { a ^ b ^ c ^ d ^ e }
  function Sum6(a: bv8, b: bv8, c: bv8, d: bv8, e: bv8, f: bv8): bv8 { a ^ b ^ c ^ d ^ e ^ f }

  function PLayer(t: seq<bv8>): (y: seq<bv8>)
    requires |t| == 8
    ensures |y| == 8
  {
    [Sum6(t[0], t[2], t[3], t[5], t[6], t[7]),
     Sum6(t[0], t[1], t[3], t[4], t[6], t[7]),
     Sum6(t[0], t[1], t[2], t[4], t[5], t[7]),
     Sum6(t[1], t[2], t[3], t[4], t[5], t[6]),
     Sum5(t[0], t[1], t[5], t[6], t[7]),
     Sum5(t[1], t[2], t[4], t[6], t[7]),
     Sum5(t[2], t[3], t[4], t[5], t[7]),
     Sum5(t[0], t[3], t[4], t[5], t[6])]
  }

  /** F is the F-function of RFC 3713 on the bytes of its arguments. */
  lemma FIsRfcF(s: Boxes, k: Pair, x: Pair)
    requires s.Ok()
    ensures BytesOfPair(F(s, k, x)) == PLayer(SLayer(s, BytesOfPair(XorPair(x, k))))
  {
    hide Xor32, RotL, GetBE, Top8, Upper8, Lower8, Low8, Entry, PLayer;
    var t := SLayer(s, BytesOfPair(XorPair(x, k)));
    var j0, j1 := GetBE(t[0], t[1], t[2], t[3]), GetBE(t[4], t[5], t[6], t[7]);
    MixIsPLayer(t[0], t[1], t[2], t[3], t[4], t[5], t[6], t[7]);
    assert t == [t[0], t[1], t[2], t[3], t[4], t[5], t[6], t[7]];
  }

  function Xor8(a: bv8, b: bv8): bv8
  {
    a ^ b
  }

  lemma AddedBytes(a: bv8, b: bv8, c: bv8, d: bv8, e: bv8, f: bv8, g: bv8, h: bv8)
    ensures Xor32(GetBE(a, b, c, d), GetBE(e, f, g, h)) == GetBE(Xor8(a, e), Xor8(b, f), Xor8(c, g), Xor8(d, h))
  {
  }

  lemma TurnedBytes(a: bv8, b: bv8, c: bv8, d: bv8)
    ensures RotL(GetBE(a, b, c, d), 8) == GetBE(b, c, d, a)
    ensures RotL(GetBE(a, b, c, d), 16) == GetBE(c, d, a, b)
    ensures RotL(GetBE(a, b, c, d), 24) == GetBE(d, a, b, c)
  {
    hide *;
    var w := GetBE(a, b, c, d);
    BytesOfWord(a, b, c, d);
    By8(w);
    By16(w);
    By24(w);
    WordOfBytes(RotL(w, 8));
    WordOfBytes(RotL(w, 16));
    WordOfBytes(RotL(w, 24));
  }

  lemma By8(w: bv32)
    ensures Top8(RotL(w, 8)) == Upper8(w) && Upper8(RotL(w, 8)) == Lower8(w)
    ensures Lower8(RotL(w, 8)) == Low8(w) && Low8(RotL(w, 8)) == Top8(w)
  {
  }

  lemma By16(w: bv32)
    ensures Top8(RotL(w, 16)) == Lower8(w) && Upper8(RotL(w, 16)) == Low8(w)
    ensures Lower8(RotL(w, 16)) == Top8(w) && Low8(RotL(w, 16)) == Upper8(w)
  {
  }

  lemma By24(w: bv32)
    ensures Top8(RotL(w, 24)) == Low8(w) && Upper8(RotL(w, 24)) == Top8(w)
    ensures Lower8(RotL(w, 24)) == Upper8(w) && Low8(RotL(w, 24)) == Lower8(w)
  {
  }

  /** The four steps of Mix, each byte by byte. */
  lemma MixIsPLayer(t1: bv8, t2: bv8, t3: bv8, t4: bv8, t5: bv8, t6: bv8, t7: bv8, t8: bv8)
    ensures BytesOfPair(Mix(GetBE(t1, t2, t3, t4), GetBE(t5, t6, t7, t8))) == PLayer([t1, t2, t3, t4, t5, t6, t7, t8])
  {
    hide GetBE, RotL, Xor32, Xor8, Top8, Upper8, Lower8, Low8, PLayer, Sum5, Sum6;
    var a1, a2, a3, a4 := Xor8(t1, t6), Xor8(t2, t7), Xor8(t3, t8), Xor8(t4, t5);
    TurnedBytes(t5, t6, t7, t8);
    AddedBytes(t1, t2, t3, t4, t6, t7, t8, t5);
    var b1, b2, b3, b4 := Xor8(t5, a3), Xor8(t6, a4), Xor8(t7, a1), Xor8(t8, a2);
    TurnedBytes(a1, a2, a3, a4);
    AddedBytes(t5, t6, t7, t8, a3, a4, a1, a2);
    var c1, c2, c3, c4 := Xor8(a1, b4), Xor8(a2, b1), Xor8(a3, b2), Xor8(a4, b3);
    TurnedBytes(b1, b2, b3, b4);
    AddedBytes(a1, a2, a3, a4, b4, b1, b2, b3);
    TurnedBytes(c1, c2, c3, c4);
    AddedBytes(b1, b2, b3, b4, c4, c1, c2, c3);
    BytesOfWord(c1, c2, c3, c4);
    BytesOfWord(Xor8(b1, c4), Xor8(b2, c1), Xor8(b3, c2), Xor8(b4, c3));
    MixedSums(t1, t2, t3, t4, t5, t6, t7, t8);
  }

  lemma MixedSums(t1: bv8, t2: bv8, t3: bv8, t4: bv8, t5: bv8, t6: bv8, t7: bv8, t8: bv8)
    ensures
      var a1, a2, a3, a4 := Xor8(t1, t6), Xor8(t2, t7), Xor8(t3, t8), Xor8(t4, t5);
      var b1, b2, b3, b4 := Xor8(t5, a3), Xor8(t6, a4), Xor8(t7, a1), Xor8(t8, a2);
      var c1, c2, c3, c4 := Xor8(a1, b4), Xor8(a2, b1), Xor8(a3, b2), Xor8(a4, b3);
      PLayer([t1, t2, t3, t4, t5, t6, t7, t8]) == [Xor8(b1, c4), Xor8(b2, c1), Xor8(b3, c2), Xor8(b4, c3), c1, c2, c3, c4]
  {
    hide Xor8, Sum5, Sum6;
    LowSums(t1, t2, t3, t4, t5, t6, t7, t8);
    HighSums(t1, t2, t3, t4, t5, t6, t7, t8);
  }

  lemma LowSums(t1: bv8, t2: bv8, t3: bv8, t4: bv8, t5: bv8, t6: bv8, t7: bv8, t8: bv8)
    ensures Xor8(Xor8(t1, t6), Xor8(t8, Xor8(t2, t7))) == Sum5(t1, t2, t6, t7, t8)
    ensures Xor8(Xor8(t2, t7), Xor8(t5, Xor8(t3, t8))) == Sum5(t2, t3, t5, t7, t8)
    ensures Xor8(Xor8(t3, t8), Xor8(t6, Xor8(t4, t5))) == Sum5(t3, t4, t5, t6, t8)
    ensures Xor8(Xor8(t4, t5), Xor8(t7, Xor8(t1, t6))) == Sum5(t1, t4, t5, t6, t7)
  {
    hide *;
    LowSumsAre(t1, t2, t3, t4, t5, t6, t7, t8);
    LowSum(t1, t6, t8, t2, t7, t1, t2, t6, t7, t8);
    LowSum(t2, t7, t5, t3, t8, t2, t3, t5, t7, t8);
    LowSum(t3, t8, t6, t4, t5, t3, t4, t5, t6, t8);
    LowSum(t4, t5, t7, t1, t6, t1, t4, t5, t6, t7);
  }

  lemma HighSums(t1: bv8, t2: bv8, t3: bv8, t4: bv8, t5: bv8, t6: bv8, t7: bv8, t8: bv8)
    ensures Xor8(Xor8(t5, Xor8(t3, t8)), Sum5(t1, t4, t5, t6, t7)) == Sum6(t1, t3, t4, t6, t7, t8)
    ensures Xor8(Xor8(t6, Xor8(t4, t5)), Sum5(t1, t2, t6, t7, t8)) == Sum6(t1, t2, t4, t5, t7, t8)
    ensures Xor8(Xor8(t7, Xor8(t1, t6)), Sum5(t2, t3, t5, t7, t8)) == Sum6(t1, t2, t3, t5, t6, t8)
    ensures Xor8(Xor8(t8, Xor8(t2, t7)), Sum5(t3, t4, t5, t6, t8)) == Sum6(t2, t3, t4, t5, t6, t7)
  {
    hide *;
    HighSumsAre(t1, t2, t3, t4, t5, t6, t7, t8);
    HighSum(t5, t3, t8, t1, t4, t5, t6, t7, t1, t3, t4, t6, t7, t8);
    HighSum(t6, t4, t5, t1, t2, t6, t7, t8, t1, t2, t4, t5, t7, t8);
    HighSum(t7, t1, t6, t2, t3, t5, t7, t8, t1, t2, t3, t5, t6, t8);
    HighSum(t8, t2, t7, t3, t4, t5, t6, t8, t2, t3, t4, t5, t6, t7);
  }

  lemma LowSumsAre(t1: bv8, t2: bv8, t3: bv8, t4: bv8, t5: bv8, t6: bv8, t7: bv8, t8: bv8)
    ensures (t1 ^ t6) ^ (t8 ^ (t2 ^ t7)) == t1 ^ t2 ^ t6 ^ t7 ^ t8
    ensures (t2 ^ t7) ^ (t5 ^ (t3 ^ t8)) == t2 ^ t3 ^ t5 ^ t7 ^ t8
    ensures (t3 ^ t8) ^ (t6 ^ (t4 ^ t5)) == t3 ^ t4 ^ t5 ^ t6 ^ t8
    ensures (t4 ^ t5) ^ (t7 ^ (t1 ^ t6)) == t1 ^ t4 ^ t5 ^ t6 ^ t7
  {
  }

  lemma HighSumsAre(t1: bv8, t2: bv8, t3: bv8, t4: bv8, t5: bv8, t6: bv8, t7: bv8, t8: bv8)
    ensures (t5 ^ (t3 ^ t8)) ^ (t1 ^ t4 ^ t5 ^ t6 ^ t7) == t1 ^ t3 ^ t4 ^ t6 ^ t7 ^ t8
    ensures (t6 ^ (t4 ^ t5)) ^ (t1 ^ t2 ^ t6 ^ t7 ^ t8) == t1 ^ t2 ^ t4 ^ t5 ^ t7 ^ t8
    ensures (t7 ^ (t1 ^ t6)) ^ (t2 ^ t3 ^ t5 ^ t7 ^ t8) == t1 ^ t2 ^ t3 ^ t5 ^ t6 ^ t8
    ensures (t8 ^ (t2 ^ t7)) ^ (t3 ^ t4 ^ t5 ^ t6 ^ t8) == t2 ^ t3 ^ t4 ^ t5 ^ t6 ^ t7
  {
  }

  lemma LowSum(p: bv8, q: bv8, r: bv8, s: bv8, u: bv8, a: bv8, b: bv8, c: bv8, d: bv8, e: bv8)
    requires (p ^ q) ^ (r ^ (s ^ u)) == a ^ b ^ c ^ d ^ e
    ensures Xor8(Xor8(p, q), Xor8(r, Xor8(s, u))) == Sum5(a, b, c, d, e)
  {
  }

  lemma HighSum(p: bv8, q: bv8, r: bv8, v: bv8, w: bv8, x: bv8, y: bv8, z: bv8, a: bv8, b: bv8, c: bv8, d: bv8, e: bv8, f: bv8)
    requires (p ^ (q ^ r)) ^ (v ^ w ^ x ^ y ^ z) == a ^ b ^ c ^ d ^ e ^ f
    ensures Xor8(Xor8(p, Xor8(q, r)), Sum5(v, w, x, y, z)) == Sum6(a, b, c, d, e, f)
  {
  }

  // ---------------------------------------------------------------- the FL layer

  function MaskedTurn(x: bv32, k: bv32): bv32
  {
    RotL(x & k, 1)
  }

  function Or32(x: bv32, k: bv32): bv32
  {
    x | k
  }

  /** FL. */
  function Fl(k: Pair, x: Pair): Pair
  {
    var r := Xor32(MaskedTurn(x.l, k.l), x.r);
    Pair(Xor32(Or32(r, k.r), x.l), r)
  }

  /** FLInv. */
  function FlInv(k: Pair, y: Pair): Pair
  {
    var l := Xor32(Or32(y.r, k.r), y.l);
    Pair(l, Xor32(MaskedTurn(l, k.l), y.r))
  }

  /** FL by the equations of RFC 3713, section 2.4.2: x2 ^ ((x1 & k1) <<< 1), and with that as r, x1 ^ (r | k2). */
  lemma FlIsRfcFl(k1: bv32, k2: bv32, x1: bv32, x2: bv32, a: bv32, r: bv32)
    requires a == x1 & k1 && r == x2 ^ ((a << 1) | (a >> 31))
    ensures Fl(Pair(k1, k2), Pair(x1, x2)) == Pair(x1 ^ (r | k2), r)
  {
    MaskedTurnIs(x1, k1, a);
    XorIs((a << 1) | (a >> 31), x2);
    XorIs(r | k2, x1);
    hide Xor32, MaskedTurn;
  }

  lemma MaskedTurnIs(x: bv32, k: bv32, a: bv32)
    requires a == x & k
    ensures MaskedTurn(x, k) == (a << 1) | (a >> 31)
  {
  }

  lemma XorIs(x: bv32, y: bv32)
    ensures Xor32(x, y) == y ^ x
  {
  }

  lemma CancelLeft(x: bv32, y: bv32)
    ensures Xor32(x, Xor32(x, y)) == y
  {
    hide Xor32;
    Swap32(x, y);
    Swap32(x, Xor32(y, x));
    Cancel(y, x);
  }

  lemma FlUndone(k: Pair, x: Pair)
    ensures FlInv(k, Fl(k, x)) == x && Fl(k, FlInv(k, x)) == x
  {
    hide Xor32, MaskedTurn, Or32;
    var r := Xor32(MaskedTurn(x.l, k.l), x.r);
    CancelLeft(Or32(r, k.r), x.l);
    CancelLeft(MaskedTurn(x.l, k.l), x.r);
    var l := Xor32(Or32(x.r, k.r), x.l);
    CancelLeft(MaskedTurn(l, k.l), x.r);
    CancelLeft(Or32(x.r, k.r), x.l);
  }

  // ---------------------------------------------------------------- rounds and groups

  /** X[0], X[1] and X[2], X[3]. */
  datatype State = State(l: Pair, r: Pair)
  {
    function Swapped(): State { State(r, l) }
  }

  /** camellia_feistel, with the roles of the halves exchanged for the next. */
  function Round(s: Boxes, k: Pair, x: State): State
    requires s.Ok()
  {
    State(XorPair(x.r, F(s, k, x.l)), x.l)
  }

  function Layer(ka: Pair, kb: Pair, x: State): State
  {
    State(Fl(ka, x.l), FlInv(kb, x.r))
  }

  function Whiten(k0: Pair, k1: Pair, x: State): State
  {
    State(XorPair(x.l, k0), XorPair(x.r, k1))
  }

  function Rounds(s: Boxes, ks: seq<Pair>, x: State): State
    requires s.Ok()
  {
    if ks == [] then x else Rounds(s, ks[1..], Round(s, ks[0], x))
  }

  /** Six rounds, two layer keys, six rounds, ...: 8n + 6 keys. */
  function Groups(s: Boxes, ks: seq<Pair>, x: State): State
    requires s.Ok() && |ks| % 8 == 6
  {
    if |ks| == 6 then Rounds(s, ks, x)
    else Groups(s, ks[8..], Layer(ks[6], ks[7], Rounds(s, ks[..6], x)))
  }

  function Backward(ks: seq<Pair>): (r: seq<Pair>)
    ensures |r| == |ks|
  {
    seq(|ks|, i requires 0 <= i < |ks| => ks[|ks| - 1 - i])
  }

  lemma RoundBack(s: Boxes, k: Pair, x: State)
    requires s.Ok()
    ensures Round(s, k, Round(s, k, x).Swapped()) == x.Swapped()
  {
    hide F, XorPair;
    CancelPair(x.r, F(s, k, x.l));
  }

  lemma {:induction false} RoundsConcat(s: Boxes, a: seq<Pair>, b: seq<Pair>, x: State)
    requires s.Ok()
    ensures Rounds(s, a + b, x) == Rounds(s, b, Rounds(s, a, x))
    decreases |a|
  {
    hide Round;
    if a == [] {
      assert a + b == b;
    } else {
      RoundsConcat(s, a[1..], b, Round(s, a[0], x));
      assert (a + b)[1..] == a[1..] + b;
    }
  }

  lemma {:induction false} RoundsBack(s: Boxes, ks: seq<Pair>, x: State)
    requires s.Ok()
    ensures Rounds(s, Backward(ks), Rounds(s, ks, x).Swapped()) == x.Swapped()
    decreases |ks|
  {
    hide Round;
    if ks != [] {
      var k, rest := ks[0], ks[1..];
      assert Backward(ks) == Backward(rest) + [k];
      RoundsConcat(s, Backward(rest), [k], Rounds(s, ks, x).Swapped());
      RoundsBack(s, rest, Round(s, k, x));
      RoundBack(s, k, x);
      OneRound(s, k, Round(s, k, x).Swapped());
    }
  }

  lemma OneRound(s: Boxes, k: Pair, x: State)
    requires s.Ok()
    ensures Rounds(s, [k], x) == Round(s, k, x)
  {
    hide Round;
    assert [k][1..] == [];
    assert Rounds(s, [], Round(s, k, x)) == Round(s, k, x);
  }

  /** A layer with its keys exchanged takes a layer back on exchanged halves. */
  lemma LayerBack(ka: Pair, kb: Pair, x: State)
    ensures Layer(kb, ka, Layer(ka, kb, x).Swapped()) == x.Swapped()
  {
    hide Fl, FlInv;
    FlUndone(ka, x.l);
    FlUndone(kb, x.r);
  }

  /** One more layer and group at the end. */
  lemma {:induction false} GroupsSnoc(s: Boxes, ks: seq<Pair>, u: Pair, v: Pair, six: seq<Pair>, x: State)
    requires s.Ok() && |ks| % 8 == 6 && |six| == 6
    ensures Groups(s, ks + [u, v] + six, x) == Rounds(s, six, Layer(u, v, Groups(s, ks, x)))
    decreases |ks|
  {
    hide Rounds, Layer;
    var all := ks + [u, v] + six;
    if |ks| == 6 {
      assert all[..6] == ks && all[6] == u && all[7] == v && all[8..] == six;
    } else {
      assert all[..6] == ks[..6] && all[6] == ks[6] && all[7] == ks[7] && all[8..] == ks[8..] + [u, v] + six;
      GroupsSnoc(s, ks[8..], u, v, six, Layer(ks[6], ks[7], Rounds(s, ks[..6], x)));
    }
  }

  /** The keys backward take all groups and layers back. */
  lemma {:induction false} GroupsBack(s: Boxes, ks: seq<Pair>, x: State)
    requires s.Ok() && |ks| % 8 == 6
    ensures Groups(s, Backward(ks), Groups(s, ks, x).Swapped()) == x.Swapped()
    decreases |ks|
  {
    hide Rounds, Layer;
    if |ks| == 6 {
      RoundsBack(s, ks, x);
    } else {
      var six, rest := ks[..6], ks[8..];
      var y := Rounds(s, six, x);
      var z := Layer(ks[6], ks[7], y);
      assert Backward(ks) == Backward(rest) + [ks[7], ks[6]] + Backward(six);
      GroupsSnoc(s, Backward(rest), ks[7], ks[6], Backward(six), Groups(s, ks, x).Swapped());
      GroupsBack(s, rest, z);
      LayerBack(ks[6], ks[7], y);
      RoundsBack(s, six, x);
    }
  }

  // ---------------------------------------------------------------- the cipher

  /** 8 NR + 2 subkey pairs: two to whiten before, the groups, two to whiten after the last exchange. */
  function Crypt(s: Boxes, ks: seq<Pair>, x: State): State
    requires s.Ok() && |ks| >= 10 && |ks| % 8 == 2
  {
    var n := |ks|;
    Whiten(ks[n - 2], ks[n - 1], Groups(s, ks[2..n - 2], Whiten(ks[0], ks[1], x)).Swapped())
  }

  /** setkey_dec's order: everything backward but the two whitening pairs, which keep their own. */
  function Reordered(ks: seq<Pair>): (r: seq<Pair>)
    requires |ks| >= 4
    ensures |r| == |ks|
  {
    var n := |ks|;
    [ks[n - 2], ks[n - 1]] + Backward(ks[2..n - 2]) + [ks[0], ks[1]]
  }

  lemma WhitenTwice(k0: Pair, k1: Pair, x: State)
    ensures Whiten(k0, k1, Whiten(k0, k1, x)) == x
  {
    hide XorPair;
    CancelPair(x.l, k0);
    CancelPair(x.r, k1);
  }

  /** With the reordered schedule crypt_ecb undoes itself, whatever the keys and boxes hold. */
  lemma ReorderedUndoes(s: Boxes, ks: seq<Pair>, x: State)
    requires s.Ok() && |ks| >= 10 && |ks| % 8 == 2
    ensures Crypt(s, Reordered(ks), Crypt(s, ks, x)) == x
  {
    hide Groups, Whiten, Backward;
    var n := |ks|;
    var mid := ks[2..n - 2];
    var w := Whiten(ks[0], ks[1], x);
    var rs := Reordered(ks);
    assert rs[2..n - 2] == Backward(mid);
    WhitenTwice(ks[n - 2], ks[n - 1], Groups(s, mid, w).Swapped());
    GroupsBack(s, mid, w);
    WhitenTwice(ks[0], ks[1], x);
  }

  lemma ReorderedTwice(ks: seq<Pair>)
    requires |ks| >= 4
    ensures Reordered(Reordered(ks)) == ks
  {
    var n := |ks|;
    var rs := Reordered(ks);
    assert rs[2..n - 2] == Backward(ks[2..n - 2]);
    assert Backward(rs[2..n - 2]) == ks[2..n - 2];
    assert ks == [ks[0], ks[1]] + ks[2..n - 2] + [ks[n - 2], ks[n - 1]];
  }

  // ---------------------------------------------------------------- the code

  function StateOf(b: seq<bv8>): State
    requires |b| == 16
  {
    State(PairOf(b[..8]), PairOf(b[8..]))
  }

  function BytesOf(x: State): (b: seq<bv8>)
    ensures |b| == 16
  {
    BytesOfPair(x.l) + BytesOfPair(x.r)
  }

  lemma StateBytes(b: seq<bv8>, x: State)
    ensures |b| == 16 ==> BytesOf(StateOf(b)) == b
    ensures StateOf(BytesOf(x)) == x
  {
    hide PairOf, BytesOfPair;
    if |b| == 16 {
      PairBytes(b[..8]);
      PairBytes(b[8..]);
    }
    BytesPair(x.l);
    BytesPair(x.r);
  }

  /** The first n subkey pairs of rk. */
  function PairsOf(rk: seq<bv32>, n: nat): (r: seq<Pair>)
    requires 2 * n <= |rk|
    ensures |r| == n
  {
    seq(n, i requires 0 <= i < n => Pair(rk[2 * i], rk[2 * i + 1]))
  }

  /** The six camellia_feistel calls of a pass, from word k on. */
  method SixRounds(s: Boxes, rk: array<bv32>, k: nat, x: State) returns (y: State)
    requires s.Ok() && k + 12 <= rk.Length
    ensures y == Rounds(s, SixKeys(rk[..], k), x)
  {
    hide F, XorPair;
    var l, r := x.l, x.r;
    r := XorPair(r, F(s, Pair(rk[k], rk[k + 1]), l));
    l := XorPair(l, F(s, Pair(rk[k + 2], rk[k + 3]), r));
    r := XorPair(r, F(s, Pair(rk[k + 4], rk[k + 5]), l));
    l := XorPair(l, F(s, Pair(rk[k + 6], rk[k + 7]), r));
    r := XorPair(r, F(s, Pair(rk[k + 8], rk[k + 9]), l));
    l := XorPair(l, F(s, Pair(rk[k + 10], rk[k + 11]), r));
    y := State(l, r);
    SixTimes(s, Pair(rk[k], rk[k + 1]), Pair(rk[k + 2], rk[k + 3]), Pair(rk[k + 4], rk[k + 5]),
             Pair(rk[k + 6], rk[k + 7]), Pair(rk[k + 8], rk[k + 9]), Pair(rk[k + 10], rk[k + 11]), x);
  }

  function SixKeys(rk: seq<bv32>, k: nat): (r: seq<Pair>)
    requires k + 12 <= |rk|
    ensures |r| == 6
  {
    [Pair(rk[k], rk[k + 1]), Pair(rk[k + 2], rk[k + 3]), Pair(rk[k + 4], rk[k + 5]),
     Pair(rk[k + 6], rk[k + 7]), Pair(rk[k + 8], rk[k + 9]), Pair(rk[k + 10], rk[k + 11])]
  }

  lemma SixTimes(s: Boxes, a: Pair, b: Pair, c: Pair, d: Pair, e: Pair, f: Pair, x: State)
    requires s.Ok()
    ensures Rounds(s, [a, b, c, d, e, f], x)
      == Round(s, f, Round(s, e, Round(s, d, Round(s, c, Round(s, b, Round(s, a, x))))))
  {
    hide Round;
    assert [a, b, c, d, e, f] == [a] + [b] + [c] + [d] + [e] + [f];
    RoundsConcat(s, [a] + [b] + [c] + [d] + [e], [f], x);
    RoundsConcat(s, [a] + [b] + [c] + [d], [e], x);
    RoundsConcat(s, [a] + [b] + [c], [d], x);
    RoundsConcat(s, [a] + [b], [c], x);
    RoundsConcat(s, [a], [b], x);
    var x1 := Round(s, a, x);
    var x2 := Round(s, b, x1);
    var x3 := Round(s, c, x2);
    var x4 := Round(s, d, x3);
    var x5 := Round(s, e, x4);
    OneRound(s, a, x);
    OneRound(s, b, x1);
    OneRound(s, c, x2);
    OneRound(s, d, x3);
    OneRound(s, e, x4);
    OneRound(s, f, x5);
    hide Rounds;
  }

  /** The loop over the passes: g of them are done when x has gone through them. */
  method AllGroups(s: Boxes, rk: array<bv32>, nr: nat, x0: State) returns (x: State)
    requires s.Ok() && nr >= 1 && 4 + 16 * nr <= rk.Length
    ensures x == Groups(s, KeysFrom(rk[..], nr, 0), x0)
  {
    hide *;
    x := x0;
    var left, k := nr, 4;
    ghost var g := 0;
    while left > 1
      invariant 1 <= left <= nr && g == nr - left && k == 4 + 16 * g
      invariant Groups(s, KeysFrom(rk[..], nr, 0), x0) == Groups(s, KeysFrom(rk[..], nr, g), x)
    {
      GroupStep(s, KeysFrom(rk[..], nr, g), x);
      GroupKeys(rk[..], nr, g);
      KeysFromAt(rk[..], nr, g, 6);
      KeysFromAt(rk[..], nr, g, 7);
      NextKeys(rk[..], nr, g);
      x := SixRounds(s, rk, k, x);
      LayerIs(Pair(rk[k + 12], rk[k + 13]), Pair(rk[k + 14], rk[k + 15]), x);
      x := State(Fl(Pair(rk[k + 12], rk[k + 13]), x.l), FlInv(Pair(rk[k + 14], rk[k + 15]), x.r));
      k := k + 16;
      left := left - 1;
      g := g + 1;
    }
    GroupKeys(rk[..], nr, g);
    assert KeysFrom(rk[..], nr, g)[..6] == KeysFrom(rk[..], nr, g);
    GroupLast(s, KeysFrom(rk[..], nr, g), x);
    x := SixRounds(s, rk, k, x);
  }

  lemma LayerIs(ka: Pair, kb: Pair, x: State)
    ensures Layer(ka, kb, x) == State(Fl(ka, x.l), FlInv(kb, x.r))
  {
    hide Fl, FlInv;
  }

  /** One pass with its layer. */
  lemma GroupStep(s: Boxes, rest: seq<Pair>, x: State)
    requires s.Ok() && |rest| % 8 == 6 && |rest| > 6
    ensures Groups(s, rest, x) == Groups(s, rest[8..], Layer(rest[6], rest[7], Rounds(s, rest[..6], x)))
  {
  }

  /** The last pass has no layer. */
  lemma GroupLast(s: Boxes, rest: seq<Pair>, x: State)
    requires s.Ok() && |rest| == 6
    ensures Groups(s, rest, x) == Rounds(s, rest, x)
  {
  }

  /** The keys between the whitening pairs, from group g on. */
  function KeysFrom(rk: seq<bv32>, nr: nat, g: nat): (r: seq<Pair>)
    requires nr >= 1 && 4 + 16 * nr <= |rk| && g < nr
    ensures |r| == 8 * (nr - g) - 2
  {
    PairsOf(rk, 8 * nr + 2)[2 + 8 * g..8 * nr]
  }

  lemma KeysFromAt(rk: seq<bv32>, nr: nat, g: nat, j: nat)
    requires nr >= 1 && 4 + 16 * nr <= |rk| && g < nr && j < 8 * (nr - g) - 2
    ensures KeysFrom(rk, nr, g)[j] == Pair(rk[4 + 16 * g + 2 * j], rk[4 + 16 * g + 2 * j + 1])
  {
  }

  lemma GroupKeys(rk: seq<bv32>, nr: nat, g: nat)
    requires nr >= 1 && 4 + 16 * nr <= |rk| && g < nr
    ensures KeysFrom(rk, nr, g)[..6] == SixKeys(rk, 4 + 16 * g)
  {
    hide KeysFrom;
    KeysFromAt(rk, nr, g, 0);
    KeysFromAt(rk, nr, g, 1);
    KeysFromAt(rk, nr, g, 2);
    KeysFromAt(rk, nr, g, 3);
    KeysFromAt(rk, nr, g, 4);
    KeysFromAt(rk, nr, g, 5);
  }

  lemma NextKeys(rk: seq<bv32>, nr: nat, g: nat)
    requires nr >= 1 && 4 + 16 * nr <= |rk| && g + 1 < nr
    ensures KeysFrom(rk, nr, g)[8..] == KeysFrom(rk, nr, g + 1)
  {
    hide PairsOf;
  }

  /** mbedtls_camellia_crypt_ecb, which does not look at its mode; output may be input. */
  method CryptEcb(s: Boxes, rk: array<bv32>, nr: nat, input: array<bv8>, output: array<bv8>)
    requires s.Ok() && (nr == 3 || nr == 4) && rk.Length == 68 && input.Length == output.Length == 16
    modifies output
    ensures output[..] == BytesOf(Crypt(s, PairsOf(rk[..], 8 * nr + 2), StateOf(old(input[..]))))
  {
    hide Groups, Xor32, PairOf, BytesOfPair, F;
    var x := StateOf(input[..]);
    x := Whiten(Pair(rk[0], rk[1]), Pair(rk[2], rk[3]), x);
    x := AllGroups(s, rk, nr, x);
    var k := 16 * nr;
    var y := Whiten(Pair(rk[k], rk[k + 1]), Pair(rk[k + 2], rk[k + 3]), State(x.r, x.l));
    Store(output, BytesOf(y));
  }

  // ---------------------------------------------------------------- setkey_dec

  /** `*RK++ = *SK++` twice. */
  method CopyPair(dst: array<bv32>, r: nat, src: array<bv32>, k: nat)
    requires src != dst && k + 2 <= src.Length && r + 2 <= dst.Length
    modifies dst
    ensures dst[r] == src[k] && dst[r + 1] == src[k + 1]
    ensures forall i :: 0 <= i < dst.Length && i != r && i != r + 1 ==> dst[i] == old(dst[i])
  {
    dst[r] := src[k];
    dst[r + 1] := src[k + 1];
  }

  /** The first m pairs of dst are the first m of want. */
  ghost predicate Copied(dst: seq<bv32>, want: seq<Pair>, m: nat)
  {
    2 * m <= |dst| && m <= |want| && PairsOf(dst, m) == want[..m]
  }

  lemma CopiedMore(dst: seq<bv32>, dst': seq<bv32>, want: seq<Pair>, m: nat)
    requires Copied(dst, want, m) && m < |want| && |dst'| == |dst| && 2 * m + 2 <= |dst|
    requires forall i :: 0 <= i < |dst| && i != 2 * m && i != 2 * m + 1 ==> dst'[i] == dst[i]
    requires Pair(dst'[2 * m], dst'[2 * m + 1]) == want[m]
    ensures Copied(dst', want, m + 1)
  {
    assert want[..m + 1] == want[..m] + [want[m]];
    forall i | 0 <= i < m
      ensures PairsOf(dst', m + 1)[i] == PairsOf(dst, m)[i]
    {
    }
  }

  /** One pair, from pair p of the encryption schedule to its place in the decryption schedule. */
  method PlacePair(cty: array<bv32>, rk: array<bv32>, ghost n: nat, m: nat, p: nat)
    requires cty != rk && cty.Length == rk.Length && 4 <= n && 2 * n <= cty.Length && m < n && p < n
    requires Reordered(PairsOf(cty[..], n))[m] == PairsOf(cty[..], n)[p]
    requires Copied(rk[..], Reordered(PairsOf(cty[..], n)), m)
    modifies rk
    ensures Copied(rk[..], Reordered(PairsOf(cty[..], n)), m + 1)
  {
    ghost var was, want := rk[..], Reordered(PairsOf(cty[..], n));
    assert PairsOf(cty[..], n)[p] == Pair(cty[2 * p], cty[2 * p + 1]);
    hide Reordered, Copied, PairsOf;
    CopyPair(rk, 2 * m, cty, 2 * p);
    CopiedMore(was, rk[..], want, m);
  }

  lemma ReorderedAt(ks: seq<Pair>, m: nat)
    requires |ks| >= 4 && m < |ks|
    ensures Reordered(ks)[m] ==
      ks[if m < 2 then |ks| - 2 + m else if m < |ks| - 2 then |ks| - 1 - m else m - (|ks| - 2)]
  {
  }

  /** The copying of mbedtls_camellia_setkey_dec: SK walks down the encryption schedule. */
  method Reorder(cty: array<bv32>, rk: array<bv32>, nr: nat)
    requires cty != rk && cty.Length == rk.Length == 68 && (nr == 3 || nr == 4)
    modifies rk
    ensures PairsOf(rk[..], 8 * nr + 2) == Reordered(PairsOf(cty[..], 8 * nr + 2))
  {
    hide Reordered, Copied, PairsOf;
    var n := 8 * nr + 2;
    ghost var ks := PairsOf(cty[..], n);
    NothingCopied(rk[..], Reordered(ks));
    ReorderedAt(ks, 0);
    ReorderedAt(ks, 1);
    PlacePair(cty, rk, n, 0, n - 2);
    PlacePair(cty, rk, n, 1, n - 1);
    var m, p := 2, n - 3;
    while m < n - 2
      invariant 2 <= m <= n - 2 && p == n - 1 - m
      invariant Copied(rk[..], Reordered(ks), m)
    {
      ReorderedAt(ks, m);
      PlacePair(cty, rk, n, m, p);
      m := m + 1;
      p := p - 1;
    }
    ReorderedAt(ks, n - 2);
    ReorderedAt(ks, n - 1);
    PlacePair(cty, rk, n, n - 2, 0);
    PlacePair(cty, rk, n, n - 1, 1);
    AllCopied(rk[..], Reordered(ks));
  }

  lemma NothingCopied(dst: seq<bv32>, want: seq<Pair>)
    ensures Copied(dst, want, 0)
  {
  }

  lemma AllCopied(dst: seq<bv32>, want: seq<Pair>)
    requires Copied(dst, want, |want|)
    ensures PairsOf(dst, |want|) == want
  {
  }

  // ---------------------------------------------------------------- as a block cipher

  function CryptedBytes(s: Boxes, ks: seq<Pair>, b: seq<bv8>): seq<bv8>
    requires s.Ok() && |ks| >= 10 && |ks| % 8 == 2
  {
    if |b| == 16 then BytesOf(Crypt(s, ks, StateOf(b))) else b
  }

  function CipherUnder(s: Boxes, ks: seq<Pair>): BlockCipher
    requires s.Ok() && |ks| >= 10 && |ks| % 8 == 2
  {
    BlockCipher(16, b => CryptedBytes(s, ks, b), b => CryptedBytes(s, Reordered(ks), b))
  }

  lemma CamelliaIsAPermutation(s: Boxes, ks: seq<Pair>)
    requires s.Ok() && |ks| >= 10 && |ks| % 8 == 2
    ensures CipherUnder(s, ks).Permutation()
  {
    hide Crypt, Reordered, StateOf, BytesOf;
    var c := CipherUnder(s, ks);
    ReorderedTwice(ks);
    forall b: seq<bv8> | |b| == 16
      ensures |c.enc(b)| == 16 && |c.dec(b)| == 16 && c.dec(c.enc(b)) == b && c.enc(c.dec(b)) == b
    {
      var x := StateOf(b);
      StateBytes(b, Crypt(s, ks, x));
      StateBytes(b, Crypt(s, Reordered(ks), x));
      ReorderedUndoes(s, ks, x);
      ReorderedUndoes(s, Reordered(ks), x);
    }
  }
}
