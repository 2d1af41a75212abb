/** ARIA: substitution layers and the diffusion aria_a, for any round keys. */
module AriaCipher {
  import opened Blocks
  import opened Octets
  import opened AesField
  import opened AesCipher
  import opened AesTables

  // ---------------------------------------------------------------- sums of selected bytes

  function Mask16(k: nat): bv16
    requires k < 16
  {
    if k == 0 then 0x1 else if k == 1 then 0x2 else if k == 2 then 0x4 else if k == 3 then 0x8
    else if k == 4 then 0x10 else if k == 5 then 0x20 else if k == 6 then 0x40 else if k == 7 then 0x80
    else if k == 8 then 0x100 else if k == 9 then 0x200 else if k == 10 then 0x400 else if k == 11 then 0x800
    else if k == 12 then 0x1000 else if k == 13 then 0x2000 else if k == 14 then 0x4000 else 0x8000
  }

  predicate Chosen(m: bv16, k: nat)
    requires k < 16
  {
    m & Mask16(k) != 0
  }

  function Xor16(m: bv16, n: bv16): bv16
  {
    m ^ n
  }

  lemma ChosenXor(m: bv16, n: bv16, k: nat)
    requires k < 16
    ensures Chosen(Xor16(m, n), k) == (Chosen(m, k) != Chosen(n, k))
  {
    XorMasked16(m, n, Mask16(k));
    hide Mask16;
  }

  lemma XorMasked16(m: bv16, n: bv16, b: bv16)
    requires b == 0x1 || b == 0x2 || b == 0x4 || b == 0x8 || b == 0x10 || b == 0x20 || b == 0x40 || b == 0x80
      || b == 0x100 || b == 0x200 || b == 0x400 || b == 0x800 || b == 0x1000 || b == 0x2000 || b == 0x4000 || b == 0x8000
    ensures ((m ^ n) & b != 0) == ((m & b != 0) != (n & b != 0))
  {
  }

  /** The sum of the bytes of x that m selects, from byte k on. */
  function SumFrom(m: bv16, x: seq<bv8>, k: nat): bv8
    requires |x| == 16 && k <= 16
    decreases 16 - k
  {
    if k == 16 then 0 else Add(Pick(Chosen(m, k), x[k]), SumFrom(m, x, k + 1))
  }

  function Sum(m: bv16, x: seq<bv8>): bv8
    requires |x| == 16
  {
    SumFrom(m, x, 0)
  }

  lemma PickXor(a: bool, b: bool, x: bv8)
    ensures Pick(a != b, x) == Add(Pick(a, x), Pick(b, x))
  {
    AddZero(0);
    AddZero(x);
    AddSelf(x);
    AddSwap(0, x);
    hide Add;
  }

  lemma {:induction false} SumFromXor(m: bv16, n: bv16, x: seq<bv8>, k: nat)
    requires |x| == 16 && k <= 16
    ensures SumFrom(Xor16(m, n), x, k) == Add(SumFrom(m, x, k), SumFrom(n, x, k))
    decreases 16 - k
  {
    hide Add, Pick, Chosen, Xor16;
    if k == 16 {
      AddZero(0);
    } else {
      ChosenXor(m, n, k);
      PickXor(Chosen(m, k), Chosen(n, k), x[k]);
      SumFromXor(m, n, x, k + 1);
      Add4(Pick(Chosen(m, k), x[k]), Pick(Chosen(n, k), x[k]), SumFrom(m, x, k + 1), SumFrom(n, x, k + 1));
    }
  }

  /** Selections add up. */
  lemma SumXor(m: bv16, n: bv16, x: seq<bv8>)
    requires |x| == 16
    ensures Sum(Xor16(m, n), x) == Add(Sum(m, x), Sum(n, x))
  {
    hide SumFrom, Add;
    SumFromXor(m, n, x, 0);
  }

  function AddBytes(x: seq<bv8>, y: seq<bv8>): (r: seq<bv8>)
    requires |x| == |y| == 16
    ensures |r| == 16
  {
    seq(16, i requires 0 <= i < 16 => Add(x[i], y[i]))
  }

  lemma OneChosen(i: nat, k: nat)
    requires i < 16 && k < 16
    ensures Chosen(Mask16(i), k) <==> i == k
  {
  }

  lemma {:induction false} SumFromOne(i: nat, x: seq<bv8>, k: nat)
    requires |x| == 16 && k <= 16 && i < 16
    ensures SumFrom(Mask16(i), x, k) == if k <= i then x[i] else 0
    decreases 16 - k
  {
    hide Chosen, Mask16, Add;
    if k < 16 {
      OneChosen(i, k);
      SumFromOne(i, x, k + 1);
      AddZero(0);
      AddZero(x[i]);
      AddSwap(0, x[i]);
    }
  }

  // ---------------------------------------------------------------- the diffusion layer

  /** The matrix of section 2.4.3 of RFC 5794: bit k of row i says whether byte k goes into byte i. Byte 0, for one, is
      the sum of bytes 3, 4, 6, 8, 9, 13 and 14. */
  function Row(i: nat): bv16
    requires i < 16
  {
    if i == 0 then 0x6358 else if i == 1 then 0x93A4 else if i == 2 then 0x9C52 else if i == 3 then 0x6CA1
    else if i == 4 then 0xC925 else if i == 5 then 0xC61A else if i == 6 then 0x3685 else if i == 7 then 0x394A
    else if i == 8 then 0xA493 else if i == 9 then 0x5863 else if i == 10 then 0xA16C else if i == 11 then 0x529C
    else if i == 12 then 0x1AC6 else if i == 13 then 0x25C9 else if i == 14 then 0x4A39 else 0x8536
  }

  function Diffuse(x: seq<bv8>): (r: seq<bv8>)
    requires |x| == 16
    ensures |r| == 16
  {
    seq(16, i requires 0 <= i < 16 => Sum(Row(i), x))
  }

  lemma DiffuseAt(x: seq<bv8>, i: nat)
    requires |x| == 16 && i < 16
    ensures Diffuse(x)[i] == Sum(Row(i), x)
  {
    hide Sum, Row;
  }

  /** A single byte as a selection. */
  lemma Single(i: nat, x: seq<bv8>)
    requires |x| == 16 && i < 16
    ensures Sum(Mask16(i), x) == x[i]
  {
    hide Mask16, SumFrom;
    SumFromOne(i, x, 0);
  }

  lemma Singles(x: seq<bv8>)
    requires |x| == 16
    ensures Sum(0x0001, x) == x[0]
    ensures Sum(0x0002, x) == x[1]
    ensures Sum(0x0004, x) == x[2]
    ensures Sum(0x0008, x) == x[3]
    ensures Sum(0x0010, x) == x[4]
    ensures Sum(0x0020, x) == x[5]
    ensures Sum(0x0040, x) == x[6]
    ensures Sum(0x0080, x) == x[7]
    ensures Sum(0x0100, x) == x[8]
    ensures Sum(0x0200, x) == x[9]
    ensures Sum(0x0400, x) == x[10]
    ensures Sum(0x0800, x) == x[11]
    ensures Sum(0x1000, x) == x[12]
    ensures Sum(0x2000, x) == x[13]
    ensures Sum(0x4000, x) == x[14]
    ensures Sum(0x8000, x) == x[15]
  {
    hide Sum;
    Single(0, x);
    Single(1, x);
    Single(2, x);
    Single(3, x);
    Single(4, x);
    Single(5, x);
    Single(6, x);
    Single(7, x);
    Single(8, x);
    Single(9, x);
    Single(10, x);
    Single(11, x);
    Single(12, x);
    Single(13, x);
    Single(14, x);
    Single(15, x);
  }

  function Add7(a: bv8, b: bv8, c: bv8, d: bv8, e: bv8, f: bv8, g: bv8): bv8
  {
    Add(a, Add(b, Add(c, Add(d, Add(e, Add(f, g))))))
  }

  function Xor7(a: bv16, b: bv16, c: bv16, d: bv16, e: bv16, f: bv16, g: bv16): bv16
  {
    Xor16(a, Xor16(b, Xor16(c, Xor16(d, Xor16(e, Xor16(f, g))))))
  }

  lemma Sum7(a: bv16, b: bv16, c: bv16, d: bv16, e: bv16, f: bv16, g: bv16, x: seq<bv8>)
    requires |x| == 16
    ensures Add7(Sum(a, x), Sum(b, x), Sum(c, x), Sum(d, x), Sum(e, x), Sum(f, x), Sum(g, x))
      == Sum(Xor7(a, b, c, d, e, f, g), x)
  {
    hide Sum, Add, Xor16;
    SumXor(f, g, x);
    SumXor(e, Xor16(f, g), x);
    SumXor(d, Xor16(e, Xor16(f, g)), x);
    SumXor(c, Xor16(d, Xor16(e, Xor16(f, g))), x);
    SumXor(b, Xor16(c, Xor16(d, Xor16(e, Xor16(f, g)))), x);
    SumXor(a, Xor16(b, Xor16(c, Xor16(d, Xor16(e, Xor16(f, g))))), x);
  }

  /** Row i selects these seven bytes, and the seven rows of the same numbers add up to byte i alone. */
  ghost predicate Inverts(i: nat, a: nat, b: nat, c: nat, d: nat, e: nat, f: nat, g: nat)
  {
    i < 16 && a < 16 && b < 16 && c < 16 && d < 16 && e < 16 && f < 16 && g < 16 &&
    Row(i) == Xor7(Mask16(a), Mask16(b), Mask16(c), Mask16(d), Mask16(e), Mask16(f), Mask16(g)) &&
    Mask16(i) == Xor7(Row(a), Row(b), Row(c), Row(d), Row(e), Row(f), Row(g))
  }

  lemma RowTwice(x: seq<bv8>, i: nat, a: nat, b: nat, c: nat, d: nat, e: nat, f: nat, g: nat)
    requires |x| == 16 && Inverts(i, a, b, c, d, e, f, g)
    ensures Diffuse(Diffuse(x))[i] == x[i]
  {
    hide Sum, Row, Mask16, Xor7, Add7, Diffuse;
    var y := Diffuse(x);
    DiffuseAt(y, i);
    Single(i, x);
    Sum7(Mask16(a), Mask16(b), Mask16(c), Mask16(d), Mask16(e), Mask16(f), Mask16(g), y);
    Sum7(Row(a), Row(b), Row(c), Row(d), Row(e), Row(f), Row(g), x);
    DiffusedByte(x, a);
    DiffusedByte(x, b);
    DiffusedByte(x, c);
    DiffusedByte(x, d);
    DiffusedByte(x, e);
    DiffusedByte(x, f);
    DiffusedByte(x, g);
  }

  lemma DiffusedByte(x: seq<bv8>, k: nat)
    requires |x| == 16 && k < 16
    ensures Sum(Mask16(k), Diffuse(x)) == Sum(Row(k), x)
  {
    hide Sum, Row, Mask16, Diffuse;
    Single(k, Diffuse(x));
    DiffuseAt(x, k);
  }

  lemma MaskTable()
    ensures Mask16(0) == 0x0001 && Mask16(1) == 0x0002 && Mask16(2) == 0x0004 && Mask16(3) == 0x0008
    ensures Mask16(4) == 0x0010 && Mask16(5) == 0x0020 && Mask16(6) == 0x0040 && Mask16(7) == 0x0080
    ensures Mask16(8) == 0x0100 && Mask16(9) == 0x0200 && Mask16(10) == 0x0400 && Mask16(11) == 0x0800
    ensures Mask16(12) == 0x1000 && Mask16(13) == 0x2000 && Mask16(14) == 0x4000 && Mask16(15) == 0x8000
  {
  }

  lemma RowTable()
    ensures Row(0) == 0x6358 && Row(1) == 0x93A4 && Row(2) == 0x9C52 && Row(3) == 0x6CA1
    ensures Row(4) == 0xC925 && Row(5) == 0xC61A && Row(6) == 0x3685 && Row(7) == 0x394A
    ensures Row(8) == 0xA493 && Row(9) == 0x5863 && Row(10) == 0xA16C && Row(11) == 0x529C
    ensures Row(12) == 0x1AC6 && Row(13) == 0x25C9 && Row(14) == 0x4A39 && Row(15) == 0x8536
  {
  }

  lemma Inverts0()
    ensures Inverts(0, 3, 4, 6, 8, 9, 13, 14)
    ensures Inverts(1, 2, 5, 7, 8, 9, 12, 15)
    ensures Inverts(2, 1, 4, 6, 10, 11, 12, 15)
    ensures Inverts(3, 0, 5, 7, 10, 11, 13, 14)
  {
    MaskTable();
    RowTable();
    hide Mask16, Row;
  }

  lemma Inverts1()
    ensures Inverts(4, 0, 2, 5, 8, 11, 14, 15)
    ensures Inverts(5, 1, 3, 4, 9, 10, 14, 15)
    ensures Inverts(6, 0, 2, 7, 9, 10, 12, 13)
    ensures Inverts(7, 1, 3, 6, 8, 11, 12, 13)
  {
    MaskTable();
    RowTable();
    hide Mask16, Row;
  }

  lemma Inverts2()
    ensures Inverts(8, 0, 1, 4, 7, 10, 13, 15)
    ensures Inverts(9, 0, 1, 5, 6, 11, 12, 14)
    ensures Inverts(10, 2, 3, 5, 6, 8, 13, 15)
    ensures Inverts(11, 2, 3, 4, 7, 9, 12, 14)
  {
    MaskTable();
    RowTable();
    hide Mask16, Row;
  }

  lemma Inverts3()
    ensures Inverts(12, 1, 2, 6, 7, 9, 11, 12)
    ensures Inverts(13, 0, 3, 6, 7, 8, 10, 13)
    ensures Inverts(14, 0, 3, 4, 5, 9, 11, 14)
    ensures Inverts(15, 1, 2, 4, 5, 8, 10, 15)
  {
    MaskTable();
    RowTable();
    hide Mask16, Row;
  }

  /** The matrix is its own inverse. */
  lemma DiffuseTwice(x: seq<bv8>)
    requires |x| == 16
    ensures Diffuse(Diffuse(x)) == x
  {
    hide *;
    Inverts0();
    Inverts1();
    Inverts2();
    Inverts3();
    RowTwice(x, 0, 3, 4, 6, 8, 9, 13, 14);
    RowTwice(x, 1, 2, 5, 7, 8, 9, 12, 15);
    RowTwice(x, 2, 1, 4, 6, 10, 11, 12, 15);
    RowTwice(x, 3, 0, 5, 7, 10, 11, 13, 14);
    RowTwice(x, 4, 0, 2, 5, 8, 11, 14, 15);
    RowTwice(x, 5, 1, 3, 4, 9, 10, 14, 15);
    RowTwice(x, 6, 0, 2, 7, 9, 10, 12, 13);
    RowTwice(x, 7, 1, 3, 6, 8, 11, 12, 13);
    RowTwice(x, 8, 0, 1, 4, 7, 10, 13, 15);
    RowTwice(x, 9, 0, 1, 5, 6, 11, 12, 14);
    RowTwice(x, 10, 2, 3, 5, 6, 8, 13, 15);
    RowTwice(x, 11, 2, 3, 4, 7, 9, 12, 14);
    RowTwice(x, 12, 1, 2, 6, 7, 9, 11, 12);
    RowTwice(x, 13, 0, 3, 6, 7, 8, 10, 13);
    RowTwice(x, 14, 0, 3, 4, 5, 9, 11, 14);
    RowTwice(x, 15, 1, 2, 4, 5, 8, 10, 15);
  }

  lemma SumIs(m: bv16, x: seq<bv8>)
    requires |x| == 16
    ensures Sum(m, x) == SumFrom(m, x, 0)
  {
    hide SumFrom;
  }

  lemma AddBytesAt(x: seq<bv8>, y: seq<bv8>)
    requires |x| == |y| == 16
    ensures forall i :: 0 <= i < 16 ==> AddBytes(x, y)[i] == Add(x[i], y[i])
  {
    hide Add;
  }

  lemma PickAdded(b: bool, x: bv8, y: bv8)
    ensures Pick(b, Add(x, y)) == Add(Pick(b, x), Pick(b, y))
  {
    AddZero(0);
    hide Add;
  }

  lemma {:induction false} SumFromAdd(m: bv16, x: seq<bv8>, y: seq<bv8>, k: nat)
    requires |x| == |y| == 16 && k <= 16
    ensures SumFrom(m, AddBytes(x, y), k) == Add(SumFrom(m, x, k), SumFrom(m, y, k))
    decreases 16 - k
  {
    hide Add, Pick, Chosen, AddBytes;
    if k == 16 {
      AddZero(0);
    } else {
      AddBytesAt(x, y);
      SumFromAdd(m, x, y, k + 1);
      PickAdded(Chosen(m, k), x[k], y[k]);
      Add4(Pick(Chosen(m, k), x[k]), Pick(Chosen(m, k), y[k]), SumFrom(m, x, k + 1), SumFrom(m, y, k + 1));
    }
  }

  /** The diffusion is linear. */
  lemma DiffuseAdd(x: seq<bv8>, y: seq<bv8>)
    requires |x| == |y| == 16
    ensures Diffuse(AddBytes(x, y)) == AddBytes(Diffuse(x), Diffuse(y))
  {
    hide *;
    AddBytesAt(Diffuse(x), Diffuse(y));
    forall i | 0 <= i < 16
      ensures Diffuse(AddBytes(x, y))[i] == Add(Diffuse(x)[i], Diffuse(y)[i])
    {
      DiffuseAt(x, i);
      DiffuseAt(y, i);
      DiffuseAt(AddBytes(x, y), i);
      SumIs(Row(i), x);
      SumIs(Row(i), y);
      SumIs(Row(i), AddBytes(x, y));
      SumFromAdd(Row(i), x, y, 0);
    }
  }

  // ---------------------------------------------------------------- aria_a on words

  /** ARIA_P1: the bytes of each half exchanged. */
  function P1(x: bv32): bv32
  {
    ((x >> 8) & 0x00FF00FF) ^ ((x & 0x00FF00FF) << 8)
  }

  /** ARIA_P2: the halves exchanged. */
  function P2(x: bv32): bv32
  {
    (x >> 16) ^ (x << 16)
  }

  lemma ColP1(x: bv32)
    ensures Col(P1(x)) == Column(B1(x), B0(x), B3(x), B2(x))
  {
  }

  lemma ColP2(x: bv32)
    ensures Col(P2(x)) == Column(B2(x), B3(x), B0(x), B1(x))
  {
  }

  datatype Quad = Quad(a: bv32, b: bv32, c: bv32, d: bv32)

  function ColBytes(c: Column): (r: seq<bv8>)
    ensures |r| == 4
  {
    [c.r0, c.r1, c.r2, c.r3]
  }

  /** The sixteen bytes of a state. */
  function QuadBytes(q: Quad): (r: seq<bv8>)
    ensures |r| == 16
  {
    ColBytes(Col(q.a)) + ColBytes(Col(q.b)) + ColBytes(Col(q.c)) + ColBytes(Col(q.d))
  }

  /** Bytes k to k + 3 as a column. */
  function Quarter(x: seq<bv8>, k: nat): Column
    requires k + 4 <= |x|
  {
    Column(x[k], x[k + 1], x[k + 2], x[k + 3])
  }

  lemma QuartersOf(q: Quad)
    ensures Quarter(QuadBytes(q), 0) == Col(q.a) && Quarter(QuadBytes(q), 4) == Col(q.b)
    ensures Quarter(QuadBytes(q), 8) == Col(q.c) && Quarter(QuadBytes(q), 12) == Col(q.d)
  {
    hide Col;
  }

  /** Four columns make the sixteen bytes. */
  lemma FromQuarters(x: seq<bv8>, y: seq<bv8>)
    requires |x| == |y| == 16
    requires Quarter(x, 0) == Quarter(y, 0) && Quarter(x, 4) == Quarter(y, 4)
    requires Quarter(x, 8) == Quarter(y, 8) && Quarter(x, 12) == Quarter(y, 12)
    ensures x == y
  {
    FourBytes(x, y, 0);
    FourBytes(x, y, 4);
    FourBytes(x, y, 8);
    FourBytes(x, y, 12);
  }

  lemma FourBytes(x: seq<bv8>, y: seq<bv8>, k: nat)
    requires |x| == |y| && k + 4 <= |x| && Quarter(x, k) == Quarter(y, k)
    ensures x[k] == y[k] && x[k + 1] == y[k + 1] && x[k + 2] == y[k + 2] && x[k + 3] == y[k + 3]
  {
  }

  /** The bytes of w are these selections of bytes of x. */
  ghost predicate Selects(w: bv32, m0: bv16, m1: bv16, m2: bv16, m3: bv16, x: seq<bv8>)
    requires |x| == 16
  {
    Col(w) == Column(Sum(m0, x), Sum(m1, x), Sum(m2, x), Sum(m3, x))
  }

  lemma SelectsXor(v: bv32, w: bv32, m0: bv16, m1: bv16, m2: bv16, m3: bv16, n0: bv16, n1: bv16, n2: bv16, n3: bv16, x: seq<bv8>)
    requires |x| == 16 && Selects(v, m0, m1, m2, m3, x) && Selects(w, n0, n1, n2, n3, x)
    ensures Selects(XorWords(v, w), Xor16(m0, n0), Xor16(m1, n1), Xor16(m2, n2), Xor16(m3, n3), x)
  {
    hide Sum, Col, Xor16, XorWords, Add;
    ColXor(v, w);
    SumXor(m0, n0, x);
    SumXor(m1, n1, x);
    SumXor(m2, n2, x);
    SumXor(m3, n3, x);
  }

  lemma SelectsTurned(w: bv32, m0: bv16, m1: bv16, m2: bv16, m3: bv16, x: seq<bv8>)
    requires |x| == 16 && Selects(w, m0, m1, m2, m3, x)
    ensures Selects(P1(w), m1, m0, m3, m2, x) && Selects(P2(w), m2, m3, m0, m1, x)
  {
    ColP1(w);
    ColP2(w);
    hide Sum, P1, P2, B0, B1, B2, B3;
  }

  lemma QuadSelects(q: Quad)
    ensures var x := QuadBytes(q);
      && Selects(q.a, 0x0001, 0x0002, 0x0004, 0x0008, x) && Selects(q.b, 0x0010, 0x0020, 0x0040, 0x0080, x)
      && Selects(q.c, 0x0100, 0x0200, 0x0400, 0x0800, x) && Selects(q.d, 0x1000, 0x2000, 0x4000, 0x8000, x)
  {
    hide Sum, Col;
    Singles(QuadBytes(q));
    QuartersOf(q);
    hide QuadBytes;
  }

  /** The first nine assignments of aria_a. */
  method MixFirst(a0: bv32, b0: bv32, c0: bv32, d0: bv32, ghost x: seq<bv8>) returns (a: bv32, b: bv32, c: bv32, d: bv32, ta: bv32, tb: bv32, tc: bv32)
    requires |x| == 16
    requires Selects(a0, 0x0001, 0x0002, 0x0004, 0x0008, x)
    requires Selects(b0, 0x0010, 0x0020, 0x0040, 0x0080, x)
    requires Selects(c0, 0x0100, 0x0200, 0x0400, 0x0800, x)
    requires Selects(d0, 0x1000, 0x2000, 0x4000, 0x8000, x)
    ensures Selects(a, 0x0040, 0x0080, 0x0010, 0x0020, x)
    ensures Selects(b, 0x0001, 0x0002, 0x0004, 0x0008, x)
    ensures Selects(c, 0x8000, 0x4000, 0x2000, 0x1000, x)
    ensures Selects(d, 0x0200, 0x0100, 0x0800, 0x0400, x)
    ensures Selects(ta, 0x8124, 0x4218, 0x2481, 0x1842, x)
    ensures Selects(tb, 0x4000, 0x8000, 0x1000, 0x2000, x)
    ensures Selects(tc, 0x0004, 0x0008, 0x0001, 0x0002, x)
  {
    hide Selects, XorWords, P1, P2, Sum, SumFrom;
    a := a0;
    b := b0;
    c := c0;
    d := d0;
    var t: bv32;
    ta := b;
    b := a;
    SelectsTurned(ta, 0x0010, 0x0020, 0x0040, 0x0080, x);
    a := P2(ta);
    SelectsTurned(d, 0x1000, 0x2000, 0x4000, 0x8000, x);
    tb := P2(d);
    SelectsTurned(c, 0x0100, 0x0200, 0x0400, 0x0800, x);
    d := P1(c);
    SelectsTurned(tb, 0x4000, 0x8000, 0x1000, 0x2000, x);
    c := P1(tb);
    SelectsXor(ta, d, 0x0010, 0x0020, 0x0040, 0x0080, 0x0200, 0x0100, 0x0800, 0x0400, x);
    ta := XorWords(ta, d);
    SelectsTurned(b, 0x0001, 0x0002, 0x0004, 0x0008, x);
    tc := P2(b);
    SelectsTurned(ta, 0x0210, 0x0120, 0x0840, 0x0480, x);
    t := P1(ta);
    SelectsXor(t, tc, 0x0120, 0x0210, 0x0480, 0x0840, 0x0004, 0x0008, 0x0001, 0x0002, x);
    t := XorWords(t, tc);
    SelectsXor(t, c, 0x0124, 0x0218, 0x0481, 0x0842, 0x8000, 0x4000, 0x2000, 0x1000, x);
    ta := XorWords(t, c);
  }

  /** The next five. */
  method MixMiddle(a0: bv32, b0: bv32, d0: bv32, ta0: bv32, tb0: bv32, tc0: bv32, ghost x: seq<bv8>) returns (a: bv32, b: bv32, ta: bv32, tb: bv32, tc: bv32)
    requires |x| == 16
    requires Selects(a0, 0x0040, 0x0080, 0x0010, 0x0020, x)
    requires Selects(b0, 0x0001, 0x0002, 0x0004, 0x0008, x)
    requires Selects(d0, 0x0200, 0x0100, 0x0800, 0x0400, x)
    requires Selects(ta0, 0x8124, 0x4218, 0x2481, 0x1842, x)
    requires Selects(tb0, 0x4000, 0x8000, 0x1000, 0x2000, x)
    requires Selects(tc0, 0x0004, 0x0008, 0x0001, 0x0002, x)
    ensures Selects(a, 0x6358, 0x93A4, 0x9C52, 0x6CA1, x)
    ensures Selects(b, 0xC925, 0xC61A, 0x3685, 0x394A, x)
    ensures Selects(ta, 0x8124, 0x4218, 0x2481, 0x1842, x)
    ensures Selects(tb, 0x9324, 0x6318, 0x6C81, 0x9C42, x)
    ensures Selects(tc, 0x0084, 0x0048, 0x0021, 0x0012, x)
  {
    hide Selects, XorWords, P1, P2, Sum, SumFrom;
    a := a0;
    b := b0;
    ta := ta0;
    tb := tb0;
    tc := tc0;
    var d := d0;
    var t: bv32;
    SelectsTurned(d, 0x0200, 0x0100, 0x0800, 0x0400, x);
    t := P2(d);
    SelectsXor(tb, t, 0x4000, 0x8000, 0x1000, 0x2000, 0x0800, 0x0400, 0x0200, 0x0100, x);
    tb := XorWords(tb, t);
    SelectsTurned(a, 0x0040, 0x0080, 0x0010, 0x0020, x);
    t := P1(a);
    SelectsXor(tc, t, 0x0004, 0x0008, 0x0001, 0x0002, 0x0080, 0x0040, 0x0020, 0x0010, x);
    tc := XorWords(tc, t);
    SelectsXor(ta, tb, 0x8124, 0x4218, 0x2481, 0x1842, 0x4800, 0x8400, 0x1200, 0x2100, x);
    t := XorWords(ta, tb);
    SelectsXor(b, t, 0x0001, 0x0002, 0x0004, 0x0008, 0xC924, 0xC618, 0x3681, 0x3942, x);
    b := XorWords(b, t);
    SelectsTurned(tb, 0x4800, 0x8400, 0x1200, 0x2100, x);
    t := P2(tb);
    SelectsXor(t, ta, 0x1200, 0x2100, 0x4800, 0x8400, 0x8124, 0x4218, 0x2481, 0x1842, x);
    tb := XorWords(t, ta);
    SelectsTurned(tb, 0x9324, 0x6318, 0x6C81, 0x9C42, x);
    t := P1(tb);
    SelectsXor(a, t, 0x0040, 0x0080, 0x0010, 0x0020, 0x6318, 0x9324, 0x9C42, 0x6C81, x);
    a := XorWords(a, t);
  }

  /** The last four. */
  method MixLast(c0: bv32, d0: bv32, ta0: bv32, tc0: bv32, ghost x: seq<bv8>) returns (c: bv32, d: bv32)
    requires |x| == 16
    requires Selects(c0, 0x8000, 0x4000, 0x2000, 0x1000, x)
    requires Selects(d0, 0x0200, 0x0100, 0x0800, 0x0400, x)
    requires Selects(ta0, 0x8124, 0x4218, 0x2481, 0x1842, x)
    requires Selects(tc0, 0x0084, 0x0048, 0x0021, 0x0012, x)
    ensures Selects(c, 0xA493, 0x5863, 0xA16C, 0x529C, x)
    ensures Selects(d, 0x1AC6, 0x25C9, 0x4A39, 0x8536, x)
  {
    hide Selects, XorWords, P1, P2, Sum, SumFrom;
    c := c0;
    d := d0;
    var ta := ta0;
    var tc := tc0;
    var t: bv32;
    SelectsTurned(ta, 0x8124, 0x4218, 0x2481, 0x1842, x);
    t := P2(ta);
    ta := t;
    SelectsTurned(ta, 0x2481, 0x1842, 0x8124, 0x4218, x);
    t := P1(ta);
    SelectsXor(t, tc, 0x1842, 0x2481, 0x4218, 0x8124, 0x0084, 0x0048, 0x0021, 0x0012, x);
    t := XorWords(t, tc);
    SelectsXor(d, t, 0x0200, 0x0100, 0x0800, 0x0400, 0x18C6, 0x24C9, 0x4239, 0x8136, x);
    d := XorWords(d, t);
    SelectsTurned(tc, 0x0084, 0x0048, 0x0021, 0x0012, x);
    t := P2(tc);
    tc := t;
    SelectsTurned(tc, 0x0021, 0x0012, 0x0084, 0x0048, x);
    t := P1(tc);
    SelectsXor(t, ta, 0x0012, 0x0021, 0x0048, 0x0084, 0x2481, 0x1842, 0x8124, 0x4218, x);
    t := XorWords(t, ta);
    SelectsXor(c, t, 0x8000, 0x4000, 0x2000, 0x1000, 0x2493, 0x1863, 0x816C, 0x429C, x);
    c := XorWords(c, t);
  }

  /** aria_a. */
  method AriaA(q: Quad) returns (r: Quad)
    ensures QuadBytes(r) == Diffuse(QuadBytes(q))
  {
    hide *;
    ghost var x := QuadBytes(q);
    QuadSelects(q);
    var a, b, c, d, ta, tb, tc := MixFirst(q.a, q.b, q.c, q.d, x);
    a, b, ta, tb, tc := MixMiddle(a, b, d, ta, tb, tc, x);
    c, d := MixLast(c, d, ta, tc, x);
    r := Quad(a, b, c, d);
    SelectedIsDiffused(r, x);
  }

  lemma DiffusedQuarter(x: seq<bv8>, k: nat)
    requires |x| == 16 && k + 4 <= 16
    ensures Quarter(Diffuse(x), k) == Column(Sum(Row(k), x), Sum(Row(k + 1), x), Sum(Row(k + 2), x), Sum(Row(k + 3), x))
  {
    hide Row, Sum;
    DiffuseAt(x, k);
    DiffuseAt(x, k + 1);
    DiffuseAt(x, k + 2);
    DiffuseAt(x, k + 3);
  }

  lemma SelectedIsDiffused(r: Quad, x: seq<bv8>)
    requires |x| == 16
    requires Selects(r.a, 0x6358, 0x93A4, 0x9C52, 0x6CA1, x)
    requires Selects(r.b, 0xC925, 0xC61A, 0x3685, 0x394A, x)
    requires Selects(r.c, 0xA493, 0x5863, 0xA16C, 0x529C, x)
    requires Selects(r.d, 0x1AC6, 0x25C9, 0x4A39, 0x8536, x)
    ensures QuadBytes(r) == Diffuse(x)
  {
    DiffusedQuarter(x, 0);
    DiffusedQuarter(x, 4);
    DiffusedQuarter(x, 8);
    DiffusedQuarter(x, 12);
    QuartersOf(r);
    hide Sum, Col, Diffuse, QuadBytes;
    FromQuarters(QuadBytes(r), Diffuse(x));
  }

  // ---------------------------------------------------------------- the cipher

  /** The four boxes: is1 and is2 undo sb1 and sb2. */
  datatype Boxes = Boxes(sb1: seq<bv8>, sb2: seq<bv8>, is1: seq<bv8>, is2: seq<bv8>)
  {
    ghost predicate Ok()
    {
      && |sb1| == |sb2| == |is1| == |is2| == 256
      && Undoes(is1, sb1) && Undoes(sb1, is1) && Undoes(is2, sb2) && Undoes(sb2, is2)
    }
  }

  ghost predicate Undoes(t: seq<bv8>, s: seq<bv8>)
    requires |t| == |s| == 256
  {
    forall b: bv8 {:trigger Entry(t, Entry(s, b))} :: Entry(t, Entry(s, b)) == b
  }

  function Entry(s: seq<bv8>, b: bv8): bv8
    requires |s| == 256
  {
    ValueByte(b);
    s[Value(b)]
  }

  /** The boxes of aria_sl in an odd-numbered (FO) or even-numbered (FE) round, for byte position i. */
  function BoxAt(s: Boxes, even: bool, i: nat): (r: seq<bv8>)
    ensures r == s.sb1 || r == s.sb2 || r == s.is1 || r == s.is2
  {
    var k := if even then (i + 2) % 4 else i % 4;
    if k == 0 then s.sb1 else if k == 1 then s.sb2 else if k == 2 then s.is1 else s.is2
  }

  ghost function Sub(s: Boxes, even: bool, x: seq<bv8>): (r: seq<bv8>)
    requires s.Ok() && |x| == 16
    ensures |r| == 16
  {
    seq(16, i requires 0 <= i < 16 => Entry(BoxAt(s, even, i), x[i]))
  }

  /** The two substitution layers undo each other. */
  lemma SubBack(s: Boxes, even: bool, x: seq<bv8>)
    requires s.Ok() && |x| == 16
    ensures Sub(s, !even, Sub(s, even, x)) == x
  {
    hide Entry;
    forall i | 0 <= i < 16
      ensures Sub(s, !even, Sub(s, even, x))[i] == x[i]
    {
      EntryBack(s, even, i, x[i]);
      hide BoxAt;
    }
  }

  lemma EntryBack(s: Boxes, even: bool, i: nat, b: bv8)
    requires s.Ok()
    ensures |BoxAt(s, even, i)| == |BoxAt(s, !even, i)| == 256
    ensures Entry(BoxAt(s, !even, i), Entry(BoxAt(s, even, i), b)) == b
  {
    hide Entry;
  }

  lemma AddBytesTwice(x: seq<bv8>, y: seq<bv8>)
    requires |x| == |y| == 16
    ensures AddBytes(AddBytes(x, y), y) == x
  {
    hide Add;
    forall i | 0 <= i < 16
      ensures AddBytes(AddBytes(x, y), y)[i] == x[i]
    {
      AddTwice(x[i], y[i]);
    }
  }

  ghost predicate Keys(ks: seq<seq<bv8>>)
  {
    |ks| >= 3 && |ks| % 2 == 1 && forall i :: 0 <= i < |ks| ==> |ks[i]| == 16
  }

  /** The state after n rounds of key, substitution and diffusion. */
  ghost function After(s: Boxes, ks: seq<seq<bv8>>, x: seq<bv8>, n: nat): (r: seq<bv8>)
    requires s.Ok() && Keys(ks) && |x| == 16 && n < |ks|
    ensures |r| == 16
  {
    if n == 0 then x else
      Diffuse(Sub(s, n % 2 == 0, AddBytes(After(s, ks, x, n - 1), ks[n - 1])))
  }

  /** Section 2.3 of RFC 5794: the last round has a key instead of the diffusion. */
  ghost function Cipher(s: Boxes, ks: seq<seq<bv8>>, x: seq<bv8>): (r: seq<bv8>)
    requires s.Ok() && Keys(ks) && |x| == 16
    ensures |r| == 16
  {
    var nr := |ks| - 1;
    AddBytes(Sub(s, true, AddBytes(After(s, ks, x, nr - 1), ks[nr - 1])), ks[nr])
  }

  /** The decryption keys: reversed, and diffused but for the first and the last. */
  ghost function Turned(ks: seq<seq<bv8>>): (r: seq<seq<bv8>>)
    requires Keys(ks)
    ensures Keys(r) && |r| == |ks|
  {
    seq(|ks|, i requires 0 <= i < |ks| =>
      if i == 0 || i == |ks| - 1 then ks[|ks| - 1 - i] else Diffuse(ks[|ks| - 1 - i]))
  }

  lemma TurnedAt(ks: seq<seq<bv8>>, i: nat)
    requires Keys(ks) && i < |ks|
    ensures Turned(ks)[i] == if i == 0 || i == |ks| - 1 then ks[|ks| - 1 - i] else Diffuse(ks[|ks| - 1 - i])
  {
    hide Diffuse;
  }

  lemma TurnedTwice(ks: seq<seq<bv8>>)
    requires Keys(ks)
    ensures Turned(Turned(ks)) == ks
  {
    hide Diffuse, Turned;
    forall i | 0 <= i < |ks|
      ensures Turned(Turned(ks))[i] == ks[i]
    {
      TurnedAt(Turned(ks), i);
      TurnedAt(ks, |ks| - 1 - i);
      DiffuseTwice(ks[i]);
    }
  }

  /** Round j of decryption meets what round nr - 1 - j of encryption substituted. */
  lemma {:induction false} Peel(s: Boxes, ks: seq<seq<bv8>>, x: seq<bv8>, j: nat)
    requires s.Ok() && Keys(ks) && |x| == 16 && j < |ks| - 1
    ensures AddBytes(After(s, Turned(ks), Cipher(s, ks, x), j), Turned(ks)[j])
      == Sub(s, j % 2 == 0, AddBytes(After(s, ks, x, |ks| - 2 - j), ks[|ks| - 2 - j]))
  {
    hide Diffuse, Sub, AddBytes, Turned, Boxes.Ok;
    var nr := |ks| - 1;
    TurnedAt(ks, j);
    if j == 0 {
      AddBytesTwice(Sub(s, true, AddBytes(After(s, ks, x, nr - 1), ks[nr - 1])), ks[nr]);
    } else {
      Peel(s, ks, x, j - 1);
      var m := nr - j;
      Parity(nr, j);
      var even := j % 2 == 0;
      var before, inner := After(s, ks, x, m), Sub(s, even, AddBytes(After(s, ks, x, m - 1), ks[m - 1]));
      assert before == Diffuse(inner);
      assert After(s, Turned(ks), Cipher(s, ks, x), j)
        == Diffuse(Sub(s, even, Sub(s, !even, AddBytes(before, ks[m]))));
      hide *;
      SubBack(s, !even, AddBytes(before, ks[m]));
      DiffuseAdd(before, ks[m]);
      DiffuseTwice(inner);
      AddBytesTwice(inner, Diffuse(ks[m]));
    }
  }

  lemma Parity(nr: nat, j: nat)
    requires nr % 2 == 0 && 0 < j <= nr
    ensures (nr - j) % 2 == 0 <==> j % 2 == 0
    ensures (j - 1) % 2 == 0 <==> j % 2 != 0
  {
  }

  /** With the turned keys the cipher undoes itself, whatever the round keys hold. */
  lemma TurnedUndoes(s: Boxes, ks: seq<seq<bv8>>, x: seq<bv8>)
    requires s.Ok() && Keys(ks) && |x| == 16
    ensures Cipher(s, Turned(ks), Cipher(s, ks, x)) == x
  {
    hide Diffuse, Sub, AddBytes, Turned, Boxes.Ok;
    var nr := |ks| - 1;
    Peel(s, ks, x, nr - 1);
    TurnedAt(ks, nr);
    SubBack(s, false, AddBytes(x, ks[0]));
    AddBytesTwice(x, ks[0]);
  }

  ghost function Whole(s: Boxes, ks: seq<seq<bv8>>, b: seq<bv8>): seq<bv8>
    requires s.Ok() && Keys(ks)
  {
    if |b| == 16 then Cipher(s, ks, b) else b
  }

  ghost function CipherUnder(s: Boxes, ks: seq<seq<bv8>>): BlockCipher
    requires s.Ok() && Keys(ks)
  {
    BlockCipher(16, b => Whole(s, ks, b), b => Whole(s, Turned(ks), b))
  }

  lemma AriaIsAPermutation(s: Boxes, ks: seq<seq<bv8>>)
    requires s.Ok() && Keys(ks)
    ensures CipherUnder(s, ks).Permutation()
  {
    hide Cipher, Turned, Boxes.Ok;
    var c := CipherUnder(s, ks);
    TurnedTwice(ks);
    forall b: seq<bv8> | |b| == 16
      ensures |c.enc(b)| == 16 && |c.dec(b)| == 16 && c.dec(c.enc(b)) == b && c.enc(c.dec(b)) == b
    {
      TurnedUndoes(s, ks, b);
      TurnedUndoes(s, Turned(ks), b);
    }
  }

  // ---------------------------------------------------------------- the code

  /** One word of aria_sl. */
  function SlWord(sa: seq<bv8>, sb: seq<bv8>, sc: seq<bv8>, sd: seq<bv8>, w: bv32): bv32
    requires |sa| == |sb| == |sc| == |sd| == 256
  {
    Packed(Entry(sa, B0(w)), Entry(sb, B1(w)), Entry(sc, B2(w)), Entry(sd, B3(w)))
  }

  lemma SlWordIs(sa: seq<bv8>, sb: seq<bv8>, sc: seq<bv8>, sd: seq<bv8>, w: bv32)
    requires |sa| == |sb| == |sc| == |sd| == 256
    ensures Col(SlWord(sa, sb, sc, sd, w)) ==
      Column(Entry(sa, Col(w).r0), Entry(sb, Col(w).r1), Entry(sc, Col(w).r2), Entry(sd, Col(w).r3))
  {
    ColPacked(Entry(sa, B0(w)), Entry(sb, B1(w)), Entry(sc, B2(w)), Entry(sd, B3(w)));
    hide Packed, Entry, B0, B1, B2, B3;
  }

  /** aria_sl with the boxes of an odd-numbered or an even-numbered round. */
  function SlQuad(s: Boxes, even: bool, q: Quad): Quad
    requires |s.sb1| == |s.sb2| == |s.is1| == |s.is2| == 256
  {
    if even then
      Quad(SlWord(s.is1, s.is2, s.sb1, s.sb2, q.a), SlWord(s.is1, s.is2, s.sb1, s.sb2, q.b),
           SlWord(s.is1, s.is2, s.sb1, s.sb2, q.c), SlWord(s.is1, s.is2, s.sb1, s.sb2, q.d))
    else
      Quad(SlWord(s.sb1, s.sb2, s.is1, s.is2, q.a), SlWord(s.sb1, s.sb2, s.is1, s.is2, q.b),
           SlWord(s.sb1, s.sb2, s.is1, s.is2, q.c), SlWord(s.sb1, s.sb2, s.is1, s.is2, q.d))
  }

  lemma SubAt(s: Boxes, even: bool, x: seq<bv8>, i: nat)
    requires s.Ok() && |x| == 16 && i < 16
    ensures |BoxAt(s, even, i)| == 256 && Sub(s, even, x)[i] == Entry(BoxAt(s, even, i), x[i])
  {
    hide Entry, BoxAt;
  }

  lemma BoxesAt(s: Boxes, even: bool, k: nat)
    requires k == 0 || k == 4 || k == 8 || k == 12
    ensures BoxAt(s, even, k) == (if even then s.is1 else s.sb1) && BoxAt(s, even, k + 1) == (if even then s.is2 else s.sb2)
    ensures BoxAt(s, even, k + 2) == (if even then s.sb1 else s.is1) && BoxAt(s, even, k + 3) == (if even then s.sb2 else s.is2)
  {
  }

  lemma BoxSizes(s: Boxes)
    requires s.Ok()
    ensures |s.sb1| == |s.sb2| == |s.is1| == |s.is2| == 256
  {
  }

  lemma QuarterIs(x: seq<bv8>, k: nat)
    requires k + 4 <= |x|
    ensures Quarter(x, k) == Column(x[k], x[k + 1], x[k + 2], x[k + 3])
  {
  }

  lemma SubQuarterOdd(s: Boxes, x: seq<bv8>, k: nat, w: bv32)
    requires s.Ok() && |x| == 16 && (k == 0 || k == 4 || k == 8 || k == 12) && Quarter(x, k) == Col(w)
    ensures Quarter(Sub(s, false, x), k) == Col(SlWord(s.sb1, s.sb2, s.is1, s.is2, w))
  {
    hide *;
    BoxSizes(s);
    BoxesAt(s, false, k);
    SubAt(s, false, x, k);
    SubAt(s, false, x, k + 1);
    SubAt(s, false, x, k + 2);
    SubAt(s, false, x, k + 3);
    QuarterIs(x, k);
    QuarterIs(Sub(s, false, x), k);
    SlWordIs(s.sb1, s.sb2, s.is1, s.is2, w);
  }

  lemma SubQuarterEven(s: Boxes, x: seq<bv8>, k: nat, w: bv32)
    requires s.Ok() && |x| == 16 && (k == 0 || k == 4 || k == 8 || k == 12) && Quarter(x, k) == Col(w)
    ensures Quarter(Sub(s, true, x), k) == Col(SlWord(s.is1, s.is2, s.sb1, s.sb2, w))
  {
    hide *;
    BoxSizes(s);
    BoxesAt(s, true, k);
    SubAt(s, true, x, k);
    SubAt(s, true, x, k + 1);
    SubAt(s, true, x, k + 2);
    SubAt(s, true, x, k + 3);
    QuarterIs(x, k);
    QuarterIs(Sub(s, true, x), k);
    SlWordIs(s.is1, s.is2, s.sb1, s.sb2, w);
  }

  lemma SubQuarter(s: Boxes, even: bool, x: seq<bv8>, k: nat, w: bv32)
    requires s.Ok() && |x| == 16 && (k == 0 || k == 4 || k == 8 || k == 12) && Quarter(x, k) == Col(w)
    ensures Quarter(Sub(s, even, x), k) ==
      Col(if even then SlWord(s.is1, s.is2, s.sb1, s.sb2, w) else SlWord(s.sb1, s.sb2, s.is1, s.is2, w))
  {
    hide Sub, Undoes, SlWord, Col, Quarter;
    if even {
      SubQuarterEven(s, x, k, w);
    } else {
      SubQuarterOdd(s, x, k, w);
    }
  }

  lemma SlQuadIs(s: Boxes, even: bool, q: Quad)
    requires s.Ok()
    ensures QuadBytes(SlQuad(s, even, q)) == Sub(s, even, QuadBytes(q))
  {
    hide Undoes, Sub, SlWord, Entry, Col, QuadBytes, Quarter;
    var x := QuadBytes(q);
    QuartersOf(q);
    QuartersOf(SlQuad(s, even, q));
    SubQuarter(s, even, x, 0, q.a);
    SubQuarter(s, even, x, 4, q.b);
    SubQuarter(s, even, x, 8, q.c);
    SubQuarter(s, even, x, 12, q.d);
    FromQuarters(QuadBytes(SlQuad(s, even, q)), Sub(s, even, x));
  }

  /** Mixing in a round key. */
  function XorQuad(q: Quad, k: Quad): Quad
  {
    Quad(XorWords(q.a, k.a), XorWords(q.b, k.b), XorWords(q.c, k.c), XorWords(q.d, k.d))
  }

  lemma AddQuarter(x: seq<bv8>, y: seq<bv8>, k: nat)
    requires |x| == |y| == 16 && k <= 12
    ensures Quarter(AddBytes(x, y), k) == AddColumn(Quarter(x, k), Quarter(y, k))
  {
    hide Add;
  }

  lemma XorQuadIs(q: Quad, k: Quad)
    ensures QuadBytes(XorQuad(q, k)) == AddBytes(QuadBytes(q), QuadBytes(k))
  {
    hide Col, XorWords, AddColumn, AddBytes, QuadBytes, Quarter;
    var x, y := QuadBytes(q), QuadBytes(k);
    QuartersOf(q);
    QuartersOf(k);
    QuartersOf(XorQuad(q, k));
    AddQuarter(x, y, 0);
    AddQuarter(x, y, 4);
    AddQuarter(x, y, 8);
    AddQuarter(x, y, 12);
    ColXor(q.a, k.a);
    ColXor(q.b, k.b);
    ColXor(q.c, k.c);
    ColXor(q.d, k.d);
    FromQuarters(QuadBytes(XorQuad(q, k)), AddBytes(x, y));
  }

  /** The round keys kept in rk. */
  ghost function KeysOf(rk: seq<Quad>, nr: nat): (ks: seq<seq<bv8>>)
    requires nr < |rk|
    ensures |ks| == nr + 1 && forall i :: 0 <= i <= nr ==> ks[i] == QuadBytes(rk[i]) && |ks[i]| == 16
  {
    seq(nr + 1, i requires 0 <= i <= nr => QuadBytes(rk[i]))
  }

  /** `a ^= rk[i][0], ...; aria_sl`. */
  method KeyedSub(s: Boxes, even: bool, rk: array<Quad>, i: nat, q: Quad) returns (r: Quad)
    requires s.Ok() && i < rk.Length
    ensures QuadBytes(r) == Sub(s, even, AddBytes(QuadBytes(q), QuadBytes(rk[i])))
  {
    XorQuadIs(q, rk[i]);
    SlQuadIs(s, even, XorQuad(q, rk[i]));
    hide QuadBytes, Sub, XorQuad, SlQuad, AddBytes, Undoes;
    r := SlQuad(s, even, XorQuad(q, rk[i]));
  }

  /** The loop of mbedtls_aria_crypt_ecb and the final key mixing. */
  method CryptQuad(s: Boxes, rk: array<Quad>, nr: nat, q: Quad) returns (r: Quad)
    requires s.Ok() && (nr == 12 || nr == 14 || nr == 16) && rk.Length == 17
    ensures QuadBytes(r) == Cipher(s, KeysOf(rk[..], nr), QuadBytes(q))
  {
    hide QuadBytes, Sub, AddBytes, Diffuse, Boxes.Ok;
    ghost var ks, x := KeysOf(rk[..], nr), QuadBytes(q);
    var i := 0;
    r := q;
    while true
      invariant 0 <= i < nr && i % 2 == 0 && QuadBytes(r) == After(s, ks, x, i)
      decreases nr - i
    {
      r := KeyedSub(s, false, rk, i, r);
      r := AriaA(r);
      i := i + 1;
      r := KeyedSub(s, true, rk, i, r);
      i := i + 1;
      if i >= nr {
        break;
      }
      r := AriaA(r);
    }
    XorQuadIs(r, rk[i]);
    r := XorQuad(r, rk[i]);
  }

  /** GET_UINT32_LE four times. */
  method LoadQuad(input: array<bv8>) returns (q: Quad)
    requires input.Length == 16
    ensures QuadBytes(q) == input[..]
  {
    ghost var x := input[..];
    q := Quad(LoadWord(input, 0), LoadWord(input, 4), LoadWord(input, 8), LoadWord(input, 12));
    LoadedWord(input, 0);
    LoadedWord(input, 4);
    LoadedWord(input, 8);
    LoadedWord(input, 12);
    QuartersOf(q);
    hide LoadWord, Col, QuadBytes;
    FromQuarters(QuadBytes(q), x);
  }

  function LoadWord(b: array<bv8>, k: nat): bv32
    reads b
    requires k + 4 <= b.Length
  {
    Packed(b[k], b[k + 1], b[k + 2], b[k + 3])
  }

  lemma LoadedWord(b: array<bv8>, k: nat)
    requires k + 4 <= b.Length
    ensures Col(LoadWord(b, k)) == Quarter(b[..], k)
  {
    hide Packed, Col;
    ColPacked(b[k], b[k + 1], b[k + 2], b[k + 3]);
  }

  /** mbedtls_aria_crypt_ecb; the output may be the input buffer. QuadBytes lays the words out as PUT_UINT32_LE does. */
  method CryptEcb(s: Boxes, rk: array<Quad>, nr: nat, input: array<bv8>, output: array<bv8>)
    requires s.Ok() && (nr == 12 || nr == 14 || nr == 16) && rk.Length == 17 && input.Length == output.Length == 16
    modifies output
    ensures output[..] == Cipher(s, KeysOf(rk[..], nr), old(input[..]))
  {
    hide QuadBytes, KeysOf, Cipher, Boxes.Ok;
    var q := LoadQuad(input);
    q := CryptQuad(s, rk, nr, q);
    Store(output, QuadBytes(q));
  }

  // ---------------------------------------------------------------- setkey_dec

  /** "flip the order of round keys". */
  method Flip(rk: array<Quad>, nr: nat)
    requires nr < rk.Length
    modifies rk
    ensures forall k :: 0 <= k <= nr ==> rk[k] == old(rk[nr - k])
  {
    ghost var was := rk[..];
    var i, j := 0, nr;
    while i < j
      invariant 0 <= i <= j + 1 && i + j == nr
      invariant forall k :: (0 <= k < i || j < k <= nr) ==> rk[k] == was[nr - k]
      invariant forall k :: i <= k <= j ==> rk[k] == was[k]
    {
      rk[i], rk[j] := rk[j], rk[i];
      i, j := i + 1, j - 1;
    }
  }

  /** "apply affine transform to middle keys". */
  method DiffuseKeys(rk: array<Quad>, nr: nat)
    requires 1 <= nr < rk.Length
    modifies rk
    ensures rk[0] == old(rk[0]) && rk[nr] == old(rk[nr])
    ensures forall k :: 0 < k < nr ==> QuadBytes(rk[k]) == Diffuse(QuadBytes(old(rk[k])))
  {
    hide QuadBytes, Diffuse;
    ghost var was := rk[..];
    for i := 1 to nr
      invariant forall k :: 0 < k < i ==> QuadBytes(rk[k]) == Diffuse(QuadBytes(was[k]))
      invariant forall k :: (k == 0 || i <= k <= nr) ==> rk[k] == was[k]
    {
      var q := AriaA(rk[i]);
      rk[i] := q;
    }
  }

  /** mbedtls_aria_setkey_dec after the encryption keys are made. */
  method TurnKeys(rk: array<Quad>, nr: nat)
    requires (nr == 12 || nr == 14 || nr == 16) && rk.Length == 17
    modifies rk
    ensures Keys(old(KeysOf(rk[..], nr))) && KeysOf(rk[..], nr) == Turned(old(KeysOf(rk[..], nr)))
  {
    hide QuadBytes, Diffuse, Turned;
    ghost var ks := KeysOf(rk[..], nr);
    Flip(rk, nr);
    DiffuseKeys(rk, nr);
    forall i | 0 <= i <= nr
      ensures KeysOf(rk[..], nr)[i] == Turned(ks)[i]
    {
      TurnedAt(ks, i);
    }
  }
}
