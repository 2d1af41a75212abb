/** The AES cipher of FIPS 197, section 5.1, and the equivalent inverse cipher of section 5.3.5. */
module AesCipher {
  import opened Blocks
  import opened AesField
  import opened AesSbox

  /** One column of the state: the four bytes of a word. */
  datatype Column = Column(r0: bv8, r1: bv8, r2: bv8, r3: bv8)

  datatype State = State(c0: Column, c1: Column, c2: Column, c3: Column)

  // ---------------------------------------------------------------- sums of multiples

  function Dot(k0: bv8, k1: bv8, k2: bv8, k3: bv8, a: Column): bv8
  {
    Add(Add(GMul(k0, a.r0), GMul(k1, a.r1)), Add(GMul(k2, a.r2), GMul(k3, a.r3)))
  }

  function AddColumn(a: Column, b: Column): Column
  {
    Column(Add(a.r0, b.r0), Add(a.r1, b.r1), Add(a.r2, b.r2), Add(a.r3, b.r3))
  }

  lemma DotAdd(k0: bv8, k1: bv8, k2: bv8, k3: bv8, a: Column, b: Column)
    ensures Dot(k0, k1, k2, k3, AddColumn(a, b)) == Add(Dot(k0, k1, k2, k3, a), Dot(k0, k1, k2, k3, b))
  {
    hide GMul, Add;
    GMulAddRight(k0, a.r0, b.r0);
    GMulAddRight(k1, a.r1, b.r1);
    GMulAddRight(k2, a.r2, b.r2);
    GMulAddRight(k3, a.r3, b.r3);
    Add4(GMul(k0, a.r0), GMul(k0, b.r0), GMul(k1, a.r1), GMul(k1, b.r1));
    Add4(GMul(k2, a.r2), GMul(k2, b.r2), GMul(k3, a.r3), GMul(k3, b.r3));
    Add4(Add(GMul(k0, a.r0), GMul(k1, a.r1)), Add(GMul(k0, b.r0), GMul(k1, b.r1)),
         Add(GMul(k2, a.r2), GMul(k3, a.r3)), Add(GMul(k2, b.r2), GMul(k3, b.r3)));
  }

  lemma DotScale(k: bv8, m0: bv8, m1: bv8, m2: bv8, m3: bv8, a: Column)
    ensures GMul(k, Dot(m0, m1, m2, m3, a)) == Dot(GMul(k, m0), GMul(k, m1), GMul(k, m2), GMul(k, m3), a)
  {
    hide GMul, Add;
    GMulAddRight(k, Add(GMul(m0, a.r0), GMul(m1, a.r1)), Add(GMul(m2, a.r2), GMul(m3, a.r3)));
    GMulAddRight(k, GMul(m0, a.r0), GMul(m1, a.r1));
    GMulAddRight(k, GMul(m2, a.r2), GMul(m3, a.r3));
    GMulAssoc(k, m0, a.r0);
    GMulAssoc(k, m1, a.r1);
    GMulAssoc(k, m2, a.r2);
    GMulAssoc(k, m3, a.r3);
  }

  lemma DotSum(k0: bv8, k1: bv8, k2: bv8, k3: bv8, m0: bv8, m1: bv8, m2: bv8, m3: bv8, a: Column)
    ensures Add(Dot(k0, k1, k2, k3, a), Dot(m0, m1, m2, m3, a)) == Dot(Add(k0, m0), Add(k1, m1), Add(k2, m2), Add(k3, m3), a)
  {
    hide GMul, Add;
    GMulAdd(k0, m0, a.r0);
    GMulAdd(k1, m1, a.r1);
    GMulAdd(k2, m2, a.r2);
    GMulAdd(k3, m3, a.r3);
    Add4(GMul(k0, a.r0), GMul(m0, a.r0), GMul(k1, a.r1), GMul(m1, a.r1));
    Add4(GMul(k2, a.r2), GMul(m2, a.r2), GMul(k3, a.r3), GMul(m3, a.r3));
    Add4(Add(GMul(k0, a.r0), GMul(k1, a.r1)), Add(GMul(m0, a.r0), GMul(m1, a.r1)),
         Add(GMul(k2, a.r2), GMul(k3, a.r3)), Add(GMul(m2, a.r2), GMul(m3, a.r3)));
  }

  /** A row times the MixColumns matrix. */
  function RowTimes(k0: bv8, k1: bv8, k2: bv8, k3: bv8, m0: bv8, m1: bv8, m2: bv8, m3: bv8): bv8
  {
    Add(Add(GMul(k0, m0), GMul(k1, m1)), Add(GMul(k2, m2), GMul(k3, m3)))
  }

  /** Equation 5.6 of FIPS 197. */
  function MixColumn(a: Column): Column
  {
    Column(Dot(2, 3, 1, 1, a), Dot(1, 2, 3, 1, a), Dot(1, 1, 2, 3, a), Dot(3, 1, 1, 2, a))
  }

  /** Equation 5.10. */
  function InvMixColumn(a: Column): Column
  {
    Column(Dot(14, 11, 13, 9, a), Dot(9, 14, 11, 13, a), Dot(13, 9, 14, 11, a), Dot(11, 13, 9, 14, a))
  }

  lemma RowOfMix(k0: bv8, k1: bv8, k2: bv8, k3: bv8, a: Column)
    ensures Dot(k0, k1, k2, k3, MixColumn(a)) == Dot(
      RowTimes(k0, k1, k2, k3, 2, 1, 1, 3), RowTimes(k0, k1, k2, k3, 3, 2, 1, 1),
      RowTimes(k0, k1, k2, k3, 1, 3, 2, 1), RowTimes(k0, k1, k2, k3, 1, 1, 3, 2), a)
  {
    hide GMul, Add;
    assert Dot(k0, k1, k2, k3, MixColumn(a)) ==
      Add(Add(GMul(k0, Dot(2, 3, 1, 1, a)), GMul(k1, Dot(1, 2, 3, 1, a))),
          Add(GMul(k2, Dot(1, 1, 2, 3, a)), GMul(k3, Dot(3, 1, 1, 2, a))));
    hide Dot, MixColumn;
    DotScale(k0, 2, 3, 1, 1, a);
    DotScale(k1, 1, 2, 3, 1, a);
    DotScale(k2, 1, 1, 2, 3, a);
    DotScale(k3, 3, 1, 1, 2, a);
    DotSum(GMul(k0, 2), GMul(k0, 3), GMul(k0, 1), GMul(k0, 1), GMul(k1, 1), GMul(k1, 2), GMul(k1, 3), GMul(k1, 1), a);
    DotSum(GMul(k2, 1), GMul(k2, 1), GMul(k2, 2), GMul(k2, 3), GMul(k3, 3), GMul(k3, 1), GMul(k3, 1), GMul(k3, 2), a);
    DotSum(Add(GMul(k0, 2), GMul(k1, 1)), Add(GMul(k0, 3), GMul(k1, 2)), Add(GMul(k0, 1), GMul(k1, 3)), Add(GMul(k0, 1), GMul(k1, 1)),
           Add(GMul(k2, 1), GMul(k3, 3)), Add(GMul(k2, 1), GMul(k3, 1)), Add(GMul(k2, 2), GMul(k3, 1)), Add(GMul(k2, 3), GMul(k3, 2)), a);
  }

  /** The same product the other way round. */
  lemma RowOfInvMix(k0: bv8, k1: bv8, k2: bv8, k3: bv8, a: Column)
    ensures Dot(k0, k1, k2, k3, InvMixColumn(a)) == Dot(
      RowTimes(k0, k1, k2, k3, 14, 9, 13, 11), RowTimes(k0, k1, k2, k3, 11, 14, 9, 13),
      RowTimes(k0, k1, k2, k3, 13, 11, 14, 9), RowTimes(k0, k1, k2, k3, 9, 13, 11, 14), a)
  {
    hide GMul, Add;
    assert Dot(k0, k1, k2, k3, InvMixColumn(a)) ==
      Add(Add(GMul(k0, Dot(14, 11, 13, 9, a)), GMul(k1, Dot(9, 14, 11, 13, a))),
          Add(GMul(k2, Dot(13, 9, 14, 11, a)), GMul(k3, Dot(11, 13, 9, 14, a))));
    hide Dot, InvMixColumn;
    DotScale(k0, 14, 11, 13, 9, a);
    DotScale(k1, 9, 14, 11, 13, a);
    DotScale(k2, 13, 9, 14, 11, a);
    DotScale(k3, 11, 13, 9, 14, a);
    DotSum(GMul(k0, 14), GMul(k0, 11), GMul(k0, 13), GMul(k0, 9), GMul(k1, 9), GMul(k1, 14), GMul(k1, 11), GMul(k1, 13), a);
    DotSum(GMul(k2, 13), GMul(k2, 9), GMul(k2, 14), GMul(k2, 11), GMul(k3, 11), GMul(k3, 13), GMul(k3, 9), GMul(k3, 14), a);
    DotSum(Add(GMul(k0, 14), GMul(k1, 9)), Add(GMul(k0, 11), GMul(k1, 14)), Add(GMul(k0, 13), GMul(k1, 11)), Add(GMul(k0, 9), GMul(k1, 13)),
           Add(GMul(k2, 13), GMul(k3, 11)), Add(GMul(k2, 9), GMul(k3, 13)), Add(GMul(k2, 14), GMul(k3, 9)), Add(GMul(k2, 11), GMul(k3, 14)), a);
  }

  lemma FirstRow()
    ensures RowTimes(14, 11, 13, 9, 2, 1, 1, 3) == 1 && RowTimes(14, 11, 13, 9, 3, 2, 1, 1) == 0
    ensures RowTimes(14, 11, 13, 9, 1, 3, 2, 1) == 0 && RowTimes(14, 11, 13, 9, 1, 1, 3, 2) == 0
  {
    SmallProducts();
    hide GMul;
  }

  lemma SecondRow()
    ensures RowTimes(9, 14, 11, 13, 2, 1, 1, 3) == 0 && RowTimes(9, 14, 11, 13, 3, 2, 1, 1) == 1
    ensures RowTimes(9, 14, 11, 13, 1, 3, 2, 1) == 0 && RowTimes(9, 14, 11, 13, 1, 1, 3, 2) == 0
  {
    SmallProducts();
    hide GMul;
  }

  lemma ThirdRow()
    ensures RowTimes(13, 9, 14, 11, 2, 1, 1, 3) == 0 && RowTimes(13, 9, 14, 11, 3, 2, 1, 1) == 0
    ensures RowTimes(13, 9, 14, 11, 1, 3, 2, 1) == 1 && RowTimes(13, 9, 14, 11, 1, 1, 3, 2) == 0
  {
    SmallProducts();
    hide GMul;
  }

  lemma FourthRow()
    ensures RowTimes(11, 13, 9, 14, 2, 1, 1, 3) == 0 && RowTimes(11, 13, 9, 14, 3, 2, 1, 1) == 0
    ensures RowTimes(11, 13, 9, 14, 1, 3, 2, 1) == 0 && RowTimes(11, 13, 9, 14, 1, 1, 3, 2) == 1
  {
    SmallProducts();
    hide GMul;
  }

  lemma FirstInvRow()
    ensures RowTimes(2, 3, 1, 1, 14, 9, 13, 11) == 1 && RowTimes(2, 3, 1, 1, 11, 14, 9, 13) == 0
    ensures RowTimes(2, 3, 1, 1, 13, 11, 14, 9) == 0 && RowTimes(2, 3, 1, 1, 9, 13, 11, 14) == 0
  {
    SmallProductsSwapped();
    hide GMul;
  }

  lemma SecondInvRow()
    ensures RowTimes(1, 2, 3, 1, 14, 9, 13, 11) == 0 && RowTimes(1, 2, 3, 1, 11, 14, 9, 13) == 1
    ensures RowTimes(1, 2, 3, 1, 13, 11, 14, 9) == 0 && RowTimes(1, 2, 3, 1, 9, 13, 11, 14) == 0
  {
    SmallProductsSwapped();
    hide GMul;
  }

  lemma ThirdInvRow()
    ensures RowTimes(1, 1, 2, 3, 14, 9, 13, 11) == 0 && RowTimes(1, 1, 2, 3, 11, 14, 9, 13) == 0
    ensures RowTimes(1, 1, 2, 3, 13, 11, 14, 9) == 1 && RowTimes(1, 1, 2, 3, 9, 13, 11, 14) == 0
  {
    SmallProductsSwapped();
    hide GMul;
  }

  lemma FourthInvRow()
    ensures RowTimes(3, 1, 1, 2, 14, 9, 13, 11) == 0 && RowTimes(3, 1, 1, 2, 11, 14, 9, 13) == 0
    ensures RowTimes(3, 1, 1, 2, 13, 11, 14, 9) == 0 && RowTimes(3, 1, 1, 2, 9, 13, 11, 14) == 1
  {
    SmallProductsSwapped();
    hide GMul;
  }

  lemma SmallProductsSwapped()
    ensures GMul(1, 9) == 9 && GMul(2, 9) == 18 && GMul(3, 9) == 27
    ensures GMul(1, 11) == 11 && GMul(2, 11) == 22 && GMul(3, 11) == 29
    ensures GMul(1, 13) == 13 && GMul(2, 13) == 26 && GMul(3, 13) == 23
    ensures GMul(1, 14) == 14 && GMul(2, 14) == 28 && GMul(3, 14) == 18
  {
    hide GMul;
    SmallProducts();
    ProductsSwap(9);
    ProductsSwap(11);
    ProductsSwap(13);
    ProductsSwap(14);
  }

  lemma ProductsSwap(k: bv8)
    ensures GMul(1, k) == GMul(k, 1) && GMul(2, k) == GMul(k, 2) && GMul(3, k) == GMul(k, 3)
  {
    hide GMul;
    GMulSwap(1, k);
    GMulSwap(2, k);
    GMulSwap(3, k);
  }

  lemma SmallProducts()
    ensures GMul(9, 1) == 9 && GMul(9, 2) == 18 && GMul(9, 3) == 27
    ensures GMul(11, 1) == 11 && GMul(11, 2) == 22 && GMul(11, 3) == 29
    ensures GMul(13, 1) == 13 && GMul(13, 2) == 26 && GMul(13, 3) == 23
    ensures GMul(14, 1) == 14 && GMul(14, 2) == 28 && GMul(14, 3) == 18
  {
    ProductsOf(9, 18);
    ProductsOf(11, 22);
    ProductsOf(13, 26);
    ProductsOf(14, 28);
    hide GMul;
  }

  lemma ProductsOf(k: bv8, twice: bv8)
    requires twice == Xtime(k)
    ensures GMul(k, 1) == k && GMul(k, 2) == twice && GMul(k, 3) == Add(k, twice)
  {
    hide GMul, Xtime, Add;
    GMulSwap(k, 1);
    GMulSwap(k, 2);
    GMulSwap(k, 3);
    GMulOne(k);
    Times2(k);
    Times3(k);
  }

  /** A row of the identity matrix picks out one byte. */
  lemma UnitRow(a: Column)
    ensures Dot(1, 0, 0, 0, a) == a.r0 && Dot(0, 1, 0, 0, a) == a.r1
    ensures Dot(0, 0, 1, 0, a) == a.r2 && Dot(0, 0, 0, 1, a) == a.r3
  {
    hide GMul, Add;
    GMulOne(a.r0);
    GMulOne(a.r1);
    GMulOne(a.r2);
    GMulOne(a.r3);
    ZeroTimes(a.r0);
    ZeroTimes(a.r1);
    ZeroTimes(a.r2);
    ZeroTimes(a.r3);
    AddZero(0);
    AddZero(a.r0);
    AddZero(a.r1);
    AddSwap(0, a.r1);
    AddZero(a.r2);
    AddSwap(0, a.r2);
    AddZero(a.r3);
    AddSwap(0, a.r3);
  }

  /** The two matrices are inverse to each other. */
  lemma UnmixColumn(a: Column)
    ensures InvMixColumn(MixColumn(a)) == a
  {
    RowOfMix(14, 11, 13, 9, a);
    RowOfMix(9, 14, 11, 13, a);
    RowOfMix(13, 9, 14, 11, a);
    RowOfMix(11, 13, 9, 14, a);
    FirstRow();
    SecondRow();
    ThirdRow();
    FourthRow();
    UnitRow(a);
    hide Dot, RowTimes, MixColumn;
  }

  lemma RemixColumn(a: Column)
    ensures MixColumn(InvMixColumn(a)) == a
  {
    RowOfInvMix(2, 3, 1, 1, a);
    RowOfInvMix(1, 2, 3, 1, a);
    RowOfInvMix(1, 1, 2, 3, a);
    RowOfInvMix(3, 1, 1, 2, a);
    FirstInvRow();
    SecondInvRow();
    ThirdInvRow();
    FourthInvRow();
    UnitRow(a);
    hide Dot, RowTimes, InvMixColumn;
  }

  lemma InvMixAdd(a: Column, b: Column)
    ensures InvMixColumn(AddColumn(a, b)) == AddColumn(InvMixColumn(a), InvMixColumn(b))
  {
    hide Dot, Add;
    DotAdd(14, 11, 13, 9, a, b);
    DotAdd(9, 14, 11, 13, a, b);
    DotAdd(13, 9, 14, 11, a, b);
    DotAdd(11, 13, 9, 14, a, b);
  }

  // ---------------------------------------------------------------- the transformations

  function AddRoundKey(s: State, k: State): State
  {
    State(AddColumn(s.c0, k.c0), AddColumn(s.c1, k.c1), AddColumn(s.c2, k.c2), AddColumn(s.c3, k.c3))
  }

  ghost function SubColumn(a: Column): Column
  {
    Column(SubByte(a.r0), SubByte(a.r1), SubByte(a.r2), SubByte(a.r3))
  }

  ghost function InvSubColumn(a: Column): Column
  {
    Column(InvSubByte(a.r0), InvSubByte(a.r1), InvSubByte(a.r2), InvSubByte(a.r3))
  }

  ghost function SubBytes(s: State): State
  {
    State(SubColumn(s.c0), SubColumn(s.c1), SubColumn(s.c2), SubColumn(s.c3))
  }

  ghost function InvSubBytes(s: State): State
  {
    State(InvSubColumn(s.c0), InvSubColumn(s.c1), InvSubColumn(s.c2), InvSubColumn(s.c3))
  }

  /** Row i moves left by i columns. */
  function ShiftRows(s: State): State
  {
    State(Column(s.c0.r0, s.c1.r1, s.c2.r2, s.c3.r3), Column(s.c1.r0, s.c2.r1, s.c3.r2, s.c0.r3),
          Column(s.c2.r0, s.c3.r1, s.c0.r2, s.c1.r3), Column(s.c3.r0, s.c0.r1, s.c1.r2, s.c2.r3))
  }

  /** Row i moves right by i columns. */
  function InvShiftRows(s: State): State
  {
    State(Column(s.c0.r0, s.c3.r1, s.c2.r2, s.c1.r3), Column(s.c1.r0, s.c0.r1, s.c3.r2, s.c2.r3),
          Column(s.c2.r0, s.c1.r1, s.c0.r2, s.c3.r3), Column(s.c3.r0, s.c2.r1, s.c1.r2, s.c0.r3))
  }

  function MixColumns(s: State): State
  {
    State(MixColumn(s.c0), MixColumn(s.c1), MixColumn(s.c2), MixColumn(s.c3))
  }

  function InvMixColumns(s: State): State
  {
    State(InvMixColumn(s.c0), InvMixColumn(s.c1), InvMixColumn(s.c2), InvMixColumn(s.c3))
  }

  lemma AddColumnTwice(a: Column, b: Column)
    ensures AddColumn(AddColumn(a, b), b) == a
  {
    AddTwice(a.r0, b.r0);
    AddTwice(a.r1, b.r1);
    AddTwice(a.r2, b.r2);
    AddTwice(a.r3, b.r3);
    hide Add;
  }

  lemma AddTwice(x: bv8, y: bv8)
    ensures Add(Add(x, y), y) == x
  {
    hide Add;
    AddAssoc(x, y, y);
    AddSelf(y);
    AddZero(x);
  }

  lemma AddRoundKeyTwice(s: State, k: State)
    ensures AddRoundKey(AddRoundKey(s, k), k) == s
  {
    hide AddColumn;
    AddColumnTwice(s.c0, k.c0);
    AddColumnTwice(s.c1, k.c1);
    AddColumnTwice(s.c2, k.c2);
    AddColumnTwice(s.c3, k.c3);
  }

  lemma UnmixColumns(s: State)
    ensures InvMixColumns(MixColumns(s)) == s
  {
    hide MixColumn, InvMixColumn;
    UnmixColumn(s.c0);
    UnmixColumn(s.c1);
    UnmixColumn(s.c2);
    UnmixColumn(s.c3);
  }

  lemma RemixColumns(s: State)
    ensures MixColumns(InvMixColumns(s)) == s
  {
    hide MixColumn, InvMixColumn;
    RemixColumn(s.c0);
    RemixColumn(s.c1);
    RemixColumn(s.c2);
    RemixColumn(s.c3);
  }

  /** InvMixColumns is linear, which is why the decryption keys can be mixed beforehand. */
  lemma InvMixColumnsAdd(s: State, k: State)
    ensures InvMixColumns(AddRoundKey(s, k)) == AddRoundKey(InvMixColumns(s), InvMixColumns(k))
  {
    hide AddColumn, InvMixColumn;
    InvMixAdd(s.c0, k.c0);
    InvMixAdd(s.c1, k.c1);
    InvMixAdd(s.c2, k.c2);
    InvMixAdd(s.c3, k.c3);
  }

  lemma InvSubColumnUndoes(a: Column)
    ensures InvSubColumn(SubColumn(a)) == a && SubColumn(InvSubColumn(a)) == a
  {
    hide SubByte, InvSubByte;
    SubByteUndone(a.r0);
    SubByteUndone(a.r1);
    SubByteUndone(a.r2);
    SubByteUndone(a.r3);
  }

  /** The byte substitution and the row shift of a round are undone together, in either order. */
  lemma UnshiftUnsub(s: State)
    ensures InvSubBytes(InvShiftRows(ShiftRows(SubBytes(s)))) == s
    ensures ShiftRows(SubBytes(InvSubBytes(InvShiftRows(s)))) == s
  {
    hide SubColumn, InvSubColumn;
    assert InvShiftRows(ShiftRows(SubBytes(s))) == SubBytes(s);
    InvSubColumnUndoes(s.c0);
    InvSubColumnUndoes(s.c1);
    InvSubColumnUndoes(s.c2);
    InvSubColumnUndoes(s.c3);
    var u := InvShiftRows(s);
    InvSubColumnUndoes(u.c0);
    InvSubColumnUndoes(u.c1);
    InvSubColumnUndoes(u.c2);
    InvSubColumnUndoes(u.c3);
    assert SubBytes(InvSubBytes(u)) == u;
  }

  // ---------------------------------------------------------------- the ciphers

  ghost function Round(s: State, k: State): State
  {
    AddRoundKey(MixColumns(ShiftRows(SubBytes(s))), k)
  }

  /** The first column of a round on bytes: byte r comes from row r of column r, through the S-box and row r of the matrix
      of equation 5.6, and meets its key byte. */
  lemma RoundBytes(s: State, k: State)
    ensures
      var a, b, c, d := SubByte(s.c0.r0), SubByte(s.c1.r1), SubByte(s.c2.r2), SubByte(s.c3.r3);
      Round(s, k).c0 == Column(
        Add(Add(Add(GMul(2, a), GMul(3, b)), Add(GMul(1, c), GMul(1, d))), k.c0.r0),
        Add(Add(Add(GMul(1, a), GMul(2, b)), Add(GMul(3, c), GMul(1, d))), k.c0.r1),
        Add(Add(Add(GMul(1, a), GMul(1, b)), Add(GMul(2, c), GMul(3, d))), k.c0.r2),
        Add(Add(Add(GMul(3, a), GMul(1, b)), Add(GMul(1, c), GMul(2, d))), k.c0.r3))
  {
    hide Add, GMul, SubByte;
  }

  /** The columns one place further. */
  function NextColumns(s: State): State
  {
    State(s.c1, s.c2, s.c3, s.c0)
  }

  /** And so for the other columns: a round treats all four alike. */
  lemma RoundTurns(s: State, k: State)
    ensures Round(NextColumns(s), NextColumns(k)) == NextColumns(Round(s, k))
  {
    hide MixColumn, SubColumn, AddColumn;
  }

  /** The last round leaves the matrix out. */
  lemma LastRoundBytes(s: State, k: State)
    ensures AddRoundKey(ShiftRows(SubBytes(s)), k).c0 == Column(Add(SubByte(s.c0.r0), k.c0.r0),
      Add(SubByte(s.c1.r1), k.c0.r1), Add(SubByte(s.c2.r2), k.c0.r2), Add(SubByte(s.c3.r3), k.c0.r3))
    ensures AddRoundKey(ShiftRows(SubBytes(NextColumns(s))), NextColumns(k)) ==
      NextColumns(AddRoundKey(ShiftRows(SubBytes(s)), k))
  {
    hide Add, SubByte;
  }

  /** The state after the initial key addition and n full rounds: section 5.1. */
  ghost function After(w: seq<State>, s: State, n: nat): State
    requires n < |w|
  {
    if n == 0 then AddRoundKey(s, w[0]) else Round(After(w, s, n - 1), w[n])
  }

  /** Cipher of section 5.1: the last round has no MixColumns. */
  ghost function Cipher(w: seq<State>, s: State): State
    requires |w| >= 2
  {
    var nr := |w| - 1;
    AddRoundKey(ShiftRows(SubBytes(After(w, s, nr - 1))), w[nr])
  }

  ghost function InvRound(s: State, k: State): State
  {
    AddRoundKey(InvMixColumns(InvShiftRows(InvSubBytes(s))), k)
  }

  ghost function InvAfter(dw: seq<State>, s: State, n: nat): State
    requires n < |dw|
  {
    if n == 0 then AddRoundKey(s, dw[0]) else InvRound(InvAfter(dw, s, n - 1), dw[n])
  }

  /** EqInvCipher of section 5.3.5, taking its keys in the order they are used. */
  ghost function EqInvCipher(dw: seq<State>, s: State): State
    requires |dw| >= 2
  {
    var nr := |dw| - 1;
    AddRoundKey(InvShiftRows(InvSubBytes(InvAfter(dw, s, nr - 1))), dw[nr])
  }

  /** The decryption keys: reversed, and mixed but for the first and the last. */
  ghost function DecryptionKeys(w: seq<State>): (r: seq<State>)
    requires |w| >= 2
    ensures |r| == |w|
  {
    seq(|w|, i requires 0 <= i < |w| =>
      if i == 0 || i == |w| - 1 then w[|w| - 1 - i] else InvMixColumns(w[|w| - 1 - i]))
  }

  /** Substitution and row shift commute. */
  lemma SubShift(s: State)
    ensures InvShiftRows(InvSubBytes(s)) == InvSubBytes(InvShiftRows(s))
  {
  }

  /** After n inverse rounds the state is where the cipher was before its last n + 1, up to shift and substitution. */
  lemma {:induction false} RoundsPeel(w: seq<State>, s: State, n: nat)
    requires |w| >= 2 && n < |w| - 1
    ensures InvAfter(DecryptionKeys(w), Cipher(w, s), n) == ShiftRows(SubBytes(After(w, s, |w| - 2 - n)))
  {
    hide AddRoundKey, MixColumns, InvMixColumns, SubBytes, InvSubBytes, ShiftRows, InvShiftRows;
    var nr := |w| - 1;
    if n == 0 {
      AddRoundKeyTwice(ShiftRows(SubBytes(After(w, s, nr - 1))), w[nr]);
    } else {
      RoundsPeel(w, s, n - 1);
      var before := After(w, s, nr - n);
      SubShift(ShiftRows(SubBytes(before)));
      UnshiftUnsub(before);
      var earlier := ShiftRows(SubBytes(After(w, s, nr - n - 1)));
      assert before == AddRoundKey(MixColumns(earlier), w[nr - n]);
      InvMixColumnsAdd(MixColumns(earlier), w[nr - n]);
      UnmixColumns(earlier);
      AddRoundKeyTwice(earlier, InvMixColumns(w[nr - n]));
    }
  }

  /** The equivalent inverse cipher undoes the cipher, for every key schedule. */
  lemma DecryptsEncrypted(w: seq<State>, s: State)
    requires |w| >= 2
    ensures EqInvCipher(DecryptionKeys(w), Cipher(w, s)) == s
  {
    hide AddRoundKey, SubBytes, InvSubBytes, ShiftRows, InvShiftRows, Cipher, InvAfter;
    var nr := |w| - 1;
    RoundsPeel(w, s, nr - 1);
    var first := After(w, s, 0);
    SubShift(ShiftRows(SubBytes(first)));
    UnshiftUnsub(first);
    AddRoundKeyTwice(s, w[0]);
  }

  /** The same peeling from the other end: the cipher retraces the rounds of the inverse cipher. */
  lemma {:induction false} RoundsRetrace(w: seq<State>, x: State, n: nat)
    requires |w| >= 2 && n < |w| - 1
    ensures ShiftRows(SubBytes(After(w, EqInvCipher(DecryptionKeys(w), x), n))) == InvAfter(DecryptionKeys(w), x, |w| - 2 - n)
  {
    hide AddRoundKey, MixColumns, InvMixColumns, SubBytes, InvSubBytes, ShiftRows, InvShiftRows;
    var nr := |w| - 1;
    var dw := DecryptionKeys(w);
    var t := InvAfter(dw, x, nr - 1 - n);
    SubShift(t);
    UnshiftUnsub(t);
    if n == 0 {
      AddRoundKeyTwice(InvShiftRows(InvSubBytes(t)), w[0]);
    } else {
      RoundsRetrace(w, x, n - 1);
      var next := InvAfter(dw, x, nr - n);
      assert next == InvRound(t, dw[nr - n]) && dw[nr - n] == InvMixColumns(w[n]);
      var u := InvShiftRows(InvSubBytes(t));
      InvMixColumnsAdd(u, w[n]);
      RemixColumns(AddRoundKey(u, w[n]));
      AddRoundKeyTwice(u, w[n]);
    }
  }

  /** The cipher undoes the equivalent inverse cipher. */
  lemma EncryptsDecrypted(w: seq<State>, x: State)
    requires |w| >= 2
    ensures Cipher(w, EqInvCipher(DecryptionKeys(w), x)) == x
  {
    hide AddRoundKey, SubBytes, InvSubBytes, ShiftRows, InvShiftRows, EqInvCipher, After;
    var nr := |w| - 1;
    RoundsRetrace(w, x, nr - 1);
    AddRoundKeyTwice(x, w[nr]);
  }
}
