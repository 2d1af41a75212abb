/** The AES S-box, its inverse, and the multiples MixColumns needs (FIPS 197, sections 5.1.1, 5.1.3, 5.3.2, 5.3.3). */
module AesSbox {
  import opened Blocks
  import opened AesField

  function Rotl(y: bv8): bv8
  {
    (y << 1) | (y >> 7)
  }

  /** The affine part as the table generator computes it: four rotations added up, and 0x63. */
  function Affine(x: bv8): bv8
  {
    var y1 := Rotl(x);
    var y2 := Rotl(y1);
    var y3 := Rotl(y2);
    var y4 := Rotl(y3);
    Add(Add(Add(Add(x, y1), y2), y3), Add(y4, 0x63))
  }

  /** Its inverse. */
  function AffineInv(x: bv8): bv8
  {
    var y1 := Rotl(x);
    var y3 := Rotl(Rotl(y1));
    var y6 := Rotl(Rotl(Rotl(y3)));
    Add(Add(y1, y3), Add(y6, 0x05))
  }

  lemma AffineUndone(x: bv8)
    ensures AffineInv(Affine(x)) == x
  {
  }

  lemma AffineRedone(x: bv8)
    ensures Affine(AffineInv(x)) == x
  {
  }

  predicate Sum5(a: bool, b: bool, c: bool, d: bool, e: bool)
  {
    ((((a != b) != c) != d) != e)
  }

  /** Equation 5.1 of FIPS 197: bit i is the sum of bits i, i+4, i+5, i+6, i+7 modulo 8 and bit i of 0x63. */
  ghost predicate IsAffineOf(r: bv8, b: bv8)
  {
    forall i: nat :: i < 8 ==>
      (BitOf(r, i) <==> (Sum5(BitOf(b, i), BitOf(b, (i + 4) % 8), BitOf(b, (i + 5) % 8), BitOf(b, (i + 6) % 8),
                              BitOf(b, (i + 7) % 8)) != BitOf(0x63, i)))
  }

  lemma RotlBit(y: bv8, i: nat)
    requires i < 8
    ensures BitOf(Rotl(y), i) <==> BitOf(y, (i + 7) % 8)
  {
  }

  lemma AddBit(x: bv8, y: bv8, i: nat)
    requires i < 8
    ensures BitOf(Add(x, y), i) <==> BitOf(x, i) != BitOf(y, i)
  {
    XorBit(x, y, i);
    hide BitOf;
  }

  lemma RotlBits(b: bv8, i: nat)
    requires i < 8
    ensures BitOf(Rotl(b), i) <==> BitOf(b, (i + 7) % 8)
    ensures BitOf(Rotl(Rotl(b)), i) <==> BitOf(b, (i + 6) % 8)
    ensures BitOf(Rotl(Rotl(Rotl(b))), i) <==> BitOf(b, (i + 5) % 8)
    ensures BitOf(Rotl(Rotl(Rotl(Rotl(b)))), i) <==> BitOf(b, (i + 4) % 8)
  {
    hide Rotl, BitOf;
    var i7, i6, i5, i4 := (i + 7) % 8, (i + 6) % 8, (i + 5) % 8, (i + 4) % 8;
    assert i6 == (i7 + 7) % 8 && i5 == (i6 + 7) % 8 && i4 == (i5 + 7) % 8;
    RotlChain(b, i, i7, i6, i5, i4);
  }

  lemma RotlChain(b: bv8, i: nat, i7: nat, i6: nat, i5: nat, i4: nat)
    requires i < 8 && i7 == (i + 7) % 8 && i6 == (i7 + 7) % 8 && i5 == (i6 + 7) % 8 && i4 == (i5 + 7) % 8
    ensures BitOf(Rotl(b), i) <==> BitOf(b, i7)
    ensures BitOf(Rotl(Rotl(b)), i) <==> BitOf(b, i6)
    ensures BitOf(Rotl(Rotl(Rotl(b))), i) <==> BitOf(b, i5)
    ensures BitOf(Rotl(Rotl(Rotl(Rotl(b)))), i) <==> BitOf(b, i4)
  {
    hide Rotl, BitOf;
    RotlBit(b, i);
    RotlBit(Rotl(b), i);
    RotlBit(b, i7);
    RotlBit(Rotl(Rotl(b)), i);
    RotlBit(Rotl(b), i7);
    RotlBit(b, i6);
    RotlBit(Rotl(Rotl(Rotl(b))), i);
    RotlBit(Rotl(Rotl(b)), i7);
    RotlBit(Rotl(b), i6);
    RotlBit(b, i5);
  }

  lemma SumBit(a: bv8, b: bv8, c: bv8, d: bv8, e: bv8, i: nat)
    requires i < 8
    ensures BitOf(Add(Add(Add(Add(a, b), c), d), Add(e, 0x63)), i) <==>
      (Sum5(BitOf(a, i), BitOf(e, i), BitOf(d, i), BitOf(c, i), BitOf(b, i)) != BitOf(0x63, i))
  {
    hide Add, BitOf;
    AddBit(a, b, i);
    AddBit(Add(a, b), c, i);
    AddBit(Add(Add(a, b), c), d, i);
    AddBit(e, 0x63, i);
    AddBit(Add(Add(Add(a, b), c), d), Add(e, 0x63), i);
  }

  lemma AffineIsAffine(b: bv8)
    ensures IsAffineOf(Affine(b), b)
  {
    hide Rotl, Add, BitOf, Sum5;
    forall i: nat | i < 8
      ensures BitOf(Affine(b), i) <==> (Sum5(BitOf(b, i), BitOf(b, (i + 4) % 8), BitOf(b, (i + 5) % 8), BitOf(b, (i + 6) % 8),
                              BitOf(b, (i + 7) % 8)) != BitOf(0x63, i))
    {
      RotlBits(b, i);
      SumBit(b, Rotl(b), Rotl(Rotl(b)), Rotl(Rotl(Rotl(b))), Rotl(Rotl(Rotl(Rotl(b)))), i);
    }
  }

  /** Section 5.1.1. */
  ghost function SubByte(b: bv8): bv8
  {
    Affine(Inv(b))
  }

  /** Section 5.3.2. */
  ghost function InvSubByte(b: bv8): bv8
  {
    Inv(AffineInv(b))
  }

  lemma SubByteUndone(b: bv8)
    ensures InvSubByte(SubByte(b)) == b && SubByte(InvSubByte(b)) == b
  {
    hide Affine, AffineInv, Inv;
    AffineUndone(Inv(b));
    InvTwice(b);
    InvTwice(AffineInv(b));
    AffineRedone(b);
  }

  // ---------------------------------------------------------------- constant multiples

  lemma Times2(x: bv8)
    ensures GMul(2, x) == Xtime(x)
  {
    assert Xtime(1) == 2;
    hide GMul, Xtime;
    GMulXtime(1, x);
    GMulOne(x);
  }

  lemma Times3(x: bv8)
    ensures GMul(3, x) == Add(x, Xtime(x))
  {
    assert Add(1, 2) == 3;
    hide GMul, Xtime, Add;
    GMulAdd(1, 2, x);
    GMulOne(x);
    Times2(x);
  }
}
