/** An unsigned char and its value. */
module Octets {
  // An unsigned char and its value, bit by bit.

  function Pack(b0: bool, b1: bool, b2: bool, b3: bool, b4: bool, b5: bool, b6: bool, b7: bool): bv8
  {
    (if b0 then 1 else 0) | (if b1 then 2 else 0) | (if b2 then 4 else 0) | (if b3 then 8 else 0)
    | (if b4 then 16 else 0) | (if b5 then 32 else 0) | (if b6 then 64 else 0) | (if b7 then 128 else 0)
  }

  function Sum(b0: bool, b1: bool, b2: bool, b3: bool, b4: bool, b5: bool, b6: bool, b7: bool): nat
  {
    Twice(b0, Twice(b1, Twice(b2, Twice(b3, Twice(b4, Twice(b5, Twice(b6, Twice(b7, 0))))))))
  }

  function Twice(low: bool, high: nat): nat
  {
    2 * high + (if low then 1 else 0)
  }

  lemma HalfTwice(low: bool, high: nat)
    ensures Twice(low, high) / 2 == high && (Twice(low, high) % 2 == 1) == low
  {
  }

  lemma TwiceHalf(p: nat)
    ensures Twice(p % 2 == 1, p / 2) == p
  {
  }

  /** `(unsigned char) p`. */
  function Byte(p: nat): bv8
    requires p < 256
  {
    var p1 := p / 2; var p2 := p1 / 2; var p3 := p2 / 2; var p4 := p3 / 2;
    var p5 := p4 / 2; var p6 := p5 / 2; var p7 := p6 / 2;
    Pack(p % 2 == 1, p1 % 2 == 1, p2 % 2 == 1, p3 % 2 == 1, p4 % 2 == 1, p5 % 2 == 1, p6 % 2 == 1, p7 % 2 == 1)
  }

  function Value(b: bv8): nat
  {
    Sum(b & 1 != 0, b & 2 != 0, b & 4 != 0, b & 8 != 0, b & 16 != 0, b & 32 != 0, b & 64 != 0, b & 128 != 0)
  }

  lemma Unpack(b0: bool, b1: bool, b2: bool, b3: bool, b4: bool, b5: bool, b6: bool, b7: bool)
    ensures var b := Pack(b0, b1, b2, b3, b4, b5, b6, b7);
      (b & 1 != 0) == b0 && (b & 2 != 0) == b1 && (b & 4 != 0) == b2 && (b & 8 != 0) == b3 &&
      (b & 16 != 0) == b4 && (b & 32 != 0) == b5 && (b & 64 != 0) == b6 && (b & 128 != 0) == b7
  {
  }

  lemma Repack(b: bv8)
    ensures Pack(b & 1 != 0, b & 2 != 0, b & 4 != 0, b & 8 != 0, b & 16 != 0, b & 32 != 0, b & 64 != 0, b & 128 != 0) == b
  {
  }

  lemma ValuePack(b0: bool, b1: bool, b2: bool, b3: bool, b4: bool, b5: bool, b6: bool, b7: bool)
    ensures Value(Pack(b0, b1, b2, b3, b4, b5, b6, b7)) == Sum(b0, b1, b2, b3, b4, b5, b6, b7)
  {
    Unpack(b0, b1, b2, b3, b4, b5, b6, b7);
    hide Pack, Sum;
  }

  lemma BitsOfNat(p: nat, p1: nat, p2: nat, p3: nat, p4: nat, p5: nat, p6: nat, p7: nat)
    requires p1 == p / 2 && p2 == p1 / 2 && p3 == p2 / 2 && p4 == p3 / 2
    requires p5 == p4 / 2 && p6 == p5 / 2 && p7 == p6 / 2 && p7 < 2
    ensures Sum(p % 2 == 1, p1 % 2 == 1, p2 % 2 == 1, p3 % 2 == 1, p4 % 2 == 1, p5 % 2 == 1, p6 % 2 == 1, p7 % 2 == 1) == p
  {
    TwiceHalf(p);
    TwiceHalf(p1);
    TwiceHalf(p2);
    TwiceHalf(p3);
    TwiceHalf(p4);
    TwiceHalf(p5);
    TwiceHalf(p6);
    TwiceHalf(p7);
    assert p7 / 2 == 0;
    hide Twice;
  }

  lemma ByteValue(p: nat)
    requires p < 256
    ensures Value(Byte(p)) == p
  {
    var p1 := p / 2; var p2 := p1 / 2; var p3 := p2 / 2; var p4 := p3 / 2;
    var p5 := p4 / 2; var p6 := p5 / 2; var p7 := p6 / 2;
    ValuePack(p % 2 == 1, p1 % 2 == 1, p2 % 2 == 1, p3 % 2 == 1, p4 % 2 == 1, p5 % 2 == 1, p6 % 2 == 1, p7 % 2 == 1);
    BitsOfNat(p, p1, p2, p3, p4, p5, p6, p7);
    hide Pack, Sum, Value;
  }

  lemma SumBelow(b0: bool, b1: bool, b2: bool, b3: bool, b4: bool, b5: bool, b6: bool, b7: bool)
    ensures Sum(b0, b1, b2, b3, b4, b5, b6, b7) < 256
  {
  }

  lemma ByteOfSum(b0: bool, b1: bool, b2: bool, b3: bool, b4: bool, b5: bool, b6: bool, b7: bool)
    ensures Sum(b0, b1, b2, b3, b4, b5, b6, b7) < 256 && Byte(Sum(b0, b1, b2, b3, b4, b5, b6, b7)) == Pack(b0, b1, b2, b3, b4, b5, b6, b7)
  {
    SumBelow(b0, b1, b2, b3, b4, b5, b6, b7);
    var v7 := Twice(b7, 0); var v6 := Twice(b6, v7); var v5 := Twice(b5, v6); var v4 := Twice(b4, v5);
    var v3 := Twice(b3, v4); var v2 := Twice(b2, v3); var v1 := Twice(b1, v2);
    HalfTwice(b0, v1);
    HalfTwice(b1, v2);
    HalfTwice(b2, v3);
    HalfTwice(b3, v4);
    HalfTwice(b4, v5);
    HalfTwice(b5, v6);
    HalfTwice(b6, v7);
    HalfTwice(b7, 0);
    hide Pack, Twice;
  }

  lemma ValueByte(b: bv8)
    ensures Value(b) < 256 && Byte(Value(b)) == b
  {
    ByteOfSum(b & 1 != 0, b & 2 != 0, b & 4 != 0, b & 8 != 0, b & 16 != 0, b & 32 != 0, b & 64 != 0, b & 128 != 0);
    Repack(b);
    hide Pack, Sum, Byte;
  }

  /** Value is the unsigned value of the byte. */
  lemma ValueIs(b: bv8)
    ensures Value(b) == b as nat
  {
  }

  lemma ZeroValue(b: bv8)
    ensures Value(b) == 0 <==> b == 0
  {
    ValueByte(b);
    ByteValue(0);
    assert Byte(0) == 0;
    hide Byte, Value;
  }
}
