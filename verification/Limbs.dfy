/** Limb vectors: what a little-endian array of machine words is worth as an integer. */
module Limbs {
  import opened Numbers

  /** biL: the width of a limb is a build-time constant, either 32 or 64 bits.
      It has no value here, so every proof below holds for both builds. */
  type LimbBits = w: nat | w == 32 || w == 64 witness 64
  const BIL: LimbBits

  const BASE: nat := Pow(2, BIL)

  type limb = x: nat | x < BASE witness ZeroLimb()

  function ZeroLimb(): (x: nat)
    ensures x == 0 && 0 < BASE
  {
    PowPos(2, BIL);
    0
  }

  lemma BaseEven()
    ensures BASE == 2 * Pow(2, BIL - 1)
  {
  }

  /** BASE is a perfect square: a limb splits into two half words. */
  lemma BaseSquare()
    ensures BASE == Pow(2, BIL / 2) * Pow(2, BIL / 2)
  {
    hide Pow;
    PowAdd(2, BIL / 2, BIL / 2);
    assert BIL / 2 + BIL / 2 == BIL;
  }

  lemma Pow32()
    ensures Pow(2, 8) == 256
    ensures Pow(2, 32) == 0x1_0000_0000
  {
    PowAdd(2, 8, 8);
    PowAdd(2, 16, 16);
  }

  lemma BaseBound()
    ensures 0x1_0000_0000 <= BASE
  {
    Pow32();
    PowMono(2, 32, BIL);
  }

  /** The place value of limb k. */
  function Place(k: nat): nat
  {
    Pow(BASE, k)
  }

  lemma PlaceFacts(k: nat)
    ensures 0 < Place(k)
    ensures Place(k + 1) == BASE * Place(k)
    ensures Place(0) == 1
    ensures Place(1) == BASE
  {
    BaseBound();
    PowPos(BASE, k);
    PowOne(BASE);
  }

  lemma PlaceIsBits(k: nat)
    ensures Place(k) == Pow(2, BIL * k)
  {
    PowMul(2, BIL, k);
  }

  /** The integer a limb vector denotes. */
  function Val(s: seq<limb>): nat
  {
    if |s| == 0 then 0 else s[0] + BASE * Val(s[1..])
  }

  lemma SplitStep(b: int, low: int, place: int, high: int)
    ensures b * (low + place * high) == b * low + (b * place) * high
  {
    Distr(b, low, place * high);
    Assoc(b, place, high);
  }

  lemma {:induction false} ValSplit(s: seq<limb>, k: nat)
    requires k <= |s|
    ensures Val(s) == Val(s[..k]) + Place(k) * Val(s[k..])
  {
    PlaceFacts(0);
    if k == 0 {
      assert s[..0] == [] && s[0..] == s;
    } else {
      var t := s[1..];
      ValSplit(t, k - 1);
      assert t[..k - 1] == s[..k][1..];
      assert t[k - 1..] == s[k..];
      PlaceFacts(k - 1);
      SplitStep(BASE, Val(t[..k - 1]), Place(k - 1), Val(s[k..]));
    }
  }

  lemma ValOne(x: limb)
    ensures Val([x]) == x
  {
    assert [x][1..] == [];
  }

  lemma ValSnoc(s: seq<limb>, k: nat)
    requires k < |s|
    ensures Val(s[..k + 1]) == Val(s[..k]) + s[k] * Place(k)
  {
    hide Pow, Val;
    var t := s[..k + 1];
    ValSplit(t, k);
    assert t[..k] == s[..k] && t[k..] == [s[k]];
    ValOne(s[k]);
  }

  lemma ValCons(s: seq<limb>, k: nat)
    requires k < |s|
    ensures Val(s[k..]) == s[k] + BASE * Val(s[k + 1..])
  {
    assert s[k..][1..] == s[k + 1..];
  }

  lemma {:induction false} ValBound(s: seq<limb>)
    ensures Val(s) < Place(|s|)
  {
    BaseBound();
    if |s| == 0 {
      PlaceFacts(0);
    } else {
      ValBound(s[1..]);
      PlaceFacts(|s| - 1);
      MulMono(Val(s[1..]) + 1, Place(|s| - 1), BASE);
      assert BASE * (Val(s[1..]) + 1) == BASE * Val(s[1..]) + BASE;
    }
  }

  lemma {:induction false} ValUpdate(s: seq<limb>, i: nat, v: limb)
    requires i < |s|
    ensures Val(s[i := v]) == Val(s) + (v - s[i]) * Place(i)
  {
    hide Pow, Val;
    var t := s[i := v];
    ValSplit(s, i);
    ValSplit(t, i);
    assert t[..i] == s[..i];
    ValCons(s, i);
    ValCons(t, i);
    assert t[i + 1..] == s[i + 1..];
    Distr(Place(i), Val(t[i..]), Val(s[i..]));
  }

  lemma {:induction false} ValZeros(s: seq<limb>)
    requires forall k :: 0 <= k < |s| ==> s[k] == 0
    ensures Val(s) == 0
  {
    if |s| > 0 {
      ValZeros(s[1..]);
    }
  }

  /** A vector worth 0 has no other digits than 0. */
  lemma {:induction false} ValZeroInv(s: seq<limb>)
    requires Val(s) == 0
    ensures forall k :: 0 <= k < |s| ==> s[k] == 0
  {
    if |s| > 0 {
      BaseBound();
      MulPos(BASE, Val(s[1..]));
      ValZeroInv(s[1..]);
      forall k | 0 <= k < |s| ensures s[k] == 0 {
        if k > 0 {
          assert s[k] == s[1..][k - 1];
        }
      }
    }
  }

  /** High zero limbs change nothing. */
  lemma ValTrim(s: seq<limb>, k: nat)
    requires k <= |s|
    requires forall j :: k <= j < |s| ==> s[j] == 0
    ensures Val(s) == Val(s[..k])
  {
    hide Pow, Val;
    ValSplit(s, k);
    ValZeros(s[k..]);
  }

  lemma ValAppendZeros(s: seq<limb>, t: seq<limb>)
    requires forall k :: 0 <= k < |t| ==> t[k] == 0
    ensures Val(s + t) == Val(s)
  {
    hide Pow, Val;
    ValTrim(s + t, |s|);
    assert (s + t)[..|s|] == s;
  }

  /** A value below a place leaves every limb from there on zero. */
  lemma ValSmallHigh(s: seq<limb>, k: nat)
    requires k <= |s| && Val(s) < Place(k)
    ensures forall j :: k <= j < |s| ==> s[j] == 0
    ensures Val(s[..k]) == Val(s)
  {
    hide Pow, Val;
    ValSplit(s, k);
    var h := Val(s[k..]);
    if h > 0 {
      MulMono(1, h, Place(k));
    }
    ValZeroInv(s[k..]);
    forall j | k <= j < |s| ensures s[j] == 0 {
      assert s[j] == s[k..][j - k];
    }
  }

  /** A nonzero limb bounds the value from below. */
  lemma ValTopBound(s: seq<limb>, k: nat)
    requires k < |s| && s[k] != 0
    ensures Place(k) <= Val(s)
  {
    hide Pow, Val;
    if Val(s) < Place(k) {
      ValSmallHigh(s, k);
    }
  }

  /** Equally long vectors compare at the first limb, from the top, where they differ. */
  lemma ValCompare(s: seq<limb>, t: seq<limb>, i: nat)
    requires |s| == |t| && i < |s|
    requires s[i] > t[i]
    requires forall k :: i < k < |s| ==> s[k] == t[k]
    ensures Val(s) > Val(t)
  {
    hide Pow, Val;
    assert s[i + 1..] == t[i + 1..];
    ValSplit(s, i);
    ValSplit(t, i);
    ValCons(s, i);
    ValCons(t, i);
    ValBound(t[..i]);
    PlaceFacts(i);
    var h := BASE * Val(s[i + 1..]);
    MulMono(t[i] + 1 + h, s[i] + h, Place(i));
    assert Place(i) * (t[i] + 1 + h) == Place(i) * (t[i] + h) + Place(i);
  }

  lemma ParityStep(v: int, low: int, b: int, high: int, half: int)
    requires v == low + b * high && b == 2 * half
    ensures v % 2 == low % 2
  {
    Assoc(2, half, high);
  }

  /** The parity of a vector is the parity of its lowest limb. */
  lemma ValParity(s: seq<limb>)
    requires |s| > 0
    ensures Val(s) % 2 == s[0] % 2
  {
    BaseEven();
    ParityStep(Val(s), s[0], BASE, Val(s[1..]), Pow(2, BIL - 1));
  }
}
