/** The MPI record and the routines that move, resize and compare it. */
module MpiCore {
  import opened Numbers
  import opened Limbs

  type sign = x: int | x == 1 || x == -1 witness 1

  /** mbedtls_mpi_sint: a signed limb whose absolute value is a limb. */
  type sint = z: int | Abs(z) < Pow(2, BIL - 1) witness WitnessSint()

  function WitnessSint(): (z: int)
    ensures Abs(z) < Pow(2, BIL - 1)
  {
    PowPos(2, BIL - 1);
    0
  }

  /** What the C functions answer instead of 0. */
  datatype Error =
    | Ok
    | BadInputData
    | NegativeValue
    | DivisionByZero
    | NotAcceptable

  function Signed(s: sign, m: int): int
  {
    if s == 1 then m else -m
  }

  function Order(x: int, y: int): int
  {
    if x > y then 1 else if x < y then -1 else 0
  }

  function Abs(x: int): nat
  {
    if x < 0 then -x else x
  }

  /** s is the sign, p the limbs, least significant first; n of the source is |p|. */
  class Mpi {
    var s: sign
    var p: seq<limb>

    /** mbedtls_mpi_init */
    constructor ()
      ensures s == 1 && p == []
    {
      s := 1;
      p := [];
    }

    /** The one-limb operand several routines build on their stack. */
    constructor OfLimb(sg: sign, x: limb)
      ensures s == sg && p == [x]
    {
      s := sg;
      p := [x];
    }

    function Mag(): nat
      reads this
    {
      Val(p)
    }

    function Int(): int
      reads this
    {
      Signed(s, Mag())
    }
  }

  lemma SintAbsIsLimb(z: sint)
    ensures Abs(z) < BASE
  {
    BaseEven();
  }

  method OfSint(z: sint) returns (Y: Mpi)
    ensures fresh(Y) && |Y.p| == 1
    ensures Y.Int() == z && (z < 0 <==> Y.s == -1)
  {
    SintAbsIsLimb(z);
    Y := new Mpi.OfLimb(if z < 0 then -1 else 1, if z < 0 then -z else z);
    ValOne(Y.p[0]);
  }

  function Zeros(n: nat): (z: seq<limb>)
    ensures |z| == n && forall k :: 0 <= k < n ==> z[k] == 0
  {
    PowPos(2, BIL);
    seq(n, i => 0)
  }

  method Grow(X: Mpi, nblimbs: nat)
    modifies X`p
    ensures |X.p| == if old(|X.p|) < nblimbs then nblimbs else old(|X.p|)
    ensures old(X.p) <= X.p
    ensures nblimbs <= old(|X.p|) ==> X.p == old(X.p)
    ensures forall k :: old(|X.p|) <= k < |X.p| ==> X.p[k] == 0
    ensures X.Mag() == old(X.Mag())
  {
    if |X.p| < nblimbs {
      ValAppendZeros(X.p, Zeros(nblimbs - |X.p|));
      X.p := X.p + Zeros(nblimbs - |X.p|);
    }
  }

  /** Counts the limbs below which everything significant lies, as the loop
      `for( i = n; i > 0; i-- ) if( p[i - 1] != 0 ) break` does. */
  method UsedLimbs(p: seq<limb>) returns (i: nat)
    ensures i <= |p|
    ensures forall k :: i <= k < |p| ==> p[k] == 0
    ensures i > 0 ==> p[i - 1] != 0 && Place(i - 1) <= Val(p)
    ensures Val(p[..i]) == Val(p)
    ensures i == 0 <==> Val(p) == 0
  {
    hide Pow, Val;
    i := |p|;
    while i > 0 && p[i - 1] == 0
      invariant 0 <= i <= |p|
      invariant forall k :: i <= k < |p| ==> p[k] == 0
    {
      i := i - 1;
    }
    ValTrim(p, i);
    if i > 0 {
      ValTopBound(p, i - 1);
      PlaceFacts(i - 1);
    } else {
      ValZeros(p);
    }
  }

  /** The variant of the loop above that keeps one limb even when all are zero. */
  method KeptLimbs(p: seq<limb>) returns (i: nat)
    requires |p| > 0
    ensures 1 <= i <= |p|
    ensures forall k :: i <= k < |p| ==> p[k] == 0
    ensures i > 1 ==> p[i - 1] != 0
    ensures Val(p[..i]) == Val(p)
  {
    hide Pow, Val;
    i := |p| - 1;
    while i > 0 && p[i] == 0
      invariant 0 <= i < |p|
      invariant forall k :: i < k < |p| ==> p[k] == 0
    {
      i := i - 1;
    }
    i := i + 1;
    ValTrim(p, i);
  }

  method Copy(X: Mpi, Y: Mpi)
    modifies X
    ensures X.Mag() == old(Y.Mag())
    ensures old(|Y.p|) > 0 || X == Y ==> X.s == old(Y.s)
    ensures X.Int() == old(Y.Int())
    ensures X != Y && old(|Y.p|) == 0 ==> X.p == [] && X.s == 1
    ensures X != Y && old(|Y.p|) > 0 ==> |X.p| >= 1 && |X.p| >= old(|X.p|)
    ensures X != Y && old(|X.p|) == 0 && old(|Y.p|) > 0 ==>
      X.p <= Y.p && (|X.p| > 1 ==> X.p[|X.p| - 1] != 0)
    ensures X == Y ==> X.p == old(X.p)
  {
    if X == Y {
      return;
    }
    if |Y.p| == 0 {
      X.s, X.p := 1, [];
      return;
    }
    var i := KeptLimbs(Y.p);
    X.s := Y.s;
    if |X.p| < i {
      Grow(X, i);
    } else {
      X.p := X.p[..i] + Zeros(|X.p| - i);
    }
    X.p := Y.p[..i] + X.p[i..];
    ValTrim(X.p, i);
    assert X.p[..i] == Y.p[..i];
  }

  method Lset(X: Mpi, z: sint)
    modifies X
    ensures X.Int() == z && X.Mag() == Abs(z)
    ensures X.s == if z < 0 then -1 else 1
    ensures |X.p| == if old(|X.p|) < 1 then 1 else old(|X.p|)
    ensures forall k :: 1 <= k < |X.p| ==> X.p[k] == 0
  {
    SintAbsIsLimb(z);
    Grow(X, 1);
    X.p := Zeros(|X.p|);
    X.p := X.p[0 := if z < 0 then -z else z];
    X.s := if z < 0 then -1 else 1;
    ValTrim(X.p, 1);
    assert X.p[..1] == [X.p[0]];
    ValOne(X.p[0]);
  }

  /** The number of significant limbs decides unless it ties. */
  lemma MoreLimbs(s: seq<limb>, t: seq<limb>, i: nat, j: nat)
    requires j < i <= |s| && j <= |t|
    requires s[i - 1] != 0
    requires forall k :: j <= k < |t| ==> t[k] == 0
    ensures Val(s) > Val(t)
  {
    hide Pow, Val;
    ValTrim(t, j);
    ValBound(t[..j]);
    ValTopBound(s, i - 1);
    BaseBound();
    PowMono(BASE, j, i - 1);
  }

  lemma SamePrefixOrder(s: seq<limb>, t: seq<limb>, n: nat, i: nat)
    requires i < n <= |s| && n <= |t|
    requires Val(s[..n]) == Val(s) && Val(t[..n]) == Val(t)
    requires forall k :: i < k < n ==> s[k] == t[k]
    ensures s[i] > t[i] ==> Val(s) > Val(t)
    ensures s[i] < t[i] ==> Val(s) < Val(t)
  {
    if s[i] > t[i] {
      ValCompare(s[..n], t[..n], i);
    } else if s[i] < t[i] {
      ValCompare(t[..n], s[..n], i);
    }
  }

  /** The closing loop of both comparisons: equally many limbs, from the top down. */
  method CmpLimbs(x: seq<limb>, y: seq<limb>, n: nat) returns (r: int)
    requires n <= |x| && n <= |y|
    requires Val(x[..n]) == Val(x) && Val(y[..n]) == Val(y)
    ensures r == Order(Val(x), Val(y))
  {
    var i := n;
    while i > 0
      invariant 0 <= i <= n
      invariant forall k :: i <= k < n ==> x[k] == y[k]
    {
      SamePrefixOrder(x, y, n, i - 1);
      if x[i - 1] > y[i - 1] {
        return 1;
      }
      if x[i - 1] < y[i - 1] {
        return -1;
      }
      i := i - 1;
    }
    assert x[..n] == y[..n];
    return 0;
  }

  method CmpAbs(X: Mpi, Y: Mpi) returns (r: int)
    ensures r == Order(X.Mag(), Y.Mag())
  {
    var i := UsedLimbs(X.p);
    var j := UsedLimbs(Y.p);
    if i == 0 && j == 0 {
      return 0;
    }
    if i > j {
      MoreLimbs(X.p, Y.p, i, j);
      return 1;
    }
    if j > i {
      MoreLimbs(Y.p, X.p, j, i);
      return -1;
    }
    r := CmpLimbs(X.p, Y.p, i);
  }

  lemma SignedOrder(s: sign, a: nat, t: sign, b: nat)
    ensures a > b ==> Order(Signed(s, a), Signed(t, b)) == s
    ensures a < b ==> Order(Signed(s, a), Signed(t, b)) == 0 - t
    ensures a == b && s == t ==> Order(Signed(s, a), Signed(t, b)) == 0
    ensures (a > 0 || b > 0) && s != t ==> Order(Signed(s, a), Signed(t, b)) == s
  {
  }

  method CmpMpi(X: Mpi, Y: Mpi) returns (r: int)
    ensures r == Order(X.Int(), Y.Int())
  {
    hide Pow, Val;
    SignedOrder(X.s, X.Mag(), Y.s, Y.Mag());
    var i := UsedLimbs(X.p);
    var j := UsedLimbs(Y.p);
    if i == 0 && j == 0 {
      return 0;
    }
    if i > j {
      MoreLimbs(X.p, Y.p, i, j);
      return X.s;
    }
    if j > i {
      MoreLimbs(Y.p, X.p, j, i);
      return 0 - Y.s;
    }
    if X.s > 0 && Y.s < 0 {
      return 1;
    }
    if Y.s > 0 && X.s < 0 {
      return -1;
    }
    r := CmpLimbs(X.p, Y.p, i);
    return if X.s == 1 then r else -r;
  }

  method CmpInt(X: Mpi, z: sint) returns (r: int)
    ensures r == Order(X.Int(), z)
  {
    var Y := OfSint(z);
    r := CmpMpi(X, Y);
  }
}
