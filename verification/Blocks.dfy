/** Byte blocks, block ciphers, and the binary fields their modes compute in. */
module Blocks {
  /** A keyed block cipher on blocks of n bytes. */
  datatype BlockCipher = BlockCipher(n: nat, enc: seq<bv8> -> seq<bv8>, dec: seq<bv8> -> seq<bv8>)
  {
    /** All that the modes need: both directions keep the length and undo each other. */
    ghost predicate Permutation()
    {
      && n > 0
      && (forall b {:trigger enc(b)} :: |b| == n ==> |enc(b)| == n)
      && (forall b {:trigger dec(b)} :: |b| == n ==> |dec(b)| == n)
      && (forall b {:trigger dec(enc(b))} :: |b| == n ==> dec(enc(b)) == b)
      && (forall b {:trigger enc(dec(b))} :: |b| == n ==> enc(dec(b)) == b)
    }
  }

  function Xor(a: seq<bv8>, b: seq<bv8>): (r: seq<bv8>)
    requires |a| == |b|
    ensures |r| == |a|
  {
    seq(|a|, i requires 0 <= i < |a| => a[i] ^ b[i])
  }

  lemma XorAt(a: seq<bv8>, b: seq<bv8>, i: nat)
    requires |a| == |b| && i < |a|
    ensures Xor(a, b)[i] == a[i] ^ b[i]
  {
  }

  lemma XorTwice(a: seq<bv8>, t: seq<bv8>)
    requires |a| == |t|
    ensures Xor(Xor(a, t), t) == a
  {
    forall i | 0 <= i < |a|
      ensures Xor(Xor(a, t), t)[i] == a[i]
    {
      ByteXorTwice(a[i], t[i]);
    }
  }

  lemma ByteXorTwice(x: bv8, y: bv8)
    ensures (x ^ y) ^ y == x
  {
  }

  // ---------------------------------------------------------------- array blocks

  /** s with the bytes from d on replaced by v. */
  function Splice(s: seq<bv8>, d: nat, v: seq<bv8>): (r: seq<bv8>)
    requires d + |v| <= |s|
    ensures |r| == |s|
  {
    s[..d] + v + s[d + |v|..]
  }

  lemma SpliceAt(s: seq<bv8>, d: nat, v: seq<bv8>)
    requires d + |v| <= |s|
    ensures Splice(s, d, v)[..d] == s[..d]
    ensures Splice(s, d, v)[d..d + |v|] == v
    ensures Splice(s, d, v)[d + |v|..] == s[d + |v|..]
  {
  }

  lemma SpliceNext(s: seq<bv8>, d: nat, v: seq<bv8>, i: nat)
    requires d + |v| <= |s| && i < |v|
    ensures Splice(s, d, v[..i])[d + i := v[i]] == Splice(s, d, v[..i + 1])
    ensures Splice(s, d, v[..i])[d + i] == s[d + i]
  {
  }

  /** `dst[d+i] = src[s+i] ^ t[i]` for i below the length of t; src may be dst itself. */
  method XorInto(dst: array<bv8>, d: nat, src: array<bv8>, s: nat, t: array<bv8>)
    requires dst != t && d + t.Length <= dst.Length && s + t.Length <= src.Length
    requires dst != src || d == s
    modifies dst
    ensures dst[..] == Splice(old(dst[..]), d, Xor(old(src[s..s + t.Length]), t[..]))
  {
    ghost var was, v := dst[..], Xor(src[s..s + t.Length], t[..]);
    for i := 0 to t.Length
      invariant dst[..] == Splice(was, d, v[..i])
    {
      SpliceNext(was, d, v, i);
      hide Splice;
      assert dst[..][d + i] == was[d + i];
      assert v[i] == src[s + i] ^ t[i];
      dst[d + i] := src[s + i] ^ t[i];
    }
    assert v[..t.Length] == v;
  }

  /** memcpy between distinct buffers. */
  method CopyInto(dst: array<bv8>, d: nat, src: array<bv8>, s: nat, n: nat)
    requires dst != src && d + n <= dst.Length && s + n <= src.Length
    modifies dst
    ensures dst[..] == Splice(old(dst[..]), d, src[s..s + n])
  {
    ghost var was, v := dst[..], src[s..s + n];
    for i := 0 to n
      invariant dst[..] == Splice(was, d, v[..i])
    {
      SpliceNext(was, d, v, i);
      hide Splice;
      dst[d + i] := src[s + i];
    }
    assert v[..n] == v;
  }

  /** Overwrites a whole buffer with a value of its length. */
  method Store(dst: array<bv8>, v: seq<bv8>)
    requires |v| == dst.Length
    modifies dst
    ensures dst[..] == v
  {
    for i := 0 to |v|
      invariant forall k :: 0 <= k < i ==> dst[k] == v[k]
    {
      dst[i] := v[i];
    }
  }

  // ---------------------------------------------------------------- multiplication by x

  function Mask(k: nat): bv8
    requires k < 8
  {
    if k == 0 then 1 else if k == 1 then 2 else if k == 2 then 4 else if k == 3 then 8
    else if k == 4 then 16 else if k == 5 then 32 else if k == 6 then 64 else 128
  }

  predicate BitOf(b: bv8, k: nat)
    requires k < 8
  {
    b & Mask(k) != 0
  }

  /** Coefficient k of the polynomial over GF(2) whose lowest eight coefficients are byte 0. */
  predicate Coef(p: seq<bv8>, k: nat)
    requires k < 8 * |p|
  {
    BitOf(p[k / 8], k % 8)
  }

  /** r = x * p modulo x^(8|p|) + f, coefficient by coefficient. */
  ghost predicate IsTimesX(r: seq<bv8>, p: seq<bv8>, f: bv8)
  {
    && 0 < |p| == |r|
    && forall k: nat :: k < 8 * |p| ==>
      (Coef(r, k) <==> ((k > 0 && Coef(p, k - 1)) != (k < 8 && BitOf(f, k) && Coef(p, 8 * |p| - 1))))
  }

  /** Two polynomials with the same coefficients are the same bytes. */
  lemma SameCoefs(a: seq<bv8>, b: seq<bv8>)
    requires |a| == |b| && forall k: nat :: k < 8 * |a| ==> (Coef(a, k) <==> Coef(b, k))
    ensures a == b
  {
    forall i | 0 <= i < |a|
      ensures a[i] == b[i]
    {
      forall k: nat | k < 8
        ensures BitOf(a[i], k) <==> BitOf(b[i], k)
      {
        assert (8 * i + k) / 8 == i && (8 * i + k) % 8 == k;
        assert Coef(a, 8 * i + k) <==> Coef(b, 8 * i + k);
      }
      SameByte(a[i], b[i]);
    }
  }

  lemma SameByte(x: bv8, y: bv8)
    requires forall k: nat :: k < 8 ==> (BitOf(x, k) <==> BitOf(y, k))
    ensures x == y
  {
    assert forall k: nat {:trigger BitOf(x, k)} :: k < 8 ==> (BitOf(x, k) <==> BitOf(y, k));
    assert BitOf(x, 0) <==> BitOf(y, 0);
    assert BitOf(x, 1) <==> BitOf(y, 1);
    assert BitOf(x, 2) <==> BitOf(y, 2);
    assert BitOf(x, 3) <==> BitOf(y, 3);
    assert BitOf(x, 4) <==> BitOf(y, 4);
    assert BitOf(x, 5) <==> BitOf(y, 5);
    assert BitOf(x, 6) <==> BitOf(y, 6);
    assert BitOf(x, 7) <==> BitOf(y, 7);
    SameBitsSameByte(x, y);
  }

  lemma SameBitsSameByte(x: bv8, y: bv8)
    requires (x & 1 != 0) == (y & 1 != 0) && (x & 2 != 0) == (y & 2 != 0) && (x & 4 != 0) == (y & 4 != 0)
    requires (x & 8 != 0) == (y & 8 != 0) && (x & 16 != 0) == (y & 16 != 0) && (x & 32 != 0) == (y & 32 != 0)
    requires (x & 64 != 0) == (y & 64 != 0) && (x & 128 != 0) == (y & 128 != 0)
    ensures x == y
  {
  }

  /** There is only one product, so IsTimesX determines r. */
  lemma TimesXUnique(r: seq<bv8>, r': seq<bv8>, p: seq<bv8>, f: bv8)
    requires IsTimesX(r, p, f) && IsTimesX(r', p, f)
    ensures r == r'
  {
    SameCoefs(r, r');
  }

  /** One byte of the product: shifted left, with the bit carried in from the byte below. */
  lemma ShiftedByte(x: bv8, below: bv8, k: nat)
    requires k < 8
    ensures BitOf((x << 1) | (below >> 7), k) <==> (if k > 0 then BitOf(x, k - 1) else BitOf(below, 7))
    ensures BitOf(x << 1, k) <==> k > 0 && BitOf(x, k - 1)
  {
    ShiftBits(x, below);
  }

  lemma ShiftBits(x: bv8, below: bv8)
    ensures ((x << 1) | (below >> 7)) & 1 != 0 <==> below & 128 != 0
    ensures ((x << 1) | (below >> 7)) & 2 != 0 <==> x & 1 != 0
    ensures ((x << 1) | (below >> 7)) & 4 != 0 <==> x & 2 != 0
    ensures ((x << 1) | (below >> 7)) & 8 != 0 <==> x & 4 != 0
    ensures ((x << 1) | (below >> 7)) & 16 != 0 <==> x & 8 != 0
    ensures ((x << 1) | (below >> 7)) & 32 != 0 <==> x & 16 != 0
    ensures ((x << 1) | (below >> 7)) & 64 != 0 <==> x & 32 != 0
    ensures ((x << 1) | (below >> 7)) & 128 != 0 <==> x & 64 != 0
    ensures (x << 1) & 1 == 0
    ensures (x << 1) & 2 != 0 <==> x & 1 != 0
    ensures (x << 1) & 4 != 0 <==> x & 2 != 0
    ensures (x << 1) & 8 != 0 <==> x & 4 != 0
    ensures (x << 1) & 16 != 0 <==> x & 8 != 0
    ensures (x << 1) & 32 != 0 <==> x & 16 != 0
    ensures (x << 1) & 64 != 0 <==> x & 32 != 0
    ensures (x << 1) & 128 != 0 <==> x & 64 != 0
  {
  }

  lemma XorBit(x: bv8, y: bv8, k: nat)
    requires k < 8
    ensures BitOf(x ^ y, k) <==> BitOf(x, k) != BitOf(y, k)
  {
    hide Mask;
    MaskIs(k);
    XorMasked(x, y, Mask(k));
  }

  lemma MaskIs(k: nat)
    requires k < 8
    ensures var m := Mask(k); m == 1 || m == 2 || m == 4 || m == 8 || m == 16 || m == 32 || m == 64 || m == 128
  {
  }

  lemma XorMasked(x: bv8, y: bv8, m: bv8)
    requires m == 1 || m == 2 || m == 4 || m == 8 || m == 16 || m == 32 || m == 64 || m == 128
    ensures ((x ^ y) & m != 0) <==> ((x & m != 0) != (y & m != 0))
  {
  }

  function ShiftIn(x: bv8, below: bv8): bv8
  {
    (x << 1) | (below >> 7)
  }

  function ShiftFold(x: bv8, top: bool, f: bv8): bv8
  {
    (x << 1) ^ (if top then f else 0)
  }

  /** A byte-wise shift with the feedback byte in byte 0 is multiplication by x. */
  lemma BytewiseIsTimesX(r: seq<bv8>, p: seq<bv8>, f: bv8)
    requires 0 < |p| == |r|
    requires r[0] == ShiftFold(p[0], BitOf(p[|p| - 1], 7), f)
    requires forall i :: 1 <= i < |p| ==> r[i] == ShiftIn(p[i], p[i - 1])
    ensures IsTimesX(r, p, f)
  {
    hide BitOf, ShiftIn, ShiftFold;
    assert (8 * |p| - 1) / 8 == |p| - 1 && (8 * |p| - 1) % 8 == 7;
    forall k: nat | k < 8 * |p|
      ensures Coef(r, k) <==> ((k > 0 && Coef(p, k - 1)) != (k < 8 && BitOf(f, k) && Coef(p, 8 * |p| - 1)))
    {
      var i, b := k / 8, k % 8;
      if k > 0 {
        assert if b > 0 then (k - 1) / 8 == i && (k - 1) % 8 == b - 1 else (k - 1) / 8 == i - 1 && (k - 1) % 8 == 7;
      }
      if i == 0 {
        HeadByte(p[0], BitOf(p[|p| - 1], 7), f, b);
      } else {
        TailByte(p[i], p[i - 1], b);
      }
    }
  }

  /** Multiplication by x, byte by byte from the lowest coefficients up. */
  function TimesX(p: seq<bv8>, f: bv8): (r: seq<bv8>)
    requires |p| > 0
    ensures IsTimesX(r, p, f)
  {
    var r := seq(|p|, i requires 0 <= i < |p| =>
      if i == 0 then ShiftFold(p[0], BitOf(p[|p| - 1], 7), f) else ShiftIn(p[i], p[i - 1]));
    BytewiseIsTimesX(r, p, f);
    r
  }

  lemma TimesXIs(r: seq<bv8>, p: seq<bv8>, f: bv8)
    requires 0 < |p| == |r|
    requires forall i :: 0 <= i < |p| ==>
      r[i] == if i == 0 then ShiftFold(p[0], BitOf(p[|p| - 1], 7), f) else ShiftIn(p[i], p[i - 1])
    ensures r == TimesX(p, f)
  {
    hide BitOf, ShiftFold, ShiftIn, IsTimesX;
  }

  lemma TimesXAt(p: seq<bv8>, f: bv8, i: nat)
    requires i < |p|
    ensures TimesX(p, f)[i] == if i == 0 then ShiftFold(p[0], BitOf(p[|p| - 1], 7), f) else ShiftIn(p[i], p[i - 1])
  {
    hide BitOf, ShiftFold, ShiftIn, IsTimesX;
  }

  lemma HeadByte(x: bv8, top: bool, f: bv8, k: nat)
    requires k < 8
    ensures BitOf(ShiftFold(x, top, f), k) <==> ((k > 0 && BitOf(x, k - 1)) != (BitOf(f, k) && top))
  {
    ShiftedByte(x, 0, k);
    XorBit(x << 1, if top then f else 0, k);
    ZeroByte(k);
    hide BitOf;
  }

  lemma TailByte(x: bv8, below: bv8, k: nat)
    requires k < 8
    ensures BitOf(ShiftIn(x, below), k) <==> (if k > 0 then BitOf(x, k - 1) else BitOf(below, 7))
  {
    ShiftedByte(x, below, k);
  }

  lemma ZeroByte(k: nat)
    requires k < 8
    ensures !BitOf(0, k)
  {
  }
}
