/** AES-XTS over any block permutation: the tweak doubling and ciphertext stealing. */
module XtsMode {
  import opened Blocks

  // ---------------------------------------------------------------- the tweak

  /** A 64-bit word from its bytes, lowest first. */
  function Word(x0: bv8, x1: bv8, x2: bv8, x3: bv8, x4: bv8, x5: bv8, x6: bv8, x7: bv8): bv64
  {
      ((x7 as bv64) << 56) | ((x6 as bv64) << 48) | ((x5 as bv64) << 40) | ((x4 as bv64) << 32)
    | ((x3 as bv64) << 24) | ((x2 as bv64) << 16) | ((x1 as bv64) << 8) | (x0 as bv64)
  }

  function ByteOf(n: bv64, shift: bv7): bv8
    requires shift < 64
  {
    ((n >> shift) & 0xFF) as bv8
  }

  /** GET_UINT64_LE. */
  function Get64(b: seq<bv8>): bv64
    requires |b| == 8
  {
    Word(b[0], b[1], b[2], b[3], b[4], b[5], b[6], b[7])
  }

  /** PUT_UINT64_LE. */
  function Put64(n: bv64): (b: seq<bv8>)
    ensures |b| == 8
  {
    [ByteOf(n, 0), ByteOf(n, 8), ByteOf(n, 16), ByteOf(n, 24), ByteOf(n, 32), ByteOf(n, 40), ByteOf(n, 48), ByteOf(n, 56)]
  }

  /** `( a << 1 ) ^ 0x0087 >> ( 8 - ( ( b >> 63 ) << 3 ) )`. */
  function LowWord(a: bv64, b: bv64): bv64
  {
    (a << 1) ^ ((0x87 as bv64) >> (8 - ((b >> 63) << 3)))
  }

  function HighWord(a: bv64, b: bv64): bv64
  {
    (a >> 63) | (b << 1)
  }

  predicate TopSet(w: bv64)
  {
    w >> 63 == 1
  }

  lemma LowUpperBytes(x0: bv8, x1: bv8, x2: bv8, x3: bv8, x4: bv8, x5: bv8, x6: bv8, x7: bv8, w: bv64)
    ensures ByteOf(LowWord(Word(x0, x1, x2, x3, x4, x5, x6, x7), w), 8) == ShiftIn(x1, x0)
    ensures ByteOf(LowWord(Word(x0, x1, x2, x3, x4, x5, x6, x7), w), 16) == ShiftIn(x2, x1)
    ensures ByteOf(LowWord(Word(x0, x1, x2, x3, x4, x5, x6, x7), w), 24) == ShiftIn(x3, x2)
    ensures ByteOf(LowWord(Word(x0, x1, x2, x3, x4, x5, x6, x7), w), 32) == ShiftIn(x4, x3)
    ensures ByteOf(LowWord(Word(x0, x1, x2, x3, x4, x5, x6, x7), w), 40) == ShiftIn(x5, x4)
    ensures ByteOf(LowWord(Word(x0, x1, x2, x3, x4, x5, x6, x7), w), 48) == ShiftIn(x6, x5)
    ensures ByteOf(LowWord(Word(x0, x1, x2, x3, x4, x5, x6, x7), w), 56) == ShiftIn(x7, x6)
  {
  }

  lemma LowFirstByte(x0: bv8, x1: bv8, x2: bv8, x3: bv8, x4: bv8, x5: bv8, x6: bv8, x7: bv8, w: bv64)
    ensures ByteOf(LowWord(Word(x0, x1, x2, x3, x4, x5, x6, x7), w), 0) == ShiftFold(x0, TopSet(w), 0x87)
  {
  }

  lemma HighBytes(w: bv64, y0: bv8, y1: bv8, y2: bv8, y3: bv8, y4: bv8, y5: bv8, y6: bv8, y7: bv8)
    ensures ByteOf(HighWord(w, Word(y0, y1, y2, y3, y4, y5, y6, y7)), 0) == (y0 << 1) | ((w >> 63) as bv8)
    ensures ByteOf(HighWord(w, Word(y0, y1, y2, y3, y4, y5, y6, y7)), 8) == ShiftIn(y1, y0)
    ensures ByteOf(HighWord(w, Word(y0, y1, y2, y3, y4, y5, y6, y7)), 16) == ShiftIn(y2, y1)
    ensures ByteOf(HighWord(w, Word(y0, y1, y2, y3, y4, y5, y6, y7)), 24) == ShiftIn(y3, y2)
    ensures ByteOf(HighWord(w, Word(y0, y1, y2, y3, y4, y5, y6, y7)), 32) == ShiftIn(y4, y3)
    ensures ByteOf(HighWord(w, Word(y0, y1, y2, y3, y4, y5, y6, y7)), 40) == ShiftIn(y5, y4)
    ensures ByteOf(HighWord(w, Word(y0, y1, y2, y3, y4, y5, y6, y7)), 48) == ShiftIn(y6, y5)
    ensures ByteOf(HighWord(w, Word(y0, y1, y2, y3, y4, y5, y6, y7)), 56) == ShiftIn(y7, y6)
  {
  }

  lemma TopBit(x0: bv8, x1: bv8, x2: bv8, x3: bv8, x4: bv8, x5: bv8, x6: bv8, x7: bv8)
    ensures Word(x0, x1, x2, x3, x4, x5, x6, x7) >> 63 == (x7 >> 7) as bv64
    ensures (Word(x0, x1, x2, x3, x4, x5, x6, x7) >> 63) as bv8 == x7 >> 7
  {
  }

  lemma TopCoefficient(x0: bv8, x1: bv8, x2: bv8, x3: bv8, x4: bv8, x5: bv8, x6: bv8, x7: bv8)
    ensures TopSet(Word(x0, x1, x2, x3, x4, x5, x6, x7)) <==> BitOf(x7, 7)
  {
  }

  lemma LowFirst(lo: seq<bv8>, hi: seq<bv8>)
    requires |lo| == |hi| == 8
    ensures Put64(LowWord(Get64(lo), Get64(hi)))[0] == ShiftFold(lo[0], BitOf(hi[7], 7), 0x87)
  {
    hide Word, ByteOf, LowWord, ShiftIn, ShiftFold, BitOf, TopSet;
    LowFirstByte(lo[0], lo[1], lo[2], lo[3], lo[4], lo[5], lo[6], lo[7], Get64(hi));
    TopCoefficient(hi[0], hi[1], hi[2], hi[3], hi[4], hi[5], hi[6], hi[7]);
  }

  lemma LowRest(lo: seq<bv8>, w: bv64)
    requires |lo| == 8
    ensures forall i :: 1 <= i < 8 ==> Put64(LowWord(Get64(lo), w))[i] == ShiftIn(lo[i], lo[i - 1])
  {
    hide Word, ByteOf, LowWord, ShiftIn, ShiftFold, BitOf, TopSet;
    LowUpperBytes(lo[0], lo[1], lo[2], lo[3], lo[4], lo[5], lo[6], lo[7], w);
  }

  lemma HighPart(lo: seq<bv8>, hi: seq<bv8>)
    requires |lo| == |hi| == 8
    ensures Put64(HighWord(Get64(lo), Get64(hi)))[0] == ShiftIn(hi[0], lo[7])
    ensures forall i :: 1 <= i < 8 ==> Put64(HighWord(Get64(lo), Get64(hi)))[i] == ShiftIn(hi[i], hi[i - 1])
  {
    HighBytes(Get64(lo), hi[0], hi[1], hi[2], hi[3], hi[4], hi[5], hi[6], hi[7]);
    TopBit(lo[0], lo[1], lo[2], lo[3], lo[4], lo[5], lo[6], lo[7]);
    assert Put64(HighWord(Get64(lo), Get64(hi)))[0] == ShiftIn(hi[0], lo[7]);
    hide Word, ByteOf, HighWord, ShiftIn;
  }

  lemma WordsAreTimesX(p: seq<bv8>)
    requires |p| == 16
    ensures Put64(LowWord(Get64(p[..8]), Get64(p[8..]))) + Put64(HighWord(Get64(p[..8]), Get64(p[8..]))) == TimesX(p, 0x87)
  {
    hide *;
    var lo, hi := p[..8], p[8..];
    LowFirst(lo, hi);
    LowRest(lo, Get64(hi));
    HighPart(lo, hi);
    var r := Put64(LowWord(Get64(lo), Get64(hi))) + Put64(HighWord(Get64(lo), Get64(hi)));
    forall i | 0 <= i < 16
      ensures r[i] == (if i == 0 then ShiftFold(p[0], BitOf(p[15], 7), 0x87) else ShiftIn(p[i], p[i - 1]))
    {
      if i >= 8 {
        assert p[i] == hi[i - 8];
      }
    }
    TimesXIs(r, p, 0x87);
  }

  /** mbedtls_gf128mul_x_ble: multiplication by x in GF(2^128), in 64-bit words; r may be x. */
  method GfMulXBle(r: array<bv8>, x: array<bv8>)
    requires r.Length == 16 && x.Length == 16
    modifies r
    ensures r[..] == TimesX(old(x[..]), 0x87)
  {
    hide *;
    ghost var p := x[..];
    var a := Get64(x[..8]);
    var b := Get64(x[8..]);
    assert p[..8] == x[..8] && p[8..] == x[8..];
    var ra := LowWord(a, b);
    var rb := HighWord(a, b);
    WordsAreTimesX(p);
    Store(r, Put64(ra) + Put64(rb));
  }

  // ---------------------------------------------------------------- the mode on byte strings

  /** XTS works on 16-byte blocks; decrypting is the same shape with the other direction of the cipher. */
  ghost predicate Cipher16(c: BlockCipher)
  {
    c.Permutation() && c.n == 16
  }

  function Apply(c: BlockCipher, decrypt: bool, b: seq<bv8>): seq<bv8>
  {
    if decrypt then c.dec(b) else c.enc(b)
  }

  function Doubled(t: seq<bv8>): (r: seq<bv8>)
    requires |t| == 16
    ensures |r| == 16
  {
    TimesX(t, 0x87)
  }

  /** One whitened block: section 5.3.1 of IEEE 1619. */
  ghost function XBlock(c: BlockCipher, decrypt: bool, t: seq<bv8>, b: seq<bv8>): (r: seq<bv8>)
    requires Cipher16(c) && |t| == |b| == 16
    ensures |r| == 16
  {
    Xor(Apply(c, decrypt, Xor(b, t)), t)
  }

  /** A data unit under first tweak t: sections 5.3.2 and 5.4.2 of IEEE 1619. With a partial last block the
      last two blocks are joined by stealing, and decryption uses their two tweaks in the other order. */
  ghost function Xts(c: BlockCipher, decrypt: bool, t: seq<bv8>, p: seq<bv8>): (r: seq<bv8>)
    requires Cipher16(c) && |t| == 16 && (p == [] || |p| >= 16)
    ensures |r| == |p|
    decreases |p|
  {
    if p == [] then []
    else if |p| % 16 == 0 || |p| >= 32 then
      XBlock(c, decrypt, t, p[..16]) + Xts(c, decrypt, Doubled(t), p[16..])
    else
      StolenPair(c, decrypt, t, p)
  }

  /** The last full block and the partial one after it. */
  ghost function StolenPair(c: BlockCipher, decrypt: bool, t: seq<bv8>, p: seq<bv8>): (r: seq<bv8>)
    requires Cipher16(c) && |t| == 16 && 16 < |p| < 32
    ensures |r| == |p|
  {
    var b := |p| - 16;
    var cc := XBlock(c, decrypt, if decrypt then Doubled(t) else t, p[..16]);
    XBlock(c, decrypt, if decrypt then t else Doubled(t), p[16..] + cc[b..]) + cc[..b]
  }

  lemma XBlockUndone(c: BlockCipher, decrypt: bool, t: seq<bv8>, b: seq<bv8>)
    requires Cipher16(c) && |t| == |b| == 16
    ensures XBlock(c, !decrypt, t, XBlock(c, decrypt, t, b)) == b
  {
    XorTwice(Apply(c, decrypt, Xor(b, t)), t);
    XorTwice(b, t);
    hide Xor;
  }

  /** The first block of a unit that has another one or no leftover. */
  lemma XtsFirst(c: BlockCipher, decrypt: bool, t: seq<bv8>, p: seq<bv8>)
    requires Cipher16(c) && |t| == 16 && |p| >= 16 && (|p| % 16 == 0 || |p| >= 32)
    ensures |p[16..]| == 0 || |p[16..]| >= 16
    ensures Xts(c, decrypt, t, p) == XBlock(c, decrypt, t, p[..16]) + Xts(c, decrypt, Doubled(t), p[16..])
    ensures Xts(c, decrypt, t, p)[..16] == XBlock(c, decrypt, t, p[..16])
    ensures Xts(c, decrypt, t, p)[16..] == Xts(c, decrypt, Doubled(t), p[16..])
  {
    hide Cipher16, XBlock, Doubled;
  }

  // The tweaks. ts starts with the tweak of the unit, and each member is x times the one before in GF(2^128).

  lemma NextTweak(t: seq<bv8>, u: seq<bv8>)
    requires |t| == 16 && IsTimesX(u, t, 0x87)
    ensures u == Doubled(t)
  {
    hide IsTimesX;
    TimesXUnique(u, Doubled(t), t, 0x87);
  }

  /** Block j, unless stealing takes part in it, is whitened with tweak j on both sides of the cipher: sections 5.3.1 and
      5.4.1 of IEEE 1619. */
  lemma {:induction false} BlockHasItsTweak(c: BlockCipher, decrypt: bool, t: seq<bv8>, p: seq<bv8>, ts: seq<seq<bv8>>, j: nat)
    requires Cipher16(c) && |t| == 16 && j < |ts| && ts[0] == t
    requires forall i :: 0 <= i < |ts| - 1 ==> IsTimesX(ts[i + 1], ts[i], 0x87)
    requires 16 * j + 16 <= |p| && (|p| % 16 == 0 || 16 * j + 32 <= |p|)
    ensures |ts[j]| == 16
    ensures var w := Xor(p[16 * j..16 * j + 16], ts[j]);
      Xts(c, decrypt, t, p)[16 * j..16 * j + 16] == Xor(if decrypt then c.dec(w) else c.enc(w), ts[j])
    decreases j
  {
    hide IsTimesX, Doubled, Xts, Xor;
    XtsFirst(c, decrypt, t, p);
    if j == 0 {
      assert p[0..16] == p[..16] && Xts(c, decrypt, t, p)[0..16] == Xts(c, decrypt, t, p)[..16];
    } else {
      var us, q := ts[1..], p[16..];
      forall i | 0 <= i < |us| - 1
        ensures IsTimesX(us[i + 1], us[i], 0x87)
      {
        assert us[i] == ts[i + 1] && us[i + 1] == ts[i + 2];
      }
      NextTweak(t, ts[1]);
      BlockHasItsTweak(c, decrypt, ts[1], q, us, j - 1);
      Later(p, j);
      Later(Xts(c, decrypt, t, p), j);
    }
  }

  lemma Later(s: seq<bv8>, j: nat)
    requires 1 <= j && 16 * j + 16 <= |s|
    ensures s[16 * j..16 * j + 16] == s[16..][16 * (j - 1)..16 * (j - 1) + 16]
  {
  }

  /** The last full block and the leftover bytes: encryption uses the last two tweaks in order, decryption in the other
      order, and the second of the two blocks it crypts goes first (sections 5.3.2 and 5.4.2). */
  lemma {:induction false} StolenTweaks(c: BlockCipher, decrypt: bool, t: seq<bv8>, p: seq<bv8>, ts: seq<seq<bv8>>, m: nat, b: nat)
    requires Cipher16(c) && |t| == 16 && 1 <= m == |ts| - 1 && ts[0] == t && |p| == 16 * m + b && 0 < b < 16
    requires forall i :: 0 <= i < |ts| - 1 ==> IsTimesX(ts[i + 1], ts[i], 0x87)
    ensures |ts[m - 1]| == |ts[m]| == 16
    ensures
      var u, v := if decrypt then ts[m] else ts[m - 1], if decrypt then ts[m - 1] else ts[m];
      var w := Xor(p[16 * m - 16..16 * m], u);
      var cc := Xor(if decrypt then c.dec(w) else c.enc(w), u);
      var w' := Xor(p[16 * m..] + cc[b..], v);
      Xts(c, decrypt, t, p)[16 * m - 16..] == Xor(if decrypt then c.dec(w') else c.enc(w'), v) + cc[..b]
    decreases m
  {
    hide IsTimesX, Doubled, Xts, Xor;
    NextTweak(t, ts[1]);
    if m == 1 {
      XtsStolen(c, decrypt, t, p, if decrypt then ts[1] else t, if decrypt then t else ts[1]);
      assert p[0..16] == p[..16] && Xts(c, decrypt, t, p)[0..] == Xts(c, decrypt, t, p);
    } else {
      XtsFirst(c, decrypt, t, p);
      var us, q := ts[1..], p[16..];
      forall i | 0 <= i < |us| - 1
        ensures IsTimesX(us[i + 1], us[i], 0x87)
      {
        assert us[i] == ts[i + 1] && us[i + 1] == ts[i + 2];
      }
      StolenTweaks(c, decrypt, ts[1], q, us, m - 1, b);
      Later(p, m - 1);
      assert q[16 * (m - 1)..] == p[16 * m..];
      assert Xts(c, decrypt, t, p)[16 * m - 16..] == Xts(c, decrypt, t, p)[16..][16 * (m - 1) - 16..];
    }
  }

  /** Decryption undoes encryption, and encryption decryption, for every length of at least one block. */
  lemma {:induction false} XtsRoundTrip(c: BlockCipher, decrypt: bool, t: seq<bv8>, p: seq<bv8>)
    requires Cipher16(c) && |t| == 16 && (p == [] || |p| >= 16)
    ensures Xts(c, !decrypt, t, Xts(c, decrypt, t, p)) == p
    decreases |p|
  {
    hide *;
    var q := Xts(c, decrypt, t, p);
    if p == [] {
      assert q == [];
    } else if |p| % 16 == 0 || |p| >= 32 {
      XtsFirst(c, decrypt, t, p);
      XtsFirst(c, !decrypt, t, q);
      XBlockUndone(c, decrypt, t, p[..16]);
      XtsRoundTrip(c, decrypt, Doubled(t), p[16..]);
      assert p == p[..16] + p[16..];
    } else {
      StolenPairUndone(c, decrypt, t, p);
    }
  }

  lemma StolenPairUndone(c: BlockCipher, decrypt: bool, t: seq<bv8>, p: seq<bv8>)
    requires Cipher16(c) && |t| == 16 && 16 < |p| < 32
    ensures Xts(c, !decrypt, t, Xts(c, decrypt, t, p)) == p
  {
    hide Cipher16, XBlock, Doubled;
    var b := |p| - 16;
    var t1 := if decrypt then Doubled(t) else t;
    var t2 := if decrypt then t else Doubled(t);
    var cc := XBlock(c, decrypt, t1, p[..16]);
    var pp := p[16..] + cc[b..];
    var last := XBlock(c, decrypt, t2, pp);
    var q := Xts(c, decrypt, t, p);
    assert q[..16] == last && q[16..] == cc[..b];
    XBlockUndone(c, decrypt, t2, pp);
    XBlockUndone(c, decrypt, t1, p[..16]);
    assert pp[b..] == cc[b..] && pp[..b] == p[16..];
    assert cc[..b] + cc[b..] == cc;
    assert p[..16] + p[16..] == p;
    assert q != [];
  }

  // ---------------------------------------------------------------- the mode in buffers

  /** mbedtls_aes_crypt_ecb; out may be inp. */
  method CryptEcb(c: BlockCipher, decrypt: bool, inp: array<bv8>, out: array<bv8>)
    requires Cipher16(c) && inp.Length == out.Length == 16
    modifies out
    ensures out[..] == Apply(c, decrypt, old(inp[..]))
  {
    Store(out, Apply(c, decrypt, inp[..]));
  }

  /** Whitens and crypts the block at pos, and doubles the tweak for the next. */
  method NextBlock(c: BlockCipher, decrypt: bool, input: array<bv8>, output: array<bv8>, pos: nat,
                   tweak: array<bv8>, tmp: array<bv8>)
    requires Cipher16(c) && tweak.Length == tmp.Length == 16
    requires pos + 16 <= input.Length == output.Length
    requires tweak != tmp && input != tmp && input != tweak && output != tmp && output != tweak
    modifies output, tweak, tmp
    ensures output[..] == Splice(old(output[..]), pos, XBlock(c, decrypt, old(tweak[..]), old(input[pos..pos + 16])))
    ensures tweak[..] == Doubled(old(tweak[..]))
  {
    hide IsTimesX, Splice;
    ghost var b, t := input[pos..pos + 16], tweak[..];
    WholeSplice(tmp[..], Xor(b, t));
    XorInto(tmp, 0, input, pos, tweak);
    CryptEcb(c, decrypt, tmp, tmp);
    ghost var e := tmp[..];
    assert tmp[0..16] == e;
    XorInto(output, pos, tmp, 0, tweak);
    GfMulXBle(tweak, tweak);
  }

  lemma WholeSplice(s: seq<bv8>, v: seq<bv8>)
    requires |v| == |s|
    ensures Splice(s, 0, v) == v
  {
  }

  lemma SpliceBefore(s: seq<bv8>, d: nat, v: seq<bv8>, k: nat)
    requires d + |v| <= |s| && k < d
    ensures Splice(s, d, v)[k] == s[k]
  {
  }

  /** The leftover bytes the stealing loop gets to see: in place, the bytes it has just copied over them. */
  ghost function Seen(input: array<bv8>, output: array<bv8>, pos: nat, cc: seq<bv8>): (r: seq<bv8>)
    reads input
    requires pos <= input.Length <= pos + |cc|
    ensures |r| == input.Length - pos
  {
    if input == output then cc[..input.Length - pos] else input[pos..]
  }

  /** The first loop: cc's first bytes move to the end while the input's tail is whitened. */
  method StealTail(input: array<bv8>, output: array<bv8>, pos: nat, t: array<bv8>, tmp: array<bv8>, ghost cc: seq<bv8>)
    requires t.Length == tmp.Length == 16
    requires 16 <= pos < input.Length == output.Length < pos + 16 && cc == output[pos - 16..pos]
    requires t != tmp && input != tmp && input != t && output != tmp && output != t
    modifies output, tmp
    ensures output[..] == Splice(old(output[..]), pos, cc[..input.Length - pos])
    ensures tmp[..input.Length - pos] == Xor(old(Seen(input, output, pos, cc)), t[..input.Length - pos])
  {
    hide Splice, Xor;
    var left := input.Length - pos;
    ghost var was, seen := output[..], Seen(input, output, pos, cc);
    ghost var w := Xor(seen, t[..left]);
    assert cc[..0] == [];
    SpliceNothing(was, pos);
    for i := 0 to left
      invariant output[..] == Splice(was, pos, cc[..i])
      invariant input != output ==> input[pos..] == seen
      invariant tmp[..i] == w[..i]
    {
      StolenByte(was, pos, cc, left, i);
      XorAt(seen, t[..left], i);
      output[pos + i] := output[pos - 16 + i];
      tmp[i] := input[pos + i] ^ t[i];
      assert tmp[..i + 1] == tmp[..i] + [w[i]];
      assert w[..i + 1] == w[..i] + [w[i]];
    }
  }

  /** Copying byte i of cc from one block further down extends what has been moved. */
  lemma StolenByte(was: seq<bv8>, pos: nat, cc: seq<bv8>, left: nat, i: nat)
    requires i < left < 16 <= pos && pos + left <= |was| && cc == was[pos - 16..pos]
    ensures var s := Splice(was, pos, cc[..i]);
      |s| == |was| && Splice(was, pos, cc[..i + 1]) == s[pos + i := s[pos - 16 + i]] && s[pos - 16 + i] == cc[i]
  {
    SpliceNext(was, pos, cc[..left], i);
    SpliceBefore(was, pos, cc[..i], pos - 16 + i);
    assert cc[..left][..i] == cc[..i] && cc[..left][..i + 1] == cc[..i + 1];
    hide Splice;
  }

  /** The second loop: the rest of the block is lent by the previous output. */
  method StealHead(output: array<bv8>, prev: nat, left: nat, t: array<bv8>, tmp: array<bv8>)
    requires t.Length == tmp.Length == 16 && left <= 16 && prev + 16 <= output.Length
    requires t != tmp && output != tmp && output != t
    modifies tmp
    ensures tmp[..] == old(tmp[..left]) + Xor(output[prev + left..prev + 16], t[left..])
  {
    ghost var w := Xor(output[prev + left..prev + 16], t[left..]);
    for i := left to 16
      invariant tmp[..i] == old(tmp[..left]) + w[..i - left]
    {
      assert w[i - left] == output[prev + i] ^ t[i];
      hide Xor;
      tmp[i] := output[prev + i] ^ t[i];
      assert tmp[..i + 1] == tmp[..i] + [w[i - left]];
      assert w[..i + 1 - left] == w[..i - left] + [w[i - left]];
    }
  }

  /** Both loops: tmp becomes (input tail + rest of cc) ^ t. */
  method JoinBytes(input: array<bv8>, output: array<bv8>, pos: nat, t: array<bv8>, tmp: array<bv8>, ghost cc: seq<bv8>)
    requires t.Length == tmp.Length == 16
    requires 16 <= pos < input.Length == output.Length < pos + 16 && cc == output[pos - 16..pos]
    requires t != tmp && input != tmp && input != t && output != tmp && output != t
    modifies output, tmp
    ensures output[..] == Splice(old(output[..]), pos, cc[..input.Length - pos])
    ensures tmp[..] == Xor(old(Seen(input, output, pos, cc)) + cc[input.Length - pos..], t[..])
  {
    hide Splice, Xor, Seen;
    var left := input.Length - pos;
    ghost var was, seen := output[..], Seen(input, output, pos, cc);
    StealTail(input, output, pos, t, tmp, cc);
    StolenHead(was, pos, cc, left);
    assert output[pos - 16 + left..pos] == output[..][pos - 16 + left..pos];
    StealHead(output, pos - 16, left, t, tmp);
    assert t[..][..left] == t[..left] && t[..][left..] == t[left..];
    XorConcat(seen, cc[left..], t[..], left);
  }

  lemma SpliceNothing(s: seq<bv8>, d: nat)
    requires d <= |s|
    ensures Splice(s, d, []) == s
  {
  }

  /** Ciphertext stealing: the leftover bytes take the head of the previous block and lend it theirs. */
  method Steal(c: BlockCipher, decrypt: bool, input: array<bv8>, output: array<bv8>, pos: nat,
               t: array<bv8>, tmp: array<bv8>)
    requires Cipher16(c) && t.Length == tmp.Length == 16
    requires 16 <= pos < input.Length == output.Length < pos + 16
    requires t != tmp && input != tmp && input != t && output != tmp && output != t
    modifies output, tmp
    ensures var cc := old(output[pos - 16..pos]);
      output[..] == old(output[..pos - 16])
        + XBlock(c, decrypt, t[..], old(Seen(input, output, pos, output[pos - 16..pos])) + cc[input.Length - pos..])
        + cc[..input.Length - pos]
  {
    hide Splice, Xor, Apply, Cipher16, Seen;
    var left := input.Length - pos;
    ghost var was, cc := output[..], output[pos - 16..pos];
    JoinBytes(input, output, pos, t, tmp, cc);
    CryptEcb(c, decrypt, tmp, tmp);
    ghost var e := tmp[..];
    assert tmp[0..16] == e;
    XorInto(output, pos - 16, tmp, 0, t);
    TwoSplices(was, pos, cc[..left], Xor(e, t[..]));
  }

  lemma TwoSplices(s: seq<bv8>, pos: nat, tail: seq<bv8>, v: seq<bv8>)
    requires |v| == 16 <= pos && pos + |tail| == |s|
    ensures Splice(Splice(s, pos, tail), pos - 16, v) == s[..pos - 16] + v + tail
  {
  }

  lemma StolenHead(s: seq<bv8>, pos: nat, cc: seq<bv8>, left: nat)
    requires 16 <= pos && pos + left == |s| && left <= 16 && cc == s[pos - 16..pos]
    ensures Splice(s, pos, cc[..left])[pos - 16 + left..pos] == cc[left..]
  {
  }

  lemma XorConcat(a: seq<bv8>, b: seq<bv8>, t: seq<bv8>, k: nat)
    requires |a| == k && |a| + |b| == |t|
    ensures Xor(a, t[..k]) + Xor(b, t[k..]) == Xor(a + b, t)
  {
  }

  // ---------------------------------------------------------------- the whole call

  /** One ordinary block of the recursion. */
  lemma XtsStep(c: BlockCipher, decrypt: bool, t: seq<bv8>, p: seq<bv8>)
    requires Cipher16(c) && |t| == 16 && |p| >= 16 && (|p| % 16 == 0 || |p| >= 32)
    ensures Xts(c, decrypt, t, p) == XBlock(c, decrypt, t, p[..16]) + Xts(c, decrypt, Doubled(t), p[16..])
  {
  }

  /** The last two blocks, with the tweaks named as the code names them. */
  lemma XtsStolen(c: BlockCipher, decrypt: bool, t: seq<bv8>, p: seq<bv8>, t1: seq<bv8>, t2: seq<bv8>)
    requires Cipher16(c) && |t| == 16 && 16 < |p| < 32
    requires (t1, t2) == if decrypt then (Doubled(t), t) else (t, Doubled(t))
    ensures var cc := XBlock(c, decrypt, t1, p[..16]);
      Xts(c, decrypt, t, p) == XBlock(c, decrypt, t2, p[16..] + cc[|p| - 16..]) + cc[..|p| - 16]
  {
    hide XBlock, Doubled, Cipher16;
    if decrypt {
      assert t1 == Doubled(t) && t2 == t;
    } else {
      assert t1 == t && t2 == Doubled(t);
    }
  }

  /** done has been produced, and the recursion on rest under tweak t still has to be. */
  ghost predicate Owes(c: BlockCipher, decrypt: bool, t0: seq<bv8>, p: seq<bv8>, t: seq<bv8>, done: seq<bv8>, rest: seq<bv8>)
  {
    && Cipher16(c) && |t0| == |t| == 16 && |p| >= 16 && (rest == [] || |rest| >= 16)
    && Xts(c, decrypt, t0, p) == done + Xts(c, decrypt, t, rest)
  }

  lemma OwesLess(c: BlockCipher, decrypt: bool, t0: seq<bv8>, p: seq<bv8>, t: seq<bv8>, done: seq<bv8>, rest: seq<bv8>)
    requires Owes(c, decrypt, t0, p, t, done, rest) && |rest| >= 16 && (|rest| == 16 || |rest| >= 32)
    ensures Owes(c, decrypt, t0, p, Doubled(t), done + XBlock(c, decrypt, t, rest[..16]), rest[16..])
  {
    hide Cipher16, XBlock, Doubled, Xts;
    XtsStep(c, decrypt, t, rest);
    ConcatAssoc(done, XBlock(c, decrypt, t, rest[..16]), Xts(c, decrypt, Doubled(t), rest[16..]));
  }

  /** What the loop has done: the output up to pos is written, the input from pos on is still to come. */
  ghost predicate Progress(c: BlockCipher, decrypt: bool, t0: seq<bv8>, p: seq<bv8>, t: seq<bv8>, pos: nat,
                           out: seq<bv8>)
  {
    pos <= |p| == |out| && Owes(c, decrypt, t0, p, t, out[..pos], p[pos..])
  }

  lemma ProgressOwes(c: BlockCipher, decrypt: bool, t0: seq<bv8>, p: seq<bv8>, t: seq<bv8>, pos: nat, out: seq<bv8>)
    requires pos <= |p| == |out|
    ensures Progress(c, decrypt, t0, p, t, pos, out) <==> Owes(c, decrypt, t0, p, t, out[..pos], p[pos..])
  {
  }

  lemma ProgressStep(c: BlockCipher, decrypt: bool, t0: seq<bv8>, p: seq<bv8>, t: seq<bv8>, pos: nat,
                     out: seq<bv8>, out': seq<bv8>)
    requires Cipher16(c) && |t| == 16 && |p| == |out| == |out'| && (pos + 16 == |p| || pos + 32 <= |p|)
    requires out'[..pos + 16] == out[..pos] + XBlock(c, decrypt, t, p[pos..pos + 16])
    requires Progress(c, decrypt, t0, p, t, pos, out)
    ensures Progress(c, decrypt, t0, p, Doubled(t), pos + 16, out')
  {
    hide *;
    var rest := p[pos..];
    assert rest[..16] == p[pos..pos + 16];
    assert rest[16..] == p[pos + 16..];
    assert Progress(c, decrypt, t0, p, Doubled(t), pos + 16, out') by {
      ProgressOwes(c, decrypt, t0, p, t, pos, out);
      OwesLess(c, decrypt, t0, p, t, out[..pos], rest);
      ProgressOwes(c, decrypt, t0, p, Doubled(t), pos + 16, out');
    }
  }

  /** The full blocks from pos on are the same, and so they are after a block has gone. */
  lemma SameTail(a: seq<bv8>, b: seq<bv8>, pos: nat, full: nat)
    requires |a| == |b| && pos + 16 <= full <= |a| && a[pos..full] == b[pos..full]
    ensures a[pos..pos + 16] == b[pos..pos + 16] && a[pos + 16..full] == b[pos + 16..full]
  {
    assert a[pos..full][..16] == a[pos..pos + 16] && b[pos..full][..16] == b[pos..pos + 16];
    assert a[pos..full][16..] == a[pos + 16..full] && b[pos..full][16..] == b[pos + 16..full];
  }

  lemma KeptTail(a: seq<bv8>, b: seq<bv8>, pos: nat, full: nat)
    requires |a| == |b| && pos <= full <= |a| && a[pos..] == b[pos..]
    ensures a[pos..full] == b[pos..full]
  {
    assert a[pos..full] == a[pos..][..full - pos] && b[pos..full] == b[pos..][..full - pos];
  }

  lemma ConcatAssoc(a: seq<bv8>, b: seq<bv8>, c: seq<bv8>)
    ensures a + (b + c) == (a + b) + c
  {
  }

  lemma SpliceFront(s: seq<bv8>, d: nat, v: seq<bv8>)
    requires d + |v| <= |s|
    ensures Splice(s, d, v)[..d + |v|] == s[..d] + v
  {
  }

  /** The stolen pair finishes the data unit. */
  lemma ProgressStolen(c: BlockCipher, decrypt: bool, t0: seq<bv8>, p: seq<bv8>, t: seq<bv8>, pos: nat,
                       out: seq<bv8>, t1: seq<bv8>, t2: seq<bv8>, fin: seq<bv8>)
    requires Cipher16(c) && |t0| == |t| == |t1| == |t2| == 16 && pos + 16 < |p| == |out| < pos + 32
    requires var cc := XBlock(c, decrypt, t1, p[pos..pos + 16]);
      fin == out[..pos] + XBlock(c, decrypt, t2, p[pos + 16..] + cc[|p| - pos - 16..]) + cc[..|p| - pos - 16]
    requires (t1, t2) == if decrypt then (Doubled(t), t) else (t, Doubled(t))
    requires Progress(c, decrypt, t0, p, t, pos, out)
    ensures fin == Xts(c, decrypt, t0, p)
  {
    hide Cipher16, XBlock, Doubled, Xts;
    var rest := p[pos..];
    XtsStolen(c, decrypt, t, rest, t1, t2);
    assert rest[..16] == p[pos..pos + 16] && rest[16..] == p[pos + 16..];
    var cc := XBlock(c, decrypt, t1, rest[..16]);
    ConcatAssoc(out[..pos], XBlock(c, decrypt, t2, rest[16..] + cc[|rest| - 16..]), cc[..|rest| - 16]);
  }

  lemma StolenFinishes(c: BlockCipher, decrypt: bool, t0: seq<bv8>, p: seq<bv8>, t: seq<bv8>, pos: nat,
                       mid: seq<bv8>, out: seq<bv8>, prevTweak: seq<bv8>, tweak: seq<bv8>, u: seq<bv8>, fin: seq<bv8>)
    requires LastFull(c, decrypt, t0, p, t, pos, mid, out, prevTweak, tweak)
    requires u == if decrypt then prevTweak else tweak
    requires var cc := out[pos - 16..pos];
      |u| == 16 && fin == out[..pos - 16] + XBlock(c, decrypt, u, p[pos..] + cc[|p| - pos..]) + cc[..|p| - pos]
    ensures fin == Xts(c, decrypt, t0, p)
  {
    hide Cipher16, XBlock, Doubled, Xts, Splice;
    var t1 := if decrypt then Doubled(t) else t;
    SpliceAt(mid, pos - 16, XBlock(c, decrypt, t1, p[pos - 16..pos]));
    ProgressStolen(c, decrypt, t0, p, t, pos - 16, mid, t1, u, fin);
  }

  /** The last full block before leftover bytes is done: it holds cc, made with the tweak the mode wants. */
  ghost predicate LastFull(c: BlockCipher, decrypt: bool, t0: seq<bv8>, p: seq<bv8>, t: seq<bv8>, pos: nat,
                           mid: seq<bv8>, out: seq<bv8>, prevTweak: seq<bv8>, tweak: seq<bv8>)
  {
    && 16 <= pos < |p| < pos + 16 && Progress(c, decrypt, t0, p, t, pos - 16, mid)
    && out == Splice(mid, pos - 16, XBlock(c, decrypt, if decrypt then Doubled(t) else t, p[pos - 16..pos]))
    && (if decrypt then prevTweak == t else tweak == Doubled(t))
  }

  lemma ProgressStarts(c: BlockCipher, decrypt: bool, t0: seq<bv8>, p: seq<bv8>, out: seq<bv8>)
    requires Cipher16(c) && |t0| == 16 && |out| == |p| >= 16
    ensures Progress(c, decrypt, t0, p, t0, 0, out)
  {
    hide Cipher16, XBlock, Doubled, Xts;
    assert p[0..] == p && out[..0] == [];
  }

  lemma ProgressEnds(c: BlockCipher, decrypt: bool, t0: seq<bv8>, p: seq<bv8>, t: seq<bv8>, out: seq<bv8>)
    requires Progress(c, decrypt, t0, p, t, |p|, out)
    ensures out == Xts(c, decrypt, t0, p)
  {
    hide Cipher16, XBlock, Doubled;
    assert out[..|p|] == out && p[|p|..] == [];
  }

  lemma LastFullReached(c: BlockCipher, decrypt: bool, t0: seq<bv8>, p: seq<bv8>, t: seq<bv8>, pos: nat,
                        mid: seq<bv8>, prevTweak: seq<bv8>, tweak: seq<bv8>)
    requires pos + 16 < |p| < pos + 32 && Progress(c, decrypt, t0, p, t, pos, mid)
    requires if decrypt then prevTweak == t else tweak == Doubled(t)
    ensures LastFull(c, decrypt, t0, p, t, pos + 16, mid,
      Splice(mid, pos, XBlock(c, decrypt, if decrypt then Doubled(t) else t, p[pos..pos + 16])), prevTweak, tweak)
  {
  }

  /** One pass of the loop; with swap, the current tweak is saved for the leftovers and the next one used. */
  method Round(c: BlockCipher, decrypt: bool, swap: bool, input: array<bv8>, output: array<bv8>, pos: nat,
               tweak: array<bv8>, prevTweak: array<bv8>, tmp: array<bv8>)
    requires Cipher16(c) && pos + 16 <= input.Length == output.Length
    requires tweak.Length == prevTweak.Length == tmp.Length == 16
    requires tweak != tmp && tweak != prevTweak && tmp != prevTweak
    requires input != tweak && input != tmp && input != prevTweak
    requires output != tweak && output != tmp && output != prevTweak
    modifies output, tweak, prevTweak, tmp
    ensures var t := old(tweak[..]);
      && output[..] == Splice(old(output[..]), pos,
           XBlock(c, decrypt, if swap then Doubled(t) else t, old(input[..])[pos..pos + 16]))
      && prevTweak[..] == (if swap then t else old(prevTweak[..]))
      && tweak[..] == Doubled(if swap then Doubled(t) else t)
    ensures input[..][pos + 16..] == old(input[..])[pos + 16..]
  {
    hide IsTimesX, TimesX, Splice, XBlock, Cipher16;
    ghost var t, out, b := tweak[..], output[..], input[pos..pos + 16];
    if swap {
      WholeSplice(prevTweak[..], t);
      assert tweak[0..16] == t;
      CopyInto(prevTweak, 0, tweak, 0, 16);
      GfMulXBle(tweak, tweak);
    }
    NextBlock(c, decrypt, input, output, pos, tweak, tmp);
    SpliceAt(out, pos, XBlock(c, decrypt, if swap then Doubled(t) else t, b));
  }

  /** The block loop: everything but a final partial block. */
  method FullBlocks(c: BlockCipher, decrypt: bool, input: array<bv8>, output: array<bv8>, tweak: array<bv8>,
                    prevTweak: array<bv8>, tmp: array<bv8>, ghost p: seq<bv8>)
    returns (pos: nat, ghost t: seq<bv8>, ghost mid: seq<bv8>)
    requires Cipher16(c) && output.Length == input.Length == |p| >= 16
    requires p[..|p| - |p| % 16] == input[..][..|p| - |p| % 16]
    requires tweak.Length == prevTweak.Length == tmp.Length == 16
    requires tweak != tmp && tweak != prevTweak && tmp != prevTweak
    requires input != tweak && input != tmp && input != prevTweak
    requires output != tweak && output != tmp && output != prevTweak
    modifies output, tweak, prevTweak, tmp
    ensures pos == input.Length - input.Length % 16
    ensures input.Length % 16 == 0 ==> output[..] == Xts(c, decrypt, old(tweak[..]), p)
    ensures input.Length % 16 != 0 ==>
      LastFull(c, decrypt, old(tweak[..]), p, t, pos, mid, output[..], prevTweak[..], tweak[..])
  {
    hide IsTimesX, TimesX, Doubled, Splice, XBlock, Xts, Progress, LastFull, Cipher16;
    ghost var t0, full := tweak[..], |p| - |p| % 16;
    var leftover := input.Length % 16;
    var blocks := input.Length / 16;
    pos := 0;
    t, mid := t0, output[..];
    ProgressStarts(c, decrypt, t0, p, mid);
    assert input[..][0..full] == input[..][..full] && p[0..full] == p[..full];
    while blocks > 0
      invariant 0 <= blocks <= input.Length / 16 && pos == input.Length - leftover - 16 * blocks
      invariant input[..][pos..full] == p[pos..full]
      invariant leftover == 0 || blocks > 0 ==> Progress(c, decrypt, t0, p, tweak[..], pos, output[..])
      invariant leftover != 0 && blocks == 0 ==>
        LastFull(c, decrypt, t0, p, t, pos, mid, output[..], prevTweak[..], tweak[..])
    {
      blocks := blocks - 1;
      t, mid := tweak[..], output[..];
      ghost var before := input[..];
      SameTail(before, p, pos, full);
      Round(c, decrypt, leftover != 0 && decrypt && blocks == 0, input, output, pos, tweak, prevTweak, tmp);
      KeptTail(input[..], before, pos + 16, full);
      if leftover != 0 && blocks == 0 {
        LastFullReached(c, decrypt, t0, p, t, pos, mid, prevTweak[..], tweak[..]);
      } else {
        SpliceFront(mid, pos, XBlock(c, decrypt, t, p[pos..pos + 16]));
        ProgressStep(c, decrypt, t0, p, t, pos, mid, output[..]);
      }
      pos := pos + 16;
    }
    if leftover == 0 {
      ProgressEnds(c, decrypt, t0, p, tweak[..], output[..]);
    }
  }

  const MAX_UNIT: nat := 0x100000 * 16

  /** What the last full block before leftover bytes becomes; its head ends up as the last bytes of the unit. */
  ghost function LastBlock(c: BlockCipher, decrypt: bool, t: seq<bv8>, w: seq<bv8>): (cc: seq<bv8>)
    requires Cipher16(c) && |t| == 16 && w != [] && |w| % 16 == 0
    ensures |cc| == 16
    decreases |w|
  {
    if |w| == 16 then XBlock(c, decrypt, if decrypt then Doubled(t) else t, w) else LastBlock(c, decrypt, Doubled(t), w[16..])
  }

  lemma {:induction false} UnitEndsWithHead(c: BlockCipher, decrypt: bool, t: seq<bv8>, p: seq<bv8>, pos: nat)
    requires Cipher16(c) && |t| == 16 && 16 <= pos < |p| < pos + 16 && pos % 16 == 0
    ensures Xts(c, decrypt, t, p)[pos..] == LastBlock(c, decrypt, t, p[..pos])[..|p| - pos]
    decreases |p|
  {
    hide Cipher16, XBlock, Doubled, Xts;
    if pos == 16 {
      var t1, t2 := if decrypt then Doubled(t) else t, if decrypt then t else Doubled(t);
      XtsStolen(c, decrypt, t, p, t1, t2);
    } else {
      XtsFirst(c, decrypt, t, p);
      UnitEndsWithHead(c, decrypt, Doubled(t), p[16..], pos - 16);
      LastBlockNext(c, decrypt, t, p[..pos]);
      hide *;
      assert p[..pos][16..] == p[16..][..pos - 16];
      assert Xts(c, decrypt, t, p)[pos..] == Xts(c, decrypt, t, p)[16..][pos - 16..];
    }
  }

  lemma LastBlockNext(c: BlockCipher, decrypt: bool, t: seq<bv8>, w: seq<bv8>)
    requires Cipher16(c) && |t| == 16 && |w| > 16 && |w| % 16 == 0
    ensures LastBlock(c, decrypt, t, w) == LastBlock(c, decrypt, Doubled(t), w[16..])
  {
    hide Cipher16, XBlock, Doubled;
  }

  /** The data unit a call computes on: with leftover bytes in place it overwrites them, before it reads them, with the
      head of the last full block. */
  ghost function Effective(c: BlockCipher, decrypt: bool, t: seq<bv8>, p: seq<bv8>, inPlace: bool): (q: seq<bv8>)
    requires Cipher16(c) && |t| == 16 && |p| >= 16
    ensures |q| == |p| && q[..|p| - |p| % 16] == p[..|p| - |p| % 16]
  {
    var pos := |p| - |p| % 16;
    if inPlace && |p| % 16 != 0 then p[..pos] + LastBlock(c, decrypt, t, p[..pos])[..|p| - pos] else p
  }

  /** In place a call is right exactly when there are no leftover bytes or they happen to be those. */
  lemma InPlaceRight(c: BlockCipher, decrypt: bool, t: seq<bv8>, p: seq<bv8>)
    requires Cipher16(c) && |t| == 16 && |p| >= 16
    ensures var pos := |p| - |p| % 16;
      Xts(c, decrypt, t, Effective(c, decrypt, t, p, true)) == Xts(c, decrypt, t, p) <==>
      (|p| % 16 == 0 || p[pos..] == LastBlock(c, decrypt, t, p[..pos])[..|p| - pos])
  {
    hide Cipher16, XBlock, Doubled, Xts, LastBlock;
    var q, pos := Effective(c, decrypt, t, p, true), |p| - |p| % 16;
    XtsRoundTrip(c, decrypt, t, p);
    XtsRoundTrip(c, decrypt, t, q);
    assert p == p[..pos] + p[pos..];
    if |p| % 16 != 0 {
      assert q[pos..] == LastBlock(c, decrypt, t, p[..pos])[..|p| - pos];
    }
  }

  /** An input that goes wrong, for any cipher and tweak: 17 bytes whose last one is not the head. */
  lemma InPlaceSpoils(c: BlockCipher, decrypt: bool, t: seq<bv8>, first: seq<bv8>, x: bv8)
    requires Cipher16(c) && |t| == |first| == 16 && x != LastBlock(c, decrypt, t, first)[0]
    ensures Xts(c, decrypt, t, Effective(c, decrypt, t, first + [x], true)) != Xts(c, decrypt, t, first + [x])
  {
    hide Cipher16, Xts, LastBlock, Effective;
    var p := first + [x];
    assert p[..16] == first && p[16..] == [x];
    InPlaceRight(c, decrypt, t, p);
    assert LastBlock(c, decrypt, t, first)[..1][0] == LastBlock(c, decrypt, t, first)[0];
  }

  /** The last full block as the loop leaves it in the buffer. */
  lemma HeadIsThere(c: BlockCipher, decrypt: bool, t0: seq<bv8>, p: seq<bv8>, t: seq<bv8>, pos: nat,
                    mid: seq<bv8>, out: seq<bv8>, prevTweak: seq<bv8>, tweak: seq<bv8>)
    requires LastFull(c, decrypt, t0, p, t, pos, mid, out, prevTweak, tweak) && pos % 16 == 0
    ensures |out| == |p| && out[pos - 16..pos][..|p| - pos] == LastBlock(c, decrypt, t0, p[..pos])[..|p| - pos]
  {
    hide Cipher16, XBlock, Doubled, Xts, Splice, LastBlock;
    var t1, t2 := if decrypt then Doubled(t) else t, if decrypt then t else Doubled(t);
    var rest := p[pos - 16..];
    SpliceAt(mid, pos - 16, XBlock(c, decrypt, t1, p[pos - 16..pos]));
    assert rest[..16] == p[pos - 16..pos];
    XtsStolen(c, decrypt, t, rest, t1, t2);
    UnitEndsWithHead(c, decrypt, t0, p, pos);
    var done := mid[..pos - 16];
    assert Xts(c, decrypt, t0, p) == done + Xts(c, decrypt, t, rest);
    assert Xts(c, decrypt, t0, p)[pos..] == Xts(c, decrypt, t, rest)[16..];
  }

  /** mbedtls_aes_crypt_xts. tweakEnc is the cipher under the tweak key; the output may be the input buffer. */
  method CryptXts(c: BlockCipher, tweakEnc: BlockCipher, decrypt: bool, dataUnit: array<bv8>,
                  input: array<bv8>, output: array<bv8>) returns (ok: bool)
    requires Cipher16(c) && Cipher16(tweakEnc) && output.Length == input.Length
    requires dataUnit.Length == 16
    modifies output
    ensures ok <==> 16 <= input.Length <= MAX_UNIT
    ensures ok ==>
      var t := tweakEnc.enc(old(dataUnit[..]));
      output[..] == Xts(c, decrypt, t, Effective(c, decrypt, t, old(input[..]), input == output))
    ensures ok && (input != output || input.Length % 16 == 0) ==>
      output[..] == Xts(c, decrypt, tweakEnc.enc(old(dataUnit[..])), old(input[..]))
    ensures !ok ==> output[..] == old(output[..])
  {
    hide Splice, XBlock, Xts, Cipher16, IsTimesX, TimesX, Doubled, Progress, LastBlock, Effective, LastFull;
    if input.Length < 16 || input.Length > MAX_UNIT {
      return false;
    }
    var tweak, prevTweak, tmp := new bv8[16], new bv8[16], new bv8[16];
    CryptEcb(tweakEnc, false, dataUnit, tweak);
    ghost var t0, p0 := tweak[..], input[..];
    ghost var p := Effective(c, decrypt, t0, p0, input == output);
    EffectiveIs(c, decrypt, t0, p0, input == output);
    var pos, t, mid := FullBlocks(c, decrypt, input, output, tweak, prevTweak, tmp, p);
    if input.Length % 16 != 0 {
      var u := if decrypt then prevTweak else tweak;
      ghost var out, us, tw, pt := output[..], u[..], tweak[..], prevTweak[..];
      HeadIsThere(c, decrypt, t0, p, t, pos, mid, out, pt, tw);
      assert output[..pos - 16] == out[..pos - 16] && output[pos - 16..pos] == out[pos - 16..pos];
      assert Seen(input, output, pos, output[pos - 16..pos]) == p[pos..];
      Steal(c, decrypt, input, output, pos, u, tmp);
      StolenFinishes(c, decrypt, t0, p, t, pos, mid, out, pt, tw, us, output[..]);
    }
    return true;
  }

  lemma EffectiveIs(c: BlockCipher, decrypt: bool, t: seq<bv8>, p: seq<bv8>, inPlace: bool)
    requires Cipher16(c) && |t| == 16 && |p| >= 16
    ensures var pos := |p| - |p| % 16; var q := Effective(c, decrypt, t, p, inPlace);
      && (inPlace && |p| % 16 != 0 ==> q[pos..] == LastBlock(c, decrypt, t, q[..pos])[..|p| - pos])
      && (!inPlace || |p| % 16 == 0 ==> q == p)
  {
    hide Cipher16, LastBlock;
    var pos := |p| - |p| % 16;
    if inPlace && |p| % 16 != 0 {
      assert Effective(c, decrypt, t, p, inPlace)[..pos] == p[..pos];
    }
  }
}
