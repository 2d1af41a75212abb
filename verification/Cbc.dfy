/** Cipher block chaining over any block permutation. */
module CbcMode {
  import opened Blocks
  import opened Numbers

  ghost predicate Whole(c: BlockCipher, m: seq<bv8>)
  {
    c.Permutation() && |m| % c.n == 0
  }

  lemma FirstBlock(k: nat, n: nat)
    requires 0 < n && 0 < k && k % n == 0
    ensures n <= k && (k - n) % n == 0
  {
    var q := QuotRem(k, n);
    if q.0 == 0 {
      MulMono(0, q.0, n);
    } else {
      MulMono(1, q.0, n);
      Distr(n, q.0, 1);
      DivModUnique(k - n, n, q.0 - 1, 0);
    }
  }

  /** One block: encryption whitens before, decryption after. */
  ghost function Link(c: BlockCipher, decrypt: bool, iv: seq<bv8>, b: seq<bv8>): (r: seq<bv8>)
    requires c.Permutation() && |iv| == |b| == c.n
    ensures |r| == c.n
  {
    if decrypt then Xor(c.dec(b), iv) else c.enc(Xor(b, iv))
  }

  /** The vector for the next block is this one's ciphertext. */
  ghost function NextIv(c: BlockCipher, decrypt: bool, iv: seq<bv8>, b: seq<bv8>): (r: seq<bv8>)
    requires c.Permutation() && |iv| == |b| == c.n
    ensures |r| == c.n
  {
    if decrypt then b else Link(c, decrypt, iv, b)
  }

  /** Section 6.2 of SP 800-38A. */
  ghost function Cbc(c: BlockCipher, decrypt: bool, iv: seq<bv8>, m: seq<bv8>): (r: seq<bv8>)
    requires Whole(c, m) && |iv| == c.n
    ensures |r| == |m|
    decreases |m|
  {
    if m == [] then [] else
      FirstBlock(|m|, c.n);
      Link(c, decrypt, iv, m[..c.n]) + Cbc(c, decrypt, NextIv(c, decrypt, iv, m[..c.n]), m[c.n..])
  }

  /** The vector left behind. */
  ghost function IvAfter(c: BlockCipher, decrypt: bool, iv: seq<bv8>, m: seq<bv8>): (r: seq<bv8>)
    requires Whole(c, m) && |iv| == c.n
    ensures |r| == c.n
    decreases |m|
  {
    if m == [] then iv else
      FirstBlock(|m|, c.n);
      IvAfter(c, decrypt, NextIv(c, decrypt, iv, m[..c.n]), m[c.n..])
  }

  lemma LinkIs(c: BlockCipher, iv: seq<bv8>, b: seq<bv8>)
    requires c.Permutation() && |iv| == |b| == c.n
    ensures Link(c, false, iv, b) == c.enc(Xor(b, iv)) && Link(c, true, iv, b) == Xor(c.dec(b), iv)
    ensures NextIv(c, false, iv, b) == Link(c, false, iv, b) && NextIv(c, true, iv, b) == b
  {
  }

  lemma CbcFirst(c: BlockCipher, decrypt: bool, iv: seq<bv8>, m: seq<bv8>)
    requires Whole(c, m) && |iv| == c.n && m != []
    ensures |m| >= c.n && Whole(c, m[c.n..])
    ensures Cbc(c, decrypt, iv, m) == Link(c, decrypt, iv, m[..c.n]) + Cbc(c, decrypt, NextIv(c, decrypt, iv, m[..c.n]), m[c.n..])
  {
    FirstBlock(|m|, c.n);
    hide Link, NextIv;
  }

  /** The vector left behind is the last block of ciphertext, or the iv if there is none. */
  lemma {:induction false} IvIsLastCiphertext(c: BlockCipher, iv: seq<bv8>, m: seq<bv8>)
    requires Whole(c, m) && |iv| == c.n
    ensures m == [] ==> IvAfter(c, false, iv, m) == iv && IvAfter(c, true, iv, m) == iv
    ensures m != [] ==> |m| >= c.n && IvAfter(c, false, iv, m) == Cbc(c, false, iv, m)[|m| - c.n..]
    ensures m != [] ==> IvAfter(c, true, iv, m) == m[|m| - c.n..]
    decreases |m|
  {
    hide Xor, Cbc, Link;
    if m != [] {
      CbcFirst(c, false, iv, m);
      CbcFirst(c, true, iv, m);
      LinkIs(c, iv, m[..c.n]);
      IvIsLastCiphertext(c, NextIv(c, false, iv, m[..c.n]), m[c.n..]);
      IvIsLastCiphertext(c, NextIv(c, true, iv, m[..c.n]), m[c.n..]);
      if m[c.n..] == [] {
        CbcNone(c, NextIv(c, false, iv, m[..c.n]));
        assert m == m[..c.n];
      } else {
        assert m[c.n..][|m| - c.n - c.n..] == m[|m| - c.n..];
      }
    }
  }

  lemma CbcNone(c: BlockCipher, iv: seq<bv8>)
    requires Whole(c, []) && |iv| == c.n
    ensures Cbc(c, false, iv, []) == []
  {
  }

  lemma LinkUndone(c: BlockCipher, decrypt: bool, iv: seq<bv8>, b: seq<bv8>)
    requires c.Permutation() && |iv| == |b| == c.n
    ensures Link(c, !decrypt, iv, Link(c, decrypt, iv, b)) == b
    ensures NextIv(c, !decrypt, iv, Link(c, decrypt, iv, b)) == NextIv(c, decrypt, iv, b)
  {
    if decrypt {
      XorTwice(c.dec(b), iv);
    } else {
      XorTwice(b, iv);
    }
    hide Xor;
  }

  lemma CbcStep(c: BlockCipher, decrypt: bool, iv: seq<bv8>, b: seq<bv8>, rest: seq<bv8>)
    requires Whole(c, rest) && |iv| == |b| == c.n
    ensures Whole(c, b + rest)
    ensures Cbc(c, decrypt, iv, b + rest) == Link(c, decrypt, iv, b) + Cbc(c, decrypt, NextIv(c, decrypt, iv, b), rest)
    ensures IvAfter(c, decrypt, iv, b + rest) == IvAfter(c, decrypt, NextIv(c, decrypt, iv, b), rest)
  {
    hide Link, NextIv;
    DivModUnique(c.n, c.n, 1, 0);
    WholeConcat(c, b, rest);
    assert (b + rest)[..c.n] == b && (b + rest)[c.n..] == rest;
  }

  /** A nonempty whole number of blocks is a block and a whole number of blocks. */
  lemma TakeBlock(c: BlockCipher, m: seq<bv8>)
    requires Whole(c, m) && m != []
    ensures c.n <= |m| && Whole(c, m[c.n..]) && m == m[..c.n] + m[c.n..]
  {
    FirstBlock(|m|, c.n);
  }

  /** Each direction undoes the other. */
  lemma {:induction false} CbcRoundTrip(c: BlockCipher, decrypt: bool, iv: seq<bv8>, m: seq<bv8>)
    requires Whole(c, m) && |iv| == c.n
    ensures Whole(c, Cbc(c, decrypt, iv, m)) && Cbc(c, !decrypt, iv, Cbc(c, decrypt, iv, m)) == m
    decreases |m|
  {
    if m != [] {
      TakeBlock(c, m);
      var b, rest := m[..c.n], m[c.n..];
      LinkUndone(c, decrypt, iv, b);
      hide Link, NextIv, Cbc;
      var next := NextIv(c, decrypt, iv, b);
      CbcStep(c, decrypt, iv, b, rest);
      CbcRoundTrip(c, decrypt, next, rest);
      CbcStep(c, !decrypt, iv, Link(c, decrypt, iv, b), Cbc(c, decrypt, next, rest));
    }
  }

  lemma WholeConcat(c: BlockCipher, a: seq<bv8>, b: seq<bv8>)
    requires Whole(c, a) && Whole(c, b)
    ensures Whole(c, a + b)
  {
    var p, q := QuotRem(|a|, c.n), QuotRem(|b|, c.n);
    Distr(c.n, p.0, q.0);
    DivModUnique(|a| + |b|, c.n, p.0 + q.0, 0);
  }

  /** The block that starts at k: a block of ciphertext is the cipher of its plaintext xored with the ciphertext before it,
      with the iv before the first, and a block of plaintext the other way round. */
  lemma CbcBlocks(c: BlockCipher, iv: seq<bv8>, m: seq<bv8>, k: nat)
    requires Whole(c, m) && |iv| == c.n && k + c.n <= |m| && k % c.n == 0
    ensures k == 0 || c.n <= k
    ensures
      var e, d, p := Cbc(c, false, iv, m), Cbc(c, true, iv, m), m[k..k + c.n];
      && e[k..k + c.n] == c.enc(Xor(p, if k == 0 then iv else e[k - c.n..k]))
      && d[k..k + c.n] == Xor(c.dec(p), if k == 0 then iv else m[k - c.n..k])
  {
    hide *;
    WholeRest(c, m, k);
    BlockOf(c, false, iv, m, k);
    BlockOf(c, true, iv, m, k);
    IvIsLastCiphertext(c, iv, m[..k]);
    LinkIs(c, IvAfter(c, false, iv, m[..k]), m[k..k + c.n]);
    LinkIs(c, IvAfter(c, true, iv, m[..k]), m[k..k + c.n]);
    if k > 0 {
      FirstBlock(k, c.n);
      assert m[..k][k - c.n..] == m[k - c.n..k];
    }
  }

  lemma BlockOf(c: BlockCipher, decrypt: bool, iv: seq<bv8>, m: seq<bv8>, k: nat)
    requires Whole(c, m) && |iv| == c.n && k + c.n <= |m| && Whole(c, m[..k]) && Whole(c, m[k..])
    ensures Cbc(c, decrypt, iv, m)[k..k + c.n] == Link(c, decrypt, IvAfter(c, decrypt, iv, m[..k]), m[k..k + c.n])
    ensures c.n <= k ==> Cbc(c, decrypt, iv, m)[k - c.n..k] == Cbc(c, decrypt, iv, m[..k])[k - c.n..]
  {
    hide Xor, Cbc, Link, NextIv, IvAfter;
    var a, b := m[..k], m[k..];
    assert m == a + b && b[..c.n] == m[k..k + c.n];
    CbcConcat(c, decrypt, iv, a, b);
    CbcFirst(c, decrypt, IvAfter(c, decrypt, iv, a), b);
    CutOut(Cbc(c, decrypt, iv, m), Cbc(c, decrypt, iv, a), Cbc(c, decrypt, IvAfter(c, decrypt, iv, a), b), k, c.n);
  }

  lemma WholeRest(c: BlockCipher, m: seq<bv8>, k: nat)
    requires Whole(c, m) && k % c.n == 0 && k <= |m|
    ensures c.n > 0 && Whole(c, m[..k]) && Whole(c, m[k..])
  {
    var q, r := QuotRem(|m|, c.n), QuotRem(k, c.n);
    Distr(c.n, q.0, r.0);
    if q.0 < r.0 {
      MulMono(q.0 + 1, r.0, c.n);
      Distr(c.n, q.0, 1);
    }
    DivModUnique(|m| - k, c.n, q.0 - r.0, 0);
  }

  lemma CutOut(s: seq<bv8>, u: seq<bv8>, v: seq<bv8>, k: nat, n: nat)
    requires s == u + v && |u| == k && n <= |v|
    ensures s[k..k + n] == v[..n] && (n <= k ==> s[k - n..k] == u[k - n..])
  {
  }

  lemma CbcEmpty(c: BlockCipher, decrypt: bool, iv: seq<bv8>)
    requires c.Permutation() && |iv| == c.n
    ensures Cbc(c, decrypt, iv, []) == [] && IvAfter(c, decrypt, iv, []) == iv
  {
  }

  lemma ConcatAssoc(x: seq<bv8>, y: seq<bv8>, z: seq<bv8>)
    ensures (x + y) + z == x + (y + z)
  {
  }

  /** Chaining may be interrupted at any block boundary. */
  lemma {:induction false} CbcConcat(c: BlockCipher, decrypt: bool, iv: seq<bv8>, a: seq<bv8>, b: seq<bv8>)
    requires Whole(c, a) && Whole(c, b) && |iv| == c.n
    ensures Whole(c, a + b)
    ensures Cbc(c, decrypt, iv, a + b) == Cbc(c, decrypt, iv, a) + Cbc(c, decrypt, IvAfter(c, decrypt, iv, a), b)
    ensures IvAfter(c, decrypt, iv, a + b) == IvAfter(c, decrypt, IvAfter(c, decrypt, iv, a), b)
    decreases |a|
  {
    hide Link, NextIv, Cbc, IvAfter;
    WholeConcat(c, a, b);
    if a == [] {
      CbcEmpty(c, decrypt, iv);
      assert a + b == b;
    } else {
      TakeBlock(c, a);
      var b0, rest := a[..c.n], a[c.n..];
      CbcConcat(c, decrypt, NextIv(c, decrypt, iv, b0), rest, b);
      CbcStep(c, decrypt, iv, b0, rest);
      CbcStep(c, decrypt, iv, b0, rest + b);
      ConcatAssoc(b0, rest, b);
      ConcatAssoc(Link(c, decrypt, iv, b0), Cbc(c, decrypt, NextIv(c, decrypt, iv, b0), rest),
        Cbc(c, decrypt, IvAfter(c, decrypt, iv, a), b));
    }
  }

  lemma CbcOne(c: BlockCipher, decrypt: bool, iv: seq<bv8>, b: seq<bv8>)
    requires c.Permutation() && |iv| == |b| == c.n
    ensures Whole(c, b) && Cbc(c, decrypt, iv, b) == Link(c, decrypt, iv, b)
    ensures IvAfter(c, decrypt, iv, b) == NextIv(c, decrypt, iv, b)
  {
    hide Link, NextIv;
    DivModUnique(c.n, c.n, 1, 0);
    assert b[..c.n] == b && b[c.n..] == [];
  }

  // ---------------------------------------------------------------- the block loop

  /** mbedtls_aes_crypt_ecb on one block; out may be the place inp lies in. */
  method EcbDecryptTo(c: BlockCipher, inp: array<bv8>, ipos: nat, out: array<bv8>, opos: nat)
    requires c.Permutation() && ipos + c.n <= inp.Length && opos + c.n <= out.Length
    modifies out
    ensures out[..] == Splice(old(out[..]), opos, c.dec(old(inp[ipos..ipos + c.n])))
  {
    hide Splice;
    var block := new bv8[c.n];
    Store(block, c.dec(inp[ipos..ipos + c.n]));
    assert block[0..c.n] == block[..];
    CopyInto(out, opos, block, 0, c.n);
  }

  lemma SpliceOver(s: seq<bv8>, d: nat, u: seq<bv8>, v: seq<bv8>)
    requires d + |u| <= |s| && |u| == |v|
    ensures Splice(Splice(s, d, u), d, v) == Splice(s, d, v)
    ensures Splice(s, d, u)[d..d + |u|] == u
  {
  }

  /** mbedtls_aes_crypt_ecb in place on one block of a buffer. */
  method EcbEncryptAt(c: BlockCipher, buf: array<bv8>, pos: nat)
    requires c.Permutation() && pos + c.n <= buf.Length
    modifies buf
    ensures buf[..] == Splice(old(buf[..]), pos, c.enc(old(buf[pos..pos + c.n])))
  {
    hide Splice;
    var temp := new bv8[c.n];
    Store(temp, c.enc(buf[pos..pos + c.n]));
    assert temp[0..c.n] == temp[..];
    CopyInto(buf, pos, temp, 0, c.n);
  }

  /** memcpy over the whole vector. */
  method Reload(iv: array<bv8>, src: array<bv8>, pos: nat)
    requires iv != src && pos + iv.Length <= src.Length
    modifies iv
    ensures iv[..] == src[pos..pos + iv.Length]
  {
    WholeBlock(iv[..], src[pos..pos + iv.Length]);
    hide Splice;
    CopyInto(iv, 0, src, pos, iv.Length);
  }

  method DecryptBlock(c: BlockCipher, iv: array<bv8>, input: array<bv8>, ipos: nat, output: array<bv8>, opos: nat)
    requires c.Permutation() && iv.Length == c.n && ipos + c.n <= input.Length && opos + c.n <= output.Length
    requires iv != input && iv != output && (input != output || ipos == opos)
    modifies iv, output
    ensures output[..] == Splice(old(output[..]), opos, Link(c, true, old(iv[..]), old(input[ipos..ipos + c.n])))
    ensures iv[..] == old(input[ipos..ipos + c.n])
  {
    hide Splice, Xor;
    ghost var out, b, v := output[..], input[ipos..ipos + c.n], iv[..];
    var temp := new bv8[c.n];
    Reload(temp, input, ipos);
    EcbDecryptTo(c, input, ipos, output, opos);
    SpliceOver(out, opos, c.dec(b), Xor(c.dec(b), v));
    assert output[opos..opos + c.n] == output[..][opos..opos + c.n];
    XorInto(output, opos, output, opos, iv);
    assert temp[0..c.n] == temp[..];
    Reload(iv, temp, 0);
  }

  method EncryptTo(c: BlockCipher, iv: array<bv8>, input: array<bv8>, ipos: nat, output: array<bv8>, opos: nat)
    requires c.Permutation() && iv.Length == c.n && ipos + c.n <= input.Length && opos + c.n <= output.Length
    requires iv != output && (input != output || ipos == opos)
    modifies output
    ensures output[..] == Splice(old(output[..]), opos, Link(c, false, iv[..], old(input[ipos..ipos + c.n])))
  {
    ghost var out, v, b := output[..], iv[..], input[ipos..ipos + c.n];
    hide *;
    LinkEnc(c, v, b);
    XorInto(output, opos, input, ipos, iv);
    SpliceOver(out, opos, Xor(b, v), Link(c, false, v, b));
    assert output[opos..opos + c.n] == Xor(b, v);
    EcbEncryptAt(c, output, opos);
  }

  method EncryptBlock(c: BlockCipher, iv: array<bv8>, input: array<bv8>, ipos: nat, output: array<bv8>, opos: nat)
    requires c.Permutation() && iv.Length == c.n && ipos + c.n <= input.Length && opos + c.n <= output.Length
    requires iv != input && iv != output && (input != output || ipos == opos)
    modifies iv, output
    ensures output[..] == Splice(old(output[..]), opos, Link(c, false, old(iv[..]), old(input[ipos..ipos + c.n])))
    ensures iv[..] == Link(c, false, old(iv[..]), old(input[ipos..ipos + c.n]))
  {
    hide Splice, Link;
    ghost var out, x := output[..], Link(c, false, iv[..], input[ipos..ipos + c.n]);
    EncryptTo(c, iv, input, ipos, output, opos);
    SpliceOver(out, opos, x, x);
    assert output[opos..opos + c.n] == output[..][opos..opos + c.n];
    Reload(iv, output, opos);
  }

  lemma LinkEnc(c: BlockCipher, v: seq<bv8>, b: seq<bv8>)
    requires c.Permutation() && |v| == |b| == c.n
    ensures Link(c, false, v, b) == c.enc(Xor(b, v))
  {
  }

  lemma SpliceAppend(s: seq<bv8>, d: nat, u: seq<bv8>, v: seq<bv8>)
    requires d + |u| + |v| <= |s|
    ensures Splice(Splice(s, d, u), d + |u|, v) == Splice(s, d, u + v)
  {
  }

  lemma SpliceNone(s: seq<bv8>, d: nat)
    requires d <= |s|
    ensures Splice(s, d, []) == s
  {
  }

  /** Appending one block to what has been chained. */
  lemma CbcSnoc(c: BlockCipher, decrypt: bool, iv: seq<bv8>, a: seq<bv8>, b: seq<bv8>)
    requires Whole(c, a) && |iv| == |b| == c.n
    ensures Whole(c, a + b)
    ensures Cbc(c, decrypt, iv, a + b) == Cbc(c, decrypt, iv, a) + Link(c, decrypt, IvAfter(c, decrypt, iv, a), b)
    ensures IvAfter(c, decrypt, iv, a + b) == NextIv(c, decrypt, IvAfter(c, decrypt, iv, a), b)
  {
    hide Cbc, IvAfter, Link, NextIv;
    CbcOne(c, decrypt, IvAfter(c, decrypt, iv, a), b);
    CbcConcat(c, decrypt, iv, a, b);
  }

  method CryptBlock(c: BlockCipher, decrypt: bool, iv: array<bv8>, input: array<bv8>, ipos: nat, output: array<bv8>, opos: nat)
    requires c.Permutation() && iv.Length == c.n && ipos + c.n <= input.Length && opos + c.n <= output.Length
    requires iv != input && iv != output && (input != output || ipos == opos)
    modifies iv, output
    ensures output[..] == Splice(old(output[..]), opos, Link(c, decrypt, old(iv[..]), old(input[ipos..ipos + c.n])))
    ensures iv[..] == NextIv(c, decrypt, old(iv[..]), old(input[ipos..ipos + c.n]))
  {
    hide Splice, Link;
    if decrypt {
      DecryptBlock(c, iv, input, ipos, output, opos);
    } else {
      EncryptBlock(c, iv, input, ipos, output, opos);
    }
  }

  lemma NextSlice(s: seq<bv8>, i: nat, k: nat, n: nat)
    requires i + k + n <= |s|
    ensures s[i..i + k + n] == s[i..i + k] + s[i + k..i + k + n]
  {
  }

  /** The block loop of mbedtls_aes_crypt_cbc, between distinct buffers or in place. */
  method CryptCbc(c: BlockCipher, decrypt: bool, length: nat, iv: array<bv8>, input: array<bv8>, ipos: nat,
                  output: array<bv8>, opos: nat) returns (ok: bool)
    requires c.Permutation() && iv.Length == c.n && ipos + length <= input.Length && opos + length <= output.Length
    requires iv != input && iv != output && (input != output || ipos == opos)
    modifies iv, output
    ensures ok <==> length % c.n == 0
    ensures ok ==>
      && output[..] == Splice(old(output[..]), opos, Cbc(c, decrypt, old(iv[..]), old(input[ipos..ipos + length])))
      && iv[..] == IvAfter(c, decrypt, old(iv[..]), old(input[ipos..ipos + length]))
    ensures !ok ==> iv[..] == old(iv[..]) && output[..] == old(output[..])
  {
    hide Cbc, IvAfter, Link, NextIv, Splice;
    if length % c.n != 0 {
      return false;
    }
    ghost var out, iv0, text := output[..], iv[..], input[..];
    var k := 0;
    CbcEmpty(c, decrypt, iv0);
    SpliceNone(out, opos);
    assert text[ipos..ipos] == [];
    while k < length
      invariant 0 <= k <= length && (length - k) % c.n == 0 && Whole(c, text[ipos..ipos + k])
      invariant output[..] == Splice(out, opos, Cbc(c, decrypt, iv0, text[ipos..ipos + k]))
      invariant iv[..] == IvAfter(c, decrypt, iv0, text[ipos..ipos + k])
      invariant input != output ==> input[..] == text
    {
      FirstBlock(length - k, c.n);
      CryptNext(c, decrypt, iv, input, ipos, output, opos, k, iv0, text, out);
      k := k + c.n;
    }
    return true;
  }

  /** One pass of the loop. */
  method CryptNext(c: BlockCipher, decrypt: bool, iv: array<bv8>, input: array<bv8>, ipos: nat, output: array<bv8>, opos: nat,
                   k: nat, ghost iv0: seq<bv8>, ghost text: seq<bv8>, ghost out: seq<bv8>)
    requires c.Permutation() && iv.Length == c.n == |iv0| && ipos + k + c.n <= input.Length == |text|
    requires opos + k + c.n <= output.Length == |out| && iv != input && iv != output
    requires if input == output then ipos == opos && text == out else input[..] == text
    requires Whole(c, text[ipos..ipos + k]) && output[..] == Splice(out, opos, Cbc(c, decrypt, iv0, text[ipos..ipos + k]))
    requires iv[..] == IvAfter(c, decrypt, iv0, text[ipos..ipos + k])
    modifies iv, output
    ensures Whole(c, text[ipos..ipos + k + c.n]) && (input != output ==> input[..] == text)
    ensures output[..] == Splice(out, opos, Cbc(c, decrypt, iv0, text[ipos..ipos + k + c.n]))
    ensures iv[..] == IvAfter(c, decrypt, iv0, text[ipos..ipos + k + c.n])
  {
    hide *;
    ghost var v := iv[..];
    StillThere(output[..], out, opos, Cbc(c, decrypt, iv0, text[ipos..ipos + k]), k, c.n);
    assert input[ipos + k..ipos + k + c.n] == text[ipos + k..ipos + k + c.n];
    CryptBlock(c, decrypt, iv, input, ipos + k, output, opos + k);
    BlockChained(c, decrypt, iv0, text, ipos, k, v, out, opos);
  }

  /** The block after what has been written is still as it was. */
  lemma StillThere(now: seq<bv8>, out: seq<bv8>, d: nat, v: seq<bv8>, k: nat, n: nat)
    requires d + k + n <= |out| && |v| == k && now == Splice(out, d, v)
    ensures now[d + k..d + k + n] == out[d + k..d + k + n]
  {
  }

  lemma BlockChained(c: BlockCipher, decrypt: bool, iv0: seq<bv8>, text: seq<bv8>, i: nat, k: nat, v: seq<bv8>, out: seq<bv8>, d: nat)
    requires c.Permutation() && i + k + c.n <= |text| && d + k + c.n <= |out| && |iv0| == c.n
    requires Whole(c, text[i..i + k]) && v == IvAfter(c, decrypt, iv0, text[i..i + k])
    ensures var a, b := text[i..i + k], text[i + k..i + k + c.n]; var ab := text[i..i + k + c.n];
      |v| == c.n && Whole(c, ab) && IvAfter(c, decrypt, iv0, ab) == NextIv(c, decrypt, v, b) &&
      Splice(Splice(out, d, Cbc(c, decrypt, iv0, a)), d + k, Link(c, decrypt, v, b)) == Splice(out, d, Cbc(c, decrypt, iv0, ab))
  {
    hide Cbc, IvAfter, Link, NextIv, Splice;
    var a, b := text[i..i + k], text[i + k..i + k + c.n];
    NextSlice(text, i, k, c.n);
    CbcSnoc(c, decrypt, iv0, a, b);
    SpliceAppend(out, d, Cbc(c, decrypt, iv0, a), Link(c, decrypt, v, b));
  }

  lemma WholeBlock(s: seq<bv8>, v: seq<bv8>)
    requires |s| == |v|
    ensures Splice(s, 0, v) == v
  {
  }
}
