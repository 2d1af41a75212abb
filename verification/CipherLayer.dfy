/** The cipher layer's CBC mode: update calls of any size, then a finish that pads or unpads. */
module CipherLayer {
  import opened Blocks
  import opened Numbers
  import opened CbcMode
  import opened Padding
  import opened Wrappers

  // ---------------------------------------------------------------- whole messages

  /** What one call to encrypt m gives: padded to whole blocks, or refused when it is not whole and nothing pads. */
  ghost function Sealed(c: BlockCipher, s: Scheme, iv: seq<bv8>, m: seq<bv8>): Option<seq<bv8>>
    requires c.Permutation() && |iv| == c.n < 256
  {
    if s.NoPadding? then
      if |m| % c.n == 0 then Some(Cbc(c, false, iv, m)) else None
    else
      FilledIsWhole(c, m);
      Some(Cbc(c, false, iv, m + Fill(s, c.n - |m| % c.n)))
  }

  lemma FilledIsWhole(c: BlockCipher, m: seq<bv8>)
    requires c.Permutation()
    ensures 0 < c.n - |m| % c.n <= c.n
    ensures forall f: seq<bv8> :: |f| == c.n - |m| % c.n ==> Whole(c, m + f)
  {
    var q := QuotRem(|m|, c.n);
    Distr(c.n, q.0, 1);
    DivModUnique(|m| + (c.n - |m| % c.n), c.n, q.0 + 1, 0);
  }

  /** The last block of a nonempty whole number of blocks. */
  ghost function LastOf(c: BlockCipher, m: seq<bv8>): (r: seq<bv8>)
    requires Whole(c, m) && m != []
    ensures |r| == c.n
  {
    FirstBlock(|m|, c.n);
    m[|m| - c.n..]
  }

  /** x decrypts to m. */
  ghost predicate OpensTo(c: BlockCipher, s: Scheme, iv: seq<bv8>, x: seq<bv8>, m: seq<bv8>)
    requires c.Permutation() && |iv| == c.n < 256
  {
    && Whole(c, x)
    && if s.NoPadding? then m == Cbc(c, true, iv, x) else
      x != [] && Ends(c, s, Cbc(c, true, iv, x), m)
  }

  ghost predicate Ends(c: BlockCipher, s: Scheme, plain: seq<bv8>, m: seq<bv8>)
    requires Whole(c, plain) && plain != [] && c.n < 256
  {
    exists k: nat :: EndsAt(c, s, plain, k, m)
  }

  /** m is plain without the padding of its last block, which starts after k bytes. */
  ghost predicate EndsAt(c: BlockCipher, s: Scheme, plain: seq<bv8>, k: nat, m: seq<bv8>)
    requires Whole(c, plain) && plain != [] && c.n < 256
  {
    FirstBlock(|plain|, c.n);
    k <= c.n && WellPadded(s, LastOf(c, plain), k) && m == plain[..|plain| - c.n + k]
  }

  /** With zero padding, a message whose last partial block ends in a zero cannot come back. */
  ghost predicate Recoverable(s: Scheme, m: seq<bv8>, n: nat)
    requires n > 0
  {
    s.ZeroPadding? && |m| % n > 0 ==> m[|m| - 1] != 0
  }

  /** Decryption gives back the message and nothing else: always with the three self-delimiting schemes,
      and with zero padding exactly when the partial block does not end in a zero. */
  lemma SealedOpens(c: BlockCipher, s: Scheme, iv: seq<bv8>, m: seq<bv8>, m': seq<bv8>)
    requires c.Permutation() && |iv| == c.n < 256 && Sealed(c, s, iv, m).Some?
    ensures Recoverable(s, m, c.n) ==> (OpensTo(c, s, iv, Sealed(c, s, iv, m).value, m') <==> m' == m)
    ensures OpensTo(c, s, iv, Sealed(c, s, iv, m).value, m) ==> Recoverable(s, m, c.n)
  {
    if s.NoPadding? {
      hide Cbc;
      CbcRoundTrip(c, false, iv, m);
    } else {
      FilledIsWhole(c, m);
      PartialPart(|m|, c.n);
      var k := |m| % c.n;
      var plain := m + Fill(s, c.n - k);
      assert Sealed(c, s, iv, m).value == Cbc(c, false, iv, plain);
      hide Sealed, OpensTo, Fill, Cbc, WellPadded, Ends;
      PlainEnds(c, s, m, k, plain, m');
      PlainEnds(c, s, m, k, plain, m);
      OpensPadded(c, s, iv, plain, m);
      OpensPadded(c, s, iv, plain, m');
    }
  }

  lemma OpensPadded(c: BlockCipher, s: Scheme, iv: seq<bv8>, plain: seq<bv8>, m: seq<bv8>)
    requires Whole(c, plain) && plain != [] && |iv| == c.n < 256 && !s.NoPadding?
    ensures OpensTo(c, s, iv, Cbc(c, false, iv, plain), m) <==> Ends(c, s, plain, m)
  {
    hide Cbc, Ends;
    CbcRoundTrip(c, false, iv, plain);
  }

  lemma PartialPart(k: nat, n: nat)
    requires n > 0
    ensures k % n <= k
  {
    var q := QuotRem(k, n);
    MulPos(q.0, n);
  }

  /** plain is m with padding that starts after the k bytes of a partial block. */
  ghost predicate Fills(c: BlockCipher, s: Scheme, m: seq<bv8>, k: nat, plain: seq<bv8>)
  {
    c.Permutation() && k < c.n < 256 && !s.NoPadding? && k <= |m| && plain == m + Fill(s, c.n - k) && Whole(c, plain)
  }

  lemma PlainLast(c: BlockCipher, s: Scheme, m: seq<bv8>, k: nat, plain: seq<bv8>)
    requires Fills(c, s, m, k, plain)
    ensures plain != [] && c.n <= |plain| == |m| - k + c.n && plain[..|m|] == m
    ensures LastOf(c, plain) == m[|m| - k..] + Fill(s, c.n - k)
  {
    hide Fill;
    FirstBlock(|plain|, c.n);
  }

  lemma PlainWell(c: BlockCipher, s: Scheme, m: seq<bv8>, k: nat, plain: seq<bv8>)
    requires Fills(c, s, m, k, plain)
    ensures plain != []
    ensures WellPadded(s, LastOf(c, plain), k) <==> (s.ZeroPadding? && k > 0 ==> m[|m| - 1] != 0)
  {
    hide LastOf, Fill, WellPadded;
    PlainLast(c, s, m, k, plain);
    TailWell(s, m, k, c.n);
  }

  lemma TailWell(s: Scheme, m: seq<bv8>, k: nat, n: nat)
    requires k <= |m| && k < n < 256 && !s.NoPadding?
    ensures WellPadded(s, m[|m| - k..] + Fill(s, n - k), k) <==> (s.ZeroPadding? && k > 0 ==> m[|m| - 1] != 0)
  {
    hide *;
    var tail := m[|m| - k..];
    assert k > 0 ==> tail[|tail| - 1] == m[|m| - 1];
    FillIsWellPadded(s, tail, n - k);
  }

  lemma PlainEndsOnce(c: BlockCipher, s: Scheme, plain: seq<bv8>, k: nat, m: seq<bv8>, m': seq<bv8>)
    requires Whole(c, plain) && plain != [] && c.n < 256
    requires EndsAt(c, s, plain, k, m)
    ensures Ends(c, s, plain, m') <==> m' == m
  {
    hide WellPadded, LastOf;
    if j: nat :| EndsAt(c, s, plain, j, m') {
      PaddingUnique(s, LastOf(c, plain), j, k);
    }
  }

  lemma EndsLength(c: BlockCipher, s: Scheme, plain: seq<bv8>, k: nat, m: seq<bv8>)
    requires Whole(c, plain) && plain != [] && c.n < 256
    requires EndsAt(c, s, plain, k, m)
    ensures |m| == |plain| - c.n + k
  {
    FirstBlock(|plain|, c.n);
  }

  lemma PlainEnds(c: BlockCipher, s: Scheme, m: seq<bv8>, k: nat, plain: seq<bv8>, m': seq<bv8>)
    requires Fills(c, s, m, k, plain)
    ensures plain != []
    ensures (s.ZeroPadding? && k > 0 ==> m[|m| - 1] != 0) ==> (Ends(c, s, plain, m') <==> m' == m)
    ensures Ends(c, s, plain, m) ==> (s.ZeroPadding? && k > 0 ==> m[|m| - 1] != 0)
  {
    PlainLast(c, s, m, k, plain);
    PlainWell(c, s, m, k, plain);
    hide Fill, WellPadded, LastOf;
    if WellPadded(s, LastOf(c, plain), k) {
      assert EndsAt(c, s, plain, k, m);
      hide *;
      PlainEndsOnce(c, s, plain, k, m, m');
    } else if j: nat :| EndsAt(c, s, plain, j, m) {
      EndsLength(c, s, plain, j, m);
    }
  }

  // ---------------------------------------------------------------- the stream

  /** em is what chaining the whole blocks of m produced, and iv the vector it left. */
  ghost predicate Chained(c: BlockCipher, decrypt: bool, iv0: seq<bv8>, m: seq<bv8>, iv: seq<bv8>, em: seq<bv8>)
  {
    && Whole(c, m) && |iv0| == c.n
    && iv == IvAfter(c, decrypt, iv0, m) && em == Cbc(c, decrypt, iv0, m)
  }

  /** After feeding fed: everything is chained but the last len bytes, which wait in the buffer. Decryption
      with padding keeps a whole block back, since it may be the last. */
  ghost predicate Stream(c: BlockCipher, decrypt: bool, keep: bool, iv0: seq<bv8>, fed: seq<bv8>, em: seq<bv8>,
                         iv: seq<bv8>, buf: seq<bv8>, len: nat)
  {
    && c.n == |buf| > 0 && len <= |fed|
    && (if keep then len <= c.n && (len == 0 ==> fed == []) else len < c.n)
    && fed[|fed| - len..] == buf[..len]
    && Chained(c, decrypt, iv0, fed[..|fed| - len], iv, em)
  }

  lemma ChainMore(c: BlockCipher, decrypt: bool, iv0: seq<bv8>, m: seq<bv8>, iv: seq<bv8>, em: seq<bv8>, b: seq<bv8>)
    requires Chained(c, decrypt, iv0, m, iv, em) && Whole(c, b)
    ensures |iv| == c.n && Chained(c, decrypt, iv0, m + b, IvAfter(c, decrypt, iv, b), em + Cbc(c, decrypt, iv, b))
  {
    hide Cbc, IvAfter;
    CbcConcat(c, decrypt, iv0, m, b);
  }

  /** How much update holds back out of k bytes: a partial block, or with keep a whole one if nothing else. */
  function Held(k: nat, n: nat, keep: bool): nat
    requires n > 0
  {
    if k > 0 && k % n == 0 && keep then n else k % n
  }

  lemma HeldLeavesBlocks(k: nat, n: nat, keep: bool)
    requires n > 0
    ensures Held(k, n, keep) <= k && (k - Held(k, n, keep)) % n == 0
    ensures if keep then Held(k, n, keep) <= n && (Held(k, n, keep) == 0 ==> k == 0) else Held(k, n, keep) < n
  {
    PartialPart(k, n);
    var q := QuotRem(k, n);
    DivModUnique(k - k % n, n, q.0, 0);
    if k > 0 && k % n == 0 {
      FirstBlock(k, n);
    }
  }

  /** What is held depends on the number of bytes fed, not on the calls that brought them. */
  lemma StreamHolds(c: BlockCipher, decrypt: bool, keep: bool, iv0: seq<bv8>, fed: seq<bv8>, em: seq<bv8>,
                    iv: seq<bv8>, buf: seq<bv8>, len: nat)
    requires Stream(c, decrypt, keep, iv0, fed, em, iv, buf, len)
    ensures len == Held(|fed|, c.n, keep)
  {
    hide Cbc, IvAfter;
    var k := |fed| - len;
    var q := QuotRem(k, c.n);
    if len < c.n {
      DivModUnique(|fed|, c.n, q.0, len);
    } else {
      Distr(c.n, q.0, 1);
      DivModUnique(|fed|, c.n, q.0 + 1, 0);
    }
  }

  /** Any two ways of cutting the same input give the same output so far and the same context. */
  lemma CutsDoNotShow(c: BlockCipher, decrypt: bool, keep: bool, iv0: seq<bv8>, fed: seq<bv8>,
                      em: seq<bv8>, iv: seq<bv8>, buf: seq<bv8>, len: nat,
                      em': seq<bv8>, iv': seq<bv8>, buf': seq<bv8>, len': nat)
    requires Stream(c, decrypt, keep, iv0, fed, em, iv, buf, len)
    requires Stream(c, decrypt, keep, iv0, fed, em', iv', buf', len')
    ensures em == em' && iv == iv' && len == len' && buf[..len] == buf'[..len]
  {
    StreamHolds(c, decrypt, keep, iv0, fed, em, iv, buf, len);
    StreamHolds(c, decrypt, keep, iv0, fed, em', iv', buf', len');
    hide Cbc, IvAfter, Held;
  }

  // ---------------------------------------------------------------- the buffers

  /** "If there is not enough data for a full block, cache it." */
  lemma CacheAll(c: BlockCipher, decrypt: bool, keep: bool, iv0: seq<bv8>, fed: seq<bv8>, em: seq<bv8>,
                 iv: seq<bv8>, buf: seq<bv8>, len: nat, input: seq<bv8>)
    requires Stream(c, decrypt, keep, iv0, fed, em, iv, buf, len)
    requires if keep then len + |input| <= c.n else len + |input| < c.n
    ensures Stream(c, decrypt, keep, iv0, fed + input, em, iv, Splice(buf, len, input), len + |input|)
  {
    hide Chained;
    var all, k := fed + input, len + |input|;
    assert all[..|all| - k] == fed[..|fed| - len];
    assert all[|all| - k..] == fed[|fed| - len..] + input;
    assert Splice(buf, len, input)[..k] == buf[..len] + input;
  }

  /** "Process cached data first": fills the buffer and chains it into the output. */
  method FlushCached(c: BlockCipher, decrypt: bool, ghost keep: bool, iv: array<bv8>, buf: array<bv8>, len: nat,
                     input: array<bv8>, output: array<bv8>, ghost iv0: seq<bv8>, ghost fed: seq<bv8>, ghost em: seq<bv8>)
    requires c.Permutation() && iv.Length == buf.Length == c.n <= output.Length && 0 < len <= c.n <= len + input.Length
    requires iv != buf && iv != input && iv != output && buf != input && buf != output && input != output
    requires Stream(c, decrypt, keep, iv0, fed, em, iv[..], buf[..], len)
    modifies iv, buf, output
    ensures output[c.n..] == old(output[c.n..])
    ensures Chained(c, decrypt, iv0, fed + input[..c.n - len], iv[..], em + output[..c.n])
  {
    hide Chained, Cbc, IvAfter, Splice;
    ghost var was, out, v, text := buf[..], output[..], iv[..], input[0..c.n - len];
    ghost var done := fed[..|fed| - len];
    CopyInto(buf, len, input, 0, c.n - len);
    ghost var b := buf[..];
    assert buf[0..0 + c.n] == b;
    FilledBuffer(fed, len, was, text);
    CbcOne(c, decrypt, v, b);
    ChainMore(c, decrypt, iv0, done, v, em, b);
    DivModUnique(c.n, c.n, 1, 0);
    var ok := CryptCbc(c, decrypt, c.n, iv, buf, 0, output, 0);
    SpliceAt(out, 0, Cbc(c, decrypt, v, b));
    assert input[..c.n - len] == text;
    assert output[c.n..] == output[..][c.n..] && output[..c.n] == output[..][0..c.n];
  }

  lemma FilledBuffer(fed: seq<bv8>, len: nat, buf: seq<bv8>, more: seq<bv8>)
    requires len <= |fed| && len + |more| == |buf| && fed[|fed| - len..] == buf[..len]
    ensures fed[..|fed| - len] + Splice(buf, len, more) == fed + more
  {
    assert fed == fed[..|fed| - len] + fed[|fed| - len..];
    assert Splice(buf, len, more) == buf[..len] + more;
  }

  /** "Process remaining full blocks": chains the input from pos up to its last held bytes. */
  method ChainRest(c: BlockCipher, decrypt: bool, iv: array<bv8>, input: array<bv8>, pos: nat, length: nat,
                   output: array<bv8>, olen: nat, ghost iv0: seq<bv8>, ghost fed: seq<bv8>, ghost em: seq<bv8>)
    requires c.Permutation() && iv.Length == c.n && pos + length <= input.Length && olen + length <= output.Length
    requires iv != input && iv != output && (input != output || pos == olen) && length % c.n == 0
    requires Chained(c, decrypt, iv0, fed + input[..pos], iv[..], em + output[..olen])
    modifies iv, output
    ensures output[olen + length..] == old(output[olen + length..])
    ensures output[..olen] == old(output[..olen])
    ensures Chained(c, decrypt, iv0, fed + old(input[..pos + length]), iv[..], em + output[..olen + length])
  {
    hide Chained, Cbc, IvAfter, Splice;
    ghost var out, v, text := output[..], iv[..], input[..];
    ghost var b := text[pos..pos + length];
    assert input[pos..pos + length] == b && input[..pos] == text[..pos] && input[..pos + length] == text[..pos + length];
    ChainMore(c, decrypt, iv0, fed + text[..pos], v, em + output[..olen], b);
    var ok := CryptCbc(c, decrypt, length, iv, input, pos, output, olen);
    ghost var w := Cbc(c, decrypt, v, b);
    SpliceAt(out, olen, w);
    assert fed + text[..pos] + b == fed + text[..pos + length];
    assert em + out[..olen] + w == em + output[..olen + length];
  }

  /** The cached data, if any: where the rest of the input starts and how much output there is. */
  method ProcessCached(c: BlockCipher, decrypt: bool, ghost keep: bool, iv: array<bv8>, buf: array<bv8>, len: nat,
                       input: array<bv8>, output: array<bv8>, ghost iv0: seq<bv8>, ghost fed: seq<bv8>, ghost em: seq<bv8>)
    returns (pos: nat, olen: nat)
    requires c.Permutation() && iv.Length == buf.Length == c.n && len <= c.n && (len > 0 ==> c.n <= output.Length && c.n <= len + input.Length)
    requires iv != buf && iv != input && iv != output && buf != input && buf != output && (input != output || len == 0)
    requires Stream(c, decrypt, keep, iv0, fed, em, iv[..], buf[..], len)
    modifies iv, buf, output
    ensures pos == (if len > 0 then c.n - len else 0) && olen == (if len > 0 then c.n else 0)
    ensures output[olen..] == old(output[olen..])
    ensures Chained(c, decrypt, iv0, fed + input[..pos], iv[..], em + output[..olen])
  {
    if len > 0 {
      hide Stream, Chained;
      FlushCached(c, decrypt, keep, iv, buf, len, input, output, iv0, fed, em);
      pos, olen := c.n - len, c.n;
    } else {
      pos, olen := 0, 0;
      assert fed + input[..0] == fed[..|fed| - 0] && em + output[..0] == em;
    }
  }

  /** The held bytes are in the buffer and the rest is chained: the stream invariant again. */
  lemma StreamAgain(c: BlockCipher, decrypt: bool, keep: bool, iv0: seq<bv8>, fed: seq<bv8>, input: seq<bv8>, em: seq<bv8>,
                    iv: seq<bv8>, buf: seq<bv8>, pos: nat, held: nat)
    requires c.n == |buf| > 0 && pos + held <= |input| && held <= c.n
    requires if keep then held == 0 ==> fed + input == [] else held < c.n
    requires buf[..held] == input[|input| - held..]
    requires Chained(c, decrypt, iv0, fed + input[..|input| - held], iv, em)
    ensures Stream(c, decrypt, keep, iv0, fed + input, em, iv, buf, held)
  {
    hide Chained;
    var all := fed + input;
    assert all[..|all| - held] == fed + input[..|input| - held];
    assert all[|all| - held..] == input[|input| - held..];
  }

  /** update when there is at least a block's worth: cached data, the new cache, the blocks between. */
  method UpdateBlocks(c: BlockCipher, decrypt: bool, keep: bool, iv: array<bv8>, buf: array<bv8>, len: nat,
                      input: array<bv8>, output: array<bv8>, ghost iv0: seq<bv8>, ghost fed: seq<bv8>, ghost em: seq<bv8>)
    returns (olen: nat, held: nat)
    requires c.Permutation() && iv.Length == buf.Length == c.n && (input == output || input.Length + c.n <= output.Length)
    requires iv != buf && iv != input && iv != output && buf != input && buf != output && (input != output || len == 0)
    requires Stream(c, decrypt, keep, iv0, fed, em, iv[..], buf[..], len)
    requires len <= c.n && if keep then input.Length > c.n - len else input.Length >= c.n - len
    modifies iv, buf, output
    ensures olen <= output.Length && output[olen..] == old(output[olen..])
    ensures Stream(c, decrypt, keep, iv0, fed + old(input[..]), em + output[..olen], iv[..], buf[..], held)
  {
    hide Stream, Chained, Splice, Held;
    ghost var out0, text := output[..], input[..];
    var pos;
    pos, olen := ProcessCached(c, decrypt, keep, iv, buf, len, input, output, iv0, fed, em);
    var ilen := input.Length - pos;
    HeldLeavesBlocks(ilen, c.n, keep);
    held := HoldTail(buf, keep, input, ilen);
    assert input[..] == text && input[input.Length - held..] == text[|text| - held..];
    ilen := ilen - held;
    ghost var mid, o := output[..], olen;
    assert out0[olen..] == mid[olen..];
    assert input[..pos + ilen] == text[..|text| - held] && input[..pos] == text[..pos];
    if ilen != 0 {
      ChainRest(c, decrypt, iv, input, pos, ilen, output, olen, iv0, fed, em);
      olen := olen + ilen;
    }
    assert mid[o..][ilen..] == mid[olen..] && out0[o..][ilen..] == out0[olen..];
    StreamAgain(c, decrypt, keep, iv0, fed, text, em + output[..olen], iv[..], buf[..], pos, held);
  }

  /** "Cache final, incomplete block": the last bytes of the ilen remaining. */
  method HoldTail(buf: array<bv8>, keep: bool, input: array<bv8>, ilen: nat) returns (held: nat)
    requires buf != input && buf.Length > 0 && ilen <= input.Length
    modifies buf
    ensures held == Held(ilen, buf.Length, keep) && held <= ilen && held <= buf.Length
    ensures buf[..][..held] == input[input.Length - held..]
  {
    hide Splice;
    HeldLeavesBlocks(ilen, buf.Length, keep);
    held := 0;
    if ilen != 0 {
      held := ilen % buf.Length;
      if held == 0 && keep {
        held := buf.Length;
      }
      SpliceAt(buf[..], 0, input[input.Length - held..input.Length]);
      CopyInto(buf, 0, input, input.Length - held, held);
      assert buf[..][..held] == buf[..][0..held];
    }
  }

  // ---------------------------------------------------------------- the context

  datatype Ret = Success | FullBlockExpected | InvalidPadding | BadInputData

  /** mbedtls_cipher_context_t in CBC mode after setkey and set_iv. fed and emitted are all input and output so far. */
  class Context {
    const c: BlockCipher
    const decrypt: bool
    const padding: Scheme
    const iv: array<bv8>
    const unprocessed: array<bv8>
    var unprocessedLen: nat
    ghost const iv0: seq<bv8>
    ghost var fed: seq<bv8>
    ghost var emitted: seq<bv8>

    ghost predicate Buffers()
    {
      && c.Permutation() && iv.Length == unprocessed.Length == c.n < 256 && iv != unprocessed && |iv0| == c.n
    }

    /** A whole block is held back only to take its padding off. */
    predicate Keeps()
    {
      decrypt && !padding.NoPadding?
    }

    ghost predicate Valid()
      reads this, iv, unprocessed
    {
      Buffers() && Stream(c, decrypt, Keeps(), iv0, fed, emitted, iv[..], unprocessed[..], unprocessedLen)
    }

    constructor (c: BlockCipher, decrypt: bool, padding: Scheme, iv0: seq<bv8>)
      requires c.Permutation() && |iv0| == c.n < 256
      ensures Valid() && fed == [] && emitted == [] && fresh(iv) && fresh(unprocessed)
      ensures this.c == c && this.decrypt == decrypt && this.padding == padding && this.iv0 == iv0
    {
      this.c, this.decrypt, this.padding, this.iv0 := c, decrypt, padding, iv0;
      iv := new bv8[c.n](i requires 0 <= i < c.n => iv0[i]);
      unprocessed := new bv8[c.n];
      unprocessedLen := 0;
      fed, emitted := [], [];
      new;
      assert iv[..] == iv0;
      CbcEmpty(c, decrypt, iv0);
      DivModUnique(0, c.n, 0, 0);
      hide Cbc, IvAfter;
      assert fed[..0] == [] && unprocessed[..0] == [];
    }

    /** mbedtls_cipher_update: however the input is cut, the outputs join up to the chaining of everything fed but the
        bytes held back. In place it takes only whole blocks, and only with an empty cache. */
    method Update(input: array<bv8>, output: array<bv8>) returns (ret: Ret, olen: nat)
      requires Valid() && (input == output || input.Length + c.n <= output.Length)
      requires input != iv && input != unprocessed && output != iv && output != unprocessed
      modifies this`unprocessedLen, this`fed, this`emitted, iv, unprocessed, output
      ensures ret ==
        if input == output && (old(unprocessedLen) != 0 || input.Length % c.n != 0) then BadInputData else Success
      ensures Valid() && fed == old(fed) + (if ret == Success then old(input[..]) else [])
      ensures olen <= output.Length && output[olen..] == old(output[olen..])
      ensures emitted == old(emitted) + output[..olen] && (ret != Success ==> olen == 0)
    {
      hide Stream, Splice;
      StreamBounds(c, decrypt, Keeps(), iv0, fed, emitted, iv[..], unprocessed[..], unprocessedLen);
      if input == output && (unprocessedLen != 0 || input.Length % c.n != 0) {
        assert emitted + output[..0] == emitted && fed + [] == fed;
        return BadInputData, 0;
      }
      ghost var text := input[..];
      var ilen, room := input.Length, c.n - unprocessedLen;
      if (decrypt && !padding.NoPadding? && ilen <= room) || (decrypt && padding.NoPadding? && ilen < room)
         || (!decrypt && ilen < room)
      {
        CacheAll(c, decrypt, Keeps(), iv0, fed, emitted, iv[..], unprocessed[..], unprocessedLen, input[..]);
        assert input[0..0 + ilen] == input[..];
        CopyInto(unprocessed, unprocessedLen, input, 0, ilen);
        unprocessedLen := unprocessedLen + ilen;
        olen := 0;
        assert emitted + output[..0] == emitted;
      } else {
        olen, unprocessedLen := UpdateBlocks(c, decrypt, Keeps(), iv, unprocessed, unprocessedLen, input, output,
          iv0, fed, emitted);
        emitted := emitted + output[..olen];
      }
      fed := fed + text;
      return Success, olen;
    }

    /** The output of finishing an encryption: with all that came before, it is the message sealed in one call. */
    method FinishEncrypt(output: array<bv8>) returns (ret: Ret, olen: nat)
      requires Valid() && !decrypt && c.n == output.Length && output != iv && output != unprocessed
      modifies iv, unprocessed, output
      ensures ret == Success <==> Sealed(c, padding, iv0, fed).Some?
      ensures ret != Success ==> ret == FullBlockExpected
      ensures ret == Success ==> olen <= output.Length && emitted + output[..olen] == Sealed(c, padding, iv0, fed).value
    {
      hide Stream, Splice, Sealed;
      StreamBounds(c, decrypt, Keeps(), iv0, fed, emitted, iv[..], unprocessed[..], unprocessedLen);
      ghost var len, v, em := unprocessedLen, iv[..], emitted;
      olen := 0;
      if padding.NoPadding? {
        SealedPlain(c, iv0, fed, emitted, v, unprocessed[..], unprocessedLen);
        assert emitted + output[..0] == emitted;
        return if unprocessedLen != 0 then FullBlockExpected else Success, 0;
      }
      ghost var buf, text := unprocessed[..], unprocessed[..unprocessedLen];
      AddPadding(padding, unprocessed, unprocessedLen);
      SealedPadded(c, padding, iv0, fed, emitted, v, buf, unprocessedLen);
      OneBlockOut(c, false, iv, unprocessed, output);
      return Success, c.n;
    }

    /** Finishing a decryption: it succeeds exactly on what opens, and gives what it opens to. */
    method FinishDecrypt(output: array<bv8>) returns (ret: Ret, olen: nat)
      requires Valid() && decrypt && c.n == output.Length && output != iv && output != unprocessed
      modifies iv, output
      ensures ret == Success <==> exists m :: OpensTo(c, padding, iv0, fed, m)
      ensures ret == Success ==> olen <= output.Length && OpensTo(c, padding, iv0, fed, emitted + output[..olen])
      ensures ret == FullBlockExpected <==> |fed| % c.n != 0 || (!padding.NoPadding? && fed == [])
    {
      StreamHolds(c, decrypt, Keeps(), iv0, fed, emitted, iv[..], unprocessed[..], unprocessedLen);
      hide Stream, Splice, OpensTo, WellPadded;
      StreamBounds(c, decrypt, Keeps(), iv0, fed, emitted, iv[..], unprocessed[..], unprocessedLen);
      if unprocessedLen != c.n {
        if padding.NoPadding? && unprocessedLen == 0 {
          OpensPlain(c, iv0, fed, emitted, iv[..], unprocessed[..]);
          assert emitted + output[..0] == emitted;
          return Success, 0;
        }
        OpensOnlyWhole(c, padding, iv0, fed);
        return FullBlockExpected, 0;
      }
      ghost var v := iv[..];
      OneBlockOut(c, true, iv, unprocessed, output);
      assert output[..] == output[..c.n];
      var ok;
      ok, olen := GetPadding(padding, output);
      OpensLast(c, padding, iv0, fed, emitted, v, unprocessed[..], output[..]);
      if ok {
        PaddingBound(padding, output[..], olen);
        assert OpensTo(c, padding, iv0, fed, emitted + output[..][..olen]);
        assert output[..][..olen] == output[..olen];
      }
      return if ok then Success else InvalidPadding, olen;
    }

    method Finish(output: array<bv8>) returns (ret: Ret, olen: nat)
      requires Valid() && c.n == output.Length && output != iv && output != unprocessed
      modifies iv, unprocessed, output
      ensures !decrypt ==> (ret == Success <==> Sealed(c, padding, iv0, fed).Some?)
      ensures !decrypt && ret == Success ==>
        olen <= output.Length && emitted + output[..olen] == Sealed(c, padding, iv0, fed).value
      ensures decrypt ==> (ret == Success <==> exists m :: OpensTo(c, padding, iv0, fed, m))
      ensures decrypt && ret == Success ==>
        olen <= output.Length && OpensTo(c, padding, iv0, fed, emitted + output[..olen])
    {
      hide Sealed, OpensTo, Stream;
      if !decrypt {
        ret, olen := FinishEncrypt(output);
      } else {
        ret, olen := FinishDecrypt(output);
      }
    }
  }

  /** cbc_func on exactly one block, the buffer. */
  method OneBlockOut(c: BlockCipher, decrypt: bool, iv: array<bv8>, buf: array<bv8>, output: array<bv8>)
    requires c.Permutation() && iv.Length == buf.Length == c.n <= output.Length
    requires iv != buf && iv != output && buf != output
    modifies iv, output
    ensures output[..c.n] == Link(c, decrypt, old(iv[..]), buf[..])
    ensures output[c.n..] == old(output[c.n..])
  {
    hide Splice, Link, Cbc, IvAfter;
    ghost var out := output[..];
    DivModUnique(c.n, c.n, 1, 0);
    CbcOne(c, decrypt, iv[..], buf[..]);
    assert buf[0..0 + c.n] == buf[..];
    SpliceAt(out, 0, Link(c, decrypt, iv[..], buf[..]));
    var ok := CryptCbc(c, decrypt, c.n, iv, buf, 0, output, 0);
    assert output[..c.n] == output[..][0..c.n] && output[c.n..] == output[..][c.n..];
  }

  lemma StreamBounds(c: BlockCipher, decrypt: bool, keep: bool, iv0: seq<bv8>, fed: seq<bv8>, em: seq<bv8>,
                     iv: seq<bv8>, buf: seq<bv8>, len: nat)
    requires Stream(c, decrypt, keep, iv0, fed, em, iv, buf, len)
    ensures c.n == |buf| > 0 && len <= c.n && len <= |fed| && (!keep ==> len < c.n)
  {
  }

  lemma SealedPlain(c: BlockCipher, iv0: seq<bv8>, fed: seq<bv8>, em: seq<bv8>, iv: seq<bv8>, buf: seq<bv8>, len: nat)
    requires c.n < 256 && |iv0| == c.n && Stream(c, false, false, iv0, fed, em, iv, buf, len)
    requires c.Permutation()
    ensures Sealed(c, NoPadding, iv0, fed) == if len == 0 then Some(em) else None
  {
    StreamHolds(c, false, false, iv0, fed, em, iv, buf, len);
    hide Cbc, IvAfter;
    if len == 0 {
      assert fed[..|fed| - 0] == fed;
    }
  }

  lemma SealedPadded(c: BlockCipher, s: Scheme, iv0: seq<bv8>, fed: seq<bv8>, em: seq<bv8>, iv: seq<bv8>,
                     buf: seq<bv8>, len: nat)
    requires c.Permutation() && c.n < 256 && |iv0| == c.n && !s.NoPadding?
    requires Stream(c, false, false, iv0, fed, em, iv, buf, len)
    ensures len < c.n == |iv|
    ensures Sealed(c, s, iv0, fed) == Some(em + Link(c, false, iv, buf[..len] + Fill(s, c.n - len)))
  {
    hide Cbc, IvAfter, Link, Fill;
    StreamHolds(c, false, false, iv0, fed, em, iv, buf, len);
    var b := buf[..len] + Fill(s, c.n - len);
    var done := fed[..|fed| - len];
    assert Chained(c, false, iv0, done, iv, em) && |iv| == c.n;
    CbcOne(c, false, iv, b);
    ChainMore(c, false, iv0, done, iv, em, b);
    assert fed == done + buf[..len];
    assert done + b == fed + Fill(s, c.n - len);
  }

  lemma PaddingBound(s: Scheme, b: seq<bv8>, k: nat)
    requires 0 < |b| < 256 && WellPadded(s, b, k)
    ensures k <= |b|
  {
  }

  lemma OpensPlain(c: BlockCipher, iv0: seq<bv8>, fed: seq<bv8>, em: seq<bv8>, iv: seq<bv8>, buf: seq<bv8>)
    requires c.Permutation() && c.n < 256 && |iv0| == c.n && Stream(c, true, false, iv0, fed, em, iv, buf, 0)
    ensures OpensTo(c, NoPadding, iv0, fed, em)
  {
    hide Cbc, IvAfter;
    assert fed[..|fed| - 0] == fed;
  }

  lemma OpensOnlyWhole(c: BlockCipher, s: Scheme, iv0: seq<bv8>, fed: seq<bv8>)
    requires c.Permutation() && |iv0| == c.n < 256
    requires |fed| % c.n != 0 || (!s.NoPadding? && fed == [])
    ensures !exists m :: OpensTo(c, s, iv0, fed, m)
  {
    hide Cbc;
  }

  /** With a whole block held back, what the text opens to is decided by that block's plaintext p. */
  lemma OpensLast(c: BlockCipher, s: Scheme, iv0: seq<bv8>, fed: seq<bv8>, em: seq<bv8>, iv: seq<bv8>, buf: seq<bv8>, p: seq<bv8>)
    requires c.Permutation() && c.n < 256 && |iv0| == c.n && !s.NoPadding?
    requires Stream(c, true, true, iv0, fed, em, iv, buf, c.n)
    requires |iv| == c.n && p == Link(c, true, iv, buf)
    ensures |p| == c.n
    ensures (exists m :: OpensTo(c, s, iv0, fed, m)) <==> exists k: nat :: WellPadded(s, p, k)
    ensures forall k: nat :: k <= c.n && WellPadded(s, p, k) ==> OpensTo(c, s, iv0, fed, em + p[..k])
  {
    var done := fed[..|fed| - c.n];
    CbcOne(c, true, iv, buf);
    assert buf[..c.n] == buf && done + buf == fed;
    hide Link;
    ChainMore(c, true, iv0, done, iv, em, buf);
    var plain := em + p;
    hide Cbc, IvAfter;
    assert Cbc(c, true, iv0, fed) == plain;
    hide *;
    OpensPlainText(c, s, iv0, fed, em, p, plain);
  }

  lemma OpensPlainText(c: BlockCipher, s: Scheme, iv0: seq<bv8>, fed: seq<bv8>, em: seq<bv8>, p: seq<bv8>, plain: seq<bv8>)
    requires Whole(c, fed) && fed != [] && |iv0| == c.n < 256 && !s.NoPadding?
    requires |p| == c.n && plain == em + p == Cbc(c, true, iv0, fed)
    ensures (exists m :: OpensTo(c, s, iv0, fed, m)) <==> exists k: nat :: WellPadded(s, p, k)
    ensures forall k: nat :: k <= c.n && WellPadded(s, p, k) ==> OpensTo(c, s, iv0, fed, em + p[..k])
  {
    hide Cbc, WellPadded;
    assert LastOf(c, plain) == p;
    forall k: nat | k <= c.n && WellPadded(s, p, k)
      ensures OpensTo(c, s, iv0, fed, em + p[..k])
    {
      assert plain[..|plain| - c.n + k] == em + p[..k];
      assert EndsAt(c, s, plain, k, em + p[..k]);
    }
    if k: nat :| WellPadded(s, p, k) {
      PaddingBound(s, p, k);
      assert OpensTo(c, s, iv0, fed, em + p[..k]);
    }
    if m :| OpensTo(c, s, iv0, fed, m) {
      var k: nat :| EndsAt(c, s, plain, k, m);
    }
  }
}
