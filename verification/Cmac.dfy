/** CMAC: subkeys by doubling in the field, and streaming that always holds back the last block. */
module Cmac {
  import opened Blocks
  import opened Numbers

  // ---------------------------------------------------------------- subkeys

  function Reversed(s: seq<bv8>): (r: seq<bv8>)
    ensures |r| == |s|
  {
    seq(|s|, i requires 0 <= i < |s| => s[|s| - 1 - i])
  }

  lemma ReversedTwice(s: seq<bv8>)
    ensures Reversed(Reversed(s)) == s
  {
  }

  /** The reduction byte of GF(2^64) or GF(2^128). */
  function Rn(n: nat): bv8
  {
    if n == 16 then 0x87 else 0x1B
  }

  /** Multiplication by u with the highest coefficients in byte 0. */
  function TimesU(p: seq<bv8>): (r: seq<bv8>)
    requires |p| > 0
    ensures |r| == |p| && IsTimesX(Reversed(r), Reversed(p), Rn(|p|))
  {
    ReversedTwice(TimesX(Reversed(p), Rn(|p|)));
    Reversed(TimesX(Reversed(p), Rn(|p|)))
  }

  lemma TimesUByte(p: seq<bv8>, i: nat)
    requires i < |p|
    ensures i < |p| - 1 ==> TimesU(p)[i] == ShiftIn(p[i], p[i + 1])
    ensures i == |p| - 1 ==> TimesU(p)[i] == ShiftFold(p[i], BitOf(p[0], 7), Rn(|p|))
  {
    hide IsTimesX, ShiftIn, ShiftFold, BitOf, TimesX;
    TimesXAt(Reversed(p), Rn(|p|), |p| - 1 - i);
  }

  lemma FirstShift(x: bv8)
    ensures (x << 1) | 0 == x << 1
  {
  }

  lemma Folded(x: bv8, top: bv8, f: bv8)
    ensures (x << 1) ^ (f & (0 - (top >> 7))) == ShiftFold(x, BitOf(top, 7), f)
  {
  }

  /** cmac_multiply_by_u; output and input are distinct buffers. */
  method MultiplyByU(output: array<bv8>, input: array<bv8>) returns (ok: bool)
    requires output != input && output.Length == input.Length
    modifies output
    ensures ok <==> input.Length == 16 || input.Length == 8
    ensures ok ==> output[..] == TimesU(input[..])
    ensures !ok ==> output[..] == old(output[..])
  {
    hide IsTimesX, TimesU, ShiftFold, BitOf;
    var n := input.Length;
    var r: bv8;
    if n == 16 {
      r := 0x87;
    } else if n == 8 {
      r := 0x1B;
    } else {
      return false;
    }
    var overflow: bv8 := 0;
    ghost var p := input[..];
    var i := n - 1;
    while i >= 0
      invariant -1 <= i < n
      invariant overflow == if i == n - 1 then 0 else p[i + 1] >> 7
      invariant forall k :: i < k < n - 1 ==> output[k] == ShiftIn(p[k], p[k + 1])
      invariant i < n - 1 ==> output[n - 1] == p[n - 1] << 1
    {
      FirstShift(p[i]);
      output[i] := (input[i] << 1) | overflow;
      overflow := input[i] >> 7;
      i := i - 1;
    }
    var mask: bv8 := 0 - (input[0] >> 7);
    Folded(p[n - 1], p[0], r);
    output[n - 1] := output[n - 1] ^ (r & mask);
    forall k | 0 <= k < n
      ensures output[k] == TimesU(p)[k]
    {
      TimesUByte(p, k);
    }
    return true;
  }

  // ---------------------------------------------------------------- the tag of a message

  /** 3DES and AES block sizes are the ones CMAC accepts. */
  ghost predicate MacCipher(c: BlockCipher)
  {
    c.Permutation() && (c.n == 8 || c.n == 16)
  }

  function Zeros(n: nat): (r: seq<bv8>)
    ensures |r| == n
  {
    seq(n, _ => 0)
  }

  /** CBC-MAC of a whole number of blocks. */
  ghost function Chain(c: BlockCipher, m: seq<bv8>): (r: seq<bv8>)
    requires MacCipher(c) && |m| % c.n == 0
    ensures |r| == c.n
    decreases |m|
  {
    if m == [] then Zeros(c.n) else
      AllButOneBlock(|m|, c.n);
      c.enc(Xor(m[|m| - c.n..], Chain(c, m[..|m| - c.n])))
  }

  lemma AllButOneBlock(k: nat, n: nat)
    requires 0 < n && 0 < k && k % n == 0
    ensures k >= n && (k - n) % n == 0
  {
    var q := QuotRem(k, n);
    if q.0 == 0 {
      MulMono(0, q.0, n);
    } else {
      MulMono(1, q.0, n);
      Distr(n, q.0, 1);
      DivModUnique(k - n, n, q.0 - 1, 0);
    }
  }

  /** How many bytes come before the last block, which may be full or partial, and is empty only for "". */
  function HeadLen(k: nat, n: nat): nat
    requires n > 0
  {
    if k == 0 then 0 else k - ((k - 1) % n + 1)
  }

  lemma HeadLenIs(k: nat, n: nat)
    requires n > 0
    ensures HeadLen(k, n) <= k && HeadLen(k, n) % n == 0 && k - HeadLen(k, n) <= n
    ensures k > 0 ==> k - HeadLen(k, n) > 0
  {
    if k > 0 {
      var q := QuotRem(k - 1, n);
      MulPos(q.0, n);
      DivModUnique(q.0 * n, n, q.0, 0);
    }
  }

  /** The last block is determined by the length: nothing else splits a message this way. */
  lemma HeadLenUnique(done: nat, last: nat, n: nat)
    requires n > 0 && done % n == 0 && last <= n && (last == 0 ==> done == 0)
    ensures HeadLen(done + last, n) == done
  {
    if last > 0 {
      var q := QuotRem(done, n);
      DivModUnique(done + last - 1, n, q.0, last - 1);
    }
  }

  /** Padding with one set bit and zeros, for a last block that is not full. */
  function Padded(last: seq<bv8>, n: nat): (r: seq<bv8>)
    requires |last| < n
    ensures |r| == n
  {
    last + [0x80] + Zeros(n - |last| - 1)
  }

  ghost function K1(c: BlockCipher): (r: seq<bv8>)
    requires MacCipher(c)
    ensures |r| == c.n
  {
    TimesU(c.enc(Zeros(c.n)))
  }

  ghost function K2(c: BlockCipher): (r: seq<bv8>)
    requires MacCipher(c)
    ensures |r| == c.n
  {
    TimesU(K1(c))
  }

  /** M_last of section 2.4 of RFC 4493. */
  ghost function LastBlock(c: BlockCipher, last: seq<bv8>): (r: seq<bv8>)
    requires MacCipher(c) && |last| <= c.n
    ensures |r| == c.n
  {
    if |last| == c.n then Xor(last, K1(c)) else Xor(Padded(last, c.n), K2(c))
  }

  /** AES-CMAC of section 2.4 of RFC 4493, for either block size. */
  ghost function Tag(c: BlockCipher, m: seq<bv8>): (r: seq<bv8>)
    requires MacCipher(c)
    ensures |r| == c.n
  {
    HeadLenIs(|m|, c.n);
    var h := HeadLen(|m|, c.n);
    c.enc(Xor(LastBlock(c, m[h..]), Chain(c, m[..h])))
  }

  lemma ChainStep(c: BlockCipher, m: seq<bv8>, b: seq<bv8>)
    requires MacCipher(c) && |m| % c.n == 0 && |b| == c.n
    ensures |m + b| % c.n == 0 && Chain(c, m + b) == c.enc(Xor(b, Chain(c, m)))
  {
    var q := QuotRem(|m|, c.n);
    Distr(c.n, q.0, 1);
    DivModUnique(|m| + c.n, c.n, q.0 + 1, 0);
    assert (m + b)[|m|..] == b && (m + b)[..|m|] == m;
  }

  /** xs are the states of CBC-MAC over m: zeros, and then each block xored into the state and encrypted. */
  ghost predicate States(c: BlockCipher, m: seq<bv8>, xs: seq<seq<bv8>>)
    requires MacCipher(c)
  {
    && |m| == c.n * (|xs| - 1)
    && |xs[0]| == c.n && (forall k :: 0 <= k < c.n ==> xs[0][k] == 0)
    && forall i :: 0 <= i < |xs| - 1 ==> StateAfter(c, m, xs, i)
  }

  ghost predicate StateAfter(c: BlockCipher, m: seq<bv8>, xs: seq<seq<bv8>>, i: nat)
    requires i < |xs| - 1
  {
    c.n * i + c.n <= |m| && |xs[i]| == c.n > 0 && xs[i + 1] == c.enc(Xor(m[c.n * i..c.n * i + c.n], xs[i]))
  }

  lemma {:induction false} LastState(c: BlockCipher, m: seq<bv8>, xs: seq<seq<bv8>>)
    requires MacCipher(c) && xs != [] && States(c, m, xs)
    ensures |m| % c.n == 0 && Chain(c, m) == xs[|xs| - 1]
    decreases |xs|
  {
    hide Xor;
    var k := |xs| - 1;
    DivModUnique(|m|, c.n, k, 0);
    if k == 0 {
      assert m == [] && xs[0] == Zeros(c.n);
    } else {
      hide Chain;
      assert StateAfter(c, m, xs, k - 1);
      var a, b, ys := m[..c.n * (k - 1)], m[c.n * (k - 1)..], xs[..k];
      Distr(c.n, k, 1);
      assert m == a + b && m[c.n * (k - 1)..c.n * (k - 1) + c.n] == b;
      forall i | 0 <= i < |ys| - 1
        ensures StateAfter(c, a, ys, i)
      {
        assert StateAfter(c, m, xs, i);
        MulMono(i + 1, k - 1, c.n);
        Distr(c.n, i, 1);
        assert a[c.n * i..c.n * i + c.n] == m[c.n * i..c.n * i + c.n];
      }
      LastState(c, a, ys);
      ChainStep(c, a, b);
    }
  }

  /** The message whose CBC-MAC the tag is: the last block xored with L times u if it is full, and otherwise padded with
      one set bit and zeros and xored with L times u twice, for L the encryption of zeros. */
  lemma TagIsCbcMac(c: BlockCipher, m: seq<bv8>, zeros: seq<bv8>, full: seq<bv8>, partial: seq<bv8>, xs: seq<seq<bv8>>)
    requires MacCipher(c) && xs != [] && |zeros| == c.n && forall k :: 0 <= k < c.n ==> zeros[k] == 0
    requires m != [] && |m| % c.n == 0 ==>
      |m| >= c.n && full == m[..|m| - c.n] + Xor(m[|m| - c.n..], TimesU(c.enc(zeros))) && States(c, full, xs)
    requires m == [] || |m| % c.n != 0 ==>
      var k := |m| % c.n;
      partial == m[..|m| - k] + Xor(m[|m| - k..] + [0x80] + zeros[k + 1..], TimesU(TimesU(c.enc(zeros)))) && States(c, partial, xs)
    ensures Tag(c, m) == xs[|xs| - 1]
  {
    hide Xor, States, Chain, TimesU, IsTimesX, Tag;
    assert zeros == Zeros(c.n);
    var k := |m| % c.n;
    if m != [] && k == 0 {
      AllButOneBlock(|m|, c.n);
      HeadLenUnique(|m| - c.n, c.n, c.n);
      TagOfSplit(c, m, |m| - c.n);
      LastState(c, full, xs);
    } else {
      PartialHead(|m|, c.n);
      TagOfSplit(c, m, |m| - k);
      assert zeros[k + 1..] == Zeros(c.n - k - 1);
      LastState(c, partial, xs);
    }
  }

  lemma TagOfSplit(c: BlockCipher, m: seq<bv8>, h: nat)
    requires MacCipher(c) && h == HeadLen(|m|, c.n) <= |m| && h % c.n == 0 && |m| - h <= c.n
    ensures |m[..h] + LastBlock(c, m[h..])| % c.n == 0 && Tag(c, m) == Chain(c, m[..h] + LastBlock(c, m[h..]))
  {
    hide Xor, Chain, LastBlock;
    ChainStep(c, m[..h], LastBlock(c, m[h..]));
  }

  lemma PartialHead(k: nat, n: nat)
    requires n > 0 && (k == 0 || k % n != 0)
    ensures k % n <= k && (k - k % n) % n == 0 && HeadLen(k, n) == k - k % n
  {
    var q := QuotRem(k, n);
    MulPos(q.0, n);
    DivModUnique(q.0 * n, n, q.0, 0);
    HeadLenUnique(k - k % n, k % n, n);
  }

  // ---------------------------------------------------------------- the context

  /** cmac_xor_block, with input1 read from off on. */
  method CmacXorBlock(output: array<bv8>, input1: array<bv8>, off: nat, input2: array<bv8>)
    requires output.Length == input2.Length && off + output.Length <= input1.Length && (output != input1 || off == 0)
    modifies output
    ensures output[..] == Xor(old(input1[off..off + output.Length]), old(input2[..]))
  {
    for i := 0 to output.Length
      invariant forall k :: 0 <= k < i ==> output[k] == old(input1[off + k]) ^ old(input2[k])
      invariant forall k :: i <= k < output.Length ==> output[k] == old(output[k])
    {
      output[i] := input1[off + i] ^ input2[i];
    }
  }

  /** `state ^= block; state = E(state)`. */
  method AbsorbBlock(c: BlockCipher, state: array<bv8>, input: array<bv8>, off: nat, ghost m: seq<bv8>)
    requires MacCipher(c) && state.Length == c.n && off + c.n <= input.Length && state != input
    requires Absorbed(c, m, state[..])
    modifies state
    ensures Absorbed(c, m + input[off..off + c.n], state[..])
  {
    ChainStep(c, m, input[off..off + c.n]);
    CmacXorBlock(state, input, off, state);
    Store(state, c.enc(state[..]));
  }

  method CmacPad(padded: array<bv8>, last: array<bv8>, lastLen: nat)
    requires lastLen < padded.Length == last.Length && padded != last
    modifies padded
    ensures padded[..] == Padded(last[..lastLen], padded.Length)
  {
    for j := 0 to padded.Length
      invariant forall k :: 0 <= k < j ==> padded[k] == if k < lastLen then last[k] else if k == lastLen then 0x80 else 0
    {
      if j < lastLen {
        padded[j] := last[j];
      } else if j == lastLen {
        padded[j] := 0x80;
      } else {
        padded[j] := 0;
      }
    }
  }

  /** mbedtls_cmac_context_t inside its cipher context. fed is the message so far. */
  class Context {
    const c: BlockCipher
    const state: array<bv8>
    const unprocessed: array<bv8>
    var unprocessedLen: nat
    ghost var fed: seq<bv8>

    /** The state has absorbed every block but the last, and the buffer holds the last. */
    ghost predicate Valid()
      reads this, state, unprocessed
    {
      && MacCipher(c) && state.Length == unprocessed.Length == c.n && state != unprocessed
      && Held(c, fed, state[..], unprocessed[..], unprocessedLen)
    }

    constructor (c: BlockCipher)
      requires MacCipher(c)
      ensures Valid() && fed == [] && this.c == c && fresh(state) && fresh(unprocessed)
    {
      this.c := c;
      state := new bv8[c.n](_ => 0);
      unprocessed := new bv8[c.n](_ => 0);
      unprocessedLen := 0;
      fed := [];
      new;
      assert state[..] == Zeros(c.n);
      assert fed[..0] == [] && unprocessed[..0] == [];
    }
 
    /** Takes in any number of bytes; the last block seen so far always stays in the buffer. */
    method Update(input: array<bv8>)
      requires Valid() && input != state && input != unprocessed
      modifies this`unprocessedLen, this`fed, state, unprocessed
      ensures Valid() && fed == old(fed) + input[..]
    {
      HeldBounds(c, fed, state[..], unprocessed[..], unprocessedLen);
      hide *;
      ghost var was, text := fed, input[..];
      var pos;
      pos, unprocessedLen := FlushIfFull(c, state, unprocessed, unprocessedLen, input, was, text);
      var ilen := input.Length - pos;
      pos, ilen := AbsorbBlocks(c, state, unprocessedLen > 0 || ilen == 0, input, pos, ilen, was, text);
      if ilen > 0 {
        StoreRest(c, state, unprocessed, unprocessedLen, input, pos, was, text);
        unprocessedLen := unprocessedLen + ilen;
      } else {
        assert was + text == was;
      }
      fed := fed + text;
    }

    /** The tag of everything fed since the last finish or reset; the context is ready for a new message. */
    method Finish(output: array<bv8>)
      requires Valid() && output.Length == c.n && output != state && output != unprocessed
      modifies this`unprocessedLen, this`fed, state, unprocessed, output
      ensures Valid() && fed == []
      ensures output[..] == Tag(c, old(fed))
    {
      hide Held, MacCipher, Chain, Absorbed, Tag, Splice;
      ghost var was := fed;
      FinishState(c, state, unprocessed, unprocessedLen, was);
      WholeBlock(output[..], state[..]);
      assert state[0..c.n] == state[..];
      CopyInto(output, 0, state, 0, c.n);
      Reset();
    }

    method Reset()
      requires MacCipher(c) && state.Length == unprocessed.Length == c.n && state != unprocessed
      modifies this`unprocessedLen, this`fed, state, unprocessed
      ensures Valid() && fed == []
    {
      fed := [];
      unprocessedLen := 0;
      Store(unprocessed, Zeros(c.n));
      Store(state, Zeros(c.n));
      assert fed[..0] == [] && unprocessed[..0] == [];
    }
  }

  lemma WholeBlock(s: seq<bv8>, v: seq<bv8>)
    requires |s| == |v|
    ensures Splice(s, 0, v) == v
  {
  }

  lemma HeldBounds(c: BlockCipher, fed: seq<bv8>, state: seq<bv8>, buffer: seq<bv8>, len: nat)
    requires MacCipher(c) && Held(c, fed, state, buffer, len)
    ensures c.n > 0 && len <= c.n && len <= |fed| && (len == 0 ==> fed == [])
  {
  }

  /** The last memcpy: what was not absorbed joins the buffer. */
  method StoreRest(c: BlockCipher, state: array<bv8>, buffer: array<bv8>, len: nat, input: array<bv8>, pos: nat,
                   ghost fed: seq<bv8>, ghost text: seq<bv8>)
    requires MacCipher(c) && state.Length == buffer.Length == c.n && buffer != input && buffer != state && text == input[..]
    requires pos < input.Length && len + input.Length - pos <= c.n
    requires len == 0 ==> Absorbed(c, fed + text[..pos], state[..])
    requires len > 0 ==> pos == 0 && Held(c, fed, state[..], buffer[..], len)
    modifies buffer
    ensures Held(c, fed + text, state[..], buffer[..], len + input.Length - pos)
  {
    hide Held, Absorbed, MacCipher, Splice;
    ghost var buf := buffer[..];
    CopyInto(buffer, len, input, pos, input.Length - pos);
    assert input[pos..pos + (input.Length - pos)] == text[pos..];
    if len == 0 {
      HoldBack(c, fed, text, pos, state[..], buf);
    } else {
      assert text[0..] == text;
      HoldMore(c, fed, text, state[..], buf, len);
    }
  }

  lemma NothingBuffered(c: BlockCipher, fed: seq<bv8>, state: seq<bv8>, buffer: seq<bv8>, input: seq<bv8>)
    requires MacCipher(c) && Held(c, fed, state, buffer, 0)
    ensures Absorbed(c, fed + input[..0], state)
  {
    assert fed + input[..0] == [];
  }

  /** The bytes left after the whole blocks go into an empty buffer. */
  lemma HoldBack(c: BlockCipher, fed: seq<bv8>, input: seq<bv8>, pos: nat, state: seq<bv8>, buffer: seq<bv8>)
    requires MacCipher(c) && |buffer| == c.n && pos < |input| <= pos + c.n
    requires Absorbed(c, fed + input[..pos], state)
    ensures Held(c, fed + input, state, Splice(buffer, 0, input[pos..]), |input| - pos)
  {
    hide Absorbed, MacCipher;
    var all, k := fed + input, |input| - pos;
    assert all[..|all| - k] == fed + input[..pos];
    assert all[|all| - k..] == input[pos..] == Splice(buffer, 0, input[pos..])[..k];
  }

  /** Input that fits beside what is buffered joins it. */
  lemma HoldMore(c: BlockCipher, fed: seq<bv8>, input: seq<bv8>, state: seq<bv8>, buffer: seq<bv8>, len: nat)
    requires MacCipher(c) && Held(c, fed, state, buffer, len) && 0 < len && len + |input| <= c.n
    ensures Held(c, fed + input, state, Splice(buffer, len, input), len + |input|)
  {
    hide Absorbed, MacCipher;
    var all, k := fed + input, len + |input|;
    assert all[..|all| - k] == fed[..|fed| - len];
    assert all[|all| - k..] == fed[|fed| - len..] + input;
    assert Splice(buffer, len, input)[..k] == buffer[..len] + input;
  }

  /** Fills the buffer and absorbs it. */
  method FlushBuffer(c: BlockCipher, state: array<bv8>, buffer: array<bv8>, len: nat, input: array<bv8>, ghost fed: seq<bv8>)
    requires MacCipher(c) && state.Length == buffer.Length == c.n && state != buffer && input != state && input != buffer
    requires Held(c, fed, state[..], buffer[..], len) && 0 < len && c.n - len < input.Length
    modifies state, buffer
    ensures Absorbed(c, fed + input[..c.n - len], state[..])
  {
    hide MacCipher, Chain, Splice;
    ghost var old_ := buffer[..];
    ghost var done := fed[..|fed| - len];
    SpliceAt(old_, len, input[0..c.n - len]);
    CopyInto(buffer, len, input, 0, c.n - len);
    AbsorbBlock(c, state, buffer, 0, done);
    FilledBuffer(fed, len, old_, input[0..c.n - len]);
    assert buffer[0..c.n] == Splice(old_, len, input[0..c.n - len]);
    assert input[0..c.n - len] == input[..c.n - len];
  }

  /** "Is there data still to process from the last call, that's greater in size than a block?" */
  method FlushIfFull(c: BlockCipher, state: array<bv8>, buffer: array<bv8>, len: nat, input: array<bv8>,
                     ghost fed: seq<bv8>, ghost text: seq<bv8>) returns (pos: nat, rest: nat)
    requires MacCipher(c) && state.Length == buffer.Length == c.n > 0 && state != buffer && input != state && input != buffer
    requires text == input[..] && len <= c.n && Held(c, fed, state[..], buffer[..], len)
    modifies state, buffer
    ensures pos <= input.Length && rest <= c.n && (input.Length > 0 ==> pos < input.Length)
    ensures rest == 0 ==> Absorbed(c, fed + text[..pos], state[..])
    ensures rest > 0 ==> input.Length <= c.n - rest
    ensures rest > 0 || input.Length == 0 ==> pos == 0 && rest == len && Held(c, fed, state[..], buffer[..], len)
  {
    hide *;
    if len > 0 && input.Length > c.n - len {
      FlushBuffer(c, state, buffer, len, input, fed);
      pos, rest := c.n - len, 0;
      assert input[..pos] == text[..pos];
    } else {
      pos, rest := 0, len;
      if len == 0 {
        NothingBuffered(c, fed, state[..], buffer[..], text);
      }
    }
  }

  lemma FilledBuffer(fed: seq<bv8>, len: nat, buffer: seq<bv8>, more: seq<bv8>)
    requires len <= |fed| && len + |more| == |buffer| && fed[|fed| - len..] == buffer[..len]
    ensures fed[..|fed| - len] + Splice(buffer, len, more) == fed + more
  {
    assert fed == fed[..|fed| - len] + fed[|fed| - len..];
    assert Splice(buffer, len, more) == buffer[..len] + more;
  }

  /** Every block but the last, which may be partial or complete; nothing when at most one block is left. */
  method AbsorbBlocks(c: BlockCipher, state: array<bv8>, ghost skip: bool, input: array<bv8>, pos0: nat, ilen0: nat,
                      ghost fed: seq<bv8>, ghost text: seq<bv8>)
    returns (pos: nat, ilen: nat)
    requires MacCipher(c) && state.Length == c.n > 0 && input != state && text == input[..] && pos0 + ilen0 == input.Length
    requires if skip then ilen0 <= c.n else Absorbed(c, fed + text[..pos0], state[..])
    modifies state
    ensures pos + ilen == input.Length && ilen <= c.n && (ilen0 > 0 ==> ilen > 0)
    ensures if skip then pos == pos0 && state[..] == old(state[..]) else Absorbed(c, fed + text[..pos], state[..])
  {
    hide *;
    pos, ilen := pos0, ilen0;
    var n := (ilen + c.n - 1) / c.n;
    BlockCount(ilen, c.n);
    AtMostOne(ilen, n, c.n);
    var j := 1;
    while j < n
      invariant 1 <= j && (n > 0 ==> j <= n) && pos + ilen == input.Length
      invariant Spans(ilen, if n > 0 then n - j + 1 else 0, c.n)
      invariant if skip then pos == pos0 && n <= 1 && state[..] == old(state[..])
        else Absorbed(c, fed + text[..pos], state[..])
    {
      OneLess(ilen, n - j + 1, c.n);
      AppendBlock(fed, text, pos, c.n);
      assert input[pos..pos + c.n] == text[pos..pos + c.n];
      AbsorbBlock(c, state, input, pos, fed + text[..pos]);
      ilen := ilen - c.n;
      pos := pos + c.n;
      j := j + 1;
    }
    AtMostOne(ilen, if n > 0 then n - j + 1 else 0, c.n);
  }

  lemma AppendBlock(fed: seq<bv8>, text: seq<bv8>, pos: nat, n: nat)
    requires pos + n <= |text|
    ensures (fed + text[..pos]) + text[pos..pos + n] == fed + text[..pos + n]
  {
  }

  /** k bytes make up q blocks, the last of them possibly partial. */
  predicate Spans(k: nat, q: nat, n: nat)
  {
    if q == 0 then k == 0 else (q - 1) * n < k <= (q - 1) * n + n
  }

  lemma BlockCount(k: nat, n: nat)
    requires n > 0
    ensures (k + n - 1) / n >= 0 && Spans(k, (k + n - 1) / n, n)
  {
    var q := QuotRem(k + n - 1, n);
    Distr(n, q.0, 1);
  }

  lemma OneLess(k: nat, q: nat, n: nat)
    requires Spans(k, q, n) && 1 < q
    ensures n < k && Spans(k - n, q - 1, n)
  {
    MulMono(1, q - 1, n);
    Distr(n, q - 1, 1);
  }

  lemma AtMostOne(k: nat, q: nat, n: nat)
    requires Spans(k, q, n)
    ensures q <= 1 <==> k <= n
    ensures q == 0 <==> k == 0
  {
    if q > 1 {
      MulMono(1, q - 1, n);
    }
  }

  ghost predicate Held(c: BlockCipher, fed: seq<bv8>, state: seq<bv8>, buffer: seq<bv8>, len: nat)
    requires MacCipher(c)
  {
    && |buffer| == c.n && len <= c.n && len <= |fed| && (len == 0 ==> fed == [])
    && fed[|fed| - len..] == buffer[..len]
    && Absorbed(c, fed[..|fed| - len], state)
  }

  /** state is the chaining value after the whole blocks of m. */
  ghost predicate Absorbed(c: BlockCipher, m: seq<bv8>, state: seq<bv8>)
    requires MacCipher(c)
  {
    |m| % c.n == 0 && state == Chain(c, m)
  }

  // ---------------------------------------------------------------- finishing

  lemma EncLength(c: BlockCipher, b: seq<bv8>)
    requires MacCipher(c) && |b| == c.n
    ensures |c.enc(b)| == c.n
  {
  }

  lemma BlockSizes(c: BlockCipher)
    requires MacCipher(c)
    ensures c.n == 8 || c.n == 16
  {
  }

  /** cmac_generate_subkeys. */
  method Subkeys(c: BlockCipher) returns (k1: array<bv8>, k2: array<bv8>)
    requires MacCipher(c)
    ensures fresh(k1) && fresh(k2) && k1 != k2 && k1[..] == K1(c) && k2[..] == K2(c)
  {
    BlockSizes(c);
    EncLength(c, Zeros(c.n));
    hide TimesU, MacCipher, Rn;
    var l := new bv8[c.n];
    Store(l, Zeros(c.n));
    Store(l, c.enc(l[..]));
    k1 := new bv8[c.n];
    var ok := MultiplyByU(k1, l);
    k2 := new bv8[c.n];
    ok := MultiplyByU(k2, k1);
  }

  /** M_last. */
  method MakeLast(c: BlockCipher, buffer: array<bv8>, len: nat) returns (last: array<bv8>)
    requires MacCipher(c) && buffer.Length == c.n && len <= c.n
    ensures fresh(last) && last[..] == LastBlock(c, buffer[..len])
  {
    hide K1, K2, MacCipher, Padded, Xor;
    var k1, k2 := Subkeys(c);
    last := new bv8[c.n];
    if len < c.n {
      CmacPad(last, buffer, len);
      assert last[0..c.n] == last[..];
      CmacXorBlock(last, last, 0, k2);
    } else {
      assert buffer[0..c.n] == buffer[..len];
      CmacXorBlock(last, buffer, 0, k1);
    }
  }

  /** The state becomes the tag. */
  method FinishState(c: BlockCipher, state: array<bv8>, buffer: array<bv8>, len: nat, ghost fed: seq<bv8>)
    requires MacCipher(c) && state.Length == buffer.Length == c.n && state != buffer
    requires Held(c, fed, state[..], buffer[..], len)
    modifies state
    ensures state[..] == Tag(c, fed)
  {
    hide *;
    HeldTag(c, fed, state[..], buffer[..], len);
    assert buffer[..][..len] == buffer[..len];
    var last := MakeLast(c, buffer, len);
    assert last[0..c.n] == last[..];
    CmacXorBlock(state, last, 0, state);
    Encrypt(c, state);
  }

  method Encrypt(c: BlockCipher, state: array<bv8>)
    requires MacCipher(c) && state.Length == c.n
    modifies state
    ensures state[..] == c.enc(old(state[..]))
  {
    Store(state, c.enc(state[..]));
  }

  /** What is held determines the tag. */
  lemma HeldTag(c: BlockCipher, fed: seq<bv8>, state: seq<bv8>, buffer: seq<bv8>, len: nat)
    requires MacCipher(c) && Held(c, fed, state, buffer, len)
    ensures len <= c.n == |buffer| == |state| && Tag(c, fed) == c.enc(Xor(LastBlock(c, buffer[..len]), state))
  {
    hide LastBlock, Chain, Xor;
    HeadLenUnique(|fed| - len, len, c.n);
  }

  /** Whatever the calls were, the same message leaves the same context: the split cannot show in the tag. */
  lemma SplitLeavesNoTrace(c: BlockCipher, fed: seq<bv8>, state: seq<bv8>, buffer: seq<bv8>, len: nat,
                           state': seq<bv8>, buffer': seq<bv8>, len': nat)
    requires MacCipher(c) && Held(c, fed, state, buffer, len) && Held(c, fed, state', buffer', len')
    ensures len == len' == |fed| - HeadLen(|fed|, c.n) && state == state' && buffer[..len] == buffer'[..len']
  {
    hide Chain, Held;
    HeldIs(c, fed, state, buffer, len);
    HeldIs(c, fed, state', buffer', len');
  }

  lemma HeldIs(c: BlockCipher, fed: seq<bv8>, state: seq<bv8>, buffer: seq<bv8>, len: nat)
    requires MacCipher(c) && Held(c, fed, state, buffer, len)
    ensures len == |fed| - HeadLen(|fed|, c.n) && len <= |buffer| && HeadLen(|fed|, c.n) % c.n == 0
    ensures state == Chain(c, fed[..HeadLen(|fed|, c.n)]) && buffer[..len] == fed[HeadLen(|fed|, c.n)..]
  {
    hide Chain;
    HeadLenUnique(|fed| - len, len, c.n);
  }

  /** mbedtls_cipher_cmac after the key is set. */
  method OneShot(c: BlockCipher, input: array<bv8>, output: array<bv8>)
    requires MacCipher(c) && output.Length == c.n
    modifies output
    ensures output[..] == Tag(c, old(input[..]))
  {
    hide *;
    var ctx := new Context(c);
    ghost var text := input[..];
    ctx.Update(input);
    assert ctx.fed == text;
    ctx.Finish(output);
  }
}
