/** Blowfish: sixteen Feistel rounds for any subkeys and S-boxes. */
module Blowfish {
  import opened Blocks
  import opened Octets
  import opened Words32

  const ROUNDS: nat := 16

  /** mbedtls_blowfish_context: 18 subkeys and four S-boxes, whatever they hold. */
  datatype Context = Context(P: seq<bv32>, S0: seq<bv32>, S1: seq<bv32>, S2: seq<bv32>, S3: seq<bv32>)
  {
    ghost predicate Ok() { |P| == ROUNDS + 2 && |S0| == |S1| == |S2| == |S3| == 256 }
  }

  function Entry(s: seq<bv32>, b: bv8): bv32
    requires |s| == 256
  {
    ValueByte(b);
    s[Value(b)]
  }

  /** uint32_t addition. */
  function Add32(x: bv32, y: bv32): bv32
  {
    x + y
  }

  /** ((S0[a] + S1[b]) ^ S2[c]) + S3[d] of the four bytes of x. */
  function F(c: Context, x: bv32): bv32
    requires c.Ok()
  {
    Add32(Xor32(Add32(Entry(c.S0, Top8(x)), Entry(c.S1, Upper8(x))), Entry(c.S2, Lower8(x))), Entry(c.S3, Low8(x)))
  }

  /** The function F of Blowfish on the word whose bytes are a, b, c and d, first to last. */
  lemma FOfBytes(ctx: Context, a: bv8, b: bv8, c: bv8, d: bv8)
    requires ctx.Ok()
    ensures F(ctx, GetBE(a, b, c, d)) ==
            Add32(Xor32(Add32(Entry(ctx.S0, a), Entry(ctx.S1, b)), Entry(ctx.S2, c)), Entry(ctx.S3, d))
  {
    hide GetBE, Top8, Upper8, Lower8, Low8, Xor32, Add32, Entry;
    BytesOfWord(a, b, c, d);
  }

  /** One pass of the loop: mix in a subkey, combine, swap. */
  function Round(c: Context, k: bv32, p: Pair): Pair
    requires c.Ok()
  {
    Pair(Xor32(F(c, Xor32(p.l, k)), p.r), Xor32(p.l, k))
  }

  /** The halves after n rounds under subkeys ks[0], ks[1], ... */
  function Rounds(c: Context, ks: seq<bv32>, p: Pair, n: nat): Pair
    requires c.Ok() && n <= |ks|
  {
    if n == 0 then p else Round(c, ks[n - 1], Rounds(c, ks, p, n - 1))
  }

  /** The cipher under a sequence of 18 subkeys: the last swap is undone, and the last two keys whiten. */
  function Crypt(c: Context, ks: seq<bv32>, p: Pair): Pair
    requires c.Ok() && |ks| == ROUNDS + 2
  {
    var q := Rounds(c, ks, p, ROUNDS);
    Pair(Xor32(q.r, ks[ROUNDS + 1]), Xor32(q.l, ks[ROUNDS]))
  }

  function Backward(ks: seq<bv32>): (r: seq<bv32>)
    ensures |r| == |ks|
  {
    seq(|ks|, i requires 0 <= i < |ks| => ks[|ks| - 1 - i])
  }

  lemma BackwardTwice(ks: seq<bv32>)
    ensures Backward(Backward(ks)) == ks
  {
  }

  /** What round i makes of the left half becomes the next right half; r(17) is the whitened left half. */
  function RightAfter(c: Context, ks: seq<bv32>, p: Pair, i: nat): bv32
    requires c.Ok() && |ks| == ROUNDS + 2 && i <= ROUNDS + 1
  {
    if i == 0 then p.r else Xor32(Rounds(c, ks, p, i - 1).l, ks[i - 1])
  }

  lemma RightIs(c: Context, ks: seq<bv32>, p: Pair, i: nat)
    requires c.Ok() && |ks| == ROUNDS + 2 && i <= ROUNDS
    ensures Rounds(c, ks, p, i).r == RightAfter(c, ks, p, i)
  {
    hide F, Xor32;
  }

  /** The two halves of round i, recovered from the next two right halves. */
  lemma LeftIs(c: Context, ks: seq<bv32>, p: Pair, i: nat)
    requires c.Ok() && |ks| == ROUNDS + 2 && i < ROUNDS
    ensures Xor32(F(c, RightAfter(c, ks, p, i + 1)), RightAfter(c, ks, p, i + 2))
      == Xor32(RightAfter(c, ks, p, i), ks[i + 1])
  {
    hide F, Xor32;
    RightIs(c, ks, p, i);
    var f, r := F(c, RightAfter(c, ks, p, i + 1)), RightAfter(c, ks, p, i);
    assert Rounds(c, ks, p, i + 1).l == Xor32(f, r);
    assert RightAfter(c, ks, p, i + 2) == Xor32(Xor32(f, r), ks[i + 1]);
    Assoc32(f, r, ks[i + 1]);
    Swap32(f, Xor32(r, ks[i + 1]));
    Swap32(f, Xor32(Xor32(r, ks[i + 1]), f));
    Cancel(Xor32(r, ks[i + 1]), f);
  }

  /** Running the subkeys backward retraces the right halves. */
  lemma {:induction false} Retrace(c: Context, ks: seq<bv32>, p: Pair, n: nat)
    requires c.Ok() && |ks| == ROUNDS + 2 && n <= ROUNDS
    ensures Rounds(c, Backward(ks), Crypt(c, ks, p), n) ==
      Pair(Xor32(RightAfter(c, ks, p, ROUNDS - n), ks[ROUNDS + 1 - n]), RightAfter(c, ks, p, ROUNDS + 1 - n))
  {
    hide F, Xor32;
    if n == 0 {
      RightIs(c, ks, p, ROUNDS);
    } else {
      Retrace(c, ks, p, n - 1);
      var i := ROUNDS + 1 - n;
      Cancel(RightAfter(c, ks, p, i), ks[i + 1]);
      LeftIs(c, ks, p, i - 1);
    }
  }

  /** Whatever the subkeys and S-boxes, the same cipher with the subkeys backward undoes it. */
  lemma BackwardUndoes(c: Context, ks: seq<bv32>, p: Pair)
    requires c.Ok() && |ks| == ROUNDS + 2
    ensures Crypt(c, Backward(ks), Crypt(c, ks, p)) == p
  {
    hide F, Xor32;
    Retrace(c, ks, p, ROUNDS);
    Cancel(p.r, ks[1]);
    Cancel(p.l, ks[0]);
  }

  // ---------------------------------------------------------------- the code

  /** blowfish_enc. */
  method Enc(c: Context, p: Pair) returns (q: Pair)
    requires c.Ok()
    ensures q == Crypt(c, c.P, p)
  {
    hide F, Xor32;
    var Xl, Xr := p.l, p.r;
    for i := 0 to ROUNDS
      invariant Pair(Xl, Xr) == Rounds(c, c.P, p, i)
    {
      Xl := Xor32(Xl, c.P[i]);
      Xr := Xor32(F(c, Xl), Xr);
      Xl, Xr := Xr, Xl;
    }
    Xl, Xr := Xr, Xl;
    Xr := Xor32(Xr, c.P[ROUNDS]);
    Xl := Xor32(Xl, c.P[ROUNDS + 1]);
    return Pair(Xl, Xr);
  }

  /** blowfish_dec: the subkeys are taken from the last down. */
  method Dec(c: Context, p: Pair) returns (q: Pair)
    requires c.Ok()
    ensures q == Crypt(c, Backward(c.P), p)
  {
    hide F, Xor32;
    var Xl, Xr := p.l, p.r;
    var i := ROUNDS + 1;
    while i > 1
      invariant 1 <= i <= ROUNDS + 1
      invariant Pair(Xl, Xr) == Rounds(c, Backward(c.P), p, ROUNDS + 1 - i)
    {
      Xl := Xor32(Xl, c.P[i]);
      Xr := Xor32(F(c, Xl), Xr);
      Xl, Xr := Xr, Xl;
      i := i - 1;
    }
    Xl, Xr := Xr, Xl;
    Xr := Xor32(Xr, c.P[1]);
    Xl := Xor32(Xl, c.P[0]);
    return Pair(Xl, Xr);
  }

  /** mbedtls_blowfish_crypt_ecb; output may be input. */
  method CryptEcb(c: Context, decrypt: bool, input: array<bv8>, output: array<bv8>)
    requires c.Ok() && input.Length == output.Length == 8
    modifies output
    ensures output[..] == BytesOfPair(Crypt(c, if decrypt then Backward(c.P) else c.P, PairOf(old(input[..]))))
  {
    hide GetBE, Top8, Upper8, Lower8, Low8, Crypt, Backward;
    var p := PairOf(input[..]);
    if decrypt {
      p := Dec(c, p);
    } else {
      p := Enc(c, p);
    }
    Store(output, BytesOfPair(p));
  }

  function BlockCrypted(c: Context, ks: seq<bv32>, b: seq<bv8>): seq<bv8>
    requires c.Ok() && |ks| == ROUNDS + 2
  {
    if |b| == 8 then BytesOfPair(Crypt(c, ks, PairOf(b))) else b
  }

  function CipherUnder(c: Context): BlockCipher
    requires c.Ok()
  {
    BlockCipher(8, b => BlockCrypted(c, c.P, b), b => BlockCrypted(c, Backward(c.P), b))
  }

  /** Blowfish is a permutation of the 64-bit blocks for every content of its context. */
  lemma BlowfishIsAPermutation(c: Context)
    requires c.Ok()
    ensures CipherUnder(c).Permutation()
  {
    hide Crypt, Backward, PairOf, BytesOfPair;
    var k := CipherUnder(c);
    forall b: seq<bv8> | |b| == 8
      ensures |k.enc(b)| == 8 && |k.dec(b)| == 8 && k.dec(k.enc(b)) == b && k.enc(k.dec(b)) == b
    {
      PairBytes(b);
      BytesPair(Crypt(c, c.P, PairOf(b)));
      BytesPair(Crypt(c, Backward(c.P), PairOf(b)));
      BackwardUndoes(c, c.P, PairOf(b));
      BackwardTwice(c.P);
      BackwardUndoes(c, Backward(c.P), PairOf(b));
    }
  }
}
