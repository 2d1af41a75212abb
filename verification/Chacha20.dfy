/** ChaCha20 as a stream: leftover keystream, whole blocks, a partial block. */
module Chacha20 {
  import opened Blocks
  import opened Numbers

  const WORD: nat := 0x1_0000_0000

  /** What lies below: the keystream block of a key, a nonce and a counter, and the Poly1305 authenticator. */
  datatype Core = Core(block: (seq<bv8>, seq<bv8>, nat) -> seq<bv8>, mac: (seq<bv8>, seq<bv8>) -> seq<bv8>)
  {
    ghost predicate Ok()
    {
      && (forall key, nonce, ctr {:trigger block(key, nonce, ctr)} :: |block(key, nonce, ctr)| == 64)
      && (forall key, m {:trigger mac(key, m)} :: |mac(key, m)| == 16)
    }
  }

  /** The keystream a key and a nonce give from a first counter on. */
  datatype Keystream = Keystream(core: Core, key: seq<bv8>, nonce: seq<bv8>, first: nat)

  /** Block q of the keystream; the 32-bit counter wraps. */
  function BlockAt(s: Keystream, q: nat): seq<bv8>
  {
    s.core.block(s.key, s.nonce, (s.first + q) % WORD)
  }

  function KeyByte(s: Keystream, p: nat): bv8
  {
    if p % 64 < |BlockAt(s, p / 64)| then BlockAt(s, p / 64)[p % 64] else 0
  }

  /** Section 2.4 of RFC 7539, from position pos of the stream. */
  function Crypted(s: Keystream, pos: nat, m: seq<bv8>): (r: seq<bv8>)
    ensures |r| == |m|
  {
    seq(|m|, i requires 0 <= i < |m| => m[i] ^ KeyByte(s, pos + i))
  }

  /** Byte i of a text that starts at pos is xored with byte (pos + i) % 64 of the block whose counter is (pos + i) / 64
      after the first. */
  lemma CryptedBytes(s: Keystream, pos: nat, m: seq<bv8>, i: nat)
    requires s.core.Ok() && i < |m|
    ensures |s.core.block(s.key, s.nonce, (s.first + (pos + i) / 64) % 0x1_0000_0000)| == 64
    ensures Crypted(s, pos, m)[i] == m[i] ^ s.core.block(s.key, s.nonce, (s.first + (pos + i) / 64) % 0x1_0000_0000)[(pos + i) % 64]
  {
    var p := pos + i;
    var block := s.core.block(s.key, s.nonce, (s.first + p / 64) % WORD);
    assert |block| == 64 && BlockAt(s, p / 64) == block;
    assert KeyByte(s, p) == block[p % 64];
    hide KeyByte;
  }

  /** Cutting the data does not matter. */
  lemma CryptedConcat(s: Keystream, pos: nat, a: seq<bv8>, b: seq<bv8>)
    ensures Crypted(s, pos, a + b) == Crypted(s, pos, a) + Crypted(s, pos + |a|, b)
  {
    hide KeyByte;
  }

  /** Decryption is encryption. */
  lemma CryptedTwice(s: Keystream, pos: nat, m: seq<bv8>)
    ensures Crypted(s, pos, Crypted(s, pos, m)) == m
  {
    hide KeyByte;
    forall i | 0 <= i < |m|
      ensures (m[i] ^ KeyByte(s, pos + i)) ^ KeyByte(s, pos + i) == m[i]
    {
      ByteXorTwice(m[i], KeyByte(s, pos + i));
    }
  }

  /** The context between calls: used bytes of the current block are spent, and the counter is one ahead of it. */
  ghost predicate InStep(s: Keystream, pos: nat, counter: nat, ks: seq<bv8>, used: nat)
  {
    && s.core.Ok() && |ks| == 64
    && if pos % 64 == 0 then used == 64 && counter == (s.first + pos / 64) % WORD
       else used == pos % 64 && counter == (s.first + pos / 64 + 1) % WORD && ks == BlockAt(s, pos / 64)
  }

  /** Spending one leftover byte. */
  lemma SpendByte(s: Keystream, pos: nat, counter: nat, ks: seq<bv8>, used: nat)
    requires InStep(s, pos, counter, ks, used) && used < 64
    ensures ks[used] == KeyByte(s, pos) && InStep(s, pos + 1, counter, ks, used + 1)
  {
    DivStep(pos);
  }

  lemma UsedBound(s: Keystream, pos: nat, counter: nat, ks: seq<bv8>, used: nat)
    requires InStep(s, pos, counter, ks, used)
    ensures used <= 64
  {
  }

  lemma DivStep(pos: nat)
    ensures if pos % 64 == 63 then (pos + 1) / 64 == pos / 64 + 1 && (pos + 1) % 64 == 0
      else (pos + 1) / 64 == pos / 64 && (pos + 1) % 64 == pos % 64 + 1
  {
  }

  /** Taking a fresh block and spending n bytes of it. */
  lemma SpendBlock(s: Keystream, pos: nat, counter: nat, ks: seq<bv8>, ks': seq<bv8>, n: nat)
    requires InStep(s, pos, counter, ks, 64) && 0 < n <= 64
    requires ks' == s.core.block(s.key, s.nonce, counter)
    ensures |ks'| == 64 && forall i :: 0 <= i < n ==> ks'[i] == KeyByte(s, pos + i)
    ensures InStep(s, pos + n, (counter + 1) % WORD, ks', n)
  {
    var q := pos / 64;
    assert pos % 64 == 0 && pos == 64 * q;
    assert (s.first + q) % WORD == counter;
    CounterStep(s.first + q);
    forall i | 0 <= i < n
      ensures ks'[i] == KeyByte(s, pos + i)
    {
      DivModUnique(pos + i, 64, q, i);
    }
    if n < 64 {
      DivModUnique(pos + n, 64, q, n);
    } else {
      DivModUnique(pos + n, 64, q + 1, 0);
    }
  }

  lemma CounterStep(c: nat)
    ensures (c % WORD + 1) % WORD == (c + 1) % WORD
  {
  }

  /** mbedtls_chacha20_context. pos is how much has been processed since the start. */
  class Context {
    const core: Core
    const key: seq<bv8>
    const keystream8: array<bv8>
    var nonce: seq<bv8>
    var counter: nat
    var used: nat
    ghost var first: nat
    ghost var pos: nat

    ghost function Stream(): Keystream
      reads this
    {
      Keystream(core, key, nonce, first)
    }

    ghost predicate Valid()
      reads this, keystream8
    {
      keystream8.Length == 64 && InStep(Stream(), pos, counter, keystream8[..], used)
    }

    constructor (core: Core, key: seq<bv8>)
      requires core.Ok()
      ensures Valid() && this.core == core && this.key == key && fresh(keystream8)
    {
      this.core, this.key := core, key;
      keystream8 := new bv8[64](_ => 0);
      nonce := [];
      counter, used, first, pos := 0, 64, 0, 0;
    }

    method Starts(nonce: seq<bv8>, counter: nat)
      requires keystream8.Length == 64 && core.Ok() && counter < WORD
      modifies this, keystream8
      ensures Valid() && Stream() == Keystream(core, key, nonce, counter) && pos == 0
    {
      this.counter := counter;
      this.nonce := nonce;
      Store(keystream8, seq(64, _ => 0));
      used := 64;
      first := counter;
      pos := 0;
    }

    /** mbedtls_chacha20_update; the output may be the input buffer. */
    method Update(input: array<bv8>, output: array<bv8>)
      requires Valid() && input.Length == output.Length
      requires input != keystream8 && output != keystream8
      modifies this`counter, this`used, this`pos, keystream8, output
      ensures Valid() && pos == old(pos) + input.Length && Stream() == old(Stream())
      ensures output[..] == Crypted(Stream(), old(pos), old(input[..]))
    {
      hide InStep, KeyByte, Crypted, Written, Rest;
      ghost var text, s, p := input[..], Stream(), pos;
      var offset;
      offset, used := UseLeftover(s, p, text, counter, keystream8, used, input, output);
      offset, counter := WholeBlocks(core, key, nonce, s, p, text, counter, used, keystream8, input, output, offset);
      var size := input.Length - offset;
      if size > 0 {
        counter := XorBlock(core, key, nonce, s, p, text, counter, keystream8, input, output, offset, size);
        used := size;
      }
      pos := pos + input.Length;
      AllWritten(s, p, text, output[..]);
    }
  }

  /** From offset on, the input has not been overwritten. */
  ghost predicate Rest(inp: seq<bv8>, text: seq<bv8>, offset: nat)
  {
    offset <= |inp| == |text| && inp[offset..] == text[offset..]
  }

  lemma RestStep(inp: seq<bv8>, text: seq<bv8>, offset: nat, x: bv8)
    requires Rest(inp, text, offset) && offset < |inp|
    ensures inp[offset] == text[offset]
    ensures Rest(inp, text, offset + 1) && Rest(inp[offset := x], text, offset + 1)
  {
    assert inp[offset..][0] == text[offset..][0];
    assert inp[offset..][1..] == inp[offset + 1..] && text[offset..][1..] == text[offset + 1..];
    assert inp[offset := x][offset + 1..] == inp[offset + 1..];
  }

  lemma WrittenStep(s: Keystream, pos: nat, text: seq<bv8>, out: seq<bv8>, offset: nat, kb: bv8)
    requires Written(s, pos, text, out, offset) && offset < |text| && kb == KeyByte(s, pos + offset)
    ensures Written(s, pos, text, out[offset := text[offset] ^ kb], offset + 1)
  {
    hide KeyByte;
    var out' := out[offset := text[offset] ^ kb];
    CryptedConcat(s, pos, text[..offset], [text[offset]]);
    assert text[..offset + 1] == text[..offset] + [text[offset]];
    assert out'[..offset + 1] == out[..offset] + [text[offset] ^ kb];
    assert Crypted(s, pos + offset, [text[offset]]) == [text[offset] ^ kb];
  }

  /** `output[offset] = input[offset] ^ kb`. */
  method CryptByte(ghost s: Keystream, ghost pos: nat, ghost text: seq<bv8>, input: array<bv8>, output: array<bv8>,
                   offset: nat, kb: bv8)
    requires offset < input.Length == output.Length == |text| && kb == KeyByte(s, pos + offset)
    requires Written(s, pos, text, output[..], offset) && Rest(input[..], text, offset)
    modifies output
    ensures Written(s, pos, text, output[..], offset + 1) && Rest(input[..], text, offset + 1)
  {
    WrittenStep(s, pos, text, output[..], offset, kb);
    RestStep(input[..], text, offset, text[offset] ^ kb);
    hide *;
    ghost var out, inp := output[..], input[..];
    output[offset] := input[offset] ^ kb;
    assert output[..] == out[offset := text[offset] ^ kb];
    assert input[..] == if input == output then inp[offset := text[offset] ^ kb] else inp;
  }

  lemma AllWritten(s: Keystream, pos: nat, text: seq<bv8>, out: seq<bv8>)
    requires Written(s, pos, text, out, |text|)
    ensures out == Crypted(s, pos, text)
  {
    assert out[..|text|] == out && text[..|text|] == text;
  }

  lemma NothingWritten(s: Keystream, pos: nat, text: seq<bv8>, out: seq<bv8>)
    requires |out| == |text|
    ensures Written(s, pos, text, out, 0) && Rest(text, text, 0)
  {
  }

  /** "Use leftover keystream bytes, if available". */
  method UseLeftover(ghost s: Keystream, ghost pos: nat, ghost text: seq<bv8>, ghost counter: nat, ks: array<bv8>, used0: nat,
                     input: array<bv8>, output: array<bv8>) returns (offset: nat, used: nat)
    requires ks.Length == 64 && input.Length == output.Length && input != ks && output != ks && text == input[..]
    requires InStep(s, pos, counter, ks[..], used0)
    modifies output
    ensures offset <= input.Length && used <= 64 && (offset < input.Length ==> used == 64)
    ensures InStep(s, pos + offset, counter, ks[..], used)
    ensures Written(s, pos, text, output[..], offset) && Rest(input[..], text, offset)
  {
    UsedBound(s, pos, counter, ks[..], used0);
    hide InStep, KeyByte, Core.Ok;
    NothingWritten(s, pos, text, output[..]);
    hide Written, Rest;
    offset, used := 0, used0;
    while offset < input.Length && used < 64
      invariant 0 <= offset <= input.Length && used <= 64
      invariant InStep(s, pos + offset, counter, ks[..], used)
      invariant Written(s, pos, text, output[..], offset) && Rest(input[..], text, offset)
    {
      SpendByte(s, pos + offset, counter, ks[..], used);
      CryptByte(s, pos, text, input, output, offset, ks[used]);
      used := used + 1;
      offset := offset + 1;
    }
  }

  /** "Process full blocks". */
  method WholeBlocks(core: Core, key: seq<bv8>, nonce: seq<bv8>, ghost s: Keystream, ghost pos: nat, ghost text: seq<bv8>,
                     counter0: nat, ghost used: nat, ks: array<bv8>, input: array<bv8>, output: array<bv8>, offset0: nat)
    returns (offset: nat, counter: nat)
    requires ks.Length == 64 && offset0 <= input.Length == output.Length == |text| && input != ks && output != ks
    requires s.core == core && s.key == key && s.nonce == nonce
    requires offset0 < input.Length ==> used == 64
    requires InStep(s, pos + offset0, counter0, ks[..], used)
    requires Written(s, pos, text, output[..], offset0) && Rest(input[..], text, offset0)
    modifies ks, output
    ensures offset0 <= offset <= input.Length && input.Length - offset < 64
    ensures InStep(s, pos + offset, counter, ks[..], used)
    ensures Written(s, pos, text, output[..], offset) && Rest(input[..], text, offset)
  {
    hide *;
    offset, counter := offset0, counter0;
    while input.Length - offset >= 64
      invariant offset0 <= offset <= input.Length
      invariant InStep(s, pos + offset, counter, ks[..], used)
      invariant Written(s, pos, text, output[..], offset) && Rest(input[..], text, offset)
    {
      counter := XorBlock(core, key, nonce, s, pos, text, counter, ks, input, output, offset, 64);
      offset := offset + 64;
    }
  }

  /** The first offset bytes of the output are what they should be. */
  ghost predicate Written(s: Keystream, pos: nat, text: seq<bv8>, out: seq<bv8>, offset: nat)
  {
    offset <= |out| == |text| && out[..offset] == Crypted(s, pos, text[..offset])
  }

  /** A fresh keystream block, spent on n bytes. */
  method XorBlock(core: Core, key: seq<bv8>, nonce: seq<bv8>, ghost s: Keystream, ghost pos: nat, ghost text: seq<bv8>,
                  counter: nat, ks: array<bv8>, input: array<bv8>, output: array<bv8>, offset: nat, n: nat) returns (next: nat)
    requires ks.Length == 64 && 0 < n <= 64 && offset + n <= input.Length == output.Length == |text| && input != ks && output != ks
    requires s.core == core && s.key == key && s.nonce == nonce
    requires InStep(s, pos + offset, counter, ks[..], 64)
    requires Written(s, pos, text, output[..], offset) && Rest(input[..], text, offset)
    modifies ks, output
    ensures InStep(s, pos + offset + n, next, ks[..], n)
    ensures Written(s, pos, text, output[..], offset + n) && Rest(input[..], text, offset + n)
  {
    hide KeyByte;
    SpendBlock(s, pos + offset, counter, ks[..], core.block(key, nonce, counter), n);
    Store(ks, core.block(key, nonce, counter));
    next := (counter + 1) % WORD;
    hide InStep, Core.Ok, Written, Rest;
    for i := 0 to n
      invariant Written(s, pos, text, output[..], offset + i) && Rest(input[..], text, offset + i)
      invariant ks[..] == old(core.block(key, nonce, counter))
    {
      CryptByte(s, pos, text, input, output, offset + i, ks[i]);
    }
  }
}
