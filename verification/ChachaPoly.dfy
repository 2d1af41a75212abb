/** ChaCha20-Poly1305: a four-state context that feeds the authenticator section 2.8's byte string, however
    the data arrives. */
module ChachaPoly {
  import opened Blocks
  import opened Numbers
  import Chacha20
  import Octets
  import Padding

  const LIMIT: nat := 0x1_0000_0000_0000_0000

  datatype State = Init | Aad | Ciphertext | Finished

  datatype Ret = Success | BadState | AuthFailed

  /** Poly1305 by contract: it gathers bytes under a one-time key until it is asked for the tag. */
  datatype Poly = Poly(key: seq<bv8>, fed: seq<bv8>)
  {
    function Updated(m: seq<bv8>): Poly { Poly(key, fed + m) }
  }

  function Zeros(n: nat): (r: seq<bv8>)
    ensures |r| == n
  {
    seq(n, _ => 0)
  }

  /** padding1 and padding2 of section 2.8 of RFC 7539. */
  function Pad(n: nat): seq<bv8>
  {
    if n % 16 == 0 then [] else Zeros(16 - n % 16)
  }

  /** The k low bytes of n, lowest first. */
  function LeBytes(n: nat, k: nat): (r: seq<bv8>)
    ensures |r| == k
  {
    if k == 0 then [] else [Octets.Byte(n % 256)] + LeBytes(n / 256, k - 1)
  }

  /** num_to_8_le_bytes. */
  function LenBytes(n: nat): (r: seq<bv8>)
    ensures |r| == 8
  {
    LeBytes(n, 8)
  }

  lemma {:induction false} LeBytesTell(n: nat, n': nat, k: nat)
    requires n < Pow(256, k) && n' < Pow(256, k) && LeBytes(n, k) == LeBytes(n', k)
    ensures n == n'
  {
    if k > 0 {
      hide Octets.Byte, Octets.Value;
      Octets.ByteValue(n % 256);
      Octets.ByteValue(n' % 256);
      assert LeBytes(n, k)[0] == LeBytes(n', k)[0];
      assert LeBytes(n, k)[1..] == LeBytes(n / 256, k - 1) && LeBytes(n', k)[1..] == LeBytes(n' / 256, k - 1);
      LeBytesTell(n / 256, n' / 256, k - 1);
    }
  }

  /** mac_data of section 2.8 of RFC 7539. */
  function MacData(aad: seq<bv8>, ct: seq<bv8>): seq<bv8>
  {
    aad + Pad(|aad|) + ct + Pad(|ct|) + LenBytes(Wrap(|aad|)) + LenBytes(Wrap(|ct|))
  }

  /** The framing is unambiguous: below 2^64 bytes, no two pairs of texts are authenticated alike. */
  lemma MacDataTells(aad: seq<bv8>, ct: seq<bv8>, aad': seq<bv8>, ct': seq<bv8>)
    requires |aad| < LIMIT && |ct| < LIMIT && |aad'| < LIMIT && |ct'| < LIMIT
    requires MacData(aad, ct) == MacData(aad', ct')
    ensures aad == aad' && ct == ct'
  {
    SameLengths(aad, ct, aad', ct');
    hide Pad, LenBytes;
    var m, m' := MacData(aad, ct), MacData(aad', ct');
    assert m[..|aad|] == aad && m'[..|aad|] == aad';
    var k := |aad + Pad(|aad|)|;
    assert m[k..k + |ct|] == ct && m'[k..k + |ct|] == ct';
  }

  lemma SameLengths(aad: seq<bv8>, ct: seq<bv8>, aad': seq<bv8>, ct': seq<bv8>)
    requires |aad| < LIMIT && |ct| < LIMIT && |aad'| < LIMIT && |ct'| < LIMIT
    requires MacData(aad, ct) == MacData(aad', ct')
    ensures |aad| == |aad'| && |ct| == |ct'|
  {
    PowLimit();
    hide Pad, LeBytes, Pow;
    var m, m' := MacData(aad, ct), MacData(aad', ct');
    var e := |m|;
    assert m[e - 16..e - 8] == LenBytes(|aad|) && m[e - 8..] == LenBytes(|ct|);
    assert m'[e - 16..e - 8] == LenBytes(|aad'|) && m'[e - 8..] == LenBytes(|ct'|);
    LeBytesTell(|aad|, |aad'|, 8);
    LeBytesTell(|ct|, |ct'|, 8);
  }

  lemma PowLimit()
    ensures Pow(256, 8) == LIMIT
  {
    assert Pow(256, 2) == 0x1_0000;
    PowAdd(256, 2, 2);
    PowAdd(256, 4, 4);
  }

  function StreamOf(core: Chacha20.Core, key: seq<bv8>, nonce: seq<bv8>): Chacha20.Keystream
  {
    Chacha20.Keystream(core, key, nonce, 0)
  }

  /** poly1305_key_gen: the first half of keystream block 0. */
  function PolyKey(s: Chacha20.Keystream): seq<bv8>
  {
    Chacha20.Crypted(s, 0, Zeros(64))[..32]
  }

  /** The ciphertext starts at block 1. */
  function CipherOf(s: Chacha20.Keystream, m: seq<bv8>): (r: seq<bv8>)
    ensures |r| == |m|
  {
    Chacha20.Crypted(s, 64, m)
  }

  function TagOf(s: Chacha20.Keystream, aad: seq<bv8>, ct: seq<bv8>): seq<bv8>
  {
    s.core.mac(PolyKey(s), MacData(aad, ct))
  }

  /** What eight bytes say, lowest first. */
  function LeValue(b: seq<bv8>): nat
  {
    if b == [] then 0 else Octets.Value(b[0]) + 256 * LeValue(b[1..])
  }

  lemma {:induction false} LeBytesBack(b: seq<bv8>)
    ensures LeBytes(LeValue(b), |b|) == b
  {
    if b != [] {
      hide Octets.Byte, Octets.Value;
      LeBytesBack(b[1..]);
      Octets.ValueByte(b[0]);
      DivModUnique(LeValue(b), 256, LeValue(b[1..]), Octets.Value(b[0]));
    }
  }

  /** Zeros up to the next multiple of 16. */
  ghost predicate PadsOut(pad: seq<bv8>, n: nat)
  {
    |pad| < 16 && (n + |pad|) % 16 == 0 && forall k :: 0 <= k < |pad| ==> pad[k] == 0
  }

  lemma PadIs(pad: seq<bv8>, n: nat)
    requires PadsOut(pad, n)
    ensures pad == Pad(n)
  {
    var q := QuotRem(n, 16);
    var z := QuotRem(n + |pad|, 16);
    assert |Pad(n)| == |pad|;
  }

  /** Section 2.8 of RFC 7539: the text is encrypted from keystream block 1 on, and the tag authenticates AAD, zeros,
      ciphertext, zeros and the two lengths under the first half of block 0. */
  lemma SealedAsInRfc(core: Chacha20.Core, key: seq<bv8>, nonce: seq<bv8>, aad: seq<bv8>, m: seq<bv8>,
                      pad1: seq<bv8>, pad2: seq<bv8>, len1: seq<bv8>, len2: seq<bv8>)
    requires core.Ok() && PadsOut(pad1, |aad|) && PadsOut(pad2, |m|)
    requires |len1| == 8 && LeValue(len1) == |aad| % 0x1_0000_0000_0000_0000
    requires |len2| == 8 && LeValue(len2) == |m| % 0x1_0000_0000_0000_0000
    ensures forall k: nat :: |core.block(key, nonce, k)| == 64
    ensures
      var s := StreamOf(core, key, nonce); var ct := CipherOf(s, m);
      && (forall i :: 0 <= i < |m| ==> ct[i] == m[i] ^ core.block(key, nonce, (1 + i / 64) % 0x1_0000_0000)[i % 64])
      && TagOf(s, aad, ct) == core.mac(core.block(key, nonce, 0)[..32], aad + pad1 + ct + pad2 + len1 + len2)
  {
    var s := StreamOf(core, key, nonce);
    PolyKeyIs(core, key, nonce);
    MacDataIs(aad, CipherOf(s, m), pad1, pad2, len1, len2);
    hide PolyKey, MacData, LeValue, CipherOf, PadsOut;
    forall i | 0 <= i < |m|
      ensures CipherOf(s, m)[i] == m[i] ^ core.block(key, nonce, (1 + i / 64) % 0x1_0000_0000)[i % 64]
    {
      CipherByte(core, key, nonce, m, i);
    }
  }

  lemma CipherByte(core: Chacha20.Core, key: seq<bv8>, nonce: seq<bv8>, m: seq<bv8>, i: nat)
    requires core.Ok() && i < |m|
    ensures |core.block(key, nonce, (1 + i / 64) % 0x1_0000_0000)| == 64
    ensures CipherOf(StreamOf(core, key, nonce), m)[i] == m[i] ^ core.block(key, nonce, (1 + i / 64) % 0x1_0000_0000)[i % 64]
  {
    hide Chacha20.Crypted;
    DivModUnique(64 + i, 64, 1 + i / 64, i % 64);
    Chacha20.CryptedBytes(StreamOf(core, key, nonce), 64, m, i);
  }

  lemma MacDataIs(aad: seq<bv8>, ct: seq<bv8>, pad1: seq<bv8>, pad2: seq<bv8>, len1: seq<bv8>, len2: seq<bv8>)
    requires PadsOut(pad1, |aad|) && PadsOut(pad2, |ct|)
    requires |len1| == 8 && LeValue(len1) == |aad| % 0x1_0000_0000_0000_0000
    requires |len2| == 8 && LeValue(len2) == |ct| % 0x1_0000_0000_0000_0000
    ensures MacData(aad, ct) == aad + pad1 + ct + pad2 + len1 + len2
  {
    PadIs(pad1, |aad|);
    PadIs(pad2, |ct|);
    LeBytesBack(len1);
    LeBytesBack(len2);
    hide Pad, LeBytes, LeValue, PadsOut;
  }

  lemma PolyKeyIs(core: Chacha20.Core, key: seq<bv8>, nonce: seq<bv8>)
    requires core.Ok()
    ensures |core.block(key, nonce, 0)| == 64 && PolyKey(StreamOf(core, key, nonce)) == core.block(key, nonce, 0)[..32]
  {
    var s := StreamOf(core, key, nonce);
    var z := Chacha20.Crypted(s, 0, Zeros(64));
    forall i | 0 <= i < 32
      ensures z[i] == core.block(key, nonce, 0)[i]
    {
      Chacha20.CryptedBytes(s, 0, Zeros(64), i);
      ZeroXor(core.block(key, nonce, 0)[i]);
    }
  }

  lemma ZeroXor(x: bv8)
    ensures 0 ^ x == x
  {
  }

  /** What one party encrypts, the other decrypts under the same tag. */
  lemma OpenSealed(s: Chacha20.Keystream, m: seq<bv8>)
    ensures CipherOf(s, CipherOf(s, m)) == m
  {
    Chacha20.CryptedTwice(s, 64, m);
  }

  /** Plaintext and ciphertext stay each other's encryption as either grows. */
  lemma GrowBoth(s: Chacha20.Keystream, pt: seq<bv8>, ct: seq<bv8>, text: seq<bv8>)
    requires ct == CipherOf(s, pt) && pt == CipherOf(s, ct)
    ensures var more := Chacha20.Crypted(s, 64 + |ct|, text);
      && ct + more == CipherOf(s, pt + text) && pt + text == CipherOf(s, ct + more)
      && ct + text == CipherOf(s, pt + more) && pt + more == CipherOf(s, ct + text)
  {
    var more := Chacha20.Crypted(s, 64 + |ct|, text);
    Chacha20.CryptedConcat(s, 64, pt, text);
    Chacha20.CryptedConcat(s, 64, ct, text);
    Chacha20.CryptedConcat(s, 64, pt, more);
    Chacha20.CryptedConcat(s, 64, ct, more);
    Chacha20.CryptedTwice(s, 64 + |ct|, text);
    hide Chacha20.Crypted;
  }

  lemma WrapKeepsPad(n: nat)
    ensures Wrap(n) % 16 == n % 16
  {
    var q := QuotRem(n, LIMIT);
    var r := QuotRem(q.1, 16);
    DivModUnique(n, 16, q.0 * (LIMIT / 16) + r.0, r.1);
  }

  /** A uint64_t. */
  function Wrap(n: nat): nat
  {
    n % LIMIT
  }

  lemma WrapAdd(a: nat, b: nat)
    ensures Wrap(Wrap(a) + b) == Wrap(a + b)
  {
  }

  /** In the middle of a message: what the authenticator has been fed, the lengths kept, and both texts. */
  ghost predicate Mid(s: Chacha20.Keystream, poly: Poly, early: bool, aad: seq<bv8>, ct: seq<bv8>, pt: seq<bv8>,
                      aadLen: nat, ciphertextLen: nat)
  {
    && poly == Poly(PolyKey(s), if early then aad else aad + Pad(|aad|) + ct)
    && aadLen == Wrap(|aad|) && ciphertextLen == Wrap(|ct|)
    && (early ==> ct == [] && pt == [])
    && ct == CipherOf(s, pt) && pt == CipherOf(s, ct)
  }

  lemma PadNothing()
    ensures Pad(0) == []
  {
  }

  lemma TagLength(core: Chacha20.Core, key: seq<bv8>, m: seq<bv8>)
    requires core.Ok()
    ensures |core.mac(key, m)| == 16
  {
  }

  lemma MidStarts(s: Chacha20.Keystream)
    ensures Mid(s, Poly(PolyKey(s), []), true, [], [], [], 0, 0)
  {
  }

  /** More text arrives in either direction. */
  lemma MidMore(s: Chacha20.Keystream, poly: Poly, aad: seq<bv8>, ct: seq<bv8>, pt: seq<bv8>, aadLen: nat,
                ciphertextLen: nat, text: seq<bv8>, more: seq<bv8>)
    requires Mid(s, poly, false, aad, ct, pt, aadLen, ciphertextLen)
    requires more == Chacha20.Crypted(s, 64 + |ct|, text)
    ensures var len := Wrap(ciphertextLen + |text|);
      && |ct + more| == |ct + text| == |ct| + |text|
      && Mid(s, poly.Updated(more), false, aad, ct + more, pt + text, aadLen, len)
      && Mid(s, poly.Updated(text), false, aad, ct + text, pt + more, aadLen, len)
  {
    GrowBoth(s, pt, ct, text);
    WrapAdd(|ct|, |text|);
    hide Chacha20.Crypted, CipherOf, PolyKey, Pad;
    assert aad + Pad(|aad|) + ct + more == aad + Pad(|aad|) + (ct + more);
    assert aad + Pad(|aad|) + ct + text == aad + Pad(|aad|) + (ct + text);
  }

  /** Encrypts a block of zeroes with counter 0; only its first 32 bytes are used. */
  method KeyGen(chacha: Chacha20.Context) returns (key: seq<bv8>)
    requires chacha.Valid() && chacha.pos == 0 && chacha.Stream().first == 0
    modifies chacha, chacha.keystream8
    ensures chacha.Valid() && chacha.pos == 64 && chacha.Stream() == old(chacha.Stream())
    ensures key == PolyKey(chacha.Stream())
  {
    hide Chacha20.Context.Valid, Chacha20.Context.Stream, Chacha20.Crypted;
    var polyKey := new bv8[64];
    Store(polyKey, Zeros(64));
    chacha.Update(polyKey, polyKey);
    assert polyKey[..32] == polyKey[..][..32];
    key := polyKey[..32];
  }

  /** mbedtls_chachapoly_context. */
  class Context {
    const chacha: Chacha20.Context
    var poly: Poly
    var aadLen: nat
    var ciphertextLen: nat
    var state: State
    var encrypt: bool
    ghost var aad: seq<bv8>
    ghost var ct: seq<bv8>
    ghost var pt: seq<bv8>

    ghost predicate Valid()
      reads this, chacha, chacha.keystream8
    {
      && chacha.Valid()
      && (state == Aad || state == Ciphertext ==>
        && Mid(chacha.Stream(), poly, state == Aad, aad, ct, pt, aadLen, ciphertextLen)
        && chacha.pos == 64 + |ct|)
    }

    constructor (core: Chacha20.Core, key: seq<bv8>)
      requires core.Ok()
      ensures Valid() && state == Init && chacha.core == core && chacha.key == key
      ensures fresh(chacha) && fresh(chacha.keystream8)
    {
      chacha := new Chacha20.Context(core, key);
      poly := Poly([], []);
      aadLen, ciphertextLen, state, encrypt := 0, 0, Init, true;
      aad, ct, pt := [], [], [];
    }

    method Starts(nonce: seq<bv8>, encrypt: bool)
      requires Valid()
      modifies this, chacha, chacha.keystream8
      ensures Valid() && state == Aad && aad == [] && ct == [] && pt == [] && this.encrypt == encrypt
      ensures chacha.Stream() == StreamOf(chacha.core, chacha.key, nonce)
    {
      chacha.Starts(nonce, 0);
      hide Chacha20.Context.Valid, Mid, PolyKey;
      aadLen, ciphertextLen, state, this.encrypt := 0, 0, Aad, encrypt;
      aad, ct, pt := [], [], [];
      MidStarts(chacha.Stream());
      var polyKey := KeyGen(chacha);
      poly := Poly(polyKey, []);
    }

    method UpdateAad(data: seq<bv8>) returns (ret: Ret)
      requires Valid()
      modifies this`aadLen, this`poly, this`aad
      ensures Valid()
      ensures ret == if state == Aad then Success else BadState
      ensures aad == if state == Aad then old(aad) + data else old(aad)
    {
      if state != Aad {
        return BadState;
      }
      WrapAdd(|aad|, |data|);
      aadLen := Wrap(aadLen + |data|);
      poly := poly.Updated(data);
      aad := aad + data;
      return Success;
    }

    /** chachapoly_pad_aad. */
    method PadAad()
      requires Valid() && state == Aad
      modifies this`poly
      ensures poly == Poly(PolyKey(chacha.Stream()), aad + Pad(|aad|))
    {
      WrapKeepsPad(|aad|);
      var partialBlockLen := aadLen % 16;
      if partialBlockLen != 0 {
        poly := poly.Updated(Zeros(16 - partialBlockLen));
      }
    }

    /** mbedtls_chachapoly_update; the output may be the input buffer. */
    method Update(input: array<bv8>, output: array<bv8>) returns (ret: Ret)
      requires Valid() && input.Length == output.Length
      requires input != chacha.keystream8 && output != chacha.keystream8
      modifies this`state, this`poly, this`ciphertextLen, this`ct, this`pt, chacha, chacha.keystream8, output
      ensures Valid()
      ensures ret == if old(state) == Aad || old(state) == Ciphertext then Success else BadState
      ensures ret == BadState ==> state == old(state) && output[..] == old(output[..])
      ensures ret == Success ==> state == Ciphertext
      ensures chacha.Stream() == old(chacha.Stream())
      ensures ret == Success && encrypt ==> pt == old(pt) + old(input[..]) && ct == old(ct) + output[..]
      ensures ret == Success && !encrypt ==> ct == old(ct) + old(input[..]) && pt == old(pt) + output[..]
    {
      if state != Aad && state != Ciphertext {
        return BadState;
      }
      if state == Aad {
        PadAad();
        state := Ciphertext;
        assert poly.fed == aad + Pad(|aad|) + ct;
      }
      if encrypt {
        EncryptMore(input, output);
      } else {
        DecryptMore(input, output);
      }
      return Success;
    }

    method EncryptMore(input: array<bv8>, output: array<bv8>)
      requires Valid() && state == Ciphertext && input.Length == output.Length
      requires input != chacha.keystream8 && output != chacha.keystream8
      modifies this`poly, this`ciphertextLen, this`ct, this`pt, chacha, chacha.keystream8, output
      ensures Valid() && chacha.Stream() == old(chacha.Stream())
      ensures pt == old(pt) + old(input[..]) && ct == old(ct) + output[..]
    {
      ghost var text, more := input[..], Chacha20.Crypted(chacha.Stream(), chacha.pos, input[..]);
      MidMore(chacha.Stream(), poly, aad, ct, pt, aadLen, ciphertextLen, text, more);
      hide Chacha20.Crypted, Mid, Chacha20.Context.Valid, Chacha20.Context.Stream, Wrap;
      ciphertextLen := Wrap(ciphertextLen + input.Length);
      ct, pt := ct + more, pt + text;
      chacha.Update(input, output);
      poly := poly.Updated(output[..]);
    }

    method DecryptMore(input: array<bv8>, output: array<bv8>)
      requires Valid() && state == Ciphertext && input.Length == output.Length
      requires input != chacha.keystream8 && output != chacha.keystream8
      modifies this`poly, this`ciphertextLen, this`ct, this`pt, chacha, chacha.keystream8, output
      ensures Valid() && chacha.Stream() == old(chacha.Stream())
      ensures ct == old(ct) + old(input[..]) && pt == old(pt) + output[..]
    {
      ghost var text, more := input[..], Chacha20.Crypted(chacha.Stream(), chacha.pos, input[..]);
      MidMore(chacha.Stream(), poly, aad, ct, pt, aadLen, ciphertextLen, text, more);
      hide Chacha20.Crypted, Mid, Chacha20.Context.Valid, Chacha20.Context.Stream, Wrap;
      ciphertextLen := Wrap(ciphertextLen + input.Length);
      poly := poly.Updated(input[..]);
      ct, pt := ct + text, pt + more;
      chacha.Update(input, output);
    }

    /** mbedtls_chachapoly_finish. Once started it always answers, even when it has already finished. */
    method Finish(mac: array<bv8>) returns (ret: Ret)
      requires Valid() && mac.Length == 16 && mac != chacha.keystream8
      modifies this`state, this`poly, mac
      ensures Valid() && ret == if old(state) == Init then BadState else Success
      ensures state == if old(state) == Init then Init else Finished
      ensures old(state) == Aad || old(state) == Ciphertext ==> mac[..] == TagOf(chacha.Stream(), aad, ct)
    {
      hide Chacha20.Crypted, PolyKey, LenBytes, Wrap, Pad, CipherOf;
      if state == Init {
        return BadState;
      }
      ghost var s, was := chacha.Stream(), state;
      if state == Aad {
        PadAad();
        PadNothing();
        assert poly.fed == aad + Pad(|aad|) + ct + Pad(|ct|);
      } else if state == Ciphertext {
        PadCiphertext();
      }
      state := Finished;
      poly := poly.Updated(LenBytes(aadLen) + LenBytes(ciphertextLen));
      TagLength(chacha.core, poly.key, poly.fed);
      if was != Finished {
        assert poly.fed == MacData(aad, ct);
      }
      Store(mac, chacha.core.mac(poly.key, poly.fed));
      return Success;
    }

    lemma BothTexts()
      requires Valid() && state == Ciphertext
      ensures ct == CipherOf(chacha.Stream(), pt) && pt == CipherOf(chacha.Stream(), ct)
    {
    }

    /** chachapoly_pad_ciphertext. */
    method PadCiphertext()
      requires Valid() && state == Ciphertext
      modifies this`poly
      ensures poly == Poly(PolyKey(chacha.Stream()), aad + Pad(|aad|) + ct + Pad(|ct|))
    {
      WrapKeepsPad(|ct|);
      hide Wrap, CipherOf, PolyKey;
      var partialBlockLen := ciphertextLen % 16;
      if partialBlockLen != 0 {
        poly := poly.Updated(Zeros(16 - partialBlockLen));
      } else {
        assert aad + Pad(|aad|) + ct + [] == aad + Pad(|aad|) + ct;
      }
    }

    /** chachapoly_crypt_and_tag. */
    method CryptAndTag(encrypt: bool, nonce: seq<bv8>, data: seq<bv8>, input: array<bv8>, output: array<bv8>, tag: array<bv8>)
      requires Valid() && input.Length == output.Length && tag.Length == 16 && tag != output
      requires input != chacha.keystream8 && output != chacha.keystream8 && tag != chacha.keystream8
      modifies this, chacha, chacha.keystream8, output, tag
      ensures Valid() && chacha.Stream() == StreamOf(chacha.core, chacha.key, nonce)
      ensures output[..] == CipherOf(chacha.Stream(), old(input[..]))
      ensures tag[..] == TagOf(chacha.Stream(), data, if encrypt then output[..] else old(input[..]))
    {
      hide *;
      ghost var text := input[..];
      Starts(nonce, encrypt);
      var ret := UpdateAad(data);
      assert aad == data;
      ret := Update(input, output);
      BothTexts();
      assert (if encrypt then pt else ct) == text && (if encrypt then ct else pt) == output[..];
      ret := Finish(tag);
    }

    /** Encryption puts out the ciphertext and its tag. */
    method EncryptAndTag(nonce: seq<bv8>, data: seq<bv8>, input: array<bv8>, output: array<bv8>, tag: array<bv8>)
      requires Valid() && input.Length == output.Length && tag.Length == 16 && tag != output
      requires input != chacha.keystream8 && output != chacha.keystream8 && tag != chacha.keystream8
      modifies this, chacha, chacha.keystream8, output, tag
      ensures Valid()
      ensures var s := StreamOf(chacha.core, chacha.key, nonce);
        output[..] == CipherOf(s, old(input[..])) && tag[..] == TagOf(s, data, output[..])
    {
      CryptAndTag(true, nonce, data, input, output, tag);
    }

    /** Decryption answers exactly when the tag is right; otherwise it leaves nothing but zeros. */
    method AuthDecrypt(nonce: seq<bv8>, data: seq<bv8>, tag: seq<bv8>, input: array<bv8>, output: array<bv8>) returns (ret: Ret)
      requires Valid() && input.Length == output.Length && |tag| == 16
      requires input != chacha.keystream8 && output != chacha.keystream8
      modifies this, chacha, chacha.keystream8, output
      ensures Valid()
      ensures var s := StreamOf(chacha.core, chacha.key, nonce);
        && ret == (if tag == TagOf(s, data, old(input[..])) then Success else AuthFailed)
        && output[..] == (if ret == Success then CipherOf(s, old(input[..])) else Zeros(input.Length))
    {
      hide *;
      var checkTag := new bv8[16];
      CryptAndTag(false, nonce, data, input, output, checkTag);
      var same := SameBytes(tag, checkTag);
      if !same {
        Store(output, Zeros(output.Length));
        return AuthFailed;
      }
      return Success;
    }

    /** What was encrypted under a key, nonce and additional data opens under the same ones. */
    method SealThenOpen(nonce: seq<bv8>, data: seq<bv8>, text: array<bv8>, box: array<bv8>, plain: array<bv8>)
      returns (ret: Ret)
      requires Valid() && text.Length == box.Length == plain.Length && box != plain
      requires text != chacha.keystream8 && box != chacha.keystream8 && plain != chacha.keystream8
      modifies this, chacha, chacha.keystream8, box, plain
      ensures Valid() && ret == Success && plain[..] == old(text[..])
    {
      hide *;
      ghost var m := text[..];
      var tag := new bv8[16];
      EncryptAndTag(nonce, data, text, box, tag);
      OpenSealed(StreamOf(chacha.core, chacha.key, nonce), m);
      ret := AuthDecrypt(nonce, data, tag[..], box, plain);
    }
  }

  lemma DiffBits(diff: bv8, x: bv8, y: bv8)
    ensures diff | (x ^ y) == 0 <==> diff == 0 && x == y
  {
    Padding.XorZero(x, y);
    Padding.OrZero(diff, x ^ y);
  }

  /** The comparison that looks at every byte. */
  method SameBytes(tag: seq<bv8>, check: array<bv8>) returns (same: bool)
    requires |tag| == check.Length
    ensures same <==> tag == check[..]
  {
    var diff: bv8 := 0;
    for i := 0 to |tag|
      invariant diff == 0 <==> tag[..i] == check[..i]
    {
      DiffBits(diff, tag[i], check[i]);
      assert tag[..i + 1] == tag[..i] + [tag[i]] && check[..i + 1] == check[..i] + [check[i]];
      diff := diff | (tag[i] ^ check[i]);
    }
    assert tag[..|tag|] == tag && check[..|tag|] == check[..];
    return diff == 0;
  }
}
