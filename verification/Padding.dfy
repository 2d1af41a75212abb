/** Block padding: what is appended, and the branch-free checks that take it off again. */
module Padding {
  import opened Bitwise
  import opened Octets

  datatype Scheme = NoPadding | Pkcs7 | OneAndZeros | ZerosAndLen | ZeroPadding

  function Repeat(v: bv8, n: nat): (r: seq<bv8>)
    ensures |r| == n
  {
    seq(n, _ => v)
  }

  function Zeros(n: nat): (r: seq<bv8>)
    ensures |r| == n
  {
    seq(n, _ => 0)
  }

  /** The p bytes of padding a scheme appends. */
  function Fill(s: Scheme, p: nat): (r: seq<bv8>)
    requires 0 < p < 256 && !s.NoPadding?
    ensures |r| == p
  {
    match s
    case Pkcs7 => Repeat(Byte(p), p)
    case OneAndZeros => [0x80] + Zeros(p - 1)
    case ZerosAndLen => Zeros(p - 1) + [Byte(p)]
    case _ => Zeros(p)
  }

  /** k data bytes followed by nothing but the scheme's padding. With zero padding only the longest run of
      trailing zeros can be meant. */
  ghost predicate WellPadded(s: Scheme, b: seq<bv8>, k: nat)
    requires 0 < |b| < 256
  {
    match s
    case NoPadding => k == |b|
    case ZeroPadding => k <= |b| && b[k..] == Zeros(|b| - k) && (k > 0 ==> b[k - 1] != 0)
    case _ => k < |b| && b[k..] == Fill(s, |b| - k)
  }

  lemma LengthByte(s: Scheme, b: seq<bv8>, k: nat)
    requires 0 < |b| < 256 && (s.Pkcs7? || s.ZerosAndLen?) && WellPadded(s, b, k)
    ensures k < |b| && Value(b[|b| - 1]) == |b| - k
  {
    ByteValue(|b| - k);
    hide Byte, Value;
    assert b[k..][|b| - 1 - k] == b[|b| - 1];
  }

  lemma MarkerByte(b: seq<bv8>, k: nat)
    requires 0 < |b| < 256 && WellPadded(OneAndZeros, b, k)
    ensures k < |b| && b[k] == 0x80 && forall i :: k < i < |b| ==> b[i] == 0
  {
    assert b[k..][0] == b[k];
    forall i | k < i < |b|
      ensures b[i] == 0
    {
      assert b[k..][i - k] == b[i];
    }
  }

  lemma ZeroRun(b: seq<bv8>, k: nat)
    requires 0 < |b| < 256
    ensures WellPadded(ZeroPadding, b, k) <==>
      k <= |b| && (k > 0 ==> b[k - 1] != 0) && forall i :: k <= i < |b| ==> b[i] == 0
  {
    if WellPadded(ZeroPadding, b, k) {
      forall i | k <= i < |b|
        ensures b[i] == 0
      {
        assert b[k..][i - k] == b[i];
      }
    }
  }

  /** A block is padded in at most one way. */
  lemma PaddingUnique(s: Scheme, b: seq<bv8>, k: nat, k': nat)
    requires 0 < |b| < 256 && WellPadded(s, b, k) && WellPadded(s, b, k')
    ensures k == k'
  {
    match s
    case NoPadding =>
    case ZeroPadding =>
      ZeroRun(b, k);
      ZeroRun(b, k');
    case OneAndZeros =>
      MarkerByte(b, k);
      MarkerByte(b, k');
    case _ =>
      LengthByte(s, b, k);
      LengthByte(s, b, k');
  }

  /** Padding is well formed as it is added; with zero padding only after a nonzero byte, or none at all. */
  lemma FillIsWellPadded(s: Scheme, m: seq<bv8>, p: nat)
    requires 0 < p && |m| + p < 256 && !s.NoPadding?
    ensures WellPadded(s, m + Fill(s, p), |m|) <==> (s.ZeroPadding? && m != [] ==> m[|m| - 1] != 0)
  {
    var b := m + Fill(s, p);
    assert b[|m|..] == Fill(s, p);
    if s.ZeroPadding? {
      assert Fill(s, p) == Zeros(p);
    }
    hide Fill, Zeros;
  }

  // ---------------------------------------------------------------- adding

  method AddPkcs(output: array<bv8>, dataLen: nat)
    requires dataLen < output.Length < 256
    modifies output
    ensures output[..] == old(output[..dataLen]) + Fill(Pkcs7, output.Length - dataLen)
  {
    hide Byte;
    var paddingLen := output.Length - dataLen;
    for i := 0 to paddingLen
      invariant output[..dataLen] == old(output[..dataLen])
      invariant forall k :: dataLen <= k < dataLen + i ==> output[k] == Byte(paddingLen)
    {
      output[dataLen + i] := Byte(paddingLen);
    }
    assert output[dataLen..] == Repeat(Byte(paddingLen), paddingLen);
  }

  method AddOneAndZeros(output: array<bv8>, dataLen: nat)
    requires dataLen < output.Length < 256
    modifies output
    ensures output[..] == old(output[..dataLen]) + Fill(OneAndZeros, output.Length - dataLen)
  {
    var paddingLen := output.Length - dataLen;
    output[dataLen] := 0x80;
    for i := 1 to paddingLen
      invariant output[..dataLen] == old(output[..dataLen]) && output[dataLen] == 0x80
      invariant forall k :: dataLen < k < dataLen + i ==> output[k] == 0
    {
      output[dataLen + i] := 0;
    }
    assert output[dataLen + 1..] == Zeros(paddingLen - 1);
    assert output[..] == output[..dataLen] + [output[dataLen]] + output[dataLen + 1..];
  }

  lemma ZerosAre(z: seq<bv8>)
    requires forall k :: 0 <= k < |z| ==> z[k] == 0
    ensures z == Zeros(|z|)
  {
    assert |Zeros(|z|)| == |z|;
    assert forall k :: 0 <= k < |z| ==> Zeros(|z|)[k] == z[k];
  }

  method AddZerosAndLen(output: array<bv8>, dataLen: nat)
    requires dataLen < output.Length < 256
    modifies output
    ensures output[..] == old(output[..dataLen]) + Fill(ZerosAndLen, output.Length - dataLen)
  {
    hide Byte;
    var n := output.Length;
    var paddingLen := n - dataLen;
    for i := 1 to paddingLen
      invariant output[..dataLen] == old(output[..dataLen])
      invariant forall k :: dataLen <= k < dataLen + i - 1 ==> output[k] == 0
    {
      output[dataLen + i - 1] := 0;
    }
    output[n - 1] := Byte(paddingLen);
    ZerosAre(output[dataLen..n - 1]);
    assert output[..] == output[..dataLen] + (output[dataLen..n - 1] + [output[n - 1]]);
  }

  method AddZeros(output: array<bv8>, dataLen: nat)
    requires dataLen < output.Length < 256
    modifies output
    ensures output[..] == old(output[..dataLen]) + Fill(ZeroPadding, output.Length - dataLen)
  {
    for i := dataLen to output.Length
      invariant output[..dataLen] == old(output[..dataLen])
      invariant forall k :: dataLen <= k < i ==> output[k] == 0
    {
      output[i] := 0;
    }
    assert output[dataLen..] == Zeros(output.Length - dataLen);
  }

  // ---------------------------------------------------------------- checking

  /** A C comparison used as a number. */
  function Flag(b: bool): bv8
  {
    if b then 1 else 0
  }

  /** `bad |= b`. */
  function Raised(bad: bv8, b: bool): (r: bv8)
    ensures r == 0 <==> bad == 0 && !b
  {
    bad | Flag(b)
  }

  /** `bad |= ( x ^ y ) * b`. */
  function Differing(bad: bv8, x: bv8, y: bv8, b: bool): (r: bv8)
    ensures r == 0 <==> bad == 0 && (b ==> x == y)
  {
    OrDiffers(bad, x, y, b);
    bad | ((x ^ y) * Flag(b))
  }

  /** `bad |= x * b`. */
  function Nonzero(bad: bv8, x: bv8, b: bool): (r: bv8)
    ensures r == 0 <==> bad == 0 && (b ==> x == 0)
  {
    TimesFlag(x, b);
    OrZero(bad, x * Flag(b));
    bad | (x * Flag(b))
  }

  /** `bad ^= x * b`. */
  function Mixed(bad: bv8, x: bv8, b: bool): (r: bv8)
    ensures !b ==> r == bad
  {
    TimesFlag(x, b);
    XorNothing(bad);
    bad ^ (x * Flag(b))
  }

  lemma OrDiffers(bad: bv8, x: bv8, y: bv8, b: bool)
    ensures bad | ((x ^ y) * Flag(b)) == 0 <==> bad == 0 && (b ==> x == y)
  {
    XorZero(x, y);
    TimesFlag(x ^ y, b);
    OrZero(bad, (x ^ y) * Flag(b));
  }

  lemma XorZero(x: bv8, y: bv8)
    ensures x ^ y == 0 <==> x == y
  {
  }

  lemma TimesFlag(x: bv8, b: bool)
    ensures x * Flag(b) == if b then x else 0
  {
  }

  lemma OrZero(x: bv8, y: bv8)
    ensures x | y == 0 <==> x == 0 && y == 0
  {
  }

  /** What `input_len - padding_len` is as a size_t: far past the block when the length byte is too large. */
  function IndexOf(n: nat, pad: nat): nat
    requires n < 256 && pad < 256
  {
    if pad <= n then n - pad else n + 0x1_0000_0000 - pad
  }

  method GetPkcs(input: array<bv8>) returns (ok: bool, dataLen: nat)
    requires 0 < input.Length < 256
    ensures ok <==> exists k: nat :: WellPadded(Pkcs7, input[..], k)
    ensures ok ==> WellPadded(Pkcs7, input[..], dataLen)
  {
    hide Byte, Value, Raised, Differing, Nonzero, WellPadded;
    var n := input.Length;
    var padByte := input[n - 1];
    var pad := Value(padByte);
    ValueByte(padByte);
    dataLen := IndexOf(n, pad);
    var bad: bv8 := 0;
    bad := Raised(bad, pad > n);
    bad := Raised(bad, pad == 0);
    for i := 0 to n
      invariant bad == 0 <==> 0 < pad <= n && forall k :: dataLen <= k < i ==> input[k] == padByte
    {
      bad := Differing(bad, input[i], padByte, i >= dataLen);
    }
    ok := bad == 0;
    PkcsRead(input[..], pad);
  }

  lemma PkcsRead(b: seq<bv8>, pad: nat)
    requires 0 < |b| < 256 && pad == Value(b[|b| - 1])
    ensures (exists k: nat :: WellPadded(Pkcs7, b, k)) <==>
      0 < pad <= |b| && forall k :: |b| - pad <= k < |b| ==> b[k] == b[|b| - 1]
    ensures 0 < pad <= |b| && (forall k :: |b| - pad <= k < |b| ==> b[k] == b[|b| - 1]) ==>
      WellPadded(Pkcs7, b, |b| - pad)
  {
    ValueByte(b[|b| - 1]);
    hide Byte, Value;
    if 0 < pad <= |b| && forall k :: |b| - pad <= k < |b| ==> b[k] == b[|b| - 1] {
      assert b[|b| - pad..] == Repeat(Byte(pad), pad);
      assert WellPadded(Pkcs7, b, |b| - pad);
    }
    if k: nat :| WellPadded(Pkcs7, b, k) {
      LengthByte(Pkcs7, b, k);
      forall i | k <= i < |b|
        ensures b[i] == b[|b| - 1]
      {
        assert b[k..][i - k] == b[i] && b[k..][|b| - 1 - k] == b[|b| - 1];
      }
    }
  }

  method GetZerosAndLen(input: array<bv8>) returns (ok: bool, dataLen: nat)
    requires 0 < input.Length < 256
    ensures ok <==> exists k: nat :: WellPadded(ZerosAndLen, input[..], k)
    ensures ok ==> WellPadded(ZerosAndLen, input[..], dataLen)
  {
    hide Byte, Value, Raised, Differing, Nonzero, WellPadded;
    var n := input.Length;
    var pad := Value(input[n - 1]);
    ValueByte(input[n - 1]);
    dataLen := IndexOf(n, pad);
    var bad: bv8 := 0;
    bad := Raised(bad, pad > n);
    bad := Raised(bad, pad == 0);
    for i := 0 to n - 1
      invariant bad == 0 <==> 0 < pad <= n && forall k :: dataLen <= k < i ==> input[k] == 0
    {
      bad := Nonzero(bad, input[i], i >= dataLen);
    }
    ok := bad == 0;
    ZerosAndLenRead(input[..], pad);
  }

  lemma ZerosAndLenRead(b: seq<bv8>, pad: nat)
    requires 0 < |b| < 256 && pad == Value(b[|b| - 1])
    ensures (exists k: nat :: WellPadded(ZerosAndLen, b, k)) <==>
      0 < pad <= |b| && forall k :: |b| - pad <= k < |b| - 1 ==> b[k] == 0
    ensures 0 < pad <= |b| && (forall k :: |b| - pad <= k < |b| - 1 ==> b[k] == 0) ==>
      WellPadded(ZerosAndLen, b, |b| - pad)
  {
    if 0 < pad <= |b| && forall k :: |b| - pad <= k < |b| - 1 ==> b[k] == 0 {
      ZerosAndLenAccepts(b, pad);
    }
    hide WellPadded, Value;
    if k: nat :| WellPadded(ZerosAndLen, b, k) {
      ZerosAndLenBytes(b, k);
    }
  }

  lemma ZerosAndLenAccepts(b: seq<bv8>, pad: nat)
    requires 0 < |b| < 256 && pad == Value(b[|b| - 1]) && 0 < pad <= |b|
    requires forall k :: |b| - pad <= k < |b| - 1 ==> b[k] == 0
    ensures WellPadded(ZerosAndLen, b, |b| - pad)
  {
    ValueByte(b[|b| - 1]);
    hide *;
    ZerosThen(b, pad);
    ZerosAndLenIs(b, pad);
  }

  lemma ZerosThen(b: seq<bv8>, pad: nat)
    requires 0 < pad <= |b| && forall k :: |b| - pad <= k < |b| - 1 ==> b[k] == 0
    ensures b[|b| - pad..] == Zeros(pad - 1) + [b[|b| - 1]]
  {
    var tail, z := b[|b| - pad..], Zeros(pad - 1) + [b[|b| - 1]];
    forall k | 0 <= k < pad
      ensures tail[k] == z[k]
    {
      assert tail[k] == b[|b| - pad + k];
    }
  }

  lemma ZerosAndLenIs(b: seq<bv8>, pad: nat)
    requires 0 < pad <= |b| < 256 && b[|b| - pad..] == Zeros(pad - 1) + [Byte(pad)]
    ensures WellPadded(ZerosAndLen, b, |b| - pad)
  {
    hide Byte, Value;
  }

  lemma ZerosAndLenBytes(b: seq<bv8>, k: nat)
    requires 0 < |b| < 256 && WellPadded(ZerosAndLen, b, k)
    ensures k < |b| && Value(b[|b| - 1]) == |b| - k && forall i :: k <= i < |b| - 1 ==> b[i] == 0
  {
    hide Byte, Value;
    LengthByte(ZerosAndLen, b, k);
    forall i | k <= i < |b| - 1
      ensures b[i] == 0
    {
      assert b[k..][i - k] == b[i];
    }
  }

  method GetOneAndZeros(input: array<bv8>) returns (ok: bool, dataLen: nat)
    requires 0 < input.Length < 256
    ensures ok <==> exists k: nat :: WellPadded(OneAndZeros, input[..], k)
    ensures ok ==> WellPadded(OneAndZeros, input[..], dataLen)
  {
    hide Mixed, WellPadded;
    var done := false;
    var bad: bv8 := 0x80;
    dataLen := 0;
    var i := input.Length;
    while i > 0
      invariant 0 <= i <= input.Length
      invariant !done ==> bad == 0x80 && dataLen == 0 && forall k :: i <= k < input.Length ==> input[k] == 0
      invariant done ==> i <= dataLen < input.Length && input[dataLen] != 0 && bad == Mixed(0x80, input[dataLen], true)
      invariant done ==> forall k :: dataLen < k < input.Length ==> input[k] == 0
    {
      var prevDone := done;
      done := done || input[i - 1] != 0;
      OrOnce(dataLen, i - 1, done != prevDone);
      dataLen := Or(dataLen, (i - 1) * (if done != prevDone then 1 else 0));
      bad := Mixed(bad, input[i - 1], done != prevDone);
      i := i - 1;
    }
    ok := bad == 0;
    if done {
      MixedZero(input[dataLen]);
    }
    OneAndZerosRead(input[..], done, dataLen);
  }

  lemma OrOnce(x: nat, y: nat, b: bool)
    ensures !b ==> Or(x, y * (if b then 1 else 0)) == x
    ensures b && x == 0 ==> Or(x, y * (if b then 1 else 0)) == y
  {
    OrZeros(x);
    OrZeros(y);
  }

  lemma {:induction false} OrZeros(x: nat)
    ensures Or(x, 0) == x && Or(0, x) == x
  {
    if x > 0 {
      OrZeros(x / 2);
    }
  }

  lemma MixedZero(x: bv8)
    ensures Mixed(0x80, x, true) == 0 <==> x == 0x80
  {
    TimesFlag(x, true);
    XorZero(0x80, x);
  }

  lemma XorNothing(x: bv8)
    ensures x ^ 0 == x
  {
  }

  lemma OneAndZerosRead(b: seq<bv8>, found: bool, k: nat)
    requires 0 < |b| < 256
    requires if found then k < |b| && b[k] != 0 && forall i :: k < i < |b| ==> b[i] == 0
      else forall i :: 0 <= i < |b| ==> b[i] == 0
    ensures (exists j: nat :: WellPadded(OneAndZeros, b, j)) <==> found && b[k] == 0x80
    ensures found && b[k] == 0x80 ==> WellPadded(OneAndZeros, b, k)
  {
    if found && b[k] == 0x80 {
      assert b[k..] == [0x80] + Zeros(|b| - k - 1);
      assert WellPadded(OneAndZeros, b, k);
    }
    if j: nat :| WellPadded(OneAndZeros, b, j) {
      MarkerByte(b, j);
    }
  }

  method GetZeros(input: array<bv8>) returns (dataLen: nat)
    requires 0 < input.Length < 256
    ensures WellPadded(ZeroPadding, input[..], dataLen)
  {
    var done := false;
    dataLen := 0;
    var i := input.Length;
    while i > 0
      invariant 0 <= i <= input.Length
      invariant !done ==> dataLen == 0 && forall k :: i <= k < input.Length ==> input[k] == 0
      invariant done ==> i < dataLen <= input.Length && input[dataLen - 1] != 0
      invariant done ==> forall k :: dataLen <= k < input.Length ==> input[k] == 0
    {
      var prevDone := done;
      done := done || input[i - 1] != 0;
      OrOnce(dataLen, i, done != prevDone);
      dataLen := Or(dataLen, i * (if done != prevDone then 1 else 0));
      i := i - 1;
    }
    ZeroRun(input[..], dataLen);
  }

  /** ctx->add_padding. */
  method AddPadding(s: Scheme, output: array<bv8>, dataLen: nat)
    requires dataLen < output.Length < 256 && !s.NoPadding?
    modifies output
    ensures output[..] == old(output[..dataLen]) + Fill(s, output.Length - dataLen)
  {
    hide Fill;
    match s
    case Pkcs7 => AddPkcs(output, dataLen);
    case OneAndZeros => AddOneAndZeros(output, dataLen);
    case ZerosAndLen => AddZerosAndLen(output, dataLen);
    case ZeroPadding => AddZeros(output, dataLen);
  }

  /** ctx->get_padding: it accepts exactly the well padded blocks, and finds where the data ends. */
  method GetPadding(s: Scheme, input: array<bv8>) returns (ok: bool, dataLen: nat)
    requires 0 < input.Length < 256
    ensures ok <==> exists k: nat :: WellPadded(s, input[..], k)
    ensures ok ==> WellPadded(s, input[..], dataLen)
  {
    match s
    case NoPadding =>
      assert WellPadded(s, input[..], input.Length);
      return true, input.Length;
    case Pkcs7 =>
      hide WellPadded;
      ok, dataLen := GetPkcs(input);
    case OneAndZeros =>
      hide WellPadded;
      ok, dataLen := GetOneAndZeros(input);
    case ZerosAndLen =>
      hide WellPadded;
      ok, dataLen := GetZerosAndLen(input);
    case ZeroPadding =>
      hide WellPadded;
      dataLen := GetZeros(input);
      ok := true;
  }
}
