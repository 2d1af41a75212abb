/** Base64 (section 5.2 of RFC 1521): encoding, and decoding in two passes that tolerate line breaks. */
module Base64 {
  import opened Numbers

  type byte = x: nat | x < 256

  // ---------------------------------------------------------------- the alphabet

  /** base64_enc_map. */
  function EncMap(d: nat): byte
    requires d < 64
  {
    if d < 26 then 65 + d else if d < 52 then 97 + (d - 26) else if d < 62 then 48 + (d - 52) else if d == 62 then 43 else 47
  }

  /** base64_dec_map: 64 for '=', 127 for what is not in the alphabet. */
  function DecMap(c: byte): nat
  {
    if 65 <= c <= 90 then c - 65 else if 97 <= c <= 122 then c - 97 + 26 else if 48 <= c <= 57 then c - 48 + 52
    else if c == 43 then 62 else if c == 47 then 63 else if c == 61 then 64 else 127
  }

  /** Table 1 of RFC 1521. */
  const UPPER: string := "ABCDEFGHIJKLMNOPQRSTUVWXYZ"
  const LOWER: string := "abcdefghijklmnopqrstuvwxyz"
  const OTHERS: string := "0123456789+/"

  /** The maps are the table: a value's symbol is the table's, and nothing else is a symbol. */
  lemma MapsAreAlphabet(d: nat, c: byte)
    requires d < 64
    ensures EncMap(d) as char == if d < 26 then UPPER[d] else if d < 52 then LOWER[d - 26] else OTHERS[d - 52]
    ensures DecMap(c) == d ==> c == EncMap(d)
  {
  }

  const PAD: byte := 61
  const CR: byte := 13
  const LF: byte := 10
  const SPACE: byte := 32

  predicate IsSymbol(c: byte)
  {
    DecMap(c) < 64
  }

  lemma MapsInverse(d: nat)
    requires d < 64
    ensures IsSymbol(EncMap(d)) && DecMap(EncMap(d)) == d && EncMap(d) != PAD && !IsBreak(EncMap(d))
  {
  }

  predicate IsBreak(c: byte)
  {
    c == CR || c == LF || c == SPACE
  }

  // ---------------------------------------------------------------- encoding

  /** Four symbols for three bytes. */
  function Group(a: byte, b: byte, c: byte): (r: seq<byte>)
    ensures |r| == 4
  {
    [EncMap(a / 4), EncMap(a % 4 * 16 + b / 16), EncMap(b % 16 * 4 + c / 64), EncMap(c % 64)]
  }

  /** The groups of a whole number of triples. */
  function Groups(m: seq<byte>): (r: seq<byte>)
    requires |m| % 3 == 0
    ensures |r| == |m| / 3 * 4
  {
    if m == [] then [] else
      var k := |m| - 3;
      Groups(m[..k]) + Group(m[k], m[k + 1], m[k + 2])
  }

  /** One or two bytes left over, filled up with '='. */
  function Tail(t: seq<byte>): (r: seq<byte>)
    requires |t| < 3
    ensures |r| == if t == [] then 0 else 4
  {
    if |t| == 0 then []
    else if |t| == 1 then Group(t[0], 0, 0)[..2] + [PAD, PAD]
    else Group(t[0], t[1], 0)[..3] + [PAD]
  }

  function Encoded(m: seq<byte>): seq<byte>
  {
    var k := |m| - |m| % 3;
    Groups(m[..k]) + Tail(m[k..])
  }

  /** One more than the largest size_t, on 32 and on 64 bits. */
  type SizeLimit = w: nat | w == 0x1_0000_0000 || w == 0x1_0000_0000_0000_0000 witness 0x1_0000_0000
  const SIZE_T: SizeLimit

  datatype Ret = Success | BufferTooSmall | InvalidCharacter

  /** mbedtls_base64_encode: out is what is written before the terminating NUL; olen is its length on success and
      the size wanted, NUL included, when there is no buffer or it is too small. */
  method Encode(noDst: bool, dlen: nat, src: seq<byte>) returns (ret: Ret, out: seq<byte>, olen: nat)
    requires |src| < SIZE_T
    ensures ret == Success || ret == BufferTooSmall
    ensures ret == Success ==> out == Encoded(src) && olen == |out| && (src != [] ==> !noDst && |out| + 1 <= dlen)
    ensures ret == BufferTooSmall <==>
      src != [] && (noDst || (|src| + 2) / 3 * 4 + 1 > dlen || (|src| + 2) / 3 > (SIZE_T - 2) / 4)
    ensures ret == BufferTooSmall ==>
      olen == if (|src| + 2) / 3 > (SIZE_T - 2) / 4 then SIZE_T - 1 else |Encoded(src)| + 1
  {
    hide EncMap, Group, Groups, Tail, Encoded;
    EncodedLength(src);
    if |src| == 0 {
      NothingEncoded();
      return Success, [], 0;
    }
    var n := |src| / 3 + (if |src| % 3 != 0 then 1 else 0);
    assert n == (|src| + 2) / 3;
    if n > (SIZE_T - 2) / 4 {
      return BufferTooSmall, [], SIZE_T - 1;
    }
    n := n * 4;
    if dlen < n + 1 || noDst {
      return BufferTooSmall, [], n + 1;
    }
    out := EncodeAll(src);
    return Success, out, |out|;
  }

  lemma NothingEncoded()
    ensures Encoded([]) == []
  {
    EncodedIs([], 0);
    assert Groups([]) == [] && Tail([]) == [];
  }

  /** The writing half, once the buffer is known to suffice. */
  method EncodeAll(src: seq<byte>) returns (out: seq<byte>)
    ensures out == Encoded(src)
  {
    hide EncMap, Group, Groups, Tail, Encoded;
    var n := |src| / 3 * 3;
    out := EncodeTriples(src, n);
    var rest := EncodeRest(src, n);
    EncodedIs(src, n);
    out := out + rest;
  }

  /** The loop over whole triples. */
  method EncodeTriples(src: seq<byte>, n: nat) returns (out: seq<byte>)
    requires n <= |src| && n % 3 == 0
    ensures out == Groups(src[..n])
  {
    hide Group;
    out := [];
    var i := 0;
    while i < n
      invariant 0 <= i <= n && i % 3 == 0 && out == Groups(src[..i])
    {
      GroupsSnoc(src, i);
      hide Groups;
      var C1, C2, C3 := src[i], src[i + 1], src[i + 2];
      out := out + Group(C1, C2, C3);
      i := i + 3;
    }
  }

  lemma GroupsSnoc(m: seq<byte>, i: nat)
    requires i + 3 <= |m| && i % 3 == 0
    ensures Groups(m[..i + 3]) == Groups(m[..i]) + Group(m[i], m[i + 1], m[i + 2])
  {
    hide Group;
    assert m[..i + 3][..i] == m[..i];
  }

  /** The one or two bytes after them. */
  method EncodeRest(src: seq<byte>, i: nat) returns (out: seq<byte>)
    requires i <= |src| < i + 3
    ensures out == Tail(src[i..])
  {
    hide EncMap;
    if i == |src| {
      return [];
    }
    var C1 := src[i];
    var C2: byte := if i + 1 < |src| then src[i + 1] else 0;
    var g := Group(C1, C2, 0);
    out := [g[0], g[1]] + [if i + 1 < |src| then g[2] else PAD] + [PAD];
  }

  lemma EncodedIs(m: seq<byte>, n: nat)
    requires n == |m| / 3 * 3
    ensures n % 3 == 0 && n <= |m| < n + 3 && Encoded(m) == Groups(m[..n]) + Tail(m[n..])
  {
    hide Groups, Tail;
  }

  lemma EncodedLength(m: seq<byte>)
    ensures |Encoded(m)| == (|m| + 2) / 3 * 4
  {
    hide EncMap;
  }

  // ---------------------------------------------------------------- what decoding accepts

  /** The text without its line breaks and spaces. */
  function Strip(s: seq<byte>): (u: seq<byte>)
    ensures |u| <= |s|
  {
    if s == [] then [] else
      var k := |s| - 1;
      Strip(s[..k]) + (if IsBreak(s[k]) then [] else [s[k]])
  }

  function Pads(u: seq<byte>): (n: nat)
    ensures n <= |u|
  {
    if u == [] then 0 else Pads(u[..|u| - 1]) + (if u[|u| - 1] == PAD then 1 else 0)
  }

  function SkipSpaces(s: seq<byte>, i: nat): (k: nat)
    requires i <= |s|
    ensures i <= k <= |s| && (k < |s| ==> s[k] != SPACE)
    decreases |s| - i
  {
    if i < |s| && s[i] == SPACE then SkipSpaces(s, i + 1) else i
  }

  /** A line, or the text, ends at i. */
  predicate AtBreak(s: seq<byte>, i: nat)
    requires i <= |s|
  {
    i == |s| || s[i] == LF || (s[i] == CR && i + 1 < |s| && s[i + 1] == LF)
  }

  /** What may stand at i: spaces only before the end of a line, CR only before LF, at most two '=' and no symbol
      after the first of them. */
  predicate Fine(s: seq<byte>, i: nat)
    requires i < |s|
  {
    if s[i] == SPACE then AtBreak(s, SkipSpaces(s, i))
    else if s[i] == CR then AtBreak(s, i)
    else if s[i] == LF then true
    else if s[i] == PAD then Pads(s[..i]) < 2
    else IsSymbol(s[i]) && Pads(s[..i]) == 0
  }

  ghost predicate Accepted(s: seq<byte>)
  {
    forall i :: 0 <= i < |s| ==> Fine(s, i)
  }

  lemma StripSnoc(s: seq<byte>, i: nat)
    requires i < |s|
    ensures Strip(s[..i + 1]) == Strip(s[..i]) + (if IsBreak(s[i]) then [] else [s[i]])
    ensures Pads(s[..i + 1]) == Pads(s[..i]) + (if s[i] == PAD then 1 else 0)
  {
    assert s[..i + 1][..i] == s[..i];
  }

  /** The first pass, as far as position i. */
  ghost predicate Scanned(s: seq<byte>, i: nat, n: nat, j: nat)
  {
    i <= |s| && (forall k :: 0 <= k < i ==> Fine(s, k)) && n == |Strip(s[..i])| && j == Pads(s[..i])
  }

  lemma ScanOne(s: seq<byte>, i: nat, n: nat, j: nat)
    requires Scanned(s, i, n, j) && i < |s| && Fine(s, i)
    ensures Scanned(s, i + 1, if IsBreak(s[i]) then n else n + 1, if s[i] == PAD then j + 1 else j)
  {
    hide Strip, Pads, Fine;
    StripSnoc(s, i);
  }

  lemma {:induction false} ScanSpaces(s: seq<byte>, i: nat, n: nat, j: nat)
    requires Scanned(s, i, n, j) && AtBreak(s, SkipSpaces(s, i))
    ensures Scanned(s, SkipSpaces(s, i), n, j)
    decreases |s| - i
  {
    hide Strip, Pads, Scanned;
    ScannedBound(s, i, n, j);
    if i < |s| && s[i] == SPACE {
      ScanOne(s, i, n, j);
      ScanSpaces(s, i + 1, n, j);
    }
  }

  lemma ScannedBound(s: seq<byte>, i: nat, n: nat, j: nat)
    requires Scanned(s, i, n, j)
    ensures i <= |s| && n <= i
  {
    hide Strip, Pads, Fine;
  }

  /** "First pass: check for validity and get output length". */
  method FirstPass(s: seq<byte>) returns (ok: bool, n: nat, j: nat)
    ensures ok <==> Accepted(s)
    ensures ok ==> n == |Strip(s)| && j == Pads(s)
  {
    hide Strip, Pads, Scanned, DecMap;
    var i: nat := 0;
    n, j := 0, 0;
    ScanNothing(s);
    while i < |s|
      invariant i <= |s| && Scanned(s, i, n, j)
    {
      ghost var i0 := i;
      var x := 0;
      while i < |s| && s[i] == SPACE
        invariant i0 <= i <= |s| && x == i - i0 && SkipSpaces(s, i) == SkipSpaces(s, i0) && (x > 0 ==> s[i0] == SPACE)
      {
        i := i + 1;
        x := x + 1;
      }
      assert i == SkipSpaces(s, i0);
      if AtBreak(s, i) {
        ScanSpaces(s, i0, n, j);
      }
      if i == |s| {
        break;
      }
      if (|s| - i >= 2 && s[i] == CR && s[i + 1] == LF) || s[i] == LF {
        ScanOne(s, i, n, j);
        i := i + 1;
        continue;
      }
      if x != 0 {
        assert !Fine(s, i0);
        return false, n, j;
      }
      ScannedPads(s, i, n, j);
      ScanOneIfFine(s, i, n, j);
      DecKinds(s[i]);
      if s[i] == PAD {
        j := j + 1;
        if j > 2 {
          assert !Fine(s, i);
          return false, n, j;
        }
      }
      if s[i] > 127 || DecMap(s[i]) == 127 {
        assert !Fine(s, i);
        return false, n, j;
      }
      if DecMap(s[i]) < 64 && j != 0 {
        assert !Fine(s, i);
        return false, n, j;
      }
      assert Fine(s, i);
      n := n + 1;
      i := i + 1;
    }
    ScannedAll(s, n, j);
    return true, n, j;
  }

  lemma ScanOneIfFine(s: seq<byte>, i: nat, n: nat, j: nat)
    requires Scanned(s, i, n, j) && i < |s|
    ensures Fine(s, i) ==> Scanned(s, i + 1, if IsBreak(s[i]) then n else n + 1, if s[i] == PAD then j + 1 else j)
  {
    hide Strip, Pads, Fine;
    if Fine(s, i) {
      ScanOne(s, i, n, j);
    }
  }

  lemma DecKinds(c: byte)
    ensures DecMap(c) == 64 <==> c == PAD
    ensures DecMap(c) < 64 || DecMap(c) == 64 || DecMap(c) == 127
    ensures c > 127 || IsBreak(c) ==> DecMap(c) == 127
  {
  }

  lemma ScannedPads(s: seq<byte>, i: nat, n: nat, j: nat)
    requires Scanned(s, i, n, j)
    ensures i <= |s| && j == Pads(s[..i])
  {
  }

  lemma ScanNothing(s: seq<byte>)
    ensures Scanned(s, 0, 0, 0)
  {
    assert s[..0] == [];
  }

  lemma ScannedAll(s: seq<byte>, n: nat, j: nat)
    requires Scanned(s, |s|, n, j)
    ensures Accepted(s) && n == |Strip(s)| && j == Pads(s)
  {
    assert s[..|s|] == s;
  }

  // ---------------------------------------------------------------- what decoding produces

  /** The bits of a run of symbols; '=' counts as zero. */
  function Bits(u: seq<byte>): nat
  {
    if u == [] then 0 else Bits(u[..|u| - 1]) * 64 + DecMap(u[|u| - 1]) % 64
  }

  /** The bytes of 24 bits. */
  function ThreeBytes(v: nat): (r: seq<byte>)
    ensures |r| == 3
  {
    [v / 0x1_0000 % 0x100, v / 0x100 % 0x100, v % 0x100]
  }

  /** Whole groups of four symbols: three bytes each, less one for every '=' so far. */
  function DecodeTo(u: seq<byte>): seq<byte>
    requires |u| % 4 == 0
  {
    if u == [] then [] else
      var k := |u| - 4;
      DecodeTo(u[..k]) + ThreeBytes(Bits(u[k..]))[..if Pads(u) <= 3 then 3 - Pads(u) else 0]
  }

  function Decoded(s: seq<byte>): seq<byte>
  {
    var u := Strip(s);
    DecodeTo(u[..|u| - |u| % 4])
  }

  /** The length the first pass computes without overflow. */
  function OutLen(n: nat, j: nat): int
  {
    6 * (n / 8) + (6 * (n % 8) + 7) / 8 - j
  }

  lemma OutLenIs(n: nat, j: nat)
    ensures OutLen(n, j) == (6 * n + 7) / 8 - j
  {
    var q := QuotRem(n, 8);
  }

  /** No symbol after '='. */
  ghost predicate Tidy(u: seq<byte>)
  {
    forall i :: 0 <= i < |u| && u[i] != PAD ==> Pads(u[..i]) == 0
  }

  lemma {:induction false} PadsStrip(s: seq<byte>)
    ensures Pads(Strip(s)) == Pads(s)
  {
    if s != [] {
      var u, c := Strip(s[..|s| - 1]), s[|s| - 1];
      PadsStrip(s[..|s| - 1]);
      PadsSnoc(u, c);
      assert u + [] == u;
    }
  }

  lemma PadsSnoc(u: seq<byte>, c: byte)
    ensures Pads(u + [c]) == Pads(u) + (if c == PAD then 1 else 0)
  {
    assert (u + [c])[..|u|] == u;
  }

  lemma TidySnoc(u: seq<byte>, c: byte)
    requires Tidy(u) && (c != PAD ==> Pads(u) == 0)
    ensures Tidy(u + [c])
  {
    hide Pads;
    forall i | 0 <= i < |u + [c]| && (u + [c])[i] != PAD
      ensures Pads((u + [c])[..i]) == 0
    {
      assert (u + [c])[..i] == u[..i];
      assert u[..|u|] == u;
    }
  }

  lemma {:induction false} AcceptedIsTidy(s: seq<byte>, i: nat)
    requires Accepted(s) && i <= |s|
    ensures Tidy(Strip(s[..i])) && Pads(s[..i]) <= 2
  {
    hide *;
    if i > 0 {
      AcceptedIsTidy(s, i - 1);
      FinePads(s, i - 1);
      NextAccepted(s, i - 1);
    } else {
      NothingTidy();
      assert s[..0] == [];
    }
  }

  lemma NothingTidy()
    ensures Tidy(Strip([])) && Pads([]) == 0
  {
  }

  lemma NextAccepted(s: seq<byte>, i: nat)
    requires i < |s| && Tidy(Strip(s[..i])) && Pads(s[..i]) <= 2
    requires IsBreak(s[i]) || (if s[i] == PAD then Pads(s[..i]) < 2 else Pads(s[..i]) == 0)
    requires IsBreak(s[i]) ==> s[i] != PAD
    ensures Tidy(Strip(s[..i + 1])) && Pads(s[..i + 1]) <= 2
  {
    hide *;
    PadsStrip(s[..i]);
    StripSnoc(s, i);
    NextTidy(Strip(s[..i]), s[i]);
  }

  lemma FinePads(s: seq<byte>, i: nat)
    requires Accepted(s) && i < |s|
    ensures IsBreak(s[i]) || (if s[i] == PAD then Pads(s[..i]) < 2 else Pads(s[..i]) == 0)
    ensures IsBreak(s[i]) ==> s[i] != PAD
  {
    hide Pads, SkipSpaces, AtBreak, DecMap;
    assert Fine(s, i);
  }

  lemma NextTidy(u: seq<byte>, c: byte)
    requires Tidy(u) && (IsBreak(c) || (c != PAD ==> Pads(u) == 0))
    ensures Tidy(u + (if IsBreak(c) then [] else [c]))
  {
    hide Pads;
    assert u + [] == u;
    if !IsBreak(c) {
      TidySnoc(u, c);
    }
  }

  // ---------------------------------------------------------------- lengths

  lemma {:induction false} PadsSplit(u: seq<byte>, k: nat)
    requires k <= |u|
    ensures Pads(u) == Pads(u[..k]) + Pads(u[k..])
    decreases |u|
  {
    if k < |u| {
      var w := u[..|u| - 1];
      PadsSplit(w, k);
      assert w[..k] == u[..k] && u[k..][..|u| - 1 - k] == w[k..];
    } else {
      assert u[..k] == u && u[k..] == [];
    }
  }

  /** Before a last group the '=' count of a tidy text with at most three of them is zero. */
  lemma PadsLast(u: seq<byte>, k: nat)
    requires Tidy(u) && k + 4 <= |u| && Pads(u) <= 3
    ensures Pads(u[..k]) == 0
  {
    hide Pads;
    if Pads(u[..k]) != 0 {
      AllPads(u, k);
      PadsSplit(u, k);
    }
  }

  lemma {:induction false} CountPads(u: seq<byte>)
    requires forall i :: 0 <= i < |u| ==> u[i] == PAD
    ensures Pads(u) == |u|
  {
    if u != [] {
      CountPads(u[..|u| - 1]);
    }
  }

  lemma AllPads(u: seq<byte>, k: nat)
    requires Tidy(u) && k <= |u| && Pads(u[..k]) != 0
    ensures Pads(u[k..]) == |u| - k
  {
    forall i | k <= i < |u|
      ensures u[i] == PAD
    {
      PadsSplit(u[..i], k);
      assert u[..i][..k] == u[..k];
    }
    hide Pads;
    CountPads(u[k..]);
  }

  lemma TidyPrefix(u: seq<byte>, k: nat)
    requires Tidy(u) && k <= |u|
    ensures Tidy(u[..k]) && Pads(u[..k]) <= Pads(u)
  {
    PadsSplit(u, k);
    hide Pads;
    forall i | 0 <= i < k && u[..k][i] != PAD
      ensures Pads(u[..k][..i]) == 0
    {
      assert u[..k][..i] == u[..i];
    }
  }

  lemma {:induction false} DecodeToLength(u: seq<byte>)
    requires |u| % 4 == 0 && Tidy(u) && Pads(u) <= 2
    ensures |DecodeTo(u)| == |u| / 4 * 3 - Pads(u)
    decreases |u|
  {
    if u != [] {
      var k := |u| - 4;
      hide *;
      DecodeToLonger(u);
      TidyPrefix(u, k);
      PadsLast(u, k);
      DecodeToLength(u[..k]);
    } else {
      DecodeToNothing();
      hide *;
    }
  }

  lemma DecodeToLonger(u: seq<byte>)
    requires |u| % 4 == 0 && u != [] && Pads(u) <= 3
    ensures |u| >= 4 && |u[..|u| - 4]| % 4 == 0 && |u| / 4 == |u[..|u| - 4]| / 4 + 1
    ensures |DecodeTo(u)| == |DecodeTo(u[..|u| - 4])| + 3 - Pads(u)
  {
    hide Pads, Bits, ThreeBytes;
  }

  lemma DecodeToNothing()
    ensures DecodeTo([]) == [] && Pads([]) == 0
  {
  }

  /** The second pass never writes more than the first pass announced. */
  lemma DecodedFits(s: seq<byte>)
    requires Accepted(s)
    ensures |Decoded(s)| <= OutLen(|Strip(s)|, Pads(s))
  {
    hide *;
    assert s[..|s|] == s;
    AcceptedIsTidy(s, |s|);
    PadsStrip(s);
    DecodedIs(s);
    var u := Strip(s);
    var k := |u| - |u| % 4;
    TidyPrefix(u, k);
    PadsSplit(u, k);
    DecodeToLength(u[..k]);
    OutLenIs(|u|, Pads(s));
    PadsBound(u[k..]);
    LengthsAgree(|u|, Pads(u[..k]), Pads(u[k..]));
  }

  lemma PadsBound(u: seq<byte>)
    ensures Pads(u) <= |u|
  {
  }

  lemma DecodedIs(s: seq<byte>)
    ensures var u := Strip(s);
      Decoded(s) == DecodeTo(u[..|u| - |u| % 4])
  {
  }

  lemma LengthsAgree(n: nat, p: nat, q: nat)
    requires q <= n % 4 && p + q <= 2
    ensures (n - n % 4) / 4 * 3 - p <= (6 * n + 7) / 8 - (p + q)
  {
    var k, r := n / 4, n % 4;
    assert n == 4 * k + r;
    if r == 0 {
      assert 6 * n + 7 == 24 * k + 7;
    } else if r == 1 {
      assert 6 * n + 7 == 24 * k + 13;
    } else if r == 2 {
      assert 6 * n + 7 == 24 * k + 19;
    } else {
      assert 6 * n + 7 == 24 * k + 25;
    }
  }

  // ---------------------------------------------------------------- the second pass

  /** After the symbols u: the whole groups are out, x ends in the bits of the others, j tells how many bytes a
      group gives. */
  ghost predicate Decoding(u: seq<byte>, x: nat, n: nat, j: int, out: seq<byte>)
  {
    && n == |u| % 4 && j == 3 - Pads(u) && x < 0x1_0000_0000
    && out == DecodeTo(u[..|u| - n]) && x % Pow64(n) == Bits(u[|u| - n..])
  }

  function Pow64(n: nat): (p: nat)
    ensures p > 0
  {
    if n == 0 then 1 else if n == 1 then 0x40 else if n == 2 then 0x1000 else if n == 3 then 0x4_0000 else 0x100_0000
  }

  /** x << 6 in a uint32_t, with the next six bits. */
  function Shifted(x: nat, d: nat): nat
  {
    (x * 64) % 0x1_0000_0000 + d
  }

  lemma ShiftKeeps(x: nat, d: nat, n: nat)
    requires d < 64 && n < 4
    ensures Shifted(x, d) % Pow64(n + 1) == (x % Pow64(n)) * 64 + d
  {
    var p := Pow64(n);
    var q := QuotRem(x, p);
    var w := QuotRem(x * 64, 0x1_0000_0000);
    assert Pow64(n + 1) == 64 * p;
    assert 0x1_0000_0000 == (0x1_0000_0000 / (64 * p)) * (64 * p);
    var c := 0x1_0000_0000 / (64 * p);
    assert x * 64 == q.0 * (64 * p) + q.1 * 64;
    assert Shifted(x, d) == (q.0 - w.0 * c) * (64 * p) + (q.1 * 64 + d) by {
      Assoc(w.0, c, 64 * p);
      Distr(64 * p, q.0, w.0 * c);
    }
    DivModUnique(Shifted(x, d), 64 * p, q.0 - w.0 * c, q.1 * 64 + d);
  }

  lemma BitsSnoc(u: seq<byte>, c: byte)
    ensures Bits(u + [c]) == Bits(u) * 64 + DecMap(c) % 64
  {
    assert (u + [c])[..|u|] == u;
  }

  lemma ThreeBytesOf(x: nat)
    ensures ThreeBytes(x) == ThreeBytes(x % 0x100_0000)
  {
    var q := QuotRem(x, 0x100_0000);
    var lo := QuotRem(q.1, 0x100);
    var hi := QuotRem(lo.0, 0x100);
    BytesOf24(x, q.0, hi.0, hi.1, lo.1);
    BytesOf24(q.1, 0, hi.0, hi.1, lo.1);
    hide ThreeBytes;
  }

  lemma BytesOf24(x: nat, q: nat, a: nat, b: nat, c: nat)
    requires a < 0x100 && b < 0x100 && c < 0x100 && x == q * 0x100_0000 + a * 0x1_0000 + b * 0x100 + c
    ensures ThreeBytes(x) == [a, b, c]
  {
    DivModUnique(x, 0x1_0000, q * 0x100 + a, b * 0x100 + c);
    DivModUnique(q * 0x100 + a, 0x100, q, a);
    DivModUnique(x, 0x100, q * 0x1_0000 + a * 0x100 + b, c);
    DivModUnique(q * 0x1_0000 + a * 0x100 + b, 0x100, q * 0x100 + a, b);
  }

  /** A symbol that does not complete a group. */
  lemma DecodeMore(u: seq<byte>, x: nat, n: nat, j: int, out: seq<byte>, c: byte)
    requires Decoding(u, x, n, j, out) && n < 3
    ensures Decoding(u + [c], Shifted(x, DecMap(c) % 64), n + 1, if c == PAD then j - 1 else j, out)
  {
    hide Pads, DecodeTo, Bits, DecMap, Shifted, Pow64;
    PadsSnoc(u, c);
    ShiftBound(x, DecMap(c) % 64);
    ShiftKeeps(x, DecMap(c) % 64, n);
    BitsSnoc(u[|u| - n..], c);
    NextMod(|u|, n);
    assert (u + [c])[..|u| - n] == u[..|u| - n] && (u + [c])[|u| - n..] == u[|u| - n..] + [c];
  }

  lemma ShiftBound(x: nat, d: nat)
    requires d < 64
    ensures Shifted(x, d) < 0x1_0000_0000
  {
  }

  lemma NextMod(k: nat, n: nat)
    requires n == k % 4
    ensures (k + 1) % 4 == if n == 3 then 0 else n + 1
    ensures k - n >= 0 && (k - n) % 4 == 0
  {
  }

  /** A symbol that completes a group: its bytes go out. */
  lemma DecodeGroup(u: seq<byte>, x: nat, j: int, out: seq<byte>, c: byte)
    requires Decoding(u, x, 3, j, out) && Pads(u + [c]) <= 2
    ensures var x', j' := Shifted(x, DecMap(c) % 64), if c == PAD then j - 1 else j;
      1 <= j' <= 3 && Decoding(u + [c], x', 0, j', out + ThreeBytes(x')[..j'])
  {
    hide Pads, Bits, DecMap, Shifted, ThreeBytes, DecodeTo, Pow64;
    var d := DecMap(c) % 64;
    PadsSnoc(u, c);
    ShiftBound(x, d);
    ShiftKeeps(x, d, 3);
    BitsSnoc(u[|u| - 3..], c);
    NextMod(|u|, 3);
    NoBits();
    ThreeBytesOf(Shifted(x, d));
    GroupEnds(u, c);
    DecodeGrown(u, c);
  }

  lemma GroupEnds(u: seq<byte>, c: byte)
    requires |u| % 4 == 3
    ensures var w := u + [c];
      w[..|w| - 4] == u[..|u| - 3] && w[|w| - 4..] == u[|u| - 3..] + [c] && w[..|w| - 0] == w && w[|w| - 0..] == []
    ensures Pow64(0) == 1 && Pow64(4) == 0x100_0000
  {
  }

  lemma DecodeGrown(u: seq<byte>, c: byte)
    requires |u| % 4 == 3 && Pads(u + [c]) <= 2
    ensures
      var w := u + [c];
      DecodeTo(w) == DecodeTo(u[..|u| - 3]) + ThreeBytes(Bits(u[|u| - 3..] + [c]))[..3 - Pads(w)]
  {
    hide Pads, Bits, ThreeBytes;
    GroupEnds(u, c);
    assert (u + [c]) != [];
  }

  lemma NoBits()
    ensures Bits([]) == 0
  {
  }

  /** The second pass over the accepted text. */
  method SecondPass(s: seq<byte>) returns (out: seq<byte>)
    requires Accepted(s)
    ensures out == Decoded(s)
  {
    hide Strip, Pads, Decoding, DecMap, Shifted, ThreeBytes, Accepted, Bits, DecodeTo;
    var j: int, n: nat, x: nat := 3, 0, 0;
    out := [];
    DecodeStarts();
    assert s[..0] == [];
    StripEmpty();
    for i := 0 to |s|
      invariant Decoding(Strip(s[..i]), x, n, j, out) && n < 4
    {
      StripSnoc(s, i);
      AcceptedIsTidy(s, i + 1);
      PadsStrip(s[..i + 1]);
      DecKinds(s[i]);
      ghost var u := Strip(s[..i]);
      if IsBreak(s[i]) {
        assert u + [] == u;
        continue;
      }
      if n == 3 {
        DecodeGroup(u, x, j, out, s[i]);
      } else {
        DecodeMore(u, x, n, j, out, s[i]);
      }
      j := j - (if DecMap(s[i]) == 64 then 1 else 0);
      x := Shifted(x, DecMap(s[i]) % 64);
      n := n + 1;
      if n == 4 {
        n := 0;
        var b := ThreeBytes(x);
        out := out + (if j > 2 then b else if j > 1 then b[..2] else if j > 0 then b[..1] else []);
        assert b[..3] == b;
      }
    }
    assert s[..|s|] == s;
    DecodeEnds(s, x, n, j, out);
  }

  lemma StripEmpty()
    ensures Strip([]) == []
  {
  }

  lemma DecodeStarts()
    ensures Decoding([], 0, 0, 3, [])
  {
  }

  lemma DecodeEnds(s: seq<byte>, x: nat, n: nat, j: int, out: seq<byte>)
    requires Decoding(Strip(s), x, n, j, out)
    ensures out == Decoded(s)
  {
  }

  /** mbedtls_base64_decode: olen is the size wanted when there is no buffer or it is too small. */
  method Decode(noDst: bool, dlen: nat, src: seq<byte>) returns (ret: Ret, out: seq<byte>, olen: int)
    ensures ret == InvalidCharacter <==> !Accepted(src)
    ensures ret == BufferTooSmall <==> Accepted(src) && Strip(src) != [] && (noDst || dlen < OutLen(|Strip(src)|, Pads(src)))
    ensures ret == BufferTooSmall ==> olen == OutLen(|Strip(src)|, Pads(src))
    ensures ret == Success ==> out == Decoded(src) && olen == |out| && |out| <= OutLen(|Strip(src)|, Pads(src)) && |out| <= dlen
  {
    hide Strip, Pads, Accepted, Decoded;
    var ok, n, j := FirstPass(src);
    if !ok {
      return InvalidCharacter, [], 0;
    }
    DecodedFits(src);
    if n == 0 {
      NothingDecoded(src);
      return Success, [], 0;
    }
    var len := 6 * (n / 8) + (6 * (n % 8) + 7) / 8 - j;
    if noDst || dlen < len {
      return BufferTooSmall, [], len;
    }
    out := SecondPass(src);
    return Success, out, |out|;
  }

  lemma NothingDecoded(s: seq<byte>)
    requires Strip(s) == []
    ensures Decoded(s) == []
  {
  }

  // ---------------------------------------------------------------- round trip

  lemma BitsOfGroup(a: nat, b: nat, c: nat, d: nat, u: seq<byte>)
    requires |u| == 4 && DecMap(u[0]) % 64 == a && DecMap(u[1]) % 64 == b && DecMap(u[2]) % 64 == c && DecMap(u[3]) % 64 == d
    ensures Bits(u) == ((a * 64 + b) * 64 + c) * 64 + d
  {
    hide DecMap;
    assert u == [] + [u[0]] + [u[1]] + [u[2]] + [u[3]];
    BitsSnoc([u[0]] + [u[1]] + [u[2]], u[3]);
    BitsSnoc([u[0]] + [u[1]], u[2]);
    BitsSnoc([u[0]], u[1]);
    BitsSnoc([], u[0]);
    assert [] + [u[0]] == [u[0]];
    NoBits();
    hide Bits;
  }

  lemma GroupIs(a: byte, b: byte, c: byte, s0: nat, s1: nat, s2: nat, s3: nat)
    requires s0 == a / 4 && s1 == a % 4 * 16 + b / 16 && s2 == b % 16 * 4 + c / 64 && s3 == c % 64
    ensures s0 < 64 && s1 < 64 && s2 < 64 && s3 < 64
    ensures Group(a, b, c) == [EncMap(s0), EncMap(s1), EncMap(s2), EncMap(s3)]
  {
    hide EncMap;
  }

  lemma Sextets(a: byte, b: byte, c: byte, s0: nat, s1: nat, s2: nat, s3: nat)
    requires s0 == a / 4 && s1 == a % 4 * 16 + b / 16 && s2 == b % 16 * 4 + c / 64 && s3 == c % 64
    ensures ((s0 * 64 + s1) * 64 + s2) * 64 + s3 == (a * 0x100 + b) * 0x100 + c
  {
    assert a == 4 * s0 + a % 4 && b == 16 * (b / 16) + b % 16 && c == 64 * (c / 64) + s3;
  }

  /** The four symbols of three bytes hold exactly their bits. */
  lemma GroupBits(a: byte, b: byte, c: byte)
    ensures Bits(Group(a, b, c)) == (a * 0x100 + b) * 0x100 + c
  {
    var s0, s1, s2, s3 := a / 4, a % 4 * 16 + b / 16, b % 16 * 4 + c / 64, c % 64;
    MapsInverse(s0);
    MapsInverse(s1);
    MapsInverse(s2);
    MapsInverse(s3);
    GroupIs(a, b, c, s0, s1, s2, s3);
    hide EncMap, DecMap, Bits, Group, IsBreak, IsSymbol;
    BitsOfGroup(s0, s1, s2, s3, Group(a, b, c));
    Sextets(a, b, c, s0, s1, s2, s3);
  }

  /** A sequence of bytes as a number, most significant first. */
  function Number(m: seq<byte>): nat
  {
    if m == [] then 0 else Number(m[..|m| - 1]) * 0x100 + m[|m| - 1]
  }

  /** What fills a message up to whole triples. */
  function Fill(n: nat): seq<byte>
  {
    if n % 3 == 0 then [] else if n % 3 == 1 then [0, 0] else [0]
  }

  /** The six-bit values of an encoding, '=' counting as zero, spell the message filled up with zero bytes to whole triples. */
  lemma EncodedBits(m: seq<byte>)
    ensures Bits(Encoded(m)) == Number(m + Fill(|m|))
  {
    EncodedIs(m, |m| / 3 * 3);
    hide *;
    EncodedBitsAt(m, |m| / 3 * 3);
  }

  lemma EncodedBitsAt(m: seq<byte>, k: nat)
    requires k % 3 == 0 && k <= |m| < k + 3 && Encoded(m) == Groups(m[..k]) + Tail(m[k..])
    ensures Bits(Encoded(m)) == Number(m + Fill(|m|))
  {
    hide *;
    FillIs(|m|, k);
    GroupsBits(m[..k]);
    WithTail(m[..k], Groups(m[..k]), m[k..]);
    assert m == m[..k] + m[k..];
  }

  lemma FillIs(n: nat, k: nat)
    requires k % 3 == 0 && k <= n < k + 3
    ensures Fill(n) == Fill(n - k)
  {
  }

  lemma WithTail(h: seq<byte>, u: seq<byte>, t: seq<byte>)
    requires |h| % 3 == 0 && |t| < 3 && Bits(u) == Number(h)
    ensures Bits(u + Tail(t)) == Number(h + t + Fill(|t|))
  {
    if |t| == 0 {
      assert u + Tail(t) == u && h + t + Fill(0) == h;
    } else if |t| == 1 {
      hide *;
      assert t == [t[0]];
      WithOne(h, u, t[0]);
    } else {
      hide *;
      assert t == [t[0], t[1]];
      WithTwo(h, u, t[0], t[1]);
    }
  }

  lemma WithOne(h: seq<byte>, u: seq<byte>, a: byte)
    requires Bits(u) == Number(h)
    ensures Bits(u + Tail([a])) == Number(h + [a] + Fill(1))
  {
    assert h + [a] + Fill(1) == h + [a, 0, 0];
    hide *;
    TailBits(a, 0);
    FourMore(u, Tail([a]));
    ThreeMore(h, a, 0, 0);
  }

  lemma WithTwo(h: seq<byte>, u: seq<byte>, a: byte, b: byte)
    requires Bits(u) == Number(h)
    ensures Bits(u + Tail([a, b])) == Number(h + [a, b] + Fill(2))
  {
    assert h + [a, b] + Fill(2) == h + [a, b, 0];
    hide *;
    TailBits(a, b);
    FourMore(u, Tail([a, b]));
    ThreeMore(h, a, b, 0);
  }

  lemma {:induction false} GroupsBits(m: seq<byte>)
    requires |m| % 3 == 0
    ensures Bits(Groups(m)) == Number(m)
    decreases |m|
  {
    if m == [] {
      NoBits();
    } else {
      var k := |m| - 3;
      assert Groups(m) == Groups(m[..k]) + Group(m[k], m[k + 1], m[k + 2]);
      assert m == m[..k] + [m[k], m[k + 1], m[k + 2]];
      hide *;
      GroupsBits(m[..k]);
      WithGroup(m[..k], Groups(m[..k]), m[k], m[k + 1], m[k + 2]);
    }
  }

  lemma WithGroup(h: seq<byte>, u: seq<byte>, a: byte, b: byte, c: byte)
    requires Bits(u) == Number(h)
    ensures Bits(u + Group(a, b, c)) == Number(h + [a, b, c])
  {
    hide *;
    GroupBits(a, b, c);
    FourMore(u, Group(a, b, c));
    ThreeMore(h, a, b, c);
  }

  lemma FourMore(u: seq<byte>, g: seq<byte>)
    requires |g| == 4
    ensures Bits(u + g) == Bits(u) * 0x100_0000 + Bits(g)
  {
    hide DecMap;
    assert u + g == u + [g[0]] + [g[1]] + [g[2]] + [g[3]];
    BitsSnoc(u, g[0]);
    BitsSnoc(u + [g[0]], g[1]);
    BitsSnoc(u + [g[0]] + [g[1]], g[2]);
    BitsSnoc(u + [g[0]] + [g[1]] + [g[2]], g[3]);
    BitsOfGroup(DecMap(g[0]) % 64, DecMap(g[1]) % 64, DecMap(g[2]) % 64, DecMap(g[3]) % 64, g);
    hide Bits;
  }

  lemma NumberSnoc(m: seq<byte>, a: byte)
    ensures Number(m + [a]) == Number(m) * 0x100 + a
  {
    assert (m + [a])[..|m|] == m;
  }

  lemma ThreeMore(m: seq<byte>, a: byte, b: byte, c: byte)
    ensures Number(m + [a, b, c]) == Number(m) * 0x100_0000 + ((a * 0x100 + b) * 0x100 + c)
  {
    hide Number;
    assert m + [a, b, c] == m + [a] + [b] + [c];
    NumberSnoc(m, a);
    NumberSnoc(m + [a], b);
    NumberSnoc(m + [a] + [b], c);
  }

  lemma TailBits(a: byte, b: byte)
    ensures |Tail([a])| == 4 && Bits(Tail([a])) == (a * 0x100 + 0) * 0x100 + 0
    ensures |Tail([a, b])| == 4 && Bits(Tail([a, b])) == (a * 0x100 + b) * 0x100 + 0
  {
    TailOfOne(a);
    TailOfTwo(a, b);
    hide Tail, Bits;
  }

  lemma TailOfOne(a: byte)
    ensures Bits(Tail([a])) == a * 0x1_0000
  {
    var s0, s1 := a / 4, a % 4 * 16;
    MapsInverse(s0);
    MapsInverse(s1);
    assert Tail([a]) == [EncMap(s0), EncMap(s1), PAD, PAD];
    hide EncMap;
    BitsOfGroup(s0, s1, 0, 0, Tail([a]));
    hide Bits;
  }

  lemma TailOfTwo(a: byte, b: byte)
    ensures Bits(Tail([a, b])) == a * 0x1_0000 + b * 0x100
  {
    var s0, s1, s2 := a / 4, a % 4 * 16 + b / 16, b % 16 * 4;
    MapsInverse(s0);
    MapsInverse(s1);
    MapsInverse(s2);
    assert Tail([a, b]) == [EncMap(s0), EncMap(s1), EncMap(s2), PAD];
    hide EncMap;
    BitsOfGroup(s0, s1, s2, 0, Tail([a, b]));
    hide Bits;
  }

  lemma BytesBack(a: byte, b: byte, c: byte)
    ensures ThreeBytes((a * 0x100 + b) * 0x100 + c) == [a, b, c]
  {
    BytesOf24((a * 0x100 + b) * 0x100 + c, 0, a, b, c);
  }

  lemma {:induction false} NoPads(u: seq<byte>)
    requires forall i :: 0 <= i < |u| ==> u[i] != PAD
    ensures Pads(u) == 0
  {
    if u != [] {
      NoPads(u[..|u| - 1]);
    }
  }

  ghost predicate Clean(u: seq<byte>)
  {
    forall i :: 0 <= i < |u| ==> IsSymbol(u[i]) && !IsBreak(u[i]) && u[i] != PAD
  }

  lemma {:induction false} GroupsClean(m: seq<byte>)
    requires |m| % 3 == 0
    ensures Clean(Groups(m))
    decreases |m|
  {
    if m != [] {
      var k := |m| - 3;
      GroupsClean(m[..k]);
      GroupIsClean(m[k], m[k + 1], m[k + 2]);
      hide Group, IsSymbol, IsBreak;
    }
  }

  lemma GroupIsClean(a: byte, b: byte, c: byte)
    ensures Clean(Group(a, b, c))
  {
    MapsInverse(a / 4);
    MapsInverse(a % 4 * 16 + b / 16);
    MapsInverse(b % 16 * 4 + c / 64);
    MapsInverse(c % 64);
    hide EncMap, DecMap;
  }

  /** One more group after groups without '='. */
  lemma DecodeSnoc(u: seq<byte>, g: seq<byte>)
    requires |u| % 4 == 0 && |g| == 4 && Clean(u) && Pads(g) <= 3
    ensures DecodeTo(u + g) == DecodeTo(u) + ThreeBytes(Bits(g))[..3 - Pads(g)]
  {
    NoPads(u);
    PadsSplit(u + g, |u|);
    assert (u + g)[..|u|] == u && (u + g)[|u|..] == g;
    hide Pads, Bits, ThreeBytes, Clean;
  }

  lemma GroupsLength(m: seq<byte>)
    requires |m| % 3 == 0
    ensures |Groups(m)| % 4 == 0
  {
    hide Groups;
  }

  lemma TailLength(t: seq<byte>)
    requires |t| < 3
    ensures |Tail(t)| % 4 == 0 && (t != [] ==> |Tail(t)| == 4) && (t == [] ==> Tail(t) == [])
  {
    hide Group;
  }

  lemma GroupBack(u: seq<byte>, a: byte, b: byte, c: byte)
    requires |u| % 4 == 0 && Clean(u)
    ensures DecodeTo(u + Group(a, b, c)) == DecodeTo(u) + [a, b, c]
  {
    var g := Group(a, b, c);
    hide *;
    GroupIsClean(a, b, c);
    CleanPads(g);
    DecodeSnoc(u, g);
    GroupBits(a, b, c);
    BytesBack(a, b, c);
  }

  lemma CleanPads(u: seq<byte>)
    requires Clean(u)
    ensures Pads(u) == 0
  {
    hide IsSymbol, IsBreak;
    NoPads(u);
  }

  /** Whole triples come back. */
  lemma {:induction false} GroupsBack(m: seq<byte>)
    requires |m| % 3 == 0
    ensures |Groups(m)| % 4 == 0 && DecodeTo(Groups(m)) == m
    decreases |m|
  {
    GroupsLength(m);
    if m != [] {
      var k := |m| - 3;
      assert Groups(m) == Groups(m[..k]) + Group(m[k], m[k + 1], m[k + 2]);
      hide *;
      GroupsLength(m[..k]);
      GroupsLength(m);
      GroupsBack(m[..k]);
      GroupsClean(m[..k]);
      GroupBack(Groups(m[..k]), m[k], m[k + 1], m[k + 2]);
      assert m == m[..k] + [m[k], m[k + 1], m[k + 2]];
    }
  }

  lemma TailOne(a: byte)
    ensures Pads(Tail([a])) == 2 && ThreeBytes(Bits(Tail([a])))[..1] == [a]
  {
    var g, t := Group(a, 0, 0), Tail([a]);
    var s0, s1 := a / 4, a % 4 * 16;
    MapsInverse(s0);
    MapsInverse(s1);
    PadsOfFour(t);
    assert t == [EncMap(s0), EncMap(s1), PAD, PAD];
    hide EncMap;
    BitsOfGroup(s0, s1, 0, 0, t);
    BytesOf24(((s0 * 64 + s1) * 64 + 0) * 64 + 0, 0, a, 0, 0);
    hide ThreeBytes, Bits;
  }

  lemma TailTwo(a: byte, b: byte)
    ensures Pads(Tail([a, b])) == 1 && ThreeBytes(Bits(Tail([a, b])))[..2] == [a, b]
  {
    var t := Tail([a, b]);
    var s0, s1, s2 := a / 4, a % 4 * 16 + b / 16, b % 16 * 4;
    MapsInverse(s0);
    MapsInverse(s1);
    MapsInverse(s2);
    PadsOfFour(t);
    assert t == [EncMap(s0), EncMap(s1), EncMap(s2), PAD];
    hide EncMap;
    BitsOfGroup(s0, s1, s2, 0, t);
    BytesOf24(((s0 * 64 + s1) * 64 + s2) * 64 + 0, 0, a, b, 0);
    hide ThreeBytes, Bits;
  }

  lemma PadsOfFour(t: seq<byte>)
    requires |t| == 4
    ensures Pads(t) == (if t[0] == PAD then 1 else 0) + (if t[1] == PAD then 1 else 0) + (if t[2] == PAD then 1 else 0)
      + (if t[3] == PAD then 1 else 0)
  {
    assert t[..3][..2] == t[..2] && t[..2][..1] == t[..1] && t[..1][..0] == [];
    assert Pads(t[..1]) == if t[0] == PAD then 1 else 0;
    assert Pads(t[..2]) == Pads(t[..1]) + if t[1] == PAD then 1 else 0;
    assert Pads(t[..3]) == Pads(t[..2]) + if t[2] == PAD then 1 else 0;
  }

  lemma TailBack(u: seq<byte>, t: seq<byte>)
    requires |u| % 4 == 0 && Clean(u) && |t| < 3
    ensures |u + Tail(t)| % 4 == 0 && DecodeTo(u + Tail(t)) == DecodeTo(u) + t
  {
    hide *;
    TailLength(t);
    if t == [] {
      assert u + [] == u;
      assert DecodeTo(u) + [] == DecodeTo(u);
    } else if |t| == 1 {
      assert t == [t[0]];
      TailOne(t[0]);
      DecodeSnoc(u, Tail(t));
    } else {
      assert t == [t[0], t[1]];
      TailTwo(t[0], t[1]);
      DecodeSnoc(u, Tail(t));
    }
  }

  /** Decoding the symbols of an encoding gives the bytes back. */
  lemma EncodedBack(m: seq<byte>)
    ensures |Encoded(m)| % 4 == 0 && DecodeTo(Encoded(m)) == m
  {
    EncodedIs(m, |m| / 3 * 3);
    hide *;
    EncodedBackAt(m, |m| / 3 * 3);
  }

  lemma EncodedBackAt(m: seq<byte>, k: nat)
    requires k % 3 == 0 && k <= |m| < k + 3 && Encoded(m) == Groups(m[..k]) + Tail(m[k..])
    ensures |Encoded(m)| % 4 == 0 && DecodeTo(Encoded(m)) == m
  {
    hide *;
    GroupsBack(m[..k]);
    GroupsClean(m[..k]);
    TailBack(Groups(m[..k]), m[k..]);
    assert m == m[..k] + m[k..];
  }

  /** An encoding contains nothing to strip, and '=' only at its end. */
  lemma EncodedShape(m: seq<byte>)
    ensures Tidy(Encoded(m)) && Pads(Encoded(m)) <= 2
    ensures forall i :: 0 <= i < |Encoded(m)| ==> IsSymbol(Encoded(m)[i]) || Encoded(m)[i] == PAD
    ensures forall i :: 0 <= i < |Encoded(m)| ==> !IsBreak(Encoded(m)[i])
  {
    var k := |m| / 3 * 3;
    EncodedIs(m, k);
    var u, t := Groups(m[..k]), Tail(m[k..]);
    GroupsClean(m[..k]);
    CleanPads(u);
    TailShape(m[k..]);
    hide Encoded, Groups, Tail, IsSymbol, IsBreak;
    TidyConcat(u, t);
  }

  lemma TidyConcat(u: seq<byte>, t: seq<byte>)
    requires Clean(u) && Tidy(t)
    ensures Tidy(u + t) && Pads(u + t) == Pads(t)
  {
    hide Pads, IsSymbol, IsBreak;
    CleanPads(u);
    PadsSplit(u + t, |u|);
    assert (u + t)[..|u|] == u && (u + t)[|u|..] == t;
    forall i | 0 <= i < |u + t| && (u + t)[i] != PAD
      ensures Pads((u + t)[..i]) == 0
    {
      if i <= |u| {
        NoPads((u + t)[..i]);
      } else {
        PadsSplit((u + t)[..i], |u|);
        assert (u + t)[..i][..|u|] == u && (u + t)[..i][|u|..] == t[..i - |u|];
      }
    }
  }

  lemma TailShape(t: seq<byte>)
    requires |t| < 3
    ensures Tidy(Tail(t)) && Pads(Tail(t)) <= 2
    ensures forall i :: 0 <= i < |Tail(t)| ==> (IsSymbol(Tail(t)[i]) || Tail(t)[i] == PAD) && !IsBreak(Tail(t)[i])
  {
    if |t| == 0 {
      assert Pads([]) == 0;
    } else {
      var b := if |t| == 1 then 0 else t[1];
      GroupIsClean(t[0], b, 0);
      var g, w := Group(t[0], b, 0), Tail(t);
      hide Group;
      PadsOfFour(w);
      NoPads(w[..0]);
      NoPads(w[..1]);
      NoPads(w[..2]);
      hide Pads;
    }
  }

  // ---------------------------------------------------------------- with line breaks

  /** Line breaks, and nothing else to strip: every CR is followed by LF and there are no spaces. */
  ghost predicate BrokenCleanly(s: seq<byte>)
  {
    forall i :: 0 <= i < |s| ==> BreaksAt(s, i)
  }

  ghost predicate BreaksAt(s: seq<byte>, i: nat)
    requires i < |s|
  {
    s[i] != SPACE && (s[i] == CR ==> i + 1 < |s| && s[i + 1] == LF)
  }

  /** An encoding cut into lines, with "\n" or "\r\n", is accepted and decodes to the same bytes. */
  lemma LinesDecode(m: seq<byte>, s: seq<byte>)
    requires Strip(s) == Encoded(m) && BrokenCleanly(s)
    ensures Accepted(s) && Decoded(s) == m
  {
    EncodedShape(m);
    EncodedBack(m);
    forall i | 0 <= i < |s|
      ensures Fine(s, i)
    {
      FineInside(s, i, Encoded(m));
    }
    WholeDecoded(s);
  }

  lemma WholeDecoded(s: seq<byte>)
    requires |Strip(s)| % 4 == 0
    ensures Decoded(s) == DecodeTo(Strip(s))
  {
    hide DecodeTo, Strip;
    var u := Strip(s);
    assert u[..|u| - 0] == u;
  }

  lemma FineInside(s: seq<byte>, i: nat, e: seq<byte>)
    requires BrokenCleanly(s) && i < |s| && Strip(s) == e && Tidy(e) && Pads(e) <= 2
    requires forall k :: 0 <= k < |e| ==> IsSymbol(e[k]) || e[k] == PAD
    ensures Fine(s, i)
  {
    hide *;
    var u := Strip(s[..i]);
    if IsBreak(s[i]) {
      BreakFine(s, i);
    } else {
      BreakOrNot(s, i);
      PadsStrip(s[..i]);
      StripSnoc(s, i);
      StripPrefix(s, i + 1);
      assert e[..|u| + 1] == u + [s[i]];
      assert e[|u|] == s[i] && e[..|u|] == u;
      PadsBefore(e, |u|);
      if s[i] != PAD {
        assert Pads(e[..|u|]) == 0 by {
          TidyAt(e, |u|);
        }
      }
    }
  }

  lemma BreakFine(s: seq<byte>, i: nat)
    requires BrokenCleanly(s) && i < |s| && IsBreak(s[i])
    ensures Fine(s, i)
  {
    assert BreaksAt(s, i);
    hide Pads, SkipSpaces;
  }

  lemma TidyAt(e: seq<byte>, k: nat)
    requires Tidy(e) && k < |e| && e[k] != PAD
    ensures Pads(e[..k]) == 0
  {
  }

  lemma BreakOrNot(s: seq<byte>, i: nat)
    requires i < |s| && !IsBreak(s[i])
    ensures Fine(s, i) <==> (if s[i] == PAD then Pads(s[..i]) < 2 else IsSymbol(s[i]) && Pads(s[..i]) == 0)
  {
    hide Pads, SkipSpaces, AtBreak, IsSymbol;
  }

  lemma PadsBefore(e: seq<byte>, k: nat)
    requires k < |e| && Pads(e) <= 2
    ensures e[k] == PAD ==> Pads(e[..k]) < 2
  {
    if e[k] == PAD {
      PadsSplit(e, k);
      PadsSplit(e[k..], 1);
      assert e[k..][..1] == [e[k]];
      assert Pads([e[k]]) == 1 by {
        assert [e[k]][..0] == [];
      }
    }
  }

  lemma {:induction false} StripPrefix(s: seq<byte>, i: nat)
    requires i <= |s|
    ensures Strip(s[..i]) <= Strip(s)
    decreases |s| - i
  {
    if i < |s| {
      StripPrefix(s, i + 1);
      StripSnoc(s, i);
    } else {
      assert s[..i] == s;
    }
  }

  /** Decoding undoes encoding. */
  lemma RoundTrip(m: seq<byte>)
    ensures Accepted(Encoded(m)) && Decoded(Encoded(m)) == m
  {
    EncodedShape(m);
    StripClean(Encoded(m));
    NoBreaks(Encoded(m));
    hide *;
    LinesDecode(m, Encoded(m));
  }

  lemma NoBreaks(s: seq<byte>)
    requires forall i :: 0 <= i < |s| ==> !IsBreak(s[i])
    ensures BrokenCleanly(s)
  {
    forall i | 0 <= i < |s|
      ensures BreaksAt(s, i)
    {
    }
  }

  lemma {:induction false} StripClean(u: seq<byte>)
    requires forall i :: 0 <= i < |u| ==> !IsBreak(u[i])
    ensures Strip(u) == u
  {
    hide IsBreak;
    if u != [] {
      StripClean(u[..|u| - 1]);
    }
  }
}
