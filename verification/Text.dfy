/** MPIs as strings in radix 2 to 16. */
module MpiText {
  import opened Numbers
  import opened Limbs
  import opened MpiCore
  import opened MpiBits
  import opened MpiArith
  import opened MpiDivision
  import opened MpiBytes
  import opened MpiModInt
  import opened Wrappers

  // ---------------------------------------------------------------- digits

  /** The integer a big-endian digit string spells. */
  function DigitsVal(r: nat, ds: seq<nat>): nat
  {
    if ds == [] then 0 else r * DigitsVal(r, ds[..|ds| - 1]) + ds[|ds| - 1]
  }

  ghost predicate AllBelow(ds: seq<nat>, r: nat)
  {
    forall i :: 0 <= i < |ds| ==> ds[i] < r
  }

  lemma {:induction false} DigitsFront(r: nat, d: nat, ds: seq<nat>)
    ensures DigitsVal(r, [d] + ds) == d * Pow(r, |ds|) + DigitsVal(r, ds)
  {
    if ds == [] {
      assert [d][..0] == [];
    } else {
      var t := ds[..|ds| - 1];
      DigitsFront(r, d, t);
      assert ([d] + ds)[..|ds|] == [d] + t;
      Distr(r, d * Pow(r, |t|), DigitsVal(r, t));
      Assoc(r, d, Pow(r, |t|));
      Assoc(d, r, Pow(r, |t|));
    }
  }

  lemma {:induction false} DigitsBound(r: nat, ds: seq<nat>)
    requires AllBelow(ds, r)
    ensures DigitsVal(r, ds) < Pow(r, |ds|)
  {
    if ds != [] {
      var t := ds[..|ds| - 1];
      DigitsBound(r, t);
      MulMono(DigitsVal(r, t) + 1, Pow(r, |t|), r);
      Distr(r, DigitsVal(r, t), 1);
    }
  }

  /** '0' to '9', 'A' to 'F'. */
  function DigitChar(d: nat): char
    requires d < 16
  {
    if d < 10 then (48 + d) as char else (65 + (d - 10)) as char
  }

  /** mpi_get_digit: 255 for a character that is no digit at all. */
  function GetDigit(c: char): nat
  {
    if 0x30 <= c as int <= 0x39 then c as int - 0x30
    else if 0x41 <= c as int <= 0x46 then c as int - 0x37
    else if 0x61 <= c as int <= 0x66 then c as int - 0x57
    else 255
  }

  /** The digits are the usual ones, and lower-case letters are read as well. */
  lemma DigitsAreHex(d: nat, c: char)
    requires d < 16
    ensures DigitChar(d) == "0123456789ABCDEF"[d]
    ensures GetDigit(c) == d <==> c == "0123456789ABCDEF"[d] || c == "0123456789abcdef"[d]
  {
  }

  lemma DigitCharRead(d: nat)
    requires d < 16
    ensures GetDigit(DigitChar(d)) == d && DigitChar(d) != '-'
  {
  }

  function CharsOf(ds: seq<nat>): (s: string)
    requires forall i :: 0 <= i < |ds| ==> ds[i] < 16
    ensures |s| == |ds|
  {
    seq(|ds|, i requires 0 <= i < |ds| => DigitChar(ds[i]))
  }

  function DigitsOf(s: string): (ds: seq<nat>)
    ensures |ds| == |s|
  {
    seq(|s|, i requires 0 <= i < |s| => GetDigit(s[i]))
  }

  lemma CharsRead(ds: seq<nat>)
    requires AllBelow(ds, 16)
    ensures DigitsOf(CharsOf(ds)) == ds
  {
    hide DigitChar, GetDigit;
    forall i | 0 <= i < |ds|
      ensures GetDigit(DigitChar(ds[i])) == ds[i]
    {
      DigitCharRead(ds[i]);
    }
  }

  /** A string is an optional '-' and digits of the radix; nothing at all is zero. */
  ghost function Parse(r: nat, s: string): Option<int>
  {
    var neg := |s| > 0 && s[0] == '-';
    var ds := DigitsOf(if neg then s[1..] else s);
    if !AllBelow(ds, r) then None
    else if neg then Some(0 - DigitsVal(r, ds))
    else Some(DigitsVal(r, ds))
  }

  function SignText(s: sign): string
  {
    if s == -1 then "-" else ""
  }

  /** What writing produces: a sign when there is one, and digits. */
  ghost predicate Spells(r: nat, s: sign, v: nat, text: string)
  {
    exists ds :: SpelledBy(r, s, v, text, ds)
  }

  ghost predicate SpelledBy(r: nat, s: sign, v: nat, text: string, ds: seq<nat>)
  {
    |ds| > 0 && r <= 16 && AllBelow(ds, r) && DigitsVal(r, ds) == v && text == SignText(s) + CharsOf(ds)
  }

  /** Reading back what was written gives the same integer. */
  lemma SpelledParses(r: nat, s: sign, v: nat, text: string)
    requires 2 <= r <= 16 && Spells(r, s, v, text)
    ensures Parse(r, text) == Some(Signed(s, v))
  {
    var ds :| SpelledBy(r, s, v, text, ds);
    ReadText(s, text, ds);
    hide DigitsVal, DigitsOf, CharsOf;
  }

  lemma ReadText(s: sign, text: string, ds: seq<nat>)
    requires |ds| > 0 && AllBelow(ds, 16) && text == SignText(s) + CharsOf(ds)
    ensures |text| > 0 && (text[0] == '-' <==> s == -1)
    ensures DigitsOf(if text[0] == '-' then text[1..] else text) == ds
  {
    hide GetDigit, DigitChar;
    CharsRead(ds);
    DigitCharRead(ds[0]);
    assert (if s == -1 then text[1..] else text) == CharsOf(ds);
  }

  // ---------------------------------------------------------------- reading, radix 2 to 15

  datatype TextRet = Done | BadInput | InvalidCharacter | BufferTooSmall

  lemma {:induction false} SnocDigit(r: nat, s: string, i: nat)
    requires i < |s|
    ensures DigitsVal(r, DigitsOf(s[..i + 1])) == r * DigitsVal(r, DigitsOf(s[..i])) + GetDigit(s[i])
  {
    hide GetDigit;
    assert DigitsOf(s[..i + 1])[..i] == DigitsOf(s[..i]);
  }

  /** The loop over the digits of a string without its sign; X carries the sign already. */
  method ReadDigits(X: Mpi, r: nat, s: string) returns (ok: bool)
    requires 2 <= r < 16 && X.Mag() == 0 && |X.p| >= 1
    modifies X
    ensures ok <==> AllBelow(DigitsOf(s), r)
    ensures ok ==> X.Mag() == DigitsVal(r, DigitsOf(s)) && X.s == old(X.s)
  {
    hide Val, Pow, GetDigit, DigitsVal;
    NoDigits(r);
    DigitIsLimb();
    for i := 0 to |s|
      invariant |X.p| >= 1 && X.s == old(X.s)
      invariant X.Mag() == DigitsVal(r, DigitsOf(s[..i])) && AllBelow(DigitsOf(s[..i]), r)
    {
      var d := GetDigit(s[i]);
      SnocDigit(r, s, i);
      if d >= r {
        assert DigitsOf(s)[i] == d;
        return false;
      }
      var T := new Mpi();
      MulInt(T, X, r);
      StepDigit(X, T, d);
      MulSwap(r, DigitsVal(r, DigitsOf(s[..i])));
      BelowSnoc(r, s, i);
    }
    assert s[..|s|] == s;
    return true;
  }

  lemma BelowSnoc(r: nat, s: string, i: nat)
    requires i < |s| && AllBelow(DigitsOf(s[..i]), r) && GetDigit(s[i]) < r
    ensures AllBelow(DigitsOf(s[..i + 1]), r)
  {
    hide GetDigit;
    assert DigitsOf(s[..i + 1]) == DigitsOf(s[..i]) + [GetDigit(s[i])];
  }

  lemma MulSwap(a: int, b: int)
    ensures a * b == b * a
  {
  }

  lemma NoDigits(r: nat)
    ensures DigitsVal(r, DigitsOf("")) == 0
  {
  }

  lemma DigitIsLimb()
    ensures 16 < BASE && 16 < Pow(2, BIL - 1)
  {
    BaseBound();
    BaseEven();
  }

  /** `if( X->s == 1 ) X = T + d; else X = T - d;`: away from zero either way. */
  method StepDigit(X: Mpi, T: Mpi, d: nat)
    requires X != T && d < 16 && |T.p| >= 1 && |X.p| >= 1 && T.s == X.s
    modifies X
    ensures X.s == old(X.s) && |X.p| >= 1 && X.Mag() == T.Mag() + d
  {
    hide Val, Pow;
    DigitIsLimb();
    if X.s == 1 {
      AddInt(X, T, d);
    } else {
      SubInt(X, T, d);
    }
  }

  // ---------------------------------------------------------------- reading, radix 16

  /** Hexadecimal digits in a limb. */
  function Nibbles(): (k: nat)
    ensures k == 8 || k == 16
  {
    BIL / 4
  }

  lemma PlaceIsNibbles(k: nat)
    ensures Place(k) == Pow(16, Nibbles() * k)
  {
    hide Pow;
    PlaceIsBits(k);
    assert Pow(2, 4) == 16 by {
      PowAdd(2, 2, 2);
      PowTwice(1);
      PowOne(2);
    }
    PowMul(2, 4, Nibbles() * k);
    Assoc(4, Nibbles(), k);
  }

  lemma NibbleFits(x: nat, y: nat, place: nat, b: nat)
    requires x < place && y < 16 && 16 * place <= b
    ensures 0 <= x + y * place < b
  {
    MulMono(y, 15, place);
    MulPos(y, place);
  }

  lemma Pow16Step(r: nat)
    ensures Pow(16, r + 1) == 16 * Pow(16, r)
  {
  }

  /** A limb with r digits in it has room for one more, so `|=` is addition. */
  lemma RoomForNibble(p: seq<limb>, k: nat, r: nat, y: nat)
    requires k < |p| && r < Nibbles() && y < 16 && Val(p) < Pow(16, Nibbles() * k + r)
    ensures p[k] < Pow(16, r) && 0 <= p[k] + y * Pow(16, r) < BASE
  {
    hide Pow, Val, Place;
    PlaceIsNibbles(k);
    PowAdd(16, Nibbles() * k, r);
    LimbBound(p, k, Pow(16, r));
    PlaceIsNibbles(1);
    PlaceFacts(0);
    PowMono(16, r + 1, Nibbles());
    Pow16Step(r);
    NibbleFits(p[k], y, Pow(16, r), BASE);
  }

  /** Digit j from the end goes to limb j / (2 ciL), shifted by 4 (j % (2 ciL)). */
  lemma NibbleStep(p: seq<limb>, k: nat, r: nat, y: nat, low: seq<nat>)
    requires k < |p| && r < Nibbles() && |low| == Nibbles() * k + r && y < 16 && AllBelow(low, 16)
    requires Val(p) == DigitsVal(16, low)
    ensures p[k] < Pow(16, r) && 0 <= p[k] + y * Pow(16, r) < BASE
    ensures Val(p[k := p[k] + y * Pow(16, r)]) == DigitsVal(16, [y] + low)
  {
    hide Pow, Val, Place, DigitsVal;
    DigitsBound(16, low);
    RoomForNibble(p, k, r, y);
    ValUpdate(p, k, p[k] + y * Pow(16, r));
    PlaceIsNibbles(k);
    PowAdd(16, r, Nibbles() * k);
    Assoc(y, Pow(16, r), Place(k));
    DigitsFront(16, y, low);
  }

  lemma NibbleIndex(j: nat, n: nat)
    requires j < n
    ensures j / Nibbles() < BitsToLimbs(4 * n) && j == Nibbles() * (j / Nibbles()) + j % Nibbles()
  {
  }

  lemma ConsDigit(s: string, i: nat)
    requires i < |s|
    ensures DigitsOf(s[i..]) == [GetDigit(s[i])] + DigitsOf(s[i + 1..])
  {
    hide GetDigit;
  }

  /** The radix 16 branch: digits from the last back to a possible '-'. */
  method ReadHex(X: Mpi, s: string) returns (ok: bool)
    modifies X
    ensures ok <==> Parse(16, s).Some?
    ensures ok ==> X.Int() == Parse(16, s).value
  {
    hide Val, Pow, Place, GetDigit, DigitsVal, Nibbles, BitsToLimbs;
    PowPos(2, BIL - 1);
    Grow(X, BitsToLimbs(4 * |s|));
    Lset(X, 0);
    NoDigits(16);
    assert s[|s|..] == "";
    var i, j := |s|, 0;
    while i > 0
      invariant 0 <= i <= |s| && j == |s| - i && |X.p| >= BitsToLimbs(4 * |s|) && X.s == 1
      invariant AllBelow(DigitsOf(s[i..]), 16) && X.Mag() == DigitsVal(16, DigitsOf(s[i..]))
    {
      if i == 1 && s[i - 1] == '-' {
        X.s := -1;
        return true;
      }
      var d := GetDigit(s[i - 1]);
      ConsDigit(s, i - 1);
      if d >= 16 {
        HexRefused(s, i - 1);
        return false;
      }
      NibbleIndex(j, |s|);
      NibbleStep(X.p, j / Nibbles(), j % Nibbles(), d, DigitsOf(s[i..]));
      X.p := X.p[j / Nibbles() := X.p[j / Nibbles()] + d * Pow(16, j % Nibbles())];
      i := i - 1;
      j := j + 1;
    }
    assert s[0..] == s;
    NoDash(s);
    return true;
  }

  lemma NoDash(s: string)
    requires AllBelow(DigitsOf(s), 16)
    ensures |s| > 0 ==> s[0] != '-'
  {
    if |s| > 0 {
      assert DigitsOf(s)[0] == GetDigit(s[0]);
    }
  }

  lemma HexRefused(s: string, i: nat)
    requires i < |s| && GetDigit(s[i]) >= 16 && !(i == 0 && s[i] == '-')
    ensures Parse(16, s).None?
  {
    hide GetDigit;
    if s[0] == '-' {
      assert DigitsOf(s[1..])[i - 1] == GetDigit(s[i]);
    } else {
      assert DigitsOf(s)[i] == GetDigit(s[i]);
    }
  }

  /** mbedtls_mpi_read_string. */
  method ReadString(X: Mpi, radix: int, s: string) returns (ret: TextRet)
    modifies X
    ensures ret == if radix < 2 || radix > 16 then BadInput else if Parse(radix, s).Some? then Done else InvalidCharacter
    ensures ret == Done ==> X.Int() == Parse(radix, s).value
  {
    hide Val, Pow, GetDigit, DigitsVal;
    if radix < 2 || radix > 16 {
      return BadInput;
    }
    PowPos(2, BIL - 1);
    if radix == 16 {
      var ok := ReadHex(X, s);
      return if ok then Done else InvalidCharacter;
    }
    Lset(X, 0);
    var digits := s;
    if |s| > 0 && s[0] == '-' {
      X.s := -1;
      digits := s[1..];
    }
    var ok := ReadDigits(X, radix, digits);
    return if ok then Done else InvalidCharacter;
  }

  // ---------------------------------------------------------------- writing, radix 2 to 15

  lemma RadixFits(r: nat)
    requires r <= 16
    ensures r <= Half() && r < Pow(2, BIL - 1)
  {
    hide Pow;
    DigitIsLimb();
    if Half() <= 16 {
      BaseBound();
      MulMono(Half(), 16, Half());
      MulMono(Half(), 16, 16);
    }
  }

  lemma PeelDigit(v: nat, r: nat, ds: seq<nat>)
    requires r > 0
    ensures v * Pow(r, |ds|) + DigitsVal(r, ds) == (v / r) * Pow(r, |ds| + 1) + DigitsVal(r, [v % r] + ds)
  {
    hide Pow, DigitsVal;
    DigitsFront(r, v % r, ds);
    var q := QuotRem(v, r);
    PowAdd(r, |ds|, 1);
    PowOne(r);
    Distr(Pow(r, |ds|), q.0 * r, q.1);
    Assoc(q.0, r, Pow(r, |ds|));
  }

  lemma ConsChars(d: nat, ds: seq<nat>)
    requires d < 16 && AllBelow(ds, 16)
    ensures CharsOf([d] + ds) == [DigitChar(d)] + CharsOf(ds)
  {
    hide DigitChar;
  }

  lemma ConsBelow(d: nat, ds: seq<nat>, r: nat)
    requires d < r <= 16 && AllBelow(ds, r)
    ensures AllBelow([d] + ds, r) && AllBelow(ds, 16) && AllBelow([d] + ds, 16)
  {
  }

  /** The state of mpi_write_hlp: v is still to be written in front of the digits ds. */
  ghost predicate Writing(r: nat, v0: nat, v: nat, ds: seq<nat>, out: string)
  {
    r <= 16 && AllBelow(ds, r) && out == CharsOf(ds) && v0 == v * Pow(r, |ds|) + DigitsVal(r, ds)
  }

  lemma WriteStep(r: nat, v0: nat, v: nat, ds: seq<nat>, out: string, q: nat, d: nat)
    requires 2 <= r <= 16 && d < r && q == v / r && d == v % r && Writing(r, v0, v, ds, out)
    ensures Writing(r, v0, q, [d] + ds, [DigitChar(d)] + out)
  {
    hide Pow, DigitsVal, DigitChar, CharsOf;
    ConsBelow(d, ds, r);
    PeelDigit(v, r, ds);
    ConsChars(d, ds);
  }

  lemma StillLarge(r: nat, v0: nat, v: nat, ds: seq<nat>, out: string, k: nat)
    requires 2 <= r && Writing(r, v0, v, ds, out) && v > 0 && k <= |ds|
    ensures v0 >= Pow(r, k)
  {
    hide DigitsVal, Pow;
    PowMono(r, k, |ds|);
    PowPos(r, |ds|);
    MulMono(1, v, Pow(r, |ds|));
  }

  lemma Quotient(v: nat, r: nat)
    requires 2 <= r
    ensures v / r <= v && (v > 0 ==> v / r < v)
  {
    var q := QuotRem(v, r);
    MulMono(2, r, q.0);
  }

  /** mpi_write_hlp: digits from the lowest up, at least one, moved to the front of the buffer. */
  method WriteHlp(T: Mpi, r: nat, buflen: nat, ghost room: nat) returns (ok: bool, out: string)
    requires |T.p| > 0 && T.s == 1 && 2 <= r < 16
    modifies T
    ensures ok ==> |out| <= buflen && Spells(r, 1, old(T.Mag()), out)
    ensures 0 < room && old(T.Mag()) < Pow(r, room) ==> (room <= buflen ==> ok) && (ok ==> |out| <= room)
  {
    hide Val, Pow, DigitsVal, DigitChar, CharsOf, Writing, Spells;
    RadixFits(r);
    ghost var v0: nat, ds: seq<nat> := T.Mag(), [];
    out := "";
    WriteNothing(r, v0);
    var more := true;
    while more
      invariant Writing(r, v0, T.Mag(), ds, out) && |out| == |ds| <= buflen
      invariant 0 < room && v0 < Pow(r, room) ==> |ds| <= room
      invariant if more then |T.p| > 0 && T.Int() == T.Mag() && (|ds| > 0 ==> T.Mag() > 0) else T.Mag() == 0 && |ds| > 0
      decreases more, T.Mag()
    {
      if 0 < room <= |ds| {
        StillLarge(r, v0, T.Mag(), ds, out, room);
      }
      if |out| >= buflen {
        return false, out;
      }
      ghost var v := T.Mag();
      var ret, d := ModInt(T, r);
      ret := DivByDigit(T, r);
      WriteStep(r, v0, v, ds, out, v / r, d);
      Quotient(v, r);
      out := [DigitChar(d)] + out;
      ds := [v % r] + ds;
      var z := CmpInt(T, 0);
      more := z != 0;
      if more {
        NonzeroHasLimbs(T.p);
      }
    }
    WrittenOut(r, v0, ds, out);
    return true, out;
  }

  /** `mbedtls_mpi_div_int( X, NULL, X, radix )` for X that is not negative. */
  method DivByDigit(T: Mpi, r: nat) returns (ret: Error)
    requires T.Int() == T.Mag() && 0 < r <= 16
    modifies T
    ensures T.Mag() == old(T.Mag()) / r && T.Int() == T.Mag()
  {
    hide Val, Pow;
    RadixFits(r);
    ret := DivInt(T, null, T, r);
    IntIsMag(T);
  }

  lemma WriteNothing(r: nat, v: nat)
    requires r <= 16
    ensures Writing(r, v, v, [], "")
  {
    PowOne(r);
  }

  lemma WrittenOut(r: nat, v0: nat, ds: seq<nat>, out: string)
    requires Writing(r, v0, 0, ds, out) && |ds| > 0
    ensures Spells(r, 1, v0, out) && |out| == |ds|
  {
    hide DigitsVal, DigitChar, Pow;
    assert SignText(1) + CharsOf(ds) == CharsOf(ds);
    assert SpelledBy(r, 1, v0, out, ds);
  }

  lemma TailVal(p: seq<limb>, i: nat)
    requires i < |p|
    ensures Val(p[i..]) == Val(p[i + 1..]) * BASE + p[i]
  {
    assert p[i..][1..] == p[i + 1..];
  }

  // ---------------------------------------------------------------- writing, radix 16

  /** The digits ds of the bytes seen so far, which are worth hi. Leading zero bytes leave no digits, unless
      the last byte of all is reached. */
  ghost predicate HexState(hi: nat, ds: seq<nat>, out: string, last: bool)
  {
    && AllBelow(ds, 16) && out == CharsOf(ds) && DigitsVal(16, ds) == hi && |ds| % 2 == 0
    && (ds == [] ==> !last) && (ds != [] ==> Pow(256, |ds| / 2 - 1) <= hi || (last && |ds| == 2))
  }

  /** `"0123456789ABCDEF" [c / 16]` and `[c % 16]`. */
  function ByteChars(c: nat): string
    requires c < 256
  {
    [DigitChar(c / 16), DigitChar(c % 16)]
  }

  lemma TwoDigits(ds: seq<nat>, c: nat)
    requires c < 256 && AllBelow(ds, 16)
    ensures var ds' := ds + [c / 16, c % 16];
      AllBelow(ds', 16) && CharsOf(ds') == CharsOf(ds) + ByteChars(c) && DigitsVal(16, ds') == 256 * DigitsVal(16, ds) + c
  {
    hide DigitChar;
    var a, b := ds + [c / 16], ds + [c / 16, c % 16];
    assert a[..|ds|] == ds && b[..|a|] == a;
    assert DigitsVal(16, a) == 16 * DigitsVal(16, ds) + c / 16;
  }

  lemma HexShown(hi: nat, ds: seq<nat>, out: string, c: nat, last: bool)
    requires HexState(hi, ds, out, false) && c < 256 && (c != 0 || ds != [] || last)
    ensures HexState(256 * hi + c, ds + [c / 16, c % 16], out + ByteChars(c), last)
  {
    hide DigitsVal, DigitChar, CharsOf, ByteChars, Pow;
    TwoDigits(ds, c);
    PowOne(256);
    if ds != [] {
      PowAdd(256, 1, |ds| / 2 - 1);
      MulMono(Pow(256, |ds| / 2 - 1), hi, 256);
    }
  }

  lemma HexSkipped(hi: nat, ds: seq<nat>, out: string)
    requires HexState(hi, ds, out, false) && ds == []
    ensures HexState(256 * hi, ds, out, false)
  {
  }

  /** One byte of the inner loop. */
  method WriteByte(c: nat, k: bool, out0: string, last: bool, ghost hi: nat, ghost ds0: seq<nat>)
    returns (out: string, k': bool, ghost ds: seq<nat>)
    requires c < 256 && HexState(hi, ds0, out0, false) && (k <==> ds0 != [])
    ensures HexState(256 * hi + c, ds, out, last) && (k' <==> ds != [])
  {
    hide HexState, ByteChars;
    if c == 0 && !k && !last {
      HexSkipped(hi, ds0, out0);
      return out0, k, ds0;
    }
    HexShown(hi, ds0, out0, c, last);
    return out0 + ByteChars(c), true, ds0 + [c / 16, c % 16];
  }

  /** x with its j lowest bytes taken off. */
  function Above(x: nat, j: nat): nat
  {
    PowPos(256, j);
    x / Pow(256, j)
  }

  lemma AboveStep(x: nat, j: nat)
    ensures Above(x, j) == 256 * Above(x, j + 1) + Above(x, j) % 256
  {
    hide Pow;
    PowPos(256, j);
    PowPos(256, j + 1);
    PowAdd(256, 1, j);
    PowOne(256);
    var a := QuotRem(x, Pow(256, j));
    var b := QuotRem(a.0, 256);
    MulMono(b.1 + 1, 256, Pow(256, j));
    Distr(Pow(256, j), b.0 * 256, b.1);
    Distr(Pow(256, j), b.1, 1);
    Assoc(b.0, 256, Pow(256, j));
    MulPos(b.1, Pow(256, j));
    DivModUnique(x, Pow(256, j + 1), b.0, b.1 * Pow(256, j) + a.1);
  }

  lemma AboveEnds(x: limb)
    ensures Above(x, CiL()) == 0 && Above(x, 0) == x
  {
    hide Pow;
    PlaceIsBytes(1);
    PlaceFacts(0);
    PowOne(256);
    PowPos(256, CiL());
    DivModUnique(x, Pow(256, CiL()), 0, x);
  }

  /** The bytes of one limb, highest first; the limb at the bottom holds the last byte. */
  method WriteLimb(x: limb, bottom: bool, k0: bool, out0: string, ghost hi: nat, ghost ds0: seq<nat>)
    returns (out: string, k: bool, ghost ds: seq<nat>)
    requires HexState(hi, ds0, out0, false) && (k0 <==> ds0 != [])
    ensures HexState(hi * BASE + x, ds, out, bottom) && (k <==> ds != [])
  {
    hide HexState, Above, Pow, Place;
    out, k, ds := out0, k0, ds0;
    var j := CiL();
    ghost var p := 1;
    AboveEnds(x);
    PowOne(256);
    while j > 0
      invariant 0 <= j <= CiL() && p == Pow(256, CiL() - j) && (k <==> ds != [])
      invariant HexState(hi * p + Above(x, j), ds, out, bottom && j == 0)
    {
      AboveStep(x, j - 1);
      Distr(256, hi * p, Above(x, j));
      Assoc(hi, p, 256);
      NextPow(CiL() - j);
      out, k, ds := WriteByte(Above(x, j - 1) % 256, k, out, bottom && j == 1, hi * p + Above(x, j), ds);
      p := p * 256;
      j := j - 1;
    }
    PlaceIsBytes(1);
    PlaceFacts(0);
  }

  lemma NextPow(e: nat)
    ensures Pow(256, e + 1) == Pow(256, e) * 256
  {
  }

  /** Whole bytes, the first of them not zero unless it is the only one. */
  ghost predicate HexSpelled(v: nat, out: string, ds: seq<nat>)
  {
    SpelledBy(16, 1, v, out, ds) && |out| == |ds| && |ds| % 2 == 0 && (|ds| == 2 || Pow(256, |ds| / 2 - 1) <= v)
  }

  /** The radix 16 branch. */
  method WriteHex(X: Mpi) returns (out: string)
    requires |X.p| > 0
    ensures exists ds :: HexSpelled(X.Mag(), out, ds)
  {
    hide HexState, Val, Pow;
    out := "";
    var i: nat, k := |X.p|, false;
    ghost var ds: seq<nat> := [];
    ValZeros(X.p[i..]);
    HexStarts();
    while i > 0
      invariant 0 <= i <= |X.p| && (k <==> ds != [])
      invariant HexState(Val(X.p[i..]), ds, out, i == 0)
    {
      TailVal(X.p, i - 1);
      out, k, ds := WriteLimb(X.p[i - 1], i == 1, k, out, Val(X.p[i..]), ds);
      i := i - 1;
    }
    assert X.p[0..] == X.p;
    HexEnds(X.Mag(), ds, out);
  }

  lemma HexStarts()
    ensures HexState(0, [], "", false)
  {
  }

  lemma HexEnds(v: nat, ds: seq<nat>, out: string)
    requires HexState(v, ds, out, true)
    ensures HexSpelled(v, out, ds)
  {
    hide DigitsVal, DigitChar;
    assert SignText(1) + CharsOf(ds) == CharsOf(ds);
  }

  // ---------------------------------------------------------------- the whole call

  /** The buffer size the source computes from the bit length. */
  function Needed(bits: nat, r: nat): nat
  {
    var n := if r >= 16 then bits / 2 / 2 else if r >= 4 then bits / 2 else bits;
    var m := n + 1 + 1 + 1;
    m + m % 2
  }

  /** Below radix 16 the size covers sign, digits and terminator. */
  lemma NeededCovers(v: nat, bits: nat, r: nat)
    requires 2 <= r < 16 && IsBitlen(v, bits)
    ensures Needed(bits, r) >= 3 && v < Pow(r, Needed(bits, r) - 2)
  {
    hide Pow;
    var k := Needed(bits, r) - 2;
    if r < 4 {
      PowMono(2, bits, k);
      PowBase(2, r, k);
    } else {
      assert Pow(2, 2) == 4 by {
        PowTwice(1);
        PowOne(2);
      }
      PowMul(2, 2, k);
      PowMono(2, bits, 2 * k);
      PowBase(4, r, k);
    }
  }

  lemma {:induction false} PowBase(a: nat, b: nat, k: nat)
    requires a <= b
    ensures Pow(a, k) <= Pow(b, k)
  {
    if k > 0 {
      PowBase(a, b, k - 1);
      MulMono(a, b, Pow(a, k - 1));
      MulMono(Pow(a, k - 1), Pow(b, k - 1), b);
    }
  }

  /** In radix 16 too, where whole bytes are written. */
  lemma NeededCoversHex(v: nat, bits: nat, m: nat)
    requires IsBitlen(v, bits) && (m == 1 || (m > 0 && Pow(256, m - 1) <= v))
    ensures 2 * m + 2 <= Needed(bits, 16)
  {
    hide Pow;
    if m > 1 {
      Pow32();
      PowMul(2, 8, m - 1);
      if bits <= 8 * (m - 1) {
        PowMono(2, bits, 8 * (m - 1));
      }
    }
  }

  lemma Joined(r: nat, s: sign, v: nat, body: string, text: string)
    requires Spells(r, 1, v, body) && text == SignText(s) + body
    ensures Spells(r, s, v, text)
  {
    hide DigitsVal, CharsOf;
    var ds :| SpelledBy(r, 1, v, body, ds);
    assert SignText(1) + CharsOf(ds) == CharsOf(ds);
    assert SpelledBy(r, s, v, text, ds);
  }

  /** mbedtls_mpi_write_string: text is what goes into the buffer before the terminating NUL, olen counts both. */
  method WriteString(X: Mpi, radix: int, buflen: nat) returns (ret: TextRet, text: string, olen: nat)
    requires |X.p| > 0
    ensures ret == BadInput <==> radix < 2 || radix > 16
    ensures ret == Done || ret == BadInput || ret == BufferTooSmall
    ensures ret == Done ==> Spells(radix, X.s, X.Mag(), text) && olen == |text| + 1 <= buflen
    ensures 2 <= radix <= 16 ==> exists bits ::
      IsBitlen(X.Mag(), bits) && (ret == Done <==> Needed(bits, radix) <= buflen) &&
      (ret == BufferTooSmall ==> olen == Needed(bits, radix))
  {
    hide Val, Pow, Spells, Needed;
    if radix < 2 || radix > 16 {
      return BadInput, "", 0;
    }
    var bits := Bitlen(X);
    var n := Needed(bits, radix);
    if buflen < n {
      return BufferTooSmall, "", n;
    }
    text := SignText(X.s);
    if radix == 16 {
      var body := WriteHex(X);
      HexFits(X.Mag(), bits, body);
      Joined(16, X.s, X.Mag(), body, text + body);
      text := text + body;
    } else {
      NeededCovers(X.Mag(), bits, radix);
      PowMono(radix, n - 2, buflen - |text|);
      var body := WriteBody(X, radix, buflen - |text|, n - 2);
      Joined(radix, X.s, X.Mag(), body, text + body);
      text := text + body;
    }
    return Done, text, |text| + 1;
  }

  lemma HexFits(v: nat, bits: nat, body: string)
    requires IsBitlen(v, bits) && exists ds :: HexSpelled(v, body, ds)
    ensures |body| + 2 <= Needed(bits, 16) && Spells(16, 1, v, body)
  {
    hide Needed, SpelledBy;
    var ds :| HexSpelled(v, body, ds);
    assert SpelledBy(16, 1, v, body, ds);
    SpelledSome(v, body, ds);
    NeededCoversHex(v, bits, |ds| / 2);
  }

  lemma SpelledSome(v: nat, body: string, ds: seq<nat>)
    requires SpelledBy(16, 1, v, body, ds)
    ensures |ds| > 0
  {
  }

  /** The digits of |X|; there is room, so mpi_write_hlp does not run out of it. */
  method WriteBody(X: Mpi, r: nat, buflen: nat, ghost room: nat) returns (body: string)
    requires |X.p| > 0 && 2 <= r < 16 && 0 < room <= buflen && X.Mag() < Pow(r, room)
    ensures |body| <= room && Spells(r, 1, X.Mag(), body)
  {
    hide Val, Pow, Spells;
    PowMono(r, room, buflen);
    var T := new Mpi();
    Copy(T, X);
    if T.s == -1 {
      T.s := 1;
    }
    var ok;
    ok, body := WriteHlp(T, r, buflen, room);
  }

  /** A number written in any radix reads back as itself. */
  method WriteThenRead(X: Mpi, Y: Mpi, radix: int, buflen: nat) returns (written: TextRet, back: TextRet)
    requires |X.p| > 0 && 2 <= radix <= 16
    modifies Y
    ensures written == Done || written == BufferTooSmall
    ensures written == Done ==> back == Done && Y.Int() == old(X.Int())
  {
    hide *;
    var text, olen;
    written, text, olen := WriteString(X, radix, buflen);
    back := BufferTooSmall;
    if written == Done {
      SpelledParses(radix, X.s, X.Mag(), text);
      IntIsSigned(X);
      back := ReadString(Y, radix, text);
    }
  }

  lemma IntIsSigned(X: Mpi)
    ensures X.Int() == Signed(X.s, X.Mag())
  {
  }
}
