/** mbedtls_aes_setkey_enc and mbedtls_aes_setkey_dec: KeyExpansion of FIPS 197 section 5.2, and the keys of the
    equivalent inverse cipher. */
module AesKeys {
  import opened Numbers
  import opened Blocks
  import opened Octets
  import opened AesField
  import opened AesSbox
  import opened AesCipher
  import opened AesTables
  import opened AesCode

  // ---------------------------------------------------------------- KeyExpansion

  function RotColumn(a: Column): Column
  {
    Column(a.r1, a.r2, a.r3, a.r0)
  }

  /** Word i of the schedule of a key of nk words: figure 11. */
  ghost function KeyColumn(key: seq<Column>, i: nat): Column
    requires |key| > 0
  {
    var nk := |key|;
    if i < nk then key[i] else
      var temp := KeyColumn(key, i - 1);
      AddColumn(KeyColumn(key, i - nk),
        if i % nk == 0 then AddColumn(SubColumn(RotColumn(temp)), Column(RconByte(i / nk - 1), 0, 0, 0))
        else if nk > 6 && i % nk == 4 then SubColumn(temp)
        else temp)
  }

  /** The first n words of rk are the schedule's. */
  ghost predicate Expanded(rk: seq<bv32>, key: seq<Column>, n: nat)
  {
    |key| > 0 && n <= |rk| && forall k: nat :: k < n ==> Col(rk[k]) == KeyColumn(key, k)
  }

  lemma ExtendedBy(rk: seq<bv32>, key: seq<Column>, n: nat, x: bv32)
    requires Expanded(rk, key, n) && n < |rk| && Col(x) == KeyColumn(key, n)
    ensures Expanded(rk[n := x], key, n + 1)
  {
    hide Col, KeyColumn;
  }

  /** What the schedule does at word nk i + j. */
  lemma KeyColumnAt(key: seq<Column>, i: nat, j: nat)
    requires |key| > 0 && 1 <= i && j < |key|
    ensures 0 <= |key| * i && |key| * i + j >= |key|
    ensures KeyColumn(key, |key| * i + j) == AddColumn(KeyColumn(key, |key| * i + j - |key|),
      var temp := KeyColumn(key, |key| * i + j - 1);
      if j == 0 then AddColumn(SubColumn(RotColumn(temp)), Column(RconByte(i - 1), 0, 0, 0))
      else if |key| > 6 && j == 4 then SubColumn(temp)
      else temp)
  {
    hide AddColumn, SubColumn, RconByte;
    MulMono(1, i, |key|);
    DivModUnique(|key| * i + j, |key|, i, j);
  }

  /** `RK[n] = RK[n-nk] ^ RK[n-1]`. */
  method PlainWord(rk: array<bv32>, ghost key: seq<Column>, n: nat, nk: nat, ghost i: nat, ghost j: nat)
    requires nk == |key| > 0 && 1 <= i && 0 < j < nk && !(nk > 6 && j == 4) && n == nk * i + j && n < rk.Length
    requires Expanded(rk[..], key, n)
    modifies rk
    ensures Expanded(rk[..], key, n + 1)
  {
    hide *;
    KeyColumnAt(key, i, j);
    ExpandedAt(rk[..], key, n, n - nk);
    ExpandedAt(rk[..], key, n, n - 1);
    ColXor(rk[n - nk], rk[n - 1]);
    StoreWord(rk, key, n, XorWords(rk[n - nk], rk[n - 1]));
  }

  lemma BoxedColumn(t: Tables, b0: bv8, b1: bv8, b2: bv8, b3: bv8)
    requires Good(t)
    ensures |t.fsb| == 256
    ensures Col(Packed(LookupByte(t.fsb, b0), LookupByte(t.fsb, b1), LookupByte(t.fsb, b2), LookupByte(t.fsb, b3)))
      == SubColumn(Column(b0, b1, b2, b3))
  {
    TableSizes(t);
    hide Good, Col, Packed, LookupByte, SubByte;
    LookupBoxes(t, b0);
    LookupBoxes(t, b1);
    LookupBoxes(t, b2);
    LookupBoxes(t, b3);
    ColPacked(LookupByte(t.fsb, b0), LookupByte(t.fsb, b1), LookupByte(t.fsb, b2), LookupByte(t.fsb, b3));
  }

  /** `FSb[b0] ^ FSb[b1] << 8 ^ FSb[b2] << 16 ^ FSb[b3] << 24`. */
  function BoxedPack(t: Tables, b0: bv8, b1: bv8, b2: bv8, b3: bv8): bv32
    requires |t.fsb| == 256
  {
    Packed(LookupByte(t.fsb, b0), LookupByte(t.fsb, b1), LookupByte(t.fsb, b2), LookupByte(t.fsb, b3))
  }

  lemma FirstWordIs(t: Tables, a: bv32, rcon: bv32, last: bv32)
    requires Good(t)
    ensures |t.fsb| == 256
    ensures Col(XorWords(XorWords(a, rcon), BoxedPack(t, B1(last), B2(last), B3(last), B0(last))))
      == AddColumn(Col(a), AddColumn(SubColumn(RotColumn(Col(last))), Col(rcon)))
  {
    BoxedColumn(t, B1(last), B2(last), B3(last), B0(last));
    hide Good, AddColumn, SubColumn, Packed, LookupByte, XorWords, B0, B1, B2, B3;
    var boxed := BoxedPack(t, B1(last), B2(last), B3(last), B0(last));
    assert Col(boxed) == SubColumn(RotColumn(Col(last)));
    hide Col, BoxedPack, RotColumn;
    ColXor(XorWords(a, rcon), boxed);
    ColXor(a, rcon);
    ColumnOrder(Col(a), Col(rcon), Col(boxed));
  }

  lemma MiddleWordIs(t: Tables, a: bv32, last: bv32)
    requires Good(t)
    ensures |t.fsb| == 256
    ensures Col(XorWords(a, BoxedPack(t, B0(last), B1(last), B2(last), B3(last)))) == AddColumn(Col(a), SubColumn(Col(last)))
  {
    BoxedColumn(t, B0(last), B1(last), B2(last), B3(last));
    hide Good, AddColumn, SubColumn, Packed, LookupByte, XorWords, B0, B1, B2, B3;
    var boxed := BoxedPack(t, B0(last), B1(last), B2(last), B3(last));
    assert Col(boxed) == SubColumn(Col(last));
    hide Col, BoxedPack;
    ColXor(a, boxed);
  }

  /** `RK[n] = x`. */
  method StoreWord(rk: array<bv32>, ghost key: seq<Column>, n: nat, x: bv32)
    requires n < rk.Length && Expanded(rk[..], key, n) && Col(x) == KeyColumn(key, n)
    modifies rk
    ensures Expanded(rk[..], key, n + 1)
  {
    hide *;
    ExtendedBy(rk[..], key, n, x);
    ghost var before := rk[..];
    rk[n] := x;
    assert rk[..] == before[n := x];
  }

  lemma ExpandedAt(rk: seq<bv32>, key: seq<Column>, n: nat, k: nat)
    requires Expanded(rk, key, n) && k < n
    ensures |key| > 0 && k < |rk| && Col(rk[k]) == KeyColumn(key, k)
  {
    hide Col, KeyColumn;
  }

  lemma FirstColumn(key: seq<Column>, nk: nat, i: nat, n: nat)
    requires nk == |key| > 0 && 1 <= i && n == nk * i && n >= nk
    ensures KeyColumn(key, n) == AddColumn(KeyColumn(key, n - nk),
      AddColumn(SubColumn(RotColumn(KeyColumn(key, n - 1))), Column(RconByte(i - 1), 0, 0, 0)))
  {
    hide *;
    KeyColumnAt(key, i, 0);
  }

  /** The first word of a group: the rotated and substituted previous word, and the round constant. */
  method RconWord(t: Tables, rk: array<bv32>, ghost key: seq<Column>, n: nat, nk: nat, i: nat)
    requires Good(t) && |t.rcon| == 10 && nk == |key| > 0 && 1 <= i <= 10 && n == nk * i && nk <= n < rk.Length
    requires Expanded(rk[..], key, n)
    modifies rk
    ensures Expanded(rk[..], key, n + 1)
  {
    hide *;
    FirstColumn(key, nk, i, n);
    RconRight(t, i - 1);
    ExpandedAt(rk[..], key, n, n - nk);
    ExpandedAt(rk[..], key, n, n - 1);
    var last := rk[n - 1];
    FirstWordIs(t, rk[n - nk], t.rcon[i - 1], last);
    StoreWord(rk, key, n,
      XorWords(XorWords(rk[n - nk], t.rcon[i - 1]), BoxedPack(t, B1(last), B2(last), B3(last), B0(last))));
  }

  lemma RconRight(t: Tables, i: nat)
    requires Good(t) && i < 10
    ensures |t.rcon| == 10 && Col(t.rcon[i]) == Column(RconByte(i), 0, 0, 0)
  {
    hide *;
    GoodRcon(t);
  }

  lemma GoodRcon(t: Tables)
    requires Good(t)
    ensures |t.rcon| == 10 && forall i :: 0 <= i < 10 ==> Col(t.rcon[i]) == Column(RconByte(i), 0, 0, 0)
  {
    hide Rotations, RconByte, Col, SubByte, InvSubByte;
  }

  lemma ColumnOrder(a: Column, b: Column, c: Column)
    ensures AddColumn(AddColumn(a, b), c) == AddColumn(a, AddColumn(c, b))
  {
    hide Add;
    AddAssoc(a.r0, b.r0, c.r0);
    AddAssoc(a.r1, b.r1, c.r1);
    AddAssoc(a.r2, b.r2, c.r2);
    AddAssoc(a.r3, b.r3, c.r3);
    AddSwap(b.r0, c.r0);
    AddSwap(b.r1, c.r1);
    AddSwap(b.r2, c.r2);
    AddSwap(b.r3, c.r3);
  }

  /** The extra substitution in the middle of a 256-bit group. */
  method BoxedWord(t: Tables, rk: array<bv32>, ghost key: seq<Column>, n: nat, ghost i: nat)
    requires Good(t) && |key| == 8 && 1 <= i && n == 8 * i + 4 && n < rk.Length
    requires Expanded(rk[..], key, n)
    modifies rk
    ensures Expanded(rk[..], key, n + 1)
  {
    hide *;
    KeyColumnAt(key, i, 4);
    ExpandedAt(rk[..], key, n, n - 8);
    ExpandedAt(rk[..], key, n, n - 1);
    var last := rk[n - 1];
    MiddleWordIs(t, rk[n - 8], last);
    StoreWord(rk, key, n, XorWords(rk[n - 8], BoxedPack(t, B0(last), B1(last), B2(last), B3(last))));
  }

  // ---------------------------------------------------------------- setkey_enc

  method Expand128(t: Tables, rk: array<bv32>, ghost key: seq<Column>)
    requires Good(t) && |t.rcon| == 10 && |key| == 4 && rk.Length == 68 && Expanded(rk[..], key, 4)
    modifies rk
    ensures Expanded(rk[..], key, 44)
  {
    hide *;
    for i := 0 to 10
      invariant Expanded(rk[..], key, 4 * i + 4)
    {
      RconWord(t, rk, key, 4 * i + 4, 4, i + 1);
      PlainWord(rk, key, 4 * i + 5, 4, i + 1, 1);
      PlainWord(rk, key, 4 * i + 6, 4, i + 1, 2);
      PlainWord(rk, key, 4 * i + 7, 4, i + 1, 3);
    }
  }

  method Expand192(t: Tables, rk: array<bv32>, ghost key: seq<Column>)
    requires Good(t) && |t.rcon| == 10 && |key| == 6 && rk.Length == 68 && Expanded(rk[..], key, 6)
    modifies rk
    ensures Expanded(rk[..], key, 54)
  {
    hide *;
    for i := 0 to 8
      invariant Expanded(rk[..], key, 6 * i + 6)
    {
      RconWord(t, rk, key, 6 * i + 6, 6, i + 1);
      PlainWord(rk, key, 6 * i + 7, 6, i + 1, 1);
      PlainWord(rk, key, 6 * i + 8, 6, i + 1, 2);
      PlainWord(rk, key, 6 * i + 9, 6, i + 1, 3);
      PlainWord(rk, key, 6 * i + 10, 6, i + 1, 4);
      PlainWord(rk, key, 6 * i + 11, 6, i + 1, 5);
    }
  }

  method Expand256(t: Tables, rk: array<bv32>, ghost key: seq<Column>)
    requires Good(t) && |t.rcon| == 10 && |key| == 8 && rk.Length == 68 && Expanded(rk[..], key, 8)
    modifies rk
    ensures Expanded(rk[..], key, 64)
  {
    hide *;
    for i := 0 to 7
      invariant Expanded(rk[..], key, 8 * i + 8)
    {
      RconWord(t, rk, key, 8 * i + 8, 8, i + 1);
      PlainWord(rk, key, 8 * i + 9, 8, i + 1, 1);
      PlainWord(rk, key, 8 * i + 10, 8, i + 1, 2);
      PlainWord(rk, key, 8 * i + 11, 8, i + 1, 3);
      BoxedWord(t, rk, key, 8 * i + 12, i + 1);
      PlainWord(rk, key, 8 * i + 13, 8, i + 1, 5);
      PlainWord(rk, key, 8 * i + 14, 8, i + 1, 6);
      PlainWord(rk, key, 8 * i + 15, 8, i + 1, 7);
    }
  }

  /** The words of a key. */
  function KeyWords(key: seq<bv8>): (r: seq<Column>)
    requires |key| % 4 == 0
    ensures |r| == |key| / 4
  {
    seq(|key| / 4, i requires 0 <= i < |key| / 4 => Column(key[4 * i], key[4 * i + 1], key[4 * i + 2], key[4 * i + 3]))
  }

  /** Round i's key: words 4i to 4i + 3 of the schedule. */
  ghost function RoundKey(key: seq<Column>, i: nat): State
    requires |key| > 0
  {
    State(KeyColumn(key, 4 * i), KeyColumn(key, 4 * i + 1), KeyColumn(key, 4 * i + 2), KeyColumn(key, 4 * i + 3))
  }

  /** All round keys of a 128, 192 or 256-bit key. */
  ghost function Schedule(key: seq<bv8>): (w: seq<State>)
    requires |key| == 16 || |key| == 24 || |key| == 32
    ensures |w| == |key| / 4 + 7
  {
    seq(|key| / 4 + 7, i requires 0 <= i < |key| / 4 + 7 => RoundKey(KeyWords(key), i))
  }

  // KeyExpansion on bytes: w is the word after t, and a the word as far before w as the key is long.

  /** At a multiple of the key's length t is rotated and substituted and meets a round constant. */
  lemma ExpansionFirst(key: seq<Column>, i: nat)
    requires |key| > 0 && 1 <= i <= 10
    ensures 0 < |key| <= |key| * i
    ensures
      var w, t, a := KeyColumn(key, |key| * i), KeyColumn(key, |key| * i - 1), KeyColumn(key, |key| * i - |key|);
      var rc := [0x01, 0x02, 0x04, 0x08, 0x10, 0x20, 0x40, 0x80, 0x1B, 0x36][i - 1];
      w == Column(Add(a.r0, Add(SubByte(t.r1), rc)), Add(a.r1, SubByte(t.r2)), Add(a.r2, SubByte(t.r3)), Add(a.r3, SubByte(t.r0)))
  {
    RconBytes();
    hide KeyColumn, Add, SubByte, RconByte;
    KeyColumnAt(key, i, 0);
    var t := KeyColumn(key, |key| * i - 1);
    AddZero(SubByte(t.r2));
    AddZero(SubByte(t.r3));
    AddZero(SubByte(t.r0));
  }

  /** In between t is taken as it is, and in 256-bit keys at every other fourth word substituted. */
  lemma ExpansionOther(key: seq<Column>, i: nat, j: nat)
    requires 1 <= i && 1 <= j < |key|
    ensures 0 < |key| <= |key| * i
    ensures
      var w, t, a := KeyColumn(key, |key| * i + j), KeyColumn(key, |key| * i + j - 1), KeyColumn(key, |key| * i + j - |key|);
      w == if |key| > 6 && j == 4
           then Column(Add(a.r0, SubByte(t.r0)), Add(a.r1, SubByte(t.r1)), Add(a.r2, SubByte(t.r2)), Add(a.r3, SubByte(t.r3)))
           else Column(Add(a.r0, t.r0), Add(a.r1, t.r1), Add(a.r2, t.r2), Add(a.r3, t.r3))
  {
    hide KeyColumn, Add, SubByte, RconByte;
    MulMono(1, i, |key|);
    KeyColumnAt(key, i, j);
  }

  /** And the words of the key itself, four bytes each, come first. */
  lemma ScheduleStarts(key: seq<bv8>, i: nat, j: nat)
    requires |key| == 16 || |key| == 24 || |key| == 32
    requires i < |key| / 4 && j < |key| / 4 + 7
    ensures KeyColumn(KeyWords(key), i) == Column(key[4 * i], key[4 * i + 1], key[4 * i + 2], key[4 * i + 3])
    ensures Schedule(key)[j] == State(KeyColumn(KeyWords(key), 4 * j), KeyColumn(KeyWords(key), 4 * j + 1),
      KeyColumn(KeyWords(key), 4 * j + 2), KeyColumn(KeyWords(key), 4 * j + 3))
  {
  }

  lemma ExpandedIsSchedule(rk: seq<bv32>, key: seq<bv8>, n: nat)
    requires |key| == 16 || |key| == 24 || |key| == 32
    requires Expanded(rk, KeyWords(key), n) && 4 * (|key| / 4 + 7) <= n
    ensures KeysOf(rk, |key| / 4 + 6) == Schedule(key)
  {
    hide Col, KeyColumn, KeyWords;
  }

  /** mbedtls_aes_setkey_enc; nr is 0 when the key length is refused. */
  method SetKeyEnc(t: Tables, rk: array<bv32>, key: array<bv8>) returns (nr: nat)
    requires Good(t) && rk.Length == 68
    modifies rk
    ensures nr == (if key.Length == 16 || key.Length == 24 || key.Length == 32 then key.Length / 4 + 6 else 0)
    ensures nr != 0 ==> KeysOf(rk[..], nr) == Schedule(key[..])
  {
    hide Good, KeyWords, Expanded, Schedule, KeysOf, Col;
    if key.Length != 16 && key.Length != 24 && key.Length != 32 {
      return 0;
    }
    RconRight(t, 0);
    LoadKey(rk, key);
    ghost var words := KeyWords(key[..]);
    if key.Length == 16 {
      Expand128(t, rk, words);
      ExpandedIsSchedule(rk[..], key[..], 44);
    } else if key.Length == 24 {
      Expand192(t, rk, words);
      ExpandedIsSchedule(rk[..], key[..], 54);
    } else {
      Expand256(t, rk, words);
      ExpandedIsSchedule(rk[..], key[..], 64);
    }
    return key.Length / 4 + 6;
  }

  /** `GET_UINT32_LE( RK[i], key, i << 2 )`. */
  method LoadKey(rk: array<bv32>, key: array<bv8>)
    requires rk.Length == 68 && key.Length % 4 == 0 && 4 <= key.Length <= 32
    modifies rk
    ensures Expanded(rk[..], KeyWords(key[..]), key.Length / 4)
  {
    hide Word, Col;
    for i := 0 to key.Length / 4
      invariant forall k: nat :: k < i ==> Col(rk[k]) == KeyWords(key[..])[k]
    {
      rk[i] := Word(Column(key[4 * i], key[4 * i + 1], key[4 * i + 2], key[4 * i + 3]));
      ColWord(Column(key[4 * i], key[4 * i + 1], key[4 * i + 2], key[4 * i + 3]));
    }
  }

  // ---------------------------------------------------------------- setkey_dec

  /** `RT0[FSb[b0]] ^ RT1[FSb[b1]] ^ RT2[FSb[b2]] ^ RT3[FSb[b3]]` of a key word. */
  function MixedWord(t: Tables, x: bv32): bv32
    requires |t.fsb| == |t.rt0| == |t.rt1| == |t.rt2| == |t.rt3| == 256
  {
    XorWords(XorWords(XorWords(Lookup(t.rt0, LookupByte(t.fsb, B0(x))), Lookup(t.rt1, LookupByte(t.fsb, B1(x)))),
      Lookup(t.rt2, LookupByte(t.fsb, B2(x)))), Lookup(t.rt3, LookupByte(t.fsb, B3(x))))
  }

  lemma XorZeroWord(x: bv32)
    ensures XorWords(0, x) == x
  {
  }

  lemma ZeroColumn(a: Column)
    ensures Col(0) == Column(0, 0, 0, 0) && AddColumn(a, Column(0, 0, 0, 0)) == a
  {
    hide Add;
    AddZero(a.r0);
    AddZero(a.r1);
    AddZero(a.r2);
    AddZero(a.r3);
  }

  /** The S-box and the reverse table cancel: what is left is InvMixColumns. */
  lemma MixedWordIs(t: Tables, x: bv32)
    requires Good(t)
    ensures |t.fsb| == |t.rt0| == |t.rt1| == |t.rt2| == |t.rt3| == 256
    ensures Col(MixedWord(t, x)) == InvMixColumn(Col(x))
  {
    TableSizes(t);
    hide Good, Lookup, LookupByte, XorWords, InvMixColumn, SubByte, InvSubByte, ReverseColumn, Turned, AddColumn, Sum5Columns, B0, B1, B2, B3, Add;
    var b0, b1, b2, b3 := LookupByte(t.fsb, B0(x)), LookupByte(t.fsb, B1(x)), LookupByte(t.fsb, B2(x)), LookupByte(t.fsb, B3(x));
    XorZeroWord(Lookup(t.rt0, b0));
    assert MixedWord(t, x) == FourTables(0, t.rt0, t.rt1, t.rt2, t.rt3, b0, b1, b2, b3);
    assert Col(x) == Column(B0(x), B1(x), B2(x), B3(x));
    hide MixedWord, FourTables, Col;
    ColFourTables(0, t.rt0, t.rt1, t.rt2, t.rt3, b0, b1, b2, b3);
    LookupReverse(t, b0);
    LookupReverse(t, b1);
    LookupReverse(t, b2);
    LookupReverse(t, b3);
    ReverseSum(Col(0), b0, b1, b2, b3);
    LookupBoxes(t, B0(x));
    LookupBoxes(t, B1(x));
    LookupBoxes(t, B2(x));
    LookupBoxes(t, B3(x));
    InvSubColumnUndoes(Col(x));
    ZeroColumn(InvMixColumn(Col(x)));
  }

  /** The round key that starts at word k. */
  function KeyFrom(rk: seq<bv32>, k: nat): State
    requires k + 4 <= |rk|
  {
    WordsOf(rk[k], rk[k + 1], rk[k + 2], rk[k + 3])
  }

  /** Four plain copies. */
  method CopyKey(src: array<bv32>, k: nat, dst: array<bv32>, r: nat)
    requires src != dst && k + 4 <= src.Length && r + 4 <= dst.Length
    modifies dst
    ensures KeyFrom(dst[..], r) == KeyFrom(src[..], k)
    ensures forall i :: 0 <= i < dst.Length && !(r <= i < r + 4) ==> dst[i] == old(dst[i])
  {
    hide WordsOf;
    dst[r] := src[k];
    dst[r + 1] := src[k + 1];
    dst[r + 2] := src[k + 2];
    dst[r + 3] := src[k + 3];
  }

  /** The inner loop: four words through FSb and the reverse tables. */
  method MixWords(t: Tables, src: array<bv32>, k: nat, dst: array<bv32>, r: nat)
    requires |t.fsb| == |t.rt0| == |t.rt1| == |t.rt2| == |t.rt3| == 256
    requires src != dst && k + 4 <= src.Length && r + 4 <= dst.Length
    modifies dst
    ensures dst[r] == MixedWord(t, src[k]) && dst[r + 1] == MixedWord(t, src[k + 1])
    ensures dst[r + 2] == MixedWord(t, src[k + 2]) && dst[r + 3] == MixedWord(t, src[k + 3])
    ensures forall i :: 0 <= i < dst.Length && !(r <= i < r + 4) ==> dst[i] == old(dst[i])
  {
    hide *;
    for j := 0 to 4
      invariant j > 0 ==> dst[r] == MixedWord(t, src[k])
      invariant j > 1 ==> dst[r + 1] == MixedWord(t, src[k + 1])
      invariant j > 2 ==> dst[r + 2] == MixedWord(t, src[k + 2])
      invariant j > 3 ==> dst[r + 3] == MixedWord(t, src[k + 3])
      invariant forall i :: 0 <= i < dst.Length && !(r <= i < r + 4) ==> dst[i] == old(dst[i])
    {
      dst[r + j] := MixedWord(t, src[k + j]);
    }
  }

  method MixKey(t: Tables, src: array<bv32>, k: nat, dst: array<bv32>, r: nat)
    requires Good(t) && src != dst && k + 4 <= src.Length && r + 4 <= dst.Length
    modifies dst
    ensures KeyFrom(dst[..], r) == InvMixColumns(KeyFrom(src[..], k))
    ensures forall i :: 0 <= i < dst.Length && !(r <= i < r + 4) ==> dst[i] == old(dst[i])
  {
    hide *;
    TableSizes(t);
    MixWords(t, src, k, dst, r);
    MixedKey(t, src[..], k, dst[..], r);
  }

  lemma MixedKey(t: Tables, src: seq<bv32>, k: nat, dst: seq<bv32>, r: nat)
    requires Good(t) && |t.fsb| == |t.rt0| == |t.rt1| == |t.rt2| == |t.rt3| == 256
    requires k + 4 <= |src| && r + 4 <= |dst|
    requires dst[r] == MixedWord(t, src[k]) && dst[r + 1] == MixedWord(t, src[k + 1])
    requires dst[r + 2] == MixedWord(t, src[k + 2]) && dst[r + 3] == MixedWord(t, src[k + 3])
    ensures KeyFrom(dst, r) == InvMixColumns(KeyFrom(src, k))
  {
    hide Good, MixedWord, InvMixColumn, Col;
    MixedWordIs(t, src[k]);
    MixedWordIs(t, src[k + 1]);
    MixedWordIs(t, src[k + 2]);
    MixedWordIs(t, src[k + 3]);
  }

  /** Round keys below n are where they should be. */
  ghost predicate Placed(dk: seq<bv32>, dw: seq<State>, n: nat)
  {
    4 * n <= |dk| && n <= |dw| && forall i: nat :: i < n ==> KeyFrom(dk, 4 * i) == dw[i]
  }

  lemma PlacedMore(dk: seq<bv32>, dk': seq<bv32>, dw: seq<State>, n: nat)
    requires Placed(dk, dw, n) && n < |dw| && |dk'| == |dk| && 4 * n + 4 <= |dk|
    requires forall i :: 0 <= i < |dk| && !(4 * n <= i < 4 * n + 4) ==> dk'[i] == dk[i]
    requires KeyFrom(dk', 4 * n) == dw[n]
    ensures Placed(dk', dw, n + 1)
  {
    hide WordsOf;
  }

  lemma PlacedAll(dk: seq<bv32>, dw: seq<State>, nr: nat)
    requires |dw| == nr + 1 && Placed(dk, dw, nr + 1)
    ensures KeysOf(dk, nr) == dw
  {
    hide WordsOf;
    forall i: nat | i <= nr
      ensures KeysOf(dk, nr)[i] == dw[i]
    {
      KeyAt(dk, nr, i);
      assert KeyFrom(dk, 4 * i) == dw[i];
    }
  }

  /** The first and the last round key are copied. */
  method PlaceCopied(cty: array<bv32>, ghost nr: nat, ghost i: nat, s: nat, rk: array<bv32>, r: nat)
    requires 0 < nr && 4 * (nr + 1) <= cty.Length == rk.Length && cty != rk && (i == 0 || i == nr)
    requires s == 4 * i && r == 4 * (nr - i) && Placed(rk[..], DecryptionKeys(KeysOf(cty[..], nr)), nr - i)
    modifies rk
    ensures Placed(rk[..], DecryptionKeys(KeysOf(cty[..], nr)), nr - i + 1)
  {
    hide *;
    ghost var was := rk[..];
    TurnedKey(cty[..], nr, i);
    CopyKey(cty, s, rk, r);
    PlacedMore(was, rk[..], DecryptionKeys(KeysOf(cty[..], nr)), nr - i);
  }

  method PlaceMixed(t: Tables, cty: array<bv32>, ghost nr: nat, ghost i: nat, s: nat, rk: array<bv32>, r: nat)
    requires Good(t) && 4 * (nr + 1) <= cty.Length == rk.Length && cty != rk && 0 < i < nr
    requires s == 4 * i && r == 4 * (nr - i) && Placed(rk[..], DecryptionKeys(KeysOf(cty[..], nr)), nr - i)
    modifies rk
    ensures Placed(rk[..], DecryptionKeys(KeysOf(cty[..], nr)), nr - i + 1)
  {
    hide *;
    ghost var was := rk[..];
    TurnedKey(cty[..], nr, i);
    MixKey(t, cty, s, rk, r);
    PlacedMore(was, rk[..], DecryptionKeys(KeysOf(cty[..], nr)), nr - i);
  }

  /** The expanded key turned round: cty holds it, rk receives it. */
  method InvertKeys(t: Tables, cty: array<bv32>, nr: nat, rk: array<bv32>)
    requires Good(t) && 0 < nr <= 14 && cty.Length == rk.Length == 68 && cty != rk
    modifies rk
    ensures KeysOf(rk[..], nr) == DecryptionKeys(KeysOf(cty[..], nr))
  {
    hide *;
    NonePlaced(rk[..], DecryptionKeys(KeysOf(cty[..], nr)));
    PlaceCopied(cty, nr, nr, 4 * nr, rk, 0);
    var i, r, s := nr - 1, 4, 4 * nr - 4;
    while i > 0
      invariant 0 <= i < nr && r == 4 * (nr - i) && s == 4 * i
      invariant Placed(rk[..], DecryptionKeys(KeysOf(cty[..], nr)), nr - i)
    {
      PlaceMixed(t, cty, nr, i, s, rk, r);
      i, r, s := i - 1, r + 4, s - 4;
    }
    PlaceCopied(cty, nr, 0, s, rk, r);
    PlacedAll(rk[..], DecryptionKeys(KeysOf(cty[..], nr)), nr);
  }

  lemma NonePlaced(dk: seq<bv32>, dw: seq<State>)
    ensures Placed(dk, dw, 0)
  {
  }

  /** Where round key i goes. */
  lemma TurnedKey(rk: seq<bv32>, nr: nat, i: nat)
    requires 0 < nr && 4 * (nr + 1) <= |rk| && i <= nr
    ensures DecryptionKeys(KeysOf(rk, nr))[nr - i] ==
      (if i == 0 || i == nr then KeyFrom(rk, 4 * i) else InvMixColumns(KeyFrom(rk, 4 * i)))
  {
    hide InvMixColumns, WordsOf, KeysOf, DecryptionKeys;
    KeyAt(rk, nr, i);
    TurnedAt(KeysOf(rk, nr), nr - i);
  }

  lemma TurnedAt(w: seq<State>, j: nat)
    requires |w| >= 2 && j < |w|
    ensures DecryptionKeys(w)[j] ==
      if j == 0 || j == |w| - 1 then w[|w| - 1 - j] else InvMixColumns(w[|w| - 1 - j])
  {
    hide InvMixColumns;
  }

  /** mbedtls_aes_setkey_dec. */
  method SetKeyDec(t: Tables, rk: array<bv32>, key: array<bv8>) returns (nr: nat)
    requires Good(t) && rk.Length == 68
    modifies rk
    ensures nr == (if key.Length == 16 || key.Length == 24 || key.Length == 32 then key.Length / 4 + 6 else 0)
    ensures nr != 0 ==> KeysOf(rk[..], nr) == DecryptionKeys(Schedule(key[..]))
  {
    hide Good, Schedule, KeysOf;
    var cty := new bv32[68];
    nr := SetKeyEnc(t, cty, key);
    if nr != 0 {
      InvertKeys(t, cty, nr, rk);
    }
  }

  // ---------------------------------------------------------------- AES as a block cipher

  ghost function Encrypted(w: seq<State>, b: seq<bv8>): seq<bv8>
    requires |w| >= 2
  {
    if |b| == 16 then BytesOf(Cipher(w, StateOf(b))) else b
  }

  ghost function Decrypted(w: seq<State>, b: seq<bv8>): seq<bv8>
    requires |w| >= 2
  {
    if |b| == 16 then BytesOf(EqInvCipher(DecryptionKeys(w), StateOf(b))) else b
  }

  ghost function AesUnder(key: seq<bv8>): BlockCipher
    requires |key| == 16 || |key| == 24 || |key| == 32
  {
    var w := Schedule(key);
    BlockCipher(16, b => Encrypted(w, b), b => Decrypted(w, b))
  }

  lemma BytesAndState(b: seq<bv8>, s: State)
    ensures |b| == 16 ==> BytesOf(StateOf(b)) == b
    ensures StateOf(BytesOf(s)) == s
  {
  }

  /** AES under any key is a permutation of the blocks, with decryption its inverse: every mode applies to it. */
  lemma AesIsAPermutation(key: seq<bv8>)
    requires |key| == 16 || |key| == 24 || |key| == 32
    ensures AesUnder(key).Permutation()
  {
    hide Schedule, Cipher, EqInvCipher, DecryptionKeys, StateOf, BytesOf;
    var c, w := AesUnder(key), Schedule(key);
    forall b: seq<bv8> | |b| == 16
      ensures |c.enc(b)| == 16 && |c.dec(b)| == 16 && c.dec(c.enc(b)) == b && c.enc(c.dec(b)) == b
    {
      var s := StateOf(b);
      BytesAndState(b, Cipher(w, s));
      BytesAndState(b, EqInvCipher(DecryptionKeys(w), s));
      DecryptsEncrypted(w, s);
      EncryptsDecrypted(w, s);
    }
  }
}
