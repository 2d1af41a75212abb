/** The table-driven AES: key schedules, encryptor and decryptor (mbedtls_aes_context). */
module AesCode {
  import opened Numbers
  import opened Blocks
  import opened Octets
  import opened AesField
  import opened AesSbox
  import opened AesCipher
  import opened AesTables

  // ---------------------------------------------------------------- bytes, words, states

  function StateOf(b: seq<bv8>): State
    requires |b| == 16
  {
    State(Column(b[0], b[1], b[2], b[3]), Column(b[4], b[5], b[6], b[7]),
          Column(b[8], b[9], b[10], b[11]), Column(b[12], b[13], b[14], b[15]))
  }

  function BytesOf(s: State): (b: seq<bv8>)
    ensures |b| == 16
  {
    [s.c0.r0, s.c0.r1, s.c0.r2, s.c0.r3, s.c1.r0, s.c1.r1, s.c1.r2, s.c1.r3,
     s.c2.r0, s.c2.r1, s.c2.r2, s.c2.r3, s.c3.r0, s.c3.r1, s.c3.r2, s.c3.r3]
  }

  function WordsOf(x0: bv32, x1: bv32, x2: bv32, x3: bv32): State
  {
    State(Col(x0), Col(x1), Col(x2), Col(x3))
  }

  /** The round keys kept in rk. */
  ghost function KeysOf(rk: seq<bv32>, nr: nat): (w: seq<State>)
    requires 4 * (nr + 1) <= |rk|
    ensures |w| == nr + 1
  {
    seq(nr + 1, i requires 0 <= i <= nr => WordsOf(rk[4 * i], rk[4 * i + 1], rk[4 * i + 2], rk[4 * i + 3]))
  }

  // ---------------------------------------------------------------- one table round

  function Lookup(t: seq<bv32>, b: bv8): bv32
    requires |t| == 256
  {
    ValueByte(b);
    t[Value(b)]
  }

  function LookupByte(t: seq<bv8>, b: bv8): bv8
    requires |t| == 256
  {
    ValueByte(b);
    t[Value(b)]
  }

  lemma TableSizes(t: Tables)
    requires Good(t)
    ensures |t.ft0| == |t.ft1| == |t.ft2| == |t.ft3| == 256
    ensures |t.rt0| == |t.rt1| == |t.rt2| == |t.rt3| == 256
    ensures |t.fsb| == |t.rsb| == 256 && |t.rcon| == 10
  {
    hide ForwardColumn, ReverseColumn, SubByte, InvSubByte, Byte, Col;
    assert Rotations(t.ft0, t.ft1, t.ft2, t.ft3, 0, ForwardColumn(Byte(0)));
    assert Rotations(t.rt0, t.rt1, t.rt2, t.rt3, 0, ReverseColumn(Byte(0)));
  }

  lemma LookupForward(t: Tables, b: bv8)
    requires Good(t) && |t.ft0| == |t.ft1| == |t.ft2| == |t.ft3| == 256
    ensures Col(Lookup(t.ft0, b)) == ForwardColumn(b) && Col(Lookup(t.ft1, b)) == Turned(ForwardColumn(b))
    ensures Col(Lookup(t.ft2, b)) == Turned(Turned(ForwardColumn(b)))
    ensures Col(Lookup(t.ft3, b)) == Turned(Turned(Turned(ForwardColumn(b))))
  {
    hide ForwardColumn, ReverseColumn, SubByte, InvSubByte, Byte, Value, Col, Turned, RconByte;
    ValueByte(b);
    assert Rotations(t.ft0, t.ft1, t.ft2, t.ft3, Value(b), ForwardColumn(Byte(Value(b))));
  }

  lemma LookupReverse(t: Tables, b: bv8)
    requires Good(t) && |t.rt0| == |t.rt1| == |t.rt2| == |t.rt3| == 256
    ensures Col(Lookup(t.rt0, b)) == ReverseColumn(b) && Col(Lookup(t.rt1, b)) == Turned(ReverseColumn(b))
    ensures Col(Lookup(t.rt2, b)) == Turned(Turned(ReverseColumn(b)))
    ensures Col(Lookup(t.rt3, b)) == Turned(Turned(Turned(ReverseColumn(b))))
  {
    hide ForwardColumn, ReverseColumn, SubByte, InvSubByte, Byte, Value, Col, Turned, RconByte;
    ValueByte(b);
    assert Rotations(t.rt0, t.rt1, t.rt2, t.rt3, Value(b), ReverseColumn(Byte(Value(b))));
  }

  lemma LookupBoxes(t: Tables, b: bv8)
    requires Good(t)
    ensures LookupByte(t.fsb, b) == SubByte(b) && LookupByte(t.rsb, b) == InvSubByte(b)
  {
    hide ForwardColumn, ReverseColumn, SubByte, InvSubByte, Byte, Value, Col, Rotations, RconByte;
    ValueByte(b);
  }

  /** `rk ^ T0(a) ^ T1(b) ^ T2(c) ^ T3(d)`. */
  function FourTables(rk: bv32, t0: seq<bv32>, t1: seq<bv32>, t2: seq<bv32>, t3: seq<bv32>, a: bv8, b: bv8, c: bv8, d: bv8): bv32
    requires |t0| == |t1| == |t2| == |t3| == 256
  {
    XorWords(XorWords(XorWords(XorWords(rk, Lookup(t0, a)), Lookup(t1, b)), Lookup(t2, c)), Lookup(t3, d))
  }

  /** Adding up five columns. */
  function Sum5Columns(k: Column, a: Column, b: Column, c: Column, d: Column): Column
  {
    AddColumn(AddColumn(AddColumn(AddColumn(k, a), b), c), d)
  }

  lemma ColFourTables(rk: bv32, t0: seq<bv32>, t1: seq<bv32>, t2: seq<bv32>, t3: seq<bv32>, a: bv8, b: bv8, c: bv8, d: bv8)
    requires |t0| == |t1| == |t2| == |t3| == 256
    ensures Col(FourTables(rk, t0, t1, t2, t3, a, b, c, d)) ==
      Sum5Columns(Col(rk), Col(Lookup(t0, a)), Col(Lookup(t1, b)), Col(Lookup(t2, c)), Col(Lookup(t3, d)))
  {
    hide Col, XorWords, Lookup, AddColumn;
    var x1 := XorWords(rk, Lookup(t0, a));
    var x2 := XorWords(x1, Lookup(t1, b));
    var x3 := XorWords(x2, Lookup(t2, c));
    ColXor(rk, Lookup(t0, a));
    ColXor(x1, Lookup(t1, b));
    ColXor(x2, Lookup(t2, c));
    ColXor(x3, Lookup(t3, d));
  }

  lemma Sum5Bytes(k: bv8, a: bv8, b: bv8, c: bv8, d: bv8)
    ensures Add(Add(Add(Add(k, a), b), c), d) == Add(Add(Add(a, b), Add(c, d)), k)
  {
    hide Add;
    AddAssoc(k, a, b);
    AddAssoc(k, Add(a, b), c);
    AddAssoc(k, Add(Add(a, b), c), d);
    AddAssoc(Add(a, b), c, d);
    AddSwap(k, Add(Add(a, b), Add(c, d)));
  }

  /** Four S-box columns, turned and added up, are MixColumns of the substituted column. */
  lemma ForwardSum(k: Column, a: bv8, b: bv8, c: bv8, d: bv8)
    ensures Sum5Columns(k, ForwardColumn(a), Turned(ForwardColumn(b)), Turned(Turned(ForwardColumn(c))),
                        Turned(Turned(Turned(ForwardColumn(d)))))
      == AddColumn(MixColumn(SubColumn(Column(a, b, c, d))), k)
  {
    hide GMul, Add, SubByte;
    var s0, s1, s2, s3 := SubByte(a), SubByte(b), SubByte(c), SubByte(d);
    GMulOne(s0);
    GMulOne(s1);
    GMulOne(s2);
    GMulOne(s3);
    Sum5Bytes(k.r0, GMul(2, s0), GMul(3, s1), s2, s3);
    Sum5Bytes(k.r1, s0, GMul(2, s1), GMul(3, s2), s3);
    Sum5Bytes(k.r2, s0, s1, GMul(2, s2), GMul(3, s3));
    Sum5Bytes(k.r3, GMul(3, s0), s1, s2, GMul(2, s3));
  }

  lemma ReverseSum(k: Column, a: bv8, b: bv8, c: bv8, d: bv8)
    ensures Sum5Columns(k, ReverseColumn(a), Turned(ReverseColumn(b)), Turned(Turned(ReverseColumn(c))),
                        Turned(Turned(Turned(ReverseColumn(d)))))
      == AddColumn(InvMixColumn(InvSubColumn(Column(a, b, c, d))), k)
  {
    hide GMul, Add, InvSubByte;
    var s0, s1, s2, s3 := InvSubByte(a), InvSubByte(b), InvSubByte(c), InvSubByte(d);
    Sum5Bytes(k.r0, GMul(14, s0), GMul(11, s1), GMul(13, s2), GMul(9, s3));
    Sum5Bytes(k.r1, GMul(9, s0), GMul(14, s1), GMul(11, s2), GMul(13, s3));
    Sum5Bytes(k.r2, GMul(13, s0), GMul(9, s1), GMul(14, s2), GMul(11, s3));
    Sum5Bytes(k.r3, GMul(11, s0), GMul(13, s1), GMul(9, s2), GMul(14, s3));
  }

  /** One line of AES_FROUND. */
  function ForwardWord(t: Tables, rk: bv32, y0: bv32, y1: bv32, y2: bv32, y3: bv32): bv32
    requires |t.ft0| == |t.ft1| == |t.ft2| == |t.ft3| == 256
  {
    FourTables(rk, t.ft0, t.ft1, t.ft2, t.ft3, B0(y0), B1(y1), B2(y2), B3(y3))
  }

  /** One line of AES_RROUND. */
  function ReverseWord(t: Tables, rk: bv32, y0: bv32, y1: bv32, y2: bv32, y3: bv32): bv32
    requires |t.rt0| == |t.rt1| == |t.rt2| == |t.rt3| == 256
  {
    FourTables(rk, t.rt0, t.rt1, t.rt2, t.rt3, B0(y0), B1(y1), B2(y2), B3(y3))
  }

  /** One line of a last round: the S-box alone. */
  function LastWord(box: seq<bv8>, rk: bv32, y0: bv32, y1: bv32, y2: bv32, y3: bv32): bv32
    requires |box| == 256
  {
    XorWords(rk, Packed(LookupByte(box, B0(y0)), LookupByte(box, B1(y1)), LookupByte(box, B2(y2)), LookupByte(box, B3(y3))))
  }

  lemma ForwardWordIs(t: Tables, rk: bv32, y0: bv32, y1: bv32, y2: bv32, y3: bv32)
    requires Good(t)
    ensures |t.ft0| == |t.ft1| == |t.ft2| == |t.ft3| == 256
    ensures Col(ForwardWord(t, rk, y0, y1, y2, y3)) ==
      AddColumn(MixColumn(SubColumn(Column(B0(y0), B1(y1), B2(y2), B3(y3)))), Col(rk))
  {
    TableSizes(t);
    hide Good, Col, Lookup, AddColumn, MixColumn, SubColumn, FourTables, Sum5Columns, B0, B1, B2, B3, ForwardColumn, Turned;
    ColFourTables(rk, t.ft0, t.ft1, t.ft2, t.ft3, B0(y0), B1(y1), B2(y2), B3(y3));
    LookupForward(t, B0(y0));
    LookupForward(t, B1(y1));
    LookupForward(t, B2(y2));
    LookupForward(t, B3(y3));
    ForwardSum(Col(rk), B0(y0), B1(y1), B2(y2), B3(y3));
  }

  lemma ReverseWordIs(t: Tables, rk: bv32, y0: bv32, y1: bv32, y2: bv32, y3: bv32)
    requires Good(t)
    ensures |t.rt0| == |t.rt1| == |t.rt2| == |t.rt3| == 256
    ensures Col(ReverseWord(t, rk, y0, y1, y2, y3)) ==
      AddColumn(InvMixColumn(InvSubColumn(Column(B0(y0), B1(y1), B2(y2), B3(y3)))), Col(rk))
  {
    TableSizes(t);
    hide Good, Col, Lookup, AddColumn, InvMixColumn, InvSubColumn, FourTables, Sum5Columns, B0, B1, B2, B3, ReverseColumn, Turned;
    ColFourTables(rk, t.rt0, t.rt1, t.rt2, t.rt3, B0(y0), B1(y1), B2(y2), B3(y3));
    LookupReverse(t, B0(y0));
    LookupReverse(t, B1(y1));
    LookupReverse(t, B2(y2));
    LookupReverse(t, B3(y3));
    ReverseSum(Col(rk), B0(y0), B1(y1), B2(y2), B3(y3));
  }

  lemma LastWordIs(t: Tables, rk: bv32, y0: bv32, y1: bv32, y2: bv32, y3: bv32)
    requires Good(t)
    ensures |t.fsb| == |t.rsb| == 256
    ensures Col(LastWord(t.fsb, rk, y0, y1, y2, y3)) ==
      AddColumn(SubColumn(Column(B0(y0), B1(y1), B2(y2), B3(y3))), Col(rk))
    ensures Col(LastWord(t.rsb, rk, y0, y1, y2, y3)) ==
      AddColumn(InvSubColumn(Column(B0(y0), B1(y1), B2(y2), B3(y3))), Col(rk))
  {
    TableSizes(t);
    LastColumn(t.fsb, rk, y0, y1, y2, y3);
    LastColumn(t.rsb, rk, y0, y1, y2, y3);
    hide Good, Col, LookupByte, AddColumn, B0, B1, B2, B3, SubByte, InvSubByte, LastWord;
    LookupBoxes(t, B0(y0));
    LookupBoxes(t, B1(y1));
    LookupBoxes(t, B2(y2));
    LookupBoxes(t, B3(y3));
  }

  lemma LastColumn(box: seq<bv8>, rk: bv32, y0: bv32, y1: bv32, y2: bv32, y3: bv32)
    requires |box| == 256
    ensures Col(LastWord(box, rk, y0, y1, y2, y3)) == AddColumn(
      Column(LookupByte(box, B0(y0)), LookupByte(box, B1(y1)), LookupByte(box, B2(y2)), LookupByte(box, B3(y3))), Col(rk))
  {
    hide Col, LookupByte, XorWords, Packed, B0, B1, B2, B3, Add;
    var b0, b1, b2, b3 := LookupByte(box, B0(y0)), LookupByte(box, B1(y1)), LookupByte(box, B2(y2)), LookupByte(box, B3(y3));
    ColPacked(b0, b1, b2, b3);
    ColXor(rk, Packed(b0, b1, b2, b3));
    AddColumnSwap(Col(rk), Column(b0, b1, b2, b3));
  }

  lemma AddColumnSwap(a: Column, b: Column)
    ensures AddColumn(a, b) == AddColumn(b, a)
  {
    hide Add;
    AddSwap(a.r0, b.r0);
    AddSwap(a.r1, b.r1);
    AddSwap(a.r2, b.r2);
    AddSwap(a.r3, b.r3);
  }

  // ---------------------------------------------------------------- rounds on four words

  datatype Words = Words(x0: bv32, x1: bv32, x2: bv32, x3: bv32)
  {
    function State(): State { WordsOf(x0, x1, x2, x3) }
  }

  /** AES_FROUND with the four key words from k on. */
  method ForwardRound(t: Tables, rk: array<bv32>, k: nat, y: Words) returns (x: Words)
    requires Good(t) && k + 4 <= rk.Length
    ensures x.State() == Round(y.State(), WordsOf(rk[k], rk[k + 1], rk[k + 2], rk[k + 3]))
  {
    TableSizes(t);
    hide Good, ForwardWord, MixColumn, SubColumn, AddColumn, B0, B1, B2, B3;
    ForwardWordIs(t, rk[k], y.x0, y.x1, y.x2, y.x3);
    ForwardWordIs(t, rk[k + 1], y.x1, y.x2, y.x3, y.x0);
    ForwardWordIs(t, rk[k + 2], y.x2, y.x3, y.x0, y.x1);
    ForwardWordIs(t, rk[k + 3], y.x3, y.x0, y.x1, y.x2);
    x := Words(ForwardWord(t, rk[k], y.x0, y.x1, y.x2, y.x3), ForwardWord(t, rk[k + 1], y.x1, y.x2, y.x3, y.x0),
               ForwardWord(t, rk[k + 2], y.x2, y.x3, y.x0, y.x1), ForwardWord(t, rk[k + 3], y.x3, y.x0, y.x1, y.x2));
    ShiftSub(y.State());
  }

  /** The bytes may be substituted after the rows are shifted. */
  lemma ShiftSub(s: State)
    ensures ShiftRows(SubBytes(s)) == SubBytes(ShiftRows(s))
  {
    hide SubByte;
  }

  /** AES_RROUND. */
  method ReverseRound(t: Tables, rk: array<bv32>, k: nat, y: Words) returns (x: Words)
    requires Good(t) && k + 4 <= rk.Length
    ensures x.State() == InvRound(y.State(), WordsOf(rk[k], rk[k + 1], rk[k + 2], rk[k + 3]))
  {
    TableSizes(t);
    hide Good, ReverseWord, InvMixColumn, InvSubColumn, AddColumn, B0, B1, B2, B3;
    ReverseWordIs(t, rk[k], y.x0, y.x3, y.x2, y.x1);
    ReverseWordIs(t, rk[k + 1], y.x1, y.x0, y.x3, y.x2);
    ReverseWordIs(t, rk[k + 2], y.x2, y.x1, y.x0, y.x3);
    ReverseWordIs(t, rk[k + 3], y.x3, y.x2, y.x1, y.x0);
    x := Words(ReverseWord(t, rk[k], y.x0, y.x3, y.x2, y.x1), ReverseWord(t, rk[k + 1], y.x1, y.x0, y.x3, y.x2),
               ReverseWord(t, rk[k + 2], y.x2, y.x1, y.x0, y.x3), ReverseWord(t, rk[k + 3], y.x3, y.x2, y.x1, y.x0));
    SubShift(y.State());
  }

  /** The last lines of the encryptor. */
  method LastForward(t: Tables, rk: array<bv32>, k: nat, y: Words) returns (x: Words)
    requires Good(t) && k + 4 <= rk.Length
    ensures x.State() == AddRoundKey(ShiftRows(SubBytes(y.State())), WordsOf(rk[k], rk[k + 1], rk[k + 2], rk[k + 3]))
  {
    TableSizes(t);
    hide Good, LastWord, SubColumn, AddColumn, B0, B1, B2, B3;
    LastWordIs(t, rk[k], y.x0, y.x1, y.x2, y.x3);
    LastWordIs(t, rk[k + 1], y.x1, y.x2, y.x3, y.x0);
    LastWordIs(t, rk[k + 2], y.x2, y.x3, y.x0, y.x1);
    LastWordIs(t, rk[k + 3], y.x3, y.x0, y.x1, y.x2);
    x := Words(LastWord(t.fsb, rk[k], y.x0, y.x1, y.x2, y.x3), LastWord(t.fsb, rk[k + 1], y.x1, y.x2, y.x3, y.x0),
               LastWord(t.fsb, rk[k + 2], y.x2, y.x3, y.x0, y.x1), LastWord(t.fsb, rk[k + 3], y.x3, y.x0, y.x1, y.x2));
    ShiftSub(y.State());
  }

  /** The last lines of the decryptor. */
  method LastReverse(t: Tables, rk: array<bv32>, k: nat, y: Words) returns (x: Words)
    requires Good(t) && k + 4 <= rk.Length
    ensures x.State() == AddRoundKey(InvShiftRows(InvSubBytes(y.State())), WordsOf(rk[k], rk[k + 1], rk[k + 2], rk[k + 3]))
  {
    TableSizes(t);
    hide Good, LastWord, InvSubColumn, AddColumn, B0, B1, B2, B3;
    LastWordIs(t, rk[k], y.x0, y.x3, y.x2, y.x1);
    LastWordIs(t, rk[k + 1], y.x1, y.x0, y.x3, y.x2);
    LastWordIs(t, rk[k + 2], y.x2, y.x1, y.x0, y.x3);
    LastWordIs(t, rk[k + 3], y.x3, y.x2, y.x1, y.x0);
    x := Words(LastWord(t.rsb, rk[k], y.x0, y.x3, y.x2, y.x1), LastWord(t.rsb, rk[k + 1], y.x1, y.x0, y.x3, y.x2),
               LastWord(t.rsb, rk[k + 2], y.x2, y.x1, y.x0, y.x3), LastWord(t.rsb, rk[k + 3], y.x3, y.x2, y.x1, y.x0));
    SubShift(y.State());
  }

  // ---------------------------------------------------------------- the block functions

  /** GET_UINT32_LE four times, and the first round key. */
  method LoadBlock(rk: array<bv32>, input: array<bv8>) returns (x: Words)
    requires rk.Length >= 4 && input.Length == 16
    ensures x.State() == AddRoundKey(StateOf(input[..]), WordsOf(rk[0], rk[1], rk[2], rk[3]))
  {
    hide Word, Col, XorWords, AddColumn;
    var w0 := Word(Column(input[0], input[1], input[2], input[3]));
    var w1 := Word(Column(input[4], input[5], input[6], input[7]));
    var w2 := Word(Column(input[8], input[9], input[10], input[11]));
    var w3 := Word(Column(input[12], input[13], input[14], input[15]));
    ColWord(Column(input[0], input[1], input[2], input[3]));
    ColWord(Column(input[4], input[5], input[6], input[7]));
    ColWord(Column(input[8], input[9], input[10], input[11]));
    ColWord(Column(input[12], input[13], input[14], input[15]));
    ColXor(w0, rk[0]);
    ColXor(w1, rk[1]);
    ColXor(w2, rk[2]);
    ColXor(w3, rk[3]);
    x := Words(XorWords(w0, rk[0]), XorWords(w1, rk[1]), XorWords(w2, rk[2]), XorWords(w3, rk[3]));
  }

  /** PUT_UINT32_LE four times. */
  method StoreBlock(x: Words, output: array<bv8>)
    requires output.Length == 16
    modifies output
    ensures output[..] == BytesOf(x.State())
  {
    hide B0, B1, B2, B3;
    Store(output, [B0(x.x0), B1(x.x0), B2(x.x0), B3(x.x0), B0(x.x1), B1(x.x1), B2(x.x1), B3(x.x1),
                   B0(x.x2), B1(x.x2), B2(x.x2), B3(x.x2), B0(x.x3), B1(x.x3), B2(x.x3), B3(x.x3)]);
  }

  /** Half the number of rounds: 5, 6 or 7. */
  ghost predicate Rounds(nr: nat)
  {
    nr == 10 || nr == 12 || nr == 14
  }

  lemma KeyAt(rk: seq<bv32>, nr: nat, i: nat)
    requires 4 * (nr + 1) <= |rk| && i <= nr
    ensures KeysOf(rk, nr)[i] == WordsOf(rk[4 * i], rk[4 * i + 1], rk[4 * i + 2], rk[4 * i + 3])
  {
    hide WordsOf;
  }

  /** Round n + 1, with the key words from k on. */
  method ForwardStep(t: Tables, rk: array<bv32>, nr: nat, k: nat, y: Words, ghost n: nat, ghost s: State) returns (x: Words)
    requires Good(t) && 4 * (nr + 1) <= rk.Length && n < nr && k == 4 * (n + 1)
    requires y.State() == After(KeysOf(rk[..], nr), s, n)
    ensures x.State() == After(KeysOf(rk[..], nr), s, n + 1)
  {
    hide Good, WordsOf, Round, KeysOf;
    KeyAt(rk[..], nr, n + 1);
    x := ForwardRound(t, rk, k, y);
  }

  /** The round loop of mbedtls_internal_aes_encrypt, two rounds a pass, and the round after it. */
  method ForwardRounds(t: Tables, rk: array<bv32>, nr: nat, x0: Words, ghost s: State) returns (x: Words, k: nat)
    requires Good(t) && Rounds(nr) && 4 * (nr + 1) <= rk.Length
    requires x0.State() == After(KeysOf(rk[..], nr), s, 0)
    ensures k == 4 * nr && x.State() == After(KeysOf(rk[..], nr), s, nr - 1)
  {
    hide Good, WordsOf, After, KeysOf, Words.State;
    ghost var n := 0;
    x, k := x0, 4;
    var i := nr / 2 - 1;
    while i > 0
      invariant 0 <= i < nr / 2 && n == nr - 2 * i - 2 && k == 4 * (n + 1)
      invariant x.State() == After(KeysOf(rk[..], nr), s, n)
    {
      x := ForwardStep(t, rk, nr, k, x, n, s);
      x := ForwardStep(t, rk, nr, k + 4, x, n + 1, s);
      k := k + 8;
      n := n + 2;
      i := i - 1;
    }
    x := ForwardStep(t, rk, nr, k, x, n, s);
    k := k + 4;
  }

  /** All the rounds between loading and storing the block. */
  method EncryptBlockWords(t: Tables, rk: array<bv32>, nr: nat, x0: Words, ghost s: State) returns (x: Words)
    requires Good(t) && Rounds(nr) && 4 * (nr + 1) <= rk.Length
    requires x0.State() == AddRoundKey(s, WordsOf(rk[0], rk[1], rk[2], rk[3]))
    ensures x.State() == Cipher(KeysOf(rk[..], nr), s)
  {
    RoundsPositive(nr);
    hide *;
    KeyAt(rk[..], nr, 0);
    CipherEnds(KeysOf(rk[..], nr), s);
    var k;
    x, k := ForwardRounds(t, rk, nr, x0, s);
    KeyAt(rk[..], nr, nr);
    x := LastForward(t, rk, k, x);
  }

  /** mbedtls_internal_aes_encrypt; output may be input. */
  method EncryptBlock(t: Tables, rk: array<bv32>, nr: nat, input: array<bv8>, output: array<bv8>)
    requires Good(t) && Rounds(nr) && 4 * (nr + 1) <= rk.Length && input.Length == output.Length == 16
    modifies output
    ensures output[..] == BytesOf(Cipher(KeysOf(rk[..], nr), StateOf(old(input[..]))))
  {
    hide *;
    assert Rounds(nr) ==> nr > 0 by { RoundsPositive(nr); }
    ghost var s := StateOf(input[..]);
    var x := LoadBlock(rk, input);
    x := EncryptBlockWords(t, rk, nr, x, s);
    StoreBlock(x, output);
  }

  /** Round n + 1, with the key words from k on. */
  method ReverseStep(t: Tables, rk: array<bv32>, nr: nat, k: nat, y: Words, ghost n: nat, ghost s: State) returns (x: Words)
    requires Good(t) && 4 * (nr + 1) <= rk.Length && n < nr && k == 4 * (n + 1)
    requires y.State() == InvAfter(KeysOf(rk[..], nr), s, n)
    ensures x.State() == InvAfter(KeysOf(rk[..], nr), s, n + 1)
  {
    hide Good, WordsOf, InvRound, KeysOf;
    KeyAt(rk[..], nr, n + 1);
    x := ReverseRound(t, rk, k, y);
  }

  /** The round loop of mbedtls_internal_aes_decrypt, two rounds a pass, and the round after it. */
  method ReverseRounds(t: Tables, rk: array<bv32>, nr: nat, x0: Words, ghost s: State) returns (x: Words, k: nat)
    requires Good(t) && Rounds(nr) && 4 * (nr + 1) <= rk.Length
    requires x0.State() == InvAfter(KeysOf(rk[..], nr), s, 0)
    ensures k == 4 * nr && x.State() == InvAfter(KeysOf(rk[..], nr), s, nr - 1)
  {
    hide Good, WordsOf, InvAfter, KeysOf, Words.State;
    ghost var n := 0;
    x, k := x0, 4;
    var i := nr / 2 - 1;
    while i > 0
      invariant 0 <= i < nr / 2 && n == nr - 2 * i - 2 && k == 4 * (n + 1)
      invariant x.State() == InvAfter(KeysOf(rk[..], nr), s, n)
    {
      x := ReverseStep(t, rk, nr, k, x, n, s);
      x := ReverseStep(t, rk, nr, k + 4, x, n + 1, s);
      k := k + 8;
      n := n + 2;
      i := i - 1;
    }
    x := ReverseStep(t, rk, nr, k, x, n, s);
    k := k + 4;
  }

  /** All the rounds between loading and storing the block. */
  method DecryptBlockWords(t: Tables, rk: array<bv32>, nr: nat, x0: Words, ghost s: State) returns (x: Words)
    requires Good(t) && Rounds(nr) && 4 * (nr + 1) <= rk.Length
    requires x0.State() == AddRoundKey(s, WordsOf(rk[0], rk[1], rk[2], rk[3]))
    ensures x.State() == EqInvCipher(KeysOf(rk[..], nr), s)
  {
    RoundsPositive(nr);
    hide *;
    KeyAt(rk[..], nr, 0);
    EqInvCipherEnds(KeysOf(rk[..], nr), s);
    var k;
    x, k := ReverseRounds(t, rk, nr, x0, s);
    KeyAt(rk[..], nr, nr);
    x := LastReverse(t, rk, k, x);
  }

  /** mbedtls_internal_aes_decrypt; output may be input. */
  method DecryptBlock(t: Tables, rk: array<bv32>, nr: nat, input: array<bv8>, output: array<bv8>)
    requires Good(t) && Rounds(nr) && 4 * (nr + 1) <= rk.Length && input.Length == output.Length == 16
    modifies output
    ensures output[..] == BytesOf(EqInvCipher(KeysOf(rk[..], nr), StateOf(old(input[..]))))
  {
    hide *;
    assert Rounds(nr) ==> nr > 0 by { RoundsPositive(nr); }
    ghost var s := StateOf(input[..]);
    var x := LoadBlock(rk, input);
    x := DecryptBlockWords(t, rk, nr, x, s);
    StoreBlock(x, output);
  }

  lemma RoundsPositive(nr: nat)
    ensures Rounds(nr) ==> nr > 0
  {
  }

  lemma CipherEnds(w: seq<State>, s: State)
    requires |w| >= 2
    ensures After(w, s, 0) == AddRoundKey(s, w[0])
    ensures Cipher(w, s) == AddRoundKey(ShiftRows(SubBytes(After(w, s, |w| - 2))), w[|w| - 1])
  {
    hide AddRoundKey, ShiftRows, SubBytes;
  }

  lemma EqInvCipherEnds(w: seq<State>, s: State)
    requires |w| >= 2
    ensures InvAfter(w, s, 0) == AddRoundKey(s, w[0])
    ensures EqInvCipher(w, s) == AddRoundKey(InvShiftRows(InvSubBytes(InvAfter(w, s, |w| - 2))), w[|w| - 1])
  {
    hide AddRoundKey, InvShiftRows, InvSubBytes;
  }
}
