/** aes_gen_tables: powers and logarithms of 3, the S-boxes, and the round tables. */
module AesTables {
  import opened Blocks
  import opened Octets
  import opened AesField
  import opened AesSbox
  import opened AesCipher

  // ---------------------------------------------------------------- words

  /** A uint32_t from its bytes, lowest first. */
  function Word(c: Column): bv32
  {
    (c.r0 as bv32) | ((c.r1 as bv32) << 8) | ((c.r2 as bv32) << 16) | ((c.r3 as bv32) << 24)
  }

  function B0(w: bv32): bv8 { (w & 0xFF) as bv8 }
  function B1(w: bv32): bv8 { ((w >> 8) & 0xFF) as bv8 }
  function B2(w: bv32): bv8 { ((w >> 16) & 0xFF) as bv8 }
  function B3(w: bv32): bv8 { ((w >> 24) & 0xFF) as bv8 }

  function Col(w: bv32): Column
  {
    Column(B0(w), B1(w), B2(w), B3(w))
  }

  function XorWords(x: bv32, y: bv32): bv32
  {
    x ^ y
  }

  lemma ByteXor0(x: bv32, y: bv32)
    ensures B0(XorWords(x, y)) == Add(B0(x), B0(y))
  {
  }

  lemma ByteXor1(x: bv32, y: bv32)
    ensures B1(XorWords(x, y)) == Add(B1(x), B1(y))
  {
  }

  lemma ByteXor2(x: bv32, y: bv32)
    ensures B2(XorWords(x, y)) == Add(B2(x), B2(y))
  {
  }

  lemma ByteXor3(x: bv32, y: bv32)
    ensures B3(XorWords(x, y)) == Add(B3(x), B3(y))
  {
  }

  lemma ColXor(x: bv32, y: bv32)
    ensures Col(XorWords(x, y)) == AddColumn(Col(x), Col(y))
  {
    hide B0, B1, B2, B3, Add, XorWords;
    ByteXor0(x, y);
    ByteXor1(x, y);
    ByteXor2(x, y);
    ByteXor3(x, y);
  }

  lemma WordBytes(c: Column)
    ensures B0(Word(c)) == c.r0
    ensures B1(Word(c)) == c.r1
    ensures B2(Word(c)) == c.r2
    ensures B3(Word(c)) == c.r3
  {
  }

  lemma ColWord(c: Column)
    ensures Col(Word(c)) == c
  {
    hide B0, B1, B2, B3, Word;
    WordBytes(c);
  }

  function Rotl8(x: bv32): bv32
  {
    (x << 8) | (x >> 24)
  }

  lemma RotatedBytes(x: bv32)
    ensures B0(Rotl8(x)) == B3(x) && B1(Rotl8(x)) == B0(x) && B2(Rotl8(x)) == B1(x) && B3(Rotl8(x)) == B2(x)
  {
  }

  // ---------------------------------------------------------------- powers and logarithms

  /** The exponent the table gives for b is one of b's. */
  ghost predicate LogsTo(log: seq<nat>, b: bv8)
  {
    |log| == 256 && Value(b) < 256 && log[Value(b)] < 256 && G(log[Value(b)]) == b
  }

  lemma LogStored(log: seq<nat>, i: nat, b: bv8)
    requires |log| == 256 && i < 256 && Value(G(i)) < 256 && (LogsTo(log, b) || b == G(i))
    ensures LogsTo(log[Value(G(i)) := i], b)
  {
    hide G, Value;
    if Value(b) == Value(G(i)) {
      SameValue(b, G(i));
    } else {
      ValueByte(b);
    }
  }

  /** "compute pow and log tables over GF(2^8)": x steps by x + 2x = 3x. */
  method Powers() returns (pow: array<bv8>, log: array<nat>)
    ensures pow.Length == 256 && log.Length == 256 && fresh(pow) && fresh(log)
    ensures forall k :: 0 <= k < 256 ==> pow[k] == G(k)
    ensures forall b: bv8 {:trigger LogsTo(log[..], b)} :: b != 0 ==> LogsTo(log[..], b)
  {
    hide G, Value, LogsTo, Step;
    pow, log := new bv8[256], new nat[256];
    var x: bv8 := 1;
    GZero();
    for i := 0 to 256
      invariant x == G(i)
      invariant forall k :: 0 <= k < i ==> pow[k] == G(k)
      invariant forall k: nat {:trigger G(k)} :: k < i ==> LogsTo(log[..], G(k))
    {
      ValueByte(x);
      ghost var before := log[..];
      pow[i] := x;
      log[Value(x)] := i;
      forall k: nat | k <= i
        ensures LogsTo(log[..], G(k))
      {
        LogStored(before, i, G(k));
        assert log[..] == before[Value(G(i)) := i];
      }
      x := Step(x);
      GStep(i);
    }
    forall b: bv8 | b != 0
      ensures LogsTo(log[..], b)
    {
      assert b == G(Log(b));
    }
  }

  lemma GStep(i: nat)
    ensures G(i + 1) == Step(G(i))
  {
  }

  // ---------------------------------------------------------------- round constants

  /** x^i: the constant of round i + 1 in section 5.2. */
  function RconByte(i: nat): bv8
  {
    if i == 0 then 1 else Xtime(RconByte(i - 1))
  }

  /** The ten constants the standard lists. */
  lemma RconBytes()
    ensures RconByte(0) == 0x01 && RconByte(1) == 0x02 && RconByte(2) == 0x04 && RconByte(3) == 0x08
    ensures RconByte(4) == 0x10 && RconByte(5) == 0x20 && RconByte(6) == 0x40 && RconByte(7) == 0x80
    ensures RconByte(8) == 0x1B && RconByte(9) == 0x36
  {
    EarlyDoubles();
    LateDoubles();
    hide Xtime;
    assert RconByte(4) == 0x10 && RconByte(7) == 0x80;
  }

  lemma EarlyDoubles()
    ensures Xtime(0x01) == 0x02 && Xtime(0x02) == 0x04 && Xtime(0x04) == 0x08 && Xtime(0x08) == 0x10 && Xtime(0x10) == 0x20
  {
  }

  lemma LateDoubles()
    ensures Xtime(0x20) == 0x40 && Xtime(0x40) == 0x80 && Xtime(0x80) == 0x1B && Xtime(0x1B) == 0x36
  {
  }

  method RoundConstants() returns (rcon: array<bv32>)
    ensures rcon[..] == [0x01, 0x02, 0x04, 0x08, 0x10, 0x20, 0x40, 0x80, 0x1B, 0x36]
    ensures rcon.Length == 10 && forall i :: 0 <= i < 10 ==> Col(rcon[i]) == Column(RconByte(i), 0, 0, 0)
  {
    hide Xtime, Col, RconByte;
    rcon := new bv32[10];
    var x: bv8 := 1;
    RconBytes();
    for i := 0 to 10
      invariant x == RconByte(i)
      invariant forall k :: 0 <= k < i ==> rcon[k] == Wide(RconByte(k))
    {
      RconNext(i);
      rcon[i] := Wide(x);
      x := Xtime(x);
    }
    forall i | 0 <= i < 10
      ensures Col(rcon[i]) == Column(RconByte(i), 0, 0, 0)
    {
      WidenedByte(RconByte(i));
    }
  }

  lemma RconNext(i: nat)
    ensures RconByte(i + 1) == Xtime(RconByte(i))
  {
    hide Xtime;
  }

  /** `(uint32_t) x` */
  function Wide(x: bv8): bv32
  {
    x as bv32
  }

  lemma WidenedByte(x: bv8)
    ensures Col(Wide(x)) == Column(x, 0, 0, 0)
  {
  }

  // ---------------------------------------------------------------- S-boxes

  lemma SubByteInjective(b: bv8, c: bv8)
    requires SubByte(b) == SubByte(c)
    ensures b == c
  {
    hide SubByte, InvSubByte;
    SubByteUndone(b);
    SubByteUndone(c);
  }

  /** pow[255 - log[i]] is the inverse. */
  lemma PowerIsInverse(b: bv8, l: nat)
    requires b != 0 && l < 256 && G(l) == b
    ensures G(255 - l) == Inv(b)
  {
    hide G, GMul, Inv;
    GSum(l, 255 - l);
    SomePowers();
    InvUnique(b, G(255 - l));
  }

  /** Entry k of both boxes is right. */
  ghost predicate BoxedAt(fsb: seq<bv8>, rsb: seq<bv8>, k: nat)
  {
    |fsb| == |rsb| == 256 && k < 256 && fsb[k] == SubByte(Byte(k)) && Value(fsb[k]) < 256 && rsb[Value(fsb[k])] == Byte(k)
  }

  lemma BoxKept(fsb: seq<bv8>, rsb: seq<bv8>, k: nat, i: nat, x: bv8)
    requires |fsb| == |rsb| == 256 && i < 256 && Value(x) < 256 && x == SubByte(Byte(i))
    requires k < 256 && (k == i || BoxedAt(fsb, rsb, k))
    ensures BoxedAt(fsb[i := x], rsb[Value(x) := Byte(i)], k)
  {
    hide SubByte, Byte, Value;
    if k != i && Value(fsb[k]) == Value(x) {
      SameValue(fsb[k], x);
      SubByteInjective(Byte(k), Byte(i));
      ByteValue(k);
      ByteValue(i);
    }
  }

  lemma ZeroByteIs()
    ensures Byte(0) == 0 && Value(0x63) == 0x63 && SubByte(0) == 0x63
  {
  }

  /** "generate the forward and reverse S-boxes". */
  method SBoxes(pow: array<bv8>, log: array<nat>) returns (fsb: array<bv8>, rsb: array<bv8>)
    requires pow.Length == log.Length == 256
    requires forall k :: 0 <= k < 256 ==> pow[k] == G(k)
    requires forall b: bv8 {:trigger LogsTo(log[..], b)} :: b != 0 ==> LogsTo(log[..], b)
    ensures fresh(fsb) && fresh(rsb) && fsb.Length == rsb.Length == 256
    ensures forall k: nat :: k < 256 ==> BoxedAt(fsb[..], rsb[..], k)
  {
    hide G, Value, Byte, Inv, BoxedAt, Rotl, Add;
    ZeroByteIs();
    fsb, rsb := new bv8[256], new bv8[256];
    ghost var f, r := fsb[..], rsb[..];
    BoxKept(f, r, 0, 0, 0x63);
    fsb[0x00] := 0x63;
    rsb[0x63] := 0x00;
    assert fsb[..] == f[0 := 0x63] && rsb[..] == r[0x63 := 0];
    for i := 1 to 256
      invariant forall k: nat :: k < i ==> BoxedAt(fsb[..], rsb[..], k)
    {
      var x := BoxEntry(pow, log, i);
      ValueByte(x);
      f, r := fsb[..], rsb[..];
      fsb[i] := x;
      rsb[Value(x)] := Byte(i);
      assert fsb[..] == f[i := x] && rsb[..] == r[Value(x) := Byte(i)];
      forall k: nat | k <= i
        ensures BoxedAt(fsb[..], rsb[..], k)
      {
        BoxKept(f, r, k, i, x);
      }
    }
  }

  /** The body of the S-box loop up to the stores: inverse by tables, then the rotations. */
  method BoxEntry(pow: array<bv8>, log: array<nat>, i: nat) returns (x: bv8)
    requires pow.Length == log.Length == 256 && 0 < i < 256
    requires forall k :: 0 <= k < 256 ==> pow[k] == G(k)
    requires forall b: bv8 {:trigger LogsTo(log[..], b)} :: b != 0 ==> LogsTo(log[..], b)
    ensures x == SubByte(Byte(i))
  {
    hide G, Value, Byte, Inv, Rotl, Add;
    ByteValue(i);
    ZeroValue(Byte(i));
    assert LogsTo(log[..], Byte(i));
    PowerIsInverse(Byte(i), log[i]);
    x := pow[255 - log[i]];
    var y := Rotl(x);
    ghost var x0 := x;
    x := Add(x, y);
    y := Rotl(y);
    x := Add(x, y);
    y := Rotl(y);
    x := Add(x, y);
    y := Rotl(y);
    x := Add(x, Add(y, 0x63));
  }

  /** Once every byte has been boxed, the reverse box holds every inverse. */
  lemma ReverseBox(fsb: seq<bv8>, rsb: seq<bv8>, y: bv8)
    requires forall k: nat :: k < 256 ==> BoxedAt(fsb, rsb, k)
    ensures |fsb| == |rsb| == 256 && Value(y) < 256
    ensures fsb[Value(y)] == SubByte(y) && rsb[Value(y)] == InvSubByte(y)
  {
    ValueByte(y);
    ValueByte(InvSubByte(y));
    SubByteUndone(y);
    hide Byte, Value, SubByte, InvSubByte;
    assert BoxedAt(fsb, rsb, Value(y));
    assert BoxedAt(fsb, rsb, Value(InvSubByte(y)));
  }

  // ---------------------------------------------------------------- round tables

  /** `(uint32_t) b0 ^ b1 << 8 ^ b2 << 16 ^ b3 << 24`. */
  function Packed(b0: bv8, b1: bv8, b2: bv8, b3: bv8): bv32
  {
    (b0 as bv32) ^ ((b1 as bv32) << 8) ^ ((b2 as bv32) << 16) ^ ((b3 as bv32) << 24)
  }

  lemma PackedWord(b0: bv8, b1: bv8, b2: bv8, b3: bv8)
    ensures Packed(b0, b1, b2, b3) == Word(Column(b0, b1, b2, b3))
  {
  }

  lemma ColPacked(b0: bv8, b1: bv8, b2: bv8, b3: bv8)
    ensures Col(Packed(b0, b1, b2, b3)) == Column(b0, b1, b2, b3)
  {
    hide Packed, Word, Col;
    PackedWord(b0, b1, b2, b3);
    ColWord(Column(b0, b1, b2, b3));
  }

  function Turned(c: Column): Column
  {
    Column(c.r3, c.r0, c.r1, c.r2)
  }

  lemma ColRotl8(x: bv32)
    ensures Col(Rotl8(x)) == Turned(Col(x))
  {
    hide Rotl8, B0, B1, B2, B3;
    RotatedBytes(x);
  }

  /** What FT0 holds for b: a column of MixColumns applied to its S-box value. */
  ghost function ForwardColumn(b: bv8): Column
  {
    var s := SubByte(b);
    Column(GMul(2, s), s, s, GMul(3, s))
  }

  /** What RT0 holds for b. */
  ghost function ReverseColumn(b: bv8): Column
  {
    var s := InvSubByte(b);
    Column(GMul(14, s), GMul(9, s), GMul(13, s), GMul(11, s))
  }

  /** MUL(x,y) by tables. */
  function TableMul(pow: seq<bv8>, log: seq<nat>, x: bv8, y: bv8): bv8
    requires |pow| == |log| == 256
  {
    if x != 0 && y != 0 && Value(x) < 256 && Value(y) < 256 then pow[(log[Value(x)] + log[Value(y)]) % 255] else 0
  }

  lemma TableMulIs(pow: seq<bv8>, log: seq<nat>, x: bv8, y: bv8)
    requires |pow| == 256 && (forall k :: 0 <= k < 256 ==> pow[k] == G(k))
    requires x != 0 ==> LogsTo(log, x)
    requires y != 0 ==> LogsTo(log, y)
    requires |log| == 256
    ensures TableMul(pow, log, x, y) == GMul(x, y)
  {
    hide G, GMul, Value;
    ZeroTimes(y);
    GMulZero(x);
    if x != 0 && y != 0 {
      ValueByte(x);
      ValueByte(y);
      GSum(log[Value(x)], log[Value(y)]);
      GModulo(log[Value(x)] + log[Value(y)]);
    }
  }

  lemma {:induction false} GModulo(k: nat)
    ensures G(k % 255) == G(k)
  {
    hide G, GMul;
    if k >= 255 {
      GModulo(k - 255);
      GSum(255, k - 255);
      SomePowers();
      GMulOne(G(k - 255));
    }
  }

  /** A table and its three rotations, at one index. */
  ghost predicate Rotations(t0: seq<bv32>, t1: seq<bv32>, t2: seq<bv32>, t3: seq<bv32>, k: nat, c: Column)
  {
    && |t0| == |t1| == |t2| == |t3| == 256 && k < 256
    && Col(t0[k]) == c && Col(t1[k]) == Turned(c) && Col(t2[k]) == Turned(Turned(c))
    && Col(t3[k]) == Turned(Turned(Turned(c)))
  }

  /** FT0[i] or RT0[i] = x, and the rotations. */
  method StoreRotations(t0: array<bv32>, t1: array<bv32>, t2: array<bv32>, t3: array<bv32>, i: nat, x: bv32)
    requires t0.Length == t1.Length == t2.Length == t3.Length == 256 && i < 256
    requires t0 != t1 && t0 != t2 && t0 != t3 && t1 != t2 && t1 != t3 && t2 != t3
    modifies t0, t1, t2, t3
    ensures Rotations(t0[..], t1[..], t2[..], t3[..], i, Col(x))
    ensures forall k, c :: k != i && old(Rotations(t0[..], t1[..], t2[..], t3[..], k, c)) ==>
      Rotations(t0[..], t1[..], t2[..], t3[..], k, c)
  {
    hide Col, Rotl8, Turned;
    t0[i] := x;
    t1[i] := Rotl8(t0[i]);
    t2[i] := Rotl8(t1[i]);
    t3[i] := Rotl8(t2[i]);
    ColRotl8(x);
    ColRotl8(t1[i]);
    ColRotl8(t2[i]);
  }

  lemma ForwardEntry(b: bv8)
    ensures var x := SubByte(b);
      Col(Packed(Xtime(x), x, x, Add(Xtime(x), x))) == ForwardColumn(b)
  {
    hide Col, Packed, Xtime, Add, GMul, SubByte;
    var x := SubByte(b);
    ColPacked(Xtime(x), x, x, Add(Xtime(x), x));
    Times2(x);
    Times3(x);
    AddSwap(x, Xtime(x));
  }

  /** "generate the forward and reverse tables", the forward half. */
  method ForwardTables(fsb: array<bv8>) returns (t0: array<bv32>, t1: array<bv32>, t2: array<bv32>, t3: array<bv32>)
    requires fsb.Length == 256 && forall i: nat :: i < 256 ==> fsb[i] == SubByte(Byte(i))
    ensures forall i: nat :: i < 256 ==> Rotations(t0[..], t1[..], t2[..], t3[..], i, ForwardColumn(Byte(i)))
  {
    hide *;
    t0, t1, t2, t3 := new bv32[256], new bv32[256], new bv32[256], new bv32[256];
    for i := 0 to 256
      invariant forall k: nat :: k < i ==> Rotations(t0[..], t1[..], t2[..], t3[..], k, ForwardColumn(Byte(k)))
    {
      var x := fsb[i];
      var y := Xtime(x);
      var z := Add(y, x);
      ForwardEntry(Byte(i));
      StoreRotations(t0, t1, t2, t3, i, Packed(y, x, x, z));
    }
  }

  /** The reverse half. */
  method ReverseTables(pow: array<bv8>, log: array<nat>, rsb: array<bv8>)
    returns (t0: array<bv32>, t1: array<bv32>, t2: array<bv32>, t3: array<bv32>)
    requires pow.Length == log.Length == 256
    requires forall k :: 0 <= k < 256 ==> pow[k] == G(k)
    requires forall b: bv8 {:trigger LogsTo(log[..], b)} :: b != 0 ==> LogsTo(log[..], b)
    requires rsb.Length == 256 && forall i: nat :: i < 256 ==> rsb[i] == InvSubByte(Byte(i))
    ensures forall i: nat :: i < 256 ==> Rotations(t0[..], t1[..], t2[..], t3[..], i, ReverseColumn(Byte(i)))
  {
    hide *;
    t0, t1, t2, t3 := new bv32[256], new bv32[256], new bv32[256], new bv32[256];
    for i := 0 to 256
      invariant forall k: nat :: k < i ==> Rotations(t0[..], t1[..], t2[..], t3[..], k, ReverseColumn(Byte(k)))
    {
      var x := rsb[i];
      var entry := ReverseEntry(pow, log, x);
      ReverseColumnIs(Byte(i));
      StoreRotations(t0, t1, t2, t3, i, entry);
    }
  }

  lemma ReverseColumnIs(b: bv8)
    ensures var s := InvSubByte(b);
      ReverseColumn(b) == Column(GMul(14, s), GMul(9, s), GMul(13, s), GMul(11, s))
  {
  }

  method ReverseEntry(pow: array<bv8>, log: array<nat>, x: bv8) returns (entry: bv32)
    requires pow.Length == log.Length == 256
    requires forall k :: 0 <= k < 256 ==> pow[k] == G(k)
    requires forall b: bv8 {:trigger LogsTo(log[..], b)} :: b != 0 ==> LogsTo(log[..], b)
    ensures Col(entry) == Column(GMul(14, x), GMul(9, x), GMul(13, x), GMul(11, x))
  {
    hide *;
    TableMulIs(pow[..], log[..], 0x0E, x);
    TableMulIs(pow[..], log[..], 0x09, x);
    TableMulIs(pow[..], log[..], 0x0D, x);
    TableMulIs(pow[..], log[..], 0x0B, x);
    ColPacked(GMul(14, x), GMul(9, x), GMul(13, x), GMul(11, x));
    entry := Packed(TableMul(pow[..], log[..], 0x0E, x), TableMul(pow[..], log[..], 0x09, x),
                    TableMul(pow[..], log[..], 0x0D, x), TableMul(pow[..], log[..], 0x0B, x));
  }

  // ---------------------------------------------------------------- all tables

  datatype Tables = Tables(fsb: seq<bv8>, rsb: seq<bv8>, ft0: seq<bv32>, ft1: seq<bv32>, ft2: seq<bv32>, ft3: seq<bv32>,
                           rt0: seq<bv32>, rt1: seq<bv32>, rt2: seq<bv32>, rt3: seq<bv32>, rcon: seq<bv32>)

  /** The tables' entries mean what FIPS 197 defines. */
  ghost predicate Good(t: Tables)
  {
    && |t.fsb| == |t.rsb| == 256 && |t.rcon| == 10
    && (forall i: nat :: i < 256 ==> t.fsb[i] == SubByte(Byte(i)) && t.rsb[i] == InvSubByte(Byte(i)))
    && (forall i: nat :: i < 256 ==> Rotations(t.ft0, t.ft1, t.ft2, t.ft3, i, ForwardColumn(Byte(i))))
    && (forall i: nat :: i < 256 ==> Rotations(t.rt0, t.rt1, t.rt2, t.rt3, i, ReverseColumn(Byte(i))))
    && (forall i :: 0 <= i < 10 ==> Col(t.rcon[i]) == Column(RconByte(i), 0, 0, 0))
  }

  lemma BoxesRight(fsb: seq<bv8>, rsb: seq<bv8>, i: nat)
    requires i < 256 && forall k: nat :: k < 256 ==> BoxedAt(fsb, rsb, k)
    ensures |fsb| == |rsb| == 256 && fsb[i] == SubByte(Byte(i)) && rsb[i] == InvSubByte(Byte(i))
  {
    hide *;
    ByteValue(i);
    ReverseBox(fsb, rsb, Byte(i));
  }

  method GenTables() returns (t: Tables)
    ensures Good(t)
    ensures t.rcon == [0x01, 0x02, 0x04, 0x08, 0x10, 0x20, 0x40, 0x80, 0x1B, 0x36]
  {
    hide SubByte, InvSubByte, Byte, Value, Rotations, ForwardColumn, ReverseColumn, Col, RconByte, BoxedAt, LogsTo, G;
    var pow, log := Powers();
    var rcon := RoundConstants();
    var fsb, rsb := SBoxes(pow, log);
    forall i: nat | i < 256
      ensures fsb[..][i] == SubByte(Byte(i)) && rsb[..][i] == InvSubByte(Byte(i))
    {
      BoxesRight(fsb[..], rsb[..], i);
    }
    var f0, f1, f2, f3 := ForwardTables(fsb);
    var r0, r1, r2, r3 := ReverseTables(pow, log, rsb);
    t := Tables(fsb[..], rsb[..], f0[..], f1[..], f2[..], f3[..], r0[..], r1[..], r2[..], r3[..], rcon[..]);
  }
}
