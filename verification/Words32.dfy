/** uint32_t words and their big-endian bytes, for the Feistel ciphers. */
module Words32 {

  function Xor32(x: bv32, y: bv32): bv32
  {
    x ^ y
  }

  lemma Cancel(x: bv32, y: bv32)
    ensures Xor32(Xor32(x, y), y) == x
  {
  }

  lemma Swap32(x: bv32, y: bv32)
    ensures Xor32(x, y) == Xor32(y, x)
  {
  }

  lemma Assoc32(x: bv32, y: bv32, z: bv32)
    ensures Xor32(Xor32(x, y), z) == Xor32(x, Xor32(y, z))
  {
  }

  /** GET_UINT32_BE. */
  function GetBE(b0: bv8, b1: bv8, b2: bv8, b3: bv8): bv32
  {
    ((b0 as bv32) << 24) | ((b1 as bv32) << 16) | ((b2 as bv32) << 8) | (b3 as bv32)
  }

  function Top8(w: bv32): bv8 { ((w >> 24) & 0xFF) as bv8 }
  function Upper8(w: bv32): bv8 { ((w >> 16) & 0xFF) as bv8 }
  function Lower8(w: bv32): bv8 { ((w >> 8) & 0xFF) as bv8 }
  function Low8(w: bv32): bv8 { (w & 0xFF) as bv8 }

  lemma BytesOfWord(b0: bv8, b1: bv8, b2: bv8, b3: bv8)
    ensures Top8(GetBE(b0, b1, b2, b3)) == b0
    ensures Upper8(GetBE(b0, b1, b2, b3)) == b1
    ensures Lower8(GetBE(b0, b1, b2, b3)) == b2
    ensures Low8(GetBE(b0, b1, b2, b3)) == b3
  {
  }

  lemma WordOfBytes(w: bv32)
    ensures GetBE(Top8(w), Upper8(w), Lower8(w), Low8(w)) == w
  {
  }

  /** Two words: the halves of a 64-bit block. */
  datatype Pair = Pair(l: bv32, r: bv32)
  {
    function Swapped(): Pair { Pair(r, l) }
  }

  function PairOf(b: seq<bv8>): Pair
    requires |b| == 8
  {
    Pair(GetBE(b[0], b[1], b[2], b[3]), GetBE(b[4], b[5], b[6], b[7]))
  }

  function BytesOfPair(p: Pair): (b: seq<bv8>)
    ensures |b| == 8
  {
    [Top8(p.l), Upper8(p.l), Lower8(p.l), Low8(p.l), Top8(p.r), Upper8(p.r), Lower8(p.r), Low8(p.r)]
  }

  lemma PairBytes(b: seq<bv8>)
    requires |b| == 8
    ensures BytesOfPair(PairOf(b)) == b
  {
    hide GetBE, Top8, Upper8, Lower8, Low8;
    BytesOfWord(b[0], b[1], b[2], b[3]);
    BytesOfWord(b[4], b[5], b[6], b[7]);
  }

  lemma BytesPair(p: Pair)
    ensures PairOf(BytesOfPair(p)) == p
  {
    hide GetBE, Top8, Upper8, Lower8, Low8;
    WordOfBytes(p.l);
    WordOfBytes(p.r);
  }
}
