/** The 64-bit words of the program, and the word operations of its two builds. */
module Words {
  import opened Blamka

  type word = bv64

  const LOW32: word := 0xFFFF_FFFF

  /** The word with value `n` (modulo 2^64): 0 incremented `n` times. */
  function Word(n: nat): word { if n == 0 then 0 else Word(n - 1) + 1 }

  /** The 64-bit product of the low halves of two words. */
  function MulLow(x: word, y: word): word { Mul(x & LOW32, y & LOW32) }

  function Mul(x: word, y: word): word { x * y }

  function Add(x: word, y: word): word { x + y }

  function Twice(z: word): word { 2 * z }

  /** fBlaMka of ref.c: x + y + 2 * lo32(x) * lo32(y), modulo 2^64. */
  function FBlaMka(x: word, y: word): word {
    Add(Add(x, y), Twice(MulLow(x, y)))
  }

  /** rotr64 at the four counts the round uses. */
  function Rotr64(x: word, c: nat): word {
    if c == 32 then (x >> 32) | (x << 32)
    else if c == 24 then (x >> 24) | (x << 40)
    else if c == 16 then (x >> 16) | (x << 48)
    else if c == 63 then (x >> 63) | (x << 1)
    else x
  }

  /** The operations of both builds, as the permutation uses them. */
  const OPS: Ops<word> := Ops((x, y) => FBlaMka(x, y), (x, y) => x ^ y, (x, c) => Rotr64(x, c))

  lemma XorOps()
    ensures XorCommutes(OPS)
  {
  }

  // ------------------------------------------------------------------ the 128-bit instructions

  /** _mm_mul_epu32: products of the low halves of the two words of each register. */
  function MulEpu32(x: Reg<word>, y: Reg<word>): Reg<word> {
    Reg(MulLow(x.lo, y.lo), MulLow(x.hi, y.hi))
  }

  function AddEpi64(x: Reg<word>, y: Reg<word>): Reg<word> { Reg(Add(x.lo, y.lo), Add(x.hi, y.hi)) }

  /** fBlaMka of opt.c. */
  function FBlaMkaReg(x: Reg<word>, y: Reg<word>): Reg<word> {
    var z := MulEpu32(x, y);
    AddEpi64(AddEpi64(x, y), AddEpi64(z, z))
  }

  lemma TwoTimes(z: word)
    ensures z + z == 2 * z
  {
  }

  lemma SumIsTwice(z: word)
    ensures Add(z, z) == Twice(z)
  {
    TwoTimes(z);
  }

  /** The multiply-add of the register build is that of the reference build on each word. */
  lemma FBlaMkaRegIsFBlaMka(x: Reg<word>, y: Reg<word>)
    ensures FBlaMkaReg(x, y) == Fma2(OPS, x, y)
  {
    hide MulLow, Add, Twice;
    SumIsTwice(MulLow(x.lo, y.lo));
    SumIsTwice(MulLow(x.hi, y.hi));
  }

  /** The eight bytes of a word, least significant first. */
  function Bytes(x: word): (b: seq<word>)
    ensures |b| == 8
  {
    [x & 0xFF, (x >> 8) & 0xFF, (x >> 16) & 0xFF, (x >> 24) & 0xFF,
     (x >> 32) & 0xFF, (x >> 40) & 0xFF, (x >> 48) & 0xFF, (x >> 56) & 0xFF]
  }

  function FromBytes(b: seq<word>): word
    requires |b| == 8
  {
    b[0] | (b[1] << 8) | (b[2] << 16) | (b[3] << 24) | (b[4] << 32) | (b[5] << 40) | (b[6] << 48) | (b[7] << 56)
  }

  /** _mm_shuffle_epi8 on one word with r24: byte `k` of the result is byte (k + 3) mod 8. */
  function ShuffleR24(x: word): word {
    var b := Bytes(x);
    FromBytes([b[3], b[4], b[5], b[6], b[7], b[0], b[1], b[2]])
  }

  /** _mm_shuffle_epi8 on one word with r16: byte `k` of the result is byte (k + 2) mod 8. */
  function ShuffleR16(x: word): word {
    var b := Bytes(x);
    FromBytes([b[2], b[3], b[4], b[5], b[6], b[7], b[0], b[1]])
  }

  /** _mm_shuffle_epi32 with order (2, 3, 0, 1), on one word: its halves change places. */
  function SwapHalves(x: word): word {
    (x >> 32) | ((x & LOW32) << 32)
  }

  /** _mm_roti_epi64 on one word where SSSE3 is available. */
  function RotiSsse3(x: word, c: nat): word
    requires c in {32, 24, 16, 63}
  {
    if c == 32 then SwapHalves(x)
    else if c == 24 then ShuffleR24(x)
    else if c == 16 then ShuffleR16(x)
    else (x >> 63) ^ (x + x)
  }

  /** _mm_roti_epi64 on one word where it is not. */
  function RotiSse2(x: word, c: nat): word
    requires c in {32, 24, 16, 63}
  {
    if c == 32 then (x >> 32) ^ (x << 32)
    else if c == 24 then (x >> 24) ^ (x << 40)
    else if c == 16 then (x >> 16) ^ (x << 48)
    else (x >> 63) ^ (x << 1)
  }

  lemma Shuffle24(x: word)
    ensures ShuffleR24(x) == (x >> 24) | (x << 40)
  {
  }

  lemma Shuffle16(x: word)
    ensures ShuffleR16(x) == (x >> 16) | (x << 48)
  {
  }

  lemma Rotations(x: word)
    ensures SwapHalves(x) == (x >> 32) | (x << 32)
    ensures (x >> 63) ^ (x + x) == (x >> 63) | (x << 1)
    ensures (x >> 32) ^ (x << 32) == (x >> 32) | (x << 32)
    ensures (x >> 24) ^ (x << 40) == (x >> 24) | (x << 40)
    ensures (x >> 16) ^ (x << 48) == (x >> 16) | (x << 48)
    ensures (x >> 63) ^ (x << 1) == (x >> 63) | (x << 1)
  {
  }

  /** Every rotation the round uses is a rotation, however it is computed. */
  lemma RotiIsRotr(x: word, c: nat)
    requires c in {32, 24, 16, 63}
    ensures RotiSsse3(x, c) == RotiSse2(x, c) == OPS.rotr(x, c)
  {
    hide SwapHalves, ShuffleR16, ShuffleR24;
    Shuffle24(x);
    Shuffle16(x);
    Rotations(x);
  }
}
