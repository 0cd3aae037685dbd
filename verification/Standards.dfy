/** The definitions that code and specification share, against the letter of the standards and of the C code:
    in numbers, positions and examples, and not by the names they have elsewhere. Sections are of RFC 9106
    unless another standard is named. */
module Standards {
  import opened Options
  import opened Blamka
  import opened Words
  import opened Bytes
  import opened Arithmetic
  import opened Instances
  import opened IndexAlphas
  import opened Blake2b
  import opened Fill
  import opened Slices
  import opened Segments
  import opened Contexts
  import opened PreHash
  import opened Core
  import opened Base64
  import opened Decimals
  import opened Encoding
  import opened Digests
  import Phc

  // ------------------------------------------------------------------ the compression, sections 3.5 and 3.6

  /** GB is these operations in this order, with these rotations. */
  lemma GBIsSection36<W>(o: Ops<W>, a0: W, b0: W, c0: W, d0: W)
    ensures
      var a1 := o.fma(a0, b0);
      var d1 := o.rotr(o.xor(d0, a1), 32);
      var c1 := o.fma(c0, d1);
      var b1 := o.rotr(o.xor(b0, c1), 24);
      var a2 := o.fma(a1, b1);
      var d2 := o.rotr(o.xor(d1, a2), 16);
      var c2 := o.fma(c1, d2);
      var b2 := o.rotr(o.xor(b1, c2), 63);
      GB(o, a0, b0, c0, d0) == (a2, b2, c2, d2)
  {
  }

  /** The multiply-add is the sum of the words and twice the product of their low halves. */
  lemma MultiplyAdd(x: word, y: word)
    ensures OPS.fma(x, y) == Add(Add(x, y), Twice(MulLow(x, y)))
    ensures MulLow(x, y) == Mul(x & 0xFFFF_FFFF, y & 0xFFFF_FFFF)
  {
    hide Mul, Add, Twice;
  }

  lemma WordArithmetic(x: word, y: word)
    ensures Add(x, y) == x + y && Twice(x) == 2 * x && OPS.xor(x, y) == x ^ y
  {
  }

  /** Carries are lost, low halves are taken, and nothing else. */
  lemma MultiplyAddExample()
    ensures OPS.fma(0x1_0000_0003, 0x2_0000_0005) == 0x3_0000_0026
    ensures OPS.fma(0xFFFF_FFFF_FFFF_FFFF, 2) == 0x3_FFFF_FFFD
  {
  }

  /** The four rotations. */
  lemma RotationsAre(x: word)
    ensures OPS.rotr(x, 32) == (x >> 32) | (x << 32) && OPS.rotr(x, 24) == (x >> 24) | (x << 40)
    ensures OPS.rotr(x, 16) == (x >> 16) | (x << 48) && OPS.rotr(x, 63) == (x >> 63) | (x << 1)
  {
  }

  /** Columns cross rows: two words of each row are in each column, at these places. */
  lemma ColumnsCrossRows(i: nat, r: nat, e: nat)
    requires i < 8 && r < 8 && e < 2
    ensures ColumnPlaces(i)[2 * r + e] == RowPlaces(r)[2 * i + e] == 16 * r + 2 * i + e
  {
    assert (2 * r + e) / 2 == r && (2 * r + e) % 2 == e;
  }

  /** The words of a row of a block, as the loops of fill_block list them. */
  function RowList<W>(v: seq<W>, i: nat): (x: seq<W>)
    requires |v| == 128 && i < 8
    ensures |x| == 16
  {
    [v[16 * i], v[16 * i + 1], v[16 * i + 2], v[16 * i + 3], v[16 * i + 4], v[16 * i + 5], v[16 * i + 6],
     v[16 * i + 7], v[16 * i + 8], v[16 * i + 9], v[16 * i + 10], v[16 * i + 11], v[16 * i + 12], v[16 * i + 13],
     v[16 * i + 14], v[16 * i + 15]]
  }

  /** The words of a column. */
  function ColumnList<W>(v: seq<W>, i: nat): (x: seq<W>)
    requires |v| == 128 && i < 8
    ensures |x| == 16
  {
    [v[2 * i], v[2 * i + 1], v[2 * i + 16], v[2 * i + 17], v[2 * i + 32], v[2 * i + 33], v[2 * i + 48],
     v[2 * i + 49], v[2 * i + 64], v[2 * i + 65], v[2 * i + 80], v[2 * i + 81], v[2 * i + 96], v[2 * i + 97],
     v[2 * i + 112], v[2 * i + 113]]
  }

  lemma RowIsList<W>(v: seq<W>, i: nat)
    requires |v| == 128 && i < 8
    ensures Row(v, i) == RowList(v, i)
  {
  }

  lemma ColumnIsList<W>(v: seq<W>, i: nat)
    requires |v| == 128 && i < 8
    ensures Column(v, i) == ColumnList(v, i)
  {
  }

  lemma RowOfRows<W>(o: Ops<W>, r: seq<W>, i: nat)
    requires |r| == 128 && i < 8
    ensures Row(Rows(o, r), i) == P(o, Row(r, i))
  {
    hide P, Row;
    forall k | 0 <= k < 16 ensures Row(Rows(o, r), i)[k] == P(o, Row(r, i))[k] { RowAt(o, r, i, k); }
  }

  lemma RowAt<W>(o: Ops<W>, r: seq<W>, i: nat, k: nat)
    requires |r| == 128 && i < 8 && k < 16
    ensures Row(Rows(o, r), i)[k] == P(o, Row(r, i))[k]
  {
    hide P;
    assert (16 * i + k) / 16 == i && (16 * i + k) % 16 == k;
  }

  lemma ColumnOfColumns<W>(o: Ops<W>, q: seq<W>, i: nat)
    requires |q| == 128 && i < 8
    ensures Column(Columns(o, q), i) == P(o, Column(q, i))
  {
    hide P, Column;
    forall k | 0 <= k < 16 ensures Column(Columns(o, q), i)[k] == P(o, Column(q, i))[k] { ColumnAt(o, q, i, k); }
  }

  lemma ColumnAt<W>(o: Ops<W>, q: seq<W>, i: nat, k: nat)
    requires |q| == 128 && i < 8 && k < 16
    ensures Column(Columns(o, q), i)[k] == P(o, Column(q, i))[k]
  {
    hide P, ColumnIndex, ColumnOf, SlotOf;
    ColumnMember(i, k);
  }

  /** G: the two blocks are xored, P runs on the rows and then on the columns, in the order of the lists of
      fill_block, and the result is xored with what went in, and with the old block where there is one. */
  lemma CompressIsSection35<W>(o: Ops<W>, prev: seq<W>, ref: seq<W>, over: Option<seq<W>>)
    returns (r: seq<W>, q: seq<W>, z: seq<W>)
    requires |prev| == |ref| == 128 && (over.Some? ==> |over.value| == 128)
    ensures |r| == |q| == |z| == 128
    ensures forall n :: 0 <= n < 128 ==> r[n] == o.xor(ref[n], prev[n])
    ensures forall i :: 0 <= i < 8 ==> RowList(q, i) == P(o, RowList(r, i))
    ensures forall i :: 0 <= i < 8 ==> ColumnList(z, i) == P(o, ColumnList(q, i))
    ensures forall n :: 0 <= n < 128 ==>
      Compress(o, prev, ref, over)[n] == o.xor(if over.Some? then o.xor(r[n], over.value[n]) else r[n], z[n])
  {
    hide P, Row, Column, Rows, Columns, RowList, ColumnList;
    r := Xor(o, ref, prev);
    q := Rows(o, r);
    z := Columns(o, q);
    forall i | 0 <= i < 8 ensures RowList(q, i) == P(o, RowList(r, i)) {
      RowOfRows(o, r, i);
      RowIsList(q, i);
      RowIsList(r, i);
    }
    forall i | 0 <= i < 8 ensures ColumnList(z, i) == P(o, ColumnList(q, i)) {
      ColumnOfColumns(o, q, i);
      ColumnIsList(z, i);
      ColumnIsList(q, i);
    }
  }

  // ------------------------------------------------------------------ numbers and words as bytes, section 3.1

  lemma {:induction false} Pow256Step(n: nat, i: nat)
    ensures n / 256 / Pow256(i) == n / Pow256(i + 1)
  {
    var p := Pow256(i);
    var q, r := n / 256, n % 256;
    var d, e := q / p, q % p;
    assert q == d * p + e && n == 256 * q + r;
    assert n == d * (256 * p) + (256 * e + r) && 256 * e + r < 256 * p;
    DivModUnique(d, 256 * p, 256 * e + r);
  }

  /** Little-endian: byte `i` counts 256^i. */
  lemma {:induction false} LittleEndian(n: nat, k: nat, i: nat)
    requires i < k
    ensures LeBytes(n, k)[i] == n / Pow256(i) % 256
  {
    if i > 0 {
      LittleEndian(n / 256, k - 1, i - 1);
      Pow256Step(n, i - 1);
    }
  }

  lemma SmallPowersOf256()
    ensures Pow256(0) == 1 && Pow256(1) == 0x100 && Pow256(2) == 0x1_0000 && Pow256(3) == 0x100_0000
  {
    assert Pow256(1) == 256 * Pow256(0);
    assert Pow256(2) == 256 * Pow256(1);
    assert Pow256(3) == 256 * Pow256(2);
  }

  /** LE32(n). */
  lemma Le32Bytes(n: nat)
    ensures Le32(n) == [n % 256, n / 0x100 % 256, n / 0x1_0000 % 256, n / 0x100_0000 % 256]
  {
    SmallPowersOf256();
    LittleEndian(n, 4, 0);
    LittleEndian(n, 4, 1);
    LittleEndian(n, 4, 2);
    LittleEndian(n, 4, 3);
    hide LeBytes;
  }

  /** A block is stored word after word, and each word least significant byte first. */
  lemma {:induction false} StoredByte(ws: seq<word>, i: nat, j: nat)
    requires i < |ws| && j < 8
    ensures Stored(ws)[8 * i + j] == (ws[i] as int) / Pow256(j) % 256
  {
    hide LeBytes, Pow256;
    assert Stored(ws) == WordBytes(ws[0]) + Stored(ws[1..]);
    if i == 0 {
      LittleEndian(ws[0] as int, 8, j);
    } else {
      StoredByte(ws[1..], i - 1, j);
    }
  }

  /** A block is loaded like this, too. */
  lemma {:induction false} LoadedWord(b: seq<byte>, i: nat)
    requires |b| % 8 == 0 && 8 * i + 8 <= |b|
    ensures Loaded(b)[i] == WordOf(b[8 * i..8 * i + 8])
  {
    hide WordOf;
    if i > 0 {
      LoadedWord(b[8..], i - 1);
      assert b[8..][8 * (i - 1)..8 * (i - 1) + 8] == b[8 * i..8 * i + 8];
    }
  }

  lemma WordIsValue(b: seq<byte>)
    requires |b| == 8
    ensures LeValue(b) < 0x1_0000_0000_0000_0000 && WordOf(b) == LeValue(b) as word
  {
    PowersOf256();
  }

  lemma {:induction false} LittleEndianValue(b: seq<byte>)
    requires |b| > 0
    ensures LeValue(b) == b[0] as int + 256 * LeValue(b[1..]) && LeValue([]) == 0
  {
  }

  // ------------------------------------------------------------------ BLAKE2b, section 3.3 of RFC 7693

  /** Word counts up from 0. */
  lemma WordCounts(n: nat)
    ensures Word(0) == 0 && Word(n + 1) == Word(n) + 1
  {
  }

  lemma EightMore(n: nat, w: word)
    requires Word(n) == w
    ensures Word(n + 8) == w + 8
  {
    hide Word;
    WordCounts(n);
    WordCounts(n + 1);
    WordCounts(n + 2);
    WordCounts(n + 3);
    WordCounts(n + 4);
    WordCounts(n + 5);
    WordCounts(n + 6);
    WordCounts(n + 7);
  }

  lemma WordsUpTo64()
    ensures Word(32) == 32 && Word(64) == 64
  {
    WordCounts(0);
    hide Word;
    EightMore(0, 0);
    EightMore(8, 8);
    EightMore(16, 16);
    EightMore(24, 24);
    EightMore(32, 32);
    EightMore(40, 40);
    EightMore(48, 48);
    EightMore(56, 56);
  }

  /** The chaining values that unkeyed digests of 64 and of 32 bytes start from. */
  lemma StartValues()
    ensures Start(64) == [0x6a09e667f2bdc948, 0xbb67ae8584caa73b, 0x3c6ef372fe94f82b, 0xa54ff53a5f1d36f1,
                          0x510e527fade682d1, 0x9b05688c2b3e6c1f, 0x1f83d9abfb41bd6b, 0x5be0cd19137e2179]
    ensures Start(32) == Start(64)[0 := 0x6a09e667f2bdc928]
  {
    WordsUpTo64();
    hide Word;
  }

  /** Before the last block: whole blocks of 128 bytes, counted up to and including themselves. */
  lemma BlocksInTurn(f: Compression, h: Chaining, msg: seq<byte>, k: nat)
    requires 128 * (k + 1) <= |msg|
    ensures Chain(f, h, msg, 0) == h
    ensures var n := 128 * (k + 1);
      Chain(f, h, msg, k + 1)
      == f(Chain(f, h, msg, k), msg[128 * k..n], n % 0x1_0000_0000_0000_0000,
           n / 0x1_0000_0000_0000_0000 % 0x1_0000_0000_0000_0000, 0, 0)
  {
  }

  /** The last block has one to 128 bytes, or is the only one and has none: filled up with zeros, flagged, and
      counted by the bytes of the message. */
  lemma LastBlock(f: Compression, outlen: nat, msg: seq<byte>, k: nat, block: seq<byte>)
    requires 1 <= outlen <= 64
    requires (128 * k < |msg| <= 128 * k + 128) || (msg == [] && k == 0)
    requires |block| == 128 && msg[128 * k..] <= block && forall i :: |msg| - 128 * k <= i < 128 ==> block[i] == 0
    ensures Hash(f, outlen, msg)
         == Stored(f(Chain(f, Start(outlen), msg, k), block, |msg| % 0x1_0000_0000_0000_0000,
                     |msg| / 0x1_0000_0000_0000_0000 % 0x1_0000_0000_0000_0000, 0xFFFF_FFFF_FFFF_FFFF, 0))[..outlen]
  {
    assert BlocksBefore(|msg|) == k;
    hide Chain, Stored, Start;
    assert Padded(msg[128 * k..]) == block;
  }

  // ------------------------------------------------------------------ H', section 3.3

  lemma {:induction false} HalfAt(f: Compression, t: nat, a: seq<byte>, r: nat, i: nat)
    requires i < r
    ensures FirstHalves(f, t, a, r)[32 * i..32 * i + 32] == V(f, t, a, i + 1)[..32]
  {
    hide V;
    var before := FirstHalves(f, t, a, r - 1);
    assert FirstHalves(f, t, a, r) == before + V(f, t, a, r)[..32];
    if i < r - 1 {
      HalfAt(f, t, a, r - 1, i);
      assert FirstHalves(f, t, a, r)[32 * i..32 * i + 32] == before[32 * i..32 * i + 32];
    }
  }

  /** Up to 64 bytes it is one digest of the length and the input; beyond, the first halves of a chain of
      64-byte digests that starts like this, and a last digest of the 33 to 64 bytes that are missing. */
  lemma LongHashIsSection33(f: Compression, t: nat, a: seq<byte>, i: nat)
    requires t >= 1
    ensures t <= 64 ==> LongHash(f, t, a) == Hash(f, t, Le32(t) + a)
    ensures t > 64 ==>
      var r := (t + 31) / 32 - 2;
      && 32 < t - 32 * r <= 64 && r >= 1
      && V(f, t, a, 1) == Hash(f, 64, Le32(t) + a)
      && (i >= 1 ==> V(f, t, a, i + 1) == Hash(f, 64, V(f, t, a, i)))
      && (i < r ==> LongHash(f, t, a)[32 * i..32 * i + 32] == V(f, t, a, i + 1)[..32])
      && LongHash(f, t, a)[32 * r..] == Hash(f, t - 32 * r, V(f, t, a, r))
  {
    hide Hash, Le32, FirstHalves;
    if t > 64 {
      var r := (t + 31) / 32 - 2;
      FirstLink(f, t, a);
      if i >= 1 {
        NextLink(f, t, a, i);
      }
      hide V;
      var front := FirstHalves(f, t, a, r);
      assert LongHash(f, t, a) == front + Hash(f, t - 32 * r, V(f, t, a, r));
      if i < r {
        HalfAt(f, t, a, r, i);
        assert LongHash(f, t, a)[32 * i..32 * i + 32] == front[32 * i..32 * i + 32];
      }
    }
  }

  // ------------------------------------------------------------------ which block, sections 3.4.1 and 3.4.2

  /** The halves of a pseudo-random word: J1 is the lower one. */
  lemma HalvesOfWord(w: word)
    ensures J1(w) == (w as int) % 0x1_0000_0000 && J2(w) == (w as int) / 0x1_0000_0000
    ensures J1(0x2_0000_0005) == 5 && J2(0x2_0000_0005) == 2
  {
  }

  /** index_alpha, from the size of W, the number J1 and the oldest block that may be referred to. */
  lemma ChoiceIsSection342(inst: Instance, pos: Position, j1: u32, sameLane: bool)
    requires inst.Valid() && pos.Reachable(inst)
    requires pos.pass == 0 && pos.slice == 0 ==> sameLane
    ensures
      var size := (if pos.pass == 0 then pos.slice * inst.segmentLength else 3 * inst.segmentLength)
                + (if sameLane then pos.index - 1 else if pos.index == 0 then -1 else 0);
      var x := j1 * j1 / 0x1_0000_0000;
      var y := size * x / 0x1_0000_0000;
      var z := size - 1 - y;
      && size > 0 && 0 <= z < size && inst.laneLength == 4 * inst.segmentLength
      && IndexAlpha(inst, pos, j1, sameLane)
         == if pos.pass == 0 then z else ((pos.slice + 1) * inst.segmentLength + z) % inst.laneLength
  {
    hide IndexAlpha, Window, Times;
    IndexAlphaPicksFromWindow(inst, pos, j1, sameLane);
    WindowSize(inst, pos, sameLane);
    SizeBounds(inst, pos, sameLane);
    SliceStartIsProduct(inst, pos.slice);
    WindowInOrder(inst, pos, sameLane, Pick(j1, |Window(inst, pos, sameLane)|));
    hide SliceStart;
  }

  /** W goes from the oldest block to the newest, round the lane. */
  lemma WindowInOrder(inst: Instance, pos: Position, sameLane: bool, k: nat)
    requires inst.Valid() && pos.Reachable(inst) && (pos.pass == 0 && pos.slice == 0 ==> sameLane)
    requires k < |Window(inst, pos, sameLane)|
    ensures Window(inst, pos, sameLane)[k]
         == if pos.pass == 0 then k else ((pos.slice + 1) * inst.segmentLength + k) % inst.laneLength
  {
    hide Window, Times;
    WindowAt(inst, pos, sameLane, k);
    WindowSize(inst, pos, sameLane);
    SizeBounds(inst, pos, sameLane);
    hide Size;
    SliceBounds(inst, pos.slice);
    SliceStartIsProduct(inst, pos.slice + 1);
    hide SliceStart;
    if pos.pass > 0 {
      RoundTheLane(SliceStart(inst, pos.slice + 1), k, inst.laneLength);
    }
  }

  lemma RoundTheLane(next: nat, k: nat, lane: nat)
    requires next <= lane && k < lane
    ensures (next + k) % lane == if k < lane - next then next + k else k - (lane - next)
  {
    if k < lane - next {
      DivModUnique(0, lane, next + k);
    } else {
      DivModUnique(1, lane, k - (lane - next));
    }
  }

  /** The input block of the address generator. */
  lemma AddressInput(inst: Instance, pos: Position, counter: nat)
    requires pos.pass < 0x1_0000_0000 && pos.lane < 0x1_0000_0000 && pos.slice < 4
    ensures
      var code := match inst.variant case Argon2d => 0 case Argon2i => 1 case Argon2id => 2;
      var input := InputBlock(inst, pos, counter);
      && input[..7] == [Word(pos.pass), Word(pos.lane), Word(pos.slice), Word(inst.memoryBlocks), Word(inst.passes),
                        Word(code), Word(counter)]
      && (forall n :: 7 <= n < 128 ==> input[n] == 0) && |input| == 128
      && VariantOf(code) == Some(inst.variant)
  {
    hide Word;
    assert forall n :: 0 <= n < 128 ==> ZeroBlock()[n] == 0;
  }

  /** Where addressing does not depend on the memory: word i mod 128 of the address block with counter
      i / 128 + 1, which is the compression run twice over the input block. Elsewhere: the first word of the
      previous block. */
  lemma RandIsSection341(g: Compressor, inst: Instance, pos: Position, m: seq<Block>, zero: Block)
    requires Ready(inst, pos, m) && forall n :: 0 <= n < 128 ==> zero[n] == 0
    ensures
      var j := pos.slice * inst.segmentLength + pos.index;
      var before := pos.lane * inst.laneLength + if j == 0 then inst.laneLength - 1 else j - 1;
      && 0 <= before < |m|
      && PseudoRand(g, inst, pos, m)
         == if inst.variant == Argon2i || (inst.variant == Argon2id && pos.pass == 0 && pos.slice < 2) then
              g(zero, g(zero, InputBlock(inst, pos, pos.index / 128 + 1), None), None)[pos.index % 128]
            else m[before][0]
  {
    assert zero == ZeroBlock();
    PositionsInMemory(inst, pos);
    SliceStartIsProduct(inst, pos.slice);
    ProductIsTimes(pos.lane, inst.laneLength);
    hide SliceStart, InputBlock, ZeroBlock, Times;
  }

  /** A block is made of the previous one in its lane and the one referred to, and from version 0x13 on, after
      the first pass, of what it held. It is the only one that changes. */
  lemma BlockIsSection32(g: Compressor, inst: Instance, pos: Position, m: seq<Block>)
    requires Ready(inst, pos, m)
    ensures
      var q := inst.laneLength;
      var j := pos.slice * inst.segmentLength + pos.index;
      var current := pos.lane * q + j;
      var before := pos.lane * q + if j == 0 then q - 1 else j - 1;
      var rand := PseudoRand(g, inst, pos, m);
      var lane := if pos.pass == 0 && pos.slice == 0 then pos.lane else J2(rand) % inst.lanes;
      var other := lane * q + IndexAlpha(inst, pos, J1(rand), lane == pos.lane);
      var over := inst.version != 0x10 && pos.pass > 0;
      && 0 <= current < |m| && 0 <= before < |m| && 0 <= other < |m|
      && Step(g, inst, pos, m)
         == m[current := g(m[before], m[other], if over then Some(m[current]) else None)]
  {
    PositionsInMemory(inst, pos);
    SliceStartIsProduct(inst, pos.slice);
    ProductIsTimes(pos.lane, inst.laneLength);
    var rand := PseudoRand(g, inst, pos, m);
    ReferenceIsRead(inst, pos, rand);
    ProductIsTimes(RefLane(inst, pos, rand), inst.laneLength);
    hide SliceStart, PseudoRand, IndexAlpha, Fill.Reads, Times;
  }

  // ------------------------------------------------------------------ H_0, first blocks and tag, section 3.2

  /** Which field of a context is which input. */
  lemma InputsAreFields(ctx: Context, variant: Variant)
    requires ctx.Buffers()
    ensures
      var i := InputsOf(ctx, variant);
      && i.lanes == ctx.lanes && i.outlen == ctx.outlen && i.mCost == ctx.mCost && i.tCost == ctx.tCost
      && i.version == ctx.version && i.variant == variant
      && i.pwd == (if ctx.pwd == null then [] else ctx.pwd[..ctx.pwdlen])
      && i.salt == (if ctx.salt == null then [] else ctx.salt[..ctx.saltlen])
      && i.secret == (if ctx.secret == null then [] else ctx.secret[..ctx.secretlen])
      && i.ad == (if ctx.ad == null then [] else ctx.ad[..ctx.adlen])
  {
  }

  /** What is hashed to H_0: six numbers, then the password, the salt, the secret and the associated data, each
      after its length. */
  lemma PreImageIsSection32(i: Inputs)
    ensures
      var code := match i.variant case Argon2d => 0 case Argon2i => 1 case Argon2id => 2;
      var b := PreImage(i);
      && |b| > 24
      && b[..4] == Le32(i.lanes) && b[4..8] == Le32(i.outlen) && b[8..12] == Le32(i.mCost)
      && b[12..16] == Le32(i.tCost) && b[16..20] == Le32(i.version) && b[20..24] == Le32(code)
      && b[24..] == (Le32(|i.pwd|) + i.pwd) + (Le32(|i.salt|) + i.salt)
                    + (Le32(|i.secret|) + i.secret) + (Le32(|i.ad|) + i.ad)
  {
    hide Le32, TypeCode;
    NumbersInFront(i);
    var rest := Field(i.pwd) + Field(i.salt) + Field(i.secret) + Field(i.ad);
    assert |rest| > 0;
    hide Parameters, Field;
    var b, p := PreImage(i), Parameters(i);
    assert b == p + rest;
    assert b[..24] == p && b[24..] == rest;
    assert b[..4] == p[..4] && b[4..8] == p[4..8] && b[8..12] == p[8..12];
    assert b[12..16] == p[12..16] && b[16..20] == p[16..20] && b[20..24] == p[20..24];
  }

  lemma NumbersInFront(i: Inputs)
    ensures
      var code := match i.variant case Argon2d => 0 case Argon2i => 1 case Argon2id => 2;
      var b := Parameters(i);
      && b[..4] == Le32(i.lanes) && b[4..8] == Le32(i.outlen) && b[8..12] == Le32(i.mCost)
      && b[12..16] == Le32(i.tCost) && b[16..20] == Le32(i.version) && b[20..24] == Le32(code)
  {
    hide Le32;
  }

  /** The first two blocks of each lane: H' of H_0, the column and the lane, in this order. */
  lemma FirstBlocksAreSection32(f: Compression, inst: Instance, h0: seq<byte>, lane: nat, column: nat)
    requires inst.Valid() && lane < inst.lanes && column < 2
    ensures lane * inst.laneLength + column < inst.memoryBlocks
    ensures FirstMemory(f, inst, h0)[lane * inst.laneLength + column]
         == Loaded(LongHash(f, 1024, h0 + Le32(column) + Le32(lane)))
  {
    hide LongHash, Stored, Loaded, Le32, Times;
    LayoutIsOneToOne(inst, lane, column);
    ProductIsTimes(lane, inst.laneLength);
  }

  function XorAll(ws: seq<word>): word
    requires |ws| > 0
  {
    if |ws| == 1 then ws[0] else XorAll(ws[..|ws| - 1]) ^ ws[|ws| - 1]
  }

  /** Word `n` of the last block of each of the first lanes. */
  ghost function LastWords(inst: Instance, m: seq<Block>, lanes: nat, n: nat): (ws: seq<word>)
    requires inst.Valid() && |m| == inst.memoryBlocks && lanes <= inst.lanes && n < 128
    ensures |ws| == lanes
  {
    seq(lanes, l requires 0 <= l < lanes => LastInMemory(inst, l); m[l * inst.laneLength + (inst.laneLength - 1)][n])
  }

  lemma LastInMemory(inst: Instance, l: nat)
    requires inst.Valid() && l < inst.lanes
    ensures 0 <= l * inst.laneLength + (inst.laneLength - 1) < inst.memoryBlocks
    ensures l * inst.laneLength + (inst.laneLength - 1) == inst.At(l, inst.laneLength - 1)
  {
    LayoutIsOneToOne(inst, l, inst.laneLength - 1);
    ProductIsTimes(l, inst.laneLength);
  }

  lemma {:induction false} LastColumnIsXor(inst: Instance, m: seq<Block>, l: nat, n: nat)
    requires inst.Valid() && |m| == inst.memoryBlocks && l < inst.lanes && n < 128
    ensures LastColumn(inst, m, l)[n] == XorAll(LastWords(inst, m, l + 1, n))
  {
    var ws := LastWords(inst, m, l + 1, n);
    LastInMemory(inst, l);
    hide Times;
    if l > 0 {
      LastColumnIsXor(inst, m, l - 1, n);
      assert ws[..l] == LastWords(inst, m, l, n);
      NextOfColumn(inst, m, l);
      hide LastColumn;
      XorWord(LastColumn(inst, m, l - 1), m[inst.At(l, inst.laneLength - 1)], n);
    }
  }

  lemma XorWord(a: Block, b: Block, n: nat)
    requires n < 128
    ensures Xor(OPS, a, b)[n] == a[n] ^ b[n]
  {
  }

  /** The tag: H' of the block whose words are the xor, over all lanes, of those of their last blocks. */
  lemma TagIsSection32(f: Compression, inst: Instance, outlen: nat, m: seq<Block>) returns (c: Block)
    requires inst.Valid() && |m| == inst.memoryBlocks && outlen >= 1
    ensures forall n :: 0 <= n < 128 ==> c[n] == XorAll(LastWords(inst, m, inst.lanes, n))
    ensures TagOf(f, inst, outlen, m) == LongHash(f, outlen, Stored(c))
  {
    hide LastColumn, LongHash, Stored, XorAll, LastWords, Times;
    c := LastColumn(inst, m, inst.lanes - 1);
    forall n | 0 <= n < 128 ensures c[n] == XorAll(LastWords(inst, m, inst.lanes, n)) {
      LastColumnIsXor(inst, m, inst.lanes - 1, n);
    }
  }

  /** From the inputs to the memory of which the tag is taken: four slices a pass, over the first blocks made from
      a 64-byte H_0, with the compression of this program. */
  lemma TagOfInputs(f: Compression, inst: Instance, inputs: Inputs)
    requires inst.Valid() && inputs.outlen >= 1
    ensures Tag(f, inst, inputs)
         == TagOf(f, inst, inputs.outlen,
                  FillTo((prev, ref, over) => Compress(OPS, prev, ref, over), inst, 4 * inst.passes,
                         FirstMemory(f, inst, Hash(f, 64, PreImage(inputs)))))
  {
    hide TagOf, FillTo, FirstMemory, Hash, PreImage, Times;
  }

  /** Slices, lanes and blocks come in order: slice by slice through the passes, in each slice lane by lane, in
      each lane from the first block of the segment to the last; the first two of each lane are there already. */
  lemma BlocksInOrder(g: Compressor, inst: Instance, pass: nat, slice: nat, lane: nat, index: nat, m: seq<Block>)
    requires inst.Valid() && |m| == inst.memoryBlocks
    requires pass < inst.passes && slice < 4 && lane < inst.lanes
    requires index < inst.segmentLength && (pass == 0 && slice == 0 ==> index >= 2)
    ensures FillTo(g, inst, 0, m) == m
    ensures FillTo(g, inst, 4 * pass + slice + 1, m)
         == SliceTo(g, inst, pass, slice, inst.lanes, FillTo(g, inst, 4 * pass + slice, m))
    ensures SliceTo(g, inst, pass, slice, 0, m) == m
    ensures SliceTo(g, inst, pass, slice, lane + 1, m)
         == SegmentTo(g, inst, Position(pass, lane, slice, 0), inst.segmentLength,
                      SliceTo(g, inst, pass, slice, lane, m))
    ensures SegmentTo(g, inst, Position(pass, lane, slice, 0), if pass == 0 && slice == 0 then 2 else 0, m) == m
    ensures SegmentTo(g, inst, Position(pass, lane, slice, 0), index + 1, m)
         == Step(g, inst, Position(pass, lane, slice, index),
                 SegmentTo(g, inst, Position(pass, lane, slice, 0), index, m))
  {
    hide Step, Times, SliceStart;
    FillOne(g, inst, pass, slice, m);
  }

  // ------------------------------------------------------------------ codes of argon2.h

  /** Which of the rules that a context breaks is reported: the first in this order, by this number. */
  lemma ErrorsInOrder(ctx: Context)
    ensures
      ctx.Validate()
      == if ctx.out == null then -1
         else if ctx.outlen < 4 then -2
         else if ctx.pwd == null && ctx.pwdlen > 0 then -18
         else if ctx.salt == null && ctx.saltlen > 0 then -19
         else if ctx.saltlen < 8 then -6
         else if ctx.secret == null && ctx.secretlen > 0 then -20
         else if ctx.ad == null && ctx.adlen > 0 then -21
         else if ctx.mCost < 8 || ctx.mCost < 8 * ctx.lanes % 0x1_0000_0000 then -14
         else if ctx.tCost < 1 then -12
         else if ctx.lanes < 1 then -16
         else if ctx.lanes > 0xFF_FFFF then -17
         else if ctx.threads < 1 then -28
         else if ctx.threads > 0xFF_FFFF then -29
         else if ctx.allocateCbk && !ctx.freeCbk then -23
         else if !ctx.allocateCbk && ctx.freeCbk then -24
         else 0
  {
  }

  lemma OtherCodes()
    ensures OK == 0 && MEMORY_ALLOCATION_ERROR == -22 && INCORRECT_TYPE == -26
    ensures ENCODING_FAIL == -31 && DECODING_FAIL == -32 && VERIFY_MISMATCH == -35
    ensures OUTPUT_TOO_SHORT == -2 && OUTPUT_TOO_LONG == -3 && PWD_TOO_LONG == -5 && SALT_TOO_LONG == -7
  {
  }

  // ------------------------------------------------------------------ base64, section 4 of RFC 4648

  const SMALL: string := "abcdefghijklmnopqrstuvwxyz"

  const GREAT: string := "ABCDEFGHIJKLMNOPQRSTUVWXYZ"

  const FIGURES: string := "0123456789"

  const ALPHABET: string := GREAT + SMALL + FIGURES + "+/"

  lemma SmallLetter(i: nat)
    requires i < 26
    ensures |SMALL| == 26 && SMALL[i] as int == 97 + i
  {
  }

  lemma GreatLetter(i: nat)
    requires i < 26
    ensures |GREAT| == 26 && GREAT[i] as int == 65 + i
  {
  }

  lemma Figure(i: nat)
    requires i < 10
    ensures |FIGURES| == 10 && FIGURES[i] as int == 48 + i
  {
  }

  lemma SmallLetters(c: char)
    ensures c in SMALL <==> 'a' <= c <= 'z'
  {
    forall i | 0 <= i < 26 ensures SMALL[i] as int == 97 + i { SmallLetter(i); }
    SmallLetter(0);
    hide SMALL;
    if 'a' <= c <= 'z' {
      assert SMALL[c as int - 97] == c;
    }
  }

  lemma GreatLetters(c: char)
    ensures c in GREAT <==> 'A' <= c <= 'Z'
  {
    forall i | 0 <= i < 26 ensures GREAT[i] as int == 65 + i { GreatLetter(i); }
    GreatLetter(0);
    hide GREAT;
    if 'A' <= c <= 'Z' {
      assert GREAT[c as int - 65] == c;
    }
  }

  lemma FigureChars(c: char)
    ensures c in FIGURES <==> IsDigit(c)
  {
    forall i | 0 <= i < 10 ensures FIGURES[i] as int == 48 + i { Figure(i); }
    Figure(0);
    hide FIGURES;
    if IsDigit(c) {
      assert FIGURES[c as int - 48] == c;
    }
  }

  lemma SymbolIsAlphabet(v: nat)
    requires v < 64
    ensures |ALPHABET| == 64 && Symbol(v) == ALPHABET[v]
  {
    SmallLetter(if 26 <= v < 52 then v - 26 else 0);
    GreatLetter(if v < 26 then v else 0);
    Figure(if 52 <= v < 62 then v - 52 else 0);
    hide SMALL, GREAT, FIGURES;
  }

  /** Three bytes are a number of 24 bits, the first the highest, and its four digits to base 64 are the letters,
      from the highest on; missing bytes count as zeros. */
  lemma LettersOfTriple(s: seq<byte>, q: nat, r: nat)
    requires r < 4 && 4 * q + r < |Text(s)|
    ensures
      var n := 0x1_0000 * ByteAt(s, 3 * q) + 0x100 * ByteAt(s, 3 * q + 1) + ByteAt(s, 3 * q + 2);
      var digit := if r == 0 then n / 0x4_0000 else if r == 1 then n / 0x1000 % 64 else if r == 2 then n / 64 % 64
                   else n % 64;
      0 <= digit < 64 && Text(s)[4 * q + r] == ALPHABET[digit]
  {
    var a, b, c := ByteAt(s, 3 * q), ByteAt(s, 3 * q + 1), ByteAt(s, 3 * q + 2);
    SextetAt(s, q, r);
    DigitsOfTriple(a, b, c, r);
    hide Sextet, ByteAt, TextLength;
    SymbolIsAlphabet(SextetOf(r, a, b, c));
    hide SextetOf, Symbol;
  }

  lemma DigitsOfTriple(a: byte, b: byte, c: byte, r: nat)
    requires r < 4
    ensures
      var n := 0x1_0000 * a + 0x100 * b + c;
      SextetOf(r, a, b, c)
      == if r == 0 then n / 0x4_0000 else if r == 1 then n / 0x1000 % 64 else if r == 2 then n / 64 % 64 else n % 64
  {
    var n := 0x1_0000 * a + 0x100 * b + c;
    DivModUnique(a / 4, 0x4_0000, 0x1_0000 * (a % 4) + 0x100 * b + c);
    DivModUnique(16 * a + b / 16, 0x1000, 0x100 * (b % 16) + c);
    DivModUnique(a / 4, 64, 16 * (a % 4) + b / 16);
    DivModUnique(0x400 * a + 4 * b + c / 64, 64, c % 64);
    DivModUnique(16 * a + b / 16, 64, 4 * (b % 16) + c / 64);
  }

  lemma LengthsOfText(n: nat)
    ensures TextLength(3 * n) == 4 * n && TextLength(3 * n + 1) == 4 * n + 2 && TextLength(3 * n + 2) == 4 * n + 3
  {
    assert (3 * n + 1) / 3 == n && (3 * n + 1) % 3 == 1;
    assert (3 * n + 2) / 3 == n && (3 * n + 2) % 3 == 2;
  }

  // ------------------------------------------------------------------ encoded strings

  /** Decimal notation. */
  lemma DigitsInTurn(n: nat, d: nat)
    requires d < 10
    ensures Digits(d) == ["0123456789"[d]]
    ensures n > 0 ==> Digits(10 * n + d) == Digits(n) + ["0123456789"[d]]
  {
    assert (10 * n + d) / 10 == n && (10 * n + d) % 10 == d;
  }

  /** The name of a type, by its code. */
  lemma NameOfType(code: int)
    requires 0 <= code <= 2
    ensures VariantOf(code).Some?
    ensures TypeString(VariantOf(code).value)
         == if code == 0 then "argon2d" else if code == 1 then "argon2i" else "argon2id"
  {
  }

  /** The whole string, by type code. */
  lemma FormatInLetters(code: int, x: Fields)
    requires 0 <= code <= 2
    ensures
      var name := if code == 0 then "argon2d" else if code == 1 then "argon2i" else "argon2id";
      var version := if x.version.Some? then "$v=" + Digits(x.version.value) else "";
      && VariantOf(code).Some?
      && Format(VariantOf(code).value, x)
         == ("$" + name + version) + ("$m=" + Digits(x.mCost) + (",t=" + Digits(x.tCost) + (",p=" + Digits(x.lanes))))
            + ("$" + Text(x.salt)) + ("$" + Text(x.out))
  {
    hide Digits, Text, TypeString;
    NameOfType(code);
  }

  /** A '$' follows the name. */
  lemma FormatBegins(code: int, x: Fields)
    requires 0 <= code <= 2
    ensures VariantOf(code).Some?
    ensures (if code == 0 then "$argon2d$" else if code == 1 then "$argon2i$" else "$argon2id$")
         <= Format(VariantOf(code).value, x)
  {
    NameOfType(code);
    hide Digits, Text, TypeString;
    var variant := VariantOf(code).value;
    FormatFromType(variant, x);
    DollarAfter(x);
    hide Format, VersionPart, Costs, Blob;
    OneMoreCharacter("$" + TypeString(variant),
                     VersionPart(x.version) + Costs(x.mCost, x.tCost, x.lanes) + (Blob(x.salt) + Blob(x.out)));
    assert "$" + "argon2d" + "$" == "$argon2d$" && "$" + "argon2i" + "$" == "$argon2i$";
    assert "$" + "argon2id" + "$" == "$argon2id$";
  }

  lemma OneMoreCharacter(front: string, rest: string)
    requires |rest| > 0 && rest[0] == '$'
    ensures front + "$" <= front + rest
  {
  }

  lemma DollarAfter(x: Fields)
    ensures var rest := VersionPart(x.version) + Costs(x.mCost, x.tCost, x.lanes) + (Blob(x.salt) + Blob(x.out));
            |rest| > 0 && rest[0] == '$'
  {
    hide Digits, Text;
  }

  /** Other codes are no types. */
  lemma OtherTypes(code: int)
    ensures VariantOf(code).None? <==> !(0 <= code <= 2)
  {
  }

  /** Which field of a context is which part of the string. */
  lemma StringIsFields(ctx: Context)
    requires ctx.salt != null && ctx.out != null && ctx.saltlen <= ctx.salt.Length && ctx.outlen <= ctx.out.Length
    ensures
      var x := FieldsOf(ctx);
      && x.version == Some(ctx.version) && x.mCost == ctx.mCost && x.tCost == ctx.tCost && x.lanes == ctx.lanes
      && x.salt == ctx.salt[..ctx.saltlen] && x.out == ctx.out[..ctx.outlen]
  {
  }

  /** The inputs of the tag that a string is verified with. */
  lemma InputsOfString(variant: Variant, x: Fields, pwd: seq<byte>)
    requires Accepted(x)
    ensures
      var i := InputsFor(variant, x, pwd);
      && i.lanes == x.lanes && i.outlen == |x.out| && i.mCost == x.mCost && i.tCost == x.tCost
      && i.version == (if x.version.Some? then x.version.value else 0x10) && i.variant == variant
      && i.pwd == pwd && i.salt == x.salt && i.secret == [] && i.ad == []
  {
  }

  // ------------------------------------------------------------------ the regular expressions of phc.ts

  /** A string of so many characters of a set. */
  ghost predicate Of(s: string, letters: string, least: nat, most: nat) {
    least <= |s| <= most && forall i :: 0 <= i < |s| ==> s[i] in letters
  }

  lemma Classes(c: char)
    ensures Phc.NameChar(c) <==> c in SMALL + FIGURES + "-"
    ensures Phc.ValueChar(c) <==> c in SMALL + GREAT + FIGURES + "/+.-"
  {
    SmallLetters(c);
    GreatLetters(c);
    FigureChars(c);
    hide SMALL, GREAT, FIGURES;
  }

  lemma RegularExpressions(s: string)
    ensures Phc.IsName(s) <==> Of(s, SMALL + FIGURES + "-", 1, 32)
    ensures Phc.IsB64(s) <==> Of(s, SMALL + GREAT + FIGURES + "/+.-", 0, |s|)
    ensures Phc.IsValue(s) <==> Of(s, SMALL + GREAT + FIGURES + "/+.-", 1, |s|)
    ensures Phc.IsVersion(s) <==> |s| >= 3 && s[0] == 'v' && s[1] == '=' && Of(s[2..], FIGURES, 1, |s|)
    ensures Phc.MAX_SAFE == 9007199254740991
  {
    forall i | 0 <= i < |s|
      ensures Phc.NameChar(s[i]) <==> s[i] in SMALL + FIGURES + "-"
      ensures Phc.ValueChar(s[i]) <==> s[i] in SMALL + GREAT + FIGURES + "/+.-"
    {
      Classes(s[i]);
    }
    forall c ensures c in FIGURES <==> IsDigit(c) { FigureChars(c); }
    hide Phc.NameChar, Phc.ValueChar, SMALL, GREAT, FIGURES;
    if |s| >= 3 {
      assert s[..2] == [s[0], s[1]];
    }
  }

  /** What decimalRegex matches is exactly what an integer is printed as. */
  lemma DecimalsArePrinted(s: string)
    ensures Phc.IsDecimal(s) <==> exists n: int :: s == Phc.IntText(n)
  {
    if Phc.IsDecimal(s) {
      Phc.IntOfDecimal(s);
    }
    if n: int :| s == Phc.IntText(n) {
      Phc.DecimalOfInt(n);
    }
  }
}
