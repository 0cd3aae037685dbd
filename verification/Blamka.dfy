/** The compression function G of Argon2 (sections 3.5 and 3.6 of RFC 9106): its definition,
    the scalar form of ref.c and the 128-bit form of opt.c.

    The word type `W` and its three operations are parameters, so what is proved here is about
    where words are placed and in which order they are combined, whatever the arithmetic is. */
module Blamka {
  import opened Options

  /** fBlaMka, exclusive or and rotation to the right on 64-bit words. */
  datatype Ops<!W> = Ops(fma: (W, W) -> W, xor: (W, W) -> W, rotr: (W, nat) -> W)

  const WORDS: nat := 128

  // ------------------------------------------------------------------ definition of G

  /** Half of GB: one multiply-add, xor, rotate, twice over. */
  function Half<W>(o: Ops<W>, r1: nat, r2: nat, a: W, b: W, c: W, d: W): (W, W, W, W) {
    var a' := o.fma(a, b);
    var d' := o.rotr(o.xor(d, a'), r1);
    var c' := o.fma(c, d');
    var b' := o.rotr(o.xor(b, c'), r2);
    (a', b', c', d')
  }

  function GB<W>(o: Ops<W>, a: W, b: W, c: W, d: W): (W, W, W, W) {
    var (a', b', c', d') := Half(o, 32, 24, a, b, c, d);
    Half(o, 16, 63, a', b', c', d')
  }

  /** GB applied to four of the sixteen words of `x`. */
  function GOn<W>(o: Ops<W>, x: seq<W>, a: nat, b: nat, c: nat, d: nat): (y: seq<W>)
    requires |x| == 16 && a < 4 <= b < 8 <= c < 12 <= d < 16
    ensures |y| == 16
  {
    var (a', b', c', d') := GB(o, x[a], x[b], x[c], x[d]);
    x[a := a'][b := b'][c := c'][d := d']
  }

  /** The permutation P on sixteen words: four columns, then four diagonals. */
  function P<W>(o: Ops<W>, x: seq<W>): (y: seq<W>)
    requires |x| == 16
    ensures |y| == 16
  {
    var x := GOn(o, x, 0, 4, 8, 12);
    var x := GOn(o, x, 1, 5, 9, 13);
    var x := GOn(o, x, 2, 6, 10, 14);
    var x := GOn(o, x, 3, 7, 11, 15);
    var x := GOn(o, x, 0, 5, 10, 15);
    var x := GOn(o, x, 1, 6, 11, 12);
    var x := GOn(o, x, 2, 7, 8, 13);
    GOn(o, x, 3, 4, 9, 14)
  }

  /** The same permutation written out word by word, without any update in place. */
  lemma PWordByWord<W>(o: Ops<W>, x: seq<W>)
    requires |x| == 16
    ensures
      var c0 := GB(o, x[0], x[4], x[8], x[12]);
      var c1 := GB(o, x[1], x[5], x[9], x[13]);
      var c2 := GB(o, x[2], x[6], x[10], x[14]);
      var c3 := GB(o, x[3], x[7], x[11], x[15]);
      var d0 := GB(o, c0.0, c1.1, c2.2, c3.3);
      var d1 := GB(o, c1.0, c2.1, c3.2, c0.3);
      var d2 := GB(o, c2.0, c3.1, c0.2, c1.3);
      var d3 := GB(o, c3.0, c0.1, c1.2, c2.3);
      P(o, x) == [d0.0, d1.0, d2.0, d3.0, d3.1, d0.1, d1.1, d2.1,
                  d2.2, d3.2, d0.2, d1.2, d1.3, d2.3, d3.3, d0.3]
  {
  }

  /** Positions of the sixteen words of row `i`: 16i, 16i+1, ..., 16i+15. */
  function RowIndex(i: nat, k: nat): nat { 16 * i + k }

  /** Positions of the sixteen words of column `i`: 2i, 2i+1, 2i+16, 2i+17, ..., 2i+113. */
  function ColumnIndex(i: nat, k: nat): nat { 2 * i + 16 * (k / 2) + k % 2 }

  /** The column a word belongs to, and its place there. */
  function ColumnOf(n: nat): nat { n % 16 / 2 }

  function SlotOf(n: nat): nat { 2 * (n / 16) + n % 2 }

  lemma ColumnsPartition(n: nat)
    requires n < WORDS
    ensures ColumnOf(n) < 8 && SlotOf(n) < 16 && ColumnIndex(ColumnOf(n), SlotOf(n)) == n
  {
  }

  lemma ColumnMember(i: nat, k: nat)
    requires i < 8 && k < 16
    ensures ColumnIndex(i, k) < WORDS && ColumnOf(ColumnIndex(i, k)) == i && SlotOf(ColumnIndex(i, k)) == k
  {
    var q, e := k / 2, k % 2;
    var n := ColumnIndex(i, k);
    assert n == 16 * q + (2 * i + e) && 2 * i + e < 16;
    assert n / 16 == q && n % 16 == 2 * i + e;
    assert n % 2 == e;
  }

  function Row<W>(s: seq<W>, i: nat): (x: seq<W>)
    requires |s| == WORDS && i < 8
    ensures |x| == 16
  {
    seq(16, k requires 0 <= k < 16 => s[RowIndex(i, k)])
  }

  function Column<W>(s: seq<W>, i: nat): (x: seq<W>)
    requires |s| == WORDS && i < 8
    ensures |x| == 16
  {
    seq(16, k requires 0 <= k < 16 => s[ColumnIndex(i, k)])
  }

  /** P applied to each of the eight rows. */
  function Rows<W>(o: Ops<W>, s: seq<W>): (t: seq<W>)
    requires |s| == WORDS
    ensures |t| == WORDS
  {
    seq(WORDS, n requires 0 <= n < WORDS => P(o, Row(s, n / 16))[n % 16])
  }

  /** P applied to each of the eight columns. */
  function Columns<W>(o: Ops<W>, s: seq<W>): (t: seq<W>)
    requires |s| == WORDS
    ensures |t| == WORDS
  {
    seq(WORDS, n requires 0 <= n < WORDS => P(o, Column(s, ColumnOf(n)))[SlotOf(n)])
  }

  function Xor<W>(o: Ops<W>, a: seq<W>, b: seq<W>): (c: seq<W>)
    requires |a| == |b|
    ensures |c| == |a|
  {
    seq(|a|, n requires 0 <= n < |a| => o.xor(a[n], b[n]))
  }

  /** G(prev, ref), to be xored over the old block when there is one (section 3.5 of RFC 9106; the
      xor over the old block belongs to version 0x13 after the first pass). */
  function Compress<W>(o: Ops<W>, prev: seq<W>, ref: seq<W>, over: Option<seq<W>>): (next: seq<W>)
    requires |prev| == |ref| == WORDS && (over.Some? ==> |over.value| == WORDS)
    ensures |next| == WORDS
  {
    var r := Xor(o, ref, prev);
    Xor(o, if over.Some? then Xor(o, r, over.value) else r, Columns(o, Rows(o, r)))
  }

  // ------------------------------------------------------------------ ref.c

  method CopyBlock<W>(dst: array<W>, src: array<W>)
    requires dst.Length == src.Length == WORDS
    modifies dst
    ensures dst[..] == old(src[..])
  {
    for i := 0 to WORDS
      invariant dst != src ==> forall k :: 0 <= k < i ==> dst[k] == src[k]
      invariant dst == src ==> dst[..] == old(src[..])
      invariant dst != src ==> src[..] == old(src[..])
    {
      dst[i] := src[i];
    }
  }

  method XorBlock<W>(o: Ops<W>, dst: array<W>, src: array<W>)
    requires dst.Length == src.Length == WORDS
    modifies dst
    ensures dst[..] == Xor(o, old(dst[..]), old(src[..]))
  {
    for i := 0 to WORDS
      invariant forall k :: 0 <= k < i ==> dst[k] == o.xor(old(dst[k]), old(src[k]))
      invariant forall k :: i <= k < WORDS ==> dst[k] == old(dst[k])
      invariant dst != src ==> src[..] == old(src[..])
    {
      dst[i] := o.xor(dst[i], src[i]);
    }
  }

  /** `pos` names sixteen different cells of a block. */
  ghost predicate Places(pos: seq<nat>) {
    && |pos| == 16
    && (forall k :: 0 <= k < 16 ==> pos[k] < WORDS)
    && (forall j, k :: 0 <= j < k < 16 ==> pos[j] != pos[k])
  }

  ghost function Gather<W>(s: seq<W>, pos: seq<nat>): (x: seq<W>)
    requires |s| == WORDS && Places(pos)
    ensures |x| == 16
  {
    seq(16, k requires 0 <= k < 16 => s[pos[k]])
  }

  /** Writing four gathered cells is writing four words of what is gathered. */
  lemma GatherAfter<W>(s: seq<W>, s0: seq<W>, pos: seq<nat>, a: nat, b: nat, c: nat, d: nat)
    requires |s| == |s0| == WORDS && Places(pos)
    requires a < 4 <= b < 8 <= c < 12 <= d < 16
    requires forall n :: 0 <= n < WORDS && n != pos[a] && n != pos[b] && n != pos[c] && n != pos[d] ==> s[n] == s0[n]
    ensures Gather(s, pos)
         == Gather(s0, pos)[a := s[pos[a]]][b := s[pos[b]]][c := s[pos[c]]][d := s[pos[d]]]
  {
  }

  /** The macro G, on four cells of a block. */
  method G<W>(o: Ops<W>, v: array<W>, pos: seq<nat>, a: nat, b: nat, c: nat, d: nat)
    requires v.Length == WORDS && Places(pos)
    requires a < 4 <= b < 8 <= c < 12 <= d < 16
    modifies v
    ensures Gather(v[..], pos) == GOn(o, old(Gather(v[..], pos)), a, b, c, d)
    ensures forall n :: 0 <= n < WORDS && n !in pos ==> v[n] == old(v[n])
  {
    ghost var x := Gather(v[..], pos);
    var va, vb, vc, vd := pos[a], pos[b], pos[c], pos[d];
    assert va != vb && va != vc && va != vd && vb != vc && vb != vd && vc != vd;
    v[va] := o.fma(v[va], v[vb]);
    v[vd] := o.rotr(o.xor(v[vd], v[va]), 32);
    v[vc] := o.fma(v[vc], v[vd]);
    v[vb] := o.rotr(o.xor(v[vb], v[vc]), 24);
    v[va] := o.fma(v[va], v[vb]);
    v[vd] := o.rotr(o.xor(v[vd], v[va]), 16);
    v[vc] := o.fma(v[vc], v[vd]);
    v[vb] := o.rotr(o.xor(v[vb], v[vc]), 63);
    assert (v[va], v[vb], v[vc], v[vd]) == GB(o, x[a], x[b], x[c], x[d]);
    GatherAfter(v[..], old(v[..]), pos, a, b, c, d);
  }

  /** BLAKE2_ROUND_NOMSG on sixteen cells of a block. */
  method RoundNoMsg<W>(o: Ops<W>, v: array<W>, pos: seq<nat>)
    requires v.Length == WORDS && Places(pos)
    modifies v
    ensures Gather(v[..], pos) == P(o, old(Gather(v[..], pos)))
    ensures forall n :: 0 <= n < WORDS && n !in pos ==> v[n] == old(v[n])
  {
    G(o, v, pos, 0, 4, 8, 12);
    G(o, v, pos, 1, 5, 9, 13);
    G(o, v, pos, 2, 6, 10, 14);
    G(o, v, pos, 3, 7, 11, 15);
    G(o, v, pos, 0, 5, 10, 15);
    G(o, v, pos, 1, 6, 11, 12);
    G(o, v, pos, 2, 7, 8, 13);
    G(o, v, pos, 3, 4, 9, 14);
  }

  function RowPlaces(i: nat): (pos: seq<nat>)
    requires i < 8
    ensures Places(pos)
    ensures forall k :: 0 <= k < 16 ==> pos[k] == RowIndex(i, k)
  {
    seq(16, k requires 0 <= k < 16 => RowIndex(i, k))
  }

  function ColumnPlaces(i: nat): (pos: seq<nat>)
    requires i < 8
    ensures Places(pos)
    ensures forall k :: 0 <= k < 16 ==> pos[k] == ColumnIndex(i, k)
  {
    seq(16, k requires 0 <= k < 16 => ColumnIndex(i, k))
  }

  /** What is left of `Rows` after its first `i` rows. */
  ghost predicate RowsDone<W(!new)>(o: Ops<W>, s: seq<W>, t: seq<W>, i: nat)
    requires |s| == |t| == WORDS
  {
    forall n :: 0 <= n < WORDS ==> t[n] == if n / 16 < i then P(o, Row(s, n / 16))[n % 16] else s[n]
  }

  ghost predicate ColumnsDone<W(!new)>(o: Ops<W>, s: seq<W>, t: seq<W>, i: nat)
    requires |s| == |t| == WORDS
  {
    forall n :: 0 <= n < WORDS ==>
      t[n] == if ColumnOf(n) < i then P(o, Column(s, ColumnOf(n)))[SlotOf(n)] else s[n]
  }

  lemma RowStep<W(!new)>(o: Ops<W>, s: seq<W>, t: seq<W>, t': seq<W>, i: nat)
    requires |s| == |t| == |t'| == WORDS && i < 8
    requires RowsDone(o, s, t, i)
    requires forall k :: 0 <= k < 16 ==> t'[RowIndex(i, k)] == P(o, Row(t, i))[k]
    requires forall n :: 0 <= n < WORDS && n / 16 != i ==> t'[n] == t[n]
    ensures RowsDone(o, s, t', i + 1)
  {
    hide P;
    assert Row(t, i) == Row(s, i);
    forall n | 0 <= n < WORDS && n / 16 == i
      ensures t'[n] == P(o, Row(s, i))[n % 16]
    {
      assert n == RowIndex(i, n % 16);
    }
  }

  lemma RowStepAt<W(!new)>(o: Ops<W>, s: seq<W>, t: seq<W>, t': seq<W>, i: nat)
    requires |s| == |t| == |t'| == WORDS && i < 8
    requires RowsDone(o, s, t, i)
    requires Gather(t', RowPlaces(i)) == P(o, Gather(t, RowPlaces(i)))
    requires forall n :: 0 <= n < WORDS && n !in RowPlaces(i) ==> t'[n] == t[n]
    ensures RowsDone(o, s, t', i + 1)
  {
    hide P;
    var pos := RowPlaces(i);
    assert Gather(t, pos) == Row(t, i);
    forall k | 0 <= k < 16
      ensures t'[RowIndex(i, k)] == P(o, Row(t, i))[k]
    {
      assert Gather(t', pos)[k] == t'[pos[k]];
    }
    RowStep(o, s, t, t', i);
  }

  lemma ColumnStepAt<W(!new)>(o: Ops<W>, s: seq<W>, t: seq<W>, t': seq<W>, i: nat)
    requires |s| == |t| == |t'| == WORDS && i < 8
    requires ColumnsDone(o, s, t, i)
    requires Gather(t', ColumnPlaces(i)) == P(o, Gather(t, ColumnPlaces(i)))
    requires forall n :: 0 <= n < WORDS && n !in ColumnPlaces(i) ==> t'[n] == t[n]
    ensures ColumnsDone(o, s, t', i + 1)
  {
    hide P;
    var pos := ColumnPlaces(i);
    assert Gather(t, pos) == Column(t, i);
    forall k | 0 <= k < 16
      ensures t'[ColumnIndex(i, k)] == P(o, Column(t, i))[k]
    {
      assert Gather(t', pos)[k] == t'[pos[k]];
    }
    forall n | 0 <= n < WORDS && ColumnOf(n) != i
      ensures t'[n] == t[n]
    {
      forall k | 0 <= k < 16 ensures pos[k] != n { ColumnMember(i, k); }
    }
    ColumnStep(o, s, t, t', i);
  }

  lemma AllColumnsDone<W(!new)>(o: Ops<W>, s: seq<W>, t: seq<W>)
    requires |s| == |t| == WORDS && ColumnsDone(o, s, t, 8)
    ensures t == Columns(o, s)
  {
    hide P;
    forall n | 0 <= n < WORDS ensures t[n] == Columns(o, s)[n] { ColumnsPartition(n); }
  }

  lemma ColumnStep<W(!new)>(o: Ops<W>, s: seq<W>, t: seq<W>, t': seq<W>, i: nat)
    requires |s| == |t| == |t'| == WORDS && i < 8
    requires ColumnsDone(o, s, t, i)
    requires forall k :: 0 <= k < 16 ==> t'[ColumnIndex(i, k)] == P(o, Column(t, i))[k]
    requires forall n :: 0 <= n < WORDS && ColumnOf(n) != i ==> t'[n] == t[n]
    ensures ColumnsDone(o, s, t', i + 1)
  {
    hide P;
    forall k | 0 <= k < 16
      ensures t[ColumnIndex(i, k)] == s[ColumnIndex(i, k)]
    {
      ColumnMember(i, k);
    }
    assert Column(t, i) == Column(s, i);
    forall n | 0 <= n < WORDS && ColumnOf(n) == i
      ensures t'[n] == P(o, Column(s, i))[SlotOf(n)]
    {
      ColumnsPartition(n);
    }
  }

  /** fill_block of ref.c. The three blocks may be the same object in any combination. */
  method FillBlockRef<W(0,!new)>(o: Ops<W>, prev: array<W>, ref: array<W>, next: array<W>, withXor: bool)
    requires prev.Length == ref.Length == next.Length == WORDS
    modifies next
    ensures next[..] == Compress(o, old(prev[..]), old(ref[..]), if withXor then Some(old(next[..])) else None)
  {
    hide P;
    var blockR := new W[WORDS];
    var blockTmp := new W[WORDS];
    CopyBlock(blockR, ref);
    XorBlock(o, blockR, prev);
    CopyBlock(blockTmp, blockR);
    ghost var r := blockR[..];
    if withXor {
      XorBlock(o, blockTmp, next);
    }
    for i := 0 to 8
      invariant RowsDone(o, r, blockR[..], i)
      invariant blockTmp[..] == if withXor then Xor(o, r, old(next[..])) else r
      invariant next[..] == old(next[..])
    {
      ghost var t := blockR[..];
      RoundNoMsg(o, blockR, RowPlaces(i));
      RowStepAt(o, r, t, blockR[..], i);
    }
    ghost var q := blockR[..];
    assert q == Rows(o, r);
    for i := 0 to 8
      invariant ColumnsDone(o, q, blockR[..], i)
      invariant blockTmp[..] == if withXor then Xor(o, r, old(next[..])) else r
      invariant next[..] == old(next[..])
    {
      ghost var t := blockR[..];
      RoundNoMsg(o, blockR, ColumnPlaces(i));
      ColumnStepAt(o, q, t, blockR[..], i);
    }
    AllColumnsDone(o, q, blockR[..]);
    CopyBlock(next, blockTmp);
    XorBlock(o, next, blockR);
  }

  // ------------------------------------------------------------------ opt.c, 128-bit form

  /** A 128-bit register: two 64-bit words. */
  datatype Reg<W> = Reg(lo: W, hi: W)

  const REGS: nat := 64

  /** The words held in a sequence of registers, low word first. */
  function WordsOf<W>(r: seq<Reg<W>>): (s: seq<W>)
    ensures |s| == 2 * |r|
    ensures forall n :: 0 <= n < |s| ==> s[n] == if n % 2 == 0 then r[n / 2].lo else r[n / 2].hi
  {
    seq(2 * |r|, n requires 0 <= n < 2 * |r| => if n % 2 == 0 then r[n / 2].lo else r[n / 2].hi)
  }

  // The operations of the instruction set, word by word.

  function Fma2<W>(o: Ops<W>, x: Reg<W>, y: Reg<W>): Reg<W> { Reg(o.fma(x.lo, y.lo), o.fma(x.hi, y.hi)) }

  function Xor2<W>(o: Ops<W>, x: Reg<W>, y: Reg<W>): Reg<W> { Reg(o.xor(x.lo, y.lo), o.xor(x.hi, y.hi)) }

  function Rotr2<W>(o: Ops<W>, x: Reg<W>, c: nat): Reg<W> { Reg(o.rotr(x.lo, c), o.rotr(x.hi, c)) }

  /** _mm_alignr_epi8(x, y, 8): the middle half of the four words of y followed by x. */
  function Alignr8<W>(x: Reg<W>, y: Reg<W>): Reg<W> { Reg(y.hi, x.lo) }

  /** _mm_unpacklo_epi64 and _mm_unpackhi_epi64. */
  function UnpackLo<W>(x: Reg<W>, y: Reg<W>): Reg<W> { Reg(x.lo, y.lo) }

  function UnpackHi<W>(x: Reg<W>, y: Reg<W>): Reg<W> { Reg(x.hi, y.hi) }

  /** The eight registers a macro works on. */
  datatype Regs<W> = Regs(a0: Reg<W>, b0: Reg<W>, c0: Reg<W>, d0: Reg<W>,
                          a1: Reg<W>, b1: Reg<W>, c1: Reg<W>, d1: Reg<W>)

  /** The sixteen words of the eight registers, in the order of BLAKE2_ROUND's arguments. */
  function RegsWords<W>(r: Regs<W>): (x: seq<W>)
    ensures |x| == 16
  {
    [r.a0.lo, r.a0.hi, r.a1.lo, r.a1.hi, r.b0.lo, r.b0.hi, r.b1.lo, r.b1.hi,
     r.c0.lo, r.c0.hi, r.c1.lo, r.c1.hi, r.d0.lo, r.d0.hi, r.d1.lo, r.d1.hi]
  }

  /** Each of the four word lanes of `r'` is Half of that lane of `r`. */
  ghost predicate LanesHalved<W>(o: Ops<W>, r1: nat, r2: nat, r: Regs<W>, r': Regs<W>) {
    && (r'.a0.lo, r'.b0.lo, r'.c0.lo, r'.d0.lo) == Half(o, r1, r2, r.a0.lo, r.b0.lo, r.c0.lo, r.d0.lo)
    && (r'.a0.hi, r'.b0.hi, r'.c0.hi, r'.d0.hi) == Half(o, r1, r2, r.a0.hi, r.b0.hi, r.c0.hi, r.d0.hi)
    && (r'.a1.lo, r'.b1.lo, r'.c1.lo, r'.d1.lo) == Half(o, r1, r2, r.a1.lo, r.b1.lo, r.c1.lo, r.d1.lo)
    && (r'.a1.hi, r'.b1.hi, r'.c1.hi, r'.d1.hi) == Half(o, r1, r2, r.a1.hi, r.b1.hi, r.c1.hi, r.d1.hi)
  }

  /** Each of the four word lanes of `r'` is GB of that lane of `r`. */
  ghost predicate LanesMixed<W>(o: Ops<W>, r: Regs<W>, r': Regs<W>) {
    && (r'.a0.lo, r'.b0.lo, r'.c0.lo, r'.d0.lo) == GB(o, r.a0.lo, r.b0.lo, r.c0.lo, r.d0.lo)
    && (r'.a0.hi, r'.b0.hi, r'.c0.hi, r'.d0.hi) == GB(o, r.a0.hi, r.b0.hi, r.c0.hi, r.d0.hi)
    && (r'.a1.lo, r'.b1.lo, r'.c1.lo, r'.d1.lo) == GB(o, r.a1.lo, r.b1.lo, r.c1.lo, r.d1.lo)
    && (r'.a1.hi, r'.b1.hi, r'.c1.hi, r'.d1.hi) == GB(o, r.a1.hi, r.b1.hi, r.c1.hi, r.d1.hi)
  }

  lemma TwoHalves<W>(o: Ops<W>, r: Regs<W>, g: Regs<W>, r': Regs<W>)
    requires LanesHalved(o, 32, 24, r, g) && LanesHalved(o, 16, 63, g, r')
    ensures LanesMixed(o, r, r')
  {
    hide Half;
  }

  lemma DiagonalWords<W>(x: Regs<W>, y: Regs<W>)
    requires RegsWords(y) == Diagonal(RegsWords(x))
    ensures y.a0 == x.a0 && y.a1 == x.a1
    ensures y.b0 == Reg(x.b0.hi, x.b1.lo) && y.b1 == Reg(x.b1.hi, x.b0.lo)
    ensures y.c0 == x.c1 && y.c1 == x.c0
    ensures y.d0 == Reg(x.d1.hi, x.d0.lo) && y.d1 == Reg(x.d0.hi, x.d1.lo)
  {
    var v, w := RegsWords(x), RegsWords(y);
    assert w[0] == v[0] && w[1] == v[1] && w[2] == v[2] && w[3] == v[3];
    assert w[4] == v[5] && w[5] == v[6] && w[6] == v[7] && w[7] == v[4];
    assert w[8] == v[10] && w[9] == v[11] && w[10] == v[8] && w[11] == v[9];
    assert w[12] == v[15] && w[13] == v[12] && w[14] == v[13] && w[15] == v[14];
  }

  /** Columns, diagonalise, diagonals, undiagonalise: that is P. */
  lemma PackedIsP<W>(o: Ops<W>, r: Regs<W>, g: Regs<W>, d: Regs<W>, h: Regs<W>, r': Regs<W>)
    requires LanesMixed(o, r, g) && RegsWords(d) == Diagonal(RegsWords(g))
    requires LanesMixed(o, d, h) && RegsWords(h) == Diagonal(RegsWords(r'))
    ensures RegsWords(r') == P(o, RegsWords(r))
  {
    hide GB;
    PWordByWord(o, RegsWords(r));
    DiagonalWords(g, d);
    DiagonalWords(r', h);
    hide P;
  }

  /** The macros G1 (rotations by 32 and 24) and G2 (16 and 63). */
  method HalfRound<W>(o: Ops<W>, r: Regs<W>, r1: nat, r2: nat) returns (r': Regs<W>)
    ensures LanesHalved(o, r1, r2, r, r')
  {
    var Regs(a0, b0, c0, d0, a1, b1, c1, d1) := r;
    a0 := Fma2(o, a0, b0);
    a1 := Fma2(o, a1, b1);
    d0 := Xor2(o, d0, a0);
    d1 := Xor2(o, d1, a1);
    d0 := Rotr2(o, d0, r1);
    d1 := Rotr2(o, d1, r1);
    c0 := Fma2(o, c0, d0);
    c1 := Fma2(o, c1, d1);
    b0 := Xor2(o, b0, c0);
    b1 := Xor2(o, b1, c1);
    b0 := Rotr2(o, b0, r2);
    b1 := Rotr2(o, b1, r2);
    r' := Regs(a0, b0, c0, d0, a1, b1, c1, d1);
  }

  /** Words 4 to 7 turn by one place, 8 to 11 by two and 12 to 15 by three. */
  function Diagonal<W>(x: seq<W>): (y: seq<W>)
    requires |x| == 16
    ensures |y| == 16
  {
    [x[0], x[1], x[2], x[3], x[5], x[6], x[7], x[4],
     x[10], x[11], x[8], x[9], x[15], x[12], x[13], x[14]]
  }

  /** DIAGONALIZE, with the SSSE3 shuffles or with the SSE2 ones. */
  method Diagonalize<W>(ssse3: bool, r: Regs<W>) returns (r': Regs<W>)
    ensures RegsWords(r') == Diagonal(RegsWords(r))
  {
    var Regs(a0, b0, c0, d0, a1, b1, c1, d1) := r;
    if ssse3 {
      var t0 := Alignr8(b1, b0);
      var t1 := Alignr8(b0, b1);
      b0 := t0;
      b1 := t1;
      t0 := c0;
      c0 := c1;
      c1 := t0;
      t0 := Alignr8(d1, d0);
      t1 := Alignr8(d0, d1);
      d0 := t1;
      d1 := t0;
    } else {
      var t0 := d0;
      var t1 := b0;
      d0 := c0;
      c0 := c1;
      c1 := d0;
      d0 := UnpackHi(d1, UnpackLo(t0, t0));
      d1 := UnpackHi(t0, UnpackLo(d1, d1));
      b0 := UnpackHi(b0, UnpackLo(b1, b1));
      b1 := UnpackHi(b1, UnpackLo(t1, t1));
    }
    r' := Regs(a0, b0, c0, d0, a1, b1, c1, d1);
  }

  /** UNDIAGONALIZE, with the SSSE3 shuffles or with the SSE2 ones. */
  method Undiagonalize<W>(ssse3: bool, r: Regs<W>) returns (r': Regs<W>)
    ensures RegsWords(r) == Diagonal(RegsWords(r'))
  {
    var Regs(a0, b0, c0, d0, a1, b1, c1, d1) := r;
    if ssse3 {
      var t0 := Alignr8(b0, b1);
      var t1 := Alignr8(b1, b0);
      b0 := t0;
      b1 := t1;
      t0 := c0;
      c0 := c1;
      c1 := t0;
      t0 := Alignr8(d0, d1);
      t1 := Alignr8(d1, d0);
      d0 := t1;
      d1 := t0;
    } else {
      var t0 := c0;
      c0 := c1;
      c1 := t0;
      t0 := b0;
      var t1 := d0;
      b0 := UnpackHi(b1, UnpackLo(b0, b0));
      b1 := UnpackHi(t0, UnpackLo(b1, b1));
      d0 := UnpackHi(d0, UnpackLo(d1, d1));
      d1 := UnpackHi(d1, UnpackLo(t1, t1));
    }
    r' := Regs(a0, b0, c0, d0, a1, b1, c1, d1);
  }

  /** BLAKE2_ROUND computes P on the sixteen words, whichever shuffles the compiler chose. */
  method Round<W>(o: Ops<W>, ssse3: bool, r: Regs<W>) returns (r': Regs<W>)
    ensures RegsWords(r') == P(o, RegsWords(r))
  {
    var g1 := HalfRound(o, r, 32, 24);
    var g2 := HalfRound(o, g1, 16, 63);
    var d := Diagonalize(ssse3, g2);
    var g3 := HalfRound(o, d, 32, 24);
    var g4 := HalfRound(o, g3, 16, 63);
    r' := Undiagonalize(ssse3, g4);
    hide LanesHalved, LanesMixed, P, Diagonal;
    TwoHalves(o, r, g1, g2);
    TwoHalves(o, d, g3, g4);
    PackedIsP(o, r, g2, d, g4, r');
  }

  /** Places of the words of eight registers. */
  function RegPlaces(p: seq<nat>): (pos: seq<nat>)
    requires |p| == 8
    ensures |pos| == 16
  {
    seq(16, k requires 0 <= k < 16 => 2 * p[k / 2] + k % 2)
  }

  ghost predicate EightRegs(p: seq<nat>) {
    && |p| == 8
    && (forall k :: 0 <= k < 8 ==> p[k] < REGS)
    && (forall j, k :: 0 <= j < k < 8 ==> p[j] != p[k])
  }

  lemma RegPlacesDistinct(p: seq<nat>)
    requires EightRegs(p)
    ensures Places(RegPlaces(p))
  {
    var pos := RegPlaces(p);
    forall j, k | 0 <= j < k < 16 ensures pos[j] != pos[k] {
      assert j / 2 != k / 2 || j % 2 != k % 2;
    }
  }

  /** BLAKE2_ROUND on eight registers of the state. */
  method RoundAt<W>(o: Ops<W>, ssse3: bool, state: array<Reg<W>>, p: seq<nat>)
    requires state.Length == REGS && EightRegs(p)
    modifies state
    ensures Places(RegPlaces(p))
    ensures Gather(WordsOf(state[..]), RegPlaces(p)) == P(o, Gather(old(WordsOf(state[..])), RegPlaces(p)))
    ensures forall n :: 0 <= n < WORDS && n !in RegPlaces(p) ==> WordsOf(state[..])[n] == old(WordsOf(state[..]))[n]
  {
    hide P;
    RegPlacesDistinct(p);
    var r := Regs(state[p[0]], state[p[2]], state[p[4]], state[p[6]], state[p[1]], state[p[3]], state[p[5]],
                  state[p[7]]);
    GatherRegs(state[..], p, r);
    var r' := Round(o, ssse3, r);
    state[p[0]], state[p[1]], state[p[2]], state[p[3]], state[p[4]], state[p[5]], state[p[6]], state[p[7]] :=
      r'.a0, r'.a1, r'.b0, r'.b1, r'.c0, r'.c1, r'.d0, r'.d1;
    GatherRegs(state[..], p, r');
    WordsOutside(old(state[..]), state[..], p);
  }

  lemma GatherRegs<W>(s: seq<Reg<W>>, p: seq<nat>, r: Regs<W>)
    requires |s| == REGS && EightRegs(p) && Places(RegPlaces(p))
    requires r == Regs(s[p[0]], s[p[2]], s[p[4]], s[p[6]], s[p[1]], s[p[3]], s[p[5]], s[p[7]])
    ensures Gather(WordsOf(s), RegPlaces(p)) == RegsWords(r)
  {
    var pos := RegPlaces(p);
    var x := seq(8, k requires 0 <= k < 8 => s[p[k]]);
    forall k | 0 <= k < 16 ensures Gather(WordsOf(s), pos)[k] == WordsOf(x)[k] {
      assert pos[k] % 2 == k % 2 && pos[k] / 2 == p[k / 2];
    }
    assert x == [r.a0, r.a1, r.b0, r.b1, r.c0, r.c1, r.d0, r.d1];
    RegsWordsAre(r);
  }

  lemma RegsWordsAre<W>(r: Regs<W>)
    ensures WordsOf([r.a0, r.a1, r.b0, r.b1, r.c0, r.c1, r.d0, r.d1]) == RegsWords(r)
  {
    var x := [r.a0, r.a1, r.b0, r.b1, r.c0, r.c1, r.d0, r.d1];
    var w := WordsOf(x);
    assert w[0] == x[0].lo && w[1] == x[0].hi && w[2] == x[1].lo && w[3] == x[1].hi;
    assert w[4] == x[2].lo && w[5] == x[2].hi && w[6] == x[3].lo && w[7] == x[3].hi;
    assert w[8] == x[4].lo && w[9] == x[4].hi && w[10] == x[5].lo && w[11] == x[5].hi;
    assert w[12] == x[6].lo && w[13] == x[6].hi && w[14] == x[7].lo && w[15] == x[7].hi;
  }

  lemma WordsOutside<W>(s: seq<Reg<W>>, t: seq<Reg<W>>, p: seq<nat>)
    requires |s| == |t| == REGS && EightRegs(p)
    requires forall n :: 0 <= n < REGS && n !in p ==> t[n] == s[n]
    ensures forall n :: 0 <= n < WORDS && n !in RegPlaces(p) ==> WordsOf(t)[n] == WordsOf(s)[n]
  {
    var pos := RegPlaces(p);
    forall n | 0 <= n < WORDS && n !in pos ensures WordsOf(t)[n] == WordsOf(s)[n] {
      forall k | 0 <= k < 8 ensures p[k] != n / 2 {
        assert pos[2 * k + n % 2] != n;
      }
    }
  }

  function RowRegs(i: nat): (p: seq<nat>)
    requires i < 8
    ensures EightRegs(p) && RegPlaces(p) == RowPlaces(i)
  {
    var p := seq(8, k requires 0 <= k < 8 => 8 * i + k);
    assert RegPlaces(p) == RowPlaces(i);
    p
  }

  function ColumnRegs(i: nat): (p: seq<nat>)
    requires i < 8
    ensures EightRegs(p) && RegPlaces(p) == ColumnPlaces(i)
  {
    var p := seq(8, k requires 0 <= k < 8 => 8 * k + i);
    assert RegPlaces(p) == ColumnPlaces(i);
    p
  }

  ghost predicate XorCommutes<W(!new)>(o: Ops<W>) {
    forall x: W, y: W :: o.xor(x, y) == o.xor(y, x)
  }

  /** The state becomes prev xor ref; what it will be xored with in the end is kept aside. */
  method LoadState<W>(o: Ops<W>, state: array<Reg<W>>, blockXY: array<Reg<W>>, ref: array<W>, next: array<W>,
                      withXor: bool)
    requires state.Length == blockXY.Length == REGS && ref.Length == next.Length == WORDS && state != blockXY
    modifies state, blockXY
    ensures WordsOf(state[..]) == Xor(o, old(WordsOf(state[..])), ref[..])
    ensures WordsOf(blockXY[..]) == if withXor then Xor(o, WordsOf(state[..]), next[..]) else WordsOf(state[..])
    ensures ref[..] == old(ref[..]) && next[..] == old(next[..])
  {
    ghost var s := state[..];
    for i := 0 to REGS
      invariant forall k :: i <= k < REGS ==> state[k] == s[k]
      invariant forall k :: 0 <= k < i ==> state[k] == Xor2(o, s[k], RegAt(ref[..], k))
      invariant forall k :: 0 <= k < i ==>
        blockXY[k] == if withXor then Xor2(o, state[k], RegAt(next[..], k)) else state[k]
      invariant ref[..] == old(ref[..]) && next[..] == old(next[..])
    {
      hide Xor2;
      state[i] := Xor2(o, state[i], RegAt(ref[..], i));
      blockXY[i] := if withXor then Xor2(o, state[i], RegAt(next[..], i)) else state[i];
    }
    WordsXored(o, s, ref[..], state[..]);
    if withXor {
      WordsXored(o, state[..], next[..], blockXY[..]);
    } else {
      assert blockXY[..] == state[..];
    }
  }

  /** The register loaded from words 2k and 2k + 1 of a block. */
  function RegAt<W>(s: seq<W>, k: nat): Reg<W>
    requires |s| == WORDS && k < REGS
  {
    Reg(s[2 * k], s[2 * k + 1])
  }

  lemma WordsXored<W>(o: Ops<W>, a: seq<Reg<W>>, b: seq<W>, c: seq<Reg<W>>)
    requires |a| == |c| == REGS && |b| == WORDS
    requires forall k :: 0 <= k < REGS ==> c[k] == Xor2(o, a[k], RegAt(b, k))
    ensures WordsOf(c) == Xor(o, WordsOf(a), b)
  {
    forall n | 0 <= n < WORDS ensures WordsOf(c)[n] == o.xor(WordsOf(a)[n], b[n]) {
      assert c[n / 2] == Xor2(o, a[n / 2], RegAt(b, n / 2));
    }
  }

  method StoreState<W(0,!new)>(o: Ops<W>, state: array<Reg<W>>, blockXY: array<Reg<W>>, next: array<W>)
    requires XorCommutes(o)
    requires state.Length == blockXY.Length == REGS && next.Length == WORDS && state != blockXY
    modifies state, next
    ensures WordsOf(state[..]) == next[..] == Xor(o, WordsOf(blockXY[..]), old(WordsOf(state[..])))
  {
    for i := 0 to REGS
      invariant forall k :: i <= k < REGS ==> state[k] == old(state[k])
      invariant forall k :: 0 <= k < i ==> state[k] == Xor2(o, old(state[k]), blockXY[k])
      invariant forall k :: 0 <= k < i ==> Reg(next[2 * k], next[2 * k + 1]) == state[k]
      invariant blockXY[..] == old(blockXY[..])
    {
      state[i] := Xor2(o, state[i], blockXY[i]);
      next[2 * i], next[2 * i + 1] := state[i].lo, state[i].hi;
    }
    forall n | 0 <= n < WORDS ensures WordsOf(state[..])[n] == next[n] {
      assert Reg(next[2 * (n / 2)], next[2 * (n / 2) + 1]) == state[n / 2];
    }
  }

  /** fill_block of opt.c: `state` holds the previous block on entry and the new one on exit. */
  method FillBlockOpt<W(0,!new)>(o: Ops<W>, ssse3: bool, state: array<Reg<W>>, ref: array<W>, next: array<W>,
                        withXor: bool)
    requires XorCommutes(o)
    requires state.Length == REGS && ref.Length == next.Length == WORDS
    modifies state, next
    ensures next[..]
         == Compress(o, old(WordsOf(state[..])), old(ref[..]), if withXor then Some(old(next[..])) else None)
    ensures WordsOf(state[..]) == next[..]
  {
    hide P, WordsOf;
    var blockXY := new Reg<W>[REGS];
    LoadState(o, state, blockXY, ref, next, withXor);
    ghost var r, xy := WordsOf(state[..]), WordsOf(blockXY[..]);
    assert r == Xor(o, old(ref[..]), old(WordsOf(state[..])));
    for i := 0 to 8
      invariant RowsDone(o, r, WordsOf(state[..]), i)
      invariant WordsOf(blockXY[..]) == xy && next[..] == old(next[..])
    {
      ghost var t := WordsOf(state[..]);
      RoundAt(o, ssse3, state, RowRegs(i));
      RowStepAt(o, r, t, WordsOf(state[..]), i);
    }
    ghost var q := WordsOf(state[..]);
    assert q == Rows(o, r);
    for i := 0 to 8
      invariant ColumnsDone(o, q, WordsOf(state[..]), i)
      invariant WordsOf(blockXY[..]) == xy && next[..] == old(next[..])
    {
      ghost var t := WordsOf(state[..]);
      RoundAt(o, ssse3, state, ColumnRegs(i));
      ColumnStepAt(o, q, t, WordsOf(state[..]), i);
    }
    AllColumnsDone(o, q, WordsOf(state[..]));
    StoreState(o, state, blockXY, next);
  }
}
