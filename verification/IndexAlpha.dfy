/** Choice of the reference block: index_alpha of core.c against section 3.4.2 of RFC 9106. */
module IndexAlphas {
  import opened Arithmetic
  import opened Instances

  /** The value of an expression of type uint32_t. */
  function U32(x: int): u32 { x % 0x1_0000_0000 }

  lemma Fits(x: int)
    requires 0 <= x < TWO32
    ensures U32(x) == x
  {
  }

  function U64(x: int): nat { x % 0x1_0000_0000_0000_0000 }

  /** reference_area_size, every operation modulo 2^32 as in the source. */
  function AreaSize(inst: Instance, pos: Position, sameLane: bool): u32 {
    if pos.pass == 0 then
      if pos.slice == 0 then U32(pos.index - 1)
      else if sameLane then U32(pos.slice * inst.segmentLength + pos.index - 1)
      else U32(pos.slice * inst.segmentLength + if pos.index == 0 then -1 else 0)
    else
      if sameLane then U32(inst.laneLength - inst.segmentLength + pos.index - 1)
      else U32(inst.laneLength - inst.segmentLength + if pos.index == 0 then -1 else 0)
  }

  /** start_position. */
  function StartPosition(inst: Instance, pos: Position): u32 {
    if pos.pass == 0 then 0
    else if pos.slice == SYNC_POINTS - 1 then 0
    else U32((pos.slice + 1) * inst.segmentLength)
  }

  /** index_alpha. */
  function IndexAlpha(inst: Instance, pos: Position, rand: u32, sameLane: bool): u32
    requires inst.laneLength > 0
  {
    var area := AreaSize(inst, pos, sameLane);
    var square := U64(rand * rand) / TWO32;
    var relative := U64(U32(area - 1) - U64(area * square) / TWO32);
    U32(U64(StartPosition(inst, pos) + relative) % inst.laneLength)
  }

  // ------------------------------------------------------------------ the standard's choice

  /** The offsets from `lo` on, `n` of them. */
  function Range(lo: nat, n: nat): (s: seq<nat>)
    ensures |s| == n
    ensures forall k :: 0 <= k < n ==> s[k] == lo + k
  {
    seq(n, k requires 0 <= k < n => lo + k)
  }

  /** The blocks of the last three segments of the previous pass that this pass has not replaced. */
  function PreviousPass(inst: Instance, pos: Position): seq<nat>
    requires inst.Valid() && pos.Reachable(inst)
  {
    var next := SliceStart(inst, pos.slice + 1);
    if pos.pass == 0 then [] else Range(next, inst.laneLength - next)
  }

  /** The set W in order of construction: the segments that may be referred to and, in the own
      lane, the blocks already built in the current segment. The own lane then drops the previous
      block, and any other lane its last block at the start of a segment. */
  function Window(inst: Instance, pos: Position, sameLane: bool): seq<nat>
    requires inst.Valid() && pos.Reachable(inst)
  {
    var w := PreviousPass(inst, pos) + Range(0, SliceStart(inst, pos.slice))
           + if sameLane then Range(SliceStart(inst, pos.slice), pos.index) else [];
    if w != [] && (sameLane || pos.index == 0) then w[..|w| - 1] else w
  }

  /** J1 mapped to a place in W: later blocks are more likely. */
  function Pick(rand: u32, size: nat): int {
    var x := rand * rand / TWO32;
    size - 1 - size * x / TWO32
  }

  // ------------------------------------------------------------------ the two agree

  /** The segment boundaries of a lane. */
  lemma SliceBounds(inst: Instance, slice: nat)
    requires inst.Valid() && slice < SYNC_POINTS
    ensures SliceStart(inst, slice + 1) == SliceStart(inst, slice) + inst.segmentLength <= inst.laneLength
    ensures inst.laneLength <= inst.memoryBlocks
  {
    MulMono(1, inst.lanes, inst.laneLength);
  }

  /** The size of the window before anything wraps. */
  function Size(inst: Instance, pos: Position, sameLane: bool): int {
    (if pos.pass == 0 then SliceStart(inst, pos.slice) else inst.laneLength - inst.segmentLength)
    + if sameLane then pos.index - 1 else if pos.index == 0 then -1 else 0
  }

  lemma SizeBounds(inst: Instance, pos: Position, sameLane: bool)
    requires inst.Valid() && pos.Reachable(inst)
    requires pos.pass == 0 && pos.slice == 0 ==> sameLane
    ensures 0 < Size(inst, pos, sameLane) < inst.laneLength
  {
    SliceBounds(inst, pos.slice);
  }

  lemma AreaIsSize(inst: Instance, pos: Position, sameLane: bool)
    requires inst.Valid() && pos.Reachable(inst)
    requires pos.pass == 0 && pos.slice == 0 ==> sameLane
    ensures AreaSize(inst, pos, sameLane) == Size(inst, pos, sameLane)
  {
    hide U32, Times;
    SizeBounds(inst, pos, sameLane);
    SliceBounds(inst, pos.slice);
    SliceStartIsProduct(inst, pos.slice);
    Fits(Size(inst, pos, sameLane));
  }

  lemma WindowSize(inst: Instance, pos: Position, sameLane: bool)
    requires inst.Valid() && pos.Reachable(inst)
    requires pos.pass == 0 && pos.slice == 0 ==> sameLane
    ensures |Window(inst, pos, sameLane)| == Size(inst, pos, sameLane)
  {
    hide Times;
    SizeBounds(inst, pos, sameLane);
    SliceBounds(inst, pos.slice);
    var b := SliceStart(inst, pos.slice);
    var own := if sameLane then Range(b, pos.index) else [];
    var w := PreviousPass(inst, pos) + Range(0, b) + own;
    assert |w| == (if pos.pass == 0 then 0 else inst.laneLength - b - inst.segmentLength) + b + |own|;
    assert w != [];
  }

  /** The window runs round the lane from its start without a gap. */
  lemma WindowAt(inst: Instance, pos: Position, sameLane: bool, k: nat)
    requires inst.Valid() && pos.Reachable(inst)
    requires k < |Window(inst, pos, sameLane)|
    ensures Window(inst, pos, sameLane)[k]
         == if k < |PreviousPass(inst, pos)| then SliceStart(inst, pos.slice + 1) + k
            else k - |PreviousPass(inst, pos)|
  {
  }

  lemma HighBound(x: nat, k: nat)
    requires x < k * TWO32
    ensures x / TWO32 < k
  {
  }

  lemma Fits64(x: int)
    requires 0 <= x < TWO32 * TWO32
    ensures U64(x) == x
  {
  }

  lemma SquareBound(rand: u32)
    ensures 0 <= rand * rand < TWO32 * TWO32
    ensures 0 <= rand * rand / TWO32 < TWO32
  {
    MulMono(rand, TWO32 - 1, rand);
    HighBound(rand * rand, TWO32);
  }

  lemma ScaleBound(size: nat, x: nat)
    requires 0 < size <= TWO32 && x < TWO32
    ensures 0 <= size * x < TWO32 * TWO32
    ensures 0 <= size * x / TWO32 < size
  {
    MulMono(x, TWO32 - 1, size);
    HighBound(size * x, size);
  }

  lemma PickInRange(rand: u32, size: nat)
    requires 0 < size <= TWO32
    ensures 0 <= Pick(rand, size) < size
  {
    SquareBound(rand);
    ScaleBound(size, rand * rand / TWO32);
  }

  /** Nothing wraps in the computation of the relative position. */
  lemma RelativeIsPick(area: u32, rand: u32)
    requires area > 0
    ensures U64(U32(area - 1) - U64(area * (U64(rand * rand) / TWO32)) / TWO32) == Pick(rand, area)
  {
    hide U32, U64;
    SquareBound(rand);
    Fits64(rand * rand);
    var x := rand * rand / TWO32;
    ScaleBound(area, x);
    Fits64(area * x);
    Fits(area - 1);
    Fits64(area - 1 - area * x / TWO32);
  }

  lemma TurnRound(start: nat, k: nat, lane: nat, p: nat)
    requires 0 < lane && start < lane && k < lane && p == lane - start
    ensures (start + k) % lane == if k < p then start + k else k - p
  {
    if k < p {
      DivModUnique(0, lane, start + k);
    } else {
      DivModUnique(1, lane, k - p);
    }
  }

  /** index_alpha computes the choice of the standard, at every position and for every J1. */
  lemma IndexAlphaPicksFromWindow(inst: Instance, pos: Position, rand: u32, sameLane: bool)
    requires inst.Valid() && pos.Reachable(inst)
    requires pos.pass == 0 && pos.slice == 0 ==> sameLane
    ensures var w := Window(inst, pos, sameLane);
            |w| > 0 && 0 <= Pick(rand, |w|) < |w| && IndexAlpha(inst, pos, rand, sameLane) == w[Pick(rand, |w|)]
  {
    hide Window, Pick, AreaSize, Size, Times, SliceStart, StartPosition, PreviousPass;
    var w := Window(inst, pos, sameLane);
    SizeBounds(inst, pos, sameLane);
    AreaIsSize(inst, pos, sameLane);
    WindowSize(inst, pos, sameLane);
    PickInRange(rand, |w|);
    var k := Pick(rand, |w|);
    assert IndexAlpha(inst, pos, rand, sameLane) == U32(U64(StartPosition(inst, pos) + k) % inst.laneLength) by {
      hide U32, U64;
      RelativeIsPick(|w|, rand);
    }
    hide U32, U64, IndexAlpha;
    WindowAt(inst, pos, sameLane, k);
    StartAndPick(inst, pos, k);
  }

  lemma StartAndPick(inst: Instance, pos: Position, k: nat)
    requires inst.Valid() && pos.Reachable(inst) && k < inst.laneLength
    ensures U32(U64(StartPosition(inst, pos) + k) % inst.laneLength)
         == if k < |PreviousPass(inst, pos)| then SliceStart(inst, pos.slice + 1) + k
            else k - |PreviousPass(inst, pos)|
  {
    hide U32, U64, Times;
    SliceBounds(inst, pos.slice);
    var next := SliceStart(inst, pos.slice + 1);
    SliceStartIsProduct(inst, pos.slice + 1);
    var start := if pos.pass == 0 || pos.slice == 3 then 0 else next;
    Fits(next);
    Fits64(start + k);
    Fits((start + k) % inst.laneLength);
    if pos.pass != 0 && pos.slice != 3 {
      TurnRound(next, k, inst.laneLength, inst.laneLength - next);
    } else {
      TurnRound(0, k, inst.laneLength, inst.laneLength);
    }
  }

  // ------------------------------------------------------------------ which blocks can be chosen

  predicate InCurrentSegment(inst: Instance, pos: Position, o: nat) {
    SliceStart(inst, pos.slice) <= o < SliceStart(inst, pos.slice) + inst.segmentLength
  }

  /** The set W as section 3.4.2 describes it, block by block. */
  predicate Allowed(inst: Instance, pos: Position, sameLane: bool, o: nat) {
    && o < inst.laneLength
    && (InCurrentSegment(inst, pos, o) ==> sameLane && o < pos.Offset(inst))
    && (!InCurrentSegment(inst, pos, o) && pos.pass == 0 ==> o < SliceStart(inst, pos.slice))
    && (sameLane || pos.index == 0 ==> o != pos.Previous(inst))
  }

  lemma WindowIsAllowed(inst: Instance, pos: Position, sameLane: bool, o: nat)
    requires inst.Valid() && pos.Reachable(inst)
    requires pos.pass == 0 && pos.slice == 0 ==> sameLane
    ensures o in Window(inst, pos, sameLane) <==> Allowed(inst, pos, sameLane, o)
  {
    SliceBounds(inst, pos.slice);
    SizeBounds(inst, pos, sameLane);
    WindowSize(inst, pos, sameLane);
    var w, p := Window(inst, pos, sameLane), PreviousPass(inst, pos);
    var next := SliceStart(inst, pos.slice + 1);
    hide Window, Times, SliceStart;
    if o in w {
      var k :| 0 <= k < |w| && w[k] == o;
      WindowAt(inst, pos, sameLane, k);
    }
    if Allowed(inst, pos, sameLane, o) {
      var k := if pos.pass != 0 && o >= next then o - next else o + |p|;
      assert k < |w|;
      WindowAt(inst, pos, sameLane, k);
      assert w[k] == o;
    }
  }

  /** What the filling of the memory relies on: the choice is allowed, so it is never the block
      being built nor the one before it, and in another lane never in the current segment. */
  lemma IndexAlphaAllowed(inst: Instance, pos: Position, rand: u32, sameLane: bool)
    requires inst.Valid() && pos.Reachable(inst)
    requires pos.pass == 0 && pos.slice == 0 ==> sameLane
    ensures Allowed(inst, pos, sameLane, IndexAlpha(inst, pos, rand, sameLane))
    ensures sameLane ==> IndexAlpha(inst, pos, rand, sameLane) != pos.Offset(inst)
    ensures sameLane ==> IndexAlpha(inst, pos, rand, sameLane) != pos.Previous(inst)
    ensures !sameLane ==> !InCurrentSegment(inst, pos, IndexAlpha(inst, pos, rand, sameLane))
  {
    hide Times;
    hide IndexAlpha, Window, Pick;
    IndexAlphaPicksFromWindow(inst, pos, rand, sameLane);
    WindowIsAllowed(inst, pos, sameLane, IndexAlpha(inst, pos, rand, sameLane));
  }

  /** How far the choice moves when J1 grows by one. */
  function Skip(rand: u32, size: nat): int { size * (rand * rand / TWO32) / TWO32 }

  lemma SquareStep(rand: u32)
    requires rand + 1 < TWO32
    ensures rand * rand / TWO32 <= (rand + 1) * (rand + 1) / TWO32 <= rand * rand / TWO32 + 2
  {
    assert (rand + 1) * (rand + 1) == rand * rand + 2 * rand + 1;
  }

  lemma SkipStep(rand: u32, size: nat)
    requires rand + 1 < TWO32 && 2 * size <= TWO32
    ensures Skip(rand, size) <= Skip(rand + 1, size) <= Skip(rand, size) + 1
  {
    SquareStep(rand);
    var x, y := rand * rand / TWO32, (rand + 1) * (rand + 1) / TWO32;
    assert size * x <= size * y <= size * x + 2 * size by {
      MulMono(x, y, size);
      MulMono(y, x + 2, size);
      assert size * (x + 2) == size * x + 2 * size;
    }
  }

  lemma LastSkip(size: nat)
    requires 0 < size <= TWO32
    ensures Skip(TWO32 - 1, size) == if 2 * size <= TWO32 then size - 1 else size - 2
  {
    var r := TWO32 - 1;
    assert r * r / TWO32 == TWO32 - 2;
    assert size * (TWO32 - 2) == TWO32 * size - 2 * size;
  }

  /** A step function that starts at 0 and never jumps takes every value on its way. */
  lemma SkipTakes(rand: u32, size: nat, y: nat) returns (r: u32)
    requires 0 < size && 2 * size <= TWO32 && y <= Skip(rand, size)
    ensures r <= rand && Skip(r, size) == y
  {
    if rand == 0 || y == Skip(rand, size) {
      r := rand;
    } else {
      SkipStep(rand - 1, size);
      r := SkipTakes(rand - 1, size, y);
    }
  }

  lemma SkipMonotone(r: u32, rand: u32, size: nat)
    requires r <= rand
    ensures Skip(r, size) <= Skip(rand, size)
  {
    MulMono(r, rand, r);
    MulMono(r, rand, rand);
    var x, y := r * r / TWO32, rand * rand / TWO32;
    MulMono(x, y, size);
  }

  ghost predicate CanPick(size: nat, k: nat) { exists rand: u32 :: Pick(rand, size) == k }

  /** Every place of a window can be chosen exactly when the window has at most 2^31 blocks; in a
      larger one the oldest block never is. */
  lemma EveryPlacePicked(size: nat)
    requires 0 < size <= TWO32
    ensures (forall k :: 0 <= k < size ==> CanPick(size, k)) <==> 2 * size <= TWO32
  {
    LastSkip(size);
    if 2 * size <= TWO32 {
      forall k | 0 <= k < size ensures CanPick(size, k) {
        var r := SkipTakes(TWO32 - 1, size, size - 1 - k);
        assert Pick(r, size) == k;
      }
    } else {
      forall rand: u32 ensures Pick(rand, size) != 0 {
        SkipMonotone(rand, TWO32 - 1, size);
      }
      assert !CanPick(size, 0);
    }
  }

  ghost predicate CanReturn(inst: Instance, pos: Position, sameLane: bool, o: nat)
    requires inst.Valid()
  {
    exists rand: u32 :: IndexAlpha(inst, pos, rand, sameLane) == o
  }

  /** index_alpha can return every allowed block if and only if there are at most 2^31 of them. */
  lemma AllowedExactlyReached(inst: Instance, pos: Position, sameLane: bool)
    requires inst.Valid() && pos.Reachable(inst)
    requires pos.pass == 0 && pos.slice == 0 ==> sameLane
    ensures (forall o: nat :: Allowed(inst, pos, sameLane, o) ==> CanReturn(inst, pos, sameLane, o))
       <==> 2 * |Window(inst, pos, sameLane)| <= TWO32
  {
    var w := Window(inst, pos, sameLane);
    SizeBounds(inst, pos, sameLane);
    WindowSize(inst, pos, sameLane);
    EveryPlacePicked(|w|);
    forall k | 0 <= k < |w|
      ensures Allowed(inst, pos, sameLane, w[k]) && (CanReturn(inst, pos, sameLane, w[k]) <==> CanPick(|w|, k))
    {
      WindowIsAllowed(inst, pos, sameLane, w[k]);
      ReturnIsPick(inst, pos, sameLane, k);
    }
    forall o: nat | Allowed(inst, pos, sameLane, o) ensures o in w {
      WindowIsAllowed(inst, pos, sameLane, o);
    }
    hide *;
  }

  /** One lane of 2^32 - 4 blocks, at the start of the second pass: some allowed block is never returned. */
  lemma NotAllReached() returns (inst: Instance, pos: Position, o: nat)
    ensures inst.Valid() && pos.Reachable(inst)
    ensures Allowed(inst, pos, true, o) && !CanReturn(inst, pos, true, o)
  {
    var n: nat := 0x3FFF_FFFF;
    inst := Instance(VERSION_13, 2, 4 * n, n, 4 * n, 1, 1, Argon2d);
    pos := Position(1, 0, 0, 0);
    assert Times(1, 4 * n) == 4 * n;
    WindowSize(inst, pos, true);
    AllowedExactlyReached(inst, pos, true);
    hide Allowed, CanReturn, Window;
    o :| Allowed(inst, pos, true, o) && !CanReturn(inst, pos, true, o);
  }

  lemma ReturnIsPick(inst: Instance, pos: Position, sameLane: bool, k: nat)
    requires inst.Valid() && pos.Reachable(inst)
    requires pos.pass == 0 && pos.slice == 0 ==> sameLane
    requires k < |Window(inst, pos, sameLane)|
    ensures CanReturn(inst, pos, sameLane, Window(inst, pos, sameLane)[k])
         <==> CanPick(|Window(inst, pos, sameLane)|, k)
  {
    var w := Window(inst, pos, sameLane);
    hide IndexAlpha, Window, Pick;
    if CanReturn(inst, pos, sameLane, w[k]) {
      var rand: u32 :| IndexAlpha(inst, pos, rand, sameLane) == w[k];
      IndexAlphaPicksFromWindow(inst, pos, rand, sameLane);
      WindowAt(inst, pos, sameLane, k);
      WindowAt(inst, pos, sameLane, Pick(rand, |w|));
      WindowSize(inst, pos, sameLane);
      SizeBounds(inst, pos, sameLane);
      WindowInjective(inst, pos, sameLane, k, Pick(rand, |w|));
    }
    if CanPick(|w|, k) {
      var rand: u32 :| Pick(rand, |w|) == k;
      IndexAlphaPicksFromWindow(inst, pos, rand, sameLane);
    }
  }

  lemma WindowInjective(inst: Instance, pos: Position, sameLane: bool, j: nat, k: nat)
    requires inst.Valid() && pos.Reachable(inst)
    requires j < |Window(inst, pos, sameLane)| && k < |Window(inst, pos, sameLane)|
    requires Window(inst, pos, sameLane)[j] == Window(inst, pos, sameLane)[k]
    ensures j == k
  {
    hide Times;
    SliceBounds(inst, pos.slice);
    WindowAt(inst, pos, sameLane, j);
    WindowAt(inst, pos, sameLane, k);
  }
}
