/** What the filled memory depends on, and what the choice of blocks depends on. */
module Determined {
  import opened Words
  import opened Arithmetic
  import opened Instances
  import opened IndexAlphas
  import opened Fill
  import opened Slices

  /** Computed before the given slice of the first pass: the first two blocks of each lane and all
      earlier segments. */
  predicate Early(inst: Instance, slice: nat, b: nat)
    requires inst.laneLength > 0
  {
    b % inst.laneLength < 2 || b % inst.laneLength < SliceStart(inst, slice)
  }

  /** At a position of the first pass, what may be read is early or built by this segment before. */
  lemma ReadsOnlyComputed(inst: Instance, pos: Position, b: nat)
    requires inst.Valid() && pos.Reachable(inst) && pos.pass == 0 && b < inst.memoryBlocks
    requires Reads(inst, pos, b)
    ensures Early(inst, pos.slice, b) || BuiltBy(inst, pos, pos.index, b)
  {
    hide Times;
    BlockOf(inst, b);
    PositionsInMemory(inst, pos);
    LayoutIsOneToOne(inst, pos.lane, pos.Previous(inst));
  }

  ghost predicate AgreeEarly(inst: Instance, slice: nat, m: seq<Block>, m': seq<Block>)
    requires inst.laneLength > 0
  {
    |m| == |m'| && forall b :: 0 <= b < |m| && Early(inst, slice, b) ==> m[b] == m'[b]
  }

  lemma {:induction false} SegmentAgrees(g: Compressor, inst: Instance, position: Position, n: nat, m: seq<Block>,
                                         m': seq<Block>)
    requires SegmentReady(inst, position, n, m) && SegmentReady(inst, position, n, m') && position.pass == 0
    requires AgreeEarly(inst, position.slice, m, m')
    ensures forall b :: 0 <= b < |m| && (Early(inst, position.slice, b) || BuiltBy(inst, position, n, b)) ==>
      SegmentTo(g, inst, position, n, m)[b] == SegmentTo(g, inst, position, n, m')[b]
  {
    hide NewBlock, Current, Reads, BuiltBy, Early;
    if n == position.Start() {
      forall b | 0 <= b < |m| ensures !BuiltBy(inst, position, n, b) { EmptyBuilt(inst, position, b); }
    } else {
      var pos := position.(index := n - 1);
      SegmentStep(g, inst, position, n - 1, m);
      SegmentStep(g, inst, position, n - 1, m');
      SegmentAgrees(g, inst, position, n - 1, m, m');
      hide SegmentTo;
      var s, s' := SegmentTo(g, inst, position, n - 1, m), SegmentTo(g, inst, position, n - 1, m');
      forall b | 0 <= b < |m| && Reads(inst, pos, b) ensures s[b] == s'[b] {
        ReadsOnlyComputed(inst, pos, b);
        PositionIrrelevant(inst, position, n - 1, b);
      }
      StepReads(g, inst, pos, s, s');
      forall b | 0 <= b < |m|
        ensures BuiltBy(inst, position, n, b) ==> BuiltBy(inst, position, n - 1, b) || b == Current(inst, pos)
      {
        CurrentIsBuilt(inst, pos, b);
        PositionIrrelevant(inst, position, n - 1, b);
      }
    }
  }

  lemma EmptyBuilt(inst: Instance, position: Position, b: nat)
    requires inst.laneLength > 0
    ensures !BuiltBy(inst, position, position.Start(), b)
  {
  }

  lemma PositionIrrelevant(inst: Instance, position: Position, n: nat, b: nat)
    requires inst.laneLength > 0
    ensures BuiltBy(inst, position.(index := n), n, b) == BuiltBy(inst, position, n, b)
    ensures BuiltBy(inst, position.(index := n), n + 1, b) == BuiltBy(inst, position, n + 1, b)
  {
  }

  /** Early for the next slice in one of the first `n` lanes, or early for this one. */
  predicate EarlyIn(inst: Instance, slice: nat, n: nat, b: nat)
    requires inst.laneLength > 0
  {
    Early(inst, slice, b) || (Early(inst, slice + 1, b) && b / inst.laneLength < n)
  }

  lemma LaneAgrees(g: Compressor, inst: Instance, slice: nat, lane: nat, s: seq<Block>, s': seq<Block>, b: nat)
    requires SliceReady(inst, 0, slice, s) && SliceReady(inst, 0, slice, s') && lane < inst.lanes
    requires forall b :: 0 <= b < |s| && EarlyIn(inst, slice, lane, b) ==> s[b] == s'[b]
    requires b < |s| && EarlyIn(inst, slice, lane + 1, b)
    ensures SegmentTo(g, inst, Begin(0, slice, lane), inst.segmentLength, s)[b]
         == SegmentTo(g, inst, Begin(0, slice, lane), inst.segmentLength, s')[b]
  {
    var position := Begin(0, slice, lane);
    assert AgreeEarly(inst, slice, s, s');
    SegmentAgrees(g, inst, position, inst.segmentLength, s, s');
    NextSliceBuilt(inst, position, b);
    hide Times, SliceStart, Early, SegmentTo, BuiltBy;
    if !Early(inst, slice, b) && !BuiltBy(inst, position, inst.segmentLength, b) {
      SegmentStart(g, inst, position, s);
      SegmentStart(g, inst, position, s');
      SegmentFrame(g, inst, position, position.Start(), inst.segmentLength, s, b);
      SegmentFrame(g, inst, position, position.Start(), inst.segmentLength, s', b);
    }
  }

  /** After the first `n` lanes of a slice of the first pass. */
  lemma {:induction false} SliceAgrees(g: Compressor, inst: Instance, slice: nat, n: nat, m: seq<Block>, m': seq<Block>)
    requires SliceReady(inst, 0, slice, m) && SliceReady(inst, 0, slice, m') && n <= inst.lanes
    requires AgreeEarly(inst, slice, m, m')
    ensures forall b :: 0 <= b < |m| && EarlyIn(inst, slice, n, b) ==>
      SliceTo(g, inst, 0, slice, n, m)[b] == SliceTo(g, inst, 0, slice, n, m')[b]
  {
    hide SegmentTo, Times, SliceStart, Early;
    if n == 0 {
      forall b | 0 <= b < |m| && EarlyIn(inst, slice, 0, b) ensures Early(inst, slice, b) { BlockOf(inst, b); }
    } else {
      SliceAgrees(g, inst, slice, n - 1, m, m');
      hide EarlyIn;
      var s, s' := SliceTo(g, inst, 0, slice, n - 1, m), SliceTo(g, inst, 0, slice, n - 1, m');
      forall b | 0 <= b < |m| && EarlyIn(inst, slice, n, b)
        ensures SliceTo(g, inst, 0, slice, n, m)[b] == SliceTo(g, inst, 0, slice, n, m')[b]
      {
        LaneAgrees(g, inst, slice, n - 1, s, s', b);
      }
    }
  }

  lemma WholeSliceAgrees(g: Compressor, inst: Instance, slice: nat, m: seq<Block>, m': seq<Block>)
    requires SliceReady(inst, 0, slice, m) && SliceReady(inst, 0, slice, m') && AgreeEarly(inst, slice, m, m')
    ensures AgreeEarly(inst, slice + 1, SliceTo(g, inst, 0, slice, inst.lanes, m),
                       SliceTo(g, inst, 0, slice, inst.lanes, m'))
  {
    hide SliceTo, Early, Times;
    SliceAgrees(g, inst, slice, inst.lanes, m, m');
    forall b | 0 <= b < |m| && Early(inst, slice + 1, b) ensures EarlyIn(inst, slice, inst.lanes, b) {
      BlockOf(inst, b);
    }
  }

  lemma {:induction false} FillAgrees(g: Compressor, inst: Instance, k: nat, m: seq<Block>, m': seq<Block>)
    requires inst.Valid() && |m| == |m'| == inst.memoryBlocks && k <= SYNC_POINTS
    requires AgreeEarly(inst, 0, m, m')
    ensures AgreeEarly(inst, k, FillTo(g, inst, k, m), FillTo(g, inst, k, m'))
  {
    hide Times, AgreeEarly, SliceTo;
    if k > 0 {
      FillAgrees(g, inst, k - 1, m, m');
      WholeSliceAgrees(g, inst, k - 1, FillTo(g, inst, k - 1, m), FillTo(g, inst, k - 1, m'));
      FillOne(g, inst, 0, k - 1, m);
      FillOne(g, inst, 0, k - 1, m');
    }
  }

  lemma {:induction false} FillOnward(g: Compressor, inst: Instance, k: nat, n: nat, m: seq<Block>, m': seq<Block>)
    requires inst.Valid() && |m| == |m'| == inst.memoryBlocks && k <= n <= SYNC_POINTS * inst.passes
    requires FillTo(g, inst, k, m) == FillTo(g, inst, k, m')
    ensures FillTo(g, inst, n, m) == FillTo(g, inst, n, m')
  {
    hide SliceTo;
    if k < n {
      FillOnward(g, inst, k, n - 1, m, m');
    }
  }

  /** The filled memory is determined by the first two blocks of each lane: whatever the allocator
      left in the others makes no difference. */
  lemma DeterminedByFirstBlocks(g: Compressor, inst: Instance, m: seq<Block>, m': seq<Block>)
    requires inst.Valid() && |m| == |m'| == inst.memoryBlocks
    requires forall b :: 0 <= b < |m| && b % inst.laneLength < 2 ==> m[b] == m'[b]
    ensures FillTo(g, inst, SYNC_POINTS * inst.passes, m) == FillTo(g, inst, SYNC_POINTS * inst.passes, m')
  {
    hide FillTo, Times;
    assert AgreeEarly(inst, 0, m, m');
    FillAgrees(g, inst, SYNC_POINTS, m, m');
    forall b | 0 <= b < |m| ensures Early(inst, SYNC_POINTS, b) { BlockOf(inst, b); }
    assert FillTo(g, inst, SYNC_POINTS, m) == FillTo(g, inst, SYNC_POINTS, m');
    FillOnward(g, inst, SYNC_POINTS, SYNC_POINTS * inst.passes, m, m');
  }

  /** A block computed in this slice is early for the next. */
  lemma NextSliceBuilt(inst: Instance, position: Position, b: nat)
    requires inst.Valid() && position.pass == 0 && position.slice < SYNC_POINTS
    ensures Early(inst, position.slice + 1, b) && !Early(inst, position.slice, b) ==>
      (BuiltBy(inst, position, inst.segmentLength, b) <==> b / inst.laneLength == position.lane)
  {
    hide Times;
    SliceBounds(inst, position.slice);
  }

  // ------------------------------------------------------------------ the choice of blocks

  /** The blocks a segment refers to before index `n`, in order. */
  function Choices(g: Compressor, inst: Instance, position: Position, n: nat, m: seq<Block>): seq<nat>
    requires SegmentReady(inst, position, n, m)
    decreases n
  {
    if n == position.Start() then []
    else
      var pos := position.(index := n - 1);
      Choices(g, inst, position, n - 1, m)
      + [Reference(inst, pos, PseudoRand(g, inst, pos, SegmentTo(g, inst, position, n - 1, m)))]
  }

  function SliceChoices(g: Compressor, inst: Instance, pass: nat, slice: nat, n: nat, m: seq<Block>): seq<nat>
    requires SliceReady(inst, pass, slice, m) && n <= inst.lanes
  {
    if n == 0 then []
    else
      SliceChoices(g, inst, pass, slice, n - 1, m) +
      Choices(g, inst, Begin(pass, slice, n - 1), inst.segmentLength, SliceTo(g, inst, pass, slice, n - 1, m))
  }

  /** All the blocks referred to in the first `k` slices of a run. */
  function RunChoices(g: Compressor, inst: Instance, k: nat, m: seq<Block>): seq<nat>
    requires inst.Valid() && |m| == inst.memoryBlocks && k <= SYNC_POINTS * inst.passes
  {
    if k == 0 then []
    else
      RunChoices(g, inst, k - 1, m) +
      SliceChoices(g, inst, (k - 1) / SYNC_POINTS, (k - 1) % SYNC_POINTS, inst.lanes, FillTo(g, inst, k - 1, m))
  }

  lemma {:induction false} ChoicesIndependent(g: Compressor, inst: Instance, position: Position, n: nat, m: seq<Block>,
                                              m': seq<Block>)
    requires SegmentReady(inst, position, n, m) && SegmentReady(inst, position, n, m')
    requires DataIndependent(inst, position)
    ensures Choices(g, inst, position, n, m) == Choices(g, inst, position, n, m')
    decreases n
  {
    hide Reference, AddressBlock, SegmentTo, InputBlock, Times;
    if n != position.Start() {
      ChoicesIndependent(g, inst, position, n - 1, m, m');
    }
  }

  lemma {:induction false} SliceChoicesIndependent(g: Compressor, inst: Instance, pass: nat, slice: nat, n: nat,
                                                   m: seq<Block>, m': seq<Block>)
    requires SliceReady(inst, pass, slice, m) && SliceReady(inst, pass, slice, m') && n <= inst.lanes
    requires DataIndependent(inst, Begin(pass, slice, 0))
    ensures SliceChoices(g, inst, pass, slice, n, m) == SliceChoices(g, inst, pass, slice, n, m')
  {
    hide Choices, SliceTo, Times;
    if n > 0 {
      SliceChoicesIndependent(g, inst, pass, slice, n - 1, m, m');
      ChoicesIndependent(g, inst, Begin(pass, slice, n - 1), inst.segmentLength,
                         SliceTo(g, inst, pass, slice, n - 1, m), SliceTo(g, inst, pass, slice, n - 1, m'));
    }
  }

  /** In Argon2i the blocks referred to in a whole run, and in Argon2id those of the first half of
      the first pass, are the same whatever is in the memory. */
  lemma {:induction false} RunChoicesIndependent(g: Compressor, inst: Instance, k: nat, m: seq<Block>, m': seq<Block>)
    requires inst.Valid() && |m| == |m'| == inst.memoryBlocks && k <= 4 * inst.passes
    requires inst.variant == Argon2i || (inst.variant == Argon2id && k <= 2)
    ensures RunChoices(g, inst, k, m) == RunChoices(g, inst, k, m')
  {
    hide SliceChoices, FillTo, Times;
    if k > 0 {
      RunChoicesIndependent(g, inst, k - 1, m, m');
      SliceChoicesIndependent(g, inst, (k - 1) / SYNC_POINTS, (k - 1) % SYNC_POINTS, inst.lanes,
                              FillTo(g, inst, k - 1, m), FillTo(g, inst, k - 1, m'));
    }
  }

  /** There are two blocks that may be referred to: in two lanes, or two in the own lane. */
  ghost predicate TwoToChooseFrom(inst: Instance, pos: Position)
    requires inst.Valid() && pos.Reachable(inst)
  {
    (inst.lanes >= 2 && !(pos.pass == 0 && pos.slice == 0)) || |Window(inst, pos, true)| >= 2
  }

  /** Everywhere else, in Argon2d and in Argon2id from the third slice of the first pass on, the memory
      decides: as soon as there are two blocks to choose from, two contents of the first word of the previous
      block lead to different ones. */
  lemma ChoiceFollowsMemory(g: Compressor, inst: Instance, pos: Position, m: seq<Block>)
    returns (m1: seq<Block>, m2: seq<Block>)
    requires Ready(inst, pos, m) && TwoToChooseFrom(inst, pos)
    requires inst.variant == Argon2d || (inst.variant == Argon2id && (pos.pass > 0 || pos.slice >= 2))
    ensures Ready(inst, pos, m1) && Ready(inst, pos, m2)
    ensures forall b, n :: 0 <= b < |m| && 0 <= n < 128 && (b != Previous(inst, pos) || n > 0) ==>
      m1[b][n] == m[b][n] == m2[b][n]
    ensures Reference(inst, pos, PseudoRand(g, inst, pos, m1)) != Reference(inst, pos, PseudoRand(g, inst, pos, m2))
  {
    hide Times, SliceStart, IndexAlpha, Window, Reference;
    PositionsInMemory(inst, pos);
    var prev := Previous(inst, pos);
    var w: word := if inst.lanes >= 2 && !(pos.pass == 0 && pos.slice == 0) then 0x1_0000_0000 else LOW32;
    m1 := m[prev := m[prev][0 := 0]];
    m2 := m[prev := m[prev][0 := w]];
    assert PseudoRand(g, inst, pos, m1) == 0 && PseudoRand(g, inst, pos, m2) == w;
    if inst.lanes >= 2 && !(pos.pass == 0 && pos.slice == 0) {
      LanesDiffer(inst, pos);
    } else {
      EndsDiffer(inst, pos);
    }
  }

  /** The upper half of the word chooses the lane. */
  lemma LanesDiffer(inst: Instance, pos: Position)
    requires inst.Valid() && pos.Reachable(inst) && inst.lanes >= 2 && !(pos.pass == 0 && pos.slice == 0)
    ensures Reference(inst, pos, 0) != Reference(inst, pos, 0x1_0000_0000)
  {
    hide Times, SliceStart, IndexAlpha, Window, RefLane, Reference;
    TwoLanes(inst, pos);
    ReferenceInLane(inst, pos, 0);
    ReferenceInLane(inst, pos, 0x1_0000_0000);
  }

  lemma TwoLanes(inst: Instance, pos: Position)
    requires inst.lanes >= 2 && !(pos.pass == 0 && pos.slice == 0)
    ensures RefLane(inst, pos, 0) == 0 && RefLane(inst, pos, 0x1_0000_0000) == 1
  {
    assert J2(0) == 0 && J2(0x1_0000_0000) == 1;
    hide J2;
    SmallRemainders(inst.lanes);
  }

  lemma SmallRemainders(n: nat)
    requires n >= 2
    ensures 0 % n == 0 && 1 % n == 1
  {
  }

  lemma ReferenceInLane(inst: Instance, pos: Position, rand: word)
    requires inst.Valid() && pos.Reachable(inst)
    ensures Reference(inst, pos, rand) / inst.laneLength == RefLane(inst, pos, rand)
  {
    var lane := RefLane(inst, pos, rand);
    hide Times, SliceStart, IndexAlpha, Window;
    var o := IndexAlpha(inst, pos, J1(rand), lane == pos.lane);
    IndexAlphaAllowed(inst, pos, J1(rand), lane == pos.lane);
    LayoutIsOneToOne(inst, lane, o);
  }

  /** In one lane the lower half of the word chooses. */
  lemma EndsDiffer(inst: Instance, pos: Position)
    requires inst.Valid() && pos.Reachable(inst) && (inst.lanes == 1 || (pos.pass == 0 && pos.slice == 0))
    requires |Window(inst, pos, true)| >= 2
    ensures Reference(inst, pos, 0) != Reference(inst, pos, LOW32)
  {
    hide Times, SliceStart, IndexAlpha, Window;
    assert J1(0) == 0 && J1(LOW32) == TWO32 - 1;
    OwnLane(inst, pos, 0);
    OwnLane(inst, pos, LOW32);
    EndsOfWindow(inst, pos, true);
  }

  lemma OwnLane(inst: Instance, pos: Position, rand: word)
    requires inst.Valid() && pos.Reachable(inst) && (inst.lanes == 1 || (pos.pass == 0 && pos.slice == 0))
    ensures RefLane(inst, pos, rand) == pos.lane
  {
  }

  /** With one block to choose from, every word refers to it. */
  lemma OneToChooseFrom(inst: Instance, pos: Position, rand: word, rand': word)
    requires inst.Valid() && pos.Reachable(inst) && !TwoToChooseFrom(inst, pos)
    ensures Reference(inst, pos, rand) == Reference(inst, pos, rand')
  {
    OwnLane(inst, pos, rand);
    OwnLane(inst, pos, rand');
    hide Times, SliceStart, IndexAlpha, Window, Pick;
    IndexAlphaPicksFromWindow(inst, pos, J1(rand), true);
    IndexAlphaPicksFromWindow(inst, pos, J1(rand'), true);
  }

  lemma PickEnds(size: nat)
    requires 2 <= size <= TWO32
    ensures Pick(0, size) != Pick(TWO32 - 1, size)
  {
    LastSkip(size);
    assert Pick(0, size) == size - 1;
    assert Pick(TWO32 - 1, size) == size - 1 - Skip(TWO32 - 1, size);
  }

  /** The smallest and the largest J1 choose different blocks. */
  lemma EndsOfWindow(inst: Instance, pos: Position, sameLane: bool)
    requires inst.Valid() && pos.Reachable(inst)
    requires pos.pass == 0 && pos.slice == 0 ==> sameLane
    requires |Window(inst, pos, sameLane)| >= 2
    ensures IndexAlpha(inst, pos, 0, sameLane) != IndexAlpha(inst, pos, TWO32 - 1, sameLane)
  {
    var w := Window(inst, pos, sameLane);
    hide Window, IndexAlpha, Times, SliceStart;
    IndexAlphaPicksFromWindow(inst, pos, 0, sameLane);
    IndexAlphaPicksFromWindow(inst, pos, TWO32 - 1, sameLane);
    WindowSize(inst, pos, sameLane);
    SizeBounds(inst, pos, sameLane);
    PickEnds(|w|);
    var a, b := Pick(0, |w|), Pick(TWO32 - 1, |w|);
    hide Pick;
    if w[a] == w[b] {
      WindowInjective(inst, pos, sameLane, a, b);
    }
  }
}
