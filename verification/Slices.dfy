/** Slices and passes: what the lanes of a slice do to the memory, in whatever order they run. */
module Slices {
  import opened Words
  import opened Arithmetic
  import opened Instances
  import opened IndexAlphas
  import opened Fill

  /** Where the segment of a lane starts. */
  function Begin(pass: nat, slice: nat, lane: nat): Position { Position(pass, lane, slice, 0) }

  ghost predicate SliceReady(inst: Instance, pass: nat, slice: nat, m: seq<Block>) {
    inst.Valid() && |m| == inst.memoryBlocks && pass < inst.passes && slice < SYNC_POINTS
  }

  /** The memory after the segments of lanes 0 to `n` - 1, one lane after the other. */
  function SliceTo(g: Compressor, inst: Instance, pass: nat, slice: nat, n: nat, m: seq<Block>): (m': seq<Block>)
    requires SliceReady(inst, pass, slice, m) && n <= inst.lanes
    ensures |m'| == |m|
  {
    if n == 0 then m
    else SegmentTo(g, inst, Begin(pass, slice, n - 1), inst.segmentLength, SliceTo(g, inst, pass, slice, n - 1, m))
  }

  /** The memory after the first `k` slices of the run, counted across passes. */
  function FillTo(g: Compressor, inst: Instance, k: nat, m: seq<Block>): (m': seq<Block>)
    requires inst.Valid() && |m| == inst.memoryBlocks && k <= SYNC_POINTS * inst.passes
    ensures |m'| == |m|
  {
    if k == 0 then m
    else SliceTo(g, inst, (k - 1) / SYNC_POINTS, (k - 1) % SYNC_POINTS, inst.lanes, FillTo(g, inst, k - 1, m))
  }

  /** The next slice of a run. */
  lemma FillOne(g: Compressor, inst: Instance, pass: nat, slice: nat, m0: seq<Block>)
    requires inst.Valid() && |m0| == inst.memoryBlocks && pass < inst.passes && slice < SYNC_POINTS
    ensures FillTo(g, inst, SYNC_POINTS * pass + slice + 1, m0)
         == SliceTo(g, inst, pass, slice, inst.lanes, FillTo(g, inst, SYNC_POINTS * pass + slice, m0))
  {
    hide SliceTo;
    assert (SYNC_POINTS * pass + slice) / SYNC_POINTS == pass && (SYNC_POINTS * pass + slice) % SYNC_POINTS == slice;
  }

  /** Block `b` is one of those a segment has built before index `n`. */
  predicate BuiltBy(inst: Instance, position: Position, n: nat, b: nat)
    requires inst.laneLength > 0
  {
    && b / inst.laneLength == position.lane
    && SliceStart(inst, position.slice) + position.Start() <= b % inst.laneLength < SliceStart(inst, position.slice) + n
  }

  lemma CurrentIsBuilt(inst: Instance, pos: Position, b: nat)
    requires inst.Valid() && pos.Reachable(inst) && b < inst.memoryBlocks
    ensures Current(inst, pos) < inst.memoryBlocks
    ensures BuiltBy(inst, pos, pos.index + 1, b) <==> BuiltBy(inst, pos, pos.index, b) || b == Current(inst, pos)
    ensures BuiltBy(inst, pos, pos.index + 1, Current(inst, pos)) && !BuiltBy(inst, pos, pos.index, Current(inst, pos))
  {
    hide Times;
    PositionsInMemory(inst, pos);
    LayoutIsOneToOne(inst, pos.lane, pos.Offset(inst));
    BlockOf(inst, b);
  }

  /** Between indices `n` and `n'` a segment changes only the blocks it builds there. */
  lemma {:induction false} SegmentFrame(g: Compressor, inst: Instance, position: Position, n: nat, n': nat,
                                        m: seq<Block>, b: nat)
    requires SegmentReady(inst, position, n, m) && SegmentReady(inst, position, n', m) && n <= n' && b < |m|
    requires BuiltBy(inst, position, n, b) || !BuiltBy(inst, position, n', b)
    ensures SegmentTo(g, inst, position, n', m)[b] == SegmentTo(g, inst, position, n, m)[b]
  {
    hide NewBlock, Current;
    if n < n' {
      CurrentIsBuilt(inst, position.(index := n' - 1), b);
      SegmentStep(g, inst, position, n' - 1, m);
      hide SegmentTo;
      SegmentFrame(g, inst, position, n, n' - 1, m, b);
    }
  }

  // ------------------------------------------------------------------ lanes in any order

  /** Every lane has got as far as index `pcs[lane]` of its segment. */
  ghost predicate Progress(inst: Instance, pass: nat, slice: nat, pcs: seq<nat>) {
    && |pcs| == inst.lanes
    && forall l :: 0 <= l < |pcs| ==> Begin(pass, slice, l).Start() <= pcs[l] <= inst.segmentLength
  }

  /** The memory in which each lane has built, on its own, its blocks before index `pcs[lane]`. */
  ghost function Mixed(g: Compressor, inst: Instance, pass: nat, slice: nat, pcs: seq<nat>,
                       m: seq<Block>): (m': seq<Block>)
    requires SliceReady(inst, pass, slice, m) && Progress(inst, pass, slice, pcs)
    ensures |m'| == |m|
  {
    seq(|m|, b requires 0 <= b < |m| => BlockIn(g, inst, pass, slice, pcs, m, b))
  }

  ghost function BlockIn(g: Compressor, inst: Instance, pass: nat, slice: nat, pcs: seq<nat>, m: seq<Block>,
                         b: nat): Block
    requires SliceReady(inst, pass, slice, m) && Progress(inst, pass, slice, pcs) && b < |m|
  {
    BlockOf(inst, b);
    var lane := b / inst.laneLength;
    SegmentTo(g, inst, Begin(pass, slice, lane), pcs[lane], m)[b]
  }

  /** A lane sees in the mixed memory what it would see if the others had not begun. */
  lemma LaneSeesItsOwn(g: Compressor, inst: Instance, pass: nat, slice: nat, pcs: seq<nat>, m: seq<Block>, lane: nat,
                       b: nat)
    requires SliceReady(inst, pass, slice, m) && Progress(inst, pass, slice, pcs)
    requires lane < inst.lanes && pcs[lane] < inst.segmentLength && b < |m|
    requires Reads(inst, Begin(pass, slice, lane).(index := pcs[lane]), b)
    ensures Mixed(g, inst, pass, slice, pcs, m)[b] == SegmentTo(g, inst, Begin(pass, slice, lane), pcs[lane], m)[b]
  {
    hide SegmentTo, Times;
    var pos := Begin(pass, slice, lane).(index := pcs[lane]);
    BlockOf(inst, b);
    var l := b / inst.laneLength;
    if l != lane {
      NotOwnLane(inst, pos, b);
      SegmentStart(g, inst, Begin(pass, slice, lane), m);
      SegmentStart(g, inst, Begin(pass, slice, l), m);
      SegmentFrame(g, inst, Begin(pass, slice, lane), pos.Start(), pcs[lane], m, b);
      SegmentFrame(g, inst, Begin(pass, slice, l), pos.Start(), pcs[l], m, b);
    }
  }

  /** What a step reads in another lane is outside the current segment. */
  lemma NotOwnLane(inst: Instance, pos: Position, b: nat)
    requires inst.Valid() && pos.Reachable(inst) && b < inst.memoryBlocks
    requires Reads(inst, pos, b) && b / inst.laneLength != pos.lane
    ensures !InCurrentSegment(inst, pos, b % inst.laneLength)
  {
    hide Times, SliceStart;
    PositionsInMemory(inst, pos);
    LayoutIsOneToOne(inst, pos.lane, pos.Offset(inst));
    LayoutIsOneToOne(inst, pos.lane, pos.Previous(inst));
  }

  /** One block by any lane takes the mixed memory to the mixed memory of the next progress. */
  lemma MixedStep(g: Compressor, inst: Instance, pass: nat, slice: nat, pcs: seq<nat>, m: seq<Block>, lane: nat)
    requires SliceReady(inst, pass, slice, m) && Progress(inst, pass, slice, pcs)
    requires lane < inst.lanes && pcs[lane] < inst.segmentLength
    ensures var pos := Begin(pass, slice, lane).(index := pcs[lane]);
            var mixed := Mixed(g, inst, pass, slice, pcs, m);
            && NewBlock(g, inst, pos, mixed)
               == NewBlock(g, inst, pos, SegmentTo(g, inst, Begin(pass, slice, lane), pcs[lane], m))
            && Progress(inst, pass, slice, pcs[lane := pcs[lane] + 1])
            && Mixed(g, inst, pass, slice, pcs[lane := pcs[lane] + 1], m) == Step(g, inst, pos, mixed)
  {
    hide NewBlock, Times, SegmentTo, Reads;
    var start := Begin(pass, slice, lane);
    var pos := start.(index := pcs[lane]);
    var mixed := Mixed(g, inst, pass, slice, pcs, m);
    var own := SegmentTo(g, inst, start, pcs[lane], m);
    forall b | 0 <= b < |m| && Reads(inst, pos, b) ensures mixed[b] == own[b] {
      LaneSeesItsOwn(g, inst, pass, slice, pcs, m, lane, b);
    }
    StepReads(g, inst, pos, mixed, own);
    SegmentStep(g, inst, start, pcs[lane], m);
    MixedAdvance(g, inst, pass, slice, pcs, m, lane);
  }

  lemma MixedAdvance(g: Compressor, inst: Instance, pass: nat, slice: nat, pcs: seq<nat>, m: seq<Block>, lane: nat)
    requires SliceReady(inst, pass, slice, m) && Progress(inst, pass, slice, pcs)
    requires lane < inst.lanes && pcs[lane] < inst.segmentLength
    requires NewBlock(g, inst, Begin(pass, slice, lane).(index := pcs[lane]), Mixed(g, inst, pass, slice, pcs, m))
          == NewBlock(g, inst, Begin(pass, slice, lane).(index := pcs[lane]),
                      SegmentTo(g, inst, Begin(pass, slice, lane), pcs[lane], m))
    ensures Progress(inst, pass, slice, pcs[lane := pcs[lane] + 1])
    ensures Mixed(g, inst, pass, slice, pcs[lane := pcs[lane] + 1], m)
         == Step(g, inst, Begin(pass, slice, lane).(index := pcs[lane]), Mixed(g, inst, pass, slice, pcs, m))
  {
    hide NewBlock, Times, SegmentTo, BuiltBy;
    var start := Begin(pass, slice, lane);
    var pos := start.(index := pcs[lane]);
    var pcs' := pcs[lane := pcs[lane] + 1];
    var now, next := Mixed(g, inst, pass, slice, pcs, m), Mixed(g, inst, pass, slice, pcs', m);
    SegmentStep(g, inst, start, pcs[lane], m);
    PositionsInMemory(inst, pos);
    LayoutIsOneToOne(inst, lane, pos.Offset(inst));
    forall b | 0 <= b < |m|
      ensures next[b] == Step(g, inst, pos, now)[b]
    {
      BlockOf(inst, b);
    }
  }

  // ------------------------------------------------------------------ lanes one after the other

  /** The first `n` lanes are through, the others have not begun. */
  ghost function FirstLanes(inst: Instance, pass: nat, slice: nat, n: nat): (pcs: seq<nat>)
    requires n <= inst.lanes
    ensures |pcs| == inst.lanes
  {
    seq(inst.lanes, l requires 0 <= l => if l < n then inst.segmentLength else Begin(pass, slice, l).Start())
  }

  lemma NothingBuilt(g: Compressor, inst: Instance, pass: nat, slice: nat, m: seq<Block>)
    requires SliceReady(inst, pass, slice, m)
    ensures Progress(inst, pass, slice, FirstLanes(inst, pass, slice, 0))
    ensures Mixed(g, inst, pass, slice, FirstLanes(inst, pass, slice, 0), m) == m
  {
    hide Times;
    forall b | 0 <= b < |m| ensures Mixed(g, inst, pass, slice, FirstLanes(inst, pass, slice, 0), m)[b] == m[b] {
      BlockOf(inst, b);
      SegmentStart(g, inst, Begin(pass, slice, b / inst.laneLength), m);
    }
  }

  /** Running one lane on the mixed memory moves only that lane on. */
  lemma {:induction false} RunOneLane(g: Compressor, inst: Instance, pass: nat, slice: nat, pcs: seq<nat>,
                                      m: seq<Block>, lane: nat, n: nat)
    requires SliceReady(inst, pass, slice, m) && Progress(inst, pass, slice, pcs) && lane < inst.lanes
    requires pcs[lane] == Begin(pass, slice, lane).Start() <= n <= inst.segmentLength
    ensures Progress(inst, pass, slice, pcs[lane := n])
    ensures SegmentTo(g, inst, Begin(pass, slice, lane), n, Mixed(g, inst, pass, slice, pcs, m))
         == Mixed(g, inst, pass, slice, pcs[lane := n], m)
  {
    hide Mixed, Step, SegmentTo;
    var mixed := Mixed(g, inst, pass, slice, pcs, m);
    if n == pcs[lane] {
      assert pcs[lane := n] == pcs;
      SegmentStart(g, inst, Begin(pass, slice, lane), mixed);
    } else {
      RunOneLane(g, inst, pass, slice, pcs, m, lane, n - 1);
      SegmentStep(g, inst, Begin(pass, slice, lane), n - 1, mixed);
      MixedStep(g, inst, pass, slice, pcs[lane := n - 1], m, lane);
      assert pcs[lane := n - 1][lane := n] == pcs[lane := n];
    }
  }

  /** The sequential order is one of the orders. */
  lemma {:induction false} SequentialIsMixed(g: Compressor, inst: Instance, pass: nat, slice: nat, n: nat,
                                             m: seq<Block>)
    requires SliceReady(inst, pass, slice, m) && n <= inst.lanes
    ensures Progress(inst, pass, slice, FirstLanes(inst, pass, slice, n))
    ensures SliceTo(g, inst, pass, slice, n, m) == Mixed(g, inst, pass, slice, FirstLanes(inst, pass, slice, n), m)
  {
    hide Mixed, SegmentTo;
    if n == 0 {
      NothingBuilt(g, inst, pass, slice, m);
    } else {
      SequentialIsMixed(g, inst, pass, slice, n - 1, m);
      var pcs := FirstLanes(inst, pass, slice, n - 1);
      RunOneLane(g, inst, pass, slice, pcs, m, n - 1, inst.segmentLength);
      assert pcs[n - 1 := inst.segmentLength] == FirstLanes(inst, pass, slice, n);
    }
  }

  // ------------------------------------------------------------------ the number of threads

  lemma ChoiceIgnoresThreads(inst: Instance, k: u32, pos: Position, rand: word)
    requires inst.Valid() && 1 <= k <= inst.lanes
    ensures Reference(inst.(threads := k), pos, rand) == Reference(inst, pos, rand)
  {
    hide J1, J2, Times, U32, U64;
  }

  lemma RandIgnoresThreads(g: Compressor, inst: Instance, k: u32, pos: Position, m: seq<Block>)
    requires inst.Valid() && 1 <= k <= inst.lanes && Ready(inst, pos, m)
    ensures Ready(inst.(threads := k), pos, m)
    ensures PseudoRand(g, inst.(threads := k), pos, m) == PseudoRand(g, inst, pos, m)
  {
    hide Times, AddressBlock;
    PositionsInMemory(inst, pos);
    AddressIgnoresThreads(g, inst, k, pos, pos.index / ADDRESSES_IN_BLOCK + 1);
  }

  lemma StepIgnoresThreads(g: Compressor, inst: Instance, k: u32, pos: Position, m: seq<Block>)
    requires inst.Valid() && 1 <= k <= inst.lanes && Ready(inst, pos, m)
    ensures Ready(inst.(threads := k), pos, m)
    ensures Step(g, inst.(threads := k), pos, m) == Step(g, inst, pos, m)
  {
    hide Times;
    RandIgnoresThreads(g, inst, k, pos, m);
    PlacesIgnoreThreads(inst, k, pos);
    PositionsInMemory(inst, pos);
    ReferenceIsRead(inst, pos, PseudoRand(g, inst, pos, m));
    ChoiceIgnoresThreads(inst, k, pos, PseudoRand(g, inst, pos, m));
    hide Reference, PseudoRand, Current, Previous, SliceStart;
  }

  lemma PlacesIgnoreThreads(inst: Instance, k: u32, pos: Position)
    requires inst.Valid()
    ensures Current(inst.(threads := k), pos) == Current(inst, pos)
    ensures Previous(inst.(threads := k), pos) == Previous(inst, pos)
  {
    hide Times;
  }

  lemma AddressIgnoresThreads(g: Compressor, inst: Instance, k: u32, pos: Position, c: nat)
    requires pos.pass < TWO32 && pos.lane < TWO32 && pos.slice < SYNC_POINTS
    ensures AddressBlock(g, inst.(threads := k), pos, c) == AddressBlock(g, inst, pos, c)
  {
    hide Word;
  }

  lemma {:induction false} SegmentIgnoresThreads(g: Compressor, inst: Instance, k: u32, position: Position, n: nat,
                                                 m: seq<Block>)
    requires inst.Valid() && 1 <= k <= inst.lanes && SegmentReady(inst, position, n, m)
    ensures SegmentTo(g, inst.(threads := k), position, n, m) == SegmentTo(g, inst, position, n, m)
  {
    hide Step, Times;
    if n > position.Start() {
      SegmentIgnoresThreads(g, inst, k, position, n - 1, m);
      SegmentStep(g, inst, position, n - 1, m);
      SegmentStep(g, inst.(threads := k), position, n - 1, m);
      StepIgnoresThreads(g, inst, k, position.(index := n - 1), SegmentTo(g, inst, position, n - 1, m));
    }
  }

  lemma {:induction false} SliceIgnoresThreads(g: Compressor, inst: Instance, k: u32, pass: nat, slice: nat, n: nat,
                                               m: seq<Block>)
    requires inst.Valid() && 1 <= k <= inst.lanes && SliceReady(inst, pass, slice, m) && n <= inst.lanes
    ensures SliceTo(g, inst.(threads := k), pass, slice, n, m) == SliceTo(g, inst, pass, slice, n, m)
  {
    hide SegmentTo, Times;
    if n > 0 {
      SliceIgnoresThreads(g, inst, k, pass, slice, n - 1, m);
      SegmentIgnoresThreads(g, inst, k, Begin(pass, slice, n - 1), inst.segmentLength,
                            SliceTo(g, inst, pass, slice, n - 1, m));
    }
  }

  /** The thread limit has no part in what is computed. */
  lemma {:induction false} FillIgnoresThreads(g: Compressor, inst: Instance, k: u32, n: nat, m: seq<Block>)
    requires inst.Valid() && 1 <= k <= inst.lanes && |m| == inst.memoryBlocks && n <= SYNC_POINTS * inst.passes
    ensures FillTo(g, inst.(threads := k), n, m) == FillTo(g, inst, n, m)
  {
    hide SliceTo, Times;
    if n > 0 {
      FillIgnoresThreads(g, inst, k, n - 1, m);
      SliceIgnoresThreads(g, inst, k, (n - 1) / SYNC_POINTS, (n - 1) % SYNC_POINTS, inst.lanes,
                          FillTo(g, inst, n - 1, m));
    }
  }
}
