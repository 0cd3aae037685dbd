/** fill_memory_blocks_mt as a state machine: one thread a lane, started and joined by the main
    thread, all of them working on one memory without locks.

    A thread builds a block in several steps: it reads, it may leave anything at all in the block it
    is writing, and in the end it stores what it computed. Steps of different threads mix freely. */
module Threads {
  import opened Arithmetic
  import opened Instances
  import opened Fill
  import opened Slices

  datatype Thread =
    | Idle                                // not created in this slice
    | Running(next: nat)                  // about to build the block at this index
    | Storing(next: nat, value: Block)    // has read what it needs and is writing
    | Returned
    | Joined
  {
    /** Created and not yet joined. */
    predicate Live() { Running? || Storing? || Returned? }
  }

  /** Where the main thread stands: at lane `lane` of the creation loop, having joined an older
      thread there or not; at lane `lane` of the final joins; or through. */
  datatype Main = Spawning(lane: nat, freed: bool) | Draining(lane: nat) | Done

  /** `log` lists the blocks stored in this pass, in order. */
  datatype State = State(pass: nat, slice: nat, main: Main, threads: seq<Thread>, mem: seq<Block>, log: seq<nat>)

  function Spot(s: State, lane: nat, index: nat): Position { Position(s.pass, lane, s.slice, index) }

  function AllIdle(inst: Instance): seq<Thread> { seq(inst.lanes, _ => Idle) }

  ghost predicate Init(inst: Instance, m0: seq<Block>, s: State) {
    s == State(0, 0, Spawning(0, false), AllIdle(inst), m0, [])
  }

  // ------------------------------------------------------------------ steps of the main thread

  /** pthread_join on the thread of `lane`: it waits until the thread has returned. */
  ghost predicate Join(s: State, lane: nat, main': Main, s': State) {
    && lane < |s.threads| && s.threads[lane].Returned?
    && s' == s.(main := main', threads := s.threads[lane := Joined])
  }

  ghost predicate Create(s: State, lane: nat, main': Main, s': State) {
    && lane < |s.threads|
    && s' == s.(main := main', threads := s.threads[lane := Running(Spot(s, lane, 0).Start())])
  }

  /** The end of a slice. */
  function NextSlice(inst: Instance, s: State): State {
    if s.slice + 1 < SYNC_POINTS then
      s.(slice := s.slice + 1, main := Spawning(0, false), threads := AllIdle(inst))
    else if s.pass + 1 < inst.passes then
      s.(pass := s.pass + 1, slice := 0, main := Spawning(0, false), threads := AllIdle(inst), log := [])
    else
      s.(main := Done)
  }

  ghost predicate MainStep(inst: Instance, s: State, s': State)
    requires inst.Valid()
  {
    match s.main
    case Spawning(l, freed) =>
      if l >= inst.lanes then s' == s.(main := Draining(inst.lanes - inst.threads))
      else if l >= inst.threads && !freed then Join(s, l - inst.threads, Spawning(l, true), s')
      else Create(s, l, Spawning(l + 1, false), s')
    case Draining(l) =>
      if l < inst.lanes then Join(s, l, Draining(l + 1), s') else s' == NextSlice(inst, s)
    case Done => false
  }

  // ------------------------------------------------------------------ steps of the lane threads

  ghost predicate Fetch(g: Compressor, inst: Instance, s: State, lane: nat, s': State) {
    && lane < |s.threads| && s.threads[lane].Running?
    && Ready(inst, Spot(s, lane, s.threads[lane].next), s.mem)
    && var pos := Spot(s, lane, s.threads[lane].next);
       s' == s.(threads := s.threads[lane := Storing(pos.index, NewBlock(g, inst, pos, s.mem))])
  }

  /** An intermediate write: anything may stand in the block for a while. */
  ghost predicate Tear(inst: Instance, s: State, lane: nat, junk: Block, s': State) {
    && lane < |s.threads| && s.threads[lane].Storing?
    && Current(inst, Spot(s, lane, s.threads[lane].next)) < |s.mem|
    && s' == s.(mem := s.mem[Current(inst, Spot(s, lane, s.threads[lane].next)) := junk])
  }

  ghost predicate Store(inst: Instance, s: State, lane: nat, s': State) {
    && lane < |s.threads| && s.threads[lane].Storing?
    && var block := Current(inst, Spot(s, lane, s.threads[lane].next));
       && block < |s.mem|
       && s' == s.(mem := s.mem[block := s.threads[lane].value],
                   threads := s.threads[lane := Running(s.threads[lane].next + 1)],
                   log := s.log + [block])
  }

  ghost predicate Return(inst: Instance, s: State, lane: nat, s': State) {
    && lane < |s.threads| && s.threads[lane] == Running(inst.segmentLength)
    && s' == s.(threads := s.threads[lane := Returned])
  }

  ghost predicate ThreadStep(g: Compressor, inst: Instance, s: State, lane: nat, s': State) {
    || Fetch(g, inst, s, lane, s')
    || (exists junk :: Tear(inst, s, lane, junk, s'))
    || Store(inst, s, lane, s')
    || Return(inst, s, lane, s')
  }

  ghost predicate Next(g: Compressor, inst: Instance, s: State, s': State)
    requires inst.Valid()
  {
    MainStep(inst, s, s') || exists lane :: ThreadStep(g, inst, s, lane, s')
  }

  // ------------------------------------------------------------------ the invariant

  /** Which threads exist, for each place of the main thread. */
  ghost predicate Pattern(inst: Instance, main: Main, threads: seq<Thread>) {
    && |threads| == inst.lanes
    && match main
       case Spawning(l, freed) =>
         && l <= inst.lanes
         && (freed ==> inst.threads <= l < inst.lanes)
         && forall k :: 0 <= k < inst.lanes ==>
              if k >= l then threads[k].Idle?
              else if k + inst.threads < l || (freed && k + inst.threads == l) then threads[k].Joined?
              else threads[k].Live()
       case Draining(l) =>
         && inst.lanes - inst.threads <= l <= inst.lanes
         && forall k :: 0 <= k < inst.lanes ==> if k < l then threads[k].Joined? else threads[k].Live()
       case Done =>
         forall k :: 0 <= k < inst.lanes ==> threads[k].Joined?
  }

  function Pc(inst: Instance, s: State, lane: nat): nat
    requires lane < |s.threads|
  {
    match s.threads[lane]
    case Idle => Spot(s, lane, 0).Start()
    case Running(i) => i
    case Storing(i, _) => i
    case Returned => inst.segmentLength
    case Joined => inst.segmentLength
  }

  function Pcs(inst: Instance, s: State): (pcs: seq<nat>)
    ensures |pcs| == |s.threads|
  {
    seq(|s.threads|, l requires 0 <= l < |s.threads| => Pc(inst, s, l))
  }

  /** The memory at the start of the slice, as the sequential order makes it. */
  ghost function Base(g: Compressor, inst: Instance, m0: seq<Block>, s: State): (m: seq<Block>)
    requires inst.Valid() && |m0| == inst.memoryBlocks && s.pass < inst.passes && s.slice < SYNC_POINTS
    ensures |m| == |m0|
  {
    FillTo(g, inst, SYNC_POINTS * s.pass + s.slice, m0)
  }

  /** Block `b` is being written. */
  ghost predicate Torn(inst: Instance, s: State, b: nat) {
    exists l :: 0 <= l < |s.threads| && s.threads[l].Storing? && b == Current(inst, Spot(s, l, s.threads[l].next))
  }

  ghost predicate Shape(inst: Instance, m0: seq<Block>, s: State) {
    && inst.Valid() && |m0| == |s.mem| == inst.memoryBlocks
    && s.pass < inst.passes && s.slice < SYNC_POINTS && |s.threads| == inst.lanes
    && (s.main.Done? ==> s.pass + 1 == inst.passes && s.slice + 1 == SYNC_POINTS)
    && Pattern(inst, s.main, s.threads)
    && Progress(inst, s.pass, s.slice, Pcs(inst, s))
    && forall l :: 0 <= l < |s.threads| && s.threads[l].Storing? ==> Spot(s, l, s.threads[l].next).Reachable(inst)
  }

  /** The block a lane builds at `pos` when it runs alone on memory `m`. */
  ghost function OwnBlock(g: Compressor, inst: Instance, pos: Position, m: seq<Block>): Block
    requires Ready(inst, pos, m)
  {
    NewBlock(g, inst, pos, SegmentTo(g, inst, pos.(index := 0), pos.index, m))
  }

  /** Apart from the blocks being written, the memory is the mixed memory; and what is about to be
      stored is what the lane would build on its own. */
  ghost predicate MemoryInv(g: Compressor, inst: Instance, m0: seq<Block>, s: State)
    requires Shape(inst, m0, s)
  {
    var mixed := Mixed(g, inst, s.pass, s.slice, Pcs(inst, s), Base(g, inst, m0, s));
    && (forall b :: 0 <= b < |s.mem| && !Torn(inst, s, b) ==> s.mem[b] == mixed[b])
    && (forall l :: 0 <= l < |s.threads| && s.threads[l].Storing? ==>
          s.threads[l].value == OwnBlock(g, inst, Spot(s, l, s.threads[l].next), Base(g, inst, m0, s)))
  }

  ghost predicate Inv(g: Compressor, inst: Instance, m0: seq<Block>, s: State) {
    Shape(inst, m0, s) && MemoryInv(g, inst, m0, s)
  }

  // ------------------------------------------------------------------ every step keeps it

  /** What a lane reads is not being written. */
  lemma ReadsNothingTorn(inst: Instance, m0: seq<Block>, s: State, lane: nat, b: nat)
    requires Shape(inst, m0, s) && lane < inst.lanes && s.threads[lane].Running? && b < inst.memoryBlocks
    requires Spot(s, lane, s.threads[lane].next).Reachable(inst)
    requires Reads(inst, Spot(s, lane, s.threads[lane].next), b)
    ensures !Torn(inst, s, b)
  {
    hide Times, SliceStart, Progress, Pattern;
    var pos := Spot(s, lane, s.threads[lane].next);
    forall l | 0 <= l < |s.threads| && s.threads[l].Storing?
      ensures b != Current(inst, Spot(s, l, s.threads[l].next))
    {
      var other := Spot(s, l, s.threads[l].next);
      PositionsInMemory(inst, other);
      LayoutIsOneToOne(inst, l, other.Offset(inst));
      if b / inst.laneLength != lane {
        NotOwnLane(inst, pos, b);
      }
    }
  }

  /** ... and stays as it is while the lane is reading: whatever the others do, no step changes it. That
      is why one step can stand for the reading of all its words. */
  lemma ReadsStayPut(g: Compressor, inst: Instance, m0: seq<Block>, s: State, s': State, lane: nat, b: nat)
    requires Inv(g, inst, m0, s) && Next(g, inst, s, s')
    requires lane < inst.lanes && s.threads[lane].Running? && b < inst.memoryBlocks
    requires Spot(s, lane, s.threads[lane].next).Reachable(inst)
    requires Reads(inst, Spot(s, lane, s.threads[lane].next), b)
    ensures |s'.mem| == |s.mem| && s'.mem[b] == s.mem[b]
  {
    ReadsNothingTorn(inst, m0, s, lane, b);
    hide MemoryInv, Pattern, Progress, Reads, ThreadStep, MainStep, Torn;
    if MainStep(inst, s, s') {
      MainLeavesMemory(inst, s, s');
    } else {
      var l :| ThreadStep(g, inst, s, l, s');
      OnlyTornChange(g, inst, s, l, s', b);
    }
  }

  lemma MainLeavesMemory(inst: Instance, s: State, s': State)
    requires inst.Valid() && MainStep(inst, s, s')
    ensures s'.mem == s.mem
  {
  }

  lemma OnlyTornChange(g: Compressor, inst: Instance, s: State, l: nat, s': State, b: nat)
    requires ThreadStep(g, inst, s, l, s') && b < |s.mem| && !Torn(inst, s, b)
    ensures |s'.mem| == |s.mem| && s'.mem[b] == s.mem[b]
  {
    hide NewBlock, Current, Ready, Torn;
    if l < |s.threads| && s.threads[l].Storing? {
      TornWhere(inst, s, l, b);
    }
  }

  lemma TornWhere(inst: Instance, s: State, l: nat, b: nat)
    requires l < |s.threads| && s.threads[l].Storing? && !Torn(inst, s, b)
    ensures b != Current(inst, Spot(s, l, s.threads[l].next))
  {
    hide Current;
  }

  lemma FetchKeeps(g: Compressor, inst: Instance, m0: seq<Block>, s: State, lane: nat, s': State)
    requires Inv(g, inst, m0, s) && Fetch(g, inst, s, lane, s')
    ensures Inv(g, inst, m0, s')
  {
    hide Times, SliceStart, Reads, Mixed, NewBlock, Current, SegmentTo, Step;
    var pos := Spot(s, lane, s.threads[lane].next);
    var base, pcs := Base(g, inst, m0, s), Pcs(inst, s);
    var mixed := Mixed(g, inst, s.pass, s.slice, pcs, base);
    assert Pcs(inst, s') == pcs;
    MixedStep(g, inst, s.pass, s.slice, pcs, base, lane);
    assert pos == Begin(s.pass, s.slice, lane).(index := pcs[lane]);
    forall b | 0 <= b < |s.mem| && Reads(inst, pos, b) ensures s.mem[b] == mixed[b] {
      ReadsNothingTorn(inst, m0, s, lane, b);
    }
    StepReads(g, inst, pos, s.mem, mixed);
    forall b | 0 <= b < |s.mem| && !Torn(inst, s', b) ensures !Torn(inst, s, b) {
      forall l | 0 <= l < |s.threads| && s.threads[l].Storing?
        ensures b != Current(inst, Spot(s, l, s.threads[l].next))
      {
        assert s'.threads[l] == s.threads[l];
      }
    }
  }

  lemma TearKeeps(g: Compressor, inst: Instance, m0: seq<Block>, s: State, lane: nat, junk: Block, s': State)
    requires Inv(g, inst, m0, s) && Tear(inst, s, lane, junk, s')
    ensures Inv(g, inst, m0, s')
  {
    hide Times, SliceStart, Mixed, OwnBlock, Current, Pattern, Progress, FillTo;
    assert s.threads == s'.threads && Pcs(inst, s') == Pcs(inst, s);
    var cur := Current(inst, Spot(s, lane, s.threads[lane].next));
    assert Torn(inst, s', cur);
    forall b: nat ensures Torn(inst, s', b) <==> Torn(inst, s, b) {
      SameTorn(inst, s, s', b);
    }
  }

  lemma SameTorn(inst: Instance, s: State, s': State, b: nat)
    requires s.threads == s'.threads && s.pass == s'.pass && s.slice == s'.slice
    ensures Torn(inst, s', b) <==> Torn(inst, s, b)
  {
    hide Current;
  }

  /** Two lanes never write the same block. */
  lemma WritersApart(inst: Instance, m0: seq<Block>, s: State, l: nat, k: nat)
    requires Shape(inst, m0, s) && l < inst.lanes && k < inst.lanes && l != k
    requires s.threads[l].Storing? && s.threads[k].Storing?
    ensures Current(inst, Spot(s, l, s.threads[l].next)) != Current(inst, Spot(s, k, s.threads[k].next))
  {
    hide Times, Progress, Pattern;
    PositionsInMemory(inst, Spot(s, l, s.threads[l].next));
    PositionsInMemory(inst, Spot(s, k, s.threads[k].next));
    LayoutIsOneToOne(inst, l, Spot(s, l, s.threads[l].next).Offset(inst));
    LayoutIsOneToOne(inst, k, Spot(s, k, s.threads[k].next).Offset(inst));
  }

  lemma StoreKeeps(g: Compressor, inst: Instance, m0: seq<Block>, s: State, lane: nat, s': State)
    requires Inv(g, inst, m0, s) && Store(inst, s, lane, s')
    ensures Inv(g, inst, m0, s')
  {
    hide Times, SliceStart, Mixed, NewBlock, Current, SegmentTo, FillTo;
    var pos := Spot(s, lane, s.threads[lane].next);
    var base, pcs := Base(g, inst, m0, s), Pcs(inst, s);
    var mixed := Mixed(g, inst, s.pass, s.slice, pcs, base);
    var mixed' := Step(g, inst, pos, mixed);
    assert pos == Begin(s.pass, s.slice, lane).(index := pcs[lane]);
    MixedStep(g, inst, s.pass, s.slice, pcs, base, lane);
    assert Pcs(inst, s') == pcs[lane := pcs[lane] + 1];
    assert Shape(inst, m0, s');
    StoredMemory(g, inst, m0, s, lane, s', mixed);
  }

  lemma StoredMemory(g: Compressor, inst: Instance, m0: seq<Block>, s: State, lane: nat, s': State, mixed: seq<Block>)
    requires Shape(inst, m0, s) && Store(inst, s, lane, s') && |mixed| == |s.mem|
    requires Ready(inst, Spot(s, lane, s.threads[lane].next), mixed)
    requires s.threads[lane].value == NewBlock(g, inst, Spot(s, lane, s.threads[lane].next), mixed)
    requires forall b :: 0 <= b < |s.mem| && !Torn(inst, s, b) ==> s.mem[b] == mixed[b]
    ensures forall b :: 0 <= b < |s.mem| && !Torn(inst, s', b) ==>
      s'.mem[b] == Step(g, inst, Spot(s, lane, s.threads[lane].next), mixed)[b]
  {
    hide NewBlock, Current, Pattern, Progress;
    var cur := Current(inst, Spot(s, lane, s.threads[lane].next));
    forall b | 0 <= b < |s.mem| && !Torn(inst, s', b) && b != cur ensures !Torn(inst, s, b) {
      forall l | 0 <= l < |s.threads| && s.threads[l].Storing?
        ensures b != Current(inst, Spot(s, l, s.threads[l].next))
      {
        if l != lane {
          assert s'.threads[l] == s.threads[l];
        }
      }
    }
  }

  /** A step that changes no progress and writes nothing. */
  lemma QuietKeeps(g: Compressor, inst: Instance, m0: seq<Block>, s: State, s': State)
    requires Inv(g, inst, m0, s)
    requires s'.pass == s.pass && s'.slice == s.slice && s'.mem == s.mem && |s'.threads| == |s.threads|
    requires s'.main.Done? ==> s.pass + 1 == inst.passes && s.slice + 1 == SYNC_POINTS
    requires Pattern(inst, s'.main, s'.threads)
    requires forall l :: 0 <= l < |s.threads| ==> Pc(inst, s', l) == Pc(inst, s, l)
    requires forall l :: 0 <= l < |s.threads| ==>
      (s.threads[l].Storing? || s'.threads[l].Storing? ==> s'.threads[l] == s.threads[l])
    ensures Inv(g, inst, m0, s')
  {
    hide Times, SliceStart, Mixed, OwnBlock, Current, FillTo, Progress, Pattern;
    assert Pcs(inst, s') == Pcs(inst, s);
    forall b | 0 <= b < |s.mem| && !Torn(inst, s', b) ensures !Torn(inst, s, b) {
      forall l | 0 <= l < |s.threads| && s.threads[l].Storing?
        ensures b != Current(inst, Spot(s, l, s.threads[l].next))
      {
        assert s'.threads[l] == s.threads[l];
      }
    }
  }

  lemma ReturnKeeps(g: Compressor, inst: Instance, m0: seq<Block>, s: State, lane: nat, s': State)
    requires Inv(g, inst, m0, s) && Return(inst, s, lane, s')
    ensures Inv(g, inst, m0, s')
  {
    hide MemoryInv;
    QuietKeeps(g, inst, m0, s, s');
  }

  /** At the end of a slice the memory is that of the sequential order. */
  lemma SliceEnd(g: Compressor, inst: Instance, m0: seq<Block>, s: State)
    requires Inv(g, inst, m0, s)
    requires forall l :: 0 <= l < inst.lanes ==> s.threads[l].Joined?
    ensures s.mem == FillTo(g, inst, SYNC_POINTS * s.pass + s.slice + 1, m0)
  {
    hide Times, SliceStart, Mixed, OwnBlock, Current, FillTo, Progress, Pattern, SliceTo;
    var base := Base(g, inst, m0, s);
    assert Pcs(inst, s) == FirstLanes(inst, s.pass, s.slice, inst.lanes);
    SequentialIsMixed(g, inst, s.pass, s.slice, inst.lanes, base);
    forall b | 0 <= b < |s.mem| ensures !Torn(inst, s, b) {
    }
    assert s.mem == SliceTo(g, inst, s.pass, s.slice, inst.lanes, base);
    FillOne(g, inst, s.pass, s.slice, m0);
  }

  /** A slice begins with no thread and the memory the sequential order has at that point. */
  lemma SliceBegin(g: Compressor, inst: Instance, m0: seq<Block>, s: State)
    requires inst.Valid() && |m0| == inst.memoryBlocks && s.pass < inst.passes && s.slice < SYNC_POINTS
    requires s.main == Spawning(0, false) && s.threads == AllIdle(inst)
    requires s.mem == FillTo(g, inst, SYNC_POINTS * s.pass + s.slice, m0)
    ensures Inv(g, inst, m0, s)
  {
    hide Times, SliceStart, Mixed, OwnBlock, Current, FillTo;
    assert Pcs(inst, s) == FirstLanes(inst, s.pass, s.slice, 0);
    NothingBuilt(g, inst, s.pass, s.slice, s.mem);
  }

  lemma MainKeeps(g: Compressor, inst: Instance, m0: seq<Block>, s: State, s': State)
    requires Inv(g, inst, m0, s) && MainStep(inst, s, s')
    ensures Inv(g, inst, m0, s')
  {
    hide MemoryInv, FillTo, Progress;
    match s.main
    case Spawning(l, freed) =>
      QuietKeeps(g, inst, m0, s, s');
    case Draining(l) =>
      if l < inst.lanes {
        QuietKeeps(g, inst, m0, s, s');
      } else {
        SliceEnd(g, inst, m0, s);
        if s'.main.Done? {
          QuietKeeps(g, inst, m0, s, s');
        } else {
          assert SYNC_POINTS * s'.pass + s'.slice == SYNC_POINTS * s.pass + s.slice + 1;
          SliceBegin(g, inst, m0, s');
        }
      }
  }

  lemma StepKeeps(g: Compressor, inst: Instance, m0: seq<Block>, s: State, s': State)
    requires Inv(g, inst, m0, s) && Next(g, inst, s, s')
    ensures Inv(g, inst, m0, s')
  {
    assert inst.Valid();
    hide Inv, MainStep, Fetch, Tear, Store, Return;
    if MainStep(inst, s, s') {
      MainKeeps(g, inst, m0, s, s');
    } else {
      var lane :| ThreadStep(g, inst, s, lane, s');
      if Fetch(g, inst, s, lane, s') {
        FetchKeeps(g, inst, m0, s, lane, s');
      } else if Store(inst, s, lane, s') {
        StoreKeeps(g, inst, m0, s, lane, s');
      } else if Return(inst, s, lane, s') {
        ReturnKeeps(g, inst, m0, s, lane, s');
      } else {
        var junk :| Tear(inst, s, lane, junk, s');
        TearKeeps(g, inst, m0, s, lane, junk, s');
      }
    }
  }

  // ------------------------------------------------------------------ whole runs

  ghost predicate Run(g: Compressor, inst: Instance, m0: seq<Block>, run: seq<State>)
    requires inst.Valid()
  {
    && |run| > 0 && Init(inst, m0, run[0])
    && forall k :: 0 <= k < |run| - 1 ==> Next(g, inst, run[k], run[k + 1])
  }

  lemma {:induction false} RunKeeps(g: Compressor, inst: Instance, m0: seq<Block>, run: seq<State>, k: nat)
    requires inst.Valid() && |m0| == inst.memoryBlocks && Run(g, inst, m0, run) && k < |run|
    ensures Inv(g, inst, m0, run[k])
  {
    hide Inv, Next;
    if k == 0 {
      assert FillTo(g, inst, SYNC_POINTS * run[0].pass + run[0].slice, m0) == m0;
      SliceBegin(g, inst, m0, run[0]);
    } else {
      RunKeeps(g, inst, m0, run, k - 1);
      assert run[k - 1 + 1] == run[k];
      StepKeeps(g, inst, m0, run[k - 1], run[k]);
    }
  }

  /** Schedule independence: every run that comes to its end, whatever the order of its steps and
      the number of threads, leaves the memory of the sequential order. */
  lemma EveryRunIsSequential(g: Compressor, inst: Instance, m0: seq<Block>, run: seq<State>)
    requires inst.Valid() && |m0| == inst.memoryBlocks && Run(g, inst, m0, run)
    requires run[|run| - 1].main.Done?
    ensures run[|run| - 1].mem == FillTo(g, inst, SYNC_POINTS * inst.passes, m0)
  {
    hide FillTo, MemoryInv, Progress, Next;
    var s := run[|run| - 1];
    RunKeeps(g, inst, m0, run, |run| - 1);
    SliceEnd(g, inst, m0, s);
    assert SYNC_POINTS * s.pass + s.slice + 1 == SYNC_POINTS * inst.passes;
  }

  /** Two finished runs of the same memory agree, even when their thread limits differ. */
  lemma ThreadLimitIrrelevant(g: Compressor, inst: Instance, k: u32, m0: seq<Block>, run: seq<State>, run': seq<State>)
    requires inst.Valid() && 1 <= k <= inst.lanes && |m0| == inst.memoryBlocks
    requires Run(g, inst, m0, run) && run[|run| - 1].main.Done?
    requires Run(g, inst.(threads := k), m0, run') && run'[|run'| - 1].main.Done?
    ensures run[|run| - 1].mem == run'[|run'| - 1].mem
  {
    hide Next, FillTo, Times;
    EveryRunIsSequential(g, inst, m0, run);
    EveryRunIsSequential(g, inst.(threads := k), m0, run');
    FillIgnoresThreads(g, inst, k, SYNC_POINTS * inst.passes, m0);
  }

  // ------------------------------------------------------------------ the thread protocol

  function Span(lo: int, hi: int): (r: set<int>)
    requires lo <= hi
    ensures |r| == hi - lo
    ensures forall k :: k in r <==> lo <= k < hi
    decreases hi - lo
  {
    if lo == hi then {} else Span(lo, hi - 1) + {hi - 1}
  }

  lemma SubsetSize(a: set<int>, b: set<int>)
    requires a <= b
    ensures |a| <= |b|
  {
    assert b == a + (b - a);
  }

  ghost function LiveThreads(s: State): set<int> { set l | 0 <= l < |s.threads| && s.threads[l].Live() }

  /** In every state that can be reached: at most `threads` lane threads exist, none at the end of a
      slice; a thread is created only where none is, and joined only where one is. */
  lemma ThreadProtocol(g: Compressor, inst: Instance, m0: seq<Block>, s: State)
    requires Inv(g, inst, m0, s)
    ensures |LiveThreads(s)| <= inst.threads
    ensures s.main == Draining(inst.lanes) || s.main.Done? ==> LiveThreads(s) == {}
    ensures s.main.Spawning? && s.main.lane < inst.lanes ==>
      if s.main.lane >= inst.threads && !s.main.freed then s.threads[s.main.lane - inst.threads].Live()
      else s.threads[s.main.lane].Idle?
    ensures s.main.Draining? && s.main.lane < inst.lanes ==> s.threads[s.main.lane].Live()
  {
    hide MemoryInv, Progress;
    match s.main
    case Spawning(l, freed) =>
      var lo := if l >= inst.threads then l - inst.threads else 0;
      SubsetSize(LiveThreads(s), Span(lo, l));
    case Draining(l) =>
      SubsetSize(LiveThreads(s), Span(l, inst.lanes));
    case Done =>
      assert LiveThreads(s) == {};
  }

  /** How far a thread has come: it is created once and joined once in a slice. */
  function Stage(t: Thread): nat {
    match t
    case Idle => 0
    case Running(_) => 1
    case Storing(_, _) => 1
    case Returned => 2
    case Joined => 3
  }

  /** Within a slice no thread goes back, none is skipped, and a slice is left only when every one
      of its threads has been joined. */
  lemma ThreadsMoveOn(g: Compressor, inst: Instance, m0: seq<Block>, s: State, s': State, lane: nat)
    requires Inv(g, inst, m0, s) && Next(g, inst, s, s') && lane < inst.lanes
    ensures |s'.threads| == inst.lanes
    ensures s'.pass == s.pass && s'.slice == s.slice ==>
      Stage(s.threads[lane]) <= Stage(s'.threads[lane]) <= Stage(s.threads[lane]) + 1
    ensures !(s'.pass == s.pass && s'.slice == s.slice) ==> s.threads[lane].Joined? && s'.threads[lane].Idle?
  {
    hide MemoryInv, Progress;
  }

  // ------------------------------------------------------------------ no run gets stuck

  function Rank(inst: Instance, t: Thread): nat {
    match t
    case Idle => 2 * inst.segmentLength + 4
    case Running(i) => if i <= inst.segmentLength then 2 * (inst.segmentLength - i) + 3 else 3
    case Storing(i, _) => if i <= inst.segmentLength then 2 * (inst.segmentLength - i) + 2 else 2
    case Returned => 2
    case Joined => 0
  }

  function Ranks(inst: Instance, threads: seq<Thread>): nat {
    if threads == [] then 0 else Ranks(inst, threads[..|threads| - 1]) + Rank(inst, threads[|threads| - 1])
  }

  lemma {:induction false} RanksUpdate(inst: Instance, threads: seq<Thread>, l: nat, t: Thread)
    requires l < |threads|
    ensures Ranks(inst, threads[l := t]) == Ranks(inst, threads) - Rank(inst, threads[l]) + Rank(inst, t)
  {
    var n := |threads| - 1;
    if l == n {
      assert threads[l := t][..n] == threads[..n];
    } else {
      RanksUpdate(inst, threads[..n], l, t);
      assert threads[l := t][..n] == threads[..n][l := t];
    }
  }

  function MainRank(main: Main): nat { if main.Spawning? then 2 else if main.Draining? then 1 else 0 }

  function SliceCost(inst: Instance): nat { Ranks(inst, AllIdle(inst)) + 2 }

  /** Work left: whole slices to come, threads of this slice, and the main thread. */
  function WorkLeft(inst: Instance, s: State): int {
    Times(if SYNC_POINTS * s.pass + s.slice < SYNC_POINTS * inst.passes
          then SYNC_POINTS * inst.passes - SYNC_POINTS * s.pass - s.slice else 0, SliceCost(inst))
    + Ranks(inst, s.threads) + MainRank(s.main)
  }

  /** Any step but an intermediate write. */
  ghost predicate WorkStep(g: Compressor, inst: Instance, s: State, s': State)
    requires inst.Valid()
  {
    || MainStep(inst, s, s')
    || (exists l :: Fetch(g, inst, s, l, s'))
    || (exists l :: Store(inst, s, l, s'))
    || (exists l :: Return(inst, s, l, s'))
  }

  lemma ThreadWork(inst: Instance, s: State, s': State, l: nat)
    requires l < |s.threads| && s'.pass == s.pass && s'.slice == s.slice && s'.main == s.main
    requires |s'.threads| == |s.threads| && s'.threads == s.threads[l := s'.threads[l]]
    requires Rank(inst, s'.threads[l]) < Rank(inst, s.threads[l])
    ensures WorkLeft(inst, s') < WorkLeft(inst, s)
  {
    hide Times, Rank;
    RanksUpdate(inst, s.threads, l, s'.threads[l]);
  }

  lemma MainWork(inst: Instance, m0: seq<Block>, s: State, s': State)
    requires Shape(inst, m0, s) && MainStep(inst, s, s')
    ensures WorkLeft(inst, s') < WorkLeft(inst, s)
  {
    hide Times, Progress, Ranks;
    match s.main
    case Spawning(l, freed) =>
      if l < inst.lanes {
        var k := if l >= inst.threads && !freed then l - inst.threads else l;
        RanksUpdate(inst, s.threads, k, s'.threads[k]);
      }
    case Draining(l) =>
      if l < inst.lanes {
        RanksUpdate(inst, s.threads, l, s'.threads[l]);
      } else if !s'.main.Done? {
        var left := SYNC_POINTS * inst.passes - SYNC_POINTS * s.pass - s.slice;
        TimesStep(left - 1, SliceCost(inst));
      }
  }

  lemma TimesStep(a: nat, k: nat)
    ensures Times(a + 1, k) == Times(a, k) + k
  {
  }

  /** Every step but an intermediate write leaves less to do. */
  lemma WorkShrinks(g: Compressor, inst: Instance, m0: seq<Block>, s: State, s': State)
    requires Inv(g, inst, m0, s) && WorkStep(g, inst, s, s')
    ensures 0 <= WorkLeft(inst, s') < WorkLeft(inst, s)
  {
    hide WorkLeft, MemoryInv, Pattern, Progress, MainStep;
    assert 0 <= WorkLeft(inst, s') by { NonNegative(inst, s'); }
    if MainStep(inst, s, s') {
      MainWork(inst, m0, s, s');
    } else if l :| Fetch(g, inst, s, l, s') {
      ThreadWork(inst, s, s', l);
    } else if l :| Store(inst, s, l, s') {
      ThreadWork(inst, s, s', l);
    } else {
      var l :| Return(inst, s, l, s');
      ThreadWork(inst, s, s', l);
    }
  }

  lemma NonNegative(inst: Instance, s: State)
    ensures 0 <= WorkLeft(inst, s)
  {
  }

  /** No deadlock: before the end some thread, or the main thread, can always go on. */
  lemma NeverStuck(g: Compressor, inst: Instance, m0: seq<Block>, s: State) returns (s': State)
    requires Inv(g, inst, m0, s) && !s.main.Done?
    ensures WorkStep(g, inst, s, s') && Next(g, inst, s, s')
  {
    hide MemoryInv, Times, SliceStart, NewBlock, Current, Mixed, FillTo;
    if l :| 0 <= l < inst.lanes && s.threads[l].Running? {
      var i := s.threads[l].next;
      assert Pcs(inst, s)[l] == i;
      if i == inst.segmentLength {
        s' := s.(threads := s.threads[l := Returned]);
        assert Return(inst, s, l, s');
      } else {
        s' := s.(threads := s.threads[l := Storing(i, NewBlock(g, inst, Spot(s, l, i), s.mem))]);
        assert Fetch(g, inst, s, l, s');
      }
      assert ThreadStep(g, inst, s, l, s');
    } else if l :| 0 <= l < inst.lanes && s.threads[l].Storing? {
      var block := Current(inst, Spot(s, l, s.threads[l].next));
      PositionsInMemory(inst, Spot(s, l, s.threads[l].next));
      s' := s.(mem := s.mem[block := s.threads[l].value],
               threads := s.threads[l := Running(s.threads[l].next + 1)], log := s.log + [block]);
      assert Store(inst, s, l, s');
      assert ThreadStep(g, inst, s, l, s');
    } else {
      s' := MainGoesOn(inst, s);
    }
  }

  lemma MainGoesOn(inst: Instance, s: State) returns (s': State)
    requires inst.Valid() && Pattern(inst, s.main, s.threads) && !s.main.Done?
    requires forall l :: 0 <= l < inst.lanes ==> !s.threads[l].Running? && !s.threads[l].Storing?
    ensures MainStep(inst, s, s')
  {
    match s.main
    case Spawning(l, freed) =>
      if l >= inst.lanes {
        s' := s.(main := Draining(inst.lanes - inst.threads));
      } else if l >= inst.threads && !freed {
        s' := s.(main := Spawning(l, true), threads := s.threads[l - inst.threads := Joined]);
      } else {
        s' := s.(main := Spawning(l + 1, false), threads := s.threads[l := Running(Spot(s, l, 0).Start())]);
      }
    case Draining(l) =>
      s' := if l < inst.lanes then s.(main := Draining(l + 1), threads := s.threads[l := Joined])
            else NextSlice(inst, s);
  }

  /** Every run that has not come to its end can be continued to it. */
  lemma {:induction false} RunCanFinish(g: Compressor, inst: Instance, m0: seq<Block>, run: seq<State>)
    returns (run': seq<State>)
    requires inst.Valid() && |m0| == inst.memoryBlocks && Run(g, inst, m0, run)
    ensures Run(g, inst, m0, run') && run'[|run'| - 1].main.Done? && |run| <= |run'| && run'[..|run|] == run
    decreases WorkLeft(inst, run[|run| - 1])
  {
    hide Inv, Next, WorkStep, WorkLeft;
    var s := run[|run| - 1];
    RunKeeps(g, inst, m0, run, |run| - 1);
    if s.main.Done? {
      run' := run;
    } else {
      var s' := NeverStuck(g, inst, m0, s);
      WorkShrinks(g, inst, m0, s, s');
      NonNegative(inst, s);
      var longer := run + [s'];
      assert forall k :: 0 <= k < |longer| - 1 ==> longer[k] == run[k];
      run' := RunCanFinish(g, inst, m0, longer);
      assert run'[..|run|] == run'[..|longer|][..|run|];
    }
  }
}
