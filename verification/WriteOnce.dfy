/** In every run of the threads each block is stored exactly once in each pass, and no block is read
    before it has been stored. */
module WriteOnce {
  import opened Arithmetic
  import opened Instances
  import opened Fill
  import opened Slices
  import opened Threads
  import opened Determined

  /** Block `b` has been stored in this pass. */
  ghost predicate InPass(inst: Instance, s: State, b: nat)
    requires inst.Valid() && |s.threads| == inst.lanes && b < inst.memoryBlocks
  {
    BlockOf(inst, b);
    var lane, o := b / inst.laneLength, b % inst.laneLength;
    || (o < SliceStart(inst, s.slice) && (s.pass == 0 ==> o >= 2))
    || BuiltBy(inst, Begin(s.pass, s.slice, lane), Pc(inst, s, lane), b)
  }

  ghost predicate LogInv(inst: Instance, m0: seq<Block>, s: State)
    requires Shape(inst, m0, s)
  {
    && (forall i, j :: 0 <= i < j < |s.log| ==> s.log[i] != s.log[j])
    && (forall i :: 0 <= i < |s.log| ==> s.log[i] < inst.memoryBlocks)
    && (forall b :: 0 <= b < inst.memoryBlocks ==> (b in s.log <==> InPass(inst, s, b)))
  }

  lemma StoreLogs(inst: Instance, m0: seq<Block>, s: State, lane: nat, s': State)
    requires Shape(inst, m0, s) && LogInv(inst, m0, s) && Store(inst, s, lane, s') && Shape(inst, m0, s')
    ensures LogInv(inst, m0, s')
  {
    hide Times, SliceStart, Pattern, Progress, BuiltBy, Current;
    var pos := Spot(s, lane, s.threads[lane].next);
    var cur := Current(inst, pos);
    PositionsInMemory(inst, pos);
    forall b | 0 <= b < inst.memoryBlocks
      ensures InPass(inst, s', b) <==> InPass(inst, s, b) || b == cur
    {
      BlockOf(inst, b);
      CurrentIsBuilt(inst, pos, b);
      SameBuilt(inst, pos, pos.index + 1, b);
      SameBuilt(inst, pos, pos.index, b);
      OtherLaneNotCurrent(inst, pos, b);
    }
    NotYetStored(inst, m0, s, lane);
    assert cur !in s.log;
  }

  lemma SameBuilt(inst: Instance, pos: Position, n: nat, b: nat)
    requires inst.laneLength > 0
    ensures BuiltBy(inst, pos, n, b) == BuiltBy(inst, Begin(pos.pass, pos.slice, pos.lane), n, b)
  {
  }

  lemma OtherLaneNotCurrent(inst: Instance, pos: Position, b: nat)
    requires inst.Valid() && pos.Reachable(inst)
    ensures b == Current(inst, pos) ==> b / inst.laneLength == pos.lane
  {
    PositionsInMemory(inst, pos);
    LayoutIsOneToOne(inst, pos.lane, pos.Offset(inst));
  }

  lemma NotYetStored(inst: Instance, m0: seq<Block>, s: State, lane: nat)
    requires Shape(inst, m0, s) && lane < inst.lanes && s.threads[lane].Storing?
    ensures Current(inst, Spot(s, lane, s.threads[lane].next)) < inst.memoryBlocks
    ensures !InPass(inst, s, Current(inst, Spot(s, lane, s.threads[lane].next)))
  {
    hide Times, Pattern, Progress, SliceStart;
    var pos := Spot(s, lane, s.threads[lane].next);
    PositionsInMemory(inst, pos);
    LayoutIsOneToOne(inst, lane, pos.Offset(inst));
  }

  /** A step that stores nothing and changes no progress. */
  lemma QuietLogs(inst: Instance, m0: seq<Block>, s: State, s': State)
    requires Shape(inst, m0, s) && LogInv(inst, m0, s) && Shape(inst, m0, s')
    requires s'.pass == s.pass && s'.slice == s.slice && s'.log == s.log
    requires forall l :: 0 <= l < inst.lanes ==> Pc(inst, s', l) == Pc(inst, s, l)
    ensures LogInv(inst, m0, s')
  {
    hide Times, SliceStart, Pattern, Progress, BuiltBy, Pc;
    forall b | 0 <= b < inst.memoryBlocks ensures InPass(inst, s', b) <==> InPass(inst, s, b) {
      BlockOf(inst, b);
    }
  }

  lemma SliceEndLogs(inst: Instance, m0: seq<Block>, s: State, s': State)
    requires Shape(inst, m0, s) && LogInv(inst, m0, s) && Shape(inst, m0, s')
    requires s.main == Draining(inst.lanes) && s' == NextSlice(inst, s)
    ensures LogInv(inst, m0, s')
  {
    hide Times, Progress;
    if s'.main.Done? {
      QuietLogs(inst, m0, s, s');
    } else {
      forall b | 0 <= b < inst.memoryBlocks
        ensures InPass(inst, s', b) <==> s'.pass == s.pass && InPass(inst, s, b)
      {
        BlockOf(inst, b);
      }
    }
  }

  lemma StepLogs(g: Compressor, inst: Instance, m0: seq<Block>, s: State, s': State)
    requires Inv(g, inst, m0, s) && LogInv(inst, m0, s) && Next(g, inst, s, s')
    ensures Shape(inst, m0, s') && LogInv(inst, m0, s')
  {
    StepKeeps(g, inst, m0, s, s');
    hide LogInv, MemoryInv, Progress, Fetch, Tear, Return;
    if MainStep(inst, s, s') {
      if s.main == Draining(inst.lanes) {
        SliceEndLogs(inst, m0, s, s');
      } else {
        QuietLogs(inst, m0, s, s');
      }
    } else {
      hide MainStep, Shape;
      var lane :| ThreadStep(g, inst, s, lane, s');
      if Store(inst, s, lane, s') {
        StoreLogs(inst, m0, s, lane, s');
      } else {
        ThreadQuiet(g, inst, m0, s, lane, s');
        QuietLogs(inst, m0, s, s');
      }
    }
  }

  lemma ThreadQuiet(g: Compressor, inst: Instance, m0: seq<Block>, s: State, lane: nat, s': State)
    requires Shape(inst, m0, s) && ThreadStep(g, inst, s, lane, s') && !Store(inst, s, lane, s')
    ensures s'.pass == s.pass && s'.slice == s.slice && s'.log == s.log && |s'.threads| == |s.threads|
    ensures forall l :: 0 <= l < inst.lanes ==> Pc(inst, s', l) == Pc(inst, s, l)
  {
    hide Progress, Pattern, NewBlock, Current;
  }

  lemma {:induction false} RunLogs(g: Compressor, inst: Instance, m0: seq<Block>, run: seq<State>, k: nat)
    requires inst.Valid() && |m0| == inst.memoryBlocks && Run(g, inst, m0, run) && k < |run|
    ensures Inv(g, inst, m0, run[k]) && LogInv(inst, m0, run[k])
  {
    RunKeeps(g, inst, m0, run, k);
    hide MemoryInv, Next, Progress;
    if k == 0 {
      forall b | 0 <= b < inst.memoryBlocks ensures !InPass(inst, run[0], b) {
        BlockOf(inst, b);
      }
    } else {
      RunLogs(g, inst, m0, run, k - 1);
      assert run[k - 1 + 1] == run[k];
      StepLogs(g, inst, m0, run[k - 1], run[k]);
    }
  }

  /** In every run, at the end of every pass: no block has been stored twice in the pass, and the
      blocks stored are all of them, except that the first pass leaves the first two of each lane. */
  lemma EachBlockOncePerPass(g: Compressor, inst: Instance, m0: seq<Block>, run: seq<State>, k: nat, b: nat)
    requires inst.Valid() && |m0| == inst.memoryBlocks && Run(g, inst, m0, run) && k < |run|
    requires run[k].main == Draining(inst.lanes) && run[k].slice == SYNC_POINTS - 1
    requires b < inst.memoryBlocks
    ensures b in run[k].log <==> (run[k].pass == 0 ==> b % inst.laneLength >= 2)
    ensures multiset(run[k].log)[b] <= 1
  {
    hide Times, MemoryInv, Next, Progress;
    RunLogs(g, inst, m0, run, k);
    BlockOf(inst, b);
    OnceInLog(run[k].log, b);
  }

  lemma {:induction false} OnceInLog(log: seq<nat>, b: nat)
    requires forall i, j :: 0 <= i < j < |log| ==> log[i] != log[j]
    ensures multiset(log)[b] <= 1
  {
    if log != [] {
      var n := |log| - 1;
      assert log == log[..n] + [log[n]];
      OnceInLog(log[..n], b);
      if log[n] == b {
        assert b !in log[..n];
      }
    }
  }

  // ------------------------------------------------------------------ defined before use

  /** A pass ends with the last slice, when all threads have been joined. */
  lemma PassEnds(g: Compressor, inst: Instance, m0: seq<Block>, s: State, s': State)
    requires Inv(g, inst, m0, s) && Next(g, inst, s, s')
    ensures s'.pass == s.pass
         || (s'.pass == s.pass + 1 && s.main == Draining(inst.lanes) && s.slice == SYNC_POINTS - 1)
  {
    hide MemoryInv, Progress, NewBlock, Current, Ready;
  }

  /** A run that has come to a later pass has come to the end of the first. */
  lemma {:induction false} FirstPassEnded(g: Compressor, inst: Instance, m0: seq<Block>, run: seq<State>, k: nat)
    returns (j: nat)
    requires inst.Valid() && |m0| == inst.memoryBlocks && Run(g, inst, m0, run) && k < |run| && run[k].pass > 0
    ensures j < k && run[j].pass == 0 && run[j].main == Draining(inst.lanes) && run[j].slice == SYNC_POINTS - 1
  {
    assert k > 0;
    RunKeeps(g, inst, m0, run, k - 1);
    assert run[k - 1 + 1] == run[k];
    hide Inv, Next;
    PassEnds(g, inst, m0, run[k - 1], run[k]);
    if run[k - 1].pass > 0 {
      j := FirstPassEnded(g, inst, m0, run, k - 1);
    } else {
      j := k - 1;
    }
  }

  /** Block `b` is one of the first two of its lane, or has been stored by step `k` of the run. */
  ghost predicate StoredBy(inst: Instance, run: seq<State>, k: nat, b: nat)
    requires inst.laneLength > 0 && k < |run|
  {
    b % inst.laneLength < 2 || exists j :: 0 <= j <= k && b in run[j].log
  }

  /** In every run, however its threads mix: what a lane is about to read has been stored, or comes from
      fill_first_blocks. In the first pass it has been stored in that pass. */
  lemma ReadsOnlyStored(g: Compressor, inst: Instance, m0: seq<Block>, run: seq<State>, k: nat, lane: nat, b: nat)
    requires inst.Valid() && |m0| == inst.memoryBlocks && Run(g, inst, m0, run) && k < |run|
    requires lane < |run[k].threads| && run[k].threads[lane].Running? && b < inst.memoryBlocks
    requires Spot(run[k], lane, run[k].threads[lane].next).Reachable(inst)
    requires Reads(inst, Spot(run[k], lane, run[k].threads[lane].next), b)
    ensures StoredBy(inst, run, k, b)
    ensures run[k].pass == 0 ==> b in run[k].log || b % inst.laneLength < 2
  {
    RunLogs(g, inst, m0, run, k);
    if run[k].pass == 0 {
      StoredInFirstPass(inst, m0, run[k], lane, b);
    } else {
      hide Inv, Next;
      var j := FirstPassEnded(g, inst, m0, run, k);
      EachBlockOncePerPass(g, inst, m0, run, j, b);
    }
  }

  lemma StoredInFirstPass(inst: Instance, m0: seq<Block>, s: State, lane: nat, b: nat)
    requires Shape(inst, m0, s) && LogInv(inst, m0, s) && s.pass == 0
    requires lane < |s.threads| && s.threads[lane].Running? && b < inst.memoryBlocks
    requires Spot(s, lane, s.threads[lane].next).Reachable(inst)
    requires Reads(inst, Spot(s, lane, s.threads[lane].next), b)
    ensures b in s.log || b % inst.laneLength < 2
  {
    var pos := Spot(s, lane, s.threads[lane].next);
    ReadsOnlyComputed(inst, pos, b);
    BlockOf(inst, b);
    hide Reads, Times, SliceStart, Progress, Pattern;
    assert InPass(inst, s, b) || b % inst.laneLength < 2;
  }
}
