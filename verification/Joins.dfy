/** In every finished run, each slice creates the thread of each lane exactly once and joins it exactly
    once. */
module Joins {
  import opened Instances
  import opened Fill
  import opened Slices
  import opened Threads

  /** Slices are counted through all passes. */
  function Epoch(s: State): nat { SYNC_POINTS * s.pass + s.slice }

  /** Step `k` of the run creates the thread of `lane` in slice `epoch`. */
  ghost predicate CreatedAt(run: seq<State>, epoch: nat, lane: nat, k: nat) {
    && k + 1 < |run| && Epoch(run[k]) == epoch && run[k].main.Spawning? && run[k].main.lane == lane
    && Create(run[k], lane, Spawning(lane + 1, false), run[k + 1])
  }

  /** Step `k` of the run joins the thread of `lane` in slice `epoch`. */
  ghost predicate JoinedAt(run: seq<State>, epoch: nat, lane: nat, k: nat) {
    && k + 1 < |run| && Epoch(run[k]) == epoch && Join(run[k], lane, run[k + 1].main, run[k + 1])
  }

  /** Step `k` takes the thread of `lane` to a stage in slice `epoch`. */
  ghost predicate Reaches(run: seq<State>, epoch: nat, lane: nat, stage: nat, k: nat) {
    && k + 1 < |run| && Epoch(run[k]) == Epoch(run[k + 1]) == epoch
    && lane < |run[k].threads| && lane < |run[k + 1].threads|
    && Stage(run[k].threads[lane]) + 1 == stage == Stage(run[k + 1].threads[lane])
  }

  // ------------------------------------------------------------------ steps

  lemma EpochMoves(g: Compressor, inst: Instance, m0: seq<Block>, s: State, s': State)
    requires Inv(g, inst, m0, s) && Next(g, inst, s, s')
    ensures Epoch(s') == Epoch(s) <==> s'.pass == s.pass && s'.slice == s.slice
    ensures Epoch(s) <= Epoch(s') <= Epoch(s) + 1
  {
    hide MemoryInv, Progress, NewBlock, Current, Ready;
  }

  /** The steps that take a thread to its first stage are the creations, and those that take it to its last
      the joins. */
  lemma StagesAreSteps(g: Compressor, inst: Instance, m0: seq<Block>, run: seq<State>, epoch: nat, lane: nat, k: nat)
    requires inst.Valid() && |m0| == inst.memoryBlocks && Run(g, inst, m0, run) && k + 1 < |run| && lane < inst.lanes
    ensures Reaches(run, epoch, lane, 1, k) <==> CreatedAt(run, epoch, lane, k)
    ensures Reaches(run, epoch, lane, 3, k) <==> JoinedAt(run, epoch, lane, k)
  {
    RunKeeps(g, inst, m0, run, k);
    assert Next(g, inst, run[k], run[k + 1]);
    hide MemoryInv, Progress, Run;
    if MainStep(inst, run[k], run[k + 1]) {
      MainStages(inst, m0, run, epoch, lane, k);
    } else {
      var l :| ThreadStep(g, inst, run[k], l, run[k + 1]);
      hide MainStep, Pattern;
      ThreadStages(g, inst, run, epoch, lane, k, l);
    }
  }

  lemma MainStages(inst: Instance, m0: seq<Block>, run: seq<State>, epoch: nat, lane: nat, k: nat)
    requires inst.Valid() && k + 1 < |run| && lane < inst.lanes
    requires Shape(inst, m0, run[k]) && MainStep(inst, run[k], run[k + 1])
    ensures Reaches(run, epoch, lane, 1, k) <==> CreatedAt(run, epoch, lane, k)
    ensures Reaches(run, epoch, lane, 3, k) <==> JoinedAt(run, epoch, lane, k)
  {
    hide Progress;
  }

  lemma ThreadStages(g: Compressor, inst: Instance, run: seq<State>, epoch: nat, lane: nat, k: nat, l: nat)
    requires inst.Valid() && k + 1 < |run| && lane < inst.lanes == |run[k].threads|
    requires ThreadStep(g, inst, run[k], l, run[k + 1])
    ensures !Reaches(run, epoch, lane, 1, k) && !CreatedAt(run, epoch, lane, k)
    ensures !Reaches(run, epoch, lane, 3, k) && !JoinedAt(run, epoch, lane, k)
  {
    hide NewBlock, Current, Ready;
  }

  // ------------------------------------------------------------------ at most once

  /** Within a slice the stage of a thread does not go back. */
  lemma {:induction false} StageKept(g: Compressor, inst: Instance, m0: seq<Block>, run: seq<State>, lane: nat, j: nat,
                                     k: nat)
    requires inst.Valid() && |m0| == inst.memoryBlocks && Run(g, inst, m0, run) && j <= k < |run| && lane < inst.lanes
    ensures |run[j].threads| == |run[k].threads| == inst.lanes && Epoch(run[j]) <= Epoch(run[k])
    ensures Epoch(run[j]) == Epoch(run[k]) ==> Stage(run[j].threads[lane]) <= Stage(run[k].threads[lane])
  {
    hide Inv, Next, Run, Epoch, Stage, Instance.Valid;
    RunKeeps(g, inst, m0, run, j);
    OneThreadALane(g, inst, m0, run[j]);
    if j < k {
      StageKept(g, inst, m0, run, lane, j, k - 1);
      NextInRun(g, inst, m0, run, k - 1);
      StageStep(g, inst, m0, run[k - 1], run[k], lane);
    }
  }

  lemma OneThreadALane(g: Compressor, inst: Instance, m0: seq<Block>, s: State)
    requires Inv(g, inst, m0, s)
    ensures |s.threads| == inst.lanes
  {
    hide MemoryInv, Progress, Pattern;
  }

  lemma NextInRun(g: Compressor, inst: Instance, m0: seq<Block>, run: seq<State>, k: nat)
    requires inst.Valid() && |m0| == inst.memoryBlocks && Run(g, inst, m0, run) && k + 1 < |run|
    ensures Inv(g, inst, m0, run[k]) && Next(g, inst, run[k], run[k + 1])
  {
    RunKeeps(g, inst, m0, run, k);
    hide Inv, Next;
  }

  lemma StageStep(g: Compressor, inst: Instance, m0: seq<Block>, s: State, s': State, lane: nat)
    requires Inv(g, inst, m0, s) && Next(g, inst, s, s') && lane < inst.lanes
    ensures |s.threads| == |s'.threads| == inst.lanes && Epoch(s) <= Epoch(s')
    ensures Epoch(s) == Epoch(s') ==> Stage(s.threads[lane]) <= Stage(s'.threads[lane])
  {
    OneThreadALane(g, inst, m0, s);
    EpochMoves(g, inst, m0, s, s');
    ThreadsMoveOn(g, inst, m0, s, s', lane);
    hide Inv, Next, Stage;
  }

  lemma ReachedOnce(g: Compressor, inst: Instance, m0: seq<Block>, run: seq<State>, epoch: nat, lane: nat, stage: nat,
                    j: nat, k: nat)
    requires inst.Valid() && |m0| == inst.memoryBlocks && Run(g, inst, m0, run) && lane < inst.lanes
    requires Reaches(run, epoch, lane, stage, j) && Reaches(run, epoch, lane, stage, k)
    ensures j == k
  {
    hide Run, Stage;
    if j < k {
      StageKept(g, inst, m0, run, lane, j + 1, k);
    } else if k < j {
      StageKept(g, inst, m0, run, lane, k + 1, j);
    }
  }

  // ------------------------------------------------------------------ at least once

  /** A thread that has come to a stage has been taken to it in this slice. */
  lemma {:induction false} StageWasReached(g: Compressor, inst: Instance, m0: seq<Block>, run: seq<State>, lane: nat,
                                           stage: nat, k: nat) returns (j: nat)
    requires inst.Valid() && |m0| == inst.memoryBlocks && Run(g, inst, m0, run) && k < |run| && lane < inst.lanes
    requires lane < |run[k].threads| && 1 <= stage <= Stage(run[k].threads[lane])
    ensures j < k && Reaches(run, Epoch(run[k]), lane, stage, j)
  {
    assert k > 0;
    RunKeeps(g, inst, m0, run, k - 1);
    assert run[k - 1 + 1] == run[k];
    hide MemoryInv, Progress, Next, Pattern;
    EpochMoves(g, inst, m0, run[k - 1], run[k]);
    ThreadsMoveOn(g, inst, m0, run[k - 1], run[k], lane);
    if stage <= Stage(run[k - 1].threads[lane]) {
      j := StageWasReached(g, inst, m0, run, lane, stage, k - 1);
    } else {
      j := k - 1;
    }
  }

  /** A run that has come past a slice, or to its end, has seen all threads of the slice joined. */
  lemma {:induction false} SliceWasLeft(g: Compressor, inst: Instance, m0: seq<Block>, run: seq<State>, epoch: nat,
                                        lane: nat, k: nat) returns (j: nat)
    requires inst.Valid() && |m0| == inst.memoryBlocks && Run(g, inst, m0, run) && k < |run| && lane < inst.lanes
    requires Epoch(run[k]) > epoch || (Epoch(run[k]) == epoch && run[k].main.Done?)
    ensures j <= k && Epoch(run[j]) == epoch && lane < |run[j].threads| && run[j].threads[lane].Joined?
  {
    RunKeeps(g, inst, m0, run, k);
    if Epoch(run[k]) == epoch {
      hide MemoryInv, Progress;
      j := k;
    } else {
      assert k > 0;
      RunKeeps(g, inst, m0, run, k - 1);
      assert run[k - 1 + 1] == run[k];
      hide MemoryInv, Progress, Next, Pattern;
      EpochMoves(g, inst, m0, run[k - 1], run[k]);
      ThreadsMoveOn(g, inst, m0, run[k - 1], run[k], lane);
      if Epoch(run[k - 1]) > epoch {
        j := SliceWasLeft(g, inst, m0, run, epoch, lane, k - 1);
      } else {
        j := k - 1;
      }
    }
  }

  /** In every finished run, for every slice and every lane: one step creates the thread, a later one joins
      it, and no other step does either. */
  lemma CreatedAndJoinedOnce(g: Compressor, inst: Instance, m0: seq<Block>, run: seq<State>, pass: nat, slice: nat,
                             lane: nat)
    returns (c: nat, j: nat)
    requires inst.Valid() && |m0| == inst.memoryBlocks && Run(g, inst, m0, run) && run[|run| - 1].main.Done?
    requires pass < inst.passes && slice < SYNC_POINTS && lane < inst.lanes
    ensures var epoch := SYNC_POINTS * pass + slice;
      && c < j && CreatedAt(run, epoch, lane, c) && JoinedAt(run, epoch, lane, j)
      && (forall k :: CreatedAt(run, epoch, lane, k) ==> k == c)
      && (forall k :: JoinedAt(run, epoch, lane, k) ==> k == j)
  {
    var epoch, last := SYNC_POINTS * pass + slice, |run| - 1;
    EndOfRun(g, inst, m0, run, epoch);
    hide Run, CreatedAt, JoinedAt, Reaches, Epoch, Stage;
    var n := SliceWasLeft(g, inst, m0, run, epoch, lane, last);
    StageOfJoined(run[n].threads[lane]);
    c := StageWasReached(g, inst, m0, run, lane, 1, n);
    j := StageWasReached(g, inst, m0, run, lane, 3, n);
    ReachesInRun(run, epoch, lane, c, j);
    StagesAreSteps(g, inst, m0, run, epoch, lane, c);
    StagesAreSteps(g, inst, m0, run, epoch, lane, j);
    CreatedFirst(g, inst, m0, run, epoch, lane, c, j);
    forall k | CreatedAt(run, epoch, lane, k) ensures k == c { SameStep(g, inst, m0, run, epoch, lane, c, k); }
    forall k | JoinedAt(run, epoch, lane, k) ensures k == j { SameStep(g, inst, m0, run, epoch, lane, j, k); }
  }

  lemma StageOfJoined(t: Thread)
    ensures t.Joined? <==> Stage(t) == 3
  {
  }

  lemma ReachesInRun(run: seq<State>, epoch: nat, lane: nat, c: nat, j: nat)
    requires Reaches(run, epoch, lane, 1, c) && Reaches(run, epoch, lane, 3, j)
    ensures c + 1 < |run| && j + 1 < |run|
  {
  }

  lemma EndOfRun(g: Compressor, inst: Instance, m0: seq<Block>, run: seq<State>, epoch: nat)
    requires inst.Valid() && |m0| == inst.memoryBlocks && Run(g, inst, m0, run) && run[|run| - 1].main.Done?
    requires epoch < SYNC_POINTS * inst.passes
    ensures Epoch(run[|run| - 1]) >= epoch
  {
    RunKeeps(g, inst, m0, run, |run| - 1);
    hide MemoryInv, Progress, Pattern;
  }

  lemma CreatedFirst(g: Compressor, inst: Instance, m0: seq<Block>, run: seq<State>, epoch: nat, lane: nat, c: nat,
                     j: nat)
    requires inst.Valid() && |m0| == inst.memoryBlocks && Run(g, inst, m0, run) && lane < inst.lanes
    requires Reaches(run, epoch, lane, 1, c) && Reaches(run, epoch, lane, 3, j)
    ensures c < j
  {
    hide Run, Stage, Epoch;
    if j < c {
      StageKept(g, inst, m0, run, lane, j + 1, c);
    }
  }

  lemma SameStep(g: Compressor, inst: Instance, m0: seq<Block>, run: seq<State>, epoch: nat, lane: nat, j: nat, k: nat)
    requires inst.Valid() && |m0| == inst.memoryBlocks && Run(g, inst, m0, run) && lane < inst.lanes
    requires (CreatedAt(run, epoch, lane, j) && CreatedAt(run, epoch, lane, k))
          || (JoinedAt(run, epoch, lane, j) && JoinedAt(run, epoch, lane, k))
    ensures j == k
  {
    assert j + 1 < |run| && k + 1 < |run|;
    hide Run, CreatedAt, JoinedAt, Reaches;
    StagesAreSteps(g, inst, m0, run, epoch, lane, j);
    StagesAreSteps(g, inst, m0, run, epoch, lane, k);
    var stage := if CreatedAt(run, epoch, lane, j) && CreatedAt(run, epoch, lane, k) then 1 else 3;
    ReachedOnce(g, inst, m0, run, epoch, lane, stage, j, k);
  }
}
