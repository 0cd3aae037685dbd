/** Instance and position of the core, and the layout of the memory (argon2/src/core.h). */
module Instances {
  import opened Options
  import opened Arithmetic

  const SYNC_POINTS: nat := 4
  const TWO32: nat := 0x1_0000_0000

  type u32 = x: int | 0 <= x < 0x1_0000_0000

  datatype Variant = Argon2d | Argon2i | Argon2id

  /** argon2_type: the enumeration is an int in C, so other values can be passed. */
  function VariantOf(code: int): Option<Variant> {
    if code == 0 then Some(Argon2d) else if code == 1 then Some(Argon2i) else if code == 2 then Some(Argon2id) else None
  }

  const VERSION_10: nat := 0x10
  const VERSION_13: nat := 0x13

  datatype Instance = Instance(
    version: u32,
    passes: u32,
    memoryBlocks: u32,
    segmentLength: u32,
    laneLength: u32,
    lanes: u32,
    threads: u32,
    variant: Variant
  ) {
    /** What argon2_ctx establishes before it fills the memory. */
    ghost predicate Valid() {
      && segmentLength >= 2
      && laneLength == SYNC_POINTS * segmentLength
      && lanes >= 1
      && memoryBlocks == Times(lanes, laneLength)
      && 1 <= threads <= lanes
      && passes >= 1
    }

    /** Index in the memory of block `offset` of a lane. */
    function At(lane: nat, offset: nat): nat { Times(lane, laneLength) + offset }
  }

  /** Offset of the first block of a slice: slice * segmentLength, written without a product. */
  function SliceStart(inst: Instance, slice: nat): nat {
    if slice == 0 then 0
    else if slice == 1 then inst.segmentLength
    else if slice == 2 then 2 * inst.segmentLength
    else if slice == 3 then 3 * inst.segmentLength
    else 4 * inst.segmentLength
  }

  lemma SliceStartIsProduct(inst: Instance, slice: nat)
    requires slice <= SYNC_POINTS
    ensures SliceStart(inst, slice) == slice * inst.segmentLength
  {
  }

  datatype Position = Position(pass: nat, lane: nat, slice: nat, index: nat) {
    /** The first two blocks of each lane exist before the first slice of the first pass. */
    function Start(): nat { if pass == 0 && slice == 0 then 2 else 0 }

    /** A position at which fill_segment builds a block. */
    ghost predicate Reachable(inst: Instance) {
      && pass < inst.passes && lane < inst.lanes && slice < SYNC_POINTS
      && Start() <= index < inst.segmentLength
    }

    /** Offset in its lane of the block being built. */
    function Offset(inst: Instance): nat { SliceStart(inst, slice) + index }

    /** Offset in its lane of the block built just before: the last one when at the start. */
    function Previous(inst: Instance): int {
      if Offset(inst) == 0 then inst.laneLength - 1 else Offset(inst) - 1
    }
  }

  lemma OffsetInLane(inst: Instance, pos: Position)
    requires inst.Valid() && pos.slice < SYNC_POINTS && pos.index < inst.segmentLength
    ensures pos.Offset(inst) < inst.laneLength
  {
  }

  /** Lane and offset name every block of the memory once. */
  lemma LayoutIsOneToOne(inst: Instance, lane: nat, offset: nat)
    requires inst.Valid() && lane < inst.lanes && offset < inst.laneLength
    ensures inst.At(lane, offset) < inst.memoryBlocks
    ensures inst.At(lane, offset) / inst.laneLength == lane && inst.At(lane, offset) % inst.laneLength == offset
  {
    var q := inst.laneLength;
    assert lane * q + q <= inst.lanes * q by {
      assert lane * q + q == (lane + 1) * q;
      MulMono(lane + 1, inst.lanes, q);
    }
    DivModUnique(lane, q, offset);
  }

  /** Every block of the memory has a lane and an offset. */
  lemma BlockOf(inst: Instance, n: nat)
    requires inst.Valid() && n < inst.memoryBlocks
    ensures 0 <= n / inst.laneLength < inst.lanes && 0 <= n % inst.laneLength < inst.laneLength
    ensures inst.At(n / inst.laneLength, n % inst.laneLength) == n
  {
    DivMod(n, inst.laneLength);
    var d := n / inst.laneLength;
    if d >= inst.lanes {
      MulMono(inst.lanes, d, inst.laneLength);
    }
  }
}
