/** What fill_segment computes: the blocks of a segment as a function of the memory before it.

    The compression is a parameter `g`, used as G(previous, reference) with the old block to be
    xored over when there is one. */
module Fill {
  import opened Options
  import opened Words
  import opened Instances
  import opened IndexAlphas

  const ADDRESSES_IN_BLOCK: nat := 128

  type Block = b: seq<word> | |b| == ADDRESSES_IN_BLOCK witness seq(ADDRESSES_IN_BLOCK, _ => 0)
  type Compressor = (Block, Block, Option<Block>) -> Block

  function ZeroBlock(): Block { seq(ADDRESSES_IN_BLOCK, _ => 0) }

  /** The two halves of a pseudo-random word: J1 and J2. */
  function J1(w: word): u32 { (w as int) % TWO32 }

  function J2(w: word): u32 { (w as int) / TWO32 }

  function TypeCode(v: Variant): nat {
    match v
    case Argon2d => 0
    case Argon2i => 1
    case Argon2id => 2
  }

  predicate DataIndependent(inst: Instance, pos: Position) {
    inst.variant == Argon2i || (inst.variant == Argon2id && pos.pass == 0 && pos.slice < SYNC_POINTS / 2)
  }

  /** The input block of the address generator, with its counter (section 3.4.1.2 of RFC 9106). */
  function InputBlock(inst: Instance, pos: Position, counter: nat): Block
    requires pos.pass < TWO32 && pos.lane < TWO32 && pos.slice < SYNC_POINTS
  {
    [Word(pos.pass), Word(pos.lane), Word(pos.slice), Word(inst.memoryBlocks), Word(inst.passes),
     Word(TypeCode(inst.variant)), Word(counter)] + ZeroBlock()[7..]
  }

  function AddressBlock(g: Compressor, inst: Instance, pos: Position, counter: nat): Block
    requires pos.pass < TWO32 && pos.lane < TWO32 && pos.slice < SYNC_POINTS
  {
    g(ZeroBlock(), g(ZeroBlock(), InputBlock(inst, pos, counter), None), None)
  }

  ghost predicate Ready(inst: Instance, pos: Position, m: seq<Block>) {
    inst.Valid() && pos.Reachable(inst) && |m| == inst.memoryBlocks
  }

  /** Index in the memory of the block being built, and of the one before it. */
  function Current(inst: Instance, pos: Position): nat { inst.At(pos.lane, pos.Offset(inst)) }

  function Previous(inst: Instance, pos: Position): nat
    requires inst.laneLength > 0
  {
    inst.At(pos.lane, pos.Previous(inst))
  }

  lemma PositionsInMemory(inst: Instance, pos: Position)
    requires inst.Valid() && pos.Reachable(inst)
    ensures Current(inst, pos) < inst.memoryBlocks && Previous(inst, pos) < inst.memoryBlocks
    ensures pos.Offset(inst) < inst.laneLength && 0 <= pos.Previous(inst) < inst.laneLength
  {
    OffsetInLane(inst, pos);
    LayoutIsOneToOne(inst, pos.lane, pos.Offset(inst));
    LayoutIsOneToOne(inst, pos.lane, pos.Previous(inst));
  }

  /** The word that decides the reference block. */
  function PseudoRand(g: Compressor, inst: Instance, pos: Position, m: seq<Block>): word
    requires Ready(inst, pos, m)
  {
    PositionsInMemory(inst, pos);
    if DataIndependent(inst, pos) then
      AddressBlock(g, inst, pos, pos.index / ADDRESSES_IN_BLOCK + 1)[pos.index % ADDRESSES_IN_BLOCK]
    else
      m[Previous(inst, pos)][0]
  }

  function RefLane(inst: Instance, pos: Position, rand: word): nat
    requires inst.lanes > 0
  {
    if pos.pass == 0 && pos.slice == 0 then pos.lane else J2(rand) % inst.lanes
  }

  /** Index in the memory of the block a pseudo-random word refers to. */
  function Reference(inst: Instance, pos: Position, rand: word): nat
    requires inst.lanes > 0 && inst.laneLength > 0
  {
    var lane := RefLane(inst, pos, rand);
    inst.At(lane, IndexAlpha(inst, pos, J1(rand), lane == pos.lane))
  }

  predicate XorsOver(inst: Instance, pos: Position) { inst.version != VERSION_10 && pos.pass != 0 }

  /** The blocks whose contents a step at `pos` may depend on. */
  predicate Reads(inst: Instance, pos: Position, n: nat)
    requires inst.laneLength > 0
  {
    || n == Previous(inst, pos)
    || (XorsOver(inst, pos) && n == Current(inst, pos))
    || (var sameLane := n / inst.laneLength == pos.lane;
        && (pos.pass == 0 && pos.slice == 0 ==> sameLane)
        && Allowed(inst, pos, sameLane, n % inst.laneLength))
  }

  lemma ReferenceIsRead(inst: Instance, pos: Position, rand: word)
    requires inst.Valid() && pos.Reachable(inst)
    ensures Reference(inst, pos, rand) < inst.memoryBlocks && Reads(inst, pos, Reference(inst, pos, rand))
  {
    var lane := RefLane(inst, pos, rand);
    var o := IndexAlpha(inst, pos, J1(rand), lane == pos.lane);
    IndexAlphaAllowed(inst, pos, J1(rand), lane == pos.lane);
    LayoutIsOneToOne(inst, lane, o);
  }

  /** The block built at `pos`. */
  function NewBlock(g: Compressor, inst: Instance, pos: Position, m: seq<Block>): Block
    requires Ready(inst, pos, m)
  {
    PositionsInMemory(inst, pos);
    var rand := PseudoRand(g, inst, pos, m);
    ReferenceIsRead(inst, pos, rand);
    g(m[Previous(inst, pos)], m[Reference(inst, pos, rand)],
      if XorsOver(inst, pos) then Some(m[Current(inst, pos)]) else None)
  }

  /** The memory after building the block at `pos`. */
  function Step(g: Compressor, inst: Instance, pos: Position, m: seq<Block>): (m': seq<Block>)
    requires Ready(inst, pos, m)
    ensures |m'| == |m|
  {
    PositionsInMemory(inst, pos);
    m[Current(inst, pos) := NewBlock(g, inst, pos, m)]
  }

  ghost predicate SegmentReady(inst: Instance, pos: Position, n: nat, m: seq<Block>) {
    && inst.Valid() && |m| == inst.memoryBlocks
    && pos.pass < inst.passes && pos.lane < inst.lanes && pos.slice < SYNC_POINTS
    && pos.Start() <= n <= inst.segmentLength
  }

  /** The memory once the blocks of a segment before index `n` are built. */
  function SegmentTo(g: Compressor, inst: Instance, pos: Position, n: nat, m: seq<Block>): (m': seq<Block>)
    requires SegmentReady(inst, pos, n, m)
    ensures |m'| == |m|
    decreases n
  {
    if n == pos.Start() then m
    else Step(g, inst, pos.(index := n - 1), SegmentTo(g, inst, pos, n - 1, m))
  }

  lemma SegmentStart(g: Compressor, inst: Instance, position: Position, m: seq<Block>)
    requires SegmentReady(inst, position, position.Start(), m)
    ensures SegmentTo(g, inst, position, position.Start(), m) == m
  {
  }

  lemma SegmentStep(g: Compressor, inst: Instance, position: Position, n: nat, m: seq<Block>)
    requires SegmentReady(inst, position, n, m) && n < inst.segmentLength
    ensures Ready(inst, position.(index := n), SegmentTo(g, inst, position, n, m))
    ensures SegmentTo(g, inst, position, n + 1, m)
         == Step(g, inst, position.(index := n), SegmentTo(g, inst, position, n, m))
  {
    hide Step;
  }

  /** A step depends on the blocks it reads and on nothing else. */
  lemma StepReads(g: Compressor, inst: Instance, pos: Position, m: seq<Block>, m': seq<Block>)
    requires Ready(inst, pos, m) && Ready(inst, pos, m')
    requires forall n :: 0 <= n < |m| && Reads(inst, pos, n) ==> m[n] == m'[n]
    ensures PseudoRand(g, inst, pos, m) == PseudoRand(g, inst, pos, m')
    ensures NewBlock(g, inst, pos, m) == NewBlock(g, inst, pos, m')
  {
    PositionsInMemory(inst, pos);
    ReferenceIsRead(inst, pos, PseudoRand(g, inst, pos, m));
    hide Reference, AddressBlock, Previous, Current;
  }
}
