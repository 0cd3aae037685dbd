/** fill_segment of ref.c and of opt.c, in place on the memory of an instance. */
module Segments {
  import opened Options
  import opened Blamka
  import opened Words
  import opened Arithmetic
  import opened Instances
  import opened IndexAlphas
  import opened Fill

  /** The compression of both builds. */
  const KERNEL: Compressor := (prev, ref, over) => Compress(OPS, prev, ref, over)

  /** The memory of an instance: different blocks of 128 words. */
  ghost predicate IsMemory(mem: seq<array<word>>) {
    && (forall n :: 0 <= n < |mem| ==> mem[n].Length == ADDRESSES_IN_BLOCK)
    && (forall j, k :: 0 <= j < k < |mem| ==> mem[j] != mem[k])
  }

  ghost function View(mem: seq<array<word>>): (m: seq<Block>)
    requires IsMemory(mem)
    reads mem
    ensures |m| == |mem|
    ensures forall n :: 0 <= n < |mem| ==> m[n] == mem[n][..]
  {
    seq(|mem|, n requires 0 <= n < |mem| && IsMemory(mem) reads mem => mem[n][..])
  }

  method InitBlockValue(b: array<word>)
    requires b.Length == ADDRESSES_IN_BLOCK
    modifies b
    ensures b[..] == ZeroBlock()
  {
    for i := 0 to b.Length
      invariant forall k :: 0 <= k < i ==> b[k] == 0
    {
      b[i] := 0;
    }
  }

  lemma WordStep(n: nat)
    ensures Word(n + 1) == Word(n) + 1
  {
  }

  method SetInput(inst: Instance, pos: Position, input: array<word>)
    requires pos.pass < TWO32 && pos.lane < TWO32 && pos.slice < SYNC_POINTS
    requires input.Length == ADDRESSES_IN_BLOCK
    modifies input
    ensures input[..] == InputBlock(inst, pos, 0)
  {
    assert ZeroBlock()[6] == Word(0);
    hide Word, ZeroBlock;
    InitBlockValue(input);
    input[0] := Word(pos.pass);
    input[1] := Word(pos.lane);
    input[2] := Word(pos.slice);
    input[3] := Word(inst.memoryBlocks);
    input[4] := Word(inst.passes);
    input[5] := Word(TypeCode(inst.variant));
  }

  method IncrementCounter(input: array<word>, ghost inst: Instance, ghost pos: Position, ghost counter: nat)
    requires pos.pass < TWO32 && pos.lane < TWO32 && pos.slice < SYNC_POINTS
    requires input.Length == ADDRESSES_IN_BLOCK && input[..] == InputBlock(inst, pos, counter)
    modifies input
    ensures input[..] == InputBlock(inst, pos, counter + 1)
  {
    WordStep(counter);
    hide Word;
    input[6] := input[6] + 1;
  }

  method NextAddresses(address: array<word>, input: array<word>, zero: array<word>,
                       ghost inst: Instance, ghost pos: Position, ghost counter: nat)
    requires pos.pass < TWO32 && pos.lane < TWO32 && pos.slice < SYNC_POINTS
    requires address.Length == input.Length == zero.Length == ADDRESSES_IN_BLOCK
    requires address != input && address != zero && input != zero
    requires zero[..] == ZeroBlock() && input[..] == InputBlock(inst, pos, counter)
    modifies address, input
    ensures input[..] == InputBlock(inst, pos, counter + 1)
    ensures address[..] == AddressBlock(KERNEL, inst, pos, counter + 1)
  {
    hide Compress, InputBlock;
    IncrementCounter(input, inst, pos, counter);
    FillBlockRef(OPS, zero, input, address, false);
    FillBlockRef(OPS, zero, address, address, false);
  }

  /** Number of address blocks generated before index `i` is reached. */
  function Generated(i: nat): nat { (i + ADDRESSES_IN_BLOCK - 1) / ADDRESSES_IN_BLOCK }

  /** The address generator at the head of the loop. */
  ghost predicate AddressesReady(inst: Instance, pos: Position, i: nat, address: seq<word>, input: seq<word>)
    requires pos.pass < TWO32 && pos.lane < TWO32 && pos.slice < SYNC_POINTS
  {
    && input == InputBlock(inst, pos, Generated(i))
    && (i % ADDRESSES_IN_BLOCK != 0 ==> address == AddressBlock(KERNEL, inst, pos, i / ADDRESSES_IN_BLOCK + 1))
  }

  lemma GeneratedStep(i: nat)
    ensures i % ADDRESSES_IN_BLOCK == 0 ==> Generated(i) == i / ADDRESSES_IN_BLOCK
    ensures i % ADDRESSES_IN_BLOCK != 0 ==> Generated(i) == i / ADDRESSES_IN_BLOCK + 1
    ensures Generated(i + 1) == i / ADDRESSES_IN_BLOCK + 1
    ensures (i + 1) % ADDRESSES_IN_BLOCK != 0 ==> (i + 1) / ADDRESSES_IN_BLOCK == i / ADDRESSES_IN_BLOCK
  {
  }

  /** The offsets the loop keeps: the current block, and the one before it unless the lane has just
      started again, when the next turn of the loop puts it right. */
  ghost predicate OffsetsReady(inst: Instance, pos: Position, curr: int, prev: int)
    requires inst.Valid()
  {
    && 0 <= curr && 0 <= prev
    && curr == Current(inst, pos)
    && curr <= inst.memoryBlocks && prev <= inst.memoryBlocks
    && (pos.index < inst.segmentLength && pos.Offset(inst) != 1 ==> prev == Previous(inst, pos))
  }

  lemma OffsetsAt(inst: Instance, pos: Position, curr: int)
    requires inst.Valid() && pos.Reachable(inst) && curr == Current(inst, pos)
    ensures curr < inst.memoryBlocks && curr % inst.laneLength == pos.Offset(inst)
    ensures Previous(inst, pos) == if curr % inst.laneLength == 0 then curr + inst.laneLength - 1 else curr - 1
    ensures Previous(inst, pos) < inst.memoryBlocks
  {
    PositionsInMemory(inst, pos);
    LayoutIsOneToOne(inst, pos.lane, pos.Offset(inst));
  }

  /** What a turn of the loop makes of the offsets it finds. */
  lemma OffsetsTurn(inst: Instance, position: Position, i: nat, curr: int, prev: int)
    requires inst.Valid() && position.(index := i).Reachable(inst)
    requires OffsetsReady(inst, position.(index := i), curr, prev)
    ensures var prev' := if curr % inst.laneLength == 1 then curr - 1 else prev;
      && 0 <= curr < inst.memoryBlocks && curr == Current(inst, position.(index := i))
      && 0 <= prev' < inst.memoryBlocks && prev' == Previous(inst, position.(index := i))
      && OffsetsReady(inst, position.(index := i + 1), curr + 1, prev' + 1)
  {
    OffsetsAt(inst, position.(index := i), curr);
  }

  lemma ProductIsTimes(a: nat, b: nat)
    ensures a * b == b * a == Times(a, b)
  {
  }

  method FirstOffsets(inst: Instance, position: Position, startingIndex: u32) returns (currOffset: u32, prevOffset: u32)
    requires inst.Valid() && position.lane < inst.lanes && position.slice < SYNC_POINTS
    requires startingIndex == position.Start()
    ensures OffsetsReady(inst, position.(index := startingIndex), currOffset, prevOffset)
    ensures prevOffset < inst.memoryBlocks
    ensures startingIndex < inst.segmentLength ==> prevOffset == Previous(inst, position.(index := startingIndex))
  {
    hide Times;
    SliceBounds(inst, position.slice);
    SliceStartIsProduct(inst, position.slice);
    ProductIsTimes(position.lane, inst.laneLength);
    hide SliceStart;
    ghost var o := SliceStart(inst, position.slice) + startingIndex;
    LayoutIsOneToOne(inst, position.lane, o);
    var curr := position.lane * inst.laneLength + position.slice * inst.segmentLength + startingIndex;
    assert curr == inst.At(position.lane, o);
    currOffset := curr;
    if currOffset % inst.laneLength == 0 {
      LayoutIsOneToOne(inst, position.lane, inst.laneLength - 1);
      prevOffset := currOffset + inst.laneLength - 1;
    } else {
      prevOffset := currOffset - 1;
    }
  }

  /** The block computed from what the pointers refer to is the new block. */
  lemma StoredIsStep(inst: Instance, pos: Position, rand: word, m: seq<Block>, m': seq<Block>)
    requires Ready(inst, pos, m) && |m'| == |m|
    requires rand == PseudoRand(KERNEL, inst, pos, m)
    requires Current(inst, pos) < |m| && Previous(inst, pos) < |m| && Reference(inst, pos, rand) < |m|
    requires forall n :: 0 <= n < |m| && n != Current(inst, pos) ==> m'[n] == m[n]
    requires m'[Current(inst, pos)] == KERNEL(m[Previous(inst, pos)], m[Reference(inst, pos, rand)],
                                              if XorsOver(inst, pos) then Some(m[Current(inst, pos)]) else None)
    ensures m' == Step(KERNEL, inst, pos, m)
  {
    hide PseudoRand, Reference;
  }

  method ReferenceBlock(inst: Instance, pos: Position, pseudoRand: word) returns (refBlock: u32)
    requires inst.Valid() && pos.Reachable(inst)
    ensures refBlock == Reference(inst, pos, pseudoRand) < inst.memoryBlocks
  {
    hide IndexAlpha, J1, J2, Reads, Times;
    ReferenceIsRead(inst, pos, pseudoRand);
    var refLane: u32 := J2(pseudoRand) % inst.lanes;
    if pos.pass == 0 && pos.slice == 0 {
      refLane := pos.lane;
    }
    var refIndex := IndexAlpha(inst, pos, J1(pseudoRand), refLane == pos.lane);
    ProductIsTimes(refLane, inst.laneLength);
    refBlock := inst.laneLength * refLane + refIndex;
  }

  /** The rest of a turn of the loop, once the pseudo-random word is known. */
  method BuildBlockRef(inst: Instance, pos: Position, mem: seq<array<word>>, pseudoRand: word, prevOffset: u32,
                       currOffset: u32)
    requires IsMemory(mem) && Ready(inst, pos, View(mem))
    requires currOffset == Current(inst, pos) && prevOffset == Previous(inst, pos)
    requires pseudoRand == PseudoRand(KERNEL, inst, pos, View(mem))
    modifies mem
    ensures View(mem) == Step(KERNEL, inst, pos, old(View(mem)))
  {
    hide Compress, PseudoRand, Step, NewBlock, Reference, Current, Previous;
    ghost var m := View(mem);
    PositionsInMemory(inst, pos);
    var refBlock := ReferenceBlock(inst, pos, pseudoRand);
    if inst.version == VERSION_10 {
      FillBlockRef(OPS, mem[prevOffset], mem[refBlock], mem[currOffset], false);
    } else if pos.pass == 0 {
      FillBlockRef(OPS, mem[prevOffset], mem[refBlock], mem[currOffset], false);
    } else {
      FillBlockRef(OPS, mem[prevOffset], mem[refBlock], mem[currOffset], true);
    }
    StoredIsStep(inst, pos, pseudoRand, m, View(mem));
  }

  /** What comes before the loop: the input block, and the early first block of addresses when the
      loop starts at its third index. */
  method InitAddresses(inst: Instance, position: Position, address: array<word>, input: array<word>, zero: array<word>)
    returns (startingIndex: u32)
    requires position.pass < TWO32 && position.lane < TWO32 && position.slice < SYNC_POINTS
    requires address.Length == input.Length == zero.Length == ADDRESSES_IN_BLOCK
    requires address != input && address != zero && input != zero
    modifies address, input, zero
    ensures startingIndex == position.Start()
    ensures DataIndependent(inst, position) ==> zero[..] == ZeroBlock()
    ensures DataIndependent(inst, position) ==>
      AddressesReady(inst, position, startingIndex, address[..], input[..])
  {
    hide InputBlock, AddressBlock;
    var independent := DataIndependent(inst, position);
    if independent {
      InitBlockValue(zero);
      SetInput(inst, position, input);
    }
    startingIndex := 0;
    if position.pass == 0 && position.slice == 0 {
      startingIndex := 2;
      if independent {
        NextAddresses(address, input, zero, inst, position, 0);
      }
    }
  }

  /** The pseudo-random word of one turn of the loop, from the address block or from the memory. */
  method TakeRand(inst: Instance, pos: Position, mem: seq<array<word>>,
                  address: array<word>, input: array<word>, zero: array<word>, prevOffset: u32)
    returns (pseudoRand: word)
    requires prevOffset < |mem| && mem[prevOffset].Length == ADDRESSES_IN_BLOCK
    requires pos.pass < TWO32 && pos.lane < TWO32 && pos.slice < SYNC_POINTS
    requires address.Length == input.Length == zero.Length == ADDRESSES_IN_BLOCK
    requires address != input && address != zero && input != zero
    requires DataIndependent(inst, pos) ==> zero[..] == ZeroBlock()
    requires DataIndependent(inst, pos) ==> AddressesReady(inst, pos, pos.index, address[..], input[..])
    modifies address, input
    ensures RandTaken(inst, pos, address[..], input[..], old(mem[prevOffset][..]), pseudoRand)
  {
    hide InputBlock, AddressBlock, DataIndependent, Word;
    if DataIndependent(inst, pos) {
      GeneratedStep(pos.index);
      if pos.index % ADDRESSES_IN_BLOCK == 0 {
        NextAddresses(address, input, zero, inst, pos, Generated(pos.index));
      }
      pseudoRand := address[pos.index % ADDRESSES_IN_BLOCK];
    } else {
      pseudoRand := mem[prevOffset][0];
    }
  }

  /** What taking a pseudo-random word leaves. */
  ghost predicate RandTaken(inst: Instance, pos: Position, address: seq<word>, input: seq<word>, prev: seq<word>,
                            rand: word)
    requires pos.pass < TWO32 && pos.lane < TWO32 && pos.slice < SYNC_POINTS
    requires |address| == |prev| == ADDRESSES_IN_BLOCK
  {
    if DataIndependent(inst, pos) then
      && input == InputBlock(inst, pos, pos.index / ADDRESSES_IN_BLOCK + 1)
      && address == AddressBlock(KERNEL, inst, pos, pos.index / ADDRESSES_IN_BLOCK + 1)
      && rand == address[pos.index % ADDRESSES_IN_BLOCK]
    else
      rand == prev[0]
  }

  lemma RandTakenIsRand(inst: Instance, pos: Position, m: seq<Block>, address: seq<word>, input: seq<word>, rand: word)
    requires Ready(inst, pos, m) && Previous(inst, pos) < |m|
    requires |address| == ADDRESSES_IN_BLOCK
    requires RandTaken(inst, pos, address, input, m[Previous(inst, pos)], rand)
    ensures rand == PseudoRand(KERNEL, inst, pos, m)
    ensures DataIndependent(inst, pos) ==> AddressesReady(inst, pos, pos.index + 1, address, input)
  {
    hide InputBlock, AddressBlock, Previous, Times, Generated;
    GeneratedStep(pos.index);
  }

  lemma AddressesOf(inst: Instance, position: Position, n: nat, i: nat, address: seq<word>, input: seq<word>)
    requires position.pass < TWO32 && position.lane < TWO32 && position.slice < SYNC_POINTS
    ensures DataIndependent(inst, position.(index := n)) == DataIndependent(inst, position)
    ensures AddressesReady(inst, position.(index := n), i, address, input)
         == AddressesReady(inst, position, i, address, input)
  {
  }

  /** The scratch blocks of fill_segment are not in the memory. */
  ghost predicate Scratch(mem: seq<array<word>>, address: array<word>, input: array<word>) {
    && address.Length == input.Length == ADDRESSES_IN_BLOCK && address != input
    && address !in mem && input !in mem
  }

  ghost predicate ZeroScratch(inst: Instance, pos: Position, mem: seq<array<word>>, address: array<word>,
                              input: array<word>, zero: array<word>)
    reads zero
  {
    && zero.Length == ADDRESSES_IN_BLOCK && zero != address && zero != input && zero !in mem
    && (DataIndependent(inst, pos) ==> zero[..] == ZeroBlock())
  }

  /** What holds at the head of the loop of fill_segment. */
  ghost predicate LoopHead(inst: Instance, position: Position, i: nat, m0: seq<Block>, m: seq<Block>,
                           address: seq<word>, input: seq<word>, currOffset: int, prevOffset: int)
    requires SegmentReady(inst, position, i, m0)
  {
    && OffsetsReady(inst, position.(index := i), currOffset, prevOffset)
    && (DataIndependent(inst, position) ==> AddressesReady(inst, position, i, address, input))
    && m == SegmentTo(KERNEL, inst, position, i, m0)
  }

  lemma LoopEnd(inst: Instance, position: Position, m0: seq<Block>, m: seq<Block>,
                address: seq<word>, input: seq<word>, currOffset: int, prevOffset: int)
    requires SegmentReady(inst, position, inst.segmentLength, m0)
    requires LoopHead(inst, position, inst.segmentLength, m0, m, address, input, currOffset, prevOffset)
    ensures m == SegmentTo(KERNEL, inst, position, inst.segmentLength, m0)
  {
  }

  /** One turn of the loop. */
  method TurnRef(inst: Instance, position: Position, i: u32, mem: seq<array<word>>, ghost m0: seq<Block>,
                 address: array<word>, input: array<word>, zero: array<word>, currOffset: u32, prevOffset: u32)
    returns (prevOffset': u32)
    requires IsMemory(mem) && Scratch(mem, address, input) && ZeroScratch(inst, position, mem, address, input, zero)
    requires SegmentReady(inst, position, i, m0) && i < inst.segmentLength
    requires LoopHead(inst, position, i, m0, View(mem), address[..], input[..], currOffset, prevOffset)
    modifies mem, address, input
    ensures currOffset + 1 < TWO32 && prevOffset' + 1 < TWO32
    ensures LoopHead(inst, position, i + 1, m0, View(mem), address[..], input[..], currOffset + 1, prevOffset' + 1)
  {
    hide Compress, InputBlock, AddressBlock, Step, NewBlock, PseudoRand, Current, Previous, OffsetsReady,
         AddressesReady, SegmentTo;
    var pos := position.(index := i);
    SegmentStep(KERNEL, inst, position, i, m0);
    AddressesOf(inst, position, i, i, address[..], input[..]);
    OffsetsTurn(inst, position, i, currOffset, prevOffset);
    prevOffset' := if currOffset % inst.laneLength == 1 then currOffset - 1 else prevOffset;
    var pseudoRand := TakeRand(inst, pos, mem, address, input, zero, prevOffset');
    RandTakenIsRand(inst, pos, View(mem), address[..], input[..], pseudoRand);
    AddressesOf(inst, position, i, i + 1, address[..], input[..]);
    BuildBlockRef(inst, pos, mem, pseudoRand, prevOffset', currOffset);
  }

  method LoopRef(inst: Instance, position: Position, startingIndex: u32, mem: seq<array<word>>, ghost m0: seq<Block>,
                 address: array<word>, input: array<word>, zero: array<word>, firstOffset: u32, firstPrevious: u32)
    requires IsMemory(mem) && Scratch(mem, address, input) && ZeroScratch(inst, position, mem, address, input, zero)
    requires SegmentReady(inst, position, startingIndex, m0)
    requires LoopHead(inst, position, startingIndex, m0, View(mem), address[..], input[..], firstOffset, firstPrevious)
    modifies mem, address, input
    ensures View(mem) == SegmentTo(KERNEL, inst, position, inst.segmentLength, m0)
  {
    hide LoopHead, Times, SegmentTo;
    var currOffset, prevOffset := firstOffset, firstPrevious;
    for i: u32 := startingIndex to inst.segmentLength
      invariant LoopHead(inst, position, i, m0, View(mem), address[..], input[..], currOffset, prevOffset)
    {
      var prev := TurnRef(inst, position, i, mem, m0, address, input, zero, currOffset, prevOffset);
      currOffset, prevOffset := currOffset + 1, prev + 1;
    }
    LoopEnd(inst, position, m0, View(mem), address[..], input[..], currOffset, prevOffset);
  }

  method FillSegmentRef(inst: Instance, position: Position, mem: seq<array<word>>)
    requires IsMemory(mem) && SegmentReady(inst, position, inst.segmentLength, View(mem))
    modifies mem
    ensures View(mem) == SegmentTo(KERNEL, inst, position, inst.segmentLength, old(View(mem)))
  {
    hide Times, Word, InputBlock, AddressBlock, OffsetsReady, AddressesReady, SegmentTo;
    var address := new word[ADDRESSES_IN_BLOCK];
    var input := new word[ADDRESSES_IN_BLOCK];
    var zero := new word[ADDRESSES_IN_BLOCK];
    var startingIndex := InitAddresses(inst, position, address, input, zero);
    var currOffset, prevOffset := FirstOffsets(inst, position, startingIndex);
    SegmentStart(KERNEL, inst, position, old(View(mem)));
    LoopRef(inst, position, startingIndex, mem, View(mem), address, input, zero, currOffset, prevOffset);
  }
}
