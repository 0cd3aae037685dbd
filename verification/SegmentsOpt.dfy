/** fill_segment of opt.c: the previous block travels in registers instead of being read again. */
module SegmentsOpt {
  import opened Blamka
  import opened Words
  import opened Arithmetic
  import opened Instances
  import opened Fill
  import opened Segments

  method ZeroState() returns (state: array<Reg<word>>)
    ensures fresh(state) && state.Length == REGS
    ensures WordsOf(state[..]) == ZeroBlock()
  {
    state := new Reg<word>[REGS];
    for k := 0 to REGS
      invariant forall j :: 0 <= j < k ==> state[j] == Reg(0, 0)
    {
      state[k] := Reg(0, 0);
    }
  }

  /** The copy of the previous block into the registers. */
  method LoadRegs(state: array<Reg<word>>, b: array<word>)
    requires state.Length == REGS && b.Length == WORDS
    modifies state
    ensures WordsOf(state[..]) == b[..]
  {
    for k := 0 to REGS
      invariant forall j :: 0 <= j < k ==> state[j] == RegAt(b[..], j)
      invariant b[..] == old(b[..])
    {
      state[k] := RegAt(b[..], k);
    }
    forall n | 0 <= n < WORDS ensures WordsOf(state[..])[n] == b[n] {
      assert state[n / 2] == RegAt(b[..], n / 2);
    }
  }

  method NextAddressesOpt(ssse3: bool, address: array<word>, input: array<word>,
                          ghost inst: Instance, ghost pos: Position, ghost counter: nat)
    requires pos.pass < TWO32 && pos.lane < TWO32 && pos.slice < SYNC_POINTS
    requires address.Length == input.Length == ADDRESSES_IN_BLOCK && address != input
    requires input[..] == InputBlock(inst, pos, counter)
    modifies address, input
    ensures input[..] == InputBlock(inst, pos, counter + 1)
    ensures address[..] == AddressBlock(KERNEL, inst, pos, counter + 1)
  {
    XorOps();
    hide Compress, InputBlock, WordsOf, XorCommutes;
    var zeroBlock := ZeroState();
    var zero2Block := ZeroState();
    IncrementCounter(input, inst, pos, counter);
    FillBlockOpt(OPS, ssse3, zeroBlock, input, address, false);
    FillBlockOpt(OPS, ssse3, zero2Block, address, address, false);
  }

  method InitAddressesOpt(ssse3: bool, inst: Instance, position: Position, address: array<word>, input: array<word>)
    returns (startingIndex: u32)
    requires position.pass < TWO32 && position.lane < TWO32 && position.slice < SYNC_POINTS
    requires address.Length == input.Length == ADDRESSES_IN_BLOCK && address != input
    modifies address, input
    ensures startingIndex == position.Start()
    ensures DataIndependent(inst, position) ==>
      AddressesReady(inst, position, startingIndex, address[..], input[..])
  {
    hide InputBlock, AddressBlock;
    var independent := DataIndependent(inst, position);
    if independent {
      SetInput(inst, position, input);
    }
    startingIndex := 0;
    if position.pass == 0 && position.slice == 0 {
      startingIndex := 2;
      if independent {
        NextAddressesOpt(ssse3, address, input, inst, position, 0);
      }
    }
  }

  method TakeRandOpt(ssse3: bool, inst: Instance, pos: Position, mem: seq<array<word>>,
                     address: array<word>, input: array<word>, prevOffset: u32) returns (pseudoRand: word)
    requires prevOffset < |mem| && mem[prevOffset].Length == ADDRESSES_IN_BLOCK
    requires pos.pass < TWO32 && pos.lane < TWO32 && pos.slice < SYNC_POINTS
    requires address.Length == input.Length == ADDRESSES_IN_BLOCK && address != input
    requires DataIndependent(inst, pos) ==> AddressesReady(inst, pos, pos.index, address[..], input[..])
    modifies address, input
    ensures RandTaken(inst, pos, address[..], input[..], old(mem[prevOffset][..]), pseudoRand)
  {
    hide InputBlock, AddressBlock, DataIndependent, Word;
    if DataIndependent(inst, pos) {
      GeneratedStep(pos.index);
      if pos.index % ADDRESSES_IN_BLOCK == 0 {
        NextAddressesOpt(ssse3, address, input, inst, pos, Generated(pos.index));
      }
      pseudoRand := address[pos.index % ADDRESSES_IN_BLOCK];
    } else {
      pseudoRand := mem[prevOffset][0];
    }
  }

  /** The registers hold the previous block on entry, and the new one on exit. */
  method BuildBlockOpt(ssse3: bool, inst: Instance, pos: Position, mem: seq<array<word>>, state: array<Reg<word>>,
                       pseudoRand: word, currOffset: u32)
    requires IsMemory(mem) && Ready(inst, pos, View(mem)) && state.Length == REGS
    requires currOffset == Current(inst, pos) && Previous(inst, pos) < |mem|
    requires WordsOf(state[..]) == View(mem)[Previous(inst, pos)]
    requires pseudoRand == PseudoRand(KERNEL, inst, pos, View(mem))
    modifies mem, state
    ensures View(mem) == Step(KERNEL, inst, pos, old(View(mem)))
    ensures currOffset < |mem| && WordsOf(state[..]) == View(mem)[currOffset]
  {
    XorOps();
    hide Compress, PseudoRand, Step, NewBlock, Reference, Current, Previous, XorCommutes, WordsOf, Times;
    ghost var m := View(mem);
    PositionsInMemory(inst, pos);
    var refBlock := ReferenceBlock(inst, pos, pseudoRand);
    if inst.version == VERSION_10 {
      FillBlockOpt(OPS, ssse3, state, mem[refBlock], mem[currOffset], false);
    } else if pos.pass == 0 {
      FillBlockOpt(OPS, ssse3, state, mem[refBlock], mem[currOffset], false);
    } else {
      FillBlockOpt(OPS, ssse3, state, mem[refBlock], mem[currOffset], true);
    }
    StoredIsStep(inst, pos, pseudoRand, m, View(mem));
  }

  /** The registers at the head of the loop: the block that prev_offset will name in this turn. */
  ghost predicate StateReady(inst: Instance, position: Position, i: nat, m: seq<Block>, state: seq<Reg<word>>)
    requires inst.laneLength > 0
  {
    i < inst.segmentLength ==>
      var prev := Previous(inst, position.(index := i));
      prev < |m| && WordsOf(state) == m[prev]
  }

  /** The block just built is the previous block of the next turn. */
  lemma BuiltIsPrevious(inst: Instance, position: Position, i: nat, m: seq<Block>, state: seq<Reg<word>>)
    requires inst.Valid() && Current(inst, position.(index := i)) < |m|
    requires WordsOf(state) == m[Current(inst, position.(index := i))]
    ensures StateReady(inst, position, i + 1, m, state)
  {
    hide Times, WordsOf;
  }

  lemma StateIsPrevious(inst: Instance, position: Position, i: nat, m: seq<Block>, state: seq<Reg<word>>)
    requires inst.Valid() && i < inst.segmentLength && StateReady(inst, position, i, m, state)
    ensures Previous(inst, position.(index := i)) < |m| && WordsOf(state) == m[Previous(inst, position.(index := i))]
  {
  }

  /** First part of a turn: the offset of the previous block and the pseudo-random word. */
  method PrepareOpt(ssse3: bool, inst: Instance, position: Position, i: u32, mem: seq<array<word>>, ghost m: seq<Block>,
                    address: array<word>, input: array<word>, currOffset: u32, prevOffset: u32)
    returns (prevOffset': u32, pseudoRand: word)
    requires IsMemory(mem) && Scratch(mem, address, input) && m == View(mem)
    requires Ready(inst, position.(index := i), m)
    requires OffsetsReady(inst, position.(index := i), currOffset, prevOffset)
    requires DataIndependent(inst, position) ==> AddressesReady(inst, position, i, address[..], input[..])
    modifies address, input
    ensures View(mem) == m
    ensures currOffset == Current(inst, position.(index := i)) && currOffset + 1 < TWO32 && prevOffset' + 1 < TWO32
    ensures pseudoRand == PseudoRand(KERNEL, inst, position.(index := i), m)
    ensures OffsetsReady(inst, position.(index := i + 1), currOffset + 1, prevOffset' + 1)
    ensures DataIndependent(inst, position) ==> AddressesReady(inst, position, i + 1, address[..], input[..])
  {
    hide Compress, InputBlock, AddressBlock, PseudoRand, Current, Previous, OffsetsReady, AddressesReady, Times;
    AddressesOf(inst, position, i, i, address[..], input[..]);
    OffsetsTurn(inst, position, i, currOffset, prevOffset);
    prevOffset' := if currOffset % inst.laneLength == 1 then currOffset - 1 else prevOffset;
    pseudoRand := TakeRandOpt(ssse3, inst, position.(index := i), mem, address, input, prevOffset');
    RandTakenIsRand(inst, position.(index := i), View(mem), address[..], input[..], pseudoRand);
    AddressesOf(inst, position, i, i + 1, address[..], input[..]);
  }

  method TurnOpt(ssse3: bool, inst: Instance, position: Position, i: u32, mem: seq<array<word>>, ghost m0: seq<Block>,
                 state: array<Reg<word>>, address: array<word>, input: array<word>, currOffset: u32, prevOffset: u32)
    returns (prevOffset': u32)
    requires IsMemory(mem) && Scratch(mem, address, input) && state.Length == REGS
    requires SegmentReady(inst, position, i, m0) && i < inst.segmentLength
    requires LoopHead(inst, position, i, m0, View(mem), address[..], input[..], currOffset, prevOffset)
    requires StateReady(inst, position, i, View(mem), state[..])
    modifies mem, address, input, state
    ensures currOffset + 1 < TWO32 && prevOffset' + 1 < TWO32
    ensures LoopHead(inst, position, i + 1, m0, View(mem), address[..], input[..], currOffset + 1, prevOffset' + 1)
    ensures StateReady(inst, position, i + 1, View(mem), state[..])
  {
    hide Compress, InputBlock, AddressBlock, Step, PseudoRand, Current, Previous, OffsetsReady, AddressesReady,
         SegmentTo, WordsOf, Times,
      StateReady, SliceStart;
    SegmentStep(KERNEL, inst, position, i, m0);
    StateIsPrevious(inst, position, i, View(mem), state[..]);
    var pseudoRand;
    prevOffset', pseudoRand := PrepareOpt(ssse3, inst, position, i, mem, View(mem), address, input, currOffset,
                                          prevOffset);
    BuildBlockOpt(ssse3, inst, position.(index := i), mem, state, pseudoRand, currOffset);
    BuiltIsPrevious(inst, position, i, View(mem), state[..]);
  }

  method LoopOpt(ssse3: bool, inst: Instance, position: Position, startingIndex: u32, mem: seq<array<word>>,
                 ghost m0: seq<Block>, state: array<Reg<word>>, address: array<word>, input: array<word>,
                 firstOffset: u32, firstPrevious: u32)
    requires IsMemory(mem) && Scratch(mem, address, input) && state.Length == REGS
    requires SegmentReady(inst, position, startingIndex, m0)
    requires LoopHead(inst, position, startingIndex, m0, View(mem), address[..], input[..], firstOffset, firstPrevious)
    requires StateReady(inst, position, startingIndex, View(mem), state[..])
    modifies mem, address, input, state
    ensures View(mem) == SegmentTo(KERNEL, inst, position, inst.segmentLength, m0)
  {
    hide LoopHead, StateReady, Times, SegmentTo;
    var currOffset, prevOffset := firstOffset, firstPrevious;
    for i: u32 := startingIndex to inst.segmentLength
      invariant LoopHead(inst, position, i, m0, View(mem), address[..], input[..], currOffset, prevOffset)
      invariant StateReady(inst, position, i, View(mem), state[..])
    {
      var prev := TurnOpt(ssse3, inst, position, i, mem, m0, state, address, input, currOffset, prevOffset);
      currOffset, prevOffset := currOffset + 1, prev + 1;
    }
    LoopEnd(inst, position, m0, View(mem), address[..], input[..], currOffset, prevOffset);
  }

  /** The same memory as FillSegmentRef, for every type, version, pass, slice and lane. */
  method FillSegmentOpt(ssse3: bool, inst: Instance, position: Position, mem: seq<array<word>>)
    requires IsMemory(mem) && SegmentReady(inst, position, inst.segmentLength, View(mem))
    modifies mem
    ensures View(mem) == SegmentTo(KERNEL, inst, position, inst.segmentLength, old(View(mem)))
  {
    hide Times, Word, InputBlock, AddressBlock, OffsetsReady, AddressesReady, SegmentTo, WordsOf;
    ghost var m0 := View(mem);
    var address := new word[ADDRESSES_IN_BLOCK];
    var input := new word[ADDRESSES_IN_BLOCK];
    var startingIndex := InitAddressesOpt(ssse3, inst, position, address, input);
    var currOffset, prevOffset := FirstOffsets(inst, position, startingIndex);
    var state := new Reg<word>[REGS];
    LoadRegs(state, mem[prevOffset]);
    SegmentStart(KERNEL, inst, position, m0);
    LoopOpt(ssse3, inst, position, startingIndex, mem, m0, state, address, input, currOffset, prevOffset);
  }
}
