/** core.c and argon2_ctx around the filling of the memory: the first blocks, the sequential loops and
    the tag. The block compression of BLAKE2b is a parameter. */
module Core {
  import opened Blamka
  import opened Words
  import opened Bytes
  import opened Arithmetic
  import opened Instances
  import opened IndexAlphas
  import opened Blake2b
  import opened Fill
  import opened Slices
  import Threads
  import opened Segments
  import opened SegmentsOpt
  import opened Contexts
  import opened PreHash
  import opened Determined

  const BLOCK_SIZE: nat := 1024

  // ------------------------------------------------------------------ what the tag is

  /** Block `column` (0 or 1) of a lane, from H_0. */
  function FirstBlock(f: Compression, h0: seq<byte>, lane: nat, column: nat): Block {
    var b := LongHash(f, BLOCK_SIZE, h0 + Le32(column) + Le32(lane));
    Loaded(b)
  }

  /** The memory before it is filled: the first two blocks of each lane, and zeros elsewhere. */
  function FirstMemory(f: Compression, inst: Instance, h0: seq<byte>): (m: seq<Block>)
    requires inst.Valid()
    ensures |m| == inst.memoryBlocks
  {
    seq(inst.memoryBlocks, b requires 0 <= b < inst.memoryBlocks =>
      BlockOf(inst, b);
      if b % inst.laneLength < 2 then FirstBlock(f, h0, b / inst.laneLength, b % inst.laneLength) else ZeroBlock())
  }

  /** `m` has the first blocks, and anything elsewhere. */
  ghost predicate HasFirstBlocks(f: Compression, inst: Instance, h0: seq<byte>, m: seq<Block>) {
    && inst.Valid() && |m| == inst.memoryBlocks
    && forall b :: 0 <= b < |m| && b % inst.laneLength < 2 ==> m[b] == FirstMemory(f, inst, h0)[b]
  }

  /** The xor of the last blocks of lanes 0 to `n`. */
  function LastColumn(inst: Instance, m: seq<Block>, n: nat): Block
    requires inst.Valid() && |m| == inst.memoryBlocks && n < inst.lanes
  {
    LayoutIsOneToOne(inst, n, inst.laneLength - 1);
    var last := m[inst.At(n, inst.laneLength - 1)];
    if n == 0 then last else Xor(OPS, LastColumn(inst, m, n - 1), last)
  }

  function TagOf(f: Compression, inst: Instance, outlen: nat, m: seq<Block>): (tag: seq<byte>)
    requires inst.Valid() && |m| == inst.memoryBlocks && outlen >= 1
    ensures |tag| == outlen
  {
    LongHash(f, outlen, Stored(LastColumn(inst, m, inst.lanes - 1)))
  }

  /** The Argon2 tag of some inputs in a given layout (section 3.2 of RFC 9106). */
  function Tag(f: Compression, inst: Instance, inputs: Inputs): seq<byte>
    requires inst.Valid() && inputs.outlen >= 1
  {
    var h0 := Hash(f, PREHASH_DIGEST_LENGTH, PreImage(inputs));
    TagOf(f, inst, inputs.outlen, FillTo(KERNEL, inst, SYNC_POINTS * inst.passes, FirstMemory(f, inst, h0)))
  }

  // ------------------------------------------------------------------ fill_first_blocks

  method LoadBlock(dst: array<word>, bytes: array<byte>)
    requires dst.Length == ADDRESSES_IN_BLOCK && bytes.Length == BLOCK_SIZE
    modifies dst
    ensures dst[..] == Loaded(bytes[..])
  {
    hide Loaded, WordOf;
    assert bytes[..0] == [] && Loaded([]) == [] by { LoadedEmpty(); }
    for i := 0 to ADDRESSES_IN_BLOCK
      invariant dst[..i] == Loaded(bytes[..8 * i])
    {
      dst[i] := WordOf(bytes[8 * i..8 * i + 8]);
      LoadedAppend(bytes[..8 * i], bytes[8 * i..8 * i + 8]);
      assert bytes[..8 * i] + bytes[8 * i..8 * i + 8] == bytes[..8 * (i + 1)];
    }
    assert bytes[..8 * ADDRESSES_IN_BLOCK] == bytes[..];
  }

  lemma LoadedEmpty()
    ensures Loaded([]) == []
  {
  }

  /** The seed of a first block: H_0, the column and the lane. */
  method SetSeed(blockhash: array<byte>, at: nat, n: nat)
    requires blockhash.Length == PREHASH_SEED_LENGTH && (at == 64 || at == 68)
    modifies blockhash
    ensures blockhash[at..at + 4] == Le32(n)
    ensures blockhash[..at] == old(blockhash[..at]) && blockhash[at + 4..] == old(blockhash[at + 4..])
  {
    var bytes := Le32(n);
    hide Le32;
    blockhash[at], blockhash[at + 1], blockhash[at + 2], blockhash[at + 3] := bytes[0], bytes[1], bytes[2], bytes[3];
  }

  /** One first block: expand the seed and load the result. */
  method BuildFirst(f: Compression, blockhash: array<byte>, bytes: array<byte>, dst: array<word>, ghost h0: seq<byte>,
                    ghost lane: nat, ghost column: nat)
    requires blockhash.Length == PREHASH_SEED_LENGTH && bytes.Length == BLOCK_SIZE && dst.Length == ADDRESSES_IN_BLOCK
    requires bytes != blockhash && blockhash[..] == h0 + Le32(column) + Le32(lane)
    modifies bytes, dst
    ensures dst[..] == FirstBlock(f, h0, lane, column)
    ensures blockhash[..] == old(blockhash[..])
  {
    hide LongHash, Loaded, Le32;
    var rc := Long(f, bytes, BLOCK_SIZE, blockhash, PREHASH_SEED_LENGTH);
    assert blockhash[..PREHASH_SEED_LENGTH] == blockhash[..];
    assert bytes[..] == LongHash(f, BLOCK_SIZE, h0 + Le32(column) + Le32(lane));
    LoadBlock(dst, bytes);
  }

  /** The two blocks of lanes before `l` are there, and nothing else has changed. */
  ghost predicate FirstUpTo(f: Compression, inst: Instance, h0: seq<byte>, m0: seq<Block>, m: seq<Block>, l: nat) {
    && inst.Valid() && |m| == |m0| == inst.memoryBlocks
    && forall b :: 0 <= b < |m| ==>
         m[b] == if b % inst.laneLength < 2 && b / inst.laneLength < l then FirstMemory(f, inst, h0)[b] else m0[b]
  }

  lemma FirstUpToStep(f: Compression, inst: Instance, h0: seq<byte>, m0: seq<Block>, m: seq<Block>, m': seq<Block>,
                      l: nat)
    requires FirstUpTo(f, inst, h0, m0, m, l) && l < inst.lanes && |m'| == |m|
    requires inst.At(l, 1) < |m| && inst.At(l, 0) < |m|
    requires forall b :: 0 <= b < |m| && b != inst.At(l, 0) && b != inst.At(l, 1) ==> m'[b] == m[b]
    requires m'[inst.At(l, 0)] == FirstBlock(f, h0, l, 0) && m'[inst.At(l, 1)] == FirstBlock(f, h0, l, 1)
    ensures FirstUpTo(f, inst, h0, m0, m', l + 1)
  {
    hide FirstBlock, Times;
    LayoutIsOneToOne(inst, l, 0);
    LayoutIsOneToOne(inst, l, 1);
    forall b | 0 <= b < |m|
      ensures m'[b]
           == if b % inst.laneLength < 2 && b / inst.laneLength < l + 1 then FirstMemory(f, inst, h0)[b] else m0[b]
    {
      BlockOf(inst, b);
    }
  }

  method FillFirstBlocks(f: Compression, blockhash: array<byte>, inst: Instance, mem: seq<array<word>>,
                         ghost h0: seq<byte>)
    requires IsMemory(mem) && inst.Valid() && |mem| == inst.memoryBlocks
    requires blockhash.Length == PREHASH_SEED_LENGTH && blockhash[..PREHASH_DIGEST_LENGTH] == h0
    modifies blockhash, mem
    ensures FirstUpTo(f, inst, h0, old(View(mem)), View(mem), inst.lanes)
  {
    hide FirstBlock, FirstUpTo, Le32;
    ghost var m0 := View(mem);
    var bytes := new byte[BLOCK_SIZE];
    FirstUpToZero(f, inst, h0, m0);
    for l: u32 := 0 to inst.lanes
      invariant blockhash[..PREHASH_DIGEST_LENGTH] == h0
      invariant FirstUpTo(f, inst, h0, m0, View(mem), l)
    {
      ghost var m := View(mem);
      LayoutIsOneToOne(inst, l, 0);
      LayoutIsOneToOne(inst, l, 1);
      ProductIsTimes(l, inst.laneLength);
      FirstOfLane(f, blockhash, bytes, mem[l * inst.laneLength + 0], mem[l * inst.laneLength + 1], h0, l);
      FirstUpToStep(f, inst, h0, m0, m, View(mem), l);
    }
  }

  lemma FirstUpToZero(f: Compression, inst: Instance, h0: seq<byte>, m0: seq<Block>)
    requires inst.Valid() && |m0| == inst.memoryBlocks
    ensures FirstUpTo(f, inst, h0, m0, m0, 0)
  {
    forall b | 0 <= b < |m0| ensures b / inst.laneLength >= 0 { BlockOf(inst, b); }
  }

  /** One turn of the loop of fill_first_blocks. */
  method FirstOfLane(f: Compression, blockhash: array<byte>, bytes: array<byte>, dst0: array<word>, dst1: array<word>,
                     ghost h0: seq<byte>, l: u32)
    requires blockhash.Length == PREHASH_SEED_LENGTH && bytes.Length == BLOCK_SIZE && bytes != blockhash
    requires dst0.Length == dst1.Length == ADDRESSES_IN_BLOCK && dst0 != dst1
    requires blockhash[..PREHASH_DIGEST_LENGTH] == h0
    modifies blockhash, bytes, dst0, dst1
    ensures blockhash[..PREHASH_DIGEST_LENGTH] == h0
    ensures dst0[..] == FirstBlock(f, h0, l, 0) && dst1[..] == FirstBlock(f, h0, l, 1)
  {
    hide FirstBlock, Le32;
    SetSeed(blockhash, 64, 0);
    SetSeed(blockhash, 68, l);
    assert blockhash[..64] == h0 by { assert blockhash[..64] == blockhash[..68][..64]; }
    assert blockhash[64..68] == Le32(0) by { assert blockhash[64..68] == blockhash[..68][64..]; }
    assert blockhash[..] == h0 + Le32(0) + Le32(l);
    BuildFirst(f, blockhash, bytes, dst0, h0, l, 0);
    ghost var seed := blockhash[..];
    SetSeed(blockhash, 64, 1);
    assert blockhash[..] == h0 + Le32(1) + Le32(l);
    BuildFirst(f, blockhash, bytes, dst1, h0, l, 1);
  }

  // ------------------------------------------------------------------ fill_memory_blocks

  /** fill_segment as the build has it: registers on x86, words elsewhere. */
  datatype Build = RefBuild | OptBuild(ssse3: bool)

  method FillSegment(build: Build, inst: Instance, position: Position, mem: seq<array<word>>)
    requires IsMemory(mem) && SegmentReady(inst, position, inst.segmentLength, View(mem))
    modifies mem
    ensures View(mem) == SegmentTo(KERNEL, inst, position, inst.segmentLength, old(View(mem)))
  {
    if build.RefBuild? {
      FillSegmentRef(inst, position, mem);
    } else {
      FillSegmentOpt(build.ssse3, inst, position, mem);
    }
  }

  method FillSlice(build: Build, inst: Instance, r: u32, s: u32, mem: seq<array<word>>)
    requires IsMemory(mem) && SliceReady(inst, r, s, View(mem))
    modifies mem
    ensures View(mem) == SliceTo(KERNEL, inst, r, s, inst.lanes, old(View(mem)))
  {
    hide SegmentTo, Times;
    ghost var m := View(mem);
    for l: u32 := 0 to inst.lanes
      invariant View(mem) == SliceTo(KERNEL, inst, r, s, l, m)
    {
      FillSegment(build, inst, Position(r, l, s, 0), mem);
    }
  }

  /** The slices of one pass. */
  method FillPass(build: Build, inst: Instance, r: u32, mem: seq<array<word>>, ghost m: seq<Block>)
    requires IsMemory(mem) && inst.Valid() && |mem| == |m| == inst.memoryBlocks && r < inst.passes
    requires View(mem) == FillTo(KERNEL, inst, SYNC_POINTS * r, m)
    modifies mem
    ensures View(mem) == FillTo(KERNEL, inst, SYNC_POINTS * (r + 1), m)
  {
    hide SliceTo, FillTo, Times;
    for s: u32 := 0 to SYNC_POINTS
      invariant View(mem) == FillTo(KERNEL, inst, SYNC_POINTS * r + s, m)
    {
      FillOne(KERNEL, inst, r, s, m);
      FillSlice(build, inst, r, s, mem);
    }
  }

  lemma NothingFilled(inst: Instance, m: seq<Block>)
    requires inst.Valid() && |m| == inst.memoryBlocks
    ensures FillTo(KERNEL, inst, 0, m) == m
  {
  }

  method FillMemoryBlocksSt(build: Build, inst: Instance, mem: seq<array<word>>)
    requires IsMemory(mem) && inst.Valid() && |mem| == inst.memoryBlocks
    modifies mem
    ensures View(mem) == FillTo(KERNEL, inst, SYNC_POINTS * inst.passes, old(View(mem)))
  {
    hide FillTo, Times;
    ghost var m := View(mem);
    NothingFilled(inst, m);
    for r: u32 := 0 to inst.passes
      invariant View(mem) == FillTo(KERNEL, inst, SYNC_POINTS * r, m)
    {
      FillPass(build, inst, r, mem, m);
    }
  }

  // ------------------------------------------------------------------ finalize

  method XorLastBlocks(inst: Instance, mem: seq<array<word>>, blockhash: array<word>)
    requires IsMemory(mem) && inst.Valid() && |mem| == inst.memoryBlocks
    requires blockhash.Length == ADDRESSES_IN_BLOCK && blockhash !in mem
    modifies blockhash
    ensures blockhash[..] == LastColumn(inst, View(mem), inst.lanes - 1)
    ensures View(mem) == old(View(mem))
  {
    hide Xor, Times, LastColumn;
    ghost var m := View(mem);
    LayoutIsOneToOne(inst, 0, inst.laneLength - 1);
    FirstOfColumn(inst, m);
    CopyBlock(blockhash, mem[0 + inst.laneLength - 1]);
    for l: u32 := 1 to inst.lanes
      invariant blockhash[..] == LastColumn(inst, m, l - 1)
      invariant View(mem) == m
    {
      LayoutIsOneToOne(inst, l, inst.laneLength - 1);
      ProductIsTimes(l, inst.laneLength);
      NextOfColumn(inst, m, l);
      var lastBlockInLane: u32 := l * inst.laneLength + (inst.laneLength - 1);
      XorBlock(OPS, blockhash, mem[lastBlockInLane]);
    }
  }

  lemma FirstOfColumn(inst: Instance, m: seq<Block>)
    requires inst.Valid() && |m| == inst.memoryBlocks && inst.laneLength <= |m|
    ensures LastColumn(inst, m, 0) == m[inst.laneLength - 1]
  {
    assert Times(0, inst.laneLength) == 0;
  }

  lemma NextOfColumn(inst: Instance, m: seq<Block>, l: nat)
    requires inst.Valid() && |m| == inst.memoryBlocks && 0 < l < inst.lanes
    ensures inst.At(l, inst.laneLength - 1) < |m|
    ensures LastColumn(inst, m, l) == Xor(OPS, LastColumn(inst, m, l - 1), m[inst.At(l, inst.laneLength - 1)])
  {
    LayoutIsOneToOne(inst, l, inst.laneLength - 1);
    hide Times, Xor;
  }

  method HashBlock(f: Compression, blockhash: array<word>, out: array<byte>, outlen: u32)
    requires blockhash.Length == ADDRESSES_IN_BLOCK && 1 <= outlen <= out.Length
    modifies out
    ensures out[..] == LongHash(f, outlen, Stored(old(blockhash[..]))) + old(out[..])[outlen..]
  {
    hide LongHash, Stored;
    var bytes := new byte[BLOCK_SIZE];
    StoreWords(bytes, blockhash[..]);
    assert bytes[..BLOCK_SIZE] == Stored(blockhash[..]);
    var rc := Long(f, out, outlen, bytes, BLOCK_SIZE);
  }

  method Finalize(f: Compression, inst: Instance, mem: seq<array<word>>, out: array<byte>, outlen: u32)
    requires IsMemory(mem) && inst.Valid() && |mem| == inst.memoryBlocks
    requires 1 <= outlen <= out.Length
    modifies out
    ensures out[..] == TagOf(f, inst, outlen, old(View(mem))) + old(out[..])[outlen..]
  {
    hide LongHash, LastColumn, Stored, Times;
    ghost var m := View(mem);
    var blockhash := new word[ADDRESSES_IN_BLOCK];
    XorLastBlocks(inst, mem, blockhash);
    HashBlock(f, blockhash, out, outlen);
  }

  // ------------------------------------------------------------------ argon2_ctx

  /** A byte buffer is no part of the memory. */
  ghost predicate Outside(b: array?<byte>, mem: seq<array<word>>) {
    b != null ==> forall n :: 0 <= n < |mem| ==> mem[n] as object != b as object
  }

  /** allocate_memory: different blocks with whatever the allocator leaves in them. */
  method Allocate(n: nat) returns (mem: seq<array<word>>)
    ensures IsMemory(mem) && |mem| == n && fresh(mem)
  {
    mem := [];
    for k := 0 to n
      invariant IsMemory(mem) && |mem| == k && fresh(mem)
    {
      var b := new word[ADDRESSES_IN_BLOCK];
      mem := mem + [b];
    }
  }

  /** The filled memory is the same whatever the allocator left in it. */
  lemma FilledFromFirstBlocks(f: Compression, inst: Instance, h0: seq<byte>, m0: seq<Block>, m: seq<Block>)
    requires FirstUpTo(f, inst, h0, m0, m, inst.lanes)
    ensures FillTo(KERNEL, inst, SYNC_POINTS * inst.passes, m)
         == FillTo(KERNEL, inst, SYNC_POINTS * inst.passes, FirstMemory(f, inst, h0))
  {
    hide FillTo, FirstMemory, Times;
    forall b | 0 <= b < |m| && b % inst.laneLength < 2 ensures m[b] == FirstMemory(f, inst, h0)[b] {
      BlockOf(inst, b);
    }
    DeterminedByFirstBlocks(KERNEL, inst, m, FirstMemory(f, inst, h0));
  }

  /** What is in the password and the secret afterwards, as far as they are not the output. */
  ghost predicate SecretsAfter(ctx: Context, inputs: Inputs, out: array?<byte>, pwd: seq<byte>, secret: seq<byte>)
    reads ctx, ctx.pwd, ctx.secret
  {
    && LengthsAfter(ctx, inputs)
    && (ctx.pwd != out ==> Everything(ctx.pwd) == BufferAfter(ctx, inputs, ctx.pwd, pwd))
    && (ctx.secret != out ==> Everything(ctx.secret) == BufferAfter(ctx, inputs, ctx.secret, secret))
  }

  /** What is in the output afterwards: the tag, and behind it what initial_hash left there. */
  ghost predicate OutputAfter(ctx: Context, inputs: Inputs, out: array<byte>, tag: seq<byte>, before: seq<byte>)
    reads ctx, out
  {
    && inputs.outlen <= |before| == out.Length
    && out[..] == tag + BufferAfter(ctx, inputs, out, before)[inputs.outlen..]
  }

  /** The phases of argon2_ctx once the layout is known. */
  method Compute(f: Compression, build: Build, inst: Instance, ctx: Context, out: array<byte>, mem: seq<array<word>>,
                 ghost inputs: Inputs)
    requires inst.Valid() && IsMemory(mem) && |mem| == inst.memoryBlocks
    requires Outside(out, mem) && Outside(ctx.pwd, mem) && Outside(ctx.secret, mem)
    requires ctx.Buffers() && inputs == InputsOf(ctx, inst.variant)
    requires out == ctx.out && 1 <= ctx.outlen
    requires ctx.clearPassword && ctx.pwd != null ==> ctx.pwd != ctx.salt && ctx.pwd != ctx.secret && ctx.pwd != ctx.ad
    requires ctx.clearSecret && ctx.secret != null ==> ctx.secret != ctx.ad
    requires (ctx.pwd == null ==> ctx.pwdlen == 0) && (ctx.salt == null ==> ctx.saltlen == 0)
    requires (ctx.secret == null ==> ctx.secretlen == 0) && (ctx.ad == null ==> ctx.adlen == 0)
    modifies ctx`pwdlen, ctx`secretlen, ctx.pwd, ctx.secret, out, mem
    ensures OutputAfter(ctx, inputs, out, Tag(f, inst, inputs), old(out[..]))
    ensures SecretsAfter(ctx, inputs, out, old(Everything(ctx.pwd)), old(Everything(ctx.secret)))
  {
    hide Hash, PreImage, Tag, TagOf, Times, BufferAfter, LengthsAfter, FillTo, FirstMemory;
    var outlen := ctx.outlen;
    ghost var outBefore := out[..];
    FillFromInputs(f, build, inst, ctx, mem, inputs);
    assert out[..] == BufferAfter(ctx, inputs, out, outBefore) by { OtherBuffer(ctx, inputs, out, outBefore); }
    TagIs(f, inst, inputs);
    Finalize(f, inst, mem, out, outlen);
  }

  lemma OtherBuffer(ctx: Context, inputs: Inputs, b: array<byte>, before: seq<byte>)
    ensures b != ctx.pwd && b != ctx.secret ==> BufferAfter(ctx, inputs, b, before) == before
  {
  }

  /** From the inputs to the filled memory. */
  method FillFromInputs(f: Compression, build: Build, inst: Instance, ctx: Context, mem: seq<array<word>>,
                        ghost inputs: Inputs)
    requires inst.Valid() && IsMemory(mem) && |mem| == inst.memoryBlocks
    requires Outside(ctx.pwd, mem) && Outside(ctx.secret, mem)
    requires ctx.Buffers() && inputs == InputsOf(ctx, inst.variant)
    requires ctx.clearPassword && ctx.pwd != null ==> ctx.pwd != ctx.salt && ctx.pwd != ctx.secret && ctx.pwd != ctx.ad
    requires ctx.clearSecret && ctx.secret != null ==> ctx.secret != ctx.ad
    requires (ctx.pwd == null ==> ctx.pwdlen == 0) && (ctx.salt == null ==> ctx.saltlen == 0)
    requires (ctx.secret == null ==> ctx.secretlen == 0) && (ctx.ad == null ==> ctx.adlen == 0)
    modifies ctx`pwdlen, ctx`secretlen, ctx.pwd, ctx.secret, mem
    ensures View(mem) == FillTo(KERNEL, inst, SYNC_POINTS * inst.passes,
                                FirstMemory(f, inst, Hash(f, PREHASH_DIGEST_LENGTH, PreImage(inputs))))
    ensures SecretsAfter(ctx, inputs, null, old(Everything(ctx.pwd)), old(Everything(ctx.secret)))
  {
    hide Hash, PreImage, Times, BufferAfter, LengthsAfter, FillTo, FirstMemory;
    var blockhash := new byte[PREHASH_SEED_LENGTH];
    InitialHash(f, blockhash, ctx, inst.variant, inputs);
    FillFromHash(f, build, inst, blockhash, mem, Hash(f, PREHASH_DIGEST_LENGTH, PreImage(inputs)));
  }

  /** The same in memory that is allocated for it. */
  method ComputeInFreshMemory(f: Compression, build: Build, inst: Instance, ctx: Context, out: array<byte>,
                              ghost inputs: Inputs)
    requires inst.Valid() && ctx.Buffers() && inputs == InputsOf(ctx, inst.variant)
    requires out == ctx.out && 1 <= ctx.outlen
    requires ctx.clearPassword && ctx.pwd != null ==> ctx.pwd != ctx.salt && ctx.pwd != ctx.secret && ctx.pwd != ctx.ad
    requires ctx.clearSecret && ctx.secret != null ==> ctx.secret != ctx.ad
    requires (ctx.pwd == null ==> ctx.pwdlen == 0) && (ctx.salt == null ==> ctx.saltlen == 0)
    requires (ctx.secret == null ==> ctx.secretlen == 0) && (ctx.ad == null ==> ctx.adlen == 0)
    modifies ctx`pwdlen, ctx`secretlen, ctx.pwd, ctx.secret, out
    ensures OutputAfter(ctx, inputs, out, Tag(f, inst, inputs), old(out[..]))
    ensures SecretsAfter(ctx, inputs, out, old(Everything(ctx.pwd)), old(Everything(ctx.secret)))
    ensures out[..inputs.outlen] == Tag(f, inst, inputs)
  {
    hide Tag, Times, PreImage, BufferAfter, SecretsAfter;
    var mem := Allocate(inst.memoryBlocks);
    Compute(f, build, inst, ctx, out, mem, inputs);
    TagLength(f, inst, inputs);
  }

  lemma TagLength(f: Compression, inst: Instance, inputs: Inputs)
    requires inst.Valid() && inputs.outlen >= 1
    ensures |Tag(f, inst, inputs)| == inputs.outlen
  {
    hide Hash, PreImage, TagOf, FillTo, FirstMemory, Times;
  }

  lemma TagIs(f: Compression, inst: Instance, inputs: Inputs)
    requires inst.Valid() && inputs.outlen >= 1
    ensures Tag(f, inst, inputs) == TagOf(f, inst, inputs.outlen,
      FillTo(KERNEL, inst, SYNC_POINTS * inst.passes,
             FirstMemory(f, inst, Hash(f, PREHASH_DIGEST_LENGTH, PreImage(inputs)))))
  {
  }

  /** From the pre-hash to the filled memory. */
  method FillFromHash(f: Compression, build: Build, inst: Instance, blockhash: array<byte>, mem: seq<array<word>>,
                      ghost h0: seq<byte>)
    requires IsMemory(mem) && inst.Valid() && |mem| == inst.memoryBlocks
    requires blockhash.Length == PREHASH_SEED_LENGTH && blockhash[..PREHASH_DIGEST_LENGTH] == h0
    modifies blockhash, mem
    ensures View(mem) == FillTo(KERNEL, inst, SYNC_POINTS * inst.passes, FirstMemory(f, inst, h0))
  {
    hide FirstUpTo, FillTo, FirstMemory, Times;
    ghost var m0 := View(mem);
    FillFirstBlocks(f, blockhash, inst, mem, h0);
    FilledFromFirstBlocks(f, inst, h0, m0, View(mem));
    FillMemoryBlocksSt(build, inst, mem);
  }

  /** argon2_ctx: an error without touching anything, or the tag of the inputs as they were. The one
      outcome that depends on the machine is whether the memory can be had. */
  method Argon2Ctx(f: Compression, build: Build, ctx: Context, code: int, memoryAvailable: bool, ghost inputs: Inputs)
    returns (rc: int)
    requires ctx.Buffers()
    requires VariantOf(code).Some? ==> inputs == InputsOf(ctx, VariantOf(code).value)
    requires ctx.clearPassword && ctx.pwd != null ==> ctx.pwd != ctx.salt && ctx.pwd != ctx.secret && ctx.pwd != ctx.ad
    requires ctx.clearSecret && ctx.secret != null ==> ctx.secret != ctx.ad
    modifies ctx`pwdlen, ctx`secretlen, ctx.pwd, ctx.secret, ctx.out
    ensures rc == if old(ctx.Validate()) != OK then old(ctx.Validate())
                  else if VariantOf(code).None? then INCORRECT_TYPE
                  else if !memoryAvailable then MEMORY_ALLOCATION_ERROR
                  else OK
    ensures rc != OK ==> Everything(ctx.out) == old(Everything(ctx.out))
    ensures rc == OK ==>
      && U32(ctx.lanes * SYNC_POINTS) != 0 && ctx.out != null && VariantOf(code).Some?
      && var inst := Layout(ctx.mCost, ctx.tCost, ctx.lanes, ctx.threads, ctx.version, VariantOf(code).value);
         inst.Valid() && ctx.out[..inputs.outlen] == Tag(f, inst, inputs)
    ensures rc == OK ==> OutputAfter(ctx, inputs, ctx.out, ctx.out[..inputs.outlen], old(Everything(ctx.out)))
    ensures rc == OK ==> SecretsAfter(ctx, inputs, ctx.out, old(Everything(ctx.pwd)), old(Everything(ctx.secret)))
    ensures rc != OK ==>
      && ctx.pwdlen == old(ctx.pwdlen) && ctx.secretlen == old(ctx.secretlen)
      && Everything(ctx.pwd) == old(Everything(ctx.pwd)) && Everything(ctx.secret) == old(Everything(ctx.secret))
  {
    hide Context.Validate, InputsOf, Tag, Times, BufferAfter, LengthsAfter;
    var result := ctx.Validate();
    if OK != result {
      return result;
    }
    if VariantOf(code).None? {
      return INCORRECT_TYPE;
    }
    ctx.AcceptedExactly();
    LayoutIsValid(ctx.mCost, ctx.tCost, ctx.lanes, ctx.threads, ctx.version, VariantOf(code).value);
    var inst := Layout(ctx.mCost, ctx.tCost, ctx.lanes, ctx.threads, ctx.version, VariantOf(code).value);
    if !memoryAvailable {
      return MEMORY_ALLOCATION_ERROR;
    }
    hide Layout;
    ComputeInFreshMemory(f, build, inst, ctx, ctx.out, inputs);
    rc := OK;
  }

  /** With threads the tag is the same: any finished run over a memory with these first blocks. */
  lemma ThreadsGiveTheTag(f: Compression, inst: Instance, inputs: Inputs, m0: seq<Block>, run: seq<Threads.State>)
    requires inst.Valid() && inputs.outlen >= 1
    requires HasFirstBlocks(f, inst, Hash(f, PREHASH_DIGEST_LENGTH, PreImage(inputs)), m0)
    requires Threads.Run(KERNEL, inst, m0, run) && run[|run| - 1].main.Done?
    ensures |run[|run| - 1].mem| == inst.memoryBlocks
    ensures TagOf(f, inst, inputs.outlen, run[|run| - 1].mem) == Tag(f, inst, inputs)
  {
    hide Hash, PreImage, Tag, TagOf, FirstMemory, FillTo, Times, Threads.Next;
    Threads.EveryRunIsSequential(KERNEL, inst, m0, run);
    DeterminedByFirstBlocks(KERNEL, inst, m0, FirstMemory(f, inst, Hash(f, PREHASH_DIGEST_LENGTH, PreImage(inputs))));
    TagIs(f, inst, inputs);
  }
}
