/** argon2_context, validate_inputs and the layout that argon2_ctx derives from it. Pointers are 64
    bits wide, so ARGON2_MAX_MEMORY is 2^32 - 1. */
module Contexts {
  import opened Bytes
  import opened Arithmetic
  import opened Instances
  import opened IndexAlphas

  const OK: int := 0
  const OUTPUT_PTR_NULL: int := -1
  const OUTPUT_TOO_SHORT: int := -2
  const OUTPUT_TOO_LONG: int := -3
  const PWD_TOO_SHORT: int := -4
  const PWD_TOO_LONG: int := -5
  const SALT_TOO_SHORT: int := -6
  const SALT_TOO_LONG: int := -7
  const AD_TOO_SHORT: int := -8
  const AD_TOO_LONG: int := -9
  const SECRET_TOO_SHORT: int := -10
  const SECRET_TOO_LONG: int := -11
  const TIME_TOO_SMALL: int := -12
  const TIME_TOO_LARGE: int := -13
  const MEMORY_TOO_LITTLE: int := -14
  const MEMORY_TOO_MUCH: int := -15
  const LANES_TOO_FEW: int := -16
  const LANES_TOO_MANY: int := -17
  const PWD_PTR_MISMATCH: int := -18
  const SALT_PTR_MISMATCH: int := -19
  const SECRET_PTR_MISMATCH: int := -20
  const AD_PTR_MISMATCH: int := -21
  const MEMORY_ALLOCATION_ERROR: int := -22
  const FREE_MEMORY_CBK_NULL: int := -23
  const ALLOCATE_MEMORY_CBK_NULL: int := -24
  const INCORRECT_TYPE: int := -26
  const THREADS_TOO_FEW: int := -28
  const THREADS_TOO_MANY: int := -29
  const ENCODING_FAIL: int := -31
  const DECODING_FAIL: int := -32
  const VERIFY_MISMATCH: int := -35

  const MAX32: u32 := 0xFFFF_FFFF
  const MIN_OUTLEN: u32 := 4
  const MIN_SALT_LENGTH: u32 := 8
  const MIN_MEMORY: u32 := 8
  const MIN_TIME: u32 := 1
  const MAX_LANES: u32 := 0xFF_FFFF
  const MAX_THREADS: u32 := 0xFF_FFFF

  class Context {
    var out: array?<byte>
    var outlen: u32
    var pwd: array?<byte>
    var pwdlen: u32
    var salt: array?<byte>
    var saltlen: u32
    var secret: array?<byte>
    var secretlen: u32
    var ad: array?<byte>
    var adlen: u32
    var tCost: u32
    var mCost: u32
    var lanes: u32
    var threads: u32
    var version: u32
    var allocateCbk: bool
    var freeCbk: bool
    var clearPassword: bool
    var clearSecret: bool

    constructor ()
    {
      out, outlen, pwd, pwdlen, salt, saltlen := null, 0, null, 0, null, 0;
      secret, secretlen, ad, adlen := null, 0, null, 0;
      tCost, mCost, lanes, threads, version := 0, 0, 0, 0, 0;
      allocateCbk, freeCbk, clearPassword, clearSecret := false, false, false, false;
    }

    /** The buffers are as long as they are said to be. */
    ghost predicate Buffers()
      reads this
    {
      && (out != null ==> outlen <= out.Length)
      && (pwd != null ==> pwdlen <= pwd.Length)
      && (salt != null ==> saltlen <= salt.Length)
      && (secret != null ==> secretlen <= secret.Length)
      && (ad != null ==> adlen <= ad.Length)
    }

    /** validate_inputs. */
    function Validate(): int
      reads this
    {
      if out == null then OUTPUT_PTR_NULL
      else if MIN_OUTLEN > outlen then OUTPUT_TOO_SHORT
      else if MAX32 < outlen then OUTPUT_TOO_LONG
      else if pwd == null && pwdlen != 0 then PWD_PTR_MISMATCH
      else if 0 > pwdlen then PWD_TOO_SHORT
      else if MAX32 < pwdlen then PWD_TOO_LONG
      else if salt == null && saltlen != 0 then SALT_PTR_MISMATCH
      else if MIN_SALT_LENGTH > saltlen then SALT_TOO_SHORT
      else if MAX32 < saltlen then SALT_TOO_LONG
      else if secret == null && secretlen != 0 then SECRET_PTR_MISMATCH
      else if secret != null && 0 > secretlen then SECRET_TOO_SHORT
      else if secret != null && MAX32 < secretlen then SECRET_TOO_LONG
      else if ad == null && adlen != 0 then AD_PTR_MISMATCH
      else if ad != null && 0 > adlen then AD_TOO_SHORT
      else if ad != null && MAX32 < adlen then AD_TOO_LONG
      else if MIN_MEMORY > mCost then MEMORY_TOO_LITTLE
      else if MAX32 < mCost then MEMORY_TOO_MUCH
      else if mCost < U32(8 * lanes) then MEMORY_TOO_LITTLE
      else if MIN_TIME > tCost then TIME_TOO_SMALL
      else if MAX32 < tCost then TIME_TOO_LARGE
      else if 1 > lanes then LANES_TOO_FEW
      else if MAX_LANES < lanes then LANES_TOO_MANY
      else if 1 > threads then THREADS_TOO_FEW
      else if MAX_THREADS < threads then THREADS_TOO_MANY
      else if allocateCbk && !freeCbk then FREE_MEMORY_CBK_NULL
      else if !allocateCbk && freeCbk then ALLOCATE_MEMORY_CBK_NULL
      else OK
    }

    /** What an accepted context is: the product 8 * lanes, which is computed modulo 2^32 before
        `lanes` is bounded, counts as if it could not wrap. */
    lemma AcceptedExactly()
      ensures Validate() == OK <==>
        && out != null && 4 <= outlen
        && (pwd == null ==> pwdlen == 0)
        && salt != null && 8 <= saltlen
        && (secret == null ==> secretlen == 0) && (ad == null ==> adlen == 0)
        && 8 * lanes <= mCost && 1 <= tCost && 1 <= lanes <= 0xFF_FFFF && 1 <= threads <= 0xFF_FFFF
        && (allocateCbk <==> freeCbk)
    {
    }
  }

  // ------------------------------------------------------------------ memory layout

  /** The rounding of the memory size in argon2_ctx, every product modulo 2^32. */
  function SegmentLength(mCost: u32, lanes: u32): u32
    requires U32(lanes * SYNC_POINTS) != 0
  {
    var least := U32(2 * SYNC_POINTS * lanes);
    var memoryBlocks := if mCost < least then least else mCost;
    U32(memoryBlocks / U32(lanes * SYNC_POINTS))
  }

  function Layout(mCost: u32, tCost: u32, lanes: u32, threads: u32, version: u32, variant: Variant): Instance
    requires U32(lanes * SYNC_POINTS) != 0
  {
    var segmentLength := SegmentLength(mCost, lanes);
    Instance(version, tCost, U32(segmentLength * U32(lanes * SYNC_POINTS)),
             segmentLength, U32(segmentLength * SYNC_POINTS),
             lanes, if threads > lanes then lanes else threads, variant)
  }

  /** An accepted context gives an instance with its passes, version, type and lanes, at most as many threads as
      lanes, and a well-formed memory: segments of at least two blocks, and as many
      blocks as whole segments fit into the requested size. Nothing wraps. */
  lemma LayoutIsValid(mCost: u32, tCost: u32, lanes: u32, threads: u32, version: u32, variant: Variant)
    requires 8 * lanes <= mCost && 1 <= tCost && 1 <= lanes <= MAX_LANES && 1 <= threads
    ensures U32(lanes * SYNC_POINTS) != 0
    ensures var inst := Layout(mCost, tCost, lanes, threads, version, variant);
      && inst.Valid()
      && mCost - 4 * lanes < inst.memoryBlocks <= mCost
      && inst.memoryBlocks == 4 * lanes * inst.segmentLength && inst.laneLength == 4 * inst.segmentLength
      && inst.passes == tCost && inst.version == version && inst.variant == variant && inst.lanes == lanes
      && inst.threads == if threads > lanes then lanes else threads
  {
    Fits(lanes * SYNC_POINTS);
    Fits(2 * SYNC_POINTS * lanes);
    var d := 4 * lanes;
    var s := mCost / d;
    DivMod(mCost, d);
    assert s >= 2 by {
      if s < 2 {
        MulMono(s, 1, d);
      }
    }
    assert s * d == d * s == Times(lanes, 4 * s);
    Fits(s * d);
    assert s <= s * d by { MulMono(1, d, s); }
    Fits(s);
    assert s * 4 <= s * d by { MulMono(4, d, s); }
    Fits(s * SYNC_POINTS);
  }
}
