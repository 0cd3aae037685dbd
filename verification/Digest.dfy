/** argon2_hash and argon2_verify of argon2.c: hashing a password to an encoded string, and checking a
    password against one. */
module Digests {
  import opened Options
  import opened Bytes
  import opened Instances
  import opened Blake2b
  import opened Contexts
  import opened PreHash
  import opened Core
  import opened Base64
  import opened Encoding

  // ------------------------------------------------------------------ argon2_compare

  lemma OrOfXor(d: bv8, x: bv8, y: bv8)
    ensures d | (x ^ y) == 0 <==> d == 0 && x == y
  {
  }

  /** The branch-free end of argon2_compare, which works on an int: 0 for no difference, else -1. */
  function NoDifference(d: bv8): bv32 { (1 & (((d as bv32) - 1) >> 8)) - 1 }

  lemma NoDifferenceIsZero(d: bv8)
    ensures NoDifference(d) == 0 <==> d == 0
  {
  }

  /** argon2_compare: looks at every byte, and finds whether there is a difference. */
  method Compare(b1: array<byte>, b2: array<byte>, len: nat) returns (differ: bool)
    requires len <= b1.Length && len <= b2.Length
    ensures differ <==> b1[..len] != b2[..len]
  {
    var d: bv8 := 0;
    for i := 0 to len
      invariant d == 0 <==> b1[..i] == b2[..i]
    {
      var x, y := Bits(b1[i]), Bits(b2[i]);
      Bits8(b1[i]);
      Bits8(b2[i]);
      OrOfXor(d, x, y);
      d := d | (x ^ y);
      assert b1[..i + 1] == b1[..i] + [b1[i]] && b2[..i + 1] == b2[..i] + [b2[i]];
    }
    NoDifferenceIsZero(d);
    differ := NoDifference(d) != 0;
  }

  // ------------------------------------------------------------------ what a string says of a password

  function VersionOf(x: Fields): u32
    requires x.version.Some? ==> x.version.value <= MAX32
  {
    if x.version.Some? then x.version.value else VERSION_10
  }

  /** The inputs that the fields of a string, its type and a password make up. */
  function InputsFor(variant: Variant, x: Fields, pwd: seq<byte>): Inputs
    requires Accepted(x)
  {
    Inputs(x.lanes, |x.out|, x.mCost, x.tCost, VersionOf(x), variant, pwd, x.salt, [], [])
  }

  function TagFor(f: Compression, variant: Variant, x: Fields, pwd: seq<byte>): (tag: seq<byte>)
    requires Accepted(x)
    ensures |tag| == |x.out|
  {
    LayoutIsValid(x.mCost, x.tCost, x.lanes, x.lanes, VersionOf(x), variant);
    var inst := Layout(x.mCost, x.tCost, x.lanes, x.lanes, VersionOf(x), variant);
    TagLength(f, inst, InputsFor(variant, x, pwd));
    Tag(f, inst, InputsFor(variant, x, pwd))
  }

  /** The password belongs to the string. */
  ghost predicate Matches(f: Compression, variant: Variant, x: Fields, pwd: seq<byte>)
    requires Accepted(x)
  {
    TagFor(f, variant, x, pwd) == x.out
  }

  // ------------------------------------------------------------------ argon2_verify

  /** argon2_verify_ctx: the tag is computed into a new buffer and compared with the one set aside. */
  method VerifyCtx(f: Compression, build: Build, ctx: Context, code: int, desired: array<byte>, memoryAvailable: bool,
                   ghost x: Fields)
    returns (rc: int)
    requires ctx.Buffers() && VariantOf(code).Some? && ctx.Validate() == OK
    requires ctx.out != null && ctx.out != ctx.pwd && ctx.out != desired && ctx.pwd != desired
    requires ctx.outlen <= desired.Length
    requires ctx.secret == null && ctx.secretlen == 0 && ctx.ad == null && ctx.adlen == 0 && !ctx.clearPassword
    requires !ctx.clearSecret
    requires Accepted(x) && ctx.salt != null && ctx.outlen == |x.out|
    requires ctx.version == VersionOf(x) && ctx.mCost == x.mCost && ctx.tCost == x.tCost
    requires ctx.lanes == ctx.threads == x.lanes
    requires ctx.salt[..ctx.saltlen] == x.salt && desired[..ctx.outlen] == x.out
    modifies ctx`pwdlen, ctx`secretlen, ctx.pwd, ctx.out
    ensures rc == if !memoryAvailable then MEMORY_ALLOCATION_ERROR
                  else if Matches(f, VariantOf(code).value, x, old(Content(ctx.pwd, ctx.pwdlen))) then OK
                  else VERIFY_MISMATCH
    ensures Everything(ctx.pwd) == old(Everything(ctx.pwd))
  {
    hide Context.Validate, Tag, Layout;
    ghost var variant, pwd := VariantOf(code).value, Content(ctx.pwd, ctx.pwdlen);
    ghost var inputs := InputsFor(variant, x, pwd);
    assert inputs == InputsOf(ctx, variant);
    rc := Argon2Ctx(f, build, ctx, code, memoryAvailable, inputs);
    if rc != OK {
      return rc;
    }
    var differ := Compare(desired, ctx.out, ctx.outlen);
    if differ {
      return VERIFY_MISMATCH;
    }
  }

  /** A password verifies against a string: the string is well formed, and the tag it ends in is that of
      the password. */
  ghost predicate Verifies(f: Compression, variant: Variant, s: string, pwd: seq<byte>) {
    exists x: Fields :: Accepted(x) && s == Format(variant, x) && Matches(f, variant, x, pwd)
  }

  /** The string is an encoded hash of this type. */
  ghost predicate IsEncoded(variant: Variant, s: string) {
    exists x: Fields :: Accepted(x) && s == Format(variant, x)
  }

  lemma NotEncoded(f: Compression, code: int, s: string, pwd: seq<byte>)
    ensures VariantOf(code).Some? && !IsEncoded(VariantOf(code).value, s) ==>
      !Verifies(f, VariantOf(code).value, s, pwd)
  {
    hide Accepted, Format, Matches;
  }

  /** There is one way to read a string, so a password that does not match this reading matches none. */
  lemma MatchesOnly(f: Compression, variant: Variant, s: string, pwd: seq<byte>, x: Fields)
    requires Accepted(x) && s == Format(variant, x)
    ensures Verifies(f, variant, s, pwd) <==> Matches(f, variant, x, pwd)
  {
    hide Matches;
    forall y: Fields | Accepted(y) && s == Format(variant, y) ensures x == y { FormatInjective(variant, x, y); }
  }

  lemma FormatInjective(variant: Variant, x: Fields, y: Fields)
    requires Accepted(x) && Accepted(y) && Format(variant, x) == Format(variant, y)
    ensures x == y
  {
    var c, d := if |x.salt| < |y.salt| then |y.salt| else |x.salt|, if |x.out| < |y.out| then |y.out| else |x.out|;
    hide Format;
    var s := Format(variant, x);
    assert s + "" == s;
    ReadsUnique(s, variant, c, d, x, "", c, d, y, "");
  }

  /** No field is longer than the whole string. */
  lemma FieldsFit(variant: Variant, x: Fields)
    ensures |x.salt| <= |Format(variant, x)| && |x.out| <= |Format(variant, x)|
  {
    FormatLength(variant, x);
    hide Format, Head, Costs;
  }

  lemma ValidMeansAccepted(ctx: Context, x: Fields)
    requires Holds(ctx, x) && ctx.Validate() == OK
    ensures Accepted(x) && (ctx.pwd == null ==> ctx.pwdlen == 0)
  {
    ctx.AcceptedExactly();
    hide Context.Validate;
  }

  /** An encoded hash is read, whatever room its fields need. */
  lemma EncodedIsRead(ctx: Context, variant: Variant, s: string, read: Option<(Fields, string)>)
    requires IsEncoded(variant, s)
    requires read.None? ==> NoReading(s, variant, |s|, |s|)
    requires read.Some? ==>
      Reads(s, variant, |s|, |s|, read.value.0, read.value.1) && Holds(ctx, read.value.0) && Defaults(ctx)
    requires ctx.pwd == null ==> ctx.pwdlen == 0
    ensures read.Some? && read.value.1 == "" && ctx.Validate() == OK
  {
    hide Format, Reads, NoReading, Holds, Context.Validate;
    var y: Fields :| Accepted(y) && s == Format(variant, y);
    FieldsFit(variant, y);
    ReadsBack(variant, y, |s|, |s|, read);
    AcceptedWhenRead(ctx, y);
  }

  /** The first half of argon2_verify: a context with buffers as long as the string, filled from it. */
  method DecodeNew(str: string, pwd: array?<byte>, pwdlen: u32, code: int, max: nat, signed: bool)
    returns (rc: int, ctx: Context, ghost x: Fields)
    requires IsCString(str) && |str| <= MAX32 && (pwd != null ==> pwdlen <= pwd.Length) && max >= MAX32
    ensures fresh(ctx) && ctx.pwd == pwd && ctx.pwdlen == pwdlen
    ensures rc == OK ==>
      && VariantOf(code).Some? && Accepted(x) && Seen(str, signed) == Format(VariantOf(code).value, x)
      && Holds(ctx, x) && Defaults(ctx) && ctx.Validate() == OK
      && ctx.out != null && ctx.salt != null && fresh(ctx.out) && fresh(ctx.salt)
    ensures rc != OK ==>
      VariantOf(code).None? || (pwd == null && pwdlen != 0) || !IsEncoded(VariantOf(code).value, Seen(str, signed))
  {
    hide Context.Validate, Reads, NoReading, Holds, IsCString, Accepted, IsEncoded, Seen;
    ghost var s := Seen(str, signed);
    ctx := new Context();
    ctx.saltlen, ctx.outlen := |str|, |str|;
    ctx.salt := new byte[|str|];
    ctx.out := new byte[|str|];
    ctx.pwd, ctx.pwdlen := pwd, pwdlen;
    ghost var read;
    rc, read := DecodeString(ctx, str, code, max, signed);
    x := if read.Some? then read.value.0 else Fields(None, 0, 0, 0, [], []);
    if rc == OK {
      ValidMeansAccepted(ctx, x);
      WholeRead(s, VariantOf(code).value, |s|, |s|, x);
    } else if VariantOf(code).Some? && !(pwd == null && pwdlen != 0) && IsEncoded(VariantOf(code).value, s) {
      EncodedIsRead(ctx, VariantOf(code).value, s, read);
    }
  }

  /** The second half: a new buffer for the tag. */
  method VerifyDecoded(f: Compression, build: Build, ctx: Context, code: int, memoryAvailable: bool, ghost x: Fields)
    returns (rc: int)
    requires VariantOf(code).Some? && Accepted(x) && Holds(ctx, x) && Defaults(ctx) && ctx.Validate() == OK
    requires (ctx.pwd != null ==> ctx.pwdlen <= ctx.pwd.Length) && ctx.out != ctx.pwd
    modifies ctx, ctx.pwd
    ensures rc == if !memoryAvailable then MEMORY_ALLOCATION_ERROR
                  else if Matches(f, VariantOf(code).value, x, old(Content(ctx.pwd, ctx.pwdlen))) then OK
                  else VERIFY_MISMATCH
    ensures ctx.pwd == old(ctx.pwd) && Everything(ctx.pwd) == old(Everything(ctx.pwd))
  {
    hide Matches, Accepted, Context.Validate;
    ctx.AcceptedExactly();
    var desired := ctx.out;
    ctx.out := new byte[ctx.outlen];
    ctx.AcceptedExactly();
    assert Content(ctx.pwd, ctx.pwdlen) == old(Content(ctx.pwd, ctx.pwdlen));
    rc := VerifyCtx(f, build, ctx, code, desired, memoryAvailable, x);
  }

  /** argon2_verify accepts exactly the strings that the password verifies against; where char is signed,
      the strings that are seen as one of these. */
  method Verify(f: Compression, build: Build, encoded: Option<string>, pwd: array?<byte>, pwdlen: nat, code: int,
                memoryAvailable: bool, max: nat, signed: bool) returns (rc: int)
    requires (encoded.Some? ==> IsCString(encoded.value)) && (pwd != null ==> pwdlen <= pwd.Length) && max >= MAX32
    modifies pwd
    ensures rc == OK <==>
      && memoryAvailable && pwdlen <= MAX32 && (pwd == null ==> pwdlen == 0)
      && encoded.Some? && |encoded.value| <= MAX32 && VariantOf(code).Some?
      && Verifies(f, VariantOf(code).value, Seen(encoded.value, signed), old(Content(pwd, pwdlen)))
    ensures Everything(pwd) == old(Everything(pwd))
  {
    if pwdlen > MAX32 {
      return PWD_TOO_LONG;
    }
    if encoded.None? {
      return DECODING_FAIL;
    }
    var str := encoded.value;
    if |str| > MAX32 {
      return DECODING_FAIL;
    }
    hide Verifies, Matches, Holds, IsCString, Accepted, Context.Validate, IsEncoded, Seen;
    ghost var s := Seen(str, signed);
    ghost var x;
    var ctx;
    rc, ctx, x := DecodeNew(str, pwd, pwdlen, code, max, signed);
    if rc != OK {
      NotEncoded(f, code, s, Content(pwd, pwdlen));
      return rc;
    }
    rc := VerifyDecoded(f, build, ctx, code, memoryAvailable, x);
    MatchesOnly(f, VariantOf(code).value, s, Content(pwd, pwdlen), x);
  }

  // ------------------------------------------------------------------ argon2_hash

  /** What argon2_hash does not reject, apart from a buffer that is too small for the string. */
  predicate Hashable(tCost: u32, mCost: u32, parallelism: u32, pwd: array?<byte>, pwdlen: nat, salt: array?<byte>,
                     saltlen: nat, hashlen: nat, code: int)
  {
    && pwdlen <= MAX32 && (pwd == null ==> pwdlen == 0)
    && salt != null && MIN_SALT_LENGTH <= saltlen <= MAX32
    && MIN_OUTLEN <= hashlen <= MAX32
    && 8 * parallelism <= mCost && 1 <= tCost && 1 <= parallelism <= MAX_LANES
    && VariantOf(code).Some?
  }

  /** The fields of the encoded string: the parameters, the salt and the tag. */
  ghost predicate HashedAs(f: Compression, x: Fields, tCost: u32, mCost: u32, parallelism: u32, pwd: seq<byte>,
                           salt: seq<byte>, hashlen: nat, variant: Variant, version: u32)
  {
    && Accepted(x) && x.version == Option<nat>.Some(version) && x.mCost == mCost && x.tCost == tCost
       && x.lanes == parallelism
    && x.salt == salt && |x.out| == hashlen && x.out == TagFor(f, variant, x, pwd)
  }

  /** The context argon2_hash makes. */
  ghost predicate HashContext(ctx: Context, tCost: u32, mCost: u32, parallelism: u32, pwd: array?<byte>, pwdlen: u32,
                              salt: array?<byte>, saltlen: u32, out: array<byte>, version: u32)
    reads ctx
  {
    && ctx.out == out && ctx.outlen == out.Length && ctx.pwd == pwd && ctx.pwdlen == pwdlen && ctx.salt == salt
       && ctx.saltlen == saltlen
    && Defaults(ctx)
    && ctx.tCost == tCost && ctx.mCost == mCost && ctx.lanes == ctx.threads == parallelism && ctx.version == version
  }

  method NewHashContext(tCost: u32, mCost: u32, parallelism: u32, pwd: array?<byte>, pwdlen: u32, salt: array?<byte>,
                        saltlen: u32, out: array<byte>, version: u32) returns (ctx: Context)
    requires out.Length <= MAX32
    ensures fresh(ctx) && HashContext(ctx, tCost, mCost, parallelism, pwd, pwdlen, salt, saltlen, out, version)
  {
    hide Defaults;
    ctx := new Context();
    SetBuffers(ctx, pwd, pwdlen, salt, saltlen, out);
    SetDefaults(ctx);
    SetCosts(ctx, tCost, mCost, parallelism, version);
  }

  method SetBuffers(ctx: Context, pwd: array?<byte>, pwdlen: u32, salt: array?<byte>, saltlen: u32, out: array<byte>)
    requires out.Length <= MAX32
    modifies ctx`out, ctx`outlen, ctx`pwd, ctx`pwdlen, ctx`salt, ctx`saltlen
    ensures ctx.out == out && ctx.outlen == out.Length && ctx.pwd == pwd && ctx.pwdlen == pwdlen && ctx.salt == salt
    ensures ctx.saltlen == saltlen
  {
    ctx.out, ctx.outlen := out, out.Length;
    ctx.pwd, ctx.pwdlen := pwd, pwdlen;
    ctx.salt, ctx.saltlen := salt, saltlen;
  }

  method SetDefaults(ctx: Context)
    modifies ctx`secret, ctx`secretlen, ctx`ad, ctx`adlen, ctx`allocateCbk, ctx`freeCbk, ctx`clearPassword,
             ctx`clearSecret
    ensures Defaults(ctx)
  {
    ctx.secret, ctx.secretlen, ctx.ad, ctx.adlen := null, 0, null, 0;
    ctx.allocateCbk, ctx.freeCbk, ctx.clearPassword, ctx.clearSecret := false, false, false, false;
  }

  method SetCosts(ctx: Context, tCost: u32, mCost: u32, parallelism: u32, version: u32)
    modifies ctx`tCost, ctx`mCost, ctx`lanes, ctx`threads, ctx`version
    ensures ctx.tCost == tCost && ctx.mCost == mCost && ctx.lanes == ctx.threads == parallelism
    ensures ctx.version == version
    ensures Defaults(ctx) == old(Defaults(ctx))
  {
    ctx.tCost, ctx.mCost, ctx.lanes, ctx.threads := tCost, mCost, parallelism, parallelism;
    ctx.version := version;
  }

  lemma HashContextValid(ctx: Context, tCost: u32, mCost: u32, parallelism: u32, pwd: array?<byte>, pwdlen: u32,
                         salt: array?<byte>, saltlen: u32, out: array<byte>, version: u32, code: int)
    requires HashContext(ctx, tCost, mCost, parallelism, pwd, pwdlen, salt, saltlen, out, version)
    requires MIN_OUTLEN <= out.Length
    ensures VariantOf(code).Some? ==>
      (ctx.Validate() == OK <==> Hashable(tCost, mCost, parallelism, pwd, pwdlen, salt, saltlen, out.Length, code))
  {
    ctx.AcceptedExactly();
    hide Context.Validate;
  }

  lemma NoEncodingFailure(ctx: Context)
    ensures ctx.Validate() != ENCODING_FAIL
  {
  }

  /** argon2_ctx on such a context. */
  method TagInto(f: Compression, build: Build, ctx: Context, code: int, memoryAvailable: bool, out: array<byte>)
    returns (rc: int, ghost x: Fields)
    requires ctx.out == out && ctx.outlen == out.Length && Defaults(ctx) && ctx.threads == ctx.lanes && ctx.Buffers()
    requires out != ctx.pwd && out != ctx.salt
    modifies ctx`pwdlen, ctx`secretlen, ctx.pwd, out
    ensures rc == OK <==> memoryAvailable && VariantOf(code).Some? && old(ctx.Validate()) == OK
    ensures rc != ENCODING_FAIL
    ensures Everything(ctx.pwd) == old(Everything(ctx.pwd))
    ensures rc == OK ==>
      && ctx.salt != null && ctx.Buffers() && ctx.Validate() == OK && ctx.outlen == |x.out| && FieldsOf(ctx) == x
         && Accepted(x)
      && x.salt == old(Content(ctx.salt, ctx.saltlen))
      && x.out == TagFor(f, VariantOf(code).value, x, old(Content(ctx.pwd, ctx.pwdlen)))
  {
    NoEncodingFailure(ctx);
    hide Context.Validate, Tag, Layout;
    ctx.AcceptedExactly();
    x := Fields(Option<nat>.Some(ctx.version), ctx.mCost, ctx.tCost, ctx.lanes, Content(ctx.salt, ctx.saltlen),
                out[..]);
    ghost var inputs := InputsOf(ctx, if VariantOf(code).Some? then VariantOf(code).value else Argon2d);
    rc := Argon2Ctx(f, build, ctx, code, memoryAvailable, inputs);
    ctx.AcceptedExactly();
    x := x.(out := out[..]);
  }

  /** clear_internal_memory on the string buffer. */
  method ClearString(b: array<char>, n: nat)
    requires n <= b.Length
    modifies b
    ensures forall i :: 0 <= i < n ==> b[i] == '\0'
  {
    for i := 0 to n
      invariant forall k :: 0 <= k < i ==> b[k] == '\0'
    {
      b[i] := '\0';
    }
  }

  /** A buffer with a tag copied to its front. */
  function Overwritten(before: seq<byte>, tag: seq<byte>): (after: seq<byte>)
    ensures |after| == |before|
  {
    if |tag| <= |before| then tag + before[|tag|..] else before
  }

  /** The fields of the string that is written. The raw tag is copied out before the string is made, so when it
      goes to the buffer of the salt, the string has what is then there. */
  function FieldsWritten(x: Fields, ontoSalt: bool, saltBuffer: seq<byte>): (w: Fields)
    ensures w == x.(salt := w.salt) && |w.salt| == |x.salt|
  {
    if ontoSalt && |x.salt| <= |saltBuffer| then x.(salt := Overwritten(saltBuffer, x.out)[..|x.salt|]) else x
  }

  /** The end of argon2_hash: the raw tag and the string, where they are asked for. */
  method WriteOutputs(ctx: Context, out: array<byte>, hash: array?<byte>, hashlen: nat, encoded: array?<char>,
                      encodedlen: nat, code: int, ghost x: Fields) returns (rc: int, ghost w: Fields)
    requires ctx.Buffers() && ctx.Validate() == OK && VariantOf(code).Some? && ctx.out == out && out.Length == hashlen
    requires ctx.salt != null && ctx.outlen == |x.out| == hashlen && FieldsOf(ctx) == x && out != hash
    requires hash != null ==> hashlen <= hash.Length
    requires encoded != null ==> encodedlen <= encoded.Length
    requires ctx.salt != out
    modifies hash, encoded
    ensures w == FieldsWritten(x, hash == ctx.salt, old(Everything(ctx.salt)))
    ensures hash != null ==> hash[..] == Overwritten(old(Everything(hash)), x.out)
    ensures rc == if encoded == null || encodedlen == 0 || |Format(VariantOf(code).value, w)| < encodedlen then OK
                  else ENCODING_FAIL
    ensures Written(rc, VariantOf(code).value, encoded, encodedlen, w)
  {
    hide Context.Validate, Format;
    assert out[..] == x.out;
    w := FieldsWritten(x, hash == ctx.salt, Everything(ctx.salt));
    if hash != null {
      CopyBytes(hash, 0, out, 0, hashlen);
      assert hash[..] == out[..] + old(Everything(hash))[hashlen..];
    }
    assert FieldsOf(ctx) == w;
    rc := WriteString(ctx, encoded, encodedlen, code, w);
  }

  /** The string, if there is a buffer for it. */
  method WriteString(ctx: Context, encoded: array?<char>, encodedlen: nat, code: int, ghost w: Fields) returns (rc: int)
    requires ctx.Buffers() && ctx.Validate() == OK && VariantOf(code).Some?
    requires ctx.salt != null && ctx.out != null && FieldsOf(ctx) == w
    requires encoded != null ==> encodedlen <= encoded.Length
    modifies encoded
    ensures rc == if encoded == null || encodedlen == 0 || |Format(VariantOf(code).value, w)| < encodedlen then OK
                  else ENCODING_FAIL
    ensures Written(rc, VariantOf(code).value, encoded, encodedlen, w)
  {
    hide Context.Validate, Format, FieldsOf;
    if encoded != null && encodedlen != 0 {
      rc := EncodeString(encoded, encodedlen, ctx, code);
      if rc != OK {
        ClearString(encoded, encodedlen);
        return ENCODING_FAIL;
      }
    }
    rc := OK;
  }

  /** The string with its terminating zero, or nothing but zeros. */
  ghost predicate Written(rc: int, variant: Variant, encoded: array?<char>, encodedlen: nat, x: Fields)
    reads encoded
  {
    && (rc == ENCODING_FAIL ==>
          && encoded != null && encodedlen <= encoded.Length
          && forall i :: 0 <= i < encodedlen ==> encoded[i] == '\0')
    && (rc == OK && encoded != null && encodedlen > 0 ==>
          var s := Format(variant, x);
          encodedlen <= encoded.Length && |s| < encodedlen && encoded[..|s|] == s && encoded[|s|] == '\0')
  }

  /** argon2_hash once the lengths are known to fit. */
  method HashChecked(f: Compression, build: Build, tCost: u32, mCost: u32, parallelism: u32, pwd: array?<byte>,
                     pwdlen: u32, salt: array?<byte>, saltlen: u32, hash: array?<byte>, hashlen: u32,
                     encoded: array?<char>, encodedlen: nat,
                     code: int, version: u32, memoryAvailable: bool)
    returns (rc: int, ghost x: Fields, ghost w: Fields)
    requires (pwd != null ==> pwdlen <= pwd.Length) && (salt != null ==> saltlen <= salt.Length)
    requires MIN_OUTLEN <= hashlen
    requires hash != null ==> hashlen <= hash.Length
    requires encoded != null ==> encodedlen <= encoded.Length
    modifies pwd, hash, encoded
    ensures rc == OK || rc == ENCODING_FAIL <==>
      memoryAvailable && Hashable(tCost, mCost, parallelism, pwd, pwdlen, salt, saltlen, hashlen, code)
    ensures rc == OK || rc == ENCODING_FAIL ==>
      && HashedAs(f, x, tCost, mCost, parallelism, old(Content(pwd, pwdlen)), old(Content(salt, saltlen)), hashlen,
                  VariantOf(code).value, version)
      && w == FieldsWritten(x, hash == salt, old(Everything(salt)))
      && (hash != null ==> hash[..] == Overwritten(old(Everything(hash)), x.out))
      && rc == (if encoded == null || encodedlen == 0 || |Format(VariantOf(code).value, w)| < encodedlen then OK
                else ENCODING_FAIL)
      && Written(rc, VariantOf(code).value, encoded, encodedlen, w)
    ensures (rc != OK && rc != ENCODING_FAIL) || hash != pwd ==> Everything(pwd) == old(Everything(pwd))
  {
    hide Context.Validate, Hashable, Format, TagFor, Accepted, Written;
    var out := new byte[hashlen];
    var ctx := NewHashContext(tCost, mCost, parallelism, pwd, pwdlen, salt, saltlen, out, version);
    HashContextValid(ctx, tCost, mCost, parallelism, pwd, pwdlen, salt, saltlen, out, version, code);
    HashableType(tCost, mCost, parallelism, pwd, pwdlen, salt, saltlen, hashlen, code);
    w := Fields(None, 0, 0, 0, [], []);
    ghost var saltBefore := Everything(salt);
    rc, x := TagInto(f, build, ctx, code, memoryAvailable, out);
    if rc != OK {
      return rc, x, w;
    }
    assert Everything(salt) == saltBefore;
    rc, w := WriteOutputs(ctx, out, hash, hashlen, encoded, encodedlen, code, x);
  }

  lemma HashableType(tCost: u32, mCost: u32, parallelism: u32, pwd: array?<byte>, pwdlen: nat, salt: array?<byte>,
                     saltlen: nat, hashlen: nat, code: int)
    ensures Hashable(tCost, mCost, parallelism, pwd, pwdlen, salt, saltlen, hashlen, code) ==> VariantOf(code).Some?
  {
  }

  /** argon2_hash: the raw tag, and the encoded string if there is a buffer for it. When the buffer is too
      small, what was written to it is wiped. The tag is that of the arguments as they were, wherever it goes;
      the string has the salt as it then is. */
  method HashPassword(f: Compression, build: Build, tCost: u32, mCost: u32, parallelism: u32, pwd: array?<byte>,
                      pwdlen: nat, salt: array?<byte>, saltlen: nat, hash: array?<byte>, hashlen: nat,
                      encoded: array?<char>, encodedlen: nat,
                      code: int, version: u32, memoryAvailable: bool)
    returns (rc: int, ghost x: Fields, ghost w: Fields)
    requires (pwd != null ==> pwdlen <= pwd.Length) && (salt != null ==> saltlen <= salt.Length)
    requires hash != null ==> hashlen <= hash.Length
    requires encoded != null ==> encodedlen <= encoded.Length
    modifies pwd, hash, encoded
    ensures rc == OK || rc == ENCODING_FAIL <==>
      memoryAvailable && Hashable(tCost, mCost, parallelism, pwd, pwdlen, salt, saltlen, hashlen, code)
    ensures rc == OK || rc == ENCODING_FAIL ==>
      && HashedAs(f, x, tCost, mCost, parallelism, old(Content(pwd, pwdlen)), old(Content(salt, saltlen)), hashlen,
                  VariantOf(code).value, version)
      && w == FieldsWritten(x, hash == salt, old(Everything(salt)))
      && (hash != null ==> hash[..] == Overwritten(old(Everything(hash)), x.out))
      && rc == (if encoded == null || encodedlen == 0 || |Format(VariantOf(code).value, w)| < encodedlen then OK
                else ENCODING_FAIL)
      && Written(rc, VariantOf(code).value, encoded, encodedlen, w)
    ensures (rc != OK && rc != ENCODING_FAIL) || hash != pwd ==> Everything(pwd) == old(Everything(pwd))
  {
    x := Fields(None, 0, 0, 0, [], []);
    w := x;
    if pwdlen > MAX32 {
      return PWD_TOO_LONG, x, w;
    }
    if saltlen > MAX32 {
      return SALT_TOO_LONG, x, w;
    }
    if hashlen > MAX32 {
      return OUTPUT_TOO_LONG, x, w;
    }
    if hashlen < MIN_OUTLEN {
      return OUTPUT_TOO_SHORT, x, w;
    }
    hide HashedAs, Hashable, Format, Written, Everything, FieldsWritten, Overwritten;
    rc, x, w := HashChecked(f, build, tCost, mCost, parallelism, pwd, pwdlen, salt, saltlen, hash, hashlen,
                            encoded, encodedlen, code, version, memoryAvailable);
  }

  // ------------------------------------------------------------------ a hash verifies

  /** The string made for one password is accepted for another exactly when their tags are the same. */
  lemma VerifiesWhenTagsAgree(f: Compression, variant: Variant, x: Fields, pwd: seq<byte>, other: seq<byte>)
    requires Accepted(x) && x.out == TagFor(f, variant, x, pwd)
    ensures Verifies(f, variant, Format(variant, x), other) <==> SameTags(f, variant, x, other, pwd)
  {
    MatchesOnly(f, variant, Format(variant, x), other, x);
    hide Format, TagFor;
  }

  /** ... and under another type it is accepted for none. */
  lemma OtherTypeNeverVerifies(f: Compression, variant: Variant, x: Fields, other: Variant, pwd: seq<byte>)
    requires variant != other
    ensures !Verifies(f, other, Format(variant, x), pwd)
  {
    hide Matches, Format;
    var s := Format(variant, x);
    forall y: Fields | Accepted(y) ensures s != Format(other, y) {
      OtherTypeFails(variant, x, other, |y.salt|, |y.out|);
      NotRead(s, other, y);
    }
  }

  lemma NotRead(s: string, variant: Variant, y: Fields)
    requires Accepted(y) && NoReading(s, variant, |y.salt|, |y.out|)
    ensures s != Format(variant, y)
  {
    hide Format;
    assert Format(variant, y) + "" == Format(variant, y);
    assert Reads(Format(variant, y), variant, |y.salt|, |y.out|, y, "");
    hide Reads;
  }

  /** When the raw tag goes to the buffer of the salt, a password verifies against the string if and only if
      its tag for the salt in the string is the tag for the salt that was given. */
  lemma WrittenVerifies(f: Compression, variant: Variant, x: Fields, ontoSalt: bool, saltBuffer: seq<byte>,
                        pwd: seq<byte>)
    requires Accepted(x)
    ensures var w := FieldsWritten(x, ontoSalt, saltBuffer);
            Accepted(w) && (Verifies(f, variant, Format(variant, w), pwd) <==> TagFor(f, variant, w, pwd) == x.out)
  {
    hide Format, TagFor;
    var w := FieldsWritten(x, ontoSalt, saltBuffer);
    MatchesOnly(f, variant, Format(variant, w), pwd, w);
  }

  /** Hash a password into a buffer of the length argon2_encodedlen asks for, then verify a password
      against the string. The first succeeds if and only if the version has at most two digits. The second
      then accepts if and only if the string has at most 2^32 - 1 characters and the tags are the same, as
      they are for the same password. */
  method HashThenVerify(f: Compression, hashBuild: Build, verifyBuild: Build, tCost: u32, mCost: u32,
                        parallelism: u32, pwd: array<byte>, salt: array<byte>, hashlen: u32, code: int,
                        version: u32, other: array<byte>, max: nat, signed: bool)
    returns (rc: int, rc': int, ghost x: Fields)
    requires Hashable(tCost, mCost, parallelism, pwd, pwd.Length, salt, salt.Length, hashlen, code)
    requires other.Length <= MAX32 && max >= MAX32
    modifies pwd, other
    ensures Accepted(x) && VariantOf(code).Some?
    ensures rc == if version <= 99 then OK else ENCODING_FAIL
    ensures x.salt == old(salt[..]) && |x.out| == hashlen
    ensures old(pwd[..]) == old(other[..]) ==> SameTags(f, VariantOf(code).value, x, old(other[..]), old(pwd[..]))
    ensures rc == OK ==>
      (rc' == OK <==> |Format(VariantOf(code).value, x)| <= MAX32
                      && SameTags(f, VariantOf(code).value, x, old(other[..]), old(pwd[..])))
  {
    hide Matches, Format, TagFor, Verifies, HashedAs, Hashable, Seen;
    HashableParts(tCost, mCost, parallelism, pwd, pwd.Length, salt, salt.Length, hashlen, code);
    ghost var password, saltBytes := Content(pwd, pwd.Length), Content(salt, salt.Length);
    ghost var second := Content(other, other.Length);
    assert password == pwd[..] && second == other[..];
    var variant := VariantOf(code).value;
    var len := EncodedLen(tCost, mCost, parallelism, salt.Length, hashlen, variant);
    var encoded := new char[len];
    ghost var w;
    rc, x, w := HashPassword(f, hashBuild, tCost, mCost, parallelism, pwd, pwd.Length, salt, salt.Length,
                             null, hashlen, encoded, len, code, version, true);
    HashedFields(f, x, tCost, mCost, parallelism, password, saltBytes, hashlen, variant, version);
    assert SizesAre(x, tCost, mCost, parallelism, salt.Length, hashlen);
    rc' := rc;
    if rc == OK {
      rc' := VerifyWritten(f, verifyBuild, encoded, other, code, max, signed, x);
      VerifiesWhenTagsAgree(f, variant, x, password, second);
    }
  }

  /** Two passwords have the same tag. */
  ghost predicate SameTags(f: Compression, variant: Variant, x: Fields, a: seq<byte>, b: seq<byte>)
    requires Accepted(x)
  {
    TagFor(f, variant, x, a) == TagFor(f, variant, x, b)
  }

  /** argon2_verify on a buffer that holds an encoded string. */
  method VerifyWritten(f: Compression, build: Build, encoded: array<char>, pwd: array<byte>, code: int, max: nat,
                       signed: bool, ghost x: Fields) returns (rc: int)
    requires VariantOf(code).Some? && pwd.Length <= MAX32 && max >= MAX32
    requires var s := Format(VariantOf(code).value, x);
             |s| < encoded.Length && encoded[..|s|] == s && encoded[|s|] == '\0'
    modifies pwd
    ensures var variant := VariantOf(code).value;
      rc == OK <==> |Format(variant, x)| <= MAX32
                    && Verifies(f, variant, Format(variant, x), old(Content(pwd, pwd.Length)))
    ensures Everything(pwd) == old(Everything(pwd))
  {
    hide Format, Verifies, Seen;
    ghost var s := Format(VariantOf(code).value, x);
    var str := StringAt(encoded);
    FormatIsPlain(VariantOf(code).value, x);
    SameCString(encoded[..], s, str);
    SeenAsItIs(s, signed);
    rc := Verify(f, build, Some(str), pwd, pwd.Length, code, true, max, signed);
  }

  /** The longest salt makes a string that is too long to verify. */
  lemma StringTooLong(variant: Variant, x: Fields)
    requires |x.salt| == MAX32
    ensures |Format(variant, x)| > MAX32
  {
    FormatLength(variant, x);
    hide Format, Head, Costs;
    assert |Blob(x.salt)| == 1 + TextLength(MAX32);
  }

  /** There is such a string: argon2_hash makes it, and argon2_verify rejects it for every password. */
  lemma TooLongWitness(f: Compression, variant: Variant, pwd: seq<byte>) returns (x: Fields)
    ensures Accepted(x) && x.out == TagFor(f, variant, x, pwd) && |Format(variant, x)| > MAX32
    ensures Verifies(f, variant, Format(variant, x), pwd)
  {
    hide Format, TagFor;
    x := Fields(Some(VERSION_13), 8, 1, 1, seq(MAX32, _ => 0), seq(4, _ => 0));
    TagIgnoresOut(f, variant, x, pwd);
    x := x.(out := TagFor(f, variant, x, pwd));
    StringTooLong(variant, x);
    VerifiesWhenTagsAgree(f, variant, x, pwd, pwd);
  }

  /** The tag depends on the length of the one in the fields, not on its bytes. */
  lemma TagIgnoresOut(f: Compression, variant: Variant, x: Fields, pwd: seq<byte>)
    requires Accepted(x)
    ensures var y := x.(out := TagFor(f, variant, x, pwd)); Accepted(y) && TagFor(f, variant, y, pwd) == y.out
  {
    hide Tag, Layout;
  }

  lemma HashableParts(tCost: u32, mCost: u32, parallelism: u32, pwd: array?<byte>, pwdlen: nat, salt: array?<byte>,
                      saltlen: nat, hashlen: nat, code: int)
    requires Hashable(tCost, mCost, parallelism, pwd, pwdlen, salt, saltlen, hashlen, code)
    ensures VariantOf(code).Some? && saltlen <= MAX32 && hashlen <= MAX32 && pwdlen <= MAX32
  {
  }

  lemma HashedFields(f: Compression, x: Fields, tCost: u32, mCost: u32, parallelism: u32, pwd: seq<byte>,
                     salt: seq<byte>, hashlen: nat, variant: Variant, version: u32)
    requires HashedAs(f, x, tCost, mCost, parallelism, pwd, salt, hashlen, variant, version)
    ensures Accepted(x) && x.out == TagFor(f, variant, x, pwd)
    ensures x.version == Option<nat>.Some(version) && x.mCost == mCost && x.tCost == tCost && x.lanes == parallelism
    ensures x.salt == salt && |x.out| == hashlen
  {
    hide TagFor, Accepted;
  }
}
