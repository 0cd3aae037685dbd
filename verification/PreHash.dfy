/** initial_hash: what is absorbed before the memory is filled (step 1 of section 3.2 of RFC 9106). */
module PreHash {
  import opened Bytes
  import opened Blake2b
  import opened Instances
  import opened Fill
  import opened Contexts

  const PREHASH_DIGEST_LENGTH: nat := 64
  const PREHASH_SEED_LENGTH: nat := 72

  /** Everything the tag depends on. */
  datatype Inputs = Inputs(lanes: u32, outlen: u32, mCost: u32, tCost: u32, version: u32, variant: Variant,
                           pwd: seq<byte>, salt: seq<byte>, secret: seq<byte>, ad: seq<byte>)
  {
    ghost predicate Bounded() {
      |pwd| < TWO32 && |salt| < TWO32 && |secret| < TWO32 && |ad| < TWO32
    }
  }

  /** A field of variable length, preceded by its length. */
  function Field(x: seq<byte>): seq<byte> { Le32(|x|) + x }

  function Parameters(i: Inputs): (b: seq<byte>)
    ensures |b| == 24
  {
    Le32(i.lanes) + Le32(i.outlen) + Le32(i.mCost) + Le32(i.tCost) + Le32(i.version) + Le32(TypeCode(i.variant))
  }

  /** The string hashed to H_0. */
  function PreImage(i: Inputs): seq<byte> {
    Parameters(i) + Field(i.pwd) + Field(i.salt) + Field(i.secret) + Field(i.ad)
  }

  // ------------------------------------------------------------------ the string determines the inputs

  lemma FieldPrefix(x: seq<byte>, y: seq<byte>, restX: seq<byte>, restY: seq<byte>)
    requires |x| < TWO32 && |y| < TWO32
    requires Field(x) + restX == Field(y) + restY
    ensures x == y && restX == restY
  {
    hide Le32;
    var a, b := Field(x) + restX, Field(y) + restY;
    assert a[..4] == Le32(|x|) && b[..4] == Le32(|y|);
    Le32Injective(|x|, |y|);
    assert a[4..4 + |x|] == x && b[4..4 + |y|] == y;
    assert a[4 + |x|..] == restX && b[4 + |y|..] == restY;
  }

  lemma ParametersInjective(i: Inputs, j: Inputs)
    requires Parameters(i) == Parameters(j)
    ensures i.lanes == j.lanes && i.outlen == j.outlen && i.mCost == j.mCost && i.tCost == j.tCost
    ensures i.version == j.version && i.variant == j.variant
  {
    hide Le32;
    var a, b := Parameters(i), Parameters(j);
    assert a[..4] == Le32(i.lanes) && b[..4] == Le32(j.lanes);
    assert a[4..8] == Le32(i.outlen) && b[4..8] == Le32(j.outlen);
    assert a[8..12] == Le32(i.mCost) && b[8..12] == Le32(j.mCost);
    assert a[12..16] == Le32(i.tCost) && b[12..16] == Le32(j.tCost);
    assert a[16..20] == Le32(i.version) && b[16..20] == Le32(j.version);
    assert a[20..] == Le32(TypeCode(i.variant)) && b[20..] == Le32(TypeCode(j.variant));
    Le32Injective(i.lanes, j.lanes);
    Le32Injective(i.outlen, j.outlen);
    Le32Injective(i.mCost, j.mCost);
    Le32Injective(i.tCost, j.tCost);
    Le32Injective(i.version, j.version);
    Le32Injective(TypeCode(i.variant), TypeCode(j.variant));
  }

  /** Different inputs are hashed as different strings. */
  lemma PreImageInjective(i: Inputs, j: Inputs)
    requires i.Bounded() && j.Bounded() && PreImage(i) == PreImage(j)
    ensures i == j
  {
    hide Parameters, Field;
    var a, b := PreImage(i), PreImage(j);
    var i4, j4 := Field(i.ad), Field(j.ad);
    var i3, j3 := Field(i.secret) + i4, Field(j.secret) + j4;
    var i2, j2 := Field(i.salt) + i3, Field(j.salt) + j3;
    var i1, j1 := Field(i.pwd) + i2, Field(j.pwd) + j2;
    assert a == Parameters(i) + i1 && b == Parameters(j) + j1;
    assert a[..24] == Parameters(i) && b[..24] == Parameters(j);
    assert a[24..] == i1 && b[24..] == j1;
    ParametersInjective(i, j);
    FieldPrefix(i.pwd, j.pwd, i2, j2);
    FieldPrefix(i.salt, j.salt, i3, j3);
    FieldPrefix(i.secret, j.secret, i4, j4);
    assert i4 + [] == i4 && j4 + [] == j4;
    FieldPrefix(i.ad, j.ad, [], []);
  }

  // ------------------------------------------------------------------ initial_hash

  /** The inputs held by a context whose missing buffers have length 0. */
  ghost function InputsOf(ctx: Context, variant: Variant): Inputs
    requires ctx.Buffers()
    reads ctx, ctx.pwd, ctx.salt, ctx.secret, ctx.ad
  {
    Inputs(ctx.lanes, ctx.outlen, ctx.mCost, ctx.tCost, ctx.version, variant,
           Content(ctx.pwd, ctx.pwdlen), Content(ctx.salt, ctx.saltlen),
           Content(ctx.secret, ctx.secretlen), Content(ctx.ad, ctx.adlen))
  }

  /** A hash state in the middle of initial_hash. */
  ghost predicate Hashing(s: State, f: Compression, msg: seq<byte>)
    reads s, s.buf
  {
    s.Absorbing() && s.f == f && s.h0 == Start(PREHASH_DIGEST_LENGTH) && s.outlen == PREHASH_DIGEST_LENGTH
        && s.msg == msg
  }

  method AbsorbNumber(s: State, n: u32, ghost msg: seq<byte>)
    requires Hashing(s, s.f, msg)
    modifies s, s.buf
    ensures Hashing(s, s.f, msg + Le32(n))
  {
    hide Le32;
    var value := new byte[4](k requires 0 <= k < 4 => Le32(n)[k]);
    assert value[..4] == Le32(n);
    var rc := s.Update(value, 4);
  }

  /** blake2b_update in the middle of initial_hash. */
  method Feed(s: State, b: array<byte>, n: u32, ghost msg: seq<byte>)
    requires Hashing(s, s.f, msg) && n <= b.Length && b != s.buf
    modifies s, s.buf
    ensures Hashing(s, s.f, msg + b[..n])
  {
    var rc := s.Update(b, n);
    assert msg + [] == msg;
  }

  /** A length, then the bytes if there are any. */
  method AbsorbField(s: State, b: array?<byte>, n: u32, ghost msg: seq<byte>)
    requires Hashing(s, s.f, msg) && (b != null ==> n <= b.Length && b != s.buf) && (b == null ==> n == 0)
    modifies s, s.buf
    ensures Hashing(s, s.f, msg + Field(Content(b, n)))
  {
    hide Le32, Hashing, Field;
    FieldAfter(msg, Content(b, n));
    AbsorbNumber(s, n, msg);
    if b != null {
      Feed(s, b, n, msg + Le32(n));
    }
  }

  lemma FieldAfter(msg: seq<byte>, x: seq<byte>)
    ensures msg + Field(x) == msg + Le32(|x|) + x
    ensures x == [] ==> msg + Field(x) == msg + Le32(0)
  {
    hide Le32;
  }

  /** A buffer of which the first `n` bytes are wiped, or not. */
  function Wiping(before: seq<byte>, n: nat, wipe: bool): (after: seq<byte>)
    ensures |after| == |before|
  {
    if wipe && n <= |before| then Zeros(n) + before[n..] else before
  }

  /** What initial_hash leaves in a buffer: the password and the secret are wiped if their flags say so,
      as far as their lengths go, and nothing else changes. */
  ghost function BufferAfter(ctx: Context, inputs: Inputs, b: array?<byte>, before: seq<byte>): (after: seq<byte>)
    reads ctx
    ensures |after| == |before|
  {
    if b == ctx.secret then Wiping(before, |inputs.secret|, ctx.clearSecret)
    else if b == ctx.pwd then Wiping(before, |inputs.pwd|, ctx.clearPassword)
    else before
  }

  /** The lengths of what is wiped become 0, and no others change. */
  ghost predicate LengthsAfter(ctx: Context, inputs: Inputs)
    reads ctx
  {
    && ctx.pwdlen == (if ctx.pwd != null && ctx.clearPassword then 0 else |inputs.pwd|)
    && ctx.secretlen == (if ctx.secret != null && ctx.clearSecret then 0 else |inputs.secret|)
  }

  method Wipe(b: array<byte>, n: nat)
    requires n <= b.Length
    modifies b
    ensures b[..] == Zeros(n) + old(b[n..])
  {
    for k := 0 to n
      invariant forall i :: 0 <= i < k ==> b[i] == 0
      invariant b[n..] == old(b[n..])
    {
      b[k] := 0;
    }
  }

  /** The buffers that are wiped on the way are not read again under another name. */
  ghost predicate Unaliased(ctx: Context, blockhash: array<byte>)
    reads ctx
  {
    && (ctx.clearPassword && ctx.pwd != null ==> ctx.pwd != ctx.salt && ctx.pwd != ctx.secret && ctx.pwd != ctx.ad)
    && (ctx.clearSecret && ctx.secret != null ==> ctx.secret != ctx.ad)
    && blockhash != ctx.pwd && blockhash != ctx.secret
  }

  method AbsorbParameters(s: State, ctx: Context, variant: Variant, ghost inputs: Inputs)
    requires Hashing(s, s.f, []) && ctx.Buffers() && inputs == InputsOf(ctx, variant)
    modifies s, s.buf
    ensures Hashing(s, s.f, Parameters(inputs))
  {
    hide Le32, Hashing;
    ghost var m1 := Le32(inputs.lanes);
    ghost var m2 := m1 + Le32(inputs.outlen);
    ghost var m3 := m2 + Le32(inputs.mCost);
    ghost var m4 := m3 + Le32(inputs.tCost);
    ghost var m5 := m4 + Le32(inputs.version);
    assert [] + m1 == m1;
    AbsorbNumber(s, ctx.lanes, []);
    AbsorbNumber(s, ctx.outlen, m1);
    AbsorbNumber(s, ctx.mCost, m2);
    AbsorbNumber(s, ctx.tCost, m3);
    AbsorbNumber(s, ctx.version, m4);
    AbsorbNumber(s, TypeCode(variant), m5);
    assert m5 + Le32(TypeCode(variant)) == Parameters(inputs);
  }

  /** A field that may be wiped once it has been absorbed; its length is then set to 0. */
  method AbsorbSecretField(s: State, b: array?<byte>, n: u32, wipe: bool, ghost msg: seq<byte>) returns (n': u32)
    requires Hashing(s, s.f, msg) && (b != null ==> n <= b.Length && b != s.buf) && (b == null ==> n == 0)
    modifies s, s.buf, b
    ensures Hashing(s, s.f, msg + Field(old(Content(b, n))))
    ensures n' == if b != null && wipe then 0 else n
    ensures Everything(b) == Wiping(old(Everything(b)), n, wipe)
  {
    AbsorbField(s, b, n, msg);
    hide Field;
    n' := n;
    if b != null && wipe {
      Wipe(b, n);
      n' := 0;
    }
  }

  /** The second half of initial_hash: the secret, the associated data and the digest. */
  method FinishHash(f: Compression, s: State, blockhash: array<byte>, secret: array?<byte>, secretlen: u32,
                    ad: array?<byte>, adlen: u32, wipe: bool, ghost before: seq<byte>) returns (secretlen': u32)
    requires Hashing(s, f, before) && blockhash.Length == PREHASH_SEED_LENGTH && blockhash != s.buf
    requires (secret != null ==> secretlen <= secret.Length && secret != s.buf) && (secret == null ==> secretlen == 0)
    requires (ad != null ==> adlen <= ad.Length && ad != s.buf) && (ad == null ==> adlen == 0)
    requires blockhash != secret && (wipe && secret != null ==> secret != ad)
    modifies s, s.buf, secret, blockhash
    ensures blockhash[..PREHASH_DIGEST_LENGTH]
         == Hash(f, PREHASH_DIGEST_LENGTH,
                 before + old(Field(Content(secret, secretlen))) + old(Field(Content(ad, adlen))))
    ensures blockhash[PREHASH_DIGEST_LENGTH..] == old(blockhash[PREHASH_DIGEST_LENGTH..])
    ensures secretlen' == if secret != null && wipe then 0 else secretlen
    ensures Everything(secret) == Wiping(old(Everything(secret)), secretlen, wipe)
  {
    ghost var a, b := Field(Content(secret, secretlen)), Field(Content(ad, adlen));
    hide Hash, Field, FinalChain, Stored, Wiping;
    secretlen' := AbsorbSecretField(s, secret, secretlen, wipe, before);
    AbsorbField(s, ad, adlen, before + a);
    ghost var msg := before + a + b;
    assert s.msg == msg;
    var rc := s.Final(blockhash, PREHASH_DIGEST_LENGTH);
    HashIs(f, PREHASH_DIGEST_LENGTH, msg);
  }

  /** The first half of initial_hash: the parameters, the password and the salt. */
  method StartHash(f: Compression, ctx: Context, variant: Variant, ghost inputs: Inputs)
    returns (s: State, pwdlen': u32)
    requires ctx.Buffers() && inputs == InputsOf(ctx, variant)
    requires (ctx.pwd == null ==> ctx.pwdlen == 0) && (ctx.salt == null ==> ctx.saltlen == 0)
    requires ctx.clearPassword && ctx.pwd != null ==> ctx.pwd != ctx.salt
    modifies ctx.pwd
    ensures fresh(s) && fresh(s.buf)
    ensures Hashing(s, f, Parameters(inputs) + Field(inputs.pwd) + Field(inputs.salt))
    ensures pwdlen' == if ctx.pwd != null && ctx.clearPassword then 0 else ctx.pwdlen
    ensures Everything(ctx.pwd) == Wiping(old(Everything(ctx.pwd)), ctx.pwdlen, ctx.clearPassword)
  {
    hide Field, Parameters, Wiping;
    NotWiped(Everything(ctx.pwd), ctx.pwdlen);
    s := new State(f, PREHASH_DIGEST_LENGTH);
    AbsorbParameters(s, ctx, variant, inputs);
    ghost var msg := Parameters(inputs);
    pwdlen' := AbsorbSecretField(s, ctx.pwd, ctx.pwdlen, ctx.clearPassword, msg);
    assert Content(ctx.salt, ctx.saltlen) == inputs.salt;
    AbsorbField(s, ctx.salt, ctx.saltlen, msg + Field(inputs.pwd));
  }

  /** Both halves; the lengths that the context is to have are returned. */
  method HashInputs(f: Compression, blockhash: array<byte>, ctx: Context, variant: Variant, ghost inputs: Inputs)
    returns (pwdlen': u32, secretlen': u32)
    requires blockhash.Length == PREHASH_SEED_LENGTH && ctx.Buffers() && Unaliased(ctx, blockhash)
    requires (ctx.pwd == null ==> ctx.pwdlen == 0) && (ctx.salt == null ==> ctx.saltlen == 0)
    requires (ctx.secret == null ==> ctx.secretlen == 0) && (ctx.ad == null ==> ctx.adlen == 0)
    requires inputs == InputsOf(ctx, variant)
    modifies blockhash, ctx.pwd, ctx.secret
    ensures blockhash[..PREHASH_DIGEST_LENGTH] == Hash(f, PREHASH_DIGEST_LENGTH, PreImage(inputs))
    ensures blockhash[PREHASH_DIGEST_LENGTH..] == old(blockhash[PREHASH_DIGEST_LENGTH..])
    ensures pwdlen' == if ctx.pwd != null && ctx.clearPassword then 0 else ctx.pwdlen
    ensures secretlen' == if ctx.secret != null && ctx.clearSecret then 0 else ctx.secretlen
    ensures Everything(ctx.secret) == Wiping(old(Everything(ctx.secret)), ctx.secretlen, ctx.clearSecret)
    ensures ctx.pwd != ctx.secret ==>
      Everything(ctx.pwd) == Wiping(old(Everything(ctx.pwd)), ctx.pwdlen, ctx.clearPassword)
  {
    hide Hash, Parameters, Field, Hashing, Wiping;
    var secret, secretlen, ad, adlen := ctx.secret, ctx.secretlen, ctx.ad, ctx.adlen;
    NotWiped(Everything(ctx.pwd), ctx.pwdlen);
    var s;
    s, pwdlen' := StartHash(f, ctx, variant, inputs);
    assert Content(secret, secretlen) == inputs.secret && Content(ad, adlen) == inputs.ad;
    secretlen' := FinishHash(f, s, blockhash, secret, secretlen, ad, adlen, ctx.clearSecret,
                             Parameters(inputs) + Field(inputs.pwd) + Field(inputs.salt));
  }

  /** The digest is that of the inputs as they were on entry, whether or not the password and the
      secret are wiped once they have been absorbed. */
  method InitialHash(f: Compression, blockhash: array<byte>, ctx: Context, variant: Variant, ghost inputs: Inputs)
    requires blockhash.Length == PREHASH_SEED_LENGTH && ctx.Buffers() && Unaliased(ctx, blockhash)
    requires (ctx.pwd == null ==> ctx.pwdlen == 0) && (ctx.salt == null ==> ctx.saltlen == 0)
    requires (ctx.secret == null ==> ctx.secretlen == 0) && (ctx.ad == null ==> ctx.adlen == 0)
    requires inputs == InputsOf(ctx, variant)
    modifies blockhash, ctx`pwdlen, ctx`secretlen, ctx.pwd, ctx.secret
    ensures blockhash[..PREHASH_DIGEST_LENGTH] == Hash(f, PREHASH_DIGEST_LENGTH, PreImage(inputs))
    ensures blockhash[PREHASH_DIGEST_LENGTH..] == old(blockhash[PREHASH_DIGEST_LENGTH..])
    ensures LengthsAfter(ctx, inputs)
    ensures Everything(ctx.pwd) == BufferAfter(ctx, inputs, ctx.pwd, old(Everything(ctx.pwd)))
    ensures Everything(ctx.secret) == BufferAfter(ctx, inputs, ctx.secret, old(Everything(ctx.secret)))
  {
    hide Hash, PreImage, Wiping;
    assert |inputs.pwd| == ctx.pwdlen && |inputs.secret| == ctx.secretlen;
    var pwdlen', secretlen' := HashInputs(f, blockhash, ctx, variant, inputs);
    ctx.pwdlen := pwdlen';
    ctx.secretlen := secretlen';
  }

  lemma NotWiped(before: seq<byte>, n: nat)
    ensures Wiping(before, n, false) == before
  {
  }
}
