/** The streaming BLAKE2b of blake2b.c against the one-shot definition in section 3.3 of RFC 7693,
    and blake2b_long against H' of section 3.3 of RFC 9106.

    The block compression is a parameter: what is proved is which blocks it is given, with which
    counter and which last-block flag, and what is done with its results. */
module Blake2b {
  import opened Words
  import opened Bytes

  const BLOCKBYTES: nat := 128
  const OUTBYTES: nat := 64
  const TWO64: nat := 0x1_0000_0000_0000_0000
  const ALL_ONES: word := 0xFFFF_FFFF_FFFF_FFFF

  /** The eight words of the hash state. */
  type Chaining = h: seq<word> | |h| == 8 witness [0, 0, 0, 0, 0, 0, 0, 0]

  /** Chaining value, block, the two words of the counter and the two finalisation flags. */
  type Compression = (Chaining, seq<byte>, nat, nat, word, word) -> Chaining

  // ------------------------------------------------------------------ one-shot definition

  /** The two words of a byte counter. */
  function Low(n: nat): nat { n % TWO64 }

  function High(n: nat): nat { n / TWO64 % TWO64 }

  function Zeros(n: nat): seq<byte> { seq(n, _ => 0) }

  function Padded(b: seq<byte>): (p: seq<byte>)
    requires |b| <= BLOCKBYTES
    ensures |p| == BLOCKBYTES
  {
    b + Zeros(BLOCKBYTES - |b|)
  }

  /** How many blocks come before the last one, which is kept back even when it is full. */
  function BlocksBefore(n: nat): nat { if n == 0 then 0 else (n - 1) / BLOCKBYTES }

  /** The chaining value after the first `k` blocks of `msg`. */
  function Chain(f: Compression, h: Chaining, msg: seq<byte>, k: nat): Chaining
    requires BLOCKBYTES * k <= |msg|
    decreases k
  {
    if k == 0 then h
    else f(Chain(f, h, msg, k - 1), msg[BLOCKBYTES * (k - 1)..BLOCKBYTES * k],
           Low(BLOCKBYTES * k), High(BLOCKBYTES * k), 0, 0)
  }

  lemma BlocksFit(n: nat)
    ensures BLOCKBYTES * BlocksBefore(n) <= n <= BLOCKBYTES * BlocksBefore(n) + BLOCKBYTES
    ensures n > 0 ==> BLOCKBYTES * BlocksBefore(n) < n
  {
  }

  /** The final chaining value of a message: the last block is padded with zeros and flagged, and
      the counter then counts the bytes of the message. */
  function FinalChain(f: Compression, h: Chaining, msg: seq<byte>): Chaining {
    BlocksFit(|msg|);
    var k := BlocksBefore(|msg|);
    f(Chain(f, h, msg, k), Padded(msg[BLOCKBYTES * k..]), Low(|msg|), High(|msg|), ALL_ONES, 0)
  }

  const IV: Chaining := [0x6a09e667f3bcc908, 0xbb67ae8584caa73b, 0x3c6ef372fe94f82b, 0xa54ff53a5f1d36f1,
                         0x510e527fade682d1, 0x9b05688c2b3e6c1f, 0x1f83d9abfb41bd6b, 0x5be0cd19137e2179]

  /** The initial chaining value for an unkeyed digest of `outlen` bytes. */
  function Start(outlen: nat): Chaining
    requires 1 <= outlen <= OUTBYTES
  {
    IV[0 := IV[0] ^ 0x0101_0000 ^ Word(outlen)]
  }

  /** BLAKE2b of a message, without a key. */
  function Hash(f: Compression, outlen: nat, msg: seq<byte>): (d: seq<byte>)
    requires 1 <= outlen <= OUTBYTES
    ensures |d| == outlen
  {
    Stored(FinalChain(f, Start(outlen), msg))[..outlen]
  }

  // ------------------------------------------------------------------ the streaming state

  lemma {:induction false} ChainPrefix(f: Compression, h: Chaining, a: seq<byte>, b: seq<byte>, k: nat)
    requires BLOCKBYTES * k <= |a| && BLOCKBYTES * k <= |b|
    requires a[..BLOCKBYTES * k] == b[..BLOCKBYTES * k]
    ensures Chain(f, h, a, k) == Chain(f, h, b, k)
  {
    if k > 0 {
      var n := BLOCKBYTES * (k - 1);
      assert a[..n] == a[..BLOCKBYTES * k][..n] && b[..n] == b[..BLOCKBYTES * k][..n];
      assert a[n..BLOCKBYTES * k] == a[..BLOCKBYTES * k][n..] && b[n..BLOCKBYTES * k] == b[..BLOCKBYTES * k][n..];
      ChainPrefix(f, h, a, b, k - 1);
    }
  }

  lemma CounterStep(n: nat, inc: nat)
    requires inc < TWO64
    ensures Low(n + inc) == (Low(n) + inc) % TWO64
    ensures High(n + inc) == (High(n) + if Low(n + inc) < inc then 1 else 0) % TWO64
  {
    var q, r := n / TWO64, n % TWO64;
    assert n + inc == q * TWO64 + (r + inc);
    if r + inc < TWO64 {
      assert (n + inc) / TWO64 == q && Low(n + inc) == r + inc;
    } else {
      assert (n + inc) / TWO64 == q + 1 && Low(n + inc) == r + inc - TWO64;
    }
  }

  /** memcpy between different buffers. */
  method CopyBytes(dst: array<byte>, at: nat, src: array<byte>, from: nat, n: nat)
    requires dst != src && at + n <= dst.Length && from + n <= src.Length
    modifies dst
    ensures dst[..] == old(dst[..at]) + src[from..from + n] + old(dst[at + n..])
  {
    for k := 0 to n
      invariant dst[..at] == old(dst[..at]) && dst[at + n..] == old(dst[at + n..])
      invariant dst[at..at + k] == src[from..from + k]
    {
      dst[at + k] := src[from + k];
    }
    assert dst[..] == dst[..at] + dst[at..at + n] + dst[at + n..];
  }

  class State {
    const f: Compression
    const buf: array<byte>
    var h: Chaining
    var t0: nat
    var t1: nat
    var f0: word
    var f1: word
    var buflen: nat
    var outlen: nat
    var lastNode: bool

    /** The initial chaining value and the bytes absorbed since. */
    ghost var h0: Chaining
    ghost var msg: seq<byte>

    /** Ready for more input: all but the last block of the input is compressed, the rest is in the
        buffer, and the counter has counted what is compressed. */
    ghost predicate Absorbing()
      reads this, buf
    {
      var k := BlocksBefore(|msg|);
      && buf.Length == BLOCKBYTES && BLOCKBYTES * k <= |msg| <= BLOCKBYTES * k + BLOCKBYTES
      && buflen == |msg| - BLOCKBYTES * k && buf[..buflen] == msg[BLOCKBYTES * k..]
      && h == Chain(f, h0, msg, k)
      && t0 == Low(BLOCKBYTES * k) && t1 == High(BLOCKBYTES * k)
      && f0 == 0 && f1 == 0 && !lastNode && 1 <= outlen <= OUTBYTES
    }

    /** blake2b_init for a digest of `outlen` bytes; a wrong length leaves a state that refuses to work. */
    constructor (f: Compression, outlen: nat)
      ensures this.f == f && fresh(buf)
      ensures 1 <= outlen <= OUTBYTES ==>
        Absorbing() && msg == [] && h0 == Start(outlen) && this.outlen == outlen
      ensures !(1 <= outlen <= OUTBYTES) ==> f0 != 0 && buf.Length == BLOCKBYTES
    {
      this.f := f;
      buf := new byte[BLOCKBYTES];
      t0, t1, f0, f1, buflen, lastNode := 0, 0, 0, 0, 0, false;
      msg := [];
      if outlen == 0 || outlen > OUTBYTES {
        h, h0, f0 := [0, 0, 0, 0, 0, 0, 0, 0], [0, 0, 0, 0, 0, 0, 0, 0], ALL_ONES;
        this.outlen := 0;
      } else {
        h, h0 := Start(outlen), Start(outlen);
        this.outlen := outlen;
      }
    }

    /** blake2b_increment_counter. */
    method IncrementCounter(inc: nat, ghost n: nat)
      requires inc < TWO64 && t0 == Low(n) && t1 == High(n)
      modifies this`t0, this`t1
      ensures t0 == Low(n + inc) && t1 == High(n + inc)
    {
      CounterStep(n, inc);
      t0 := (t0 + inc) % TWO64;
      t1 := (t1 + if t0 < inc then 1 else 0) % TWO64;
    }

    method Compress(b: seq<byte>)
      modifies this`h
      ensures h == f(old(h), b, t0, t1, f0, f1)
    {
      h := f(h, b, t0, t1, f0, f1);
    }

    /** One block that is not the last: count it and compress it. */
    method NextBlock(b: seq<byte>, ghost all: seq<byte>, ghost k: nat)
      requires BLOCKBYTES * (k + 1) <= |all| && b == all[BLOCKBYTES * k..BLOCKBYTES * (k + 1)]
      requires h == Chain(f, h0, all, k) && t0 == Low(BLOCKBYTES * k) && t1 == High(BLOCKBYTES * k)
      requires f0 == 0 && f1 == 0
      modifies this`h, this`t0, this`t1
      ensures h == Chain(f, h0, all, k + 1) && t0 == Low(BLOCKBYTES * (k + 1)) && t1 == High(BLOCKBYTES * (k + 1))
    {
      hide Low, High;
      IncrementCounter(BLOCKBYTES, BLOCKBYTES * k);
      Compress(b);
    }

    /** The end of an update: the rest of the input stays in the buffer. */
    method Keep(pin: array<byte>, p: nat, left: nat, ghost all: seq<byte>, ghost k: nat)
      requires buf.Length == BLOCKBYTES && pin != buf && p + left <= pin.Length && buflen + left <= BLOCKBYTES
      requires 0 < left
      requires BLOCKBYTES * k <= |all| && buf[..buflen] + pin[p..p + left] == all[BLOCKBYTES * k..]
      requires h == Chain(f, h0, all, k) && t0 == Low(BLOCKBYTES * k) && t1 == High(BLOCKBYTES * k)
      requires f0 == 0 && f1 == 0 && !lastNode && 1 <= outlen <= OUTBYTES
      modifies this`buflen, this`msg, buf
      ensures Absorbing() && msg == all
    {
      hide Chain, Low, High;
      BlocksAre(|all|, k);
      CopyBytes(buf, buflen, pin, p, left);
      buflen := buflen + left;
      msg := all;
    }

    /** Compress straight from the input until at most one block is left. */
    method StreamBlocks(pin: array<byte>, first: nat, inlen: nat, ghost before: seq<byte>, ghost k0: nat)
      returns (p: nat, ghost k: nat)
      requires first < inlen <= pin.Length && |before| + first == BLOCKBYTES * k0
      requires h == Chain(f, h0, before + pin[..inlen], k0)
      requires t0 == Low(BLOCKBYTES * k0) && t1 == High(BLOCKBYTES * k0) && f0 == 0 && f1 == 0
      modifies this`h, this`t0, this`t1
      ensures first <= p < inlen <= p + BLOCKBYTES && |before| + p == BLOCKBYTES * k
      ensures h == Chain(f, h0, before + pin[..inlen], k)
      ensures t0 == Low(BLOCKBYTES * k) && t1 == High(BLOCKBYTES * k)
    {
      hide Low, High, Chain;
      k := k0;
      p := first;
      while inlen - p > BLOCKBYTES
        invariant first <= p < inlen && |before| + p == BLOCKBYTES * k
        invariant h == Chain(f, h0, before + pin[..inlen], k)
        invariant t0 == Low(BLOCKBYTES * k) && t1 == High(BLOCKBYTES * k)
      {
        WithinMore(before, pin[..inlen], p, BLOCKBYTES);
        NextBlock(pin[p..p + BLOCKBYTES], before + pin[..inlen], k);
        k := k + 1;
        p := p + BLOCKBYTES;
      }
    }

    /** The input does not fit in the buffer: complete the block kept back, then go on from the input. */
    method CompleteBlocks(pin: array<byte>, inlen: nat) returns (p: nat, ghost k: nat)
      requires Absorbing() && 0 < inlen <= pin.Length && pin != buf && buflen + inlen > BLOCKBYTES
      modifies this`h, this`t0, this`t1, this`buflen, buf
      ensures p < inlen <= p + BLOCKBYTES && |msg| + p == BLOCKBYTES * k && buflen == 0
      ensures h == Chain(f, h0, msg + pin[..inlen], k)
      ensures t0 == Low(BLOCKBYTES * k) && t1 == High(BLOCKBYTES * k)
    {
      ghost var k0 := BlocksBefore(|msg|);
      ChainPrefix(f, h0, msg, msg + pin[..inlen], k0);
      hide Low, High, Chain, BlocksBefore;
      var fill := BLOCKBYTES - buflen;
      CopyBytes(buf, buflen, pin, 0, fill);
      FirstBlock(msg, pin[..inlen], k0, buf[..], buflen);
      NextBlock(buf[..], msg + pin[..inlen], k0);
      buflen := 0;
      p, k := StreamBlocks(pin, fill, inlen, msg, k0 + 1);
    }

    /** An update once its arguments are known to be good. */
    method Absorb(pin: array<byte>, inlen: nat)
      requires Absorbing() && 0 < inlen <= pin.Length && pin != buf
      modifies this, buf
      ensures h0 == old(h0) && outlen == old(outlen) && Absorbing() && msg == old(msg) + pin[..inlen]
    {
      ghost var all := msg + pin[..inlen];
      ghost var k := BlocksBefore(|msg|);
      ChainPrefix(f, h0, msg, all, k);
      hide Low, High, Chain;
      var p := 0;
      if buflen + inlen > BLOCKBYTES {
        p, k := CompleteBlocks(pin, inlen);
      }
      KeptBack(msg, pin[..inlen], p, buf[..buflen], k);
      Keep(pin, p, inlen - p, all, k);
    }

    /** blake2b_update. */
    method Update(pin: array?<byte>, inlen: nat) returns (rc: int)
      requires buf.Length == BLOCKBYTES && (f0 == 0 ==> Absorbing())
      requires pin != null ==> inlen <= pin.Length && pin != buf
      modifies this, buf
      ensures h0 == old(h0) && outlen == old(outlen)
      ensures inlen == 0 || pin == null || old(f0) != 0 ==>
        rc == (if inlen == 0 then 0 else -1) && f0 == old(f0) && msg == old(msg) && h == old(h)
            && buf[..] == old(buf[..])
        && buflen == old(buflen) && t0 == old(t0) && t1 == old(t1) && f1 == old(f1) && lastNode == old(lastNode)
      ensures inlen > 0 && pin != null && old(f0) == 0 ==>
        rc == 0 && Absorbing() && msg == old(msg) + pin[..inlen]
    {
      if inlen == 0 {
        return 0;
      }
      if pin == null {
        return -1;
      }
      if f0 != 0 {
        return -1;
      }
      Absorb(pin, inlen);
      rc := 0;
    }

    /** blake2b_final: writes the digest to the front of `out` and wipes the state. */
    method Final(out: array?<byte>, capacity: nat) returns (rc: int)
      requires buf.Length == BLOCKBYTES && (f0 == 0 ==> Absorbing())
      requires out != null ==> capacity <= out.Length && out != buf
      modifies this, buf, out
      ensures out == null || capacity < old(outlen) || old(f0) != 0 ==>
        rc == -1 && f0 == old(f0) && msg == old(msg) && h == old(h) && buf[..] == old(buf[..]) && outlen == old(outlen)
        && (out != null ==> out[..] == old(out[..]))
      ensures out != null && capacity >= old(outlen) && old(f0) == 0 ==>
        && rc == 0 && f0 != 0 && outlen == old(outlen) <= out.Length
        && out[..] == Stored(FinalChain(f, old(h0), old(msg)))[..outlen] + old(out[..])[outlen..]
        && buf[..] == Zeros(BLOCKBYTES)
    {
      if out == null || capacity < outlen {
        return -1;
      }
      if f0 != 0 {
        return -1;
      }
      FinalBlock();
      hide FinalChain, Stored, Chain, BlocksBefore;
      WriteDigest(out);
      h := [0, 0, 0, 0, 0, 0, 0, 0];
      rc := 0;
    }

    /** The digest goes out through a buffer of its own, and the block buffer is wiped. */
    method WriteDigest(out: array<byte>)
      requires buf.Length == BLOCKBYTES && out != buf && outlen <= OUTBYTES && outlen <= out.Length
      modifies buf, out
      ensures out[..] == Stored(h)[..outlen] + old(out[..])[outlen..]
      ensures buf[..] == Zeros(BLOCKBYTES)
    {
      hide Stored;
      var buffer := new byte[OUTBYTES];
      StoreWords(buffer, h);
      CopyBytes(out, 0, buffer, 0, outlen);
      assert old(out[..0]) == [] && buffer[0..outlen] == Stored(h)[..outlen];
      FillZeros(0);
    }

    /** The last block, padded with zeros and flagged. */
    method FinalBlock()
      requires Absorbing()
      modifies this`h, this`t0, this`t1, this`f0, buf
      ensures h == FinalChain(f, h0, msg) && f0 == ALL_ONES
    {
      BlocksFit(|msg|);
      ghost var k := BlocksBefore(|msg|);
      hide Low, High, Chain;
      IncrementCounter(buflen, BLOCKBYTES * k);
      f0 := ALL_ONES;
      FillZeros(buflen);
      assert buf[..] == Padded(msg[BLOCKBYTES * k..]);
      Compress(buf[..]);
    }

    method FillZeros(from: nat)
      requires buf.Length == BLOCKBYTES && from <= BLOCKBYTES
      modifies buf
      ensures buf[..] == old(buf[..from]) + Zeros(BLOCKBYTES - from)
    {
      for j := from to BLOCKBYTES
        invariant buf[..from] == old(buf[..from])
        invariant forall n :: from <= n < j ==> buf[n] == 0
      {
        buf[j] := 0;
      }
    }
  }

  lemma BlocksAre(n: nat, k: nat)
    requires BLOCKBYTES * k < n <= BLOCKBYTES * k + BLOCKBYTES
    ensures BlocksBefore(n) == k
  {
  }

  lemma WithinMore(msg: seq<byte>, more: seq<byte>, p: nat, n: nat)
    requires p + n <= |more|
    ensures more[p..p + n] == (msg + more)[|msg| + p..|msg| + p + n]
  {
  }

  /** What is in the buffer and what is left of the input make up the rest of the message. */
  lemma KeptBack(msg: seq<byte>, more: seq<byte>, p: nat, kept: seq<byte>, k: nat)
    requires p <= |more| && BLOCKBYTES * k <= |msg| + p
    requires || (p == 0 && kept == msg[BLOCKBYTES * k..])
             || (kept == [] && |msg| + p == BLOCKBYTES * k)
    ensures kept + more[p..] == (msg + more)[BLOCKBYTES * k..]
  {
  }

  /** The first block completed by an update: what was kept back and the beginning of the input. */
  lemma FirstBlock(msg: seq<byte>, more: seq<byte>, k: nat, block: seq<byte>, buflen: nat)
    requires BLOCKBYTES * k <= |msg| && buflen == |msg| - BLOCKBYTES * k && buflen <= BLOCKBYTES
    requires |block| == BLOCKBYTES && |more| >= BLOCKBYTES - buflen
    requires block[..buflen] == msg[BLOCKBYTES * k..] && block[buflen..] == more[..BLOCKBYTES - buflen]
    ensures block == (msg + more)[BLOCKBYTES * k..BLOCKBYTES * (k + 1)]
  {
    assert block == block[..buflen] + block[buflen..];
  }

  // ------------------------------------------------------------------ whole messages

  function Joined(pieces: seq<array<byte>>): (msg: seq<byte>)
    reads pieces
  {
    if pieces == [] then [] else Joined(pieces[..|pieces| - 1]) + pieces[|pieces| - 1][..]
  }

  lemma NothingJoined(pieces: seq<array<byte>>)
    ensures Joined(pieces[..0]) == []
  {
  }

  lemma JoinedNext(pieces: seq<array<byte>>, k: nat)
    requires k < |pieces|
    ensures Joined(pieces[..k + 1]) == Joined(pieces[..k]) + pieces[k][..]
  {
    assert pieces[..k + 1][..k] == pieces[..k];
  }

  /** However a message is cut into updates, the digest is that of the whole message. */
  method HashPieces(f: Compression, outlen: nat, pieces: seq<array<byte>>) returns (d: array<byte>)
    requires 1 <= outlen <= OUTBYTES
    ensures d.Length == outlen && d[..] == Hash(f, outlen, Joined(pieces))
  {
    hide Hash, FinalChain, Stored, Chain, BlocksBefore, Low, High, Joined;
    var s := new State(f, outlen);
    NothingJoined(pieces);
    for k := 0 to |pieces|
      invariant fresh(s) && fresh(s.buf) && s.Absorbing() && s.f == f && s.h0 == Start(outlen) && s.outlen == outlen
      invariant s.msg == Joined(pieces[..k])
      invariant forall i :: 0 <= i < |pieces| ==> pieces[i] != s.buf
    {
      ghost var before := s.msg;
      var rc := s.Update(pieces[k], pieces[k].Length);
      assert pieces[k][..pieces[k].Length] == pieces[k][..];
      JoinedNext(pieces, k);
      assert s.msg == before + pieces[k][..];
    }
    assert pieces[..|pieces|] == pieces;
    d := new byte[outlen];
    ghost var msg := s.msg;
    var rc := s.Final(d, outlen);
    HashIs(f, outlen, msg);
  }

  lemma HashIs(f: Compression, outlen: nat, msg: seq<byte>)
    requires 1 <= outlen <= OUTBYTES
    ensures Hash(f, outlen, msg) == Stored(FinalChain(f, Start(outlen), msg))[..outlen]
  {
  }

  /** blake2b without a key: a failure that changes nothing, or the digest. */
  method HashInto(f: Compression, out: array?<byte>, outlen: nat, pin: array?<byte>, inlen: nat) returns (rc: int)
    requires (pin != null ==> inlen <= pin.Length) && (out != null ==> outlen <= out.Length)
    modifies out
    ensures rc == if (pin == null && inlen > 0) || out == null || !(1 <= outlen <= OUTBYTES) then -1 else 0
    ensures rc == -1 && out != null ==> out[..] == old(Everything(out))
    ensures rc == 0 ==>
      out != null && out[..] == Hash(f, outlen, old(Content(pin, inlen))) + old(Everything(out))[outlen..]
  {
    hide Hash, FinalChain, Stored, Chain, BlocksBefore, Low, High;
    if pin == null && inlen > 0 {
      return -1;
    }
    if out == null || outlen == 0 || outlen > OUTBYTES {
      return -1;
    }
    var s := new State(f, outlen);
    rc := s.Update(pin, inlen);
    ghost var msg := s.msg;
    assert msg == old(Content(pin, inlen));
    rc := s.Final(out, outlen);
    HashIs(f, outlen, msg);
  }

  // ------------------------------------------------------------------ blake2b_long

  /** V_i of section 3.3 of RFC 9106, for i from 1 on. */
  function V(f: Compression, t: nat, a: seq<byte>, i: nat): (v: seq<byte>)
    requires i >= 1
    ensures |v| == OUTBYTES
    decreases i
  {
    if i == 1 then Hash(f, OUTBYTES, Le32(t) + a) else Hash(f, OUTBYTES, V(f, t, a, i - 1))
  }

  /** W_1 to W_i: the first 32 bytes of each V. */
  function FirstHalves(f: Compression, t: nat, a: seq<byte>, i: nat): (w: seq<byte>)
    ensures |w| == 32 * i
  {
    if i == 0 then [] else FirstHalves(f, t, a, i - 1) + V(f, t, a, i)[..32]
  }

  /** H' of section 3.3 of RFC 9106. */
  function LongHash(f: Compression, t: nat, a: seq<byte>): (d: seq<byte>)
    requires t >= 1
    ensures |d| == t
  {
    if t <= OUTBYTES then Hash(f, t, Le32(t) + a)
    else
      var r := (t + 31) / 32 - 2;
      FirstHalves(f, t, a, r) + Hash(f, t - 32 * r, V(f, t, a, r))
  }

  /** The first digest of blake2b_long: of the length and the input. */
  method HashWithLength(f: Compression, out: array<byte>, digestLen: nat, t: nat, pin: array?<byte>, inlen: nat)
    returns (rc: int)
    requires 1 <= digestLen <= OUTBYTES && digestLen <= out.Length && (pin != null ==> inlen <= pin.Length)
    modifies out
    ensures pin == null && inlen > 0 ==> rc == -1 && out[..] == old(out[..])
    ensures pin != null ==>
      rc == 0 && out[..] == Hash(f, digestLen, Le32(t) + old(pin[..inlen])) + old(out[..])[digestLen..]
    ensures pin == null && inlen == 0 ==> rc == 0 && out[..] == Hash(f, digestLen, Le32(t)) + old(out[..])[digestLen..]
  {
    hide Hash, FinalChain, Stored, Chain, BlocksBefore, Low, High, Le32;
    var outlenBytes := new byte[4](n requires 0 <= n < 4 => Le32(t)[n]);
    assert outlenBytes[..4] == Le32(t);
    var s := new State(f, digestLen);
    rc := s.Update(outlenBytes, 4);
    assert s.msg == Le32(t);
    rc := s.Update(pin, inlen);
    if rc < 0 {
      return rc;
    }
    ghost var msg := s.msg;
    assert pin != null ==> msg == Le32(t) + old(pin[..inlen]);
    rc := s.Final(out, digestLen);
    HashIs(f, digestLen, msg);
  }

  /** The number of blocks the loop of blake2b_long has produced when it stops. */
  lemma LoopStops(t: nat, i: nat)
    requires i >= 1 && 32 < t - 32 * i <= OUTBYTES
    ensures i == (t + 31) / 32 - 2
  {
  }

  /** One link of the chain: copy the last digest and hash it again. */
  method NextDigest(f: Compression, outBuffer: array<byte>, inBuffer: array<byte>, outlen: nat)
    requires outBuffer.Length == inBuffer.Length == OUTBYTES && outBuffer != inBuffer && 1 <= outlen <= OUTBYTES
    modifies outBuffer, inBuffer
    ensures outBuffer[..outlen] == Hash(f, outlen, old(outBuffer[..]))
  {
    hide Hash;
    CopyBytes(inBuffer, 0, outBuffer, 0, OUTBYTES);
    assert inBuffer[..OUTBYTES] == old(outBuffer[..]);
    var rc := HashInto(f, outBuffer, outlen, inBuffer, OUTBYTES);
  }

  /** The digest is longer than 64 bytes: 32 bytes of each link, then the whole of the last one. */
  method LongDigest(f: Compression, out: array<byte>, outlen: nat, pin: array?<byte>, inlen: nat) returns (rc: int)
    requires OUTBYTES < outlen < 0x1_0000_0000 && outlen <= out.Length && (pin != null ==> inlen <= pin.Length)
    modifies out
    ensures pin == null && inlen > 0 ==> rc == -1 && out[..] == old(out[..])
    ensures !(pin == null && inlen > 0) ==>
      rc == 0 && out[..] == LongHash(f, outlen, if pin == null then [] else old(pin[..inlen])) + old(out[..])[outlen..]
  {
    hide Hash, Le32, V, FirstHalves;
    ghost var a := if pin == null then [] else pin[..inlen];
    ghost var rest := out[outlen..];
    var outBuffer := new byte[OUTBYTES];
    var inBuffer := new byte[OUTBYTES];
    rc := HashWithLength(f, outBuffer, OUTBYTES, outlen, pin, inlen);
    if rc < 0 {
      return rc;
    }
    assert Le32(outlen) + [] == Le32(outlen);
    assert outBuffer[..] == V(f, outlen, a, 1) by { FirstLink(f, outlen, a); }
    var p := Links(f, out, outlen, outBuffer, inBuffer, a);
    var toproduce := outlen - p;
    NextDigest(f, outBuffer, inBuffer, toproduce);
    CopyBytes(out, p, outBuffer, 0, toproduce);
    assert out[outlen..] == rest && outBuffer[0..toproduce] == outBuffer[..toproduce];
  }

  lemma FirstLink(f: Compression, t: nat, a: seq<byte>)
    ensures V(f, t, a, 1) == Hash(f, OUTBYTES, Le32(t) + a)
    ensures FirstHalves(f, t, a, 1) == V(f, t, a, 1)[..32]
  {
    hide Hash, Le32;
    assert FirstHalves(f, t, a, 0) == [];
  }

  lemma NextLink(f: Compression, t: nat, a: seq<byte>, i: nat)
    requires i >= 1
    ensures V(f, t, a, i + 1) == Hash(f, OUTBYTES, V(f, t, a, i))
    ensures FirstHalves(f, t, a, i + 1) == FirstHalves(f, t, a, i) + V(f, t, a, i + 1)[..32]
  {
    hide Hash, Le32;
  }

  /** The first half of each link, until 33 to 64 bytes are missing. */
  method Links(f: Compression, out: array<byte>, outlen: nat, outBuffer: array<byte>, inBuffer: array<byte>,
               ghost a: seq<byte>)
    returns (p: nat)
    requires OUTBYTES < outlen <= out.Length && outBuffer.Length == inBuffer.Length == OUTBYTES
    requires out != outBuffer && out != inBuffer && outBuffer != inBuffer
    requires outBuffer[..] == V(f, outlen, a, 1)
    modifies out, outBuffer, inBuffer
    ensures var r := (outlen + 31) / 32 - 2;
      && p == 32 * r && 32 < outlen - p <= OUTBYTES && r >= 1
      && out[..p] == FirstHalves(f, outlen, a, r) && outBuffer[..] == V(f, outlen, a, r)
    ensures out[outlen..] == old(out[outlen..])
  {
    hide Hash, V, FirstHalves;
    FirstLink(f, outlen, a);
    CopyBytes(out, 0, outBuffer, 0, 32);
    assert out[..32] == outBuffer[0..32] == outBuffer[..32];
    p := 32;
    var toproduce := outlen - 32;
    ghost var i := 1;
    while toproduce > OUTBYTES
      invariant i >= 1 && p == 32 * i && p + toproduce == outlen && toproduce > 32
      invariant out[..p] == FirstHalves(f, outlen, a, i) && out[outlen..] == old(out[outlen..])
      invariant outBuffer[..] == V(f, outlen, a, i)
    {
      NextLink(f, outlen, a, i);
      NextDigest(f, outBuffer, inBuffer, OUTBYTES);
      assert outBuffer[..] == outBuffer[..OUTBYTES];
      AppendHalf(out, p, outBuffer, outlen);
      i := i + 1;
      p := p + 32;
      toproduce := toproduce - 32;
    }
    LoopStops(outlen, i);
  }

  method AppendHalf(out: array<byte>, p: nat, outBuffer: array<byte>, outlen: nat)
    requires out != outBuffer && p + 32 <= outlen <= out.Length && outBuffer.Length == OUTBYTES
    modifies out
    ensures out[..p + 32] == old(out[..p]) + outBuffer[..32] && out[outlen..] == old(out[outlen..])
  {
    CopyBytes(out, p, outBuffer, 0, 32);
    assert out[outlen..] == out[p + 32..][outlen - p - 32..];
  }

  /** blake2b_long: H' for every length from 1 to 2^32 - 1, and a failure for any other. */
  method Long(f: Compression, out: array<byte>, outlen: nat, pin: array?<byte>, inlen: nat) returns (rc: int)
    requires outlen <= out.Length && (pin != null ==> inlen <= pin.Length)
    modifies out
    ensures outlen == 0 || outlen >= 0x1_0000_0000 || (pin == null && inlen > 0) ==> rc == -1 && out[..] == old(out[..])
    ensures 1 <= outlen < 0x1_0000_0000 && !(pin == null && inlen > 0) ==>
      rc == 0 && out[..] == LongHash(f, outlen, if pin == null then [] else old(pin[..inlen])) + old(out[..])[outlen..]
  {
    if outlen >= 0x1_0000_0000 {
      return -1;
    }
    if outlen <= OUTBYTES {
      if outlen == 0 {
        return -1;
      }
      hide Hash, Le32;
      assert Le32(outlen) + [] == Le32(outlen);
      rc := HashWithLength(f, out, outlen, outlen, pin, inlen);
    } else {
      rc := LongDigest(f, out, outlen, pin, inlen);
    }
  }
}
