/** Bytes, and the little-endian form of numbers and words (store32, store64, load64). */
module Bytes {
  import opened Words

  type byte = x: int | 0 <= x < 256

  function Pow256(k: nat): (p: nat)
    ensures p > 0
  {
    if k == 0 then 1 else 256 * Pow256(k - 1)
  }

  /** The `k` low bytes of a number, least significant first. */
  function LeBytes(n: nat, k: nat): (b: seq<byte>)
    ensures |b| == k
  {
    if k == 0 then [] else [n % 256] + LeBytes(n / 256, k - 1)
  }

  function LeValue(b: seq<byte>): (n: nat)
    ensures n < Pow256(|b|)
  {
    if b == [] then 0 else (b[0] as int) + 256 * LeValue(b[1..])
  }

  lemma {:induction false} LeRoundTrip(n: nat, k: nat)
    requires n < Pow256(k)
    ensures LeValue(LeBytes(n, k)) == n
  {
    if k > 0 {
      LeRoundTrip(n / 256, k - 1);
      assert LeBytes(n, k)[1..] == LeBytes(n / 256, k - 1);
    }
  }

  lemma PowersOf256()
    ensures Pow256(4) == 0x1_0000_0000 && Pow256(8) == 0x1_0000_0000_0000_0000
  {
    assert Pow256(4) == 0x1_0000_0000;
  }

  /** store32. */
  function Le32(n: nat): (b: seq<byte>)
    ensures |b| == 4
  {
    LeBytes(n, 4)
  }

  /** Different 32-bit numbers have different bytes. */
  lemma Le32Injective(m: nat, n: nat)
    requires m < 0x1_0000_0000 && n < 0x1_0000_0000 && Le32(m) == Le32(n)
    ensures m == n
  {
    PowersOf256();
    LeRoundTrip(m, 4);
    LeRoundTrip(n, 4);
  }

  /** store64. */
  function WordBytes(w: word): (b: seq<byte>)
    ensures |b| == 8
  {
    LeBytes(w as int, 8)
  }

  /** load64. */
  function WordOf(b: seq<byte>): word
    requires |b| == 8
  {
    PowersOf256();
    LeValue(b) as word
  }

  lemma WordRoundTrip(w: word)
    ensures WordOf(WordBytes(w)) == w
  {
    PowersOf256();
    LeRoundTrip(w as int, 8);
  }

  /** The bytes of a row of words. */
  function Stored(ws: seq<word>): (b: seq<byte>)
    ensures |b| == 8 * |ws|
  {
    if ws == [] then [] else WordBytes(ws[0]) + Stored(ws[1..])
  }

  /** The words of a row of bytes. */
  function Loaded(b: seq<byte>): (ws: seq<word>)
    requires |b| % 8 == 0
    ensures 8 * |ws| == |b|
  {
    if b == [] then [] else [WordOf(b[..8])] + Loaded(b[8..])
  }

  /** Loading undoes storing. */
  lemma {:induction false} LoadStored(ws: seq<word>)
    ensures Loaded(Stored(ws)) == ws
  {
    hide WordBytes, WordOf;
    if ws != [] {
      var b := Stored(ws);
      assert b[..8] == WordBytes(ws[0]) && b[8..] == Stored(ws[1..]);
      WordRoundTrip(ws[0]);
      LoadStored(ws[1..]);
    }
  }

  lemma {:induction false} StoredAppend(ws: seq<word>, w: word)
    ensures Stored(ws + [w]) == Stored(ws) + WordBytes(w)
  {
    hide WordBytes;
    if ws == [] {
      assert [w][1..] == [];
    } else {
      assert (ws + [w])[1..] == ws[1..] + [w];
      StoredAppend(ws[1..], w);
    }
  }

  lemma {:induction false} LoadedAppend(b: seq<byte>, c: seq<byte>)
    requires |b| % 8 == 0 && |c| == 8
    ensures Loaded(b + c) == Loaded(b) + [WordOf(c)]
  {
    hide WordOf;
    if b == [] {
      assert b + c == c && c[..8] == c && c[8..] == [];
    } else {
      assert (b + c)[..8] == b[..8] && (b + c)[8..] == b[8..] + c;
      LoadedAppend(b[8..], c);
    }
  }

  /** Writes words to the front of a buffer, eight bytes at a time. */
  method StoreWords(out: array<byte>, ws: seq<word>)
    requires 8 * |ws| <= out.Length
    modifies out
    ensures out[..] == Stored(ws) + old(out[..])[8 * |ws|..]
  {
    hide WordBytes, Stored;
    assert ws[..0] == [] && Stored([]) == [] by { StoredEmpty(); }
    for i := 0 to |ws|
      invariant out[..8 * i] == Stored(ws[..i])
      invariant out[8 * i..] == old(out[..])[8 * i..]
    {
      ghost var before := out[..];
      StoreWord(out, 8 * i, ws[i]);
      assert out[8 * (i + 1)..] == before[8 * i + 8..] == before[8 * i..][8..];
      StoredAppend(ws[..i], ws[i]);
      assert ws[..i] + [ws[i]] == ws[..i + 1];
      assert out[..8 * (i + 1)] == out[..8 * i] + out[8 * i..8 * i + 8];
    }
    assert ws[..|ws|] == ws;
    assert out[..] == out[..8 * |ws|] + out[8 * |ws|..];
  }

  lemma StoredEmpty()
    ensures Stored([]) == []
  {
  }

  method StoreWord(out: array<byte>, at: nat, w: word)
    requires at + 8 <= out.Length
    modifies out
    ensures out[at..at + 8] == WordBytes(w)
    ensures out[..at] == old(out[..at]) && out[at + 8..] == old(out[at + 8..])
  {
    var bytes := WordBytes(w);
    hide WordBytes;
    for k := 0 to 8
      invariant out[at..at + k] == bytes[..k]
      invariant out[..at] == old(out[..at]) && out[at + 8..] == old(out[at + 8..])
    {
      out[at + k] := bytes[k];
    }
  }

  // ------------------------------------------------------------------ buffers that may be missing

  /** The first `n` bytes of an optional buffer. */
  ghost function Content(b: array?<byte>, n: nat): seq<byte>
    requires b != null ==> n <= b.Length
    reads b
  {
    if b == null then [] else b[..n]
  }

  ghost function Everything(b: array?<byte>): seq<byte>
    reads b
  {
    if b == null then [] else b[..]
  }
}
