/** Unpadded base64 of encoding.c. Text is a sequence of characters with codes below 256 and without
    the terminating zero. */
module Base64 {
  import opened Options
  import opened Bytes
  import opened Arithmetic

  // ------------------------------------------------------------------ the comparison macros

  /** 0xFF when true, 0 when false, without a branch, on unsigned arithmetic. */
  function Eq(x: bv32, y: bv32): bv32 { (((0 - (x ^ y)) >> 8) & 0xFF) ^ 0xFF }

  function Gt(x: bv32, y: bv32): bv32 { ((y - x) >> 8) & 0xFF }

  function Ge(x: bv32, y: bv32): bv32 { Gt(y, x) ^ 0xFF }

  function Lt(x: bv32, y: bv32): bv32 { Gt(y, x) }

  function Le(x: bv32, y: bv32): bv32 { Ge(y, x) }

  /** b64_byte_to_char. */
  function ByteToChar(x: bv32): bv32 {
    (Lt(x, 26) & (x + 65)) | (Ge(x, 26) & Lt(x, 52) & (x + 71)) | (Ge(x, 52) & Lt(x, 62) & (x - 4))
    | (Eq(x, 62) & 43) | (Eq(x, 63) & 47)
  }

  /** b64_char_to_byte; its argument is an int in C, here its 32 bits. */
  function CharToByte(c: bv32): bv32 {
    var x := (Ge(c, 65) & Le(c, 90) & (c - 65)) | (Ge(c, 97) & Le(c, 122) & (c - 71))
           | (Ge(c, 48) & Le(c, 57) & (c + 4)) | (Eq(c, 43) & 62) | (Eq(c, 47) & 63);
    x | (Eq(x, 0) & (Eq(c, 65) ^ 0xFF))
  }

  /** The alphabet, as codes. */
  function Code(x: bv32): bv32 {
    if x < 26 then x + 65 else if x < 52 then x + 71 else if x < 62 then x - 4 else if x == 62 then 43 else 47
  }

  lemma ByteToCharIsCode(x: bv32)
    requires x < 64
    ensures ByteToChar(x) == Code(x)
  {
  }

  lemma CharToByteOfCode(x: bv32)
    requires x < 64
    ensures CharToByte(Code(x)) == x
  {
  }

  /** On codes 0 to 255 a value below 64 is returned exactly for the characters of the alphabet. */
  lemma CharToByteExact(c: bv32)
    requires c < 256
    ensures CharToByte(c) < 64 || CharToByte(c) == 0xFF
    ensures CharToByte(c) < 64 ==> Code(CharToByte(c)) == c
  {
  }

  /** Where char is signed, a byte of 128 or more arrives here as a negative int: it is read as the
      last letter of the alphabet. */
  lemma NegativeCharReadAsSlash(c: bv32)
    requires c >= 0xFFFF_FF80
    ensures CharToByte(c) == 63 == CharToByte(47)
  {
  }

  // ------------------------------------------------------------------ the same on numbers

  /** The letter for a value below 64. */
  function Symbol(v: nat): (c: char)
    requires v < 64
  {
    (if v < 26 then v + 65 else if v < 52 then v + 71 else if v < 62 then v - 4 else if v == 62 then 43 else 47) as char
  }

  /** The value of a letter, if it is one. */
  function Value(c: char): Option<nat> {
    var n := c as int;
    if 65 <= n <= 90 then Some(n - 65)
    else if 97 <= n <= 122 then Some(n - 71)
    else if 48 <= n <= 57 then Some(n + 4)
    else if n == 43 then Some(62)
    else if n == 47 then Some(63)
    else None
  }

  lemma ValueOfSymbol(v: nat)
    requires v < 64
    ensures Value(Symbol(v)) == Some(v)
  {
  }

  lemma SymbolOfValue(c: char)
    ensures Value(c).Some? ==> Value(c).value < 64 && Symbol(Value(c).value) == c
  {
  }

  /** The byte with value `n` (modulo 256): 0 incremented `n` times. */
  function Bits(n: nat): bv8 { if n == 0 then 0 else Bits(n - 1) + 1 }

  lemma Bits8(n: nat)
    requires n < 256
    ensures Bits(n) as int == n
  {
    if n > 0 {
      Bits8(n - 1);
      Successor8(Bits(n - 1), 255);
    }
  }

  lemma Successor8(b: bv8, top: bv8)
    requires top == 255 && b as int < 255
    ensures (b + 1) as int == b as int + 1
  {
  }

  lemma Order8(a: bv8, b: bv8)
    ensures a < b <==> (a as int) < (b as int)
  {
  }

  function Code8(x: bv8): bv8 {
    if x < 26 then x + 65 else if x < 52 then x + 71 else if x < 62 then x - 4 else if x == 62 then 43 else 47
  }

  lemma CodeFits(x: bv8)
    requires x < 64
    ensures Code(x as bv32) == Code8(x) as bv32 && Code8(x) < 123
  {
  }

  lemma Code8Value(x: bv8)
    requires x < 64
    ensures x as int < 64 && Code8(x) as int == Symbol(x as int) as int
  {
    Order8(x, 26);
    Order8(x, 52);
    Order8(x, 62);
    Order8(x, 64);
  }

  lemma SameValue8(a: bv8, b: bv8)
    requires a as int == b as int
    ensures a == b
  {
  }

  lemma CharToByteFits(b: bv8)
    ensures var r := CharToByte(b as bv32);
            (r < 64 || r == 0xFF) && (r < 64 ==> Code8(r as bv8) == b)
  {
    CharToByteExact(b as bv32);
    var r := CharToByte(b as bv32);
    if r < 64 {
      CodeFits(r as bv8);
    }
  }

  /** The value from_base64 computes for a character with a code below 256: 255 for no letter. */
  function Decoded(c: char): nat
    requires c as int < 256
  {
    var b := Bits(c as int);
    CharToByteFits(b);
    (CharToByte(b as bv32) as bv8) as int
  }

  /** The character to_base64 writes for a value below 64. */
  function Encoded(v: nat): char
    requires v < 64
  {
    var b := Bits(v);
    ByteToCharFits(v);
    ((ByteToChar(b as bv32) as bv8) as int) as char
  }

  lemma ByteToCharFits(v: nat)
    requires v < 64
    ensures var b := Bits(v); b < 64 && ByteToChar(b as bv32) == Code8(b) as bv32 && b as int == v
  {
    Bits8(v);
    var b := Bits(v);
    Order8(b, 64);
    CodeFits(b);
    ByteToCharIsCode(b as bv32);
  }

  /** The branch-free functions are the alphabet and its inverse. */
  lemma EncodedIsSymbol(v: nat)
    requires v < 64
    ensures Encoded(v) == Symbol(v)
  {
    ByteToCharFits(v);
    Code8Value(Bits(v));
  }

  lemma LetterDecoded(c: char, v: nat)
    requires v < 64 && Symbol(v) == c
    ensures c as int < 256 && Decoded(c) == v
  {
    var x, b := Bits(v), Bits(c as int);
    Bits8(c as int);
    ByteToCharFits(v);
    Code8Value(x);
    hide Symbol, Code8, ByteToChar;
    SameValue8(Code8(x), b);
    CodeFits(x);
    CharToByteOfCode(x as bv32);
    hide CharToByte, Code;
  }

  lemma DecodedLetter(c: char)
    requires c as int < 256 && Decoded(c) < 64
    ensures Symbol(Decoded(c)) == c
  {
    var b := Bits(c as int);
    Bits8(c as int);
    CharToByteFits(b);
    var r := CharToByte(b as bv32) as bv8;
    hide CharToByte;
    Order8(r, 64);
    Code8Value(r);
    hide Symbol, Code8;
  }

  lemma DecodedRange(c: char)
    requires c as int < 256
    ensures Decoded(c) < 64 || Decoded(c) == 255
  {
    var b := Bits(c as int);
    CharToByteFits(b);
    var r := CharToByte(b as bv32) as bv8;
    hide CharToByte;
    Order8(r, 64);
    SameAs255(r);
  }

  lemma SameAs255(r: bv8)
    ensures r == 0xFF ==> r as int == 255
  {
  }

  lemma DecodedIsValue(c: char)
    requires c as int < 256
    ensures Decoded(c) == if Value(c).Some? then Value(c).value else 255
  {
    hide Decoded, Symbol;
    SymbolOfValue(c);
    if Value(c).Some? {
      LetterDecoded(c, Value(c).value);
    } else {
      DecodedRange(c);
      if Decoded(c) < 64 {
        DecodedLetter(c);
        ValueOfSymbol(Decoded(c));
      }
    }
  }

  // ------------------------------------------------------------------ where char is signed

  /** What the comparisons take a character for: where char is signed, the codes from 128 on are
      negative, and b64_char_to_byte takes them for the last letter. */
  function SeenChar(c: char, signed: bool): char {
    if signed && c as int >= 128 then '/' else c
  }

  function Seen(s: string, signed: bool): (t: string)
    ensures |t| == |s| && forall i :: 0 <= i < |s| ==> t[i] == SeenChar(s[i], signed)
  {
    seq(|s|, i requires 0 <= i < |s| => SeenChar(s[i], signed))
  }

  ghost predicate Ascii(s: string) { forall i :: 0 <= i < |s| ==> (s[i] as int) < 128 }

  /** A string is taken for itself exactly where char is unsigned or all its codes are below 128. */
  lemma SeenAsItIs(s: string, signed: bool)
    ensures Seen(s, signed) == s <==> !signed || Ascii(s)
  {
    if Seen(s, signed) == s && signed {
      forall i | 0 <= i < |s| ensures (s[i] as int) < 128 {
        assert s[i] == SeenChar(s[i], signed);
      }
    }
  }

  /** The value from_base64 computes for a character: the code is extended to an int with or without
      its sign. */
  function DecodedChar(c: char, signed: bool): nat
    requires c as int < 256
  {
    var b := Bits(c as int);
    if signed && c as int >= 128 then
      NegativeFits(c);
      (CharToByte((b as bv32) | 0xFFFF_FF00) as bv8) as int
    else Decoded(c)
  }

  lemma NegativeFits(c: char)
    requires 128 <= c as int < 256
    ensures var r := CharToByte((Bits(c as int) as bv32) | 0xFFFF_FF00);
            r < 256 && (r as bv8) as int == 63
  {
    var b := Bits(c as int);
    Bits8(c as int);
    Order8(0x7F, b);
    SignExtended(b);
    NegativeCharReadAsSlash((b as bv32) | 0xFFFF_FF00);
    hide CharToByte;
  }

  lemma SignExtended(b: bv8)
    requires b > 0x7F
    ensures (b as bv32) | 0xFFFF_FF00 >= 0xFFFF_FF80
  {
  }

  lemma DecodedCharIsSeen(c: char, signed: bool)
    requires c as int < 256
    ensures DecodedChar(c, signed) == Decoded(SeenChar(c, signed))
  {
    hide CharToByte, Decoded;
    if signed && c as int >= 128 {
      NegativeFits(c);
      DecodedIsValue('/');
    }
  }

  // ------------------------------------------------------------------ the text of some bytes

  function ByteAt(s: seq<byte>, i: nat): byte { if i < |s| then s[i] else 0 }

  /** The sextet at place `r` of three bytes. */
  function SextetOf(r: nat, a: byte, b: byte, c: byte): (v: nat)
    ensures v < 64
  {
    if r == 0 then a / 4
    else if r == 1 then a % 4 * 16 + b / 16
    else if r == 2 then b % 16 * 4 + c / 64
    else c % 64
  }

  /** The byte at place `r` of three bytes, from the two sextets it is part of. */
  function ByteOf(r: nat, x: nat, y: nat): nat {
    if r == 0 then x * 4 + y / 16
    else if r == 1 then x % 16 * 16 + y / 4
    else x % 4 * 64 + y
  }

  /** The six bits of `s`, followed by zeros, that letter `j` stands for. */
  function Sextet(s: seq<byte>, j: nat): (v: nat)
    ensures v < 64
  {
    var b := 3 * (j / 4);
    SextetOf(j % 4, ByteAt(s, b), ByteAt(s, b + 1), ByteAt(s, b + 2))
  }

  /** b64len: two letters for one byte left over, three for two. */
  function TextLength(n: nat): nat {
    n / 3 * 4 + if n % 3 == 0 then 0 else n % 3 + 1
  }

  /** The unpadded base64 text of some bytes (section 4 of RFC 4648). */
  function Text(s: seq<byte>): (t: string)
    ensures |t| == TextLength(|s|)
  {
    seq(TextLength(|s|), j requires 0 <= j => Symbol(Sextet(s, j)))
  }

  /** The bytes that sextets make up, byte by byte. */
  function FromSextets(v: seq<nat>, i: nat): nat
    requires 8 * i + 8 <= 6 * |v|
  {
    var j := 4 * (i / 3) + i % 3;
    ByteOf(i % 3, v[j], v[j + 1])
  }

  function Sextets(s: seq<byte>): (v: seq<nat>)
    ensures |v| == TextLength(|s|)
    ensures forall j :: 0 <= j < |v| ==> v[j] == Sextet(s, j)
  {
    seq(TextLength(|s|), j requires 0 <= j => Sextet(s, j))
  }

  /** Every byte can be read back from the letters. */
  lemma ByteFromSextets(s: seq<byte>, i: nat)
    requires i < |s|
    ensures 8 * i + 8 <= 6 * TextLength(|s|) && FromSextets(Sextets(s), i) == s[i]
  {
    TextLongEnough(|s|, i);
    ByteFromPlace(s, Sextets(s), i / 3, i % 3);
  }

  lemma FromPlace(v: seq<nat>, q: nat, r: nat)
    requires r < 3 && 4 * q + r + 2 <= |v|
    ensures 8 * (3 * q + r) + 8 <= 6 * |v|
    ensures FromSextets(v, 3 * q + r) == ByteOf(r, v[4 * q + r], v[4 * q + r + 1])
  {
    assert (3 * q + r) / 3 == q && (3 * q + r) % 3 == r;
  }

  lemma ByteFromPlace(s: seq<byte>, v: seq<nat>, q: nat, r: nat)
    requires r < 3 && 3 * q + r < |s| && 4 * q + r + 2 <= |v|
    requires forall j :: 0 <= j < |v| ==> v[j] == Sextet(s, j)
    ensures 8 * (3 * q + r) + 8 <= 6 * |v| && FromSextets(v, 3 * q + r) == s[3 * q + r]
  {
    hide SextetOf, ByteOf, Sextet, FromSextets;
    FromPlace(v, q, r);
    SextetAt(s, q, r);
    SextetAt(s, q, r + 1);
    Recombine(r, ByteAt(s, 3 * q), ByteAt(s, 3 * q + 1), ByteAt(s, 3 * q + 2));
  }

  /** Three bytes cut into sextets and put together again. */
  lemma Recombine(r: nat, a: byte, b: byte, c: byte)
    requires r < 3
    ensures ByteOf(r, SextetOf(r, a, b, c), SextetOf(r + 1, a, b, c)) == if r == 0 then a else if r == 1 then b else c
  {
    if r == 0 {
      DivModUnique(a % 4, 16, b / 16);
    } else if r == 1 {
      DivModUnique(a % 4, 16, b / 16);
      DivModUnique(b % 16, 4, c / 64);
    } else {
      DivModUnique(b % 16, 4, c / 64);
    }
  }

  lemma TextLongEnough(n: nat, i: nat)
    requires i < n
    ensures 8 * i + 8 <= 6 * TextLength(n)
  {
  }

  lemma SextetAt(s: seq<byte>, q: nat, r: nat)
    requires r < 4
    ensures Sextet(s, 4 * q + r) == SextetOf(r, ByteAt(s, 3 * q), ByteAt(s, 3 * q + 1), ByteAt(s, 3 * q + 2))
  {
    assert (4 * q + r) / 4 == q && (4 * q + r) % 4 == r;
  }

  /** Different bytes have different texts. */
  lemma TextInjective(s: seq<byte>, t: seq<byte>)
    requires Text(s) == Text(t)
    ensures s == t
  {
    LengthFromText(|s|);
    LengthFromText(|t|);
    assert Sextets(s) == Sextets(t) by {
      forall j | 0 <= j < |Text(s)| ensures Sextet(s, j) == Sextet(t, j) {
        assert Text(s)[j] == Text(t)[j];
        ValueOfSymbol(Sextet(s, j));
        ValueOfSymbol(Sextet(t, j));
      }
    }
    forall i | 0 <= i < |s| ensures s[i] == t[i] {
      ByteFromSextets(s, i);
      ByteFromSextets(t, i);
    }
  }

  /** The number of bytes is three quarters of the number of letters, rounded down. */
  lemma LengthFromText(n: nat)
    ensures n == 6 * TextLength(n) / 8 && TextLength(n) % 4 != 1
  {
  }

  // ------------------------------------------------------------------ to_base64

  const TWO32: nat := 0x1_0000_0000

  function Pow2(k: nat): (p: nat)
    ensures p > 0
  {
    if k == 0 then 1 else 2 * Pow2(k - 1)
  }

  lemma SmallPowers()
    ensures Pow2(2) == 4 && Pow2(4) == 16 && Pow2(6) == 64 && Pow2(0) == 1
  {
  }

  /** The four bits kept over from the byte before index `i`. */
  function Carry(s: seq<byte>, i: nat): nat
    requires i <= |s|
  {
    if i == 0 then 0 else s[i - 1] % 16
  }

  /** The accumulator with one more byte; it wraps at 32 bits. */
  function Pushed(acc: nat, b: byte): nat { (acc * 256 + b) % TWO32 }

  /** Pushing a byte: the accumulator wraps at 32 bits, but its low twelve bits do not notice. */
  lemma PushByte(acc: nat, carry: nat, b: byte)
    requires acc % 16 == carry
    ensures Pushed(acc, b) % 4096 == carry * 256 + b
    ensures Pushed(acc, b) % 16 == b % 16
  {
    var x := acc * 256 + b;
    LowBits(x);
    DivModUnique(acc / 16, 4096, carry * 256 + b);
    assert x == (acc / 16) * 4096 + (carry * 256 + b);
    DivModUnique(carry * 16 + b / 16, 16, b % 16);
  }

  lemma LowBits(x: nat)
    ensures x % TWO32 % 4096 == x % 4096
    ensures x % TWO32 % 16 == x % 4096 % 16
  {
    var q, r := x / TWO32, x % TWO32;
    assert x == (1048576 * q + r / 4096) * 4096 + r % 4096;
    DivModUnique(1048576 * q + r / 4096, 4096, r % 4096);
    assert r == (r / 4096 * 256 + r % 4096 / 16) * 16 + r % 4096 % 16;
    DivModUnique(r / 4096 * 256 + r % 4096 / 16, 16, r % 4096 % 16);
  }

  lemma Pieces(acc: nat, c: nat, b: byte)
    requires c < 16 && acc % 4096 == c * 256 + b
    ensures acc / 4 % 64 == b / 4
    ensures acc / 16 % 64 == c % 4 * 16 + b / 16
    ensures acc / 64 % 64 == c * 4 + b / 64
    ensures acc % 64 == b % 64
  {
    var k := acc / 4096;
    assert acc == k * 4096 + c * 256 + b;
    DivModUnique(k * 1024 + c * 64 + b / 4, 4, b % 4);
    DivModUnique(k * 16 + c, 64, b / 4);
    DivModUnique(k * 256 + c * 16 + b / 16, 16, b % 16);
    DivModUnique(k * 4 + c / 4, 64, c % 4 * 16 + b / 16);
    DivModUnique(k * 64 + c * 4 + b / 64, 64, b % 64);
    DivModUnique(k, 64, c * 4 + b / 64);
  }

  /** Which letter of the four is written with `left` bits still waiting. */
  function PlaceOf(left: nat): nat { if left == 2 then 0 else if left == 4 then 1 else if left == 6 then 2 else 3 }

  lemma LeftOver(q: nat, r: nat, j: nat, left: nat)
    requires r < 3 && 8 * (3 * q + r + 1) == 6 * (j + 1) + left && left <= 6
    ensures left == (if r == 0 then 2 else if r == 1 then 4 else if j == 4 * q + 2 then 6 else 0)
    ensures j == 4 * q + PlaceOf(left)
  {
    var m := j - 4 * q;
    assert 6 * m + left == 8 * r + 2;
    assert 0 <= m <= 3;
  }

  /** The six bits written with `left` bits still waiting after byte `b`, which comes after `prev`. */
  function LetterFrom(left: nat, prev: byte, b: byte): nat {
    if left == 2 then b / 4
    else if left == 4 then prev % 4 * 16 + b / 16
    else if left == 6 then prev % 16 * 4 + b / 64
    else b % 64
  }

  lemma LetterBits(acc: nat, prev: byte, b: byte, left: nat)
    requires left in {0, 2, 4, 6} && acc % 4096 == prev % 16 * 256 + b
    ensures acc / Pow2(left) % 64 == LetterFrom(left, prev, b)
  {
    SmallPowers();
    hide Pow2;
    Pieces(acc, prev % 16, b);
    DivModUnique(prev / 16 * 4 + prev % 16 / 4, 4, prev % 16 % 4);
    assert prev % 16 % 4 == prev % 4;
  }

  /** The letter written with `left` bits still waiting after byte `i`. */
  lemma LetterOfByte(s: seq<byte>, i: nat, j: nat, acc: nat, left: nat)
    requires i < |s| && acc % 4096 == Carry(s, i) * 256 + s[i]
    requires 8 * (i + 1) == 6 * (j + 1) + left && left <= 6
    ensures acc / Pow2(left) % 64 == Sextet(s, j)
  {
    hide Sextet, Pow2;
    var q, r, prev := i / 3, i % 3, if i > 0 then s[i - 1] else 0;
    assert i == 3 * q + r;
    LeftOver(q, r, j, left);
    LetterBits(acc, prev, s[i], left);
    SextetAt(s, q, PlaceOf(left));
    LetterInPlace(s, q, r, left);
  }

  lemma LetterInPlace(s: seq<byte>, q: nat, r: nat, left: nat)
    requires r < 3 && 3 * q + r < |s|
    requires if r == 0 then left == 2 else if r == 1 then left == 4 else left == 6 || left == 0
    ensures var i := 3 * q + r; var prev := if i > 0 then s[i - 1] else 0;
            SextetOf(PlaceOf(left), ByteAt(s, 3 * q), ByteAt(s, 3 * q + 1), ByteAt(s, 3 * q + 2))
            == LetterFrom(left, prev, s[i])
  {
  }

  /** The last letter, with two or four bits of the last byte and zeros. */
  lemma LastLetter(s: seq<byte>, acc: nat, left: nat)
    requires s != [] && acc % 16 == Carry(s, |s|) && left == 2 * (|s| % 3) && left > 0
    ensures acc * Pow2(6 - left) % TWO32 % 64 == Sextet(s, TextLength(|s|) - 1)
  {
    SmallPowers();
    var q := |s| / 3;
    hide Sextet;
    SextetAt(s, q, |s| % 3);
    ShiftedBits(acc, s[|s| - 1]);
  }

  lemma ShiftedBits(acc: nat, b: byte)
    requires acc % 16 == b % 16
    ensures acc * 16 % TWO32 % 64 == b % 4 * 16
    ensures acc * 4 % TWO32 % 64 == b % 16 * 4
  {
    var k, c := acc / 16, b % 16;
    assert acc == 16 * k + c;
    SixBits(acc * 16);
    SixBits(acc * 4);
    DivModUnique(4 * (b / 16) + c / 4, 4, c % 4);
    assert c % 4 == b % 4;
    DivModUnique(4 * k + c / 4, 64, c % 4 * 16);
    assert acc * 16 == (4 * k + c / 4) * 64 + c % 4 * 16;
    DivModUnique(k, 64, c * 4);
    assert acc * 4 == k * 64 + c * 4;
  }

  lemma SixBits(x: nat)
    ensures x % TWO32 % 64 == x % 64
  {
    var q, r := x / TWO32, x % TWO32;
    assert x == (67108864 * q + r / 64) * 64 + r % 64;
    DivModUnique(67108864 * q + r / 64, 64, r % 64);
  }

  /** What to_base64 has done when it has taken in `i` bytes: the letters that are complete are
      written, and the last four bits are in the accumulator. */
  ghost predicate Writing(s: seq<byte>, i: nat, acc: nat, left: nat, written: seq<char>) {
    && i <= |s| && acc % 16 == Carry(s, i)
    && 6 * |written| + left == 8 * i && left < 6
    && WrittenSoFar(s, written)
  }

  /** The accumulator ends in the four bits kept over and the byte at index `i`. */
  ghost predicate LowTwelve(s: seq<byte>, i: nat, acc: nat)
    requires i < |s|
  {
    acc % 4096 == Carry(s, i) * 256 + s[i]
  }

  ghost predicate WrittenSoFar(s: seq<byte>, written: seq<char>) {
    forall j :: 0 <= j < |written| ==> written[j] == Symbol(Sextet(s, j))
  }

  lemma WrittenMore(s: seq<byte>, written: seq<char>, c: char)
    requires WrittenSoFar(s, written) && c == Symbol(Sextet(s, |written|))
    ensures WrittenSoFar(s, written + [c])
  {
    hide Sextet, Symbol;
  }

  /** One turn of the inner loop: one letter. */
  method EmitLetter(dst: array<char>, at: nat, p: nat, s: seq<byte>, i: nat, acc: nat, left: nat)
    requires i < |s| && at <= p < dst.Length && LowTwelve(s, i, acc)
    requires 8 * (i + 1) == 6 * (p - at + 1) + left && left <= 6
    requires WrittenSoFar(s, dst[at..p])
    modifies dst
    ensures WrittenSoFar(s, dst[at..p + 1])
    ensures dst[..p] == old(dst[..p]) && dst[p + 1..] == old(dst[p + 1..])
  {
    hide Symbol, Sextet, Encoded, Carry, Pow2, WrittenSoFar;
    LetterOfByte(s, i, p - at, acc, left);
    var v := acc / Pow2(left) % 64;
    EncodedIsSymbol(v);
    ghost var written := dst[at..p];
    WrittenMore(s, written, Encoded(v));
    dst[p] := Encoded(v);
    assert dst[at..p + 1] == written + [Encoded(v)];
  }

  lemma BeginByte(s: seq<byte>, i: nat, acc: nat, left: nat, written: seq<char>)
    requires Writing(s, i, acc, left, written) && i < |s|
    ensures WrittenSoFar(s, written) && 6 * |written| + left == 8 * i && left <= 4
    ensures LowTwelve(s, i, Pushed(acc, s[i]))
    ensures Pushed(acc, s[i]) % 16 == Carry(s, i + 1)
  {
    PushByte(acc, Carry(s, i), s[i]);
    assert left == 2 * (4 * i - 3 * |written|);
    hide WrittenSoFar;
  }

  lemma EndByte(s: seq<byte>, i: nat, acc: nat, left: nat, written: seq<char>)
    requires i < |s| && acc % 16 == Carry(s, i + 1)
    requires WrittenSoFar(s, written) && 6 * |written| + left == 8 * (i + 1) && left < 6
    ensures Writing(s, i + 1, acc, left, written)
  {
    hide WrittenSoFar, Carry;
  }

  /** Changing one more place leaves what is before and behind it. */
  lemma OneChanged(first: seq<char>, before: seq<char>, after: seq<char>, p: nat, n: nat)
    requires p <= n < |first| == |before| == |after|
    requires before[..p] == first[..p] && before[n..] == first[n..]
    requires after[..n] == before[..n] && after[n + 1..] == before[n + 1..]
    ensures after[..p] == first[..p] && after[n + 1..] == first[n + 1..]
  {
    assert after[..p] == after[..n][..p] && before[..p] == before[..n][..p];
    assert before[n + 1..] == before[n..][1..] && first[n + 1..] == first[n..][1..];
  }

  /** The inner loop: a letter as long as there are six bits. */
  method WriteLetters(dst: array<char>, at: nat, p: nat, s: seq<byte>, i: nat, acc: nat, bits: nat)
    returns (p': nat, left: nat)
    requires i < |s| && at <= p && p + 2 <= dst.Length && bits <= 12
    requires LowTwelve(s, i, acc) && 8 * (i + 1) == 6 * (p - at) + bits
    requires WrittenSoFar(s, dst[at..p])
    modifies dst
    ensures p <= p' <= p + 2 && left < 6 && 8 * (i + 1) == 6 * (p' - at) + left
    ensures WrittenSoFar(s, dst[at..p'])
    ensures dst[..p] == old(dst[..p]) && dst[p'..] == old(dst[p'..])
  {
    hide WrittenSoFar, LowTwelve;
    ghost var first := dst[..];
    left := bits;
    p' := p;
    while left >= 6
      invariant p <= p' <= p + 2 && 6 * (p' - p) + left == bits
      invariant WrittenSoFar(s, dst[at..p'])
      invariant dst[..p] == first[..p] && dst[p'..] == first[p'..]
    {
      left := left - 6;
      ghost var before := dst[..];
      EmitLetter(dst, at, p', s, i, acc, left);
      OneChanged(first, before, dst[..], p, p');
      p' := p' + 1;
    }
  }

  /** One byte: one letter, or two. */
  method WriteByte(dst: array<char>, at: nat, p: nat, s: seq<byte>, i: nat, acc: nat, left: nat)
    returns (p': nat, acc': nat, left': nat)
    requires i < |s| && at <= p && p + 2 <= dst.Length
    requires Writing(s, i, acc, left, dst[at..p])
    modifies dst
    ensures p <= p' <= p + 2 && Writing(s, i + 1, acc', left', dst[at..p'])
    ensures dst[..p] == old(dst[..p]) && dst[p'..] == old(dst[p'..])
  {
    BeginByte(s, i, acc, left, dst[at..p]);
    hide Writing, WrittenSoFar, Carry, Pushed, LowTwelve;
    acc' := Pushed(acc, s[i]);
    p', left' := WriteLetters(dst, at, p, s, i, acc', left + 8);
    EndByte(s, i, acc', left', dst[at..p']);
  }

  /** b64len, and the same computation in to_base64. */
  method B64Len(len: nat) returns (olen: nat)
    ensures olen == TextLength(len)
  {
    olen := len / 3 * 4;
    match len % 3
    case 2 => olen := olen + 1 + 2;
    case 1 => olen := olen + 2;
    case _ =>
  }

  /** The outer loop: every byte in turn. */
  method WriteBytes(dst: array<char>, at: nat, s: seq<byte>) returns (p: nat, acc: nat, left: nat)
    requires at + TextLength(|s|) <= dst.Length
    modifies dst
    ensures at <= p <= dst.Length && Writing(s, |s|, acc, left, dst[at..p])
    ensures dst[..at] == old(dst[..at]) && dst[p..] == old(dst[p..])
  {
    acc, left, p := 0, 0, at;
    for i := 0 to |s|
      invariant at <= p <= dst.Length && Writing(s, i, acc, left, dst[at..p])
      invariant dst[..at] == old(dst[..at]) && dst[p..] == old(dst[p..])
    {
      hide Writing, TextLength;
      WritingRoom(s, i, acc, left, dst[at..p]);
      ghost var before := dst[..p];
      p, acc, left := WriteByte(dst, at, p, s, i, acc, left);
      assert dst[..at] == dst[..|before|][..at];
    }
  }

  lemma WritingRoom(s: seq<byte>, i: nat, acc: nat, left: nat, written: seq<char>)
    requires i < |s| && Writing(s, i, acc, left, written)
    ensures |written| + 2 <= TextLength(|s|)
  {
    RoomForByte(|s|, i, |written|, left);
  }

  /** The last letter if bits are waiting. */
  method WriteLast(dst: array<char>, at: nat, p: nat, s: seq<byte>, acc: nat, left: nat) returns (p': nat)
    requires at <= p && at + TextLength(|s|) <= dst.Length && p <= dst.Length && Writing(s, |s|, acc, left, dst[at..p])
    modifies dst
    ensures p <= p' == at + TextLength(|s|) && dst[at..p'] == Text(s)
    ensures dst[..at] == old(dst[..at]) && dst[p'..] == old(dst[p'..])
  {
    hide Sextet, Symbol;
    assert |dst[at..p]| == p - at;
    AllWritten(|s|, p - at, left);
    p' := p;
    if left > 0 {
      LastLetter(s, acc, left);
      hide Pow2, TextLength, Carry;
      var v := acc * Pow2(6 - left) % TWO32 % 64;
      EncodedIsSymbol(v);
      hide Encoded;
      dst[p'] := Encoded(v);
      p' := p' + 1;
    }
  }

  /** to_base64: the text and a terminating zero, or -1 when they do not fit. */
  method ToBase64(dst: array<char>, at: nat, dstLen: nat, src: array<byte>, srcLen: nat) returns (rc: int)
    requires at + dstLen <= dst.Length && srcLen <= src.Length
    modifies dst
    ensures dstLen <= TextLength(srcLen) ==> rc == -1 && dst[..] == old(dst[..])
    ensures dstLen > TextLength(srcLen) ==>
      && rc == TextLength(srcLen)
      && dst[at..at + rc] == Text(src[..srcLen]) && dst[at + rc] == '\0'
      && dst[..at] == old(dst[..at]) && dst[at + rc + 1..] == old(dst[at + rc + 1..])
  {
    var olen := B64Len(srcLen);
    if dstLen <= olen {
      return -1;
    }
    hide TextLength, Text, Writing;
    ghost var first := dst[..];
    var p0, acc, left := WriteBytes(dst, at, src[..srcLen]);
    ghost var before := dst[..];
    var p := WriteLast(dst, at, p0, src[..srcLen], acc, left);
    ghost var written := dst[..];
    Between(first, before, written, at, p0, p);
    dst[p] := '\0';
    assert dst[at..p] == written[at..p] && dst[..at] == written[..at];
    assert dst[p + 1..] == written[p..][1..] && first[p + 1..] == first[p..][1..];
    rc := olen;
  }

  /** What is written in two steps leaves what is before and behind both. */
  lemma Between(first: seq<char>, before: seq<char>, after: seq<char>, at: nat, i: nat, j: nat)
    requires at <= i <= j <= |first| == |before| == |after|
    requires before[..at] == first[..at] && before[i..] == first[i..]
    requires after[..at] == before[..at] && after[j..] == before[j..]
    ensures after[..at] == first[..at] && after[j..] == first[j..]
  {
    assert before[j..] == before[i..][j - i..] && first[j..] == first[i..][j - i..];
  }

  lemma RoomForByte(n: nat, i: nat, written: nat, left: nat)
    requires i < n && 6 * written + left == 8 * i && left < 6
    ensures written + 2 <= TextLength(n)
  {
    var q, r := n / 3, n % 3;
    assert n == 3 * q + r && 6 * written <= 8 * (3 * q + r - 1);
  }

  lemma AllWritten(n: nat, written: nat, left: nat)
    requires 6 * written + left == 8 * n && left < 6
    ensures left == 2 * (n % 3) && written + (if left > 0 then 1 else 0) == TextLength(n)
  {
    var q, r := n / 3, n % 3;
    var m := written - 4 * q;
    assert n == 3 * q + r && 6 * m + left == 8 * r;
    assert m == r;
  }

  // ------------------------------------------------------------------ from_base64

  /** What C can hold as a string: characters of one byte, none of them zero. */
  ghost predicate IsCString(s: string) { forall i :: 0 <= i < |s| ==> 0 < s[i] as int < 256 }

  ghost predicate AllLetters(t: string) { forall i :: 0 <= i < |t| ==> Value(t[i]).Some? }

  /** Where the letters that begin at `start` end. */
  function LettersEnd(s: string, start: nat): (e: nat)
    requires start <= |s|
    ensures start <= e <= |s|
    ensures e < |s| ==> Value(s[e]).None?
    ensures forall i :: start <= i < e ==> Value(s[i]).Some?
    ensures forall k :: start <= k <= e ==> AllLetters(s[start..k])
    decreases |s| - start
  {
    if start < |s| && Value(s[start]).Some? then LettersEnd(s, start + 1) else start
  }

  function Values(t: string): (v: seq<nat>)
    requires AllLetters(t)
    ensures |v| == |t| && forall j :: 0 <= j < |v| ==> v[j] < 64 && t[j] == Symbol(v[j]) && v[j] == Value(t[j]).value
  {
    forall j | 0 <= j < |t| ensures Value(t[j]).value < 64 && t[j] == Symbol(Value(t[j]).value) { SymbolOfValue(t[j]); }
    seq(|t|, j requires 0 <= j < |t| => Value(t[j]).value)
  }

  /** No bits are left over that are not zero, and there are not six of them. */
  ghost predicate Complete(v: seq<nat>) {
    && |v| % 4 != 1
    && (|v| % 4 == 2 ==> v[|v| - 1] % 16 == 0)
    && (|v| % 4 == 3 ==> v[|v| - 1] % 4 == 0)
  }

  /** The texts of byte strings are the complete ones. */
  lemma TextIsComplete(b: seq<byte>)
    ensures Complete(Sextets(b))
  {
    LengthFromText(|b|);
    var v, q, r := Sextets(b), |b| / 3, |b| % 3;
    hide Sextet, SextetOf;
    if |v| % 4 != 0 {
      assert |b| == 3 * q + r && r > 0 && |v| == 4 * q + r + 1;
      SextetAt(b, q, r);
      LastBits(r, ByteAt(b, 3 * q), ByteAt(b, 3 * q + 1));
    }
  }

  /** The last sextet ends in the zeros that follow the bytes. */
  lemma LastBits(r: nat, a: byte, b: byte)
    ensures r == 1 ==> SextetOf(r, a, 0, 0) % 16 == 0
    ensures r == 2 ==> SextetOf(r, a, b, 0) % 4 == 0
  {
  }

  /** `b` is what complete sextets make up. */
  ghost predicate BytesOfSextets(v: seq<nat>, b: seq<byte>) {
    && Complete(v) && |b| == 6 * |v| / 8
    && (forall k :: 0 <= k < |v| ==> v[k] < 64)
    && (forall i :: 0 <= i < |b| ==> 8 * i + 8 <= 6 * |v| && b[i] == FromSextets(v, i))
  }

  function At(v: seq<nat>, j: nat): nat { if j < |v| then v[j] else 0 }

  lemma BytePlace(v: seq<nat>, b: seq<byte>, q: nat, e: nat)
    requires BytesOfSextets(v, b) && e < 3 && 4 * q < |v|
    ensures ByteAt(b, 3 * q + e) == ByteOf(e, At(v, 4 * q + e), At(v, 4 * q + e + 1))
  {
    hide FromSextets, BytesOfSextets, Complete, ByteOf;
    if 4 * q + e + 2 <= |v| {
      ByteThere(v, b, q, e);
    } else {
      ByteMissing(v, b, q, e);
    }
  }

  lemma ByteThere(v: seq<nat>, b: seq<byte>, q: nat, e: nat)
    requires BytesOfSextets(v, b) && e < 3 && 4 * q + e + 2 <= |v|
    ensures 3 * q + e < |b| && b[3 * q + e] == ByteOf(e, v[4 * q + e], v[4 * q + e + 1])
  {
    hide FromSextets, ByteOf;
    BytesAndPlaces(|v|, q, e);
    hide Complete;
    FromPlace(v, q, e);
    assert b[3 * q + e] == FromSextets(v, 3 * q + e);
  }

  lemma ByteMissing(v: seq<nat>, b: seq<byte>, q: nat, e: nat)
    requires BytesOfSextets(v, b) && e < 3 && 4 * q < |v| < 4 * q + e + 2
    ensures 3 * q + e >= |b| && ByteOf(e, At(v, 4 * q + e), At(v, 4 * q + e + 1)) == 0
  {
    hide FromSextets, ByteOf;
    BytesAndPlaces(|v|, q, e);
    LastPlaces(|v|, q);
    TailIsZero(v, q);
    hide Complete;
    NothingLeft(e, At(v, 4 * q + e), At(v, 4 * q + e + 1));
  }

  lemma LastPlaces(n: nat, q: nat)
    requires n % 4 != 1
    ensures n != 4 * q + 1
  {
    DivModUnique(q, 4, 1);
  }

  /** Zeros make up a zero. */
  lemma NothingLeft(e: nat, x: nat, y: nat)
    requires y == 0 && x < 64 && if e == 0 then x == 0 else if e == 1 then x % 16 == 0 else x % 4 == 0
    ensures ByteOf(e, x, y) == 0
  {
  }

  lemma BytesAndPlaces(n: nat, q: nat, e: nat)
    requires n % 4 != 1 && e < 3 && 4 * q < n
    ensures 3 * q + e < 6 * n / 8 <==> 4 * q + e + 2 <= n
  {
    var k, t := n / 4, n % 4;
    assert n == 4 * k + t;
    assert 6 * n / 8 == 3 * k + if t == 0 then 0 else t - 1;
  }

  /** Four sextets put together and cut again. */
  lemma Cut(r: nat, v0: nat, v1: nat, v2: nat, v3: nat)
    requires r < 4 && v0 < 64 && v1 < 64 && v2 < 64 && v3 < 64
    ensures ByteOf(0, v0, v1) < 256 && ByteOf(1, v1, v2) < 256 && ByteOf(2, v2, v3) < 256
    ensures SextetOf(r, ByteOf(0, v0, v1), ByteOf(1, v1, v2), ByteOf(2, v2, v3))
         == if r == 0 then v0 else if r == 1 then v1 else if r == 2 then v2 else v3
  {
    DivModUnique(v0, 4, v1 / 16);
    DivModUnique(v1 % 16, 16, v2 / 4);
    DivModUnique(v2 % 4, 64, v3);
  }

  /** The bytes of complete sextets have these sextets. */
  lemma TailIsZero(v: seq<nat>, q: nat)
    requires Complete(v)
    ensures |v| == 4 * q + 2 ==> v[4 * q + 1] % 16 == 0
    ensures |v| == 4 * q + 3 ==> v[4 * q + 2] % 4 == 0
  {
    DivModUnique(q, 4, 2);
    DivModUnique(q, 4, 3);
  }

  lemma SextetOfBytes(v: seq<nat>, b: seq<byte>, q: nat, r: nat)
    requires BytesOfSextets(v, b) && r < 4 && 4 * q + r < |v|
    ensures Sextet(b, 4 * q + r) == v[4 * q + r]
  {
    hide SextetOf, ByteOf, Sextet, FromSextets, Complete, ByteAt;
    var v0, v1, v2, v3 := At(v, 4 * q), At(v, 4 * q + 1), At(v, 4 * q + 2), At(v, 4 * q + 3);
    assert v0 < 64 && v1 < 64 && v2 < 64 && v3 < 64;
    BytePlace(v, b, q, 0);
    BytePlace(v, b, q, 1);
    BytePlace(v, b, q, 2);
    hide BytesOfSextets;
    SextetAt(b, q, r);
    Cut(r, v0, v1, v2, v3);
  }

  lemma TextOfBytes(t: string, b: seq<byte>)
    requires AllLetters(t)
    requires BytesOfSextets(Values(t), b)
    ensures Text(b) == t
  {
    var v := Values(t);
    BytesLength(|v|);
    hide Sextet, Symbol, TextLength, FromSextets, Complete;
    assert |Text(b)| == |t|;
    hide Text, Values;
    forall j | 0 <= j < |t| ensures Text(b)[j] == t[j] { LetterOfText(t, b, j); }
  }

  lemma LetterOfText(t: string, b: seq<byte>, j: nat)
    requires AllLetters(t) && BytesOfSextets(Values(t), b) && j < |t| == |Text(b)|
    ensures Text(b)[j] == t[j]
  {
    hide Sextet, Symbol, BytesOfSextets, TextLength;
    SextetOfBytes(Values(t), b, j / 4, j % 4);
    assert 4 * (j / 4) + j % 4 == j;
  }

  lemma BytesLength(n: nat)
    requires n % 4 != 1
    ensures TextLength(6 * n / 8) == n
  {
    var k, t := n / 4, n % 4;
    assert n == 4 * k + t;
    var u := if t == 0 then 0 else t - 1;
    assert 6 * n / 8 == 3 * k + u;
    assert (3 * k + u) / 3 == k && (3 * k + u) % 3 == u;
  }

  /** What from_base64 has done when it has taken in the letters with values `v`. */
  ghost predicate Reading(v: seq<nat>, acc: nat, left: nat, bytes: seq<byte>) {
    && (forall k :: 0 <= k < |v| ==> v[k] < 64)
    && 6 * |v| == 8 * |bytes| + left && left < 8
    && acc % 64 == (if v == [] then 0 else v[|v| - 1])
    && forall i :: 0 <= i < |bytes| ==> 8 * i + 8 <= 6 * |v| && bytes[i] == FromSextets(v, i)
  }

  lemma PushLetter(acc: nat, carry: nat, d: nat)
    requires acc % 64 == carry && d < 64
    ensures (acc * 64 + d) % TWO32 % 4096 == carry * 64 + d
    ensures (acc * 64 + d) % TWO32 % 64 == d
  {
    var x := acc * 64 + d;
    LowBits(x);
    SixBits(x);
    DivModUnique(acc / 64, 4096, carry * 64 + d);
    assert x == (acc / 64) * 4096 + (carry * 64 + d);
    DivModUnique(acc, 64, d);
  }

  lemma BytePieces(acc: nat, p: nat, d: nat)
    requires p < 64 && d < 64 && acc % 4096 == p * 64 + d
    ensures acc / 16 % 256 == p * 4 + d / 16
    ensures acc / 4 % 256 == p % 16 * 16 + d / 4
    ensures acc % 256 == p % 4 * 64 + d
  {
    var k := acc / 4096;
    assert acc == k * 4096 + p * 64 + d;
    DivModUnique(k * 256 + p * 4 + d / 16, 16, d % 16);
    DivModUnique(k, 256, p * 4 + d / 16);
    DivModUnique(k * 1024 + p * 16 + d / 4, 4, d % 4);
    DivModUnique(k * 4 + p / 16, 256, p % 16 * 16 + d / 4);
    DivModUnique(k * 16 + p / 4, 256, p % 4 * 64 + d);
  }

  /** A letter that completes no byte. */
  lemma LetterKept(v: seq<nat>, acc: nat, left: nat, bytes: seq<byte>, d: nat)
    requires Reading(v, acc, left, bytes) && d < 64 && left + 6 < 8
    ensures Reading(v + [d], (acc * 64 + d) % TWO32, left + 6, bytes)
  {
    PushLetter(acc, acc % 64, d);
  }

  lemma CompletedByte(v: seq<nat>, acc: nat, n: nat, left: nat)
    requires v != [] && (forall k :: 0 <= k < |v| ==> v[k] < 64)
    requires 6 * (|v| - 1) == 8 * n + left && 2 <= left < 8
    requires acc % 4096 == (if |v| == 1 then 0 else v[|v| - 2]) * 64 + v[|v| - 1]
    ensures 8 * n + 8 <= 6 * |v| && acc / Pow2(left - 2) % 256 == FromSextets(v, n)
  {
    SmallPowers();
    CompletedPlace(|v| - 1, n, left);
    BytePieces(acc, v[|v| - 2], v[|v| - 1]);
    FromPlace(v, n / 3, n % 3);
    hide FromSextets;
  }

  /** A letter that completes a byte. */
  lemma LetterCompletes(v: seq<nat>, acc: nat, left: nat, bytes: seq<byte>, d: nat)
    requires Reading(v, acc, left, bytes) && d < 64 && left + 6 >= 8
    ensures var acc' := (acc * 64 + d) % TWO32;
            Reading(v + [d], acc', left - 2, bytes + [acc' / Pow2(left - 2) % 256])
  {
    PushLetter(acc, acc % 64, d);
    CompletedByte(v + [d], (acc * 64 + d) % TWO32, |bytes|, left);
    hide FromSextets, Pow2;
    forall i | 0 <= i < |bytes| ensures FromSextets(v + [d], i) == bytes[i] { SextetPrefix(v, d, i); }
  }

  lemma SextetPrefix(v: seq<nat>, d: nat, i: nat)
    requires 8 * i + 8 <= 6 * |v|
    ensures FromSextets(v + [d], i) == FromSextets(v, i)
  {
  }

  lemma CompletedPlace(k: nat, n: nat, left: nat)
    requires 6 * k == 8 * n + left && 2 <= left < 8
    ensures left == 6 - 2 * (n % 3) && k == 4 * (n / 3) + n % 3 + 1
  {
    var q, r := n / 3, n % 3;
    assert n == 3 * q + r;
    assert 6 * k == 24 * q + 8 * r + left;
  }

  /** Text that is read as base64 is the text of bytes that fit, or there are no such bytes. */
  ghost predicate NoBytesFor(t: string, capacity: nat) {
    forall b: seq<byte> :: |b| <= capacity ==> Text(b) != t
  }

  lemma LetterValues(src: string, start: nat, k: nat)
    requires start <= |src| && start <= k < LettersEnd(src, start)
    ensures Values(src[start..k + 1]) == Values(src[start..k]) + [Value(src[k]).value]
  {
    assert src[start..k + 1] == src[start..k] + [src[k]];
  }

  /** Too many letters for the buffer. */
  lemma TooLong(t: string, n: nat, capacity: nat)
    requires n <= |t| && 6 * n >= 8 * (capacity + 1)
    ensures NoBytesFor(t, capacity)
  {
    forall b: seq<byte> | |b| <= capacity ensures Text(b) != t {
      LengthFromText(|b|);
    }
  }

  lemma ValuesOfText(b: seq<byte>)
    ensures AllLetters(Text(b)) && Values(Text(b)) == Sextets(b)
  {
    forall j | 0 <= j < |Text(b)| ensures Value(Text(b)[j]) == Some(Sextet(b, j)) {
      ValueOfSymbol(Sextet(b, j));
    }
  }

  /** Bits left over that no text of bytes leaves. */
  lemma NotComplete(t: string, capacity: nat)
    requires AllLetters(t) && !Complete(Values(t))
    ensures NoBytesFor(t, capacity)
  {
    forall b: seq<byte> ensures AllLetters(Text(b)) && Complete(Values(Text(b))) {
      ValuesOfText(b);
      TextIsComplete(b);
    }
  }

  /** The check after the loop: at most four bits are left, and they are zero. */
  lemma LeftOverCheck(v: seq<nat>, acc: nat, left: nat, bytes: seq<byte>)
    requires Reading(v, acc, left, bytes)
    ensures left <= 4 && acc % Pow2(left) == 0 <==> Complete(v)
    ensures |bytes| == 6 * |v| / 8
  {
    SmallPowers();
    var k, t := |v| / 4, |v| % 4;
    assert |v| == 4 * k + t;
    assert left == (if t == 0 then 0 else if t == 1 then 6 else if t == 2 then 4 else 2)
        && |bytes| == 3 * k + (if t <= 1 then 0 else t - 1);
    var a := acc / 64;
    DivModUnique(4 * a + acc % 64 / 16, 16, acc % 64 % 16);
    DivModUnique(16 * a + acc % 64 / 4, 4, acc % 64 % 4);
    assert acc == 64 * a + acc % 64;
  }

  /** One letter: it goes into the accumulator, and a byte comes out if there are eight bits. */
  method ReadLetter(dst: array<byte>, capacity: nat, ghost v: seq<nat>, d: nat, acc: nat, left: nat, len: nat)
    returns (full: bool, acc': nat, left': nat, len': nat)
    requires capacity <= dst.Length && len <= capacity && d < 64 && Reading(v, acc, left, dst[..len])
    modifies dst
    ensures full ==> 6 * (|v| + 1) >= 8 * (capacity + 1)
    ensures !full ==> len' <= capacity && Reading(v + [d], acc', left', dst[..len'])
    ensures dst[capacity..] == old(dst[capacity..])
  {
    acc' := (acc * 64 + d) % TWO32;
    left' := left + 6;
    len' := len;
    full := false;
    if left' >= 8 {
      left' := left' - 8;
      if len >= capacity {
        full := true;
        return;
      }
      LetterCompletes(v, acc, left, dst[..len], d);
      hide Pow2, Reading;
      ghost var before := dst[..len];
      dst[len] := acc' / Pow2(left') % 256;
      assert dst[..len + 1] == before + [acc' / Pow2(left') % 256];
      len' := len + 1;
    } else {
      LetterKept(v, acc, left, dst[..len], d);
    }
  }

  lemma ReadingStarts()
    ensures Reading(Values(""), 0, 0, [])
  {
  }

  /** The loop of from_base64: letters up to the first other character, or until the buffer is full. */
  method ReadLetters(dst: array<byte>, capacity: nat, src: string, start: nat, signed: bool, ghost seen: string)
    returns (full: bool, p: nat, acc: nat, left: nat, len: nat)
    requires capacity <= dst.Length && start <= |src| && IsCString(src) && seen == Seen(src, signed)
    modifies dst
    ensures full ==> start <= p <= LettersEnd(seen, start) && 6 * (p - start) >= 8 * (capacity + 1)
    ensures !full ==> p == LettersEnd(seen, start) && len <= capacity
    ensures !full ==> Reading(Values(seen[start..p]), acc, left, dst[..len])
    ensures dst[capacity..] == old(dst[capacity..])
  {
    hide Reading, Value, Seen;
    acc, left, p, len, full := 0, 0, start, 0, false;
    ghost var e := LettersEnd(seen, start);
    assert seen[start..start] == "" && dst[..0] == [];
    ReadingStarts();
    while !full
      invariant start <= p <= e
      invariant full ==> 6 * (p - start) >= 8 * (capacity + 1)
      invariant !full ==> len <= capacity && Reading(Values(seen[start..p]), acc, left, dst[..len])
      invariant dst[capacity..] == old(dst[capacity..])
      decreases !full, e - p
    {
      var d := DecodedAt(src, p, signed);
      LetterOrEnd(seen, start, p);
      if d == 255 {
        break;
      }
      LetterValues(seen, start, p);
      full, acc, left, len := ReadLetter(dst, capacity, Values(seen[start..p]), d, acc, left, len);
      p := p + 1;
    }
  }

  /** from_base64: reads letters up to the first other character. It succeeds if and only if they are
      the text of bytes that fit into the buffer, and then these bytes are in it. Where char is signed
      this is so of the letters that the characters are taken for. */
  method FromBase64(dst: array<byte>, capacity: nat, src: string, start: nat, signed: bool)
    returns (next: Option<nat>, len: nat)
    requires capacity <= dst.Length && start <= |src| && IsCString(src)
    modifies dst
    ensures var seen := Seen(src, signed);
      && (next.Some? ==>
            next.value == LettersEnd(seen, start) && len <= capacity && Text(dst[..len]) == seen[start..next.value])
      && (next.None? ==> NoBytesFor(seen[start..LettersEnd(seen, start)], capacity))
    ensures dst[capacity..] == old(dst[capacity..])
  {
    hide Value, Text, Seen;
    ghost var seen := Seen(src, signed);
    var full, p, acc, left;
    full, p, acc, left, len := ReadLetters(dst, capacity, src, start, signed, seen);
    ghost var t := seen[start..LettersEnd(seen, start)];
    if full {
      TooLong(t, p - start, capacity);
      return None, len;
    }
    LeftOverCheck(Values(t), acc, left, dst[..len]);
    hide Pow2, Complete, Reading, NoBytesFor;
    if left > 4 || acc % Pow2(left) != 0 {
      NotComplete(t, capacity);
      return None, len;
    }
    ReadIsBytes(t, acc, left, dst[..len]);
    next := Some(p);
  }

  lemma ReadIsBytes(t: string, acc: nat, left: nat, bytes: seq<byte>)
    requires AllLetters(t)
    requires Reading(Values(t), acc, left, bytes) && Complete(Values(t)) && |bytes| == 6 * |t| / 8
    ensures Text(bytes) == t
  {
    TextOfBytes(t, bytes);
  }

  /** The value of the character at `p`; a string is followed by a zero, which is no letter. */
  function DecodedAt(s: string, p: nat, signed: bool): (d: nat)
    requires p <= |s| && IsCString(s)
    ensures var t := Seen(s, signed);
            if p < |t| && Value(t[p]).Some? then d == Value(t[p]).value && d < 64 else d == 255
  {
    var c := if p < |s| then s[p] else '\0';
    DecodedCharIsSeen(c, signed);
    DecodedIsValue(SeenChar(c, signed));
    SymbolOfValue(SeenChar(c, signed));
    DecodedChar(c, signed)
  }

  /** Before the end of the letters there is a letter, and at the end there is none. */
  lemma LetterOrEnd(s: string, start: nat, p: nat)
    requires start <= |s| && start <= p <= LettersEnd(s, start)
    ensures p < LettersEnd(s, start) <==> p < |s| && Value(s[p]).Some?
  {
  }
}
