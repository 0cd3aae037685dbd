/** The encoded string of encoding.c: encode_string, decode_string and argon2_encodedlen.

        $argon2<T>[$v=<num>]$m=<num>,t=<num>,p=<num>$<bin>$<bin>
*/
module Encoding {
  import opened Options
  import opened Bytes
  import opened Instances
  import opened Contexts
  import opened Base64
  import opened Decimals

  /** What an encoded string says; the version may be left out. */
  datatype Fields = Fields(version: Option<nat>, mCost: nat, tCost: nat, lanes: nat, salt: seq<byte>, out: seq<byte>)

  // ------------------------------------------------------------------ the format

  /** argon2_type2string, in lower case. */
  function TypeString(variant: Variant): string {
    match variant
    case Argon2d => "argon2d"
    case Argon2i => "argon2i"
    case Argon2id => "argon2id"
  }

  function VersionPart(version: Option<nat>): string {
    if version.None? then "" else "$v=" + Digits(version.value)
  }

  function Head(variant: Variant, version: Option<nat>): string {
    "$" + TypeString(variant) + VersionPart(version)
  }

  function Costs(mCost: nat, tCost: nat, lanes: nat): string {
    "$m=" + Digits(mCost) + (",t=" + Digits(tCost) + (",p=" + Digits(lanes)))
  }

  function Blob(b: seq<byte>): string { "$" + Text(b) }

  function Format(variant: Variant, x: Fields): string {
    Head(variant, x.version) + Costs(x.mCost, x.tCost, x.lanes) + Blob(x.salt) + Blob(x.out)
  }

  lemma LettersAreBytes(v: nat)
    requires v < 64
    ensures 0 < Symbol(v) as int < 128 && Symbol(v) != '$'
  {
  }

  /** A string that C can hold and that is seen as it is, whether char is signed or not. */
  ghost predicate Plain(s: string) { IsCString(s) && Ascii(s) }

  lemma BlobIsPlain(b: seq<byte>)
    ensures Plain(Blob(b))
  {
    forall i | 0 <= i < |Text(b)| ensures 0 < Text(b)[i] as int < 128 { LettersAreBytes(Sextet(b, i)); }
  }

  lemma NumberIsPlain(n: nat)
    ensures Plain(Digits(n))
  {
    DigitsAreMinimal(n);
  }

  lemma HeadIsPlain(variant: Variant, version: Option<nat>)
    ensures Plain(Head(variant, version))
  {
    hide Digits;
    if version.Some? {
      NumberIsPlain(version.value);
    }
    assert Plain(VersionPart(version));
    hide VersionPart;
  }

  lemma CostsArePlain(mCost: nat, tCost: nat, lanes: nat)
    ensures Plain(Costs(mCost, tCost, lanes))
  {
    hide Digits;
    NumberIsPlain(mCost);
    NumberIsPlain(tCost);
    NumberIsPlain(lanes);
  }

  lemma FormatIsPlain(variant: Variant, x: Fields)
    ensures Plain(Format(variant, x))
  {
    hide Text;
    HeadIsPlain(variant, x.version);
    CostsArePlain(x.mCost, x.tCost, x.lanes);
    BlobIsPlain(x.salt);
    BlobIsPlain(x.out);
    hide Head, Costs, Blob;
  }

  // ------------------------------------------------------------------ reading the parts of a string

  predicate HasPrefix(s: string, prefix: string) { prefix <= s }

  predicate DigitFirst(s: string) { s != "" && IsDigit(s[0]) }

  predicate LetterFirst(s: string) { s != "" && Value(s[0]).Some? }

  /** `s` is a number after a prefix, as far as there are digits, and `rest`. */
  ghost predicate ReadsNumber(s: string, prefix: string, n: nat, rest: string) {
    s == prefix + Digits(n) + rest && n <= MAX32 && !DigitFirst(rest)
  }

  ghost predicate ReadsBlob(s: string, cap: nat, b: seq<byte>, rest: string) {
    s == Blob(b) + rest && |b| <= cap && !LetterFirst(rest)
  }

  ghost predicate ReadsHead(s: string, variant: Variant, version: Option<nat>, rest: string) {
    && s == Head(variant, version) + rest
    && (version.Some? ==> version.value <= MAX32 && !DigitFirst(rest))
    && (version.None? ==> !HasPrefix(rest, "$v="))
  }

  ghost predicate ReadsCosts(s: string, mCost: nat, tCost: nat, lanes: nat, rest: string) {
    && s == Costs(mCost, tCost, lanes) + rest
    && mCost <= MAX32 && tCost <= MAX32 && lanes <= MAX32 && !DigitFirst(rest)
  }

  /** `s` is an encoded string that fits, and `rest`. */
  ghost predicate Reads(s: string, variant: Variant, saltCap: nat, outCap: nat, x: Fields, rest: string) {
    && s == Format(variant, x) + rest
    && (x.version.Some? ==> x.version.value <= MAX32)
    && x.mCost <= MAX32 && x.tCost <= MAX32 && x.lanes <= MAX32
    && |x.salt| <= saltCap && |x.out| <= outCap
    && !LetterFirst(rest)
  }

  ghost predicate NoReading(s: string, variant: Variant, saltCap: nat, outCap: nat) {
    forall x: Fields, rest: string :: !Reads(s, variant, saltCap, outCap, x, rest)
  }

  // ------------------------------------------------------------------ there is one way to read

  /** A run of characters with a property ends in one place. */
  lemma SameRun(a: string, b: string, restA: string, restB: string, inRun: char -> bool)
    requires a + restA == b + restB
    requires (forall i :: 0 <= i < |a| ==> inRun(a[i])) && (forall i :: 0 <= i < |b| ==> inRun(b[i]))
    requires (restA != "" ==> !inRun(restA[0])) && (restB != "" ==> !inRun(restB[0]))
    ensures a == b && restA == restB
  {
    var s := a + restA;
    RunNotPast(s, |a|, |b|, inRun);
    RunNotPast(s, |b|, |a|, inRun);
    assert a == s[..|a|] && b == s[..|b|] && restA == s[|a|..] && restB == s[|b|..];
  }

  lemma RunNotPast(s: string, n: nat, k: nat, inRun: char -> bool)
    requires n <= |s| && k <= |s|
    requires n < |s| ==> !inRun(s[n])
    requires forall i :: 0 <= i < k ==> inRun(s[i])
    ensures k <= n
  {
  }

  lemma NumberUnique(s: string, prefix: string, n: nat, rest: string, n': nat, rest': string)
    requires ReadsNumber(s, prefix, n, rest) && ReadsNumber(s, prefix, n', rest')
    ensures n == n' && rest == rest'
  {
    DigitsAreMinimal(n);
    DigitsAreMinimal(n');
    hide Digits;
    assert s[|prefix|..] == Digits(n) + rest == Digits(n') + rest';
    SameRun(Digits(n), Digits(n'), rest, rest', c => IsDigit(c));
    DigitsInjective(n, n');
  }

  lemma BlobUnique(s: string, cap: nat, b: seq<byte>, rest: string, cap': nat, b': seq<byte>, rest': string)
    requires ReadsBlob(s, cap, b, rest) && ReadsBlob(s, cap', b', rest')
    ensures b == b' && rest == rest'
  {
    hide Text, Value;
    ValuesOfText(b');
    BlobRun(s, Text(b'), rest', b, rest);
    TextInjective(b, b');
  }

  /** Costs are three numbers one after the other. */
  lemma CostsAreNumbers(s: string, mCost: nat, tCost: nat, lanes: nat, rest: string)
    ensures var s2 := ",p=" + Digits(lanes) + rest;
            var s1 := ",t=" + Digits(tCost) + s2;
            ReadsCosts(s, mCost, tCost, lanes, rest)
            <==> (ReadsNumber(s, "$m=", mCost, s1) && ReadsNumber(s1, ",t=", tCost, s2)
                  && ReadsNumber(s2, ",p=", lanes, rest))
  {
    hide Digits;
    var s2 := ",p=" + Digits(lanes) + rest;
    var s1 := ",t=" + Digits(tCost) + s2;
    assert Costs(mCost, tCost, lanes) + rest == "$m=" + Digits(mCost) + s1;
    assert s1[0] == ',' && s2[0] == ',';
  }

  lemma CostsUnique(s: string, m: nat, t: nat, p: nat, rest: string, m': nat, t': nat, p': nat, rest': string)
    requires ReadsCosts(s, m, t, p, rest) && ReadsCosts(s, m', t', p', rest')
    ensures m == m' && t == t' && p == p' && rest == rest'
  {
    CostsAreNumbers(s, m, t, p, rest);
    CostsAreNumbers(s, m', t', p', rest');
    hide ReadsNumber, Digits;
    var s2, s2' := ",p=" + Digits(p) + rest, ",p=" + Digits(p') + rest';
    NumberUnique(s, "$m=", m, ",t=" + Digits(t) + s2, m', ",t=" + Digits(t') + s2');
    NumberUnique(",t=" + Digits(t) + s2, ",t=", t, s2, t', s2');
    NumberUnique(s2, ",p=", p, rest, p', rest');
  }

  /** What follows the type. */
  ghost predicate ReadsVersion(s: string, version: Option<nat>, rest: string) {
    if version.None? then s == rest && !HasPrefix(rest, "$v=")
    else ReadsNumber(s, "$v=", version.value, rest)
  }

  lemma HeadIsPrefixAndVersion(s: string, variant: Variant, version: Option<nat>, rest: string)
    ensures ReadsHead(s, variant, version, rest)
       <==> var k := 1 + |TypeString(variant)|;
            HasPrefix(s, "$" + TypeString(variant)) && ReadsVersion(s[k..], version, rest)
  {
    hide Digits;
    var t, u := "$" + TypeString(variant), VersionPart(version) + rest;
    assert Head(variant, version) + rest == t + u;
    assert ReadsVersion(u, version, rest)
      <==> (if version.Some? then version.value <= MAX32 && !DigitFirst(rest) else !HasPrefix(rest, "$v=")) by {
      hide TypeString;
    }
    hide TypeString, Head, VersionPart;
    PrefixCut(s, t, u);
  }

  lemma PrefixCut(s: string, t: string, u: string)
    ensures s == t + u <==> HasPrefix(s, t) && s[|t|..] == u
  {
  }

  lemma VersionUnique(s: string, v: Option<nat>, rest: string, v': Option<nat>, rest': string)
    requires ReadsVersion(s, v, rest) && ReadsVersion(s, v', rest')
    ensures v == v' && rest == rest'
  {
    hide Digits;
    VersionWritten(s, v, rest);
    VersionWritten(s, v', rest');
    if v.Some? && v'.Some? {
      NumberUnique(s, "$v=", v.value, rest, v'.value, rest');
    }
  }

  lemma VersionWritten(s: string, v: Option<nat>, rest: string)
    requires ReadsVersion(s, v, rest)
    ensures v.Some? <==> HasPrefix(s, "$v=")
  {
    hide Digits;
    if v.Some? {
      assert s == "$v=" + (Digits(v.value) + rest);
    }
  }

  lemma HeadUnique(s: string, variant: Variant, v: Option<nat>, rest: string, v': Option<nat>, rest': string)
    requires ReadsHead(s, variant, v, rest) && ReadsHead(s, variant, v', rest')
    ensures v == v' && rest == rest'
  {
    HeadIsPrefixAndVersion(s, variant, v, rest);
    HeadIsPrefixAndVersion(s, variant, v', rest');
    VersionUnique(s[1 + |TypeString(variant)|..], v, rest, v', rest');
  }

  /** A whole string is a head, costs and two blobs one after the other. */
  lemma PartsOf(s: string, variant: Variant, saltCap: nat, outCap: nat, x: Fields, rest: string)
    ensures var s3 := Blob(x.out) + rest;
            var s2 := Blob(x.salt) + s3;
            var s1 := Costs(x.mCost, x.tCost, x.lanes) + s2;
            Reads(s, variant, saltCap, outCap, x, rest)
            <==> ReadsHead(s, variant, x.version, s1) && ReadsCosts(s1, x.mCost, x.tCost, x.lanes, s2)
                 && ReadsBlob(s2, saltCap, x.salt, s3) && ReadsBlob(s3, outCap, x.out, rest)
  {
    hide Digits, Text, Head;
    var s3 := Blob(x.out) + rest;
    var s2 := Blob(x.salt) + s3;
    var costs := Costs(x.mCost, x.tCost, x.lanes);
    var s1 := costs + s2;
    assert s3[0] == '$' && s2[0] == '$' && s1[0] == '$' && s1[1] == costs[1] == 'm';
    hide Costs, Blob;
    assert Format(variant, x) + rest == Head(variant, x.version) + s1;
  }

  /** No string can be read in two ways, as long as the type is the same. */
  lemma ReadsUnique(s: string, variant: Variant, c: nat, d: nat, x: Fields, rest: string, c': nat, d': nat, x': Fields,
                    rest': string)
    requires Reads(s, variant, c, d, x, rest) && Reads(s, variant, c', d', x', rest')
    ensures x == x' && rest == rest'
  {
    PartsOf(s, variant, c, d, x, rest);
    PartsOf(s, variant, c', d', x', rest');
    hide Reads, ReadsHead, ReadsCosts, ReadsBlob, Costs, Blob;
    var s3, s3' := Blob(x.out) + rest, Blob(x'.out) + rest';
    var s2, s2' := Blob(x.salt) + s3, Blob(x'.salt) + s3';
    var s1, s1' := Costs(x.mCost, x.tCost, x.lanes) + s2, Costs(x'.mCost, x'.tCost, x'.lanes) + s2';
    HeadUnique(s, variant, x.version, s1, x'.version, s1');
    CostsUnique(s1, x.mCost, x.tCost, x.lanes, s2, x'.mCost, x'.tCost, x'.lanes, s2');
    BlobUnique(s2, c, x.salt, s3, c', x'.salt, s3');
    BlobUnique(s3, d, x.out, rest, d', x'.out, rest');
  }

  /** ... and none can be read as two types. */
  lemma OtherTypeFails(variant: Variant, x: Fields, other: Variant, saltCap: nat, outCap: nat)
    requires variant != other
    ensures NoReading(Format(variant, x), other, saltCap, outCap)
  {
    var s := Format(variant, x);
    forall y: Fields, rest: string ensures !Reads(s, other, saltCap, outCap, y, rest) {
      TypeAtFront(variant, x);
      TypeAtFront(other, y);
      hide Format;
    }
  }

  lemma FormatFromType(variant: Variant, x: Fields)
    ensures Format(variant, x)
         == ("$" + TypeString(variant))
            + (VersionPart(x.version) + Costs(x.mCost, x.tCost, x.lanes) + (Blob(x.salt) + Blob(x.out)))
  {
    hide VersionPart, Costs, Blob, TypeString;
  }

  /** After the type comes a '$'. */
  lemma TypeAtFront(variant: Variant, x: Fields)
    ensures var s, t := Format(variant, x), TypeString(variant);
            |s| > 9 && s[7] == t[6] && s[8] == if variant.Argon2id? then 'd' else '$'
  {
    hide Digits, Text;
    var t := "$" + TypeString(variant);
    var blobs := Blob(x.salt) + Blob(x.out);
    var costs := Costs(x.mCost, x.tCost, x.lanes);
    assert |costs| > 2 && costs[0] == '$';
    hide Costs, Blob;
    var u := VersionPart(x.version) + costs + blobs;
    assert |u| > 2 && u[0] == '$';
    assert Format(variant, x) == t + u by { hide VersionPart; FormatFromType(variant, x); }
    hide VersionPart, Format;
  }

  // ------------------------------------------------------------------ decode_string

  /** Characters that no other is taken for. */
  ghost predicate Unmistaken(t: string) { forall i :: 0 <= i < |t| ==> (t[i] as int) < 128 && t[i] != '/' }

  /** A text of such characters is seen only where it is. */
  lemma SeenText(s: string, signed: bool, t: string, rest: string)
    requires Unmistaken(t)
    ensures Seen(s, signed) == t + rest <==> |t| <= |s| && s == t + s[|t|..] && rest == Seen(s[|t|..], signed)
  {
    if Seen(s, signed) == t + rest {
      var u := Seen(s, signed);
      assert |t| <= |s| && |u| == |s|;
      assert u[..|t|] == t && u[|t|..] == rest;
      forall i | 0 <= i < |t| ensures s[i] == t[i] {
        assert u[i] == SeenChar(s[i], signed) && u[i] == t[i];
      }
      assert s[..|t|] == t;
      SeenFrom(s, signed, |t|);
    }
    if |t| <= |s| && s == t + s[|t|..] && rest == Seen(s[|t|..], signed) {
      var u := Seen(s, signed);
      forall i | 0 <= i < |t| ensures u[i] == t[i] {
        assert u[i] == SeenChar(s[i], signed) && s[i] == t[i];
      }
      SeenFrom(s, signed, |t|);
      assert u == u[..|t|] + u[|t|..];
    }
  }

  lemma SeenFrom(s: string, signed: bool, p: nat)
    requires p <= |s|
    ensures Seen(s, signed)[p..] == Seen(s[p..], signed)
  {
    assert forall i :: 0 <= i < |s| - p ==> Seen(s, signed)[p..][i] == Seen(s[p..], signed)[i];
  }

  lemma SeenPrefix(s: string, signed: bool, prefix: string)
    requires Unmistaken(prefix)
    ensures HasPrefix(Seen(s, signed), prefix) <==> HasPrefix(s, prefix)
  {
    if HasPrefix(s, prefix) {
      assert s == prefix + s[|prefix|..];
      SeenText(s, signed, prefix, Seen(s[|prefix|..], signed));
    }
    if HasPrefix(Seen(s, signed), prefix) {
      assert Seen(s, signed) == prefix + Seen(s, signed)[|prefix|..];
      SeenText(s, signed, prefix, Seen(s, signed)[|prefix|..]);
    }
  }

  /** Numbers are seen only where they are. */
  lemma NumberSeen(s: string, signed: bool, prefix: string, n: nat, rest: string)
    requires Unmistaken(prefix)
    ensures ReadsNumber(Seen(s, signed), prefix, n, rest)
       <==> exists tail: string :: ReadsNumber(s, prefix, n, tail) && rest == Seen(tail, signed)
  {
    DigitsAreMinimal(n);
    hide Digits;
    var t := prefix + Digits(n);
    if ReadsNumber(Seen(s, signed), prefix, n, rest) {
      SeenText(s, signed, t, rest);
      assert ReadsNumber(s, prefix, n, s[|t|..]);
    }
    if tail: string :| ReadsNumber(s, prefix, n, tail) && rest == Seen(tail, signed) {
      assert s[|t|..] == tail;
      SeenText(s, signed, t, rest);
    }
  }

  lemma NoNumberSeen(s: string, signed: bool, prefix: string)
    requires Unmistaken(prefix) && NoNumber(s, prefix)
    ensures NoNumber(Seen(s, signed), prefix)
  {
    hide ReadsNumber, Seen;
    forall n: nat, rest: string ensures !ReadsNumber(Seen(s, signed), prefix, n, rest) {
      NumberSeen(s, signed, prefix, n, rest);
    }
  }

  /** CC and DECIMAL_U32: a prefix and a number that fits into 32 bits. `max` is ULONG_MAX. */
  method ReadNumber(str: string, p: nat, prefix: string, max: nat, signed: bool, ghost seen: string)
    returns (next: Option<nat>, v: nat)
    requires p <= |str| && max >= MAX32 && seen == Seen(str, signed) && Unmistaken(prefix)
    ensures next.Some? ==>
      p <= next.value <= |str| && v <= MAX32 && ReadsNumber(seen[p..], prefix, v, seen[next.value..])
    ensures next.None? ==> NoNumber(seen[p..], prefix)
  {
    next, v := ReadPlainNumber(str, p, prefix, max);
    SeenFrom(str, signed, p);
    hide ReadsNumber, Seen;
    if next.None? {
      NoNumberSeen(str[p..], signed, prefix);
    } else {
      SeenFrom(str, signed, next.value);
      NumberSeen(str[p..], signed, prefix, v, seen[next.value..]);
    }
  }

  method ReadPlainNumber(str: string, p: nat, prefix: string, max: nat) returns (next: Option<nat>, v: nat)
    requires p <= |str| && max >= MAX32
    ensures next.Some? ==> p <= next.value <= |str| && v <= MAX32 && ReadsNumber(str[p..], prefix, v, str[next.value..])
    ensures next.None? ==> NoNumber(str[p..], prefix)
  {
    v := 0;
    hide Digits;
    if !HasPrefix(str[p..], prefix) {
      NoPrefix(str[p..], prefix);
      return None, v;
    }
    var start := p + |prefix|;
    ghost var e := DigitsEnd(str, start);
    assert str[p..] == prefix + str[start..e] + str[e..] by { assert str[start..] == str[start..e] + str[e..]; }
    next, v := DecodeDecimal(str, start, max);
    if next.None? || v > MAX32 {
      NumberAtRun(str[p..], prefix, str[start..e], str[e..]);
      if next.Some? {
        forall n: nat ensures str[start..e] == Digits(n) ==> n == v {
          if str[start..e] == Digits(n) {
            DigitsInjective(n, v);
          }
        }
      }
      return None, v;
    }
  }

  ghost predicate NoNumber(s: string, prefix: string) {
    forall n: nat, rest: string :: !ReadsNumber(s, prefix, n, rest)
  }

  lemma NoPrefix(s: string, prefix: string)
    requires !HasPrefix(s, prefix)
    ensures NoNumber(s, prefix)
  {
    hide Digits;
    forall n: nat, rest: string ensures !ReadsNumber(s, prefix, n, rest) {
      assert prefix + Digits(n) + rest == prefix + (Digits(n) + rest);
    }
  }

  /** A number can only be read where the run of digits is its printed form. */
  lemma NumberAtRun(s: string, prefix: string, run: string, tail: string)
    requires s == prefix + run + tail && AllDigits(run) && !DigitFirst(tail)
    ensures (forall n: nat | n <= MAX32 :: run != Digits(n)) ==> NoNumber(s, prefix)
  {
    hide Digits;
    forall n: nat, rest: string | ReadsNumber(s, prefix, n, rest) ensures run == Digits(n) {
      DigitsAreMinimal(n);
      assert s[|prefix|..] == run + tail == Digits(n) + rest;
      SameRun(run, Digits(n), tail, rest, c => IsDigit(c));
    }
  }

  /** The type and the version; without one the version is 0x10. */
  method DecodeHead(ctx: Context, str: string, variant: Variant, max: nat, signed: bool, ghost seen: string)
    returns (next: Option<nat>, ghost version: Option<nat>)
    requires max >= MAX32 && seen == Seen(str, signed)
    modifies ctx`version
    ensures next.Some? ==> next.value <= |str| && ReadsHead(seen, variant, version, seen[next.value..])
    ensures next.Some? ==> ctx.version == if version.Some? then version.value else VERSION_10
    ensures next.None? ==> forall v, rest :: !ReadsHead(seen, variant, v, rest)
  {
    version := None;
    hide ReadsHead, ReadsNumber, Seen;
    SeenPrefix(str, signed, "$" + TypeString(variant));
    var k := 1 + |TypeString(variant)|;
    if !HasPrefix(str, "$" + TypeString(variant)) {
      NoType(seen, variant);
      return None, None;
    }
    ctx.version := VERSION_10;
    SeenFrom(str, signed, k);
    SeenPrefix(str[k..], signed, "$v=");
    if !HasPrefix(str[k..], "$v=") {
      HeadIsPrefixAndVersion(seen, variant, None, seen[k..]);
      return Some(k), None;
    }
    var v;
    next, v := ReadNumber(str, k, "$v=", max, signed, seen);
    if next.None? {
      NoVersion(seen, variant);
      return None, None;
    }
    ctx.version := v;
    version := Some(v);
    HeadIsPrefixAndVersion(seen, variant, version, seen[next.value..]);
  }

  lemma NoType(str: string, variant: Variant)
    requires !HasPrefix(str, "$" + TypeString(variant))
    ensures forall v, rest :: !ReadsHead(str, variant, v, rest)
  {
    forall v, rest ensures !ReadsHead(str, variant, v, rest) {
      HeadIsPrefixAndVersion(str, variant, v, rest);
      hide ReadsNumber, ReadsHead;
    }
  }

  /** There is a "$v=" but no number follows. */
  lemma NoVersion(str: string, variant: Variant)
    requires HasPrefix(str, "$" + TypeString(variant))
    requires HasPrefix(str[1 + |TypeString(variant)|..], "$v=") && NoNumber(str[1 + |TypeString(variant)|..], "$v=")
    ensures forall v, rest :: !ReadsHead(str, variant, v, rest)
  {
    forall v, rest ensures !ReadsHead(str, variant, v, rest) {
      HeadIsPrefixAndVersion(str, variant, v, rest);
      hide ReadsNumber, ReadsHead;
    }
  }

  ghost predicate NoCosts(s: string) {
    forall m: nat, t: nat, l: nat, rest: string :: !ReadsCosts(s, m, t, l, rest)
  }

  method DecodeCosts(ctx: Context, str: string, p: nat, max: nat, signed: bool, ghost seen: string)
    returns (next: Option<nat>)
    requires p <= |str| && max >= MAX32 && seen == Seen(str, signed)
    modifies ctx`mCost, ctx`tCost, ctx`lanes, ctx`threads
    ensures next.Some? ==> p <= next.value <= |str| && ctx.threads == ctx.lanes
    ensures next.Some? ==> ReadsCosts(seen[p..], ctx.mCost, ctx.tCost, ctx.lanes, seen[next.value..])
    ensures next.None? ==> NoCosts(seen[p..])
  {
    hide ReadsNumber, ReadsCosts, Digits, Seen;
    var n1, m := ReadNumber(str, p, "$m=", max, signed, seen);
    if n1.None? {
      NoFirst(seen[p..]);
      return None;
    }
    ctx.mCost := m;
    var n2, t := ReadNumber(str, n1.value, ",t=", max, signed, seen);
    if n2.None? {
      NoSecond(seen[p..], m, seen[n1.value..]);
      return None;
    }
    ctx.tCost := t;
    var n3, l := ReadNumber(str, n2.value, ",p=", max, signed, seen);
    if n3.None? {
      NoThird(seen[p..], m, seen[n1.value..], t, seen[n2.value..]);
      return None;
    }
    ctx.lanes := l;
    ctx.threads := ctx.lanes;
    CostsRead(seen[p..], m, seen[n1.value..], t, seen[n2.value..], l, seen[n3.value..]);
    next := n3;
  }

  lemma CostsRead(s: string, m: nat, s1: string, t: nat, s2: string, l: nat, rest: string)
    requires ReadsNumber(s, "$m=", m, s1) && ReadsNumber(s1, ",t=", t, s2) && ReadsNumber(s2, ",p=", l, rest)
    ensures ReadsCosts(s, m, t, l, rest)
  {
    hide Digits;
    CostsAreNumbers(s, m, t, l, rest);
    hide Costs;
  }

  lemma NoFirst(s: string)
    requires NoNumber(s, "$m=")
    ensures NoCosts(s)
  {
    forall m: nat, t: nat, l: nat, rest: string ensures !ReadsCosts(s, m, t, l, rest) {
      CostsAreNumbers(s, m, t, l, rest);
      hide ReadsNumber, ReadsCosts, Digits;
    }
  }

  lemma NoSecond(s: string, m: nat, s1: string)
    requires ReadsNumber(s, "$m=", m, s1) && NoNumber(s1, ",t=")
    ensures NoCosts(s)
  {
    hide ReadsNumber, ReadsCosts, Digits;
    forall m': nat, t: nat, l: nat, rest: string ensures !ReadsCosts(s, m', t, l, rest) {
      CostsAreNumbers(s, m', t, l, rest);
      if ReadsCosts(s, m', t, l, rest) {
        NumberUnique(s, "$m=", m, s1, m', ",t=" + Digits(t) + (",p=" + Digits(l) + rest));
      }
    }
  }

  lemma NoThird(s: string, m: nat, s1: string, t: nat, s2: string)
    requires ReadsNumber(s, "$m=", m, s1) && ReadsNumber(s1, ",t=", t, s2) && NoNumber(s2, ",p=")
    ensures NoCosts(s)
  {
    hide ReadsNumber, ReadsCosts, Digits;
    forall m': nat, t': nat, l: nat, rest: string ensures !ReadsCosts(s, m', t', l, rest) {
      CostsAreNumbers(s, m', t', l, rest);
      if ReadsCosts(s, m', t', l, rest) {
        var s2' := ",p=" + Digits(l) + rest;
        NumberUnique(s, "$m=", m, s1, m', ",t=" + Digits(t') + s2');
        NumberUnique(s1, ",t=", t, s2, t', s2');
      }
    }
  }

  ghost predicate NoBlob(s: string, cap: nat) {
    forall b: seq<byte>, rest: string :: !ReadsBlob(s, cap, b, rest)
  }

  /** CC("$") and BIN. */
  method DecodeBlob(buf: array<byte>, cap: nat, str: string, p: nat, signed: bool, ghost seen: string)
    returns (next: Option<nat>, len: nat)
    requires p <= |str| && seen == Seen(str, signed) && IsCString(str) && cap <= buf.Length && cap <= MAX32
    modifies buf
    ensures next.Some? ==>
      p <= next.value <= |str| && len <= cap && ReadsBlob(seen[p..], cap, buf[..len], seen[next.value..])
    ensures next.None? ==> NoBlob(seen[p..], cap)
    ensures buf[cap..] == old(buf[cap..])
  {
    hide Text, Value, Seen, ReadsBlob, NoBytesFor;
    len := 0;
    SeenFrom(str, signed, p);
    SeenPrefix(str[p..], signed, "$");
    if !HasPrefix(str[p..], "$") {
      NoDollarNoBlob(seen[p..], cap);
      return None, 0;
    }
    ghost var e := LettersEnd(seen, p + 1);
    assert seen[p..] == "$" + seen[p + 1..e] + seen[e..] by { RunAfter(seen, p, e); }
    next, len := FromBase64(buf, cap, str, p + 1, signed);
    if next.None? || len > MAX32 {
      BlobAtRun(seen[p..], cap, seen[p + 1..e], seen[e..]);
      return None, len;
    }
    BlobIsRead(seen[p..], cap, buf[..len], seen[e..]);
  }

  lemma NoDollarNoBlob(s: string, cap: nat)
    requires !HasPrefix(s, "$")
    ensures NoBlob(s, cap)
  {
    hide Text;
    assert forall b: seq<byte>, rest: string :: (Blob(b) + rest)[0] == '$';
  }

  lemma RunAfter(s: string, p: nat, e: nat)
    requires p < e <= |s| && HasPrefix(s[p..], "$")
    ensures s[p..] == "$" + s[p + 1..e] + s[e..]
  {
    assert s[p] == s[p..][0] == '$';
  }

  lemma BlobIsRead(s: string, cap: nat, b: seq<byte>, rest: string)
    requires s == "$" + Text(b) + rest && |b| <= cap && !LetterFirst(rest)
    ensures ReadsBlob(s, cap, b, rest)
  {
    hide Text;
  }

  lemma BlobRun(s: string, run: string, tail: string, b: seq<byte>, rest: string)
    requires s == "$" + run + tail == Blob(b) + rest && AllLetters(run) && !LetterFirst(tail) && !LetterFirst(rest)
    ensures run == Text(b) && tail == rest
  {
    hide Text, Value;
    ValuesOfText(b);
    assert s[1..] == run + tail == Text(b) + rest;
    SameRun(run, Text(b), tail, rest, c => Value(c).Some?);
  }

  lemma BlobAtRun(s: string, cap: nat, run: string, tail: string)
    requires s == "$" + run + tail && AllLetters(run) && !LetterFirst(tail) && NoBytesFor(run, cap)
    ensures NoBlob(s, cap)
  {
    forall b: seq<byte>, rest: string ensures !ReadsBlob(s, cap, b, rest) {
      if ReadsBlob(s, cap, b, rest) {
        BlobRun(s, run, tail, b, rest);
      }
    }
  }

  // ------------------------------------------------------------------ from the parts to the whole

  lemma NoHeadNoReading(s: string, variant: Variant, c: nat, d: nat)
    requires forall v, rest :: !ReadsHead(s, variant, v, rest)
    ensures NoReading(s, variant, c, d)
  {
    forall x: Fields, rest: string ensures !Reads(s, variant, c, d, x, rest) {
      PartsOf(s, variant, c, d, x, rest);
      hide Reads, ReadsHead, ReadsCosts, ReadsBlob, Costs, Blob;
    }
  }

  lemma NoCostsNoReading(s: string, variant: Variant, c: nat, d: nat, v: Option<nat>, s1: string)
    requires ReadsHead(s, variant, v, s1) && NoCosts(s1)
    ensures NoReading(s, variant, c, d)
  {
    hide Reads, ReadsHead, ReadsCosts, ReadsBlob, Costs, Blob;
    forall x: Fields, rest: string ensures !Reads(s, variant, c, d, x, rest) {
      PartsOf(s, variant, c, d, x, rest);
      if Reads(s, variant, c, d, x, rest) {
        HeadUnique(s, variant, v, s1, x.version,
                   Costs(x.mCost, x.tCost, x.lanes) + (Blob(x.salt) + (Blob(x.out) + rest)));
      }
    }
  }

  lemma NoSaltNoReading(s: string, variant: Variant, c: nat, d: nat, v: Option<nat>, s1: string, m: nat, t: nat,
                        l: nat, s2: string)
    requires ReadsHead(s, variant, v, s1) && ReadsCosts(s1, m, t, l, s2) && NoBlob(s2, c)
    ensures NoReading(s, variant, c, d)
  {
    hide Reads, ReadsHead, ReadsCosts, ReadsBlob, Costs, Blob;
    forall x: Fields, rest: string ensures !Reads(s, variant, c, d, x, rest) {
      PartsOf(s, variant, c, d, x, rest);
      if Reads(s, variant, c, d, x, rest) {
        var s2' := Blob(x.salt) + (Blob(x.out) + rest);
        HeadUnique(s, variant, v, s1, x.version, Costs(x.mCost, x.tCost, x.lanes) + s2');
        CostsUnique(s1, m, t, l, s2, x.mCost, x.tCost, x.lanes, s2');
      }
    }
  }

  lemma NoOutNoReading(s: string, variant: Variant, c: nat, d: nat, v: Option<nat>, s1: string, m: nat, t: nat, l: nat,
                       s2: string, salt: seq<byte>, s3: string)
    requires ReadsHead(s, variant, v, s1) && ReadsCosts(s1, m, t, l, s2) && ReadsBlob(s2, c, salt, s3) && NoBlob(s3, d)
    ensures NoReading(s, variant, c, d)
  {
    hide Reads, ReadsHead, ReadsCosts, ReadsBlob, Costs, Blob;
    forall x: Fields, rest: string ensures !Reads(s, variant, c, d, x, rest) {
      PartsOf(s, variant, c, d, x, rest);
      if Reads(s, variant, c, d, x, rest) {
        var s3' := Blob(x.out) + rest;
        var s2' := Blob(x.salt) + s3';
        HeadUnique(s, variant, v, s1, x.version, Costs(x.mCost, x.tCost, x.lanes) + s2');
        CostsUnique(s1, m, t, l, s2, x.mCost, x.tCost, x.lanes, s2');
        BlobUnique(s2, c, salt, s3, c, x.salt, s3');
      }
    }
  }

  lemma AllRead(s: string, variant: Variant, c: nat, d: nat, x: Fields, s1: string, s2: string, s3: string,
                rest: string)
    requires ReadsHead(s, variant, x.version, s1) && ReadsCosts(s1, x.mCost, x.tCost, x.lanes, s2)
    requires ReadsBlob(s2, c, x.salt, s3) && ReadsBlob(s3, d, x.out, rest)
    ensures Reads(s, variant, c, d, x, rest)
  {
    PartsOf(s, variant, c, d, x, rest);
    assert s3 == Blob(x.out) + rest && s2 == Blob(x.salt) + s3 && s1 == Costs(x.mCost, x.tCost, x.lanes) + s2;
  }

  /** The context says what the fields say. */
  ghost predicate Holds(ctx: Context, x: Fields)
    reads ctx, ctx.salt, ctx.out
  {
    && ctx.salt != null && ctx.out != null && ctx.saltlen <= ctx.salt.Length && ctx.outlen <= ctx.out.Length
    && ctx.version == (if x.version.Some? then x.version.value else VERSION_10)
    && ctx.mCost == x.mCost && ctx.tCost == x.tCost && ctx.lanes == ctx.threads == x.lanes
    && ctx.salt[..ctx.saltlen] == x.salt && ctx.out[..ctx.outlen] == x.out
  }

  /** The part of decode_string that reads. */
  method DecodeFields(ctx: Context, str: string, variant: Variant, max: nat, salt: array<byte>, out: array<byte>,
                      signed: bool, ghost seen: string)
    returns (next: Option<nat>, ghost x: Fields)
    requires ctx.salt == salt && ctx.out == out && salt != out
    requires ctx.saltlen <= salt.Length && ctx.outlen <= out.Length && IsCString(str) && max >= MAX32
    requires seen == Seen(str, signed)
    modifies ctx`version, ctx`mCost, ctx`tCost, ctx`lanes, ctx`threads, ctx`saltlen, ctx`outlen, salt, out
    ensures next.Some? ==> next.value <= |str| && Holds(ctx, x)
                           && Reads(seen, variant, old(ctx.saltlen), old(ctx.outlen), x, seen[next.value..])
    ensures next.None? ==> NoReading(seen, variant, old(ctx.saltlen), old(ctx.outlen))
  {
    hide Reads, ReadsHead, ReadsCosts, ReadsBlob, NoReading, NoCosts, NoBlob, IsCString, Seen;
    ghost var c, d := ctx.saltlen, ctx.outlen;
    x := Fields(None, 0, 0, 0, [], []);
    var n1, version := DecodeHead(ctx, str, variant, max, signed, seen);
    if n1.None? {
      NoHeadNoReading(seen, variant, c, d);
      return None, x;
    }
    ghost var s1 := seen[n1.value..];
    var n2 := DecodeCosts(ctx, str, n1.value, max, signed, seen);
    if n2.None? {
      NoCostsNoReading(seen, variant, c, d, version, s1);
      return None, x;
    }
    ghost var s2, m, t, l := seen[n2.value..], ctx.mCost, ctx.tCost, ctx.lanes;
    var n3, len := DecodeBlob(salt, ctx.saltlen, str, n2.value, signed, seen);
    if n3.None? {
      NoSaltNoReading(seen, variant, c, d, version, s1, m, t, l, s2);
      return None, x;
    }
    ctx.saltlen := len;
    ghost var s3, saltBytes := seen[n3.value..], salt[..len];
    next, len := DecodeBlob(out, ctx.outlen, str, n3.value, signed, seen);
    if next.None? {
      NoOutNoReading(seen, variant, c, d, version, s1, m, t, l, s2, saltBytes, s3);
      return None, x;
    }
    ctx.outlen := len;
    x := Fields(version, m, t, l, saltBytes, out[..len]);
    AllRead(seen, variant, c, d, x, s1, s2, s3, seen[next.value..]);
  }

  /** decode_string. The context holds what was read, whether or not it is then found valid; trailing
      characters are noticed last. The buffers of the context say how much fits. Where char is signed, the
      string is read as if every code from 128 on were a '/'. */
  method DecodeString(ctx: Context, str: string, code: int, max: nat, signed: bool)
    returns (rc: int, ghost read: Option<(Fields, string)>)
    requires ctx.salt != null && ctx.out != null && ctx.salt != ctx.out
    requires ctx.saltlen <= ctx.salt.Length && ctx.outlen <= ctx.out.Length && IsCString(str) && max >= MAX32
    modifies ctx, ctx.salt, ctx.out
    ensures ctx.salt == old(ctx.salt) && ctx.out == old(ctx.out) && ctx.pwd == old(ctx.pwd)
    ensures ctx.pwdlen == old(ctx.pwdlen)
    ensures VariantOf(code).None? ==> rc == INCORRECT_TYPE && read.None?
    ensures VariantOf(code).Some? && read.None? ==>
      rc == DECODING_FAIL && NoReading(Seen(str, signed), VariantOf(code).value, old(ctx.saltlen), old(ctx.outlen))
    ensures VariantOf(code).Some? && read.Some? ==>
      && Reads(Seen(str, signed), VariantOf(code).value, old(ctx.saltlen), old(ctx.outlen), read.value.0, read.value.1)
      && Holds(ctx, read.value.0) && Defaults(ctx)
      && rc == if ctx.Validate() != OK then ctx.Validate() else if read.value.1 == "" then OK else DECODING_FAIL
  {
    read := None;
    if VariantOf(code).None? {
      return INCORRECT_TYPE, None;
    }
    hide Reads, NoReading, IsCString, Seen, Context.Validate, Holds, Defaults, VariantOf;
    ghost var seen := Seen(str, signed);
    var next, x := DecodeFields(ctx, str, VariantOf(code).value, max, ctx.salt, ctx.out, signed, seen);
    if next.None? {
      return DECODING_FAIL, None;
    }
    rc := Finish(ctx, x, next.value == |str|);
    read := Some((x, seen[next.value..]));
  }

  /** The part of decode_string after the reading: defaults, validation, and nothing may follow. */
  method Finish(ctx: Context, ghost x: Fields, atEnd: bool) returns (rc: int)
    requires Holds(ctx, x)
    modifies ctx`secret, ctx`secretlen, ctx`ad, ctx`adlen, ctx`allocateCbk, ctx`freeCbk, ctx`clearPassword,
             ctx`clearSecret
    ensures Holds(ctx, x) && Defaults(ctx)
    ensures rc == if ctx.Validate() != OK then ctx.Validate() else if atEnd then OK else DECODING_FAIL
  {
    ctx.secret, ctx.secretlen, ctx.ad, ctx.adlen := null, 0, null, 0;
    ctx.allocateCbk, ctx.freeCbk, ctx.clearPassword, ctx.clearSecret := false, false, false, false;
    var result := ctx.Validate();
    if result != OK {
      return result;
    }
    rc := if atEnd then OK else DECODING_FAIL;
  }

  ghost predicate Defaults(ctx: Context)
    reads ctx
  {
    && ctx.secret == null && ctx.secretlen == 0 && ctx.ad == null && ctx.adlen == 0
    && !ctx.allocateCbk && !ctx.freeCbk && !ctx.clearPassword && !ctx.clearSecret
  }

  // ------------------------------------------------------------------ encode_string

  /** SS: a string with its terminating zero, if both fit before `end`. */
  method PutString(dst: array<char>, p: nat, end: nat, s: string) returns (ok: bool)
    requires p <= end <= dst.Length
    modifies dst
    ensures ok <==> p + |s| < end
    ensures ok ==> dst[..p + |s|] == old(dst[..p]) + s && dst[p + |s|] == '\0'
    ensures dst[end..] == old(dst[end..])
  {
    if |s| >= end - p {
      return false;
    }
    forall i | 0 <= i < |s| { dst[p + i] := s[i]; }
    dst[p + |s|] := '\0';
    assert dst[..p + |s|] == dst[..p] + dst[p..p + |s|];
    ok := true;
  }

  /** SS and then SX: a string and a number. */
  method PutNumber(dst: array<char>, p: nat, end: nat, prefix: string, n: u32) returns (ok: bool, p': nat)
    requires p <= end <= dst.Length
    modifies dst
    ensures ok <==> p + |prefix + Digits(n)| < end
    ensures ok ==>
      p' == p + |prefix + Digits(n)| && dst[..p'] == old(dst[..p]) + (prefix + Digits(n)) && dst[p'] == '\0'
    ensures dst[end..] == old(dst[end..])
  {
    hide Digits;
    ok := PutString(dst, p, end, prefix);
    if !ok {
      return false, p;
    }
    var tmp := Digits(n);
    ok := PutString(dst, p + |prefix|, end, tmp);
    p' := p + |prefix| + |tmp|;
  }

  /** SS and then SB: a '$' and some bytes. */
  method PutBlob(dst: array<char>, p: nat, end: nat, buf: array<byte>, len: nat) returns (ok: bool, p': nat)
    requires p <= end <= dst.Length && len <= buf.Length
    modifies dst
    ensures ok <==> p + |Blob(buf[..len])| < end
    ensures ok ==> p' == p + |Blob(buf[..len])| && dst[..p'] == old(dst[..p]) + Blob(buf[..len]) && dst[p'] == '\0'
    ensures dst[end..] == old(dst[end..])
  {
    hide Text, TextLength;
    ok := PutString(dst, p, end, "$");
    if !ok {
      return false, p;
    }
    ghost var before := dst[..p + 1];
    var rc := ToBase64(dst, p + 1, end - p - 1, buf, len);
    if rc == -1 {
      return false, p;
    }
    p' := p + 1 + rc;
    assert dst[..p + 1] == before;
    SliceJoin(dst[..], p + 1, p');
  }

  lemma SliceJoin(s: seq<char>, i: nat, j: nat)
    requires i <= j <= |s|
    ensures s[..j] == s[..i] + s[i..j]
  {
  }

  /** The fields that encode_string writes. */
  ghost function FieldsOf(ctx: Context): Fields
    requires ctx.salt != null && ctx.out != null && ctx.saltlen <= ctx.salt.Length && ctx.outlen <= ctx.out.Length
    reads ctx, ctx.salt, ctx.out
  {
    Fields(Option<nat>.Some(ctx.version), ctx.mCost, ctx.tCost, ctx.lanes, ctx.salt[..ctx.saltlen],
           ctx.out[..ctx.outlen])
  }

  method PutHead(dst: array<char>, end: nat, variant: Variant, version: u32) returns (ok: bool, p: nat)
    requires end <= dst.Length
    modifies dst
    ensures ok <==> |Head(variant, Some(version))| < end
    ensures ok ==> p == |Head(variant, Some(version))| && dst[..p] == Head(variant, Some(version)) && dst[p] == '\0'
    ensures dst[end..] == old(dst[end..])
  {
    hide Digits, TypeString, Head;
    var t := TypeString(variant);
    HeadParts(variant, version);
    ok := PutString(dst, 0, end, "$");
    if !ok {
      return false, 0;
    }
    assert dst[..1] == "$";
    ok := PutString(dst, 1, end, t);
    if !ok {
      return false, 0;
    }
    assert dst[..1 + |t|] == "$" + t;
    ok, p := PutNumber(dst, 1 + |t|, end, "$v=", version);
  }

  lemma HeadParts(variant: Variant, version: u32)
    ensures Head(variant, Some(version)) == ("$" + TypeString(variant)) + ("$v=" + Digits(version))
  {
    hide Digits, TypeString;
  }

  method PutCosts(dst: array<char>, p: nat, end: nat, mCost: u32, tCost: u32, lanes: u32) returns (ok: bool, p': nat)
    requires p <= end <= dst.Length
    modifies dst
    ensures ok <==> p + |Costs(mCost, tCost, lanes)| < end
    ensures ok ==>
      p' == p + |Costs(mCost, tCost, lanes)| && dst[..p'] == old(dst[..p]) + Costs(mCost, tCost, lanes)
          && dst[p'] == '\0'
    ensures dst[end..] == old(dst[end..])
  {
    hide Digits;
    ok, p' := PutNumber(dst, p, end, "$m=", mCost);
    if !ok {
      return false, p;
    }
    ok, p' := PutNumber(dst, p', end, ",t=", tCost);
    if !ok {
      return false, p;
    }
    ok, p' := PutNumber(dst, p', end, ",p=", lanes);
  }

  /** encode_string: it succeeds for an accepted context if and only if the string and its terminating
      zero fit, and never writes past the end of the buffer. */
  method EncodeString(dst: array<char>, dstLen: nat, ctx: Context, code: int) returns (rc: int)
    requires dstLen <= dst.Length && ctx.Buffers()
    modifies dst
    ensures VariantOf(code).None? ==> rc == ENCODING_FAIL
    ensures VariantOf(code).Some? && ctx.Validate() != OK ==> rc == ctx.Validate()
    ensures VariantOf(code).Some? && ctx.Validate() == OK ==>
      && ctx.salt != null && ctx.out != null
      && var s := Format(VariantOf(code).value, FieldsOf(ctx));
         && rc == (if |s| < dstLen then OK else ENCODING_FAIL)
         && (rc == OK ==> dst[..|s|] == s && dst[|s|] == '\0')
    ensures dst[dstLen..] == old(dst[dstLen..])
  {
    hide Text, Context.Validate, Head, Costs;
    ctx.AcceptedExactly();
    var validation := ctx.Validate();
    if VariantOf(code).None? {
      return ENCODING_FAIL;
    }
    if validation != OK {
      return validation;
    }
    rc := WriteFormat(dst, dstLen, ctx, VariantOf(code).value, ctx.salt, ctx.out);
  }

  /** The writing part of encode_string. */
  method WriteFormat(dst: array<char>, dstLen: nat, ctx: Context, variant: Variant, salt: array<byte>, out: array<byte>)
    returns (rc: int)
    requires dstLen <= dst.Length && ctx.salt == salt && ctx.out == out && ctx.saltlen <= salt.Length
    requires ctx.outlen <= out.Length
    modifies dst
    ensures var s := Format(variant, FieldsOf(ctx));
            && rc == (if |s| < dstLen then OK else ENCODING_FAIL)
            && (rc == OK ==> dst[..|s|] == s && dst[|s|] == '\0')
    ensures dst[dstLen..] == old(dst[dstLen..])
  {
    hide Head, Costs, Blob;
    ghost var head, costs := Head(variant, Option<nat>.Some(ctx.version)), Costs(ctx.mCost, ctx.tCost, ctx.lanes);
    ghost var salted, outed := Blob(salt[..ctx.saltlen]), Blob(out[..ctx.outlen]);
    FormatLength(variant, FieldsOf(ctx));
    var ok, p := PutHead(dst, dstLen, variant, ctx.version);
    if !ok {
      return ENCODING_FAIL;
    }
    ok, p := PutCosts(dst, p, dstLen, ctx.mCost, ctx.tCost, ctx.lanes);
    if !ok {
      return ENCODING_FAIL;
    }
    ok, p := PutBlob(dst, p, dstLen, salt, ctx.saltlen);
    if !ok {
      return ENCODING_FAIL;
    }
    ok, p := PutBlob(dst, p, dstLen, out, ctx.outlen);
    if !ok {
      return ENCODING_FAIL;
    }
    rc := OK;
  }

  lemma FormatLength(variant: Variant, x: Fields)
    ensures |Format(variant, x)|
         == |Head(variant, x.version)| + |Costs(x.mCost, x.tCost, x.lanes)| + |Blob(x.salt)| + |Blob(x.out)|
  {
  }

  // ------------------------------------------------------------------ argon2_encodedlen

  /** argon2_encodedlen: room enough for the string and its terminating zero if and only if the version has
      at most two digits, and not more than they need if and only if it has two. */
  method EncodedLen(tCost: u32, mCost: u32, parallelism: u32, saltlen: u32, hashlen: u32, variant: Variant)
    returns (len: nat)
    ensures len > 0
    ensures forall x: Fields | SizesAre(x, tCost, mCost, parallelism, saltlen, hashlen) ::
      && (|Format(variant, x)| < len <==> x.version.value <= 99)
      && (len == |Format(variant, x)| + 1 <==> 10 <= x.version.value <= 99)
  {
    var t := NumLen(tCost);
    var m := NumLen(mCost);
    var p := NumLen(parallelism);
    var s := B64Len(saltlen);
    var h := B64Len(hashlen);
    var v := NumLen(VERSION_13);
    len := |"$$v=$m=,t=,p=$$"| + |TypeString(variant)| + t + m + p + s + h + v + 1;
    TwoDigits(VERSION_13);
    forall x: Fields | SizesAre(x, tCost, mCost, parallelism, saltlen, hashlen)
      ensures |Format(variant, x)| < len <==> x.version.value <= 99
      ensures len == |Format(variant, x)| + 1 <==> 10 <= x.version.value <= 99
    {
      TwoDigits(x.version.value);
      hide Digits, Text;
      FormatLength(variant, x);
    }
  }

  /** The fields that argon2_encodedlen is told about, with a version. */
  ghost predicate SizesAre(x: Fields, tCost: u32, mCost: u32, parallelism: u32, saltlen: u32, hashlen: u32) {
    && x.version.Some? && x.tCost == tCost && x.mCost == mCost && x.lanes == parallelism
    && |x.salt| == saltlen && |x.out| == hashlen
  }

  /** With version 100 an accepted context does not fit into the length that is computed for it. */
  method VersionTooLong(variant: Variant) returns (len: nat, x: Fields)
    ensures Accepted(x) && x.version == Some(100) && |Format(variant, x)| >= len
    ensures SizesAre(x, x.tCost, x.mCost, x.lanes, |x.salt|, |x.out|)
  {
    hide Format;
    x := Fields(Some(100), 8, 1, 1, seq(8, _ => 0), seq(4, _ => 0));
    len := EncodedLen(1, 8, 1, 8, 4, variant);
    assert SizesAre(x, 1, 8, 1, 8, 4);
  }

  lemma TwoDigits(n: nat)
    ensures |Digits(n)| == 2 <==> 10 <= n <= 99
    ensures |Digits(n)| <= 2 <==> n <= 99
  {
    assert n >= 10 ==> |Digits(n)| == |Digits(n / 10)| + 1;
    assert n >= 100 ==> |Digits(n / 10)| == |Digits(n / 10 / 10)| + 1;
  }

  // ------------------------------------------------------------------ there and back

  /** A C string: what comes before the first zero. */
  method StringAt(dst: array<char>) returns (s: string)
    requires exists n :: 0 <= n < dst.Length && dst[n] == '\0'
    ensures |s| < dst.Length && s == dst[..|s|] && dst[|s|] == '\0' && forall i :: 0 <= i < |s| ==> s[i] != '\0'
  {
    var n := 0;
    while dst[n] != '\0'
      invariant n < dst.Length && forall i :: 0 <= i < n ==> dst[i] != '\0'
      invariant exists k :: n <= k < dst.Length && dst[k] == '\0'
      decreases dst.Length - n
    {
      n := n + 1;
    }
    s := dst[..n];
  }

  /** decode_string undoes encode_string: whenever the buffer is large enough for an accepted context, what
      is written to it is read back into another context with room for it. Under another type the string
      is refused. */
  method EncodeThenDecode(ctx: Context, code: int, dstLen: nat, other: Context, otherCode: int, max: nat, signed: bool)
    returns (rc: int, rc': int)
    requires ctx.Buffers() && ctx.Validate() == OK && VariantOf(code).Some?
    requires other.salt != null && other.out != null && other.salt != other.out
    requires ctx.saltlen <= other.saltlen <= other.salt.Length && ctx.outlen <= other.outlen <= other.out.Length
    requires other.pwd == null ==> other.pwdlen == 0
    requires VariantOf(otherCode).Some? && max >= MAX32
    modifies other, other.salt, other.out
    ensures rc == if |Format(VariantOf(code).value, old(FieldsOf(ctx)))| < dstLen then OK else ENCODING_FAIL
    ensures rc == OK && otherCode == code ==> rc' == OK && Holds(other, old(FieldsOf(ctx)))
    ensures rc == OK && otherCode != code ==> rc' == DECODING_FAIL
  {
    ctx.AcceptedExactly();
    hide Context.Validate, Format, Reads, Holds, FieldsOf, Seen;
    var variant := VariantOf(code).value;
    ghost var x, c, d := FieldsOf(ctx), other.saltlen, other.outlen;
    AcceptedFieldsOf(ctx);
    ghost var s := Format(variant, x);
    var dst := new char[dstLen];
    rc := EncodeString(dst, dstLen, ctx, code);
    if rc != OK {
      return rc, rc;
    }
    rc' := DecodeWritten(dst, other, otherCode, max, signed, variant, x);
  }

  /** decode_string on a buffer that holds an encoded string. */
  method DecodeWritten(dst: array<char>, other: Context, otherCode: int, max: nat, signed: bool,
                       ghost variant: Variant, ghost x: Fields) returns (rc: int)
    requires Accepted(x) && |Format(variant, x)| < dst.Length
    requires dst[..|Format(variant, x)|] == Format(variant, x) && dst[|Format(variant, x)|] == '\0'
    requires other.salt != null && other.out != null && other.salt != other.out
    requires |x.salt| <= other.saltlen <= other.salt.Length && |x.out| <= other.outlen <= other.out.Length
    requires other.pwd == null ==> other.pwdlen == 0
    requires VariantOf(otherCode).Some? && max >= MAX32
    modifies other, other.salt, other.out
    ensures VariantOf(otherCode).value == variant ==> rc == OK && Holds(other, x)
    ensures VariantOf(otherCode).value != variant ==> rc == DECODING_FAIL
  {
    hide Context.Validate, Format, Reads, Holds, Seen, Accepted;
    ghost var s, c, d := Format(variant, x), other.saltlen, other.outlen;
    var str := StringAt(dst);
    FormatIsPlain(variant, x);
    SameCString(dst[..], s, str);
    SeenAsItIs(s, signed);
    ghost var read;
    rc, read := DecodeString(other, str, otherCode, max, signed);
    if VariantOf(otherCode).value == variant {
      ReadsBack(variant, x, c, d, read);
      AcceptedWhenRead(other, x);
    } else {
      OtherTypeFails(variant, x, VariantOf(otherCode).value, c, d);
      NothingRead(s, VariantOf(otherCode).value, c, d, read);
    }
  }

  lemma SameCString(dst: seq<char>, s: string, str: string)
    requires IsCString(s) && |s| < |dst| && dst[..|s|] == s && dst[|s|] == '\0'
    requires |str| < |dst| && str == dst[..|str|] && dst[|str|] == '\0' && forall i :: 0 <= i < |str| ==> str[i] != '\0'
    ensures str == s
  {
    assert forall i :: 0 <= i < |s| ==> dst[i] == dst[..|s|][i];
    assert forall i :: 0 <= i < |str| ==> dst[i] == dst[..|str|][i];
  }

  /** What encode_string can be given. */
  ghost predicate Accepted(x: Fields) {
    && (x.version.Some? ==> x.version.value <= MAX32)
    && 8 * x.lanes <= x.mCost <= MAX32 && 1 <= x.tCost <= MAX32 && 1 <= x.lanes <= MAX_LANES
    && MIN_SALT_LENGTH <= |x.salt| <= MAX32 && MIN_OUTLEN <= |x.out| <= MAX32
  }

  lemma AcceptedFieldsOf(ctx: Context)
    requires ctx.Buffers() && ctx.Validate() == OK
    ensures ctx.salt != null && ctx.out != null && Accepted(FieldsOf(ctx))
    ensures var x := FieldsOf(ctx);
      x.version == Some(ctx.version) && x.mCost == ctx.mCost && x.tCost == ctx.tCost && x.lanes == ctx.lanes
      && |x.salt| == ctx.saltlen && |x.out| == ctx.outlen
  {
    ctx.AcceptedExactly();
    hide Context.Validate;
  }

  /** The printed form reads as what was printed, and as nothing else. */
  lemma ReadsBack(variant: Variant, x: Fields, c: nat, d: nat, read: Option<(Fields, string)>)
    requires Accepted(x) && |x.salt| <= c && |x.out| <= d
    requires read.None? ==> NoReading(Format(variant, x), variant, c, d)
    requires read.Some? ==> Reads(Format(variant, x), variant, c, d, read.value.0, read.value.1)
    ensures read == Some((x, ""))
  {
    var s := Format(variant, x);
    hide Format;
    assert s + "" == s;
    assert Reads(s, variant, c, d, x, "");
    hide Reads;
    if read.Some? {
      ReadsUnique(s, variant, c, d, x, "", c, d, read.value.0, read.value.1);
    }
  }

  lemma NothingRead(s: string, variant: Variant, c: nat, d: nat, read: Option<(Fields, string)>)
    requires NoReading(s, variant, c, d)
    requires read.Some? ==> Reads(s, variant, c, d, read.value.0, read.value.1)
    ensures read.None?
  {
  }

  lemma AcceptedWhenRead(ctx: Context, x: Fields)
    requires Holds(ctx, x) && Defaults(ctx) && Accepted(x) && (ctx.pwd == null ==> ctx.pwdlen == 0)
    ensures ctx.Validate() == OK
  {
    ctx.AcceptedExactly();
    hide Context.Validate;
  }

  lemma WholeRead(s: string, variant: Variant, c: nat, d: nat, x: Fields)
    requires Reads(s, variant, c, d, x, "")
    ensures s == Format(variant, x)
  {
    hide Format;
    assert Format(variant, x) + "" == Format(variant, x);
  }

  /** A string that decode_string accepts is the one encode_string writes, unless char is signed and the
      string has a code of 128 or above. */
  lemma AcceptedAsWritten(s: string, signed: bool, variant: Variant, c: nat, d: nat, x: Fields)
    requires Reads(Seen(s, signed), variant, c, d, x, "")
    ensures s == Format(variant, x) <==> !signed || Ascii(s)
  {
    WholeRead(Seen(s, signed), variant, c, d, x);
    SeenAsItIs(s, signed);
    hide Format, Reads;
  }

  /** A '/' replaced by a code of 128 or above. */
  lemma HighCodeIsSeen(t: string, i: nat)
    requires Plain(t) && i < |t| && t[i] == '/'
    ensures var s := t[i := 255 as char]; IsCString(s) && !Ascii(s) && s != t && Seen(s, true) == t
  {
    var s := t[i := 255 as char];
    assert (s[i] as int) == 255;
    assert forall k :: 0 <= k < |t| ==> Seen(s, true)[k] == SeenChar(s[k], true) == t[k];
  }

  /** A salt whose text begins with a '/'. */
  lemma SlashInText(salt: seq<byte>)
    requires salt == [255, 255, 255, 255, 255, 255, 255, 255]
    ensures |Text(salt)| > 0 && Text(salt)[0] == '/'
  {
    SextetAt(salt, 0, 0);
    hide Sextet;
    assert Sextet(salt, 0) == 63;
  }

  lemma SlashInFormat(variant: Variant, x: Fields) returns (i: nat)
    requires |Text(x.salt)| > 0 && Text(x.salt)[0] == '/'
    ensures i < |Format(variant, x)| && Format(variant, x)[i] == '/'
  {
    hide Text, Head, Costs;
    var front := Head(variant, x.version) + Costs(x.mCost, x.tCost, x.lanes);
    i := |front| + 1;
    assert Format(variant, x) == front + Blob(x.salt) + Blob(x.out);
    assert Blob(x.salt)[1] == '/';
  }

  /** Where char is signed, a string that is not the one encode_string writes is accepted all the same. */
  lemma AcceptedOtherwise(variant: Variant) returns (s: string, x: Fields)
    ensures Accepted(x) && IsCString(s) && !Ascii(s) && s != Format(variant, x)
    ensures Reads(Seen(s, true), variant, |x.salt|, |x.out|, x, "")
  {
    hide Format, Seen, Text;
    x := Fields(Some(VERSION_13), 8, 1, 1, [255, 255, 255, 255, 255, 255, 255, 255], seq(4, _ => 0));
    var t := Format(variant, x);
    SlashInText(x.salt);
    var i := SlashInFormat(variant, x);
    FormatIsPlain(variant, x);
    HighCodeIsSeen(t, i);
    s := t[i := 255 as char];
    assert t + "" == t;
  }
}
