/** The PHC strings of phc.ts.

    A result of None stands for a TypeError. The values of `params` are listed in the order of
    Object.keys where they are written, and are a map where they have been read. A number is a safe
    integer other than -0, or any other number, which is known by what it prints as. */
module Phc {
  import opened Options
  import opened Bytes
  import opened Base64
  import opened Decimals
  import opened Instances
  import opened Contexts
  import opened Encoding

  const MAX_SAFE: int := 0x1F_FFFF_FFFF_FFFF

  type SafeInt = n: int | -MAX_SAFE <= n <= MAX_SAFE

  predicate IsSafe(n: int) { -MAX_SAFE <= n <= MAX_SAFE }

  /** What a number other than a safe integer prints as: 1.5, 1e+21, 9007199254740992, -Infinity, and also
      0 for -0. */
  type NumberText = s: string | IsValue(s) witness "NaN"

  /** A value of `params` as it is given. */
  datatype Raw = Number(n: SafeInt) | Double(text: NumberText) | Str(s: string) | Buffer(b: seq<byte>)

  /** A version as it is given: a safe integer or another number, which may be a natural one. */
  datatype GivenVersion = Int(n: SafeInt) | Other(text: NumberText, natural: bool)

  datatype PhcInput = PhcInput(id: string, version: Option<GivenVersion>, params: Option<seq<(string, Raw)>>,
                               salt: Option<seq<byte>>, hash: Option<seq<byte>>)

  /** A value of `params` as it is returned. A Real, which is a number other than a safe integer, never is. */
  datatype Parsed = Num(n: SafeInt) | Txt(s: string) | Real(text: NumberText)

  /** A version as it is returned: a safe integer, or the double that these digits are rounded to. */
  datatype Version = Exact(n: SafeInt) | Rounded(digits: string)

  datatype PhcObject = PhcObject(id: string, version: Option<Version>, params: Option<map<string, Parsed>>,
                                 salt: Option<seq<byte>>, hash: Option<seq<byte>>)

  /** Buffer.from(_, "base64"); all that is known of it is that it reads canonical text. */
  type Decoder = string -> seq<byte>

  ghost predicate Lawful(decode: Decoder) { forall b :: decode(Text(b)) == b }

  // ------------------------------------------------------------------ regular expressions

  predicate NameChar(c: char) { 'a' <= c <= 'z' || IsDigit(c) || c == '-' }

  predicate ValueChar(c: char) {
    'a' <= c <= 'z' || 'A' <= c <= 'Z' || IsDigit(c) || c == '/' || c == '+' || c == '.' || c == '-'
  }

  /** idRegex and nameRegex. */
  predicate IsName(s: string) { 1 <= |s| <= 32 && forall i :: 0 <= i < |s| ==> NameChar(s[i]) }

  /** b64Regex. */
  predicate IsB64(s: string) { forall i :: 0 <= i < |s| ==> ValueChar(s[i]) }

  /** valueRegex. */
  predicate IsValue(s: string) { s != "" && IsB64(s) }

  /** decimalRegex. */
  predicate IsDecimal(s: string) {
    s == "0" ||
    var body := if s != "" && s[0] == '-' then s[1..] else s;
    body != "" && body[0] != '0' && AllDigits(body)
  }

  /** versionRegex. */
  predicate IsVersion(s: string) { |s| > 2 && s[..2] == "v=" && AllDigits(s[2..]) }

  // ------------------------------------------------------------------ split and join

  /** String.split at a character. */
  function Split(s: string, c: char): (fields: seq<string>)
    ensures |fields| >= 1
  {
    if s == "" then [""]
    else
      var rest := Split(s[1..], c);
      if s[0] == c then [""] + rest else [[s[0]] + rest[0]] + rest[1..]
  }

  /** Array.join with a character. */
  function Join(fields: seq<string>, c: char): string {
    if fields == [] then ""
    else if |fields| == 1 then fields[0]
    else fields[0] + [c] + Join(fields[1..], c)
  }

  ghost predicate Without(s: string, c: char) { forall i :: 0 <= i < |s| ==> s[i] != c }

  lemma {:induction false} SplitFirst(a: string, s: string, c: char)
    requires Without(a, c)
    ensures Split(a + [c] + s, c) == [a] + Split(s, c)
    ensures Split(a, c) == [a]
  {
    if a == "" {
      assert a + [c] + s == [c] + s && ([c] + s)[1..] == s;
    } else {
      SplitFirst(a[1..], s, c);
      assert (a + [c] + s)[1..] == a[1..] + [c] + s;
      assert [a[0]] + a[1..] == a;
    }
  }

  /** Splitting what was joined from fields without the separator gives these fields. */
  lemma {:induction false} SplitOfJoin(fields: seq<string>, c: char)
    requires fields != [] && forall i :: 0 <= i < |fields| ==> Without(fields[i], c)
    ensures Split(Join(fields, c), c) == fields
  {
    hide Split;
    if |fields| == 1 {
      SplitFirst(fields[0], "", c);
    } else {
      var rest := fields[1..];
      assert fields == [fields[0]] + rest && forall i :: 0 <= i < |rest| ==> rest[i] == fields[i + 1];
      SplitOfJoin(rest, c);
      SplitFirst(fields[0], Join(rest, c), c);
    }
  }

  /** Joining what was split gives the string again, and no field has the separator. */
  lemma {:induction false} JoinOfSplit(s: string, c: char)
    ensures Join(Split(s, c), c) == s
    ensures forall i :: 0 <= i < |Split(s, c)| ==> Without(Split(s, c)[i], c)
  {
    if s != "" {
      JoinOfSplit(s[1..], c);
      var rest := Split(s[1..], c);
      if s[0] == c {
        assert ([""] + rest)[1..] == rest;
      } else {
        assert ([[s[0]] + rest[0]] + rest[1..])[1..] == rest[1..];
      }
    }
  }

  // ------------------------------------------------------------------ the values of params

  /** toString of a safe integer. */
  function IntText(n: int): string { if n < 0 then "-" + Digits(-n) else Digits(n) }

  /** The value of a decimal. */
  function IntOf(s: string): int
    requires IsDecimal(s)
  {
    var n: int := Decimals.Number(if s[0] == '-' then s[1..] else s);
    if s[0] == '-' then -n else n
  }

  /** Decimals are exactly the printed integers. */
  lemma DecimalOfInt(n: int)
    ensures IsDecimal(IntText(n)) && IntOf(IntText(n)) == n
  {
    DigitsAreMinimal(if n < 0 then -n else n);
    if n == 0 {
      assert IntText(0) == "0";
    }
    if n < 0 {
      assert IntText(n)[1..] == Digits(-n);
    }
  }

  lemma IntOfDecimal(s: string)
    requires IsDecimal(s)
    ensures IntText(IntOf(s)) == s
  {
    if s[0] == '-' {
      MinimalIsDigits(s[1..]);
      assert s == "-" + s[1..];
    } else {
      MinimalIsDigits(s);
    }
  }

  /** Node writes base64 with padding. */
  function Padded(b: seq<byte>): string {
    Text(b) + if |b| % 3 == 0 then "" else if |b| % 3 == 1 then "==" else "="
  }

  /** replace(/=+$/, ""). */
  function StripEquals(s: string): string {
    if s != "" && s[|s| - 1] == '=' then StripEquals(s[..|s| - 1]) else s
  }

  function ToB64(b: seq<byte>): string { StripEquals(Padded(b)) }

  lemma SymbolIsValueChar(v: nat)
    requires v < 64
    ensures ValueChar(Symbol(v))
  {
  }

  lemma TextIsB64(b: seq<byte>)
    ensures IsB64(Text(b))
  {
    forall i | 0 <= i < |Text(b)| ensures ValueChar(Text(b)[i]) { SymbolIsValueChar(Sextet(b, i)); }
  }

  /** toB64 is unpadded base64, the text that to_base64 writes. */
  lemma ToB64IsText(b: seq<byte>)
    ensures ToB64(b) == Text(b)
  {
    TextIsB64(b);
    hide Text;
    var t := Text(b);
    assert StripEquals(t) == t;
    assert (t + "=")[..|t|] == t && StripEquals(t + "=") == t;
    assert (t + "==")[..|t| + 1] == t + "=" && StripEquals(t + "==") == t;
    assert t + "" == t;
  }

  /** The text of a value in serialize. */
  function RawText(v: Raw): string {
    match v
    case Number(n) => IntText(n)
    case Double(text) => text
    case Str(s) => s
    case Buffer(b) => ToB64(b)
  }

  predicate IsSafeDecimal(s: string) { IsDecimal(s) && IsSafe(IntOf(s)) }

  /** The value that deserialize makes of a text. */
  function ReadValue(s: string): Parsed {
    if IsSafeDecimal(s) then Num(IntOf(s)) else Txt(s)
  }

  /** A value as it was given; a Buffer is given as its text. */
  function AsGiven(v: Raw): Parsed {
    match v
    case Number(n) => Num(n)
    case Double(text) => Real(text)
    case Str(s) => Txt(s)
    case Buffer(b) => Txt(Text(b))
  }

  /** Values that are not taken for another: safe integers, and texts that are no safe decimals. */
  predicate Verbatim(v: Raw) {
    match v
    case Number(_) => true
    case Double(_) => false
    case Str(s) => !IsSafeDecimal(s)
    case Buffer(b) => !IsSafeDecimal(Text(b))
  }

  /** These values come back as they were given, and no others do. */
  lemma ValueComesBack(v: Raw)
    ensures ReadValue(RawText(v)) == AsGiven(v) <==> Verbatim(v)
  {
    if v.Number? {
      DecimalOfInt(v.n);
    }
    if v.Buffer? {
      ToB64IsText(v.b);
    }
  }

  // ------------------------------------------------------------------ serialize

  function EntryText(e: (string, Raw)): string { e.0 + "=" + RawText(e.1) }

  function EntryTexts(entries: seq<(string, Raw)>): (t: seq<string>)
    ensures |t| == |entries| && forall i :: 0 <= i < |t| ==> t[i] == EntryText(entries[i])
  {
    seq(|entries|, i requires 0 <= i < |entries| => EntryText(entries[i]))
  }

  function Optional(s: Option<string>): seq<string> { if s.Some? then [s.value] else [] }

  /** The parts of a PHC string, as texts. */
  datatype Parts = Parts(id: string, version: Option<string>, params: Option<seq<(string, Raw)>>,
                         salt: Option<string>, hash: Option<string>)

  function VersionField(g: Parts): Option<string> {
    if g.version.Some? then Some("v=" + g.version.value) else None
  }

  function ParamsField(g: Parts): Option<string> {
    if g.params.Some? then Some(Join(EntryTexts(g.params.value), ',')) else None
  }

  function SecondHalf(g: Parts): seq<string> {
    Optional(ParamsField(g)) + (Optional(g.salt) + Optional(g.hash))
  }

  /** The fields that are joined, after the empty one. */
  function PartFields(g: Parts): seq<string> { [g.id] + (Optional(VersionField(g)) + SecondHalf(g)) }

  /** $<id>[$v=<version>][$<param>=<value>(,<param>=<value>)*][$<salt>[$<hash>]] */
  function PartsText(g: Parts): string { Join([""] + PartFields(g), '$') }

  function BytesText(b: Option<seq<byte>>): Option<string> { if b.Some? then Some(Text(b.value)) else None }

  function PartsOf(x: PhcInput): Parts {
    Parts(x.id, if x.version.Some? then Some(VersionText(x.version.value)) else None, x.params,
          BytesText(x.salt), BytesText(x.hash))
  }

  function VersionText(v: GivenVersion): string { if v.Int? then IntText(v.n) else v.text }

  function PhcText(x: PhcInput): string { PartsText(PartsOf(x)) }

  predicate GoodEntry(e: (string, Raw)) { IsName(e.0) && IsValue(RawText(e.1)) }

  predicate IsNatural(v: GivenVersion) { if v.Int? then v.n >= 0 else v.natural }

  /** What serialize does not reject. */
  predicate Accepts(x: PhcInput) {
    && IsName(x.id)
    && (x.version.Some? ==> IsNatural(x.version.value))
    && (x.params.Some? ==> forall i :: 0 <= i < |x.params.value| ==> GoodEntry(x.params.value[i]))
    && (x.hash.Some? ==> x.salt.Some?)
  }

  /** The loop over the params. */
  method SerializeParams(params: seq<(string, Raw)>) returns (r: Option<string>)
    ensures r == if forall i :: 0 <= i < |params| ==> GoodEntry(params[i]) then Some(Join(EntryTexts(params), ','))
                 else None
  {
    hide IsName, IsValue, RawText, Join;
    var entries := [];
    for k := 0 to |params|
      invariant forall i :: 0 <= i < k ==> GoodEntry(params[i])
      invariant entries == EntryTexts(params)[..k]
    {
      var (name, raw) := params[k];
      if !IsName(name) {
        assert !GoodEntry(params[k]);
        return None;
      }
      var value := RawText(raw);
      if !IsValue(value) {
        assert !GoodEntry(params[k]);
        return None;
      }
      entries := entries + [name + "=" + value];
    }
    assert entries == EntryTexts(params);
    r := Some(Join(entries, ','));
  }

  /** serialize. */
  method Serialize(x: PhcInput) returns (r: Option<string>)
    ensures r == if Accepts(x) then Some(PhcText(x)) else None
  {
    hide IsName, GoodEntry, Text, ToB64, Join, EntryTexts, VersionText, IsNatural, Optional, PartFields;
    ghost var g := PartsOf(x);
    if !IsName(x.id) {
      return None;
    }
    var fields := ["", x.id];
    if x.version.Some? {
      if !IsNatural(x.version.value) {
        return None;
      }
      fields := Push(fields, "v=" + VersionText(x.version.value));
    }
    assert fields == Pushed(["", x.id], VersionField(g));
    ghost var f1 := fields;
    if x.params.Some? {
      var joined := SerializeParams(x.params.value);
      if joined.None? {
        return None;
      }
      fields := Push(fields, joined.value);
    }
    assert fields == Pushed(f1, ParamsField(g));
    ghost var f2 := fields;
    hide VersionField, ParamsField;
    if x.salt.Some? {
      ToB64IsText(x.salt.value);
      fields := Push(fields, ToB64(x.salt.value));
    }
    assert fields == Pushed(f2, g.salt);
    ghost var f3 := fields;
    if x.hash.Some? {
      if x.salt.None? {
        return None;
      }
      ToB64IsText(x.hash.value);
      fields := Push(fields, ToB64(x.hash.value));
    }
    assert fields == Pushed(f3, g.hash);
    AllPushed(g);
    r := Some(Join(fields, '$'));
  }

  /** Array.push. */
  function Push(fields: seq<string>, f: string): seq<string> { fields + [f] }

  function Pushed(fields: seq<string>, f: Option<string>): seq<string> {
    if f.Some? then Push(fields, f.value) else fields
  }

  lemma AllPushed(g: Parts)
    ensures Pushed(Pushed(Pushed(Pushed(["", g.id], VersionField(g)), ParamsField(g)), g.salt), g.hash)
         == [""] + PartFields(g)
  {
    hide VersionField, ParamsField, Optional;
    var v, p := VersionField(g), ParamsField(g);
    var f0 := [""] + [g.id];
    assert f0 == ["", g.id];
    PushedIs(f0, v);
    PushedIs(f0 + Optional(v), p);
    PushedIs(f0 + Optional(v) + Optional(p), g.salt);
    PushedIs(f0 + Optional(v) + Optional(p) + Optional(g.salt), g.hash);
    hide Pushed;
    Regroup([""], [g.id], Optional(v), Optional(p), Optional(g.salt), Optional(g.hash));
  }

  lemma PushedIs(fields: seq<string>, f: Option<string>)
    ensures Pushed(fields, f) == fields + Optional(f)
  {
  }

  lemma Regroup(a: seq<string>, b: seq<string>, c: seq<string>, d: seq<string>, e: seq<string>, f: seq<string>)
    ensures a + b + c + d + e + f == a + (b + (c + (d + (e + f))))
  {
    Associative(a + b + c + d, e, f);
    Associative(a + b + c, d, e + f);
    Associative(a + b, c, d + (e + f));
    Associative(a, b, c + (d + (e + f)));
  }

  lemma Associative<T>(a: seq<T>, b: seq<T>, c: seq<T>)
    ensures (a + b) + c == a + (b + c)
  {
  }

  // ------------------------------------------------------------------ deserialize

  /** One "name=value" pair. */
  function ReadPair(pair: string): Option<(string, Parsed)> {
    var parts := Split(pair, '=');
    if |parts| < 2 then None
    else
      var value := Join(parts[1..], '=');
      if !IsName(parts[0]) || !IsValue(value) then None else Some((parts[0], ReadValue(value)))
  }

  /** `name in params`: the empty object already has a "constructor". */
  predicate InObject(name: string, params: map<string, Parsed>) { name in params || name == "constructor" }

  function ReadParams(pairs: seq<string>): Option<map<string, Parsed>> {
    if pairs == [] then Some(map[])
    else
      var before, pair := ReadParams(pairs[..|pairs| - 1]), ReadPair(pairs[|pairs| - 1]);
      if before.None? || pair.None? || InObject(pair.value.0, before.value) then None
      else Some(before.value[pair.value.0 := pair.value.1])
  }

  function ReadVersion(digits: string): Version {
    if AllDigits(digits) && IsSafe(Decimals.Number(digits)) then Exact(Decimals.Number(digits)) else Rounded(digits)
  }

  /** How many of the last fields are salt and hash. */
  function Binaries(fields: seq<string>): (k: nat)
    ensures k <= |fields|
  {
    var n := |fields|;
    if n > 0 && IsB64(fields[n - 1]) then (if n > 1 && IsB64(fields[n - 2]) then 2 else 1) else 0
  }

  /** What is left after id and version: params, then salt and hash, which are recognised from the end. */
  function ReadRest(decode: Decoder, id: string, version: Option<Version>, fields: seq<string>): Option<PhcObject> {
    var k := Binaries(fields);
    var left := fields[..|fields| - k];
    var salt := if k > 0 then Some(decode(fields[|fields| - k])) else None;
    var hash := if k > 1 then Some(decode(fields[|fields| - 1])) else None;
    if left == [] then Some(PhcObject(id, version, None, salt, hash))
    else
      var params := ReadParams(Split(left[|left| - 1], ','));
      if params.None? || |left| > 1 then None else Some(PhcObject(id, version, params, salt, hash))
  }

  /** What deserialize returns for the fields after the first '$'. */
  function ReadFields(decode: Decoder, fields: seq<string>): Option<PhcObject>
    requires |fields| >= 1
  {
    var versioned := |fields| > 1 && IsVersion(fields[1]);
    if |fields| > (if versioned then 5 else 4) || !IsName(fields[0]) then None
    else if versioned then ReadRest(decode, fields[0], Some(ReadVersion(fields[1][2..])), fields[2..])
    else ReadRest(decode, fields[0], None, fields[1..])
  }

  function Read(decode: Decoder, s: string): Option<PhcObject> {
    if s == "" || s[0] != '$' then None
    else
      SplitDollar(s);
      ReadFields(decode, Split(s, '$')[1..])
  }

  lemma SplitDollar(s: string)
    requires s != "" && s[0] == '$'
    ensures Split(s, '$') == [""] + Split(s[1..], '$')
  {
  }

  /** deserialize. */
  method Deserialize(decode: Decoder, phcstr: string) returns (r: Option<PhcObject>)
    ensures r == Read(decode, phcstr)
  {
    hide Split, Join, IsB64, IsValue, IsVersion, IsName, ReadParams;
    if phcstr == "" {
      return None;
    }
    if phcstr[0] != '$' {
      return None;
    }
    SplitDollar(phcstr);
    var fields := Split(phcstr, '$');
    fields := fields[1..];
    var maxf := if |fields| > 1 && IsVersion(fields[1]) then 5 else 4;
    if |fields| > maxf {
      return None;
    }
    var id := fields[0];
    fields := fields[1..];
    if !IsName(id) {
      return None;
    }
    var version: Option<Version> := None;
    if fields != [] && IsVersion(fields[0]) {
      VersionDigits(fields[0]);
      version := Some(ReadVersion(fields[0][2..]));
      fields := fields[1..];
    }
    r := DeserializeRest(decode, id, version, fields);
  }

  lemma VersionDigits(s: string)
    requires IsVersion(s)
    ensures |s| > 2 && s == "v=" + s[2..] && AllDigits(s[2..])
  {
  }

  /** The second half of deserialize: fields are popped from the end. */
  method DeserializeRest(decode: Decoder, id: string, version: Option<Version>, all: seq<string>)
    returns (r: Option<PhcObject>)
    ensures r == ReadRest(decode, id, version, all)
  {
    hide Split, Join, IsB64, ReadParams;
    var fields := all;
    var salt: Option<seq<byte>>, hash: Option<seq<byte>> := None, None;
    if |fields| > 0 && IsB64(fields[|fields| - 1]) {
      if |fields| > 1 && IsB64(fields[|fields| - 2]) {
        hash := Some(decode(fields[|fields| - 1]));
        fields := fields[..|fields| - 1];
      }
      salt := Some(decode(fields[|fields| - 1]));
      fields := fields[..|fields| - 1];
    }
    assert fields == all[..|all| - Binaries(all)];
    var params: Option<map<string, Parsed>> := None;
    if |fields| > 0 {
      var pairs := Split(fields[|fields| - 1], ',');
      fields := fields[..|fields| - 1];
      params := DeserializeParams(pairs);
      if params.None? {
        return None;
      }
    }
    if |fields| > 0 {
      return None;
    }
    r := Some(PhcObject(id, version, params, salt, hash));
  }

  /** The loop over the pairs. */
  method DeserializeParams(pairs: seq<string>) returns (params: Option<map<string, Parsed>>)
    ensures params == ReadParams(pairs)
  {
    hide Split, Join, IsValue, IsName, ReadValue;
    var found: map<string, Parsed> := map[];
    for k := 0 to |pairs|
      invariant ReadParams(pairs[..k]) == Some(found)
    {
      PairsNext(pairs, k);
      var parts := Split(pairs[k], '=');
      if |parts| < 2 {
        return None;
      }
      var name := parts[0];
      var value := Join(parts[1..], '=');
      if !IsName(name) {
        return None;
      }
      if !IsValue(value) {
        return None;
      }
      if InObject(name, found) {
        return None;
      }
      found := found[name := ReadValue(value)];
    }
    assert pairs[..|pairs|] == pairs;
    params := Some(found);
  }

  lemma PairsNext(pairs: seq<string>, k: nat)
    requires k < |pairs|
    ensures pairs[..k + 1] != [] && pairs[..k + 1][..k] == pairs[..k] && pairs[..k + 1][k] == pairs[k]
    ensures ReadParams(pairs[..k + 1]).None? ==> ReadParams(pairs).None?
  {
    hide ReadParams;
    if ReadParams(pairs[..k + 1]).None? {
      PairsFailure(pairs, k + 1);
    }
  }

  /** A pair that is rejected stops everything. */
  lemma {:induction false} PairsFailure(pairs: seq<string>, k: nat)
    requires k <= |pairs| && ReadParams(pairs[..k]).None?
    ensures ReadParams(pairs).None?
  {
    if k < |pairs| {
      assert pairs[..|pairs| - 1][..k] == pairs[..k];
      PairsFailure(pairs[..|pairs| - 1], k);
    } else {
      assert pairs[..k] == pairs;
    }
  }

  // ------------------------------------------------------------------ what is written is read back

  /** What deserialize makes of params that were written in this order. */
  function MapOf(entries: seq<(string, Raw)>): map<string, Parsed> {
    if entries == [] then map[]
    else
      var last := entries[|entries| - 1];
      MapOf(entries[..|entries| - 1])[last.0 := ReadValue(RawText(last.1))]
  }

  /** The names of an object are different. */
  ghost predicate Distinct(entries: seq<(string, Raw)>) {
    forall i, j :: 0 <= i < j < |entries| ==> entries[i].0 != entries[j].0
  }

  ghost predicate HasName(entries: seq<(string, Raw)>, name: string) {
    exists i :: 0 <= i < |entries| && entries[i].0 == name
  }

  lemma {:induction false} NamesOfMap(entries: seq<(string, Raw)>, name: string)
    ensures name in MapOf(entries) <==> HasName(entries, name)
  {
    if entries != [] {
      var front, last := entries[..|entries| - 1], entries[|entries| - 1];
      NamesOfMap(front, name);
      assert entries == front + [last];
      if HasName(front, name) {
        var i :| 0 <= i < |front| && front[i].0 == name;
        assert entries[i].0 == name;
      }
      if HasName(entries, name) && last.0 != name {
        var i :| 0 <= i < |entries| && entries[i].0 == name;
        assert front[i].0 == name;
      }
    }
  }

  lemma B64Without(s: string)
    requires IsB64(s)
    ensures Without(s, '=') && Without(s, ',') && Without(s, '$')
  {
  }

  lemma NameWithout(s: string)
    requires IsName(s)
    ensures Without(s, '=') && Without(s, ',') && Without(s, '$')
  {
  }

  lemma PairOfEntry(e: (string, Raw))
    requires GoodEntry(e)
    ensures ReadPair(EntryText(e)) == Some((e.0, ReadValue(RawText(e.1))))
    ensures Without(EntryText(e), ',') && Without(EntryText(e), '$')
  {
    var value := RawText(e.1);
    NameWithout(e.0);
    B64Without(value);
    hide Split, RawText, IsName, IsB64, ReadValue;
    SplitFirst(e.0, value, '=');
    SplitFirst(value, "", '=');
    var parts := [e.0] + [value];
    assert parts[1..] == [value];
  }

  /** The pairs that were written are read, unless one has the name that every object has already. */
  lemma {:induction false} ParamsOfEntries(entries: seq<(string, Raw)>)
    requires Distinct(entries) && forall i :: 0 <= i < |entries| ==> GoodEntry(entries[i])
    ensures ReadParams(EntryTexts(entries)) == if HasName(entries, "constructor") then None else Some(MapOf(entries))
  {
    hide ReadPair, GoodEntry, EntryText, EntryTexts, ReadParams, MapOf, HasName;
    if entries == [] {
      NoEntries();
    } else {
      var front, last := entries[..|entries| - 1], entries[|entries| - 1];
      assert forall i :: 0 <= i < |front| ==> front[i] == entries[i];
      ParamsOfEntries(front);
      PairOfEntry(last);
      NamesOfMap(front, last.0);
      LastIsNew(entries);
      LastIsRead(entries);
    }
  }

  lemma NoEntries()
    ensures ReadParams(EntryTexts([])) == Some(map[]) && MapOf([]) == map[] && !HasName([], "constructor")
  {
  }

  lemma LastIsRead(entries: seq<(string, Raw)>)
    requires entries != []
    ensures var front, last := entries[..|entries| - 1], entries[|entries| - 1];
      var before, pair := ReadParams(EntryTexts(front)), ReadPair(EntryText(last));
      && ReadParams(EntryTexts(entries))
         == (if before.None? || pair.None? || InObject(pair.value.0, before.value) then None
             else Some(before.value[pair.value.0 := pair.value.1]))
      && MapOf(entries) == MapOf(front)[last.0 := ReadValue(RawText(last.1))]
  {
    hide ReadPair, EntryText, ReadValue, RawText;
    assert EntryTexts(entries)[..|entries| - 1] == EntryTexts(entries[..|entries| - 1]);
  }

  lemma LastIsNew(entries: seq<(string, Raw)>)
    requires entries != [] && Distinct(entries)
    ensures !HasName(entries[..|entries| - 1], entries[|entries| - 1].0)
    ensures HasName(entries, "constructor") <==>
            HasName(entries[..|entries| - 1], "constructor") || entries[|entries| - 1].0 == "constructor"
  {
    var front, last := entries[..|entries| - 1], entries[|entries| - 1];
    assert forall i :: 0 <= i < |front| ==> front[i] == entries[i];
  }

  lemma {:induction false} JoinWithout(fields: seq<string>, c: char, d: char)
    requires c != d && forall i :: 0 <= i < |fields| ==> Without(fields[i], d)
    ensures Without(Join(fields, c), d)
  {
    if |fields| > 1 {
      assert forall i :: 0 <= i < |fields[1..]| ==> fields[1..][i] == fields[i + 1];
      JoinWithout(fields[1..], c, d);
      assert Join(fields, c) == fields[0] + [c] + Join(fields[1..], c);
    }
  }

  /** A single parameter that looks like a version: v=<digits>. */
  predicate LoneVersion(entries: seq<(string, Raw)>) {
    |entries| == 1 && entries[0].0 == "v" && AllDigits(RawText(entries[0].1))
  }

  lemma JoinOfFirst(fields: seq<string>, c: char)
    requires fields != []
    ensures Join(fields, c) == if |fields| == 1 then fields[0] else fields[0] + [c] + Join(fields[1..], c)
  {
  }

  /** The field of the params is no base64, has no '$', and can only be taken for a version when it is
      a single one. */
  lemma ParamsFieldShape(entries: seq<(string, Raw)>)
    requires entries != [] && forall i :: 0 <= i < |entries| ==> GoodEntry(entries[i])
    ensures var t := Join(EntryTexts(entries), ',');
            Without(t, '$') && !IsB64(t) && (IsVersion(t) <==> LoneVersion(entries))
  {
    var texts := EntryTexts(entries);
    forall i | 0 <= i < |texts| ensures Without(texts[i], '$') { PairOfEntry(entries[i]); }
    JoinWithout(texts, ',', '$');
    JoinOfFirst(texts, ',');
    hide Join;
    var name, value := entries[0].0, RawText(entries[0].1);
    NameWithout(name);
    FirstEquals(name, value, if |texts| == 1 then "" else "," + Join(texts[1..], ','), Join(texts, ','));
  }

  lemma FirstEquals(name: string, value: string, more: string, t: string)
    requires IsName(name) && Without(name, '=') && value != "" && t == name + "=" + value + more
    requires more == "" || more[0] == ','
    ensures !IsB64(t)
    ensures IsVersion(t) <==> name == "v" && AllDigits(value) && more == ""
  {
    assert t[|name|] == '=';
    if |name| == 1 {
      assert t[2..] == value + more && t[..2] == name + "=" && name == [t[..2][0]];
      if more == "" {
        assert value + more == value;
      } else {
        assert t[2..][|value|] == ',';
      }
    } else {
      assert t[..2][1] == name[1];
    }
  }

  lemma NoEqualsNoVersion(t: string)
    requires Without(t, '=')
    ensures !IsVersion(t)
  {
    assert |t| > 2 ==> t[..2][1] == t[1];
  }

  lemma VersionFieldShape(digits: string)
    requires digits != "" && AllDigits(digits)
    ensures var t := "v=" + digits;
            Without(t, '$') && IsVersion(t) && t[2..] == digits
  {
  }

  lemma B64Shape(t: string)
    requires IsB64(t)
    ensures Without(t, '$') && !IsVersion(t)
  {
    B64Without(t);
    NoEqualsNoVersion(t);
  }

  /** Texts that make up a PHC string. */
  ghost predicate Good(g: Parts) {
    && IsName(g.id)
    && (g.version.Some? ==> g.version.value != "" && AllDigits(g.version.value))
    && (g.params.Some? ==>
          Distinct(g.params.value) && forall i :: 0 <= i < |g.params.value| ==> GoodEntry(g.params.value[i]))
    && (g.salt.Some? ==> IsB64(g.salt.value))
    && (g.hash.Some? ==> g.salt.Some? && IsB64(g.hash.value))
  }

  /** Parts whose text can be split into the fields again. */
  ghost predicate Splittable(g: Parts) {
    && IsName(g.id)
    && (g.version.Some? ==> IsB64(g.version.value))
    && (g.params.Some? ==> forall i :: 0 <= i < |g.params.value| ==> GoodEntry(g.params.value[i]))
    && (g.salt.Some? ==> IsB64(g.salt.value)) && (g.hash.Some? ==> IsB64(g.hash.value))
  }

  lemma GoodIsSplittable(g: Parts)
    requires Good(g)
    ensures Splittable(g)
  {
    hide IsName, GoodEntry, Distinct;
    assert g.version.Some? ==> forall i :: 0 <= i < |g.version.value| ==> IsDigit(g.version.value[i]);
  }

  ghost predicate NoDollars(fields: seq<string>) { forall i :: 0 <= i < |fields| ==> Without(fields[i], '$') }

  lemma NoDollarInParams(g: Parts)
    requires Splittable(g)
    ensures NoDollars(Optional(ParamsField(g)))
  {
    if g.params.Some? && g.params.value != [] {
      ParamsFieldShape(g.params.value);
    }
    hide IsB64, IsVersion, GoodEntry, EntryTexts;
  }

  lemma NoDollarInB64(t: Option<string>)
    requires t.Some? ==> IsB64(t.value)
    ensures NoDollars(Optional(t))
  {
    if t.Some? {
      B64Shape(t.value);
    }
  }

  lemma NoDollarInHead(g: Parts)
    requires Splittable(g)
    ensures NoDollars([""] + [g.id]) && NoDollars(Optional(VersionField(g)))
  {
    NameWithout(g.id);
    if g.version.Some? {
      B64Without(g.version.value);
    }
    hide IsName, IsB64, GoodEntry;
  }

  /** Splitting the text gives the fields it was joined from. */
  lemma SplitOfText(g: Parts)
    requires Splittable(g)
    ensures PartsText(g) != "" && PartsText(g)[0] == '$' && Split(PartsText(g), '$')[1..] == PartFields(g)
  {
    NoDollarInHead(g);
    NoDollarInParams(g);
    NoDollarInB64(g.salt);
    NoDollarInB64(g.hash);
    hide Without, VersionField, ParamsField, Optional, Split, Splittable;
    assert NoDollars(SecondHalf(g));
    hide SecondHalf;
    var fields := [""] + PartFields(g);
    assert fields == ([""] + [g.id]) + (Optional(VersionField(g)) + SecondHalf(g));
    assert NoDollars(fields);
    SplitOfJoin(fields, '$');
    JoinOfFirst(fields, '$');
    hide Join;
  }

  /** The object that deserialize makes of the parts of an input. */
  function Returned(x: PhcInput): PhcObject {
    PhcObject(x.id, if x.version.Some? then Some(ReadVersion(VersionText(x.version.value))) else None,
              if x.params.Some? then Some(MapOf(x.params.value)) else None, x.salt, x.hash)
  }

  /** The object that the parts say. */
  function PartsObject(decode: Decoder, g: Parts): PhcObject {
    PhcObject(g.id, if g.version.Some? then Some(ReadVersion(g.version.value)) else None,
              if g.params.Some? then Some(MapOf(g.params.value)) else None,
              if g.salt.Some? then Some(decode(g.salt.value)) else None,
              if g.hash.Some? then Some(decode(g.hash.value)) else None)
  }

  /** The params whose text says what they are. */
  ghost predicate Clear(versioned: bool, params: Option<seq<(string, Raw)>>) {
    params.Some? ==>
      && params.value != []
      && !HasName(params.value, "constructor")
      && !(!versioned && LoneVersion(params.value))
  }

  ghost predicate Unambiguous(x: PhcInput) { Clear(x.version.Some?, x.params) }

  /** The input is an object: its names are different. */
  ghost predicate IsObject(x: PhcInput) { x.params.Some? ==> Distinct(x.params.value) }

  /** Salt and hash are found at the end, because params always have a '='. */
  lemma BinariesFound(g: Parts)
    requires Good(g) && (g.params.Some? ==> g.params.value != [])
    ensures var k := Binaries(SecondHalf(g)); var n := |SecondHalf(g)|;
      && k == (if g.hash.Some? then 2 else if g.salt.Some? then 1 else 0)
      && SecondHalf(g)[..n - k] == Optional(ParamsField(g))
      && (g.salt.Some? ==> SecondHalf(g)[n - k] == g.salt.value)
      && (g.hash.Some? ==> SecondHalf(g)[n - 1] == g.hash.value)
  {
    if g.params.Some? {
      ParamsFieldShape(g.params.value);
    }
    hide IsName, GoodEntry, IsB64, IsVersion, Without, Distinct, Binaries, EntryTexts, Join;
    BinariesAfter(Optional(ParamsField(g)), g.salt, g.hash);
  }

  lemma BinariesAfter(left: seq<string>, salt: Option<string>, hash: Option<string>)
    requires |left| <= 1 && (left != [] ==> !IsB64(left[0]))
    requires (salt.Some? ==> IsB64(salt.value)) && (hash.Some? ==> salt.Some? && IsB64(hash.value))
    ensures var f := left + (Optional(salt) + Optional(hash)); var k := Binaries(f); var n := |f|;
      && k == (if hash.Some? then 2 else if salt.Some? then 1 else 0)
      && f[..n - k] == left
      && (salt.Some? ==> f[n - k] == salt.value)
      && (hash.Some? ==> f[n - 1] == hash.value)
  {
    hide IsB64;
    if hash.Some? {
      var f := left + [salt.value, hash.value];
      assert Optional(salt) + Optional(hash) == [salt.value, hash.value];
      assert f[|f| - 1] == hash.value && f[|f| - 2] == salt.value && f[..|f| - 2] == left;
    } else if salt.Some? {
      var f := left + [salt.value];
      assert Optional(salt) + Optional(hash) == [salt.value];
      assert f[|f| - 1] == salt.value && f[..|f| - 1] == left && (|f| > 1 ==> f[|f| - 2] == left[0]);
    } else {
      assert Optional(salt) + Optional(hash) == [] && left + [] == left && left[..|left|] == left;
    }
  }

  lemma ParamsBack(entries: seq<(string, Raw)>)
    requires entries != [] && Distinct(entries) && forall i :: 0 <= i < |entries| ==> GoodEntry(entries[i])
    ensures ReadParams(Split(Join(EntryTexts(entries), ','), ','))
         == if HasName(entries, "constructor") then None else Some(MapOf(entries))
  {
    ParamsOfEntries(entries);
    forall i | 0 <= i < |entries| ensures Without(EntryTexts(entries)[i], ',') { PairOfEntry(entries[i]); }
    hide GoodEntry, ReadParams, MapOf, HasName, Join, Split, EntryText;
    SplitOfJoin(EntryTexts(entries), ',');
  }

  lemma RestOfText(decode: Decoder, id: string, version: Option<Version>, g: Parts)
    requires Good(g) && (g.params.Some? ==> g.params.value != [])
    ensures ReadRest(decode, id, version, SecondHalf(g))
         == if g.params.Some? && HasName(g.params.value, "constructor") then None
            else Some(PartsObject(decode, g).(id := id, version := version))
  {
    BinariesFound(g);
    if g.params.Some? {
      ParamsBack(g.params.value);
    }
    hide IsName, GoodEntry, Binaries, SecondHalf, Join, Split, EntryTexts, ReadParams, MapOf, HasName, Distinct,
         Without, IsB64, ReadVersion;
  }

  lemma ReadParamsNotEmpty(pairs: seq<string>)
    requires pairs != []
    ensures ReadParams(pairs) != Some(map[])
  {
    var before, pair := ReadParams(pairs[..|pairs| - 1]), ReadPair(pairs[|pairs| - 1]);
    hide ReadPair, Split;
    if ReadParams(pairs).Some? {
      assert pair.value.0 in ReadParams(pairs).value;
    }
  }

  /** deserialize never returns empty params. */
  lemma ParamsNotEmpty(decode: Decoder, id: string, version: Option<Version>, fields: seq<string>)
    ensures ReadRest(decode, id, version, fields).Some? ==>
      && ReadRest(decode, id, version, fields).value.params != Some(map[])
      && ReadRest(decode, id, version, fields).value.version == version
  {
    var left := fields[..|fields| - Binaries(fields)];
    if left != [] {
      ReadParamsNotEmpty(Split(left[|left| - 1], ','));
    }
    hide Binaries, Split, IsB64, ReadPair, ReadParams;
  }

  /** Where the version and the rest are among the fields. */
  lemma FieldsOfParts(g: Parts)
    ensures var f := PartFields(g);
      && f[0] == g.id && 1 <= |f| <= (if g.version.Some? then 5 else 4)
      && (g.version.Some? ==> |f| > 1 && f[1] == "v=" + g.version.value && f[2..] == SecondHalf(g))
      && (g.version.None? ==> f[1..] == SecondHalf(g))
  {
    hide Join, EntryTexts;
  }

  /** Without a version the next field is taken for one in one case. */
  lemma TakenForVersion(g: Parts)
    requires Good(g)
    ensures var f := SecondHalf(g);
      |f| > 0 && IsVersion(f[0]) <==> g.params.Some? && LoneVersion(g.params.value)
  {
    if g.params.Some? && g.params.value != [] {
      ParamsFieldShape(g.params.value);
    }
    if g.salt.Some? {
      B64Shape(g.salt.value);
    }
    hide IsName, GoodEntry, RawText, IsB64, Distinct;
  }

  /** The fields of the parts are read as these parts if they are clear, and otherwise as something else,
      which may be a version that was params, or params where there were none. */
  lemma ReadOfFields(decode: Decoder, g: Parts)
    requires Good(g)
    ensures var r := ReadFields(decode, PartFields(g));
      if Clear(g.version.Some?, g.params) then r == Some(PartsObject(decode, g))
      else r.Some? ==>
        || (g.version.None? && r.value.version.Some?)
        || (g.params == Some([]) && r.value.params != Some(map[]))
  {
    hide ReadFields, PartFields, PartsObject;
    if g.version.Some? {
      ReadVersioned(decode, g);
    } else {
      ReadUnversioned(decode, g);
    }
    if g.params != Some([]) {
      RestOfText(decode, g.id, if g.version.Some? then Some(ReadVersion(g.version.value)) else None, g);
      ObjectParts(decode, g);
    }
    hide ReadRest, SecondHalf, LoneVersion, Good, HasName, ReadVersion;
  }

  lemma EmptyParams(decode: Decoder, g: Parts)
    requires Good(g) && g.params == Some([])
    ensures PartsObject(decode, g).params == Some(map[])
  {
    hide Good;
  }

  lemma ObjectParts(decode: Decoder, g: Parts)
    requires Good(g)
    ensures var version := if g.version.Some? then Some(ReadVersion(g.version.value)) else None;
            PartsObject(decode, g).(id := g.id, version := version) == PartsObject(decode, g)
  {
    hide MapOf, ReadVersion;
  }

  /** With a version the second field is that version. */
  lemma ReadVersioned(decode: Decoder, g: Parts)
    requires Good(g) && g.version.Some?
    ensures var r := ReadRest(decode, g.id, Some(ReadVersion(g.version.value)), SecondHalf(g));
      && ReadFields(decode, PartFields(g)) == r
      && (r.Some? ==> r.value.params != Some(map[]))
  {
    FieldsOfParts(g);
    VersionFieldShape(g.version.value);
    ParamsNotEmpty(decode, g.id, Some(ReadVersion(g.version.value)), SecondHalf(g));
    hide ReadRest, PartFields, SecondHalf, IsVersion, ReadVersion, IsName, GoodEntry, Without, IsB64, Distinct;
  }

  /** Without one it may be taken for a version. */
  lemma ReadUnversioned(decode: Decoder, g: Parts)
    requires Good(g) && g.version.None?
    ensures var r := ReadFields(decode, PartFields(g));
      && (if g.params.Some? && LoneVersion(g.params.value) then r.Some? ==> r.value.version.Some?
          else r == ReadRest(decode, g.id, None, SecondHalf(g)) && (r.Some? ==> r.value.params != Some(map[])))
  {
    FieldsOfParts(g);
    TakenForVersion(g);
    assert IsName(g.id);
    hide PartFields, SecondHalf, LoneVersion, Good, IsVersion, IsName;
    if g.params.Some? && LoneVersion(g.params.value) {
      ReadAsVersion(decode, PartFields(g));
    } else {
      ReadWithout(decode, PartFields(g), SecondHalf(g));
    }
  }

  lemma ReadAsVersion(decode: Decoder, f: seq<string>)
    requires |f| > 1 && IsVersion(f[1])
    ensures ReadFields(decode, f).Some? ==> ReadFields(decode, f).value.version.Some?
  {
    VersionDigits(f[1]);
    ParamsNotEmpty(decode, f[0], Some(ReadVersion(f[1][2..])), f[2..]);
    hide ReadRest, ReadVersion, IsVersion, IsName;
  }

  lemma ReadWithout(decode: Decoder, f: seq<string>, g: seq<string>)
    requires 1 <= |f| <= 4 && g == f[1..] && !(|g| > 0 && IsVersion(g[0])) && IsName(f[0])
    ensures ReadFields(decode, f) == ReadRest(decode, f[0], None, g)
    ensures ReadFields(decode, f).Some? ==> ReadFields(decode, f).value.params != Some(map[])
  {
    ParamsNotEmpty(decode, f[0], None, g);
    hide ReadRest, IsVersion, IsName;
  }

  /** The text of some parts is read as these parts if and only if the params are absent or not empty, none
      is called "constructor", and without a version they are not a single v=<digits>. */
  lemma PartsReadBack(decode: Decoder, g: Parts)
    requires Good(g)
    ensures Read(decode, PartsText(g)) == Some(PartsObject(decode, g)) <==> Clear(g.version.Some?, g.params)
  {
    ReadOfText(decode, g);
    if g.params == Some([]) {
      EmptyParams(decode, g);
    }
    hide Read, PartsText, Good, Clear, MapOf, ReadVersion;
  }

  lemma ReadOfText(decode: Decoder, g: Parts)
    requires Good(g)
    ensures var r := Read(decode, PartsText(g));
      if Clear(g.version.Some?, g.params) then r == Some(PartsObject(decode, g))
      else r.Some? ==>
        || (g.version.None? && r.value.version.Some?)
        || (g.params == Some([]) && r.value.params != Some(map[]))
  {
    GoodIsSplittable(g);
    SplitOfText(g);
    hide Split, PartsText, Good, PartsObject;
    ReadOfFields(decode, g);
    hide Clear;
  }

  lemma IntVersion(n: nat)
    requires n <= MAX_SAFE
    ensures var t := IntText(n); t != "" && AllDigits(t) && ReadVersion(t) == Exact(n)
  {
    DigitsAreMinimal(n);
  }

  /** The version prints as digits. */
  predicate DigitVersion(x: PhcInput) { x.version.Some? ==> AllDigits(VersionText(x.version.value)) }

  lemma PartsOfInput(decode: Decoder, x: PhcInput)
    requires Lawful(decode) && Accepts(x) && IsObject(x)
    ensures PartsObject(decode, PartsOf(x)) == Returned(x) && Splittable(PartsOf(x))
    ensures DigitVersion(x) ==> Good(PartsOf(x))
  {
    if x.version.Some? {
      VersionIsB64(x.version.value);
    }
    if x.salt.Some? {
      TextIsB64(x.salt.value);
    }
    if x.hash.Some? {
      TextIsB64(x.hash.value);
    }
    hide Text, VersionText, IsB64, IsName, GoodEntry, MapOf, Distinct, ReadVersion;
  }

  lemma VersionIsB64(v: GivenVersion)
    requires IsNatural(v)
    ensures VersionText(v) != "" && IsB64(VersionText(v))
  {
    if v.Int? {
      IntVersion(v.n);
    }
  }

  /** A version that does not print as digits is not read as a version. */
  lemma OddVersion(decode: Decoder, x: PhcInput)
    requires Lawful(decode) && Accepts(x) && IsObject(x) && !DigitVersion(x)
    ensures Read(decode, PhcText(x)).Some? ==> Read(decode, PhcText(x)).value.version.None?
  {
    var g := PartsOf(x);
    PartsOfInput(decode, x);
    SplitOfText(g);
    FieldsOfParts(g);
    var f := PartFields(g);
    assert f[1][2..] == g.version.value;
    ParamsNotEmpty(decode, f[0], None, f[1..]);
    hide Split, PartsText, PartFields, ReadRest, SecondHalf, Splittable, Accepts, VersionText;
  }

  /** The parts of an input are read again if and only if it is unambiguous, whatever its values are taken
      for. */
  lemma PartsComeBack(decode: Decoder, x: PhcInput)
    requires Lawful(decode) && Accepts(x) && IsObject(x) && DigitVersion(x)
    ensures Read(decode, PhcText(x)) == Some(Returned(x)) <==> Unambiguous(x)
  {
    PartsOfInput(decode, x);
    PartsReadBack(decode, PartsOf(x));
    hide Read, PartsText, Returned, Clear, Accepts, Splittable, Good;
  }

  // ------------------------------------------------------------------ what comes back as it was given

  /** The object that says what the input says, value by value as it was given. */
  function Given(x: PhcInput): PhcObject {
    PhcObject(x.id, if x.version.Some? then Some(VersionAsGiven(x.version.value)) else None,
              if x.params.Some? then Some(GivenMap(x.params.value)) else None, x.salt, x.hash)
  }

  /** A number other than a safe integer is the double that its digits are rounded to, if it prints as
      digits. */
  function VersionAsGiven(v: GivenVersion): Version { if v.Int? then Exact(v.n) else Rounded(v.text) }

  function GivenMap(entries: seq<(string, Raw)>): map<string, Parsed> {
    if entries == [] then map[]
    else
      var last := entries[|entries| - 1];
      GivenMap(entries[..|entries| - 1])[last.0 := AsGiven(last.1)]
  }

  /** Versions that come back: those that print as digits, unless they are taken for a safe integer that
      they are not, as -0 is. */
  predicate VersionKept(v: GivenVersion) {
    v.Int? || (AllDigits(v.text) && !IsSafe(Decimals.Number(v.text)))
  }

  lemma VersionComesBack(v: GivenVersion)
    requires IsNatural(v) && AllDigits(VersionText(v))
    ensures ReadVersion(VersionText(v)) == VersionAsGiven(v) <==> VersionKept(v)
  {
    if v.Int? {
      IntVersion(v.n);
    }
  }

  lemma {:induction false} SameNames(entries: seq<(string, Raw)>)
    ensures GivenMap(entries).Keys == MapOf(entries).Keys
  {
    hide AsGiven, ReadValue, RawText;
    if entries != [] {
      SameNames(entries[..|entries| - 1]);
    }
  }

  /** The params come back as they were given if and only if each of them does. */
  lemma {:induction false} ParamsComeBack(entries: seq<(string, Raw)>)
    requires Distinct(entries)
    ensures MapOf(entries) == GivenMap(entries) <==> forall i :: 0 <= i < |entries| ==> Verbatim(entries[i].1)
  {
    if entries != [] {
      var front, last := entries[..|entries| - 1], entries[|entries| - 1];
      ParamsComeBack(front);
      ValueComesBack(last.1);
      LastIsNew(entries);
      NamesOfMap(front, last.0);
      SameNames(front);
      hide AsGiven, ReadValue, RawText, Verbatim, HasName;
      MapsWithOneMore(MapOf(front), GivenMap(front), last.0, ReadValue(RawText(last.1)), AsGiven(last.1));
      assert forall i :: 0 <= i < |front| ==> entries[i] == front[i];
    }
  }

  lemma MapsWithOneMore(a: map<string, Parsed>, b: map<string, Parsed>, name: string, v: Parsed, w: Parsed)
    requires name !in a && name !in b
    ensures a[name := v] == b[name := w] <==> a == b && v == w
  {
    if a[name := v] == b[name := w] {
      assert a == a[name := v] - {name} && b == b[name := w] - {name};
      assert a[name := v][name] == b[name := w][name];
    }
  }

  /** deserialize gives back what was serialized, a Buffer among the params as its base64 text, if and only if
      the input is unambiguous and each of its values is one that comes back: a version that prints as digits
      and is not -0, no number among the params that is no safe integer, and no string and no base64 text that
      is a safe decimal. */
  lemma RoundTrip(decode: Decoder, x: PhcInput)
    requires Lawful(decode) && Accepts(x) && IsObject(x)
    ensures Read(decode, PhcText(x)) == Some(Given(x))
       <==> && Unambiguous(x)
            && (x.version.Some? ==> VersionKept(x.version.value))
            && (x.params.Some? ==> forall i :: 0 <= i < |x.params.value| ==> Verbatim(x.params.value[i].1))
  {
    hide Read, PhcText, Accepts, Lawful, Clear;
    if DigitVersion(x) {
      PartsOfInput(decode, x);
      ReadOfText(decode, PartsOf(x));
      hide Good, Splittable, PartsText, PartsOf, PartsObject;
      GivenAndReturned(x);
      hide Returned;
      InputParts(x);
    } else {
      OddVersion(decode, x);
      hide PartsOf;
      NotKept(x);
    }
  }

  lemma InputParts(x: PhcInput)
    ensures var g := PartsOf(x);
            g.params == x.params && (g.version.Some? <==> x.version.Some?) && PhcText(x) == PartsText(g)
  {
    hide PartsText;
  }

  lemma NotKept(x: PhcInput)
    requires !DigitVersion(x) && Accepts(x)
    ensures x.version.Some? && !VersionKept(x.version.value) && Given(x).version.Some?
  {
    if x.version.value.Int? {
      IntVersion(x.version.value.n);
    }
    hide GivenMap;
  }

  /** What deserialize makes of the parts is what was given, if every value is one that comes back. */
  lemma GivenAndReturned(x: PhcInput)
    requires Accepts(x) && IsObject(x) && DigitVersion(x)
    ensures Returned(x) == Given(x)
       <==> && (x.version.Some? ==> VersionKept(x.version.value))
            && (x.params.Some? ==> forall i :: 0 <= i < |x.params.value| ==> Verbatim(x.params.value[i].1))
    ensures (x.version.Some? <==> Given(x).version.Some?)
    ensures x.params == Some([]) ==> Given(x).params == Some(map[])
  {
    if x.version.Some? {
      VersionComesBack(x.version.value);
    }
    if x.params.Some? {
      ParamsComeBack(x.params.value);
    }
    if x.params == Some([]) {
      assert GivenMap([]) == map[];
    }
    hide MapOf, GivenMap, Verbatim, VersionKept, ReadVersion, VersionAsGiven, VersionText, GoodEntry, IsName;
  }

  /** The strings that are safe decimals are taken for numbers. */
  lemma StringReadAsNumber(decode: Decoder)
    requires Lawful(decode)
    ensures var x := PhcInput("x", None, Some([("a", Str("1234"))]), None, None);
      && Accepts(x) && IsObject(x) && Unambiguous(x)
      && Read(decode, PhcText(x)) == Some(PhcObject("x", None, Some(map["a" := Num(1234)]), None, None))
  {
    var e: (string, Raw) := ("a", Str("1234"));
    var x := PhcInput("x", None, Some([e]), None, None);
    assert IsName("x") && IsName("a") && IsValue("1234");
    DecimalOfInt(1234);
    Digits1234();
    assert [e][..0] == [] && MapOf([e]) == map["a" := Num(1234)];
    assert !HasName([e], "constructor");
    hide IsName, IsValue, MapOf, Digits, IsDecimal, IntOf, HasName;
    PartsOfInput(decode, x);
    PartsReadBack(decode, PartsOf(x));
    hide Read, PartsText;
  }

  lemma {:induction false} MapAt(params: seq<(string, Raw)>, i: nat)
    requires Distinct(params) && i < |params|
    ensures params[i].0 in MapOf(params) && MapOf(params)[params[i].0] == ReadValue(RawText(params[i].1))
  {
    hide ReadValue, RawText;
    var front := params[..|params| - 1];
    if i < |front| {
      assert front[i] == params[i];
      MapAt(front, i);
    }
  }

  /** Some bytes do not come back as text: those with the base64 text 1234 come back as a number, and
      verify, which only looks for a string, then leaves the associated data out. */
  lemma DataReadAsNumber()
    ensures var b: seq<byte> := [0xD7, 0x6D, 0xF8]; Text(b) == "1234" && ReadValue(RawText(Buffer(b))) == Num(1234)
  {
    hide Text, ToB64, IsDecimal, IntOf, Digits, Padded;
    var b: seq<byte> := [0xD7, 0x6D, 0xF8];
    ToB64IsText(b);
    Text1234(b);
    DecimalOfInt(1234);
    Digits1234();
  }

  lemma Text1234(b: seq<byte>)
    requires b == [0xD7, 0x6D, 0xF8]
    ensures Text(b) == "1234"
  {
    SextetAt(b, 0, 0);
    SextetAt(b, 0, 1);
    SextetAt(b, 0, 2);
    SextetAt(b, 0, 3);
    hide Sextet;
    var t := Text(b);
    assert Sextet(b, 0) == 53 && Sextet(b, 1) == 54 && Sextet(b, 2) == 55 && Sextet(b, 3) == 56;
    assert |t| == 4 && t[0] == '1' && t[1] == '2' && t[2] == '3' && t[3] == '4';
  }

  lemma Digits1234()
    ensures Digits(1234) == "1234"
  {
    assert Digits(12) == Digits(1) + "2" == "12";
    assert Digits(123) == Digits(12) + "3" == "123";
    assert Digits(1234) == Digits(123) + "4";
  }

  // ------------------------------------------------------------------ what is read can be written

  /** A returned value as an input. */
  function AsRaw(v: Parsed): Raw {
    match v
    case Num(n) => Number(n)
    case Txt(s) => Str(s)
    case Real(text) => Double(text)
  }

  lemma ReadText(s: string)
    ensures RawText(AsRaw(ReadValue(s))) == s
  {
    if IsDecimal(s) {
      IntOfDecimal(s);
    }
  }

  lemma PairText(pair: string)
    requires ReadPair(pair).Some?
    ensures var (name, v) := ReadPair(pair).value;
            GoodEntry((name, AsRaw(v))) && pair == EntryText((name, AsRaw(v))) && ReadValue(RawText(AsRaw(v))) == v
  {
    var parts := Split(pair, '=');
    var value := Join(parts[1..], '=');
    JoinOfSplit(pair, '=');
    JoinOfFirst(parts, '=');
    hide Split, Join, IsName, IsValue;
    ReadText(value);
  }

  /** What was read from pairs: well-formed names and values, as many as pairs. */
  ghost predicate WellRead(m: map<string, Parsed>) {
    forall name :: name in m ==>
      name != "constructor" && GoodEntry((name, AsRaw(m[name]))) && ReadValue(RawText(AsRaw(m[name]))) == m[name]
  }

  /** The entries that pairs are. */
  function EntriesOf(pairs: seq<string>): (e: seq<(string, Raw)>)
    ensures |e| == |pairs|
  {
    if pairs == [] then []
    else
      var pair := ReadPair(pairs[|pairs| - 1]);
      EntriesOf(pairs[..|pairs| - 1]) + [if pair.Some? then (pair.value.0, AsRaw(pair.value.1)) else ("", Str(""))]
  }

  /** Well-formed entries with different names, none of which every object has already. */
  ghost predicate Fresh(e: seq<(string, Raw)>) {
    Distinct(e) && !HasName(e, "constructor") && forall i :: 0 <= i < |e| ==> GoodEntry(e[i])
  }

  lemma FreshMore(e: seq<(string, Raw)>, x: (string, Raw))
    requires Fresh(e) && GoodEntry(x) && !HasName(e, x.0) && x.0 != "constructor"
    ensures Fresh(e + [x])
  {
    hide GoodEntry;
    assert forall i :: 0 <= i < |e| ==> (e + [x])[i] == e[i] && e[i].0 != x.0;
  }

  /** Pairs that can be read are the texts of such entries. */
  lemma {:induction false} PairsAreEntries(pairs: seq<string>)
    requires ReadParams(pairs).Some?
    ensures var e := EntriesOf(pairs);
            Fresh(e) && EntryTexts(e) == pairs && MapOf(e) == ReadParams(pairs).value
  {
    hide Fresh, EntryTexts, MapOf, EntriesOf, ReadParams;
    if pairs == [] {
      NoPairs();
    } else {
      PairsUnfold(pairs);
      hide ReadPair;
      PairsAreEntries(pairs[..|pairs| - 1]);
      OneMorePair(ReadParams(pairs[..|pairs| - 1]).value, pairs[|pairs| - 1], EntriesOf(pairs[..|pairs| - 1]));
      assert pairs == pairs[..|pairs| - 1] + [pairs[|pairs| - 1]];
    }
  }

  lemma NoPairs()
    ensures Fresh(EntriesOf([])) && EntryTexts(EntriesOf([])) == [] && MapOf(EntriesOf([])) == map[]
    ensures ReadParams([]) == Some(map[])
  {
  }

  lemma PairsUnfold(pairs: seq<string>)
    requires pairs != [] && ReadParams(pairs).Some?
    ensures var front, pair := pairs[..|pairs| - 1], ReadPair(pairs[|pairs| - 1]);
      && pair.Some? && ReadParams(front).Some? && !InObject(pair.value.0, ReadParams(front).value)
      && ReadParams(pairs).value == ReadParams(front).value[pair.value.0 := pair.value.1]
      && EntriesOf(pairs) == EntriesOf(front) + [(pair.value.0, AsRaw(pair.value.1))]
  {
    hide ReadPair;
  }

  lemma OneMorePair(before: map<string, Parsed>, pair: string, e: seq<(string, Raw)>)
    requires Fresh(e) && MapOf(e) == before && ReadPair(pair).Some? && !InObject(ReadPair(pair).value.0, before)
    ensures var (name, v) := ReadPair(pair).value; var e' := e + [(name, AsRaw(v))];
            Fresh(e') && EntryTexts(e') == EntryTexts(e) + [pair] && MapOf(e') == before[name := v]
  {
    var (name, v) := ReadPair(pair).value;
    PairText(pair);
    hide ReadPair, GoodEntry, Fresh, EntryText, EntryTexts, ReadValue, RawText, HasName, MapOf;
    NamesOfMap(e, name);
    FreshMore(e, (name, AsRaw(v)));
    EntriesMore(e, (name, AsRaw(v)));
  }

  lemma EntriesMore(e: seq<(string, Raw)>, x: (string, Raw))
    ensures EntryTexts(e + [x]) == EntryTexts(e) + [EntryText(x)]
    ensures MapOf(e + [x]) == MapOf(e)[x.0 := ReadValue(RawText(x.1))]
  {
    hide EntryText, ReadValue, RawText;
    assert (e + [x])[..|e|] == e;
  }

  lemma FieldIsParams(field: string)
    requires ReadParams(Split(field, ',')).Some?
    ensures var e := EntriesOf(Split(field, ','));
            e != [] && Fresh(e) && Join(EntryTexts(e), ',') == field && MapOf(e) == ReadParams(Split(field, ',')).value
  {
    PairsAreEntries(Split(field, ','));
    JoinOfSplit(field, ',');
    hide Split, Join, ReadParams, Fresh, EntryTexts, EntriesOf, MapOf;
  }

  /** The parts that the fields after the version are. */
  lemma RestIsParts(decode: Decoder, id: string, digits: Option<string>, fields: seq<string>) returns (g: Parts)
    requires digits.Some? ==> AllDigits(digits.value)
    requires ReadRest(decode, id, if digits.Some? then Some(ReadVersion(digits.value)) else None, fields).Some?
    ensures g.id == id && g.version == digits && SecondHalf(g) == fields
    ensures g.params.Some? ==> g.params.value != [] && Fresh(g.params.value)
    ensures (g.salt.Some? ==> IsB64(g.salt.value)) && (g.hash.Some? ==> g.salt.Some? && IsB64(g.hash.value))
    ensures ReadRest(decode, id, if digits.Some? then Some(ReadVersion(digits.value)) else None, fields)
         == Some(PartsObject(decode, g))
  {
    var k := Binaries(fields);
    hide IsB64, ReadParams, Split, Join, Fresh, EntryTexts, MapOf, ReadVersion, EntriesOf;
    var left, salt, hash := BinariesAre(fields);
    g := Parts(id, digits, None, salt, hash);
    if left != [] {
      FieldIsParams(left[0]);
      g := g.(params := Some(EntriesOf(Split(left[0], ','))));
    }
    hide Binaries;
    assert Optional(ParamsField(g)) == left;
  }

  /** Salt and hash at the end of the fields, and what is before them. */
  lemma BinariesAre(fields: seq<string>) returns (left: seq<string>, salt: Option<string>, hash: Option<string>)
    ensures var k := Binaries(fields); var n := |fields|;
      && left == fields[..n - k]
      && salt == (if k > 0 then Some(fields[n - k]) else None)
      && hash == (if k > 1 then Some(fields[n - 1]) else None)
      && (salt.Some? ==> IsB64(salt.value)) && (hash.Some? ==> salt.Some? && IsB64(hash.value))
    ensures fields == left + (Optional(salt) + Optional(hash))
  {
    hide IsB64;
    var k, n := Binaries(fields), |fields|;
    left := fields[..n - k];
    salt := if k > 0 then Some(fields[n - k]) else None;
    hash := if k > 1 then Some(fields[n - 1]) else None;
    if k == 2 {
      assert fields[n - 2..] == [fields[n - 2], fields[n - 1]];
    } else if k == 1 {
      assert fields[n - 1..] == [fields[n - 1]];
    }
    assert fields == left + fields[n - k..];
  }

  lemma GoodParts(g: Parts)
    requires IsName(g.id) && (g.version.Some? ==> g.version.value != "" && AllDigits(g.version.value))
    requires g.params.Some? ==> g.params.value != [] && Fresh(g.params.value)
    requires (g.salt.Some? ==> IsB64(g.salt.value)) && (g.hash.Some? ==> g.salt.Some? && IsB64(g.hash.value))
    requires g.version.None? && |SecondHalf(g)| > 0 ==> !IsVersion(SecondHalf(g)[0])
    ensures Good(g) && Clear(g.version.Some?, g.params)
  {
    hide IsName, IsB64, GoodEntry, IsVersion, SecondHalf, LoneVersion, Distinct, HasName;
    TakenForVersion(g);
  }

  lemma FieldsAreParts(decode: Decoder, fields: seq<string>) returns (g: Parts)
    requires |fields| >= 1 && ReadFields(decode, fields).Some?
    ensures Good(g) && Clear(g.version.Some?, g.params) && PartFields(g) == fields
    ensures ReadFields(decode, fields) == Some(PartsObject(decode, g))
  {
    hide ReadRest, IsName, SecondHalf, Fresh, IsB64, Good, Clear, PartsObject, IsVersion, ReadVersion;
    if |fields| > 1 && IsVersion(fields[1]) {
      VersionDigits(fields[1]);
      g := RestIsParts(decode, fields[0], Some(fields[1][2..]), fields[2..]);
      assert Optional(VersionField(g)) == [fields[1]];
    } else {
      g := RestIsParts(decode, fields[0], None, fields[1..]);
      assert Optional(VersionField(g)) == [];
    }
    hide ReadFields, VersionField;
    GoodParts(g);
  }

  /** Every string that deserialize accepts is the text of parts, and is read as these. */
  lemma ReadIsParts(decode: Decoder, s: string) returns (g: Parts)
    requires Read(decode, s).Some?
    ensures Good(g) && Clear(g.version.Some?, g.params) && s == PartsText(g)
    ensures Read(decode, s) == Some(PartsObject(decode, g))
  {
    SplitDollar(s);
    var fields := Split(s, '$')[1..];
    assert Split(s, '$') == [""] + fields;
    JoinOfSplit(s, '$');
    hide Split, Join, ReadFields, Good, Clear, PartsObject, PartFields;
    g := FieldsAreParts(decode, fields);
  }

  /** What deserialize accepts, and as what: exactly the texts of parts, in the one way in which they are
      clear. */
  lemma ReadExactly(decode: Decoder, s: string, y: PhcObject)
    ensures Read(decode, s) == Some(y)
       <==> exists g: Parts ::
              Good(g) && Clear(g.version.Some?, g.params) && s == PartsText(g) && y == PartsObject(decode, g)
  {
    hide Good, Clear, PartsText, PartsObject, Read;
    if Read(decode, s) == Some(y) {
      var g := ReadIsParts(decode, s);
    }
    forall g: Parts | Good(g) && Clear(g.version.Some?, g.params) && s == PartsText(g)
      ensures Read(decode, s) == Some(PartsObject(decode, g))
    {
      PartsReadBack(decode, g);
    }
  }

  /** `x` says what `y` says; its params are those of `y` in any order. */
  ghost predicate Lists(x: PhcInput, y: PhcObject) {
    && x.id == y.id && x.salt == y.salt && x.hash == y.hash
    && (if x.version.Some? then x.version.value.Int? && y.version == Some(Exact(x.version.value.n))
        else y.version.None?)
    && (x.params.Some? <==> y.params.Some?)
    && (x.params.Some? ==> ListsParams(x.params.value, y.params.value))
  }

  ghost predicate ListsParams(entries: seq<(string, Raw)>, m: map<string, Parsed>) {
    && Distinct(entries) && |entries| == |m|
    && forall i :: 0 <= i < |entries| ==> entries[i].0 in m && entries[i].1 == AsRaw(m[entries[i].0])
  }

  lemma {:induction false} MapSize(entries: seq<(string, Raw)>)
    requires Distinct(entries)
    ensures |MapOf(entries)| == |entries|
  {
    if entries != [] {
      hide ReadValue, RawText;
      MapSize(entries[..|entries| - 1]);
      NamesOfMap(entries[..|entries| - 1], entries[|entries| - 1].0);
      LastIsNew(entries);
    }
  }

  lemma SameKeys(a: map<string, Parsed>, b: map<string, Parsed>)
    requires a.Keys <= b.Keys && |a| == |b|
    ensures a.Keys == b.Keys
  {
    assert |b.Keys - a.Keys| == |b.Keys| - |a.Keys|;
  }

  lemma ListedMap(entries: seq<(string, Raw)>, m: map<string, Parsed>)
    requires ListsParams(entries, m) && WellRead(m)
    ensures MapOf(entries) == m
  {
    MapSize(entries);
    hide ReadValue, RawText, GoodEntry;
    forall name | name in MapOf(entries) ensures name in m && MapOf(entries)[name] == m[name] {
      NamesOfMap(entries, name);
      var i :| 0 <= i < |entries| && entries[i].0 == name;
      MapAt(entries, i);
    }
    SameKeys(MapOf(entries), m);
  }

  lemma MapIsWellRead(e: seq<(string, Raw)>)
    requires Fresh(e)
    ensures WellRead(MapOf(e))
  {
    var m := MapOf(e);
    hide MapOf, IsName, IsValue, ReadValue, RawText;
    forall name | name in m
      ensures name != "constructor" && GoodEntry((name, AsRaw(m[name])))
      ensures ReadValue(RawText(AsRaw(m[name]))) == m[name]
    {
      NamesOfMap(e, name);
      var i :| 0 <= i < |e| && e[i].0 == name;
      MapAt(e, i);
      ReadText(RawText(e[i].1));
    }
  }

  /** What deserialize returns: a well-formed name, well-formed params that are not empty and not a
      lone version when there is none, and no hash without a salt. */
  ghost predicate WellFormed(y: PhcObject) {
    && IsName(y.id)
    && (y.version.Some? && y.version.value.Exact? ==> y.version.value.n >= 0)
    && (y.hash.Some? ==> y.salt.Some?)
    && (y.params.Some? ==> WellRead(y.params.value) && y.params.value != map[])
    && (y.params.Some? && y.version.None? ==> forall name :: name in y.params.value && |y.params.value| == 1 ==>
          !(name == "v" && AllDigits(RawText(AsRaw(y.params.value[name])))))
  }

  lemma ObjectIsWellFormed(decode: Decoder, g: Parts)
    requires Good(g) && Clear(g.version.Some?, g.params)
    ensures WellFormed(PartsObject(decode, g))
  {
    hide IsName, IsB64, WellRead, GoodEntry, RawText, ReadValue, HasName;
    if g.params.Some? {
      var e := g.params.value;
      assert Fresh(e);
      MapIsWellRead(e);
      MapSize(e);
      hide MapOf;
      MapAt(e, 0);
      ReadText(RawText(e[0].1));
      if |e| == 1 {
        forall name | name in MapOf(e) ensures name == e[0].0 { OnlyName(e, name); }
      }
    }
  }

  lemma OnlyName(e: seq<(string, Raw)>, name: string)
    requires |e| == 1 && name in MapOf(e)
    ensures name == e[0].0
  {
    NamesOfMap(e, name);
  }

  lemma ListedIsUnambiguous(x: PhcInput, y: PhcObject)
    requires WellFormed(y) && Lists(x, y)
    ensures Accepts(x) && IsObject(x) && Unambiguous(x) && DigitVersion(x) && Returned(x) == y
  {
    if x.version.Some? {
      IntVersion(x.version.value.n);
    }
    if x.params.Some? {
      var entries, m := x.params.value, y.params.value;
      ListedMap(entries, m);
      forall i | 0 <= i < |entries| ensures GoodEntry(entries[i]) && entries[i].0 != "constructor" {
        assert entries[i] == (entries[i].0, AsRaw(m[entries[i].0]));
      }
      if |entries| == 1 {
        assert entries[0] == (entries[0].0, AsRaw(m[entries[0].0]));
      }
    }
    hide GoodEntry, EntryText, IsVersion, RawText, ReadValue, ReadVersion, MapOf, WellRead, IsName, EntryTexts, Join;
  }

  /** Every string that deserialize accepts says the same as the text that serialize makes of its
      result: reading that text gives the same object, in whatever order its params are listed. */
  lemma Normalises(decode: Decoder, s: string, x: PhcInput)
    requires Lawful(decode) && Read(decode, s).Some? && Lists(x, Read(decode, s).value)
    ensures Accepts(x) && Read(decode, PhcText(x)) == Read(decode, s)
  {
    hide Read, PhcText, PartsText, Good, Clear, Accepts, Returned, DigitVersion, PartsObject, WellFormed, Lists, Lawful;
    var g := ReadIsParts(decode, s);
    ObjectIsWellFormed(decode, g);
    ListedIsUnambiguous(x, Read(decode, s).value);
    PartsComeBack(decode, x);
  }

  // ------------------------------------------------------------------ the two codecs

  /** The input whose PHC text is an encoded string. */
  function InputOf(variant: Variant, x: Fields): PhcInput
    requires x.mCost <= MAX32 && x.tCost <= MAX32 && x.lanes <= MAX32 && (x.version.Some? ==> x.version.value <= MAX32)
  {
    PhcInput(TypeString(variant), if x.version.Some? then Some(Int(x.version.value)) else None,
             Some([("m", Number(x.mCost)), ("t", Number(x.tCost)), ("p", Number(x.lanes))]), Some(x.salt), Some(x.out))
  }

  /** The object that says what an encoded string says. */
  function ObjectOf(variant: Variant, x: Fields): PhcObject
    requires x.mCost <= MAX32 && x.tCost <= MAX32 && x.lanes <= MAX32 && (x.version.Some? ==> x.version.value <= MAX32)
  {
    PhcObject(TypeString(variant), if x.version.Some? then Some(Exact(x.version.value)) else None,
              Some(map["m" := Num(x.mCost), "t" := Num(x.tCost), "p" := Num(x.lanes)]), Some(x.salt), Some(x.out))
  }

  /** Every field after a '$'. */
  function Dollars(fields: seq<string>): string {
    if fields == [] then "" else "$" + fields[0] + Dollars(fields[1..])
  }

  lemma {:induction false} JoinIsDollars(fields: seq<string>, first: string)
    ensures Join([first] + fields, '$') == first + Dollars(fields)
  {
    assert ([first] + fields)[1..] == fields;
    if fields != [] {
      JoinIsDollars(fields[1..], fields[0]);
      assert [fields[0]] + fields[1..] == fields;
      assert "$" + fields[0] + Dollars(fields[1..]) == "$" + (fields[0] + Dollars(fields[1..]));
    }
  }

  lemma {:induction false} DollarsOfBoth(a: seq<string>, b: seq<string>)
    ensures Dollars(a + b) == Dollars(a) + Dollars(b)
  {
    if a == [] {
      assert a + b == b;
    } else {
      DollarsOfBoth(a[1..], b);
      assert (a + b)[1..] == a[1..] + b;
    }
  }

  lemma DollarsOfOne(f: Option<string>)
    ensures Dollars(Optional(f)) == if f.Some? then "$" + f.value else ""
  {
    if f.Some? {
      assert [f.value][1..] == [];
    }
  }

  lemma PhcTextParts(x: PhcInput)
    ensures PhcText(x) == "$" + x.id + (Dollars(Optional(VersionField(PartsOf(x))))
                          + (Dollars(Optional(ParamsField(PartsOf(x))))
                             + (Dollars(Optional(BytesText(x.salt))) + Dollars(Optional(BytesText(x.hash))))))
  {
    hide Dollars, Optional, VersionField, ParamsField, BytesText, Join, IntText;
    var g := PartsOf(x);
    var v, p, s, h := Optional(VersionField(g)), Optional(ParamsField(g)), Optional(g.salt), Optional(g.hash);
    JoinIsDollars(PartFields(g), "");
    DollarsOfBoth([x.id], v + (p + (s + h)));
    DollarsOfBoth(v, p + (s + h));
    DollarsOfBoth(p, s + h);
    DollarsOfBoth(s, h);
    OneDollar(x.id);
  }

  lemma OneDollar(f: string)
    ensures Dollars([f]) == "$" + f
  {
    assert [f][1..] == [];
  }

  lemma ThreeJoined(a: string, b: string, c: string)
    ensures Join([a, b, c], ',') == a + ("," + (b + ("," + c)))
  {
    JoinOfFirst([a, b, c], ',');
    JoinOfFirst([b, c], ',');
    JoinOfFirst([c], ',');
    hide Join;
    assert [a, b, c][1..] == [b, c] && [b, c][1..] == [c];
    assert a + [','] + (b + [','] + c) == a + ("," + (b + ("," + c)));
  }

  lemma CostsText(m: nat, t: nat, p: nat)
    ensures Costs(m, t, p) == "$" + ("m=" + Digits(m) + ("," + ("t=" + Digits(t) + ("," + ("p=" + Digits(p))))))
  {
    hide Digits;
  }

  lemma EntryOfNumber(name: string, n: nat)
    requires n <= MAX32
    ensures EntryText((name, Number(n))) == name + "=" + Digits(n)
  {
  }

  lemma CostsField(variant: Variant, x: Fields)
    requires x.mCost <= MAX32 && x.tCost <= MAX32 && x.lanes <= MAX32 && (x.version.Some? ==> x.version.value <= MAX32)
    ensures Dollars(Optional(ParamsField(PartsOf(InputOf(variant, x))))) == Costs(x.mCost, x.tCost, x.lanes)
  {
    hide Digits, Text;
    var i := InputOf(variant, x);
    var m, t, p := "m=" + Digits(x.mCost), "t=" + Digits(x.tCost), "p=" + Digits(x.lanes);
    EntryOfNumber("m", x.mCost);
    EntryOfNumber("t", x.tCost);
    EntryOfNumber("p", x.lanes);
    hide EntryText;
    assert "m" + "=" == "m=" && "t" + "=" == "t=" && "p" + "=" == "p=";
    assert EntryTexts(i.params.value) == [m, t, p];
    hide EntryTexts;
    ThreeJoined(m, t, p);
    CostsText(x.mCost, x.tCost, x.lanes);
    DollarsOfOne(ParamsField(PartsOf(i)));
    hide Join, Dollars, Costs;
  }

  lemma VersionFieldText(variant: Variant, x: Fields)
    requires x.mCost <= MAX32 && x.tCost <= MAX32 && x.lanes <= MAX32 && (x.version.Some? ==> x.version.value <= MAX32)
    ensures Dollars(Optional(VersionField(PartsOf(InputOf(variant, x))))) == VersionPart(x.version)
  {
    hide Digits;
    DollarsOfOne(VersionField(PartsOf(InputOf(variant, x))));
    hide Dollars;
    if x.version.Some? {
      var d := Digits(x.version.value);
      assert "$" + ("v=" + d) == "$v=" + d;
    }
  }

  /** An encoded string is the PHC text of its fields. */
  lemma FormatIsPhcText(variant: Variant, x: Fields)
    requires x.mCost <= MAX32 && x.tCost <= MAX32 && x.lanes <= MAX32 && (x.version.Some? ==> x.version.value <= MAX32)
    ensures Format(variant, x) == PhcText(InputOf(variant, x))
  {
    var i := InputOf(variant, x);
    PhcTextParts(i);
    VersionFieldText(variant, x);
    CostsField(variant, x);
    DollarsOfOne(BytesText(i.salt));
    DollarsOfOne(BytesText(i.hash));
    hide Dollars, VersionField, ParamsField, PhcText, Costs, VersionPart, Optional, Text, TypeString;
    var a, v, c := "$" + TypeString(variant), VersionPart(x.version), Costs(x.mCost, x.tCost, x.lanes);
    var s, h := Blob(x.salt), Blob(x.out);
    assert Format(variant, x) == a + v + c + s + h;
    hide Format, Blob;
    Associative(a + v + c, s, h);
    Associative(a + v, c, s + h);
    Associative(a, v, c + (s + h));
  }

  lemma InputIsFine(variant: Variant, x: Fields)
    requires x.mCost <= MAX32 && x.tCost <= MAX32 && x.lanes <= MAX32 && (x.version.Some? ==> x.version.value <= MAX32)
    ensures var i := InputOf(variant, x);
            Accepts(i) && IsObject(i) && Unambiguous(i) && DigitVersion(i) && Returned(i) == ObjectOf(variant, x)
  {
    hide GoodEntry, MapOf, RawText, IsName, ReadValue, Accepts, Digits, TypeString;
    InputAccepted(variant, x);
    if x.version.Some? {
      IntVersion(x.version.value);
    }
    hide ReadVersion, IntText, AllDigits;
    var e := InputOf(variant, x).params.value;
    LetterIsName("m");
    LetterIsName("t");
    LetterIsName("p");
    NumberEntry("m", x.mCost);
    NumberEntry("t", x.tCost);
    NumberEntry("p", x.lanes);
    MapOfThree(e[0], e[1], e[2]);
    assert !HasName(e, "constructor");
    assert MapOf(e) == map["m" := Num(x.mCost), "t" := Num(x.tCost), "p" := Num(x.lanes)];
    hide HasName;
  }

  lemma InputAccepted(variant: Variant, x: Fields)
    requires x.mCost <= MAX32 && x.tCost <= MAX32 && x.lanes <= MAX32 && (x.version.Some? ==> x.version.value <= MAX32)
    ensures Accepts(InputOf(variant, x))
  {
    hide GoodEntry, RawText, IsName, TypeString;
    LetterIsName("m");
    LetterIsName("t");
    LetterIsName("p");
    NumberEntry("m", x.mCost);
    NumberEntry("t", x.tCost);
    NumberEntry("p", x.lanes);
    TypeIsName(variant);
  }

  lemma LetterIsName(s: string)
    requires |s| == 1 && 'a' <= s[0] <= 'z'
    ensures IsName(s)
  {
  }

  lemma TypeIsName(variant: Variant)
    ensures IsName(TypeString(variant))
  {
  }

  lemma MapOfThree(a: (string, Raw), b: (string, Raw), c: (string, Raw))
    ensures MapOf([a, b, c])
         == map[][a.0 := ReadValue(RawText(a.1))][b.0 := ReadValue(RawText(b.1))][c.0 := ReadValue(RawText(c.1))]
  {
    hide ReadValue, RawText;
    assert [a, b, c][..2] == [a, b] && [a, b][..1] == [a] && [a][..0] == [];
    assert MapOf([a]) == map[][a.0 := ReadValue(RawText(a.1))];
    assert MapOf([a, b]) == MapOf([a])[b.0 := ReadValue(RawText(b.1))];
  }

  lemma NumberEntry(name: string, n: nat)
    requires n <= MAX32 && IsName(name)
    ensures GoodEntry((name, Number(n))) && ReadValue(RawText(Number(n))) == Num(n)
  {
    DecimalOfInt(n);
    DigitsAreMinimal(n);
  }

  /** The two codecs agree: decode_string reads a whole string as `x` if and only if it fits, is in the
      form that serialize writes, and deserialize reads it as `x`. */
  lemma CodecsAgree(decode: Decoder, s: string, variant: Variant, saltCap: nat, outCap: nat, x: Fields)
    requires Lawful(decode)
    requires x.mCost <= MAX32 && x.tCost <= MAX32 && x.lanes <= MAX32 && (x.version.Some? ==> x.version.value <= MAX32)
    requires |x.salt| <= saltCap && |x.out| <= outCap
    ensures Reads(s, variant, saltCap, outCap, x, "")
       <==> s == PhcText(InputOf(variant, x)) && Read(decode, s) == Some(ObjectOf(variant, x))
  {
    FormatIsPhcText(variant, x);
    InputIsFine(variant, x);
    PartsComeBack(decode, InputOf(variant, x));
    hide Format, PhcText, InputOf, ObjectOf, Read, Returned, Unambiguous, Accepts, DigitVersion;
    assert Format(variant, x) + "" == Format(variant, x);
  }

  lemma {:induction false} JoinIsAscii(fields: seq<string>, c: char)
    requires (c as int) < 128 && AllAscii(fields)
    ensures Ascii(Join(fields, c))
  {
    JoinOfFirstOrNone(fields, c);
    if |fields| > 1 {
      var rest := fields[1..];
      assert forall i :: 0 <= i < |rest| ==> rest[i] == fields[i + 1];
      JoinIsAscii(rest, c);
      hide Join;
    }
  }

  lemma JoinOfFirstOrNone(fields: seq<string>, c: char)
    ensures Join(fields, c) == if fields == [] then "" else if |fields| == 1 then fields[0]
                               else fields[0] + [c] + Join(fields[1..], c)
  {
  }

  lemma NameIsAscii(s: string)
    requires IsName(s)
    ensures Ascii(s)
  {
  }

  lemma B64IsAscii(s: string)
    requires IsB64(s)
    ensures Ascii(s)
  {
  }

  lemma DigitsAreAscii(s: string)
    requires AllDigits(s)
    ensures Ascii(s)
  {
  }

  lemma ParamsAreAscii(entries: seq<(string, Raw)>)
    requires forall i :: 0 <= i < |entries| ==> GoodEntry(entries[i])
    ensures Ascii(Join(EntryTexts(entries), ','))
  {
    hide IsName, IsB64, RawText, Join;
    forall i | 0 <= i < |entries| ensures Ascii(EntryTexts(entries)[i]) {
      assert GoodEntry(entries[i]);
      NameIsAscii(entries[i].0);
      B64IsAscii(RawText(entries[i].1));
    }
    JoinIsAscii(EntryTexts(entries), ',');
  }

  /** What deserialize accepts has no code of 128 or above. */
  lemma ReadIsAscii(decode: Decoder, s: string)
    requires Read(decode, s).Some?
    ensures Ascii(s)
  {
    var g := ReadIsParts(decode, s);
    hide Read, Clear, Join, PartsObject;
    FieldsAreAscii(g);
    hide Good, PartFields;
    JoinIsAscii([""] + PartFields(g), '$');
  }

  ghost predicate AllAscii(fields: seq<string>) { forall i :: 0 <= i < |fields| ==> Ascii(fields[i]) }

  lemma FieldsAreAscii(g: Parts)
    requires Good(g)
    ensures AllAscii(PartFields(g))
  {
    NameIsAscii(g.id);
    if g.version.Some? {
      DigitsAreAscii(g.version.value);
    }
    if g.params.Some? {
      ParamsAreAscii(g.params.value);
    }
    if g.salt.Some? {
      B64IsAscii(g.salt.value);
    }
    if g.hash.Some? {
      B64IsAscii(g.hash.value);
    }
    hide Good, Join, EntryTexts;
    assert AllAscii([g.id]) && AllAscii(Optional(VersionField(g))) && AllAscii(Optional(ParamsField(g)));
    assert AllAscii(Optional(g.salt)) && AllAscii(Optional(g.hash));
    hide Ascii, VersionField, ParamsField, Optional;
  }

  /** In particular every string that decode_string accepts is read the same way by deserialize, an
      absent version standing for 0x10; unless char is signed and the string has a code of 128 or above,
      when deserialize rejects it. */
  lemma AcceptedByBoth(decode: Decoder, s: string, signed: bool, ctx: Context, variant: Variant, saltCap: nat,
                       outCap: nat, x: Fields)
    requires Lawful(decode) && Reads(Seen(s, signed), variant, saltCap, outCap, x, "") && Holds(ctx, x)
    ensures var r := Read(decode, s);
      if signed && !Ascii(s) then r.None?
      else
        && r.Some? && r.value.id == TypeString(variant)
        && (if r.value.version.Some? then r.value.version.value == Exact(ctx.version) else ctx.version == VERSION_10)
        && r.value.params == Some(map["m" := Num(ctx.mCost), "t" := Num(ctx.tCost), "p" := Num(ctx.lanes)])
        && r.value.salt == Some(ctx.salt[..ctx.saltlen]) && r.value.hash == Some(ctx.out[..ctx.outlen])
  {
    SeenAsItIs(s, signed);
    if signed && !Ascii(s) {
      if Read(decode, s).Some? {
        ReadIsAscii(decode, s);
      }
    } else {
      CodecsAgree(decode, s, variant, saltCap, outCap, x);
    }
    hide Read, PhcText, Format, Ascii, Seen;
  }

  /** Where char is signed, there is a string that decode_string accepts and deserialize rejects. */
  lemma AcceptedByOne(decode: Decoder, variant: Variant) returns (s: string, x: Fields)
    ensures Accepted(x) && IsCString(s) && Reads(Seen(s, true), variant, |x.salt|, |x.out|, x, "")
    ensures Read(decode, s).None?
  {
    hide Read, Reads, Seen;
    s, x := AcceptedOtherwise(variant);
    if Read(decode, s).Some? {
      ReadIsAscii(decode, s);
    }
  }
}
