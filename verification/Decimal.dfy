/** Decimal numbers of encoding.c: printing with sprintf, numlen and decode_decimal. */
module Decimals {
  import opened Options

  predicate IsDigit(c: char) { '0' <= c <= '9' }

  predicate AllDigits(t: string) { forall i :: 0 <= i < |t| ==> IsDigit(t[i]) }

  /** What sprintf writes for "%lu". */
  function Digits(n: nat): (t: string)
    ensures |t| > 0
  {
    var last := [(n % 10 + 48) as char];
    if n < 10 then last else Digits(n / 10) + last
  }

  /** The value of digits, leading zeros allowed. */
  function Number(t: string): nat
    requires AllDigits(t)
  {
    if t == "" then 0 else Number(t[..|t| - 1]) * 10 + (t[|t| - 1] as int - 48)
  }

  /** At least one digit, and no leading zero unless it is the only digit. */
  predicate Minimal(t: string) { t != "" && (t[0] == '0' ==> |t| == 1) }

  lemma {:induction false} DigitsAreMinimal(n: nat)
    ensures AllDigits(Digits(n)) && Minimal(Digits(n)) && Number(Digits(n)) == n
    ensures n > 0 ==> Digits(n)[0] != '0'
  {
    if n >= 10 {
      DigitsAreMinimal(n / 10);
      var t := Digits(n);
      assert t[..|t| - 1] == Digits(n / 10);
    }
  }

  lemma {:induction false} MinimalIsDigits(t: string)
    requires AllDigits(t) && Minimal(t)
    ensures t == Digits(Number(t))
    ensures t[0] != '0' ==> Number(t) > 0
  {
    var front, last := t[..|t| - 1], t[|t| - 1] as int - 48;
    if front != "" {
      MinimalIsDigits(front);
      assert Number(t) / 10 == Number(front) && Number(t) % 10 == last;
    }
  }

  /** The printed numbers are exactly the minimal digit strings. */
  lemma DigitsExactly(t: string)
    ensures AllDigits(t) && Minimal(t) <==> exists n: nat :: t == Digits(n)
  {
    if AllDigits(t) && Minimal(t) {
      MinimalIsDigits(t);
    }
    if n: nat :| t == Digits(n) {
      DigitsAreMinimal(n);
    }
  }

  lemma DigitsInjective(n: nat, k: nat)
    requires Digits(n) == Digits(k)
    ensures n == k
  {
    DigitsAreMinimal(n);
    DigitsAreMinimal(k);
  }

  // ------------------------------------------------------------------ numlen

  /** numlen is the length of the printed number. */
  method NumLen(num: nat) returns (len: nat)
    ensures len == |Digits(num)|
  {
    len := 1;
    var rest := num;
    while rest >= 10
      invariant len + |Digits(rest)| == |Digits(num)| + 1
    {
      len := len + 1;
      rest := rest / 10;
    }
  }

  // ------------------------------------------------------------------ decode_decimal

  /** Where the digits that begin at `start` end. */
  function DigitsEnd(s: string, start: nat): (e: nat)
    requires start <= |s|
    ensures start <= e <= |s|
    ensures e < |s| ==> !IsDigit(s[e])
    ensures forall i :: start <= i < e ==> IsDigit(s[i])
    decreases |s| - start
  {
    if start < |s| && IsDigit(s[start]) then DigitsEnd(s, start + 1) else start
  }

  /** More digits, a greater or equal number. */
  lemma {:induction false} NumberGrows(t: string, k: nat)
    requires AllDigits(t) && k <= |t|
    ensures Number(t[..k]) <= Number(t)
    decreases |t| - k
  {
    if k < |t| {
      assert t[..k + 1][..k] == t[..k];
      NumberGrows(t, k + 1);
    } else {
      assert t[..k] == t;
    }
  }

  /** No number up to `max` is printed like this. */
  ghost predicate NoNumberFor(t: string, max: nat) { forall n: nat | n <= max :: t != Digits(n) }

  lemma TooGreat(t: string, k: nat, max: nat)
    requires AllDigits(t) && k <= |t| && Number(t[..k]) > max
    ensures NoNumberFor(t, max)
  {
    NumberGrows(t, k);
    forall n: nat | n <= max ensures t != Digits(n) { DigitsAreMinimal(n); }
  }

  lemma NotMinimal(t: string, max: nat)
    requires !Minimal(t)
    ensures NoNumberFor(t, max)
  {
    forall n: nat | n <= max ensures t != Digits(n) { DigitsAreMinimal(n); }
  }

  /** decode_decimal, for an unsigned long with the greatest value `max`. It succeeds if and only if
      the digits at `start` are the printed form of a number that fits; nothing overflows on the way. */
  method DecodeDecimal(str: string, start: nat, max: nat) returns (next: Option<nat>, v: nat)
    requires start <= |str|
    ensures next.Some? ==>
      next.value == DigitsEnd(str, start) && v <= max && str[start..next.value] == Digits(v)
    ensures next.None? ==> NoNumberFor(str[start..DigitsEnd(str, start)], max)
  {
    ghost var t := str[start..DigitsEnd(str, start)];
    v := 0;
    var p := start;
    while p < |str| && IsDigit(str[p])
      invariant start <= p <= DigitsEnd(str, start)
      invariant v == Number(t[..p - start]) && v <= max
    {
      var c := str[p] as int - 48;
      assert t[..p + 1 - start][..p - start] == t[..p - start];
      assert Number(t[..p + 1 - start]) == v * 10 + c;
      if v > max / 10 {
        TooGreat(t, p + 1 - start, max);
        return None, v;
      }
      v := v * 10;
      assert v <= max;
      if c > max - v {
        TooGreat(t, p + 1 - start, max);
        return None, v;
      }
      v := v + c;
      p := p + 1;
    }
    assert t[..p - start] == t;
    if p == start || (str[start] == '0' && p != start + 1) {
      NotMinimal(t, max);
      return None, v;
    }
    MinimalIsDigits(t);
    next := Some(p);
  }
}
