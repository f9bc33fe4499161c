/** Decimal text as LLVM's support library writes and reads it: `utostr` and
    `raw_ostream << int64_t` for printing, `StringRef::consumeInteger(10, _)`
    for parsing a 64-bit signed integer off the front of a string. */
module Decimal {
  import opened Wrappers

  const TwoTo63: int := 0x8000_0000_0000_0000

  predicate IsDigit(c: char) { '0' <= c <= '9' }

  predicate AllDigits(s: string) { forall i :: 0 <= i < |s| ==> IsDigit(s[i]) }

  function DigitChar(d: nat): (c: char)
    requires d < 10
    ensures IsDigit(c)
  {
    "0123456789"[d]
  }

  function DigitValue(c: char): (d: nat)
    requires IsDigit(c)
    ensures d < 10
  {
    (c as int - '0' as int) as nat
  }

  /** The shortest decimal spelling of `n`, most significant digit first. */
  function NatToString(n: nat): (s: string)
    ensures |s| > 0 && AllDigits(s)
    ensures n > 0 ==> s[0] != '0'
  {
    if n < 10 then [DigitChar(n)]
    else NatToString(n / 10) + [DigitChar(n % 10)]
  }

  /** The value of a string of decimal digits, read left to right as
      `value = value * 10 + digit`. */
  function DigitsValue(s: string): nat
    requires AllDigits(s)
  {
    if s == [] then 0
    else DigitsValue(s[..|s| - 1]) * 10 + DigitValue(s[|s| - 1])
  }

  lemma DigitValueOfDigitChar(d: nat)
    requires d < 10
    ensures DigitValue(DigitChar(d)) == d
  {
    assert "0123456789"[d] as int == '0' as int + d;
  }

  /** Reading back what NatToString wrote gives the number again. */
  lemma {:induction false} NatToStringRoundTrip(n: nat)
    ensures DigitsValue(NatToString(n)) == n
  {
    var s := NatToString(n);
    if n < 10 {
      DigitValueOfDigitChar(n);
    } else {
      NatToStringRoundTrip(n / 10);
      DigitValueOfDigitChar(n % 10);
      assert s[..|s| - 1] == NatToString(n / 10);
    }
  }

  /** Distinct numbers have distinct spellings, so the default names
      "attr0", "attr1", ... of a kernel's attribute slots never collide. */
  lemma NatToStringInjective(m: nat, n: nat)
    requires NatToString(m) == NatToString(n)
    ensures m == n
  {
    NatToStringRoundTrip(m);
    NatToStringRoundTrip(n);
  }

  /** The number of leading decimal digits of `s` (the maximal munch of
      consumeUnsignedInteger with radix 10). */
  function DigitRun(s: string): (k: nat)
    ensures k <= |s| && AllDigits(s[..k])
    ensures k < |s| ==> !IsDigit(s[k])
  {
    if s == [] || !IsDigit(s[0]) then 0
    else
      var k := 1 + DigitRun(s[1..]);
      assert s[..k] == [s[0]] + s[1..][..k - 1];
      k
  }

  /** `StringRef::consumeInteger(10, int64_t&)`: an optional '-', then the
      longest run of decimal digits, which must be non-empty and whose value
      must fit in int64. On success the value and the rest of the string. */
  function ConsumeInteger(s: string): (r: Option<(int, string)>)
    ensures r.Some? ==> -TwoTo63 <= r.value.0 < TwoTo63
    ensures r.Some? ==> |r.value.1| < |s|
  {
    if |s| > 0 && s[0] == '-' then
      var k := DigitRun(s[1..]);
      if k == 0 then None
      else
        var u := DigitsValue(s[1..][..k]);
        if u > TwoTo63 then None else Some((0 - u, s[1 + k..]))
    else
      var k := DigitRun(s);
      if k == 0 then None
      else
        var u := DigitsValue(s[..k]);
        if u >= TwoTo63 then None else Some((u, s[k..]))
  }

  lemma {:induction false} DigitRunOfDigitsThen(s: string, rest: string)
    requires AllDigits(s)
    requires rest == [] || !IsDigit(rest[0])
    ensures DigitRun(s + rest) == |s|
  {
    if s != [] {
      assert (s + rest)[1..] == s[1..] + rest;
      DigitRunOfDigitsThen(s[1..], rest);
    } else {
      assert s + rest == rest;
    }
  }

  /** consumeInteger takes exactly the decimal spelling of a non-negative
      int64 off the front of a string when a non-digit (or nothing) follows. */
  lemma ConsumeIntegerOfNatToString(n: nat, rest: string)
    requires n < TwoTo63
    requires rest == [] || !IsDigit(rest[0])
    ensures ConsumeInteger(NatToString(n) + rest) == Some((n, rest))
  {
    var s := NatToString(n);
    DigitRunOfDigitsThen(s, rest);
    assert (s + rest)[..|s|] == s;
    assert (s + rest)[|s|..] == rest;
    NatToStringRoundTrip(n);
  }
}
