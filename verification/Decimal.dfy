/** Decimal integers as text, and the strict integer header of the upload API. */
module Decimal {
  import opened Common

  const MAX_INT64: nat := 0x7fff_ffff_ffff_ffff

  predicate IsDigit(c: char) {
    '0' <= c <= '9'
  }

  predicate AllDigits(s: string) {
    forall i :: 0 <= i < |s| ==> IsDigit(s[i])
  }

  function DigitChar(d: nat): (c: char)
    requires d < 10
    ensures IsDigit(c)
  {
    ('0' as int + d) as char
  }

  function DigitValue(c: char): nat
    requires IsDigit(c)
  {
    c as int - '0' as int
  }

  function Format(n: nat): (s: string)
    ensures |s| > 0 && AllDigits(s)
  {
    if n < 10 then [DigitChar(n)] else Format(n / 10) + [DigitChar(n % 10)]
  }

  function ValueOf(s: string): nat
    requires AllDigits(s)
  {
    if s == "" then 0 else 10 * ValueOf(s[..|s| - 1]) + DigitValue(s[|s| - 1])
  }

  /** No sign, no leading zero, at least one digit. */
  predicate Canonical(s: string) {
    s != "" && AllDigits(s) && (|s| > 1 ==> s[0] != '0')
  }

  lemma {:induction false} FormatRoundTrips(n: nat)
    ensures ValueOf(Format(n)) == n
    ensures Canonical(Format(n)) && (n > 0 ==> Format(n)[0] != '0')
  {
    if n < 10 {
      assert Format(n)[..0] == "";
    } else {
      FormatRoundTrips(n / 10);
      var s := Format(n);
      assert s[..|s| - 1] == Format(n / 10);
    }
  }

  lemma {:induction false} CanonicalIsFormatted(s: string)
    requires Canonical(s)
    ensures Format(ValueOf(s)) == s
    ensures s[0] != '0' ==> ValueOf(s) > 0
  {
    var init, last := s[..|s| - 1], s[|s| - 1];
    if init == "" {
      assert ValueOf(init) == 0;
      assert s == [last];
    } else {
      CanonicalIsFormatted(init);
      assert init[0] == s[0];
      assert ValueOf(s) / 10 == ValueOf(init) && ValueOf(s) % 10 == DigitValue(last);
      assert s == init + [last];
    }
  }

  /** Accepts exactly the formatted integers from 0 to 2^63 - 1, so no two headers mean the same offset. */
  method ParseCanonicalUploadInteger(value: string) returns (result: Option<nat>)
    ensures result.Some? ==> result.value <= MAX_INT64 && value == Format(result.value)
    ensures result.None? ==> forall n: nat :: n <= MAX_INT64 ==> value != Format(n)
  {
    forall n: nat
      ensures Canonical(Format(n)) && ValueOf(Format(n)) == n
    {
      FormatRoundTrips(n);
    }
    if value == "" || value == "-0" || (|value| > 1 && value[0] == '0') {
      return None;
    }
    for i := 0 to |value|
      invariant forall j :: 0 <= j < i ==> IsDigit(value[j])
    {
      if value[i] < '0' || value[i] > '9' {
        return None;
      }
    }
    var parsed := ValueOf(value);
    CanonicalIsFormatted(value);
    if parsed > MAX_INT64 {
      return None;
    }
    result := Some(parsed);
  }
}
