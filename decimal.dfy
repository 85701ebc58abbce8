/** Decimal rendering of counts, as Rust's `{}` formats an unsigned integer,
    and the reading a client does to get the count back off a status message. */
module Decimal {

  predicate IsDigit(c: char) {
    '0' <= c <= '9'
  }

  function DigitChar(d: nat): (c: char)
    requires d < 10
    ensures IsDigit(c) && c as int - '0' as int == d
  {
    ('0' as int + d) as char
  }

  function DigitValue(c: char): (d: nat)
    requires IsDigit(c)
    ensures d < 10 && DigitChar(d) == c
  {
    c as int - '0' as int
  }

  predicate AllDigits(s: string) {
    forall i :: 0 <= i < |s| ==> IsDigit(s[i])
  }

  /** The decimal text of `n`: most significant digit first, at least one digit,
      and a leading '0' only for zero itself. */
  function Render(n: nat): (s: string)
    ensures |s| >= 1 && AllDigits(s)
    ensures (s[0] == '0') <==> (n == 0)
  {
    if n < 10 then [DigitChar(n)] else Render(n / 10) + [DigitChar(n % 10)]
  }

  /** The number a string of digits denotes, read most significant digit first. */
  function Value(ds: string): nat
    requires AllDigits(ds)
  {
    if ds == [] then 0 else Value(ds[..|ds| - 1]) * 10 + DigitValue(ds[|ds| - 1])
  }

  /** How many digits `s` starts with. */
  function DigitRun(s: string): (k: nat)
    ensures k <= |s| && AllDigits(s[..k])
    ensures k < |s| ==> !IsDigit(s[k])
  {
    if s == [] || !IsDigit(s[0]) then 0
    else
      var k := 1 + DigitRun(s[1..]);
      assert s[..k] == [s[0]] + s[1..][..k - 1];
      k
  }

  /** The count a client reads off the front of a message such as "3 row updated!". */
  function LeadingNumber(s: string): nat {
    Value(s[..DigitRun(s)])
  }

  /** A text may follow a number without changing it when it does not start with a digit. */
  predicate Separated(suffix: string) {
    suffix == [] || !IsDigit(suffix[0])
  }

  lemma {:induction false} ValueOfRender(n: nat)
    ensures Value(Render(n)) == n
  {
    if n >= 10 {
      ValueOfRender(n / 10);
      var s := Render(n);
      assert s[..|s| - 1] == Render(n / 10);
    }
  }

  lemma {:induction false} DigitRunStopsAtSuffix(ds: string, suffix: string)
    requires AllDigits(ds) && Separated(suffix)
    ensures DigitRun(ds + suffix) == |ds|
  {
    if ds != [] {
      DigitRunStopsAtSuffix(ds[1..], suffix);
      assert (ds + suffix)[1..] == ds[1..] + suffix;
    }
  }

  /** Rendering a count and then reading it back yields the count: the message
      "<n> ..." carries exactly `n`. */
  lemma {:induction false} ReadBackRendered(n: nat, suffix: string)
    requires Separated(suffix)
    ensures LeadingNumber(Render(n) + suffix) == n
  {
    var s := Render(n);
    DigitRunStopsAtSuffix(s, suffix);
    assert (s + suffix)[..|s|] == s;
    ValueOfRender(n);
  }
}
