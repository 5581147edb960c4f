/** Decimal integers as Rust's `Display` writes them and `FromStr` reads them. */
module Numerals {
  import opened Prelude
  import opened Text

  function DigitChar(d: nat): char
    requires d < 10
  {
    '0' + d as char
  }

  function DigitValue(c: char): nat
    requires IsDigit(c)
  {
    c as int - '0' as int
  }

  function Decimal(n: nat): (r: string)
    ensures r != "" && forall c | c in r :: IsDigit(c)
  {
    if n < 10 then [DigitChar(n)] else Decimal(n / 10) + [DigitChar(n % 10)]
  }

  function DigitsValue(s: string): nat
    requires forall c | c in s :: IsDigit(c)
  {
    if s == [] then 0 else 10 * DigitsValue(s[..|s| - 1]) + DigitValue(s[|s| - 1])
  }

  predicate IsDigits(s: string) {
    s != "" && forall c | c in s :: IsDigit(c)
  }

  lemma {:induction false} DecimalValue(n: nat)
    ensures DigitsValue(Decimal(n)) == n
  {
    if n >= 10 {
      DecimalValue(n / 10);
      var s := Decimal(n);
      assert s[..|s| - 1] == Decimal(n / 10);
    }
  }

  lemma DecimalInjective(a: nat, b: nat)
    requires Decimal(a) == Decimal(b)
    ensures a == b
  {
    DecimalValue(a);
    DecimalValue(b);
  }

  /** `parse::<uN>()`: an optional plus sign, then digits, in range. */
  function ParseUnsigned(s: string, max: nat): Option<nat> {
    var digits := if s != "" && s[0] == '+' then s[1..] else s;
    if IsDigits(digits) && DigitsValue(digits) <= max then Some(DigitsValue(digits)) else None
  }

  /** A printed number is read if and only if it is in range. */
  lemma DecimalReads(n: nat, max: nat)
    ensures ParseUnsigned(Decimal(n), max) == if n <= max then Some(n) else None
  {
    DecimalValue(n);
    assert Decimal(n)[0] in Decimal(n);
  }

  /** `parse::<iN>()`: an optional sign, then digits, in range. */
  function ParseSigned(s: string, min: int, max: int): Option<int> {
    var negative := s != "" && s[0] == '-';
    var digits := if s != "" && (s[0] == '-' || s[0] == '+') then s[1..] else s;
    if !IsDigits(digits) then None
    else
      var n: int := if negative then 0 - DigitsValue(digits) else DigitsValue(digits);
      if min <= n <= max then Some(n) else None
  }

  function PrintSigned(n: int): (r: string)
    ensures IsToken(r)
  {
    if n < 0 then "-" + Decimal(-n) else Decimal(n)
  }

  /** A plus sign in front changes nothing. */
  lemma PlusSignIsRead(n: nat, max: nat, low: int, high: int)
    ensures ParseUnsigned("+" + Decimal(n), max) == ParseUnsigned(Decimal(n), max)
    ensures ParseSigned("+" + Decimal(n), low, high) == ParseSigned(Decimal(n), low, high)
  {
    assert ("+" + Decimal(n))[1..] == Decimal(n);
    assert Decimal(n)[0] in Decimal(n);
  }

  /** A minus sign is printed for negative numbers only. */
  lemma SignOfPrinted(n: int)
    ensures PrintSigned(n)[0] == '-' <==> n < 0
    ensures PrintSigned(n) != "-"
  {
    assert Decimal(if n < 0 then -n else n)[0] in Decimal(if n < 0 then -n else n);
  }

  /** A printed integer is read if and only if it is in range. */
  lemma SignedReads(n: int, min: int, max: int)
    ensures ParseSigned(PrintSigned(n), min, max) == if min <= n <= max then Some(n) else None
  {
    DecimalValue(if n < 0 then -n else n);
    var s := PrintSigned(n);
    if n < 0 {
      assert s[1..] == Decimal(-n);
    } else {
      assert s[0] in s;
    }
  }

  lemma SignedRoundTrip(n: int, min: int, max: int)
    requires min <= n <= max
    ensures ParseSigned(PrintSigned(n), min, max) == Some(n)
  {
    SignedReads(n, min, max);
  }

  /** At least one digit, and nothing else. */
  ghost predicate IsNumber(s: string) {
    |s| >= 1 && forall i | 0 <= i < |s| :: '0' <= s[i] <= '9'
  }

  lemma DigitsAreNumber(s: string)
    ensures IsDigits(s) <==> IsNumber(s)
  {
    if IsNumber(s) {
      forall c | c in s
        ensures IsDigit(c)
      {
        var i :| 0 <= i < |s| && s[i] == c;
      }
    }
    if IsDigits(s) {
      assert forall i | 0 <= i < |s| :: s[i] in s;
    }
  }

  /** What is read is a number, after a sign the type allows, and in range. */
  lemma ReadsOnlyNumbers(s: string, max: nat, low: int, high: int)
    ensures ParseUnsigned(s, max).Some? ==>
              && ParseUnsigned(s, max).value <= max
              && (IsNumber(s) || (s != "" && s[0] == '+' && IsNumber(s[1..])))
    ensures ParseSigned(s, low, high).Some? ==>
              && low <= ParseSigned(s, low, high).value <= high
              && (IsNumber(s) || (s != "" && (s[0] == '+' || s[0] == '-') && IsNumber(s[1..])))
  {
    DigitsAreNumber(s);
    if s != "" {
      DigitsAreNumber(s[1..]);
    }
  }
}
