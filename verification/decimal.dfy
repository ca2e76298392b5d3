/** Decimal text of integers as Rust's `Display` for `i32` writes it: an
    optional `-`, then the digits of the magnitude with no leading zero, and
    its exact inverse. */
module Decimal {
  import opened Results

  predicate IsDigit(c: char) {
    '0' <= c <= '9'
  }

  predicate AllDigits(s: string) {
    forall i :: 0 <= i < |s| ==> IsDigit(s[i])
  }

  function DigitChar(n: int): (c: char)
    requires 0 <= n < 10
    ensures IsDigit(c)
  {
    (('0' as int) + n) as char
  }

  function DigitValue(c: char): (n: int)
    requires IsDigit(c)
    ensures 0 <= n < 10
    ensures DigitChar(n) == c
  {
    (c as int) - ('0' as int)
  }

  /** The digit string Rust prints for a non-negative integer: at least one
      digit, and a leading `0` only for zero itself. */
  predicate IsCanonical(s: string) {
    && |s| >= 1
    && AllDigits(s)
    && (|s| == 1 || s[0] != '0')
  }

  function NatToString(n: nat): (s: string)
    ensures IsCanonical(s)
    ensures n > 0 ==> s[0] != '0'
    decreases n
  {
    if n < 10 then [DigitChar(n)]
    else NatToString(n / 10) + [DigitChar(n % 10)]
  }

  /** The value of a non-empty digit string, most significant digit first. */
  function DigitsValue(s: string): nat
    requires |s| >= 1 && AllDigits(s)
    decreases |s|
  {
    if |s| == 1 then DigitValue(s[0])
    else DigitsValue(s[..|s| - 1]) * 10 + DigitValue(s[|s| - 1])
  }

  /** Reading back the digits of `n` gives `n`. */
  lemma {:induction false} NatRoundTrip(n: nat)
    ensures DigitsValue(NatToString(n)) == n
    decreases n
  {
    if n >= 10 {
      var s := NatToString(n);
      assert s[..|s| - 1] == NatToString(n / 10);
      NatRoundTrip(n / 10);
    }
  }

  /** A digit string with no leading zero starting with a non-zero digit
      denotes a positive number. */
  lemma {:induction false} LeadingDigitPositive(s: string)
    requires |s| >= 1 && AllDigits(s) && s[0] != '0'
    ensures DigitsValue(s) >= 1
    decreases |s|
  {
    if |s| > 1 {
      LeadingDigitPositive(s[..|s| - 1]);
    }
  }

  /** Printing the value of a canonical digit string gives it back. */
  lemma {:induction false} CanonicalRoundTrip(s: string)
    requires IsCanonical(s)
    ensures NatToString(DigitsValue(s)) == s
    decreases |s|
  {
    if |s| > 1 {
      var p := s[..|s| - 1];
      LeadingDigitPositive(p);
      CanonicalRoundTrip(p);
      var v := DigitsValue(s);
      assert v / 10 == DigitsValue(p) && v % 10 == DigitValue(s[|s| - 1]);
      assert s == p + [s[|s| - 1]];
    }
  }

  /** Rust's `Display` of a signed integer. */
  function IntToString(i: int): string {
    if i < 0 then "-" + NatToString(-i) else NatToString(i)
  }

  /** The exact inverse of `IntToString`: `None` for every string it never
      prints (empty, leading zeros, `-0`, stray characters). */
  function ParseInt(s: string): Option<int> {
    if |s| >= 1 && s[0] == '-' then
      var m := s[1..];
      if IsCanonical(m) && m[0] != '0' then Some(-(DigitsValue(m) as int)) else None
    else if IsCanonical(s) then Some(DigitsValue(s))
    else None
  }

  /** Parsing the printed integer recovers it. */
  lemma IntRoundTrip(i: int)
    ensures ParseInt(IntToString(i)) == Some(i)
  {
    if i < 0 {
      var s := IntToString(i);
      assert s[1..] == NatToString(-i);
      NatRoundTrip(-i);
    } else {
      NatRoundTrip(i);
    }
  }

  /** Whatever parses was printed from the value it parses to. */
  lemma StringRoundTrip(s: string, i: int)
    requires ParseInt(s) == Some(i)
    ensures IntToString(i) == s
  {
    if |s| >= 1 && s[0] == '-' {
      var m := s[1..];
      LeadingDigitPositive(m);
      CanonicalRoundTrip(m);
      assert s == "-" + m;
    } else {
      CanonicalRoundTrip(s);
    }
  }
}
