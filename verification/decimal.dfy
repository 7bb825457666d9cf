/** Unsigned decimal numerals, as read by Go's address parsers (the octets of
    a dotted quad, the prefix length of a CIDR) and as written by its
    formatters. */
module Decimal {

  predicate IsDigit(c: char) {
    '0' <= c <= '9'
  }

  predicate IsDigits(s: string) {
    forall k :: 0 <= k < |s| ==> IsDigit(s[k])
  }

  /** A numeral as a formatter writes it: at least one digit and no leading
      zero unless the numeral is `0` itself. */
  predicate IsCanonical(s: string) {
    |s| >= 1 && IsDigits(s) && (s[0] == '0' ==> |s| == 1)
  }

  function DigitChar(d: nat): (c: char)
    requires d < 10
    ensures IsDigit(c)
  {
    ('0' as int + d) as char
  }

  /** The number a string of digits denotes, most significant digit first. */
  function Value(s: string): nat
    requires IsDigits(s)
    decreases |s|
  {
    if s == [] then 0
    else Value(s[..|s| - 1]) * 10 + (s[|s| - 1] as int - '0' as int)
  }

  /** The canonical numeral of `n`. */
  function Format(n: nat): (s: string)
    ensures IsCanonical(s)
    decreases n
  {
    if n < 10 then [DigitChar(n)] else Format(n / 10) + [DigitChar(n % 10)]
  }

  /** Reading a formatted number gives the number back. */
  lemma {:induction false} ValueOfFormat(n: nat)
    ensures Value(Format(n)) == n
    decreases n
  {
    if n >= 10 {
      var s := Format(n);
      ValueOfFormat(n / 10);
      assert s[..|s| - 1] == Format(n / 10);
    }
  }

  /** A numeral without a leading zero and with more than one digit denotes
      at least ten. */
  lemma {:induction false} ValueLowerBound(s: string)
    requires IsDigits(s) && |s| >= 1 && s[0] != '0'
    ensures Value(s) >= 1
    ensures |s| >= 2 ==> Value(s) >= 10
    decreases |s|
  {
    if |s| >= 2 {
      ValueLowerBound(s[..|s| - 1]);
    }
  }

  /** Formatting the value of a canonical numeral gives the numeral back, so
      `Format` and `Value` are inverse bijections between numbers and
      canonical numerals. */
  lemma {:induction false} FormatOfValue(s: string)
    requires IsCanonical(s)
    ensures Format(Value(s)) == s
    decreases |s|
  {
    if |s| >= 2 {
      var p := s[..|s| - 1];
      ValueLowerBound(s);
      FormatOfValue(p);
      var d := s[|s| - 1] as int - '0' as int;
      assert Value(s) / 10 == Value(p) && Value(s) % 10 == d;
      assert DigitChar(d) == s[|s| - 1];
      assert p + [s[|s| - 1]] == s;
    }
  }
}
