/**
 * The C library's view of decimal numbers as both programs use it:
 * `std::stoi` / `std::stoll` (which call `strtol` / `strtoll` in base 10 and
 * throw when no digit is found or the value does not fit) and the decimal
 * printing of `%d` / `std::to_string` for non-negative values.
 */
module CNumbers {
  import opened Common

  const INT32_MIN: int := -0x8000_0000
  const INT32_MAX: int := 0x7FFF_FFFF
  const INT64_MIN: int := -0x8000_0000_0000_0000
  const INT64_MAX: int := 0x7FFF_FFFF_FFFF_FFFF

  /** `isspace` in the C locale: blank, tab, newline, vertical tab, form feed, carriage return. */
  predicate IsSpace(c: char) {
    c == ' ' || '\t' <= c <= '\r'
  }

  predicate IsDigit(c: char) {
    '0' <= c <= '9'
  }

  function DigitValue(c: char): (d: nat)
    requires IsDigit(c)
    ensures d < 10
  {
    c as int - '0' as int
  }

  function DigitChar(d: nat): (c: char)
    requires d < 10
    ensures IsDigit(c) && DigitValue(c) == d
  {
    ('0' as int + d) as char
  }

  predicate AllDigits(s: string) {
    forall i :: 0 <= i < |s| ==> IsDigit(s[i])
  }

  /** The length of the longest prefix of `s` whose characters all satisfy `p`. */
  function PrefixRun(s: string, p: char -> bool): (n: nat)
    ensures n <= |s|
    ensures forall i :: 0 <= i < n ==> p(s[i])
    ensures n < |s| ==> !p(s[n])
  {
    if s == [] || !p(s[0]) then 0 else 1 + PrefixRun(s[1..], p)
  }

  /** The value of a string of decimal digits, most significant digit first. */
  function DigitsValue(s: string): nat
    requires AllDigits(s)
  {
    if s == [] then 0 else DigitsValue(Init(s)) * 10 + DigitValue(Last(s))
  }

  /**
   * `strtol` / `strtoll` in base 10 before the range check: white space is
   * skipped, one optional sign is read, then the longest run of digits.
   * Characters after the digits are ignored; with no digit there is no value.
   */
  function ParseLeadingInt(s: string): Option<int> {
    var t := s[PrefixRun(s, IsSpace)..];
    var signed := |t| > 0 && (t[0] == '+' || t[0] == '-');
    var u := if signed then t[1..] else t;
    var n := PrefixRun(u, IsDigit);
    if n == 0 then None
    else if signed && t[0] == '-' then Some(0 - DigitsValue(u[..n]))
    else Some(DigitsValue(u[..n]) as int)
  }

  /** `std::stoi`: a value, or None where it throws (no digits, or out of `int` range). */
  function Stoi(s: string): (r: Option<int>)
    ensures r.Some? ==> INT32_MIN <= r.value <= INT32_MAX
  {
    match ParseLeadingInt(s)
    case Some(v) => if INT32_MIN <= v <= INT32_MAX then Some(v) else None
    case None => None
  }

  /** `std::stoll`: a value, or None where it throws (no digits, or out of `long long` range). */
  function Stoll(s: string): (r: Option<int>)
    ensures r.Some? ==> INT64_MIN <= r.value <= INT64_MAX
  {
    match ParseLeadingInt(s)
    case Some(v) => if INT64_MIN <= v <= INT64_MAX then Some(v) else None
    case None => None
  }

  /** Decimal text of a non-negative number, as `%d` and `std::to_string` print it. */
  function NatToString(n: nat): (s: string)
    ensures |s| > 0 && AllDigits(s)
    ensures DigitsValue(s) == n
    ensures |s| > 1 ==> s[0] != '0'
  {
    if n < 10 then [DigitChar(n)]
    else
      var s := NatToString(n / 10) + [DigitChar(n % 10)];
      assert Init(s) == NatToString(n / 10);
      s
  }

  /** Distinct numbers print differently. */
  lemma NatToStringInjective(a: nat, b: nat)
    requires NatToString(a) == NatToString(b)
    ensures a == b
  {
  }

  /** The digit run of a printed number followed by a non-digit is exactly the printed number. */
  lemma DigitRunOfPrinted(n: nat, rest: string)
    requires rest == [] || !IsDigit(rest[0])
    ensures PrefixRun(NatToString(n) + rest, IsDigit) == |NatToString(n)|
  {
    var d := NatToString(n);
    var s := d + rest;
    assert forall i :: 0 <= i < |d| ==> s[i] == d[i];
    assert |d| < |s| ==> s[|d|] == rest[0];
  }

  /** Reading back a printed number, followed by anything but a digit, gives the number. */
  lemma ParseNatToString(n: nat, rest: string)
    requires rest == [] || !IsDigit(rest[0])
    ensures ParseLeadingInt(NatToString(n) + rest) == Some(n)
  {
    var d := NatToString(n);
    var s := d + rest;
    assert s[0] == d[0] && IsDigit(s[0]);
    assert PrefixRun(s, IsSpace) == 0;
    DigitRunOfPrinted(n, rest);
    assert s[..|d|] == d;
  }

  /** A printed number that fits in `int` survives `std::stoi`. */
  lemma StoiNatToString(n: nat)
    requires n <= INT32_MAX
    ensures Stoi(NatToString(n)) == Some(n)
  {
    ParseNatToString(n, []);
    assert NatToString(n) + [] == NatToString(n);
  }

  /** A printed number that fits in `long long` survives `std::stoll`. */
  lemma StollNatToString(n: nat)
    requires n <= INT64_MAX
    ensures Stoll(NatToString(n)) == Some(n)
  {
    ParseNatToString(n, []);
    assert NatToString(n) + [] == NatToString(n);
  }

  /** A minus sign before a printed number negates it. */
  lemma ParseNegative(n: nat, rest: string)
    requires rest == [] || !IsDigit(rest[0])
    ensures ParseLeadingInt("-" + NatToString(n) + rest) == Some(0 - n)
  {
    var d := NatToString(n);
    var u := d + rest;
    var s := "-" + u;
    assert s == "-" + d + rest;
    assert s[0] == '-' && !IsSpace(s[0]);
    assert PrefixRun(s, IsSpace) == 0;
    assert s[0..] == s && s[1..] == u;
    DigitRunOfPrinted(n, rest);
    assert u[..|d|] == d;
  }
}
