/**
 The few C library conversions the rest of the program leans on: character classes,
 std::to_string, std::strtoll and std::stoi, with their widths written out.
 */
module CText {

  const INT64_MIN: int := -0x8000_0000_0000_0000
  const INT64_MAX: int := 0x7fff_ffff_ffff_ffff
  const INT32_MIN: int := -0x8000_0000
  const INT32_MAX: int := 0x7fff_ffff

  type Int64 = i: int | INT64_MIN <= i <= INT64_MAX

  datatype Option<+T> = None | Some(value: T)
  {
    function GetOr(default: T): T {
      if Some? then value else default
    }
  }

  /** isspace in the C locale. */
  predicate IsSpace(c: char) {
    c == ' ' || '\t' <= c <= '\r'
  }

  predicate IsDigit(c: char) {
    '0' <= c <= '9'
  }

  predicate AllDigits(s: string) {
    forall i :: 0 <= i < |s| ==> IsDigit(s[i])
  }

  function DigitChar(d: nat): (c: char)
    requires d < 10
    ensures IsDigit(c) && c as int - '0' as int == d
  {
    (d + '0' as int) as char
  }

  /** The number a string of decimal digits denotes. */
  function DigitsValue(s: string): nat
    requires AllDigits(s)
  {
    if s == "" then 0
    else DigitsValue(s[..|s|-1]) * 10 + (s[|s|-1] as int - '0' as int)
  }

  function NatText(n: nat): (s: string)
    ensures s != "" && AllDigits(s)
  {
    if n < 10 then [DigitChar(n)] else NatText(n / 10) + [DigitChar(n % 10)]
  }

  /** std::to_string. */
  function IntText(i: int): string {
    if i < 0 then "-" + NatText(-i) else NatText(i)
  }

  lemma {:induction false} NatTextValue(n: nat)
    ensures DigitsValue(NatText(n)) == n
  {
    if n < 10 {
      assert NatText(n)[..0] == "";
    } else {
      NatTextValue(n / 10);
      assert NatText(n)[..|NatText(n)|-1] == NatText(n / 10);
    }
  }

  function SkipSpaces(t: string): (r: string)
    ensures |r| <= |t|
    ensures r != "" ==> !IsSpace(r[0])
  {
    if t != "" && IsSpace(t[0]) then SkipSpaces(t[1..]) else t
  }

  /** The longest prefix of decimal digits. */
  function DigitPrefix(t: string): (d: string)
    ensures d <= t && AllDigits(d)
    ensures |d| < |t| ==> !IsDigit(t[|d|])
  {
    if t != "" && IsDigit(t[0]) then [t[0]] + DigitPrefix(t[1..]) else ""
  }

  /** The sign and the digits of the number at the start of a text, after any white space. */
  function SignedDigits(t: string): (r: (bool, string))
    ensures AllDigits(r.1)
  {
    var u := SkipSpaces(t);
    var signed := u != "" && (u[0] == '-' || u[0] == '+');
    (signed && u[0] == '-', DigitPrefix(if signed then u[1..] else u))
  }

  /** The number at the start of a text; None when there is no digit. */
  function LeadingNumber(t: string): Option<int> {
    var (negative, digits) := SignedDigits(t);
    var magnitude: int := DigitsValue(digits);
    if digits == "" then None else Some(if negative then -magnitude else magnitude)
  }

  /** std::strtoll base 10: saturating, and 0 when there is no number. */
  function Strtoll(t: string): Int64 {
    match LeadingNumber(t)
    case None => 0
    case Some(v) => if v < INT64_MIN then INT64_MIN else if v > INT64_MAX then INT64_MAX else v
  }

  /** std::stoi; None is the exception for no number or one that does not fit an int. */
  function Stoi(t: string): Option<int> {
    match LeadingNumber(t)
    case None => None
    case Some(v) => if INT32_MIN <= v <= INT32_MAX then Some(v) else None
  }

  lemma {:induction false} DigitPrefixStops(d: string, rest: string)
    requires AllDigits(d)
    requires rest == "" || !IsDigit(rest[0])
    ensures DigitPrefix(d + rest) == d
  {
    if d == "" {
      assert d + rest == rest;
    } else {
      DigitPrefixStops(d[1..], rest);
      assert (d + rest)[1..] == d[1..] + rest;
    }
  }

  lemma SignedDigitsOf(d: string)
    requires d != "" && AllDigits(d)
    ensures SignedDigits(d) == (false, d)
    ensures SignedDigits("-" + d) == (true, d)
  {
    DigitPrefixStops(d, "");
    assert d + "" == d;
    assert ("-" + d)[1..] == d;
  }

  /** A number as far as 64 bits can hold it. */
  function Saturated(i: int): Int64 {
    if i < INT64_MIN then INT64_MIN else if i > INT64_MAX then INT64_MAX else i
  }

  /** strtoll reads every number that is printed, and takes the nearest 64-bit number for one that does not fit. */
  lemma StrtollSaturates(i: int)
    ensures Strtoll(IntText(i)) == Saturated(i)
  {
    var n: nat := if i < 0 then -i else i;
    NatTextValue(n);
    SignedDigitsOf(NatText(n));
  }

  /** strtoll reads back every 64-bit number that to_string prints, the most negative included. */
  lemma StrtollReadsIntText(i: Int64)
    ensures Strtoll(IntText(i)) == i
  {
    StrtollSaturates(i);
  }

  lemma SignedDigitsBefore(d: string, rest: string)
    requires d != "" && AllDigits(d) && (rest == "" || !IsDigit(rest[0]))
    ensures SignedDigits(d + rest) == (false, d)
    ensures SignedDigits("+" + d + rest) == (false, d)
    ensures SignedDigits("-" + d + rest) == (true, d)
  {
    hide DigitPrefix;
    DigitPrefixStops(d, rest);
    assert ("-" + d + rest)[1..] == d + rest && ("+" + d + rest)[1..] == d + rest;
    assert IsDigit((d + rest)[0]);
  }

  lemma SpaceInFront(t: string)
    ensures SignedDigits(" " + t) == SignedDigits(t)
  {
    hide DigitPrefix;
    assert (" " + t)[1..] == t;
  }

  /** Blanks in front of a number, a plus sign, and what follows it without being a digit do not matter. */
  lemma NumberInContext(n: nat, rest: string)
    requires rest == "" || !IsDigit(rest[0])
    ensures LeadingNumber(NatText(n) + rest) == Some(n) == LeadingNumber("+" + NatText(n) + rest)
    ensures var r := LeadingNumber("-" + NatText(n) + rest); r.Some? && r.value + n == 0
    ensures LeadingNumber(" " + (NatText(n) + rest)) == Some(n)
  {
    hide SignedDigits, NatText, DigitsValue;
    NatTextValue(n);
    SignedDigitsBefore(NatText(n), rest);
    SpaceInFront(NatText(n) + rest);
  }

  /** The white space of the C locale. */
  lemma SpacesAre(c: char)
    ensures IsSpace(c) <==> c in [' ', '\t', '\n', 11 as char, 12 as char, '\r']
  {
  }
}
