/** JavaScript's reading of a string as a number, as far as the loose comparison `text == true` needs it: whether
    the number is one.  Numbers are exact here, and the last step rounds to double precision. */
module NumericText {

  /** White space and line ends, which are stripped on both sides. */
  predicate IsSpace(c: char) {
    var n := c as int;
    || 9 <= n <= 13 || n == 32 || n == 160 || n == 0x1680 || 0x2000 <= n <= 0x200a
    || n == 0x2028 || n == 0x2029 || n == 0x202f || n == 0x205f || n == 0x3000 || n == 0xfeff
  }

  function TrimLeft(s: string): string {
    if s != "" && IsSpace(s[0]) then TrimLeft(s[1..]) else s
  }

  function TrimRight(s: string): string {
    if s != "" && IsSpace(s[|s| - 1]) then TrimRight(s[..|s| - 1]) else s
  }

  /** A digit's value, in bases up to sixteen. */
  function Digit(c: char): nat {
    if '0' <= c <= '9' then c as int - '0' as int
    else if 'a' <= c <= 'f' then c as int - 'a' as int + 10
    else if 'A' <= c <= 'F' then c as int - 'A' as int + 10
    else 16
  }

  /** How many digits of the base s starts with. */
  function DigitRun(s: string, base: nat): (n: nat)
    ensures n <= |s|
  {
    if s != "" && Digit(s[0]) < base then 1 + DigitRun(s[1..], base) else 0
  }

  function NumberOf(digits: string, base: nat): nat {
    if digits == "" then 0 else NumberOf(digits[..|digits| - 1], base) * base + Digit(digits[|digits| - 1])
  }

  function TenTo(n: nat): nat {
    if n == 0 then 1 else 10 * TenTo(n - 1)
  }

  /** m / d, rounded to the nearest double, is one. */
  predicate RoundsToOne(m: nat, d: nat) {
    (0x40_0000_0000_0000 - 1) * d <= 0x40_0000_0000_0000 * m && 0x20_0000_0000_0000 * m <= (0x20_0000_0000_0000 + 1) * d
  }

  /** m times ten to the e. */
  predicate ScaledIsOne(m: nat, e: int) {
    if 0 <= e then m * TenTo(e) == 1 else RoundsToOne(m, TenTo(-e))
  }

  predicate IsExponent(s: string) {
    var digits := if s != "" && s[0] in "+-" then s[1..] else s;
    digits != "" && DigitRun(digits, 10) == |digits|
  }

  function Exponent(s: string): int
    requires IsExponent(s)
  {
    if s[0] == '-' then -(NumberOf(s[1..], 10) as int)
    else if s[0] == '+' then NumberOf(s[1..], 10)
    else NumberOf(s, 10)
  }

  /** Digits, a point and more digits, and an exponent; the digits or the point and the exponent may be missing. */
  predicate DecimalIsOne(s: string) {
    var n := DigitRun(s, 10);
    var rest := s[n..];
    var point := rest != "" && rest[0] == '.';
    var f := if point then DigitRun(rest[1..], 10) else 0;
    var fraction, end := if point then rest[1..1 + f] else "", if point then rest[1 + f..] else rest;
    var m := NumberOf(s[..n] + fraction, 10);
    && 0 < n + f
    && (end == "" || (end[0] in "eE" && IsExponent(end[1..])))
    && ScaledIsOne(m, (if end == "" then 0 else Exponent(end[1..])) - f)
  }

  /** A prefix such as "0x" gives the base of an integer. */
  function Base(s: string): nat {
    if |s| <= 2 || s[0] != '0' then 10
    else if s[1] in "xX" then 16
    else if s[1] in "oO" then 8
    else if s[1] in "bB" then 2
    else 10
  }

  /** `text == true` */
  predicate EqualsTrue(text: string) {
    var s := TrimRight(TrimLeft(text));
    if Base(s) != 10 then DigitRun(s[2..], Base(s)) == |s| - 2 && NumberOf(s[2..], Base(s)) == 1
    else if s != "" && s[0] == '+' then DecimalIsOne(s[1..])
    else DecimalIsOne(s)
  }

  lemma OneIsTrue() returns (text: string)
    ensures text == "1" && EqualsTrue(text)
  {
    text := "1";
    assert TrimRight(TrimLeft(text)) == text;
    assert DigitRun(text, 10) == 1;
    assert text[..0] == "" && text[..1] + "" == text;
    assert NumberOf(text, 10) == 1;
  }

  lemma {:induction false} DigitsRun(digits: string)
    requires forall k :: 0 <= k < |digits| ==> '0' <= digits[k] <= '9'
    ensures DigitRun(digits, 10) == |digits|
  {
    if digits != "" {
      DigitsRun(digits[1..]);
    }
  }

  predicate Digits(s: string) {
    s != "" && forall k :: 0 <= k < |s| ==> '0' <= s[k] <= '9'
  }

  lemma DecimalDigits(digits: string)
    requires Digits(digits)
    ensures DecimalIsOne(digits) <==> NumberOf(digits, 10) == 1
  {
    DigitsRun(digits);
    var n := |digits|;
    assert digits[n..] == "" && digits[..n] + "" == digits;
    assert ScaledIsOne(NumberOf(digits, 10), 0) <==> NumberOf(digits, 10) == 1;
  }

  lemma NothingToTrim(s: string)
    requires s != "" && !IsSpace(s[0]) && !IsSpace(s[|s| - 1])
    ensures TrimLeft(s) == s && TrimRight(s) == s
  {
  }

  lemma DigitsHaveNoBase(digits: string)
    requires Digits(digits)
    ensures Base(digits) == 10 && Base("+" + digits) == 10
  {
  }

  /** A numeral of decimal digits, leading zeros or not, is true exactly if its value is one. */
  lemma DigitsEqualTrueIff(digits: string)
    requires Digits(digits)
    ensures EqualsTrue(digits) <==> NumberOf(digits, 10) == 1
  {
    NothingToTrim(digits);
    DigitsHaveNoBase(digits);
    DecimalDigits(digits);
  }

  /** So is one with a plus sign. */
  lemma PlusEqualsTrueIff(digits: string)
    requires Digits(digits)
    ensures EqualsTrue("+" + digits) <==> NumberOf(digits, 10) == 1
  {
    var s := "+" + digits;
    NothingToTrim(s);
    DigitsHaveNoBase(digits);
    assert s[1..] == digits;
    DecimalDigits(digits);
  }

  /** Stripping the end of a text stops at the last character that is no white space. */
  lemma {:induction false} TrimRightKeeps(text: string, front: string)
    requires front <= text && front != "" && !IsSpace(front[|front| - 1])
    ensures front <= TrimRight(text)
  {
    if IsSpace(text[|text| - 1]) {
      TrimRightKeeps(text[..|text| - 1], front);
    }
  }

  /** The messages that matchers return are relative clauses, which are no numbers. */
  lemma ClauseIsNotTrue(text: string)
    requires "which" <= text
    ensures !EqualsTrue(text)
  {
    assert text[0] == 'w' && TrimLeft(text) == text;
    TrimRightKeeps(text, "which");
    assert TrimRight(text)[0] == "which"[0];
    assert DigitRun(TrimRight(text), 10) == 0;
  }
}
