/**
 Request parameters as the controller sees them: a parameter is either absent
 (`nil`) or a string. This module gives Ruby's `blank?`, `empty?` and
 `String#to_i`, and the decimal rendering used when a position is interpolated
 into a string.
 */
module Params {

  datatype Option<+T> = None | Some(value: T)

  /** A request parameter: `nil` or the text the client sent. */
  type Param = Option<string>

  /** The characters Ruby's `\s` matches, which `String#blank?` tests for. */
  predicate IsSpace(c: char) {
    c == ' ' || c == '\t' || c == '\n' || c == '\r' || c == '\U{C}'
  }

  /** The characters `String#to_i` skips before the number (C's `isspace`). */
  predicate IsLeadingSpace(c: char) {
    IsSpace(c) || c == '\U{B}'
  }

  predicate IsDigit(c: char) {
    '0' <= c <= '9'
  }

  /** Rails' `blank?`: `nil`, or a string with no non-space character. */
  predicate IsBlank(p: Param): (b: bool)
    ensures p == None || p == Some("") ==> b
    ensures p.Some? && p.value != [] && !IsSpace(p.value[0]) ==> !b
  {
    match p
    case None => true
    case Some(s) => forall i :: 0 <= i < |s| ==> IsSpace(s[i])
  }

  /** The "missing" test of the card-add action: `nil` or exactly the empty string. */
  predicate IsMissing(p: Param): (m: bool)
    ensures m ==> IsBlank(p)
  {
    p == None || p == Some("")
  }

  /** Blank and missing differ exactly on non-empty all-space strings. */
  lemma {:induction false} BlankButNotMissing(s: string)
    requires s != [] && forall i :: 0 <= i < |s| ==> IsSpace(s[i])
    ensures IsBlank(Some(s)) && !IsMissing(Some(s))
  {}

  function DigitValue(c: char): (d: nat)
    requires IsDigit(c)
    ensures d < 10
  {
    (c as int) - ('0' as int)
  }

  function DigitChar(d: nat): (c: char)
    requires d < 10
    ensures IsDigit(c) && DigitValue(c) == d
  {
    ('0' as int + d) as char
  }

  /** The longest prefix of `s` made of digits. */
  function DigitRun(s: string): (r: string)
    ensures forall i :: 0 <= i < |r| ==> IsDigit(r[i])
  {
    if s == [] || !IsDigit(s[0]) then [] else [s[0]] + DigitRun(s[1..])
  }

  /** The value of a string of decimal digits, most significant first. */
  function DecimalValue(ds: string): (n: nat)
    requires forall i :: 0 <= i < |ds| ==> IsDigit(ds[i])
  {
    if ds == [] then 0
    else 10 * DecimalValue(ds[..|ds| - 1]) + DigitValue(ds[|ds| - 1])
  }

  /** `s` without its leading spaces. */
  function SkipSpaces(s: string): (r: string)
  {
    if s != [] && IsLeadingSpace(s[0]) then SkipSpaces(s[1..]) else s
  }

  /** A string of spaces is skipped whole. */
  lemma {:induction false} SkipBlank(s: string)
    ensures (forall i :: 0 <= i < |s| ==> IsSpace(s[i])) ==> SkipSpaces(s) == []
  {
    if s != [] {
      SkipBlank(s[1..]);
      assert (forall i :: 0 <= i < |s| ==> IsSpace(s[i])) ==> forall i :: 0 <= i < |s[1..]| ==> IsSpace(s[1..][i]);
    }
  }

  /** Ruby's `String#to_i`: leading spaces, an optional sign, then the longest
      run of digits; a string with no digits there gives 0. Underscores
      between digits and a `0d` prefix, which Ruby also accepts, are not
      modelled. A blank string reads as 0, and only a minus sign after the
      leading spaces gives a negative number. */
  function ToI(s: string): (n: int)
    ensures (forall i :: 0 <= i < |s| ==> IsSpace(s[i])) ==> n == 0
    ensures n < 0 ==> SkipSpaces(s) != [] && SkipSpaces(s)[0] == '-'
  {
    SkipBlank(s);
    var t := SkipSpaces(s);
    if t != [] && t[0] == '-' then 0 - DecimalValue(DigitRun(t[1..]))
    else if t != [] && t[0] == '+' then DecimalValue(DigitRun(t[1..]))
    else DecimalValue(DigitRun(t))
  }

  /** `to_i` on a parameter: `nil.to_i` is 0, so every blank parameter
      reads as 0. */
  function ParamToI(p: Param): (n: int)
    ensures IsBlank(p) ==> n == 0
    ensures p.Some? ==> n == ToI(p.value)
  {
    match p
    case None => 0
    case Some(s) => ToI(s)
  }

  /** Decimal rendering of a natural number (`Integer#to_s`). */
  function Show(n: nat): (s: string)
    ensures s != [] && !IsLeadingSpace(s[0])
    ensures forall i :: 0 <= i < |s| ==> IsDigit(s[i])
  {
    if n < 10 then [DigitChar(n)] else Show(n / 10) + [DigitChar(n % 10)]
  }

  /** Rendering an integer, as string interpolation does. */
  function ShowInt(n: int): (s: string) {
    if n < 0 then "-" + Show(-n) else Show(n)
  }

  lemma {:induction false} DecimalValueOfShow(n: nat)
    ensures DecimalValue(Show(n)) == n
  {
    if n >= 10 {
      var s := Show(n);
      assert s[..|s| - 1] == Show(n / 10);
      DecimalValueOfShow(n / 10);
    }
  }

  /** The digit run of a digit string followed by a non-digit is that string. */
  lemma {:induction false} DigitRunOfDigits(s: string, rest: string)
    requires forall i :: 0 <= i < |s| ==> IsDigit(s[i])
    requires rest == [] || !IsDigit(rest[0])
    ensures DigitRun(s + rest) == s
  {
    if s == [] {
      assert s + rest == rest;
    } else {
      assert (s + rest)[0] == s[0] && (s + rest)[1..] == s[1..] + rest;
      DigitRunOfDigits(s[1..], rest);
    }
  }

  /** `to_i` of a string that starts with a digit reads its digit run. */
  lemma ToIOfUnsigned(t: string)
    requires t != [] && IsDigit(t[0])
    ensures ToI(t) == DecimalValue(DigitRun(t))
  {
    assert SkipSpaces(t) == t;
  }

  /** A digit string reads back as its value, whatever non-digit text follows. */
  lemma ToIOfDigits(s: string, rest: string)
    requires s != [] && forall i :: 0 <= i < |s| ==> IsDigit(s[i])
    requires rest == [] || !IsDigit(rest[0])
    ensures ToI(s + rest) == DecimalValue(s)
  {
    var t := s + rest;
    assert t[0] == s[0];
    ToIOfUnsigned(t);
    DigitRunOfDigits(s, rest);
  }

  /** `to_i` of a string that starts with a minus sign negates the digit
      run after it. */
  lemma ToIOfMinus(t: string)
    requires t != [] && t[0] == '-'
    ensures ToI(t) == 0 - DecimalValue(DigitRun(t[1..]))
  {
    assert SkipSpaces(t) == t;
  }

  /** A minus sign before a digit string negates its value. */
  lemma ToIOfNegatedDigits(s: string, rest: string)
    requires s != [] && forall i :: 0 <= i < |s| ==> IsDigit(s[i])
    requires rest == [] || !IsDigit(rest[0])
    ensures ToI("-" + s + rest) == 0 - DecimalValue(s)
  {
    var t := "-" + (s + rest);
    assert t == "-" + s + rest;
    ToIOfMinus(t);
    assert t[1..] == s + rest;
    DigitRunOfDigits(s, rest);
  }

  /** `to_i` reads back what `to_s` wrote, and stops at the first non-digit
      after it: the round trip behind every number that travels as text. */
  lemma ToIOfShow(n: int, rest: string)
    requires rest == [] || !IsDigit(rest[0])
    ensures ToI(ShowInt(n) + rest) == n
  {
    var m: nat := if n < 0 then -n else n;
    DecimalValueOfShow(m);
    if n < 0 {
      ToIOfNegatedDigits(Show(m), rest);
    } else {
      ToIOfDigits(Show(m), rest);
    }
  }
}
